/** The upload driver of mbox2gdata.py: mailbox file names carry the flags and labels of
    their messages; failed messages are re-filed into a side mailbox. */
module Mbox2Gdata {
  import opened Wrappers
  import opened Seqs
  import opened Text
  import opened Headers
  import opened MailSchema
  import opened Migration

  const OutputTag := "mbox2gdata"
  const FolderDelim := "-"
  const FailedPrefix := OutputTag + FolderDelim + "failed"
  const FailureHeader := "X-" + OutputTag + "-Failure"
  const UnlabeledFolder := "all"
  const MboxSuffix := ".mbox"

  /** The `FLAGS` table: file-name token to system flag. */
  function FlagOf(token: string): Option<Flag>
  {
    if token == "INBOX" then Some(Inbox)
    else if token == "UNREAD" then Some(Unread)
    else if token == "STARRED" then Some(Starred)
    else if token == "TRASH" then Some(Trash)
    else if token == "DRAFT" then Some(Draft)
    else if token == "SENT" then Some(Sent)
    else None
  }

  /** The file-name token of a flag. */
  function FlagToken(f: Flag): string
  {
    match f
    case Draft => "DRAFT"
    case Inbox => "INBOX"
    case Sent => "SENT"
    case Starred => "STARRED"
    case Trash => "TRASH"
    case Unread => "UNREAD"
  }

  /** The table maps exactly the six flag tokens, each to its own flag. */
  lemma FlagTable(token: string, f: Flag)
    ensures FlagOf(token) == Some(f) <==> token == FlagToken(f)
  {
  }

  /** A token that is not a key of `FLAGS`, so it stays a label. */
  predicate IsLabelToken(token: string)
  {
    FlagOf(token).None?
  }

  // ---------------------------------------------------------------------------
  // File names

  /** `os.path.basename`: the text after the last `/`. */
  function Basename(path: string): (name: string)
    ensures '/' !in name
  {
    match LastIndexOf(path, '/')
    case None => path
    case Some(i) =>
      var name := path[i + 1..];
      assert forall k :: 0 <= k < |name| ==> name[k] == path[i + 1 + k];
      name
  }

  /** `name.rsplit('.', 1)[0]`: everything before the last `.`, or all of it. */
  function StripLastSuffix(name: string): string
  {
    match LastIndexOf(name, '.')
    case None => name
    case Some(i) => name[..i]
  }

  /** The folder name of a mailbox path. */
  function FolderName(path: string): string
  {
    StripLastSuffix(Basename(path))
  }

  /** Only the last `.`-suffix is removed: for a path `dir/base.ext` with no `.` in the
      extension, the folder is `base`, dots and all. */
  lemma FolderNameOfPath(dir: string, base: string, ext: string)
    requires '/' !in base && '/' !in ext && '.' !in ext
    ensures FolderName(dir + "/" + base + "." + ext) == base
    ensures FolderName(base + "." + ext) == base
  {
    var file := base + "." + ext;
    assert file == base + ['.'] + ext;
    forall k | 0 <= k < |file| ensures file[k] != '/' {
      if k < |base| { assert file[k] == base[k]; }
      else if k > |base| { assert file[k] == ext[k - |base| - 1]; }
    }
    assert '/' !in file;
    LastOccurrence(dir, '/', file);
    assert dir + "/" + base + "." + ext == dir + ['/'] + file;
    assert (dir + ['/'] + file)[|dir| + 1..] == file;
    assert LastIndexOf(file, '/') == None;
    LastOccurrence(base, '.', ext);
    assert file[..|base|] == base;
  }

  /** `FAILED_PREFIX-<folder>.mbox`. */
  function FailedFileName(folder: string): string
  {
    FailedPrefix + FolderDelim + folder + MboxSuffix
  }

  /** The directory filter of `upload`. */
  predicate IsInputMailbox(file: string)
  {
    !StartsWith(file, FailedPrefix) && EndsWith(file, MboxSuffix)
  }

  /** A failed-messages file is never picked up as input, while its source file is. */
  lemma FailedFileNeverSelected(folder: string)
    ensures !IsInputMailbox(FailedFileName(folder))
    ensures EndsWith(FailedFileName(folder), MboxSuffix)
  {
    var f := FailedFileName(folder);
    assert f[..|FailedPrefix|] == FailedPrefix;
    assert f[|f| - |MboxSuffix|..] == MboxSuffix;
  }

  /** `INBOX.mbox` is selected and `mbox2gdata-failed-INBOX.mbox` is not. */
  lemma SelectionExample()
    ensures SelectedEntries(["INBOX.mbox", "mbox2gdata-failed-INBOX.mbox"]) == ["INBOX.mbox"]
  {
    FailedFileNeverSelected("INBOX");
    assert FailedFileName("INBOX") == "mbox2gdata-failed-INBOX.mbox";
    var es := ["INBOX.mbox", "mbox2gdata-failed-INBOX.mbox"];
    assert "INBOX.mbox"[|"INBOX.mbox"| - |MboxSuffix|..] == MboxSuffix;
    assert IsInputMailbox("INBOX.mbox");
    assert es[..1] == ["INBOX.mbox"];
    assert es[..1][..0] == [];
    assert Filter(es[..1], IsInputMailbox) == ["INBOX.mbox"];
    assert !IsInputMailbox(es[1]);
  }

  /** The entries of a directory listing that are read as mailboxes, in listing order. */
  function SelectedEntries(entries: seq<string>): seq<string>
  {
    Filter(entries, IsInputMailbox)
  }

  /** `os.path.join(dir, file)`. */
  function PathJoin(dir: string, file: string): string
  {
    if StartsWith(file, "/") then file
    else if dir == "" || EndsWith(dir, "/") then dir + file
    else dir + "/" + file
  }

  /** The paths `upload` collects from a directory listing. */
  function InputPaths(dir: string, entries: seq<string>): seq<string>
  {
    if entries == [] then []
    else
      var n := |entries| - 1;
      InputPaths(dir, entries[..n]) + (if IsInputMailbox(entries[n]) then [PathJoin(dir, entries[n])] else [])
  }

  /** The collected paths are the selected entries, in order, each joined to the directory. */
  lemma {:induction false} InputPathsSpec(dir: string, entries: seq<string>)
    ensures |InputPaths(dir, entries)| == |SelectedEntries(entries)|
    ensures forall k :: 0 <= k < |InputPaths(dir, entries)| ==>
      InputPaths(dir, entries)[k] == PathJoin(dir, SelectedEntries(entries)[k])
  {
    if entries != [] {
      InputPathsSpec(dir, entries[..|entries| - 1]);
    }
  }

  /** What `os.path` says the input path is. */
  datatype PathKind = Directory(entries: seq<string>) | RegularFile | Missing

  datatype InputError = NotFileOrDirectory(path: string)

  /** The input resolution of `upload`. */
  method ResolveInputs(path: string, kind: PathKind) returns (r: Result<seq<string>, InputError>)
    ensures kind.Directory? ==> r == Success(InputPaths(path, kind.entries))
    ensures kind.RegularFile? ==> r == Success([path])
    ensures kind.Missing? ==> r == Failure(NotFileOrDirectory(path))
  {
    match kind
    case Directory(entries) =>
      var folders := [];
      var i := 0;
      while i < |entries|
        invariant 0 <= i <= |entries|
        invariant folders == InputPaths(path, entries[..i])
      {
        var file := entries[i];
        assert entries[..i + 1][..i] == entries[..i];
        if !StartsWith(file, FailedPrefix) && EndsWith(file, MboxSuffix) {
          folders := folders + [PathJoin(path, file)];
        }
        i := i + 1;
      }
      assert entries[..i] == entries;
      r := Success(folders);
    case RegularFile =>
      r := Success([path]);
    case Missing =>
      r := Failure(NotFileOrDirectory(path));
  }

  // ---------------------------------------------------------------------------
  // Flags and labels from the folder name

  /** The labels: the tokens that are not flag names, in order. */
  function NonFlagTokens(tokens: seq<string>): seq<string>
  {
    Filter(tokens, IsLabelToken)
  }

  /** The properties: the OR of the flag of every flag token. */
  function FlagBits(tokens: seq<string>): int
  {
    if tokens == [] then 0
    else
      var n := |tokens| - 1;
      var p := FlagBits(tokens[..n]);
      match FlagOf(tokens[n])
      case Some(f) => SetBit(p, BitIndex(f))
      case None => p
  }

  /** `(labels, properties)` for a folder name: `(None, 0)` for `all`, otherwise the
      non-flag tokens and the OR of the flag tokens of the `-`-split name. */
  function FolderMetadata(folder: string): (Option<seq<string>>, int)
  {
    if folder == UnlabeledFolder then (None, 0)
    else
      var tokens := Split(folder, FolderDelim);
      (Some(NonFlagTokens(tokens)), FlagBits(tokens))
  }

  /** The `while`/`del` loop of `upload_folder`: flag tokens are deleted from the list and
      OR-ed into the properties; the other tokens stay, in order. */
  method ParseFolder(folder: string) returns (labels: Option<seq<string>>, properties: int)
    ensures (labels, properties) == FolderMetadata(folder)
  {
    labels := None;
    properties := 0;
    if folder != UnlabeledFolder {
      var ls := Split(folder, FolderDelim);
      ghost var tokens := ls;
      ghost var j := 0;
      var i := 0;
      while i < |ls|
        invariant 0 <= i <= |ls| && 0 <= j <= |tokens|
        invariant ls[..i] == NonFlagTokens(tokens[..j])
        invariant ls[i..] == tokens[j..]
        invariant properties == FlagBits(tokens[..j])
        decreases |ls| - i
      {
        var token := ls[i];
        assert token == tokens[j];
        assert tokens[..j + 1][..j] == tokens[..j];
        var flag := FlagOf(token);
        if flag.Some? {
          properties := SetBit(properties, BitIndex(flag.value));
          ls := ls[..i] + ls[i + 1..];
        } else {
          assert ls[..i + 1] == ls[..i] + [token];
          i := i + 1;
        }
        j := j + 1;
      }
      assert tokens[..j] == tokens;
      assert ls[..i] == ls;
      labels := Some(ls);
    }
  }

  /** The properties are the bitwise OR of the flags named: a flag's bit is set exactly when
      its token occurs, and no bit outside the six flags is set. */
  lemma {:induction false} FlagBitsSpec(tokens: seq<string>)
    ensures 0 <= FlagBits(tokens) < 64
    ensures forall f :: HasFlag(FlagBits(tokens), f) <==> FlagToken(f) in tokens
  {
    if tokens == [] {
      forall f ensures !HasFlag(0, f) { HasBitZero(BitIndex(f)); }
    } else {
      var n := |tokens| - 1;
      var init := tokens[..n];
      FlagBitsSpec(init);
      assert tokens == init + [tokens[n]];
      var p := FlagBits(init);
      match FlagOf(tokens[n])
      case Some(g) =>
        assert Pow2(6) == 64;
        SetBitBound(p, BitIndex(g), 6);
        forall f ensures HasFlag(SetBit(p, BitIndex(g)), f) <==> FlagToken(f) in tokens {
          SetBitSpec(p, BitIndex(g), BitIndex(f));
          FlagTable(tokens[n], f);
        }
      case None =>
        forall f ensures FlagToken(f) in tokens <==> FlagToken(f) in init {
          FlagTable(tokens[n], f);
        }
    }
  }

  /** Repeated flag tokens are harmless: the properties depend only on which flag
      tokens occur. */
  lemma SameFlagsSameProperties(tokens: seq<string>, others: seq<string>)
    requires forall f :: FlagToken(f) in tokens <==> FlagToken(f) in others
    ensures FlagBits(tokens) == FlagBits(others)
  {
    FlagBitsSpec(tokens);
    FlagBitsSpec(others);
    assert Pow2(6) == 64;
    forall i | 0 <= i < 6 ensures HasBit(FlagBits(tokens), i) <==> HasBit(FlagBits(others), i) {
      var f := MailFlags[i];
      assert BitIndex(f) == i;
      assert HasFlag(FlagBits(tokens), f) <==> FlagToken(f) in tokens;
      assert HasFlag(FlagBits(others), f) <==> FlagToken(f) in others;
    }
    BitsDetermine(FlagBits(tokens), FlagBits(others), 6);
  }

  /** The labels hold no flag token and every other token with its multiplicity. */
  lemma LabelsSpec(tokens: seq<string>, t: string)
    ensures forall k :: 0 <= k < |NonFlagTokens(tokens)| ==> FlagOf(NonFlagTokens(tokens)[k]).None?
    ensures Count(NonFlagTokens(tokens), t) == if FlagOf(t).None? then Count(tokens, t) else 0
  {
    FilterAll(tokens, IsLabelToken);
    FilterCount(tokens, IsLabelToken, t);
  }

  /** The tokens of `INBOX-STARRED-priority`: in the inbox, starred, labelled `priority`. */
  lemma TokensExample()
    ensures NonFlagTokens(["INBOX", "STARRED", "priority"]) == ["priority"]
    ensures FlagBits(["INBOX", "STARRED", "priority"]) == 10
  {
    var tokens := ["INBOX", "STARRED", "priority"];
    assert tokens[..2] == ["INBOX", "STARRED"];
    assert tokens[..2][..1] == ["INBOX"];
    assert ["INBOX"][..0] == [];
    assert NonFlagTokens(["INBOX"]) == [];
    assert NonFlagTokens(tokens[..2]) == [];
    assert SetBit(0, 1) == 2;
    assert SetBit(2, 3) == 10;
  }

  /** The folder of the mailbox `INBOX-STARRED-priority.mbox`. */
  lemma ExampleFolderName()
    ensures FolderName("INBOX-STARRED-priority.mbox") == "INBOX-STARRED-priority"
  {
    ExampleFileName();
    FolderNameOfPath("", "INBOX-STARRED-priority", "mbox");
  }

  /** The file name is the folder, a dot and the extension. */
  lemma ExampleFileName()
    ensures "INBOX-STARRED-priority" + "." + "mbox" == "INBOX-STARRED-priority.mbox"
  {
  }

  /** The folder `INBOX-STARRED-priority` is its three tokens joined by dashes. */
  lemma ExampleFolderParts()
    ensures "INBOX" + ['-'] + ("STARRED" + ['-'] + "priority") == "INBOX-STARRED-priority"
    ensures '-' !in "INBOX" && '-' !in "STARRED" && '-' !in "priority"
    ensures FolderDelim == ['-']
  {
  }

  /** The tokens of the folder `INBOX-STARRED-priority`. */
  lemma ExampleTokens()
    ensures Split("INBOX-STARRED-priority", FolderDelim) == ["INBOX", "STARRED", "priority"]
  {
    var inbox, starred, priority := "INBOX", "STARRED", "priority";
    ExampleFolderParts();
    SplitNone(priority, '-');
    SplitAtFirst(starred, '-', priority);
    SplitAtFirst(inbox, '-', starred + ['-'] + priority);
  }

  /** The mailbox `INBOX-STARRED-priority.mbox` holds inbox messages, starred, with the
      label `priority`. */
  lemma FolderExample()
    ensures FolderMetadata(FolderName("INBOX-STARRED-priority.mbox")) == (Some(["priority"]), 10)
  {
    ExampleFolderName();
    ExampleTokens();
    assert "INBOX-STARRED-priority" != UnlabeledFolder;
    TokensExample();
  }

  /** `all` has no labels at all, while a folder of flags only has an empty label list. */
  lemma UnlabeledExample()
    ensures FolderMetadata(UnlabeledFolder) == (None, 0)
    ensures NonFlagTokens(["INBOX"]) == [] && FlagBits(["INBOX"]) == 2
  {
    assert ["INBOX"][..0] == [];
    assert SetBit(0, 1) == 2;
  }

  // ---------------------------------------------------------------------------
  // Per-file bookkeeping

  /** A re-filed message: the message and the header added to it. */
  datatype FailedRecord = FailedRecord(message: string, failure: Header)

  /** The record of a failed message: it gets a `X-mbox2gdata-Failure` header whose value
      is the error text. */
  function FailureRecord(message: string, why: PostError): FailedRecord
  {
    FailedRecord(message, Header(FailureHeader, why.text))
  }

  /** The side mailbox: its file name and what was added to it, in order. */
  datatype FailedMailbox = FailedMailbox(fileName: string, records: seq<FailedRecord>)

  datatype FolderReport = FolderReport(count: nat, totalSize: nat, failedMbox: Option<FailedMailbox>, sent: seq<Post>)

  /** `len(message) / 1000`. */
  function SizeKB(message: string): nat
  {
    |message| / 1000
  }

  function TotalSize(messages: seq<string>): nat
  {
    if messages == [] then 0
    else TotalSize(messages[..|messages| - 1]) + SizeKB(messages[|messages| - 1])
  }

  /** The sizes of the messages that went through. */
  function SuccessSize(messages: seq<string>, network: seq<Exchange>): nat
    requires |network| == |messages|
  {
    if messages == [] then 0
    else
      var n := |messages| - 1;
      SuccessSize(messages[..n], network[..n]) + (if network[n].outcome.None? then SizeKB(messages[n]) else 0)
  }

  /** The sizes of the messages that failed. */
  function FailedSize(messages: seq<string>, network: seq<Exchange>): nat
    requires |network| == |messages|
  {
    if messages == [] then 0
    else
      var n := |messages| - 1;
      FailedSize(messages[..n], network[..n]) + (if network[n].outcome.Some? then SizeKB(messages[n]) else 0)
  }

  /** Every message counts once: either in the success tally or as a failure. */
  lemma {:induction false} SizePartition(messages: seq<string>, network: seq<Exchange>)
    requires |network| == |messages|
    ensures SuccessSize(messages, network) + FailedSize(messages, network) == TotalSize(messages)
  {
    if messages != [] {
      var n := |messages| - 1;
      SizePartition(messages[..n], network[..n]);
    }
  }

  lemma RecordsSnoc(fs: seq<(string, PostError)>, j: nat)
    requires j < |fs|
    ensures Records(fs[..j + 1]) == Records(fs[..j]) + [FailureRecord(fs[j].0, fs[j].1)]
  {
  }

  lemma RecordsAppend(xs: seq<(string, PostError)>, ys: seq<(string, PostError)>)
    ensures Records(xs + ys) == Records(xs) + Records(ys)
  {
  }

  function Records(failures: seq<(string, PostError)>): seq<FailedRecord>
  {
    seq(|failures|, k requires 0 <= k < |failures| => FailureRecord(failures[k].0, failures[k].1))
  }

  /** The side mailbox after a run: absent when nothing failed, else named after the
      folder and holding every failed message once, in order. */
  function FailedOutput(folder: string, failures: seq<(string, PostError)>): Option<FailedMailbox>
  {
    if failures == [] then None else Some(FailedMailbox(FailedFileName(folder), Records(failures)))
  }

  /** One more message: how each tally of the first `i + 1` messages follows from the
      tally of the first `i`. */
  lemma {:induction false} TallySnoc(messages: seq<string>, network: seq<Exchange>, i: nat)
    requires |network| == |messages| && i < |messages|
    ensures TotalSize(messages[..i + 1]) == TotalSize(messages[..i]) + SizeKB(messages[i])
    ensures SuccessSize(messages[..i + 1], network[..i + 1])
            == SuccessSize(messages[..i], network[..i]) + (if network[i].outcome.None? then SizeKB(messages[i]) else 0)
    ensures Failures(messages[..i + 1], network[..i + 1])
            == Failures(messages[..i], network[..i]) + Failures([messages[i]], [network[i]])
    ensures Failures([messages[i]], [network[i]])
            == if network[i].outcome.Some? then [(messages[i], network[i].outcome.value)] else []
  {
    assert messages[..i + 1][..i] == messages[..i];
    assert network[..i + 1][..i] == network[..i];
    assert [messages[i]][..0] == [];
    assert [network[i]][..0] == [];
  }

  /** The failed-message branch of `upload_folder`: the side mailbox is created on the
      first failure and every failed message of the batch is added to it, in order. */
  method Refile(mbox: Option<FailedMailbox>, fileName: string, failures: seq<(string, PostError)>)
    returns (r: Option<FailedMailbox>)
    ensures failures == [] ==> r == mbox
    ensures failures != [] ==> r == Some(FailedMailbox(if mbox.Some? then mbox.value.fileName else fileName,
                                                       (if mbox.Some? then mbox.value.records else []) + Records(failures)))
  {
    r := mbox;
    if failures != [] && r.None? {
      r := Some(FailedMailbox(fileName, []));
    }
    ghost var created := r;
    var j := 0;
    assert failures[..0] == [];
    assert Records([]) == [];
    assert failures != [] ==> created.value.records + [] == created.value.records;
    assert failures != [] ==> r == Some(FailedMailbox(created.value.fileName, created.value.records + Records(failures[..0])));
    while j < |failures|
      invariant 0 <= j <= |failures|
      invariant failures == [] ==> r == mbox
      invariant failures != [] ==> r == Some(FailedMailbox(created.value.fileName, created.value.records + Records(failures[..j])))
    {
      var (msg, why) := failures[j];
      RecordsSnoc(failures, j);
      assert created.value.records + Records(failures[..j + 1]) == created.value.records + Records(failures[..j]) + [FailureRecord(msg, why)];
      r := Some(FailedMailbox(r.value.fileName, r.value.records + [FailureRecord(msg, why)]));
      j := j + 1;
    }
    assert failures[..j] == failures;
  }

  /** Refiling a batch's failures into the side mailbox of the earlier failures gives the
      side mailbox of all of them. */
  lemma RefileOutput(folder: string, before: seq<(string, PostError)>, failures: seq<(string, PostError)>)
    ensures var m := FailedOutput(folder, before);
      FailedOutput(folder, before + failures)
      == if failures == [] then m
         else Some(FailedMailbox(if m.Some? then m.value.fileName else FailedFileName(folder),
                                 (if m.Some? then m.value.records else []) + Records(failures)))
  {
    if failures == [] {
      assert before + failures == before;
    } else {
      RecordsAppend(before, failures);
    }
  }

  /** One posted message: the success total of the first `i + 1` messages from that of
      the first `i`, given the failures the service reports for message `i`. */
  lemma PostedStep(messages: seq<string>, network: seq<Exchange>, i: nat, totalSize: nat,
                   failures: seq<(string, PostError)>)
    requires |network| == |messages| && i < |messages|
    requires totalSize == SuccessSize(messages[..i], network[..i])
    requires failures == Failures([messages[i]], [network[i]])
    ensures totalSize + (if failures == [] then SizeKB(messages[i]) else 0) == SuccessSize(messages[..i + 1], network[..i + 1])
  {
    TallySnoc(messages, network, i);
  }

  /** The posting branch of `upload_folder` for message `i`: the message is posted alone,
      and its failure, if any, is refiled into the side mailbox of the earlier failures. */
  method PostAndRefile(service: EmailMigrationService, folder: string, properties: int,
                       labels: Option<seq<string>>, messages: seq<string>, network: seq<Exchange>,
                       toXml: seq<Element> -> string, i: nat, failedMbox: Option<FailedMailbox>)
    returns (r: Result<Batch, UploadError>, mbox: Option<FailedMailbox>)
    requires |network| == |messages| && i < |messages|
    requires failedMbox == FailedOutput(folder, Failures(messages[..i], network[..i]))
    ensures service.Precheck(None).Some? ==> r == Failure(service.Precheck(None).value)
    ensures service.Precheck(None).None? ==>
      && r.Success?
      && r.value.failed == Failures([messages[i]], [network[i]])
      && r.value.sent == service.BatchPosts([messages[i]], Some(properties), labels, None, None, [network[i]], toXml)
      && mbox == FailedOutput(folder, Failures(messages[..i + 1], network[..i + 1]))
  {
    mbox := failedMbox;
    r := service.UploadMessages([messages[i]], Some(properties), labels, None, None, [network[i]], toXml);
    if r.Success? {
      TallySnoc(messages, network, i);
      RefileOutput(folder, Failures(messages[..i], network[..i]), r.value.failed);
      mbox := Refile(failedMbox, FailedFileName(folder), r.value.failed);
    }
  }

  /** The message loop of `upload_folder`: every message of the mailbox is counted and,
      unless in a dry run, posted alone with the given flags and labels; failures go to the
      side mailbox of `folder`, and the size of the messages that went through is summed. */
  method UploadMailbox(service: EmailMigrationService, folder: string, properties: int,
                       labels: Option<seq<string>>, messages: seq<string>, dryrun: bool,
                       network: seq<Exchange>, toXml: seq<Element> -> string)
    returns (r: Result<FolderReport, UploadError>)
    requires |network| == |messages|
    ensures dryrun ==> r == Success(FolderReport(|messages|, TotalSize(messages), None, []))
    ensures !dryrun && messages == [] ==> r == Success(FolderReport(0, 0, None, []))
    ensures !dryrun && messages != [] && service.Precheck(None).Some? ==> r == Failure(service.Precheck(None).value)
    ensures !dryrun && messages != [] && service.Precheck(None).None? ==>
      && r.Success?
      && r.value.count == |messages|
      && r.value.totalSize == SuccessSize(messages, network)
      && r.value.failedMbox == FailedOutput(folder, Failures(messages, network))
      && r.value.sent == service.BatchPosts(messages, Some(properties), labels, None, None, network, toXml)
  {
    var failedMbox: Option<FailedMailbox> := None;
    var count := 0;
    var totalSize := 0;
    var failed: Option<seq<(string, PostError)>> := None;
    var sent: seq<Post> := [];
    ghost var ok := service.Precheck(None).None?;
    var i := 0;
    assert messages[..0] == [] && network[..0] == [];
    assert SuccessSize(messages[..0], network[..0]) == 0;
    while i < |messages|
      invariant 0 <= i <= |messages| && count == i
      invariant !dryrun && i > 0 ==> ok
      invariant dryrun ==> failed.None? && totalSize == TotalSize(messages[..i]) && failedMbox.None? && sent == []
      invariant !dryrun ==> totalSize == SuccessSize(messages[..i], network[..i])
      invariant !dryrun ==> failedMbox == FailedOutput(folder, Failures(messages[..i], network[..i]))
      invariant !dryrun && ok ==> sent == service.BatchPosts(messages[..i], Some(properties), labels, None, None, network[..i], toXml)
      invariant !dryrun && i == 0 ==> sent == []
    {
      var message := messages[i];
      count := count + 1;
      var size := SizeKB(message);
      TallySnoc(messages, network, i);
      if !dryrun {
        var batch, mbox := PostAndRefile(service, folder, properties, labels, messages, network, toXml, i, failedMbox);
        if batch.Failure? {
          return Failure(batch.error);
        }
        var fs := batch.value.failed;
        PostedStep(messages, network, i, totalSize, fs);
        service.BatchPostsSnoc(messages, Some(properties), labels, None, None, network, toXml, i);
        failed := Some(fs);
        failedMbox := mbox;
        sent := sent + batch.value.sent;
      }
      ghost var tallied := totalSize + (if failed.None? || failed.value == [] then size else 0);
      assert !dryrun ==> tallied == SuccessSize(messages[..i + 1], network[..i + 1]);
      assert dryrun ==> tallied == TotalSize(messages[..i + 1]);
      if failed.None? || failed.value == [] {
        totalSize := totalSize + size;
      }
      assert totalSize == tallied;
      i := i + 1;
    }
    assert messages[..i] == messages && network[..i] == network;
    r := Success(FolderReport(count, totalSize, failedMbox, sent));
  }

  /** `upload_folder` over the messages of the mailbox at `path`, each posted alone with the
      flags and labels of the folder name; in a dry run nothing is posted. */
  method UploadFolder(service: EmailMigrationService, path: string, messages: seq<string>, dryrun: bool,
                      network: seq<Exchange>, toXml: seq<Element> -> string)
    returns (r: Result<FolderReport, UploadError>)
    requires |network| == |messages|
    ensures dryrun ==> r == Success(FolderReport(|messages|, TotalSize(messages), None, []))
    ensures !dryrun && messages == [] ==> r == Success(FolderReport(0, 0, None, []))
    ensures !dryrun && messages != [] && service.Precheck(None).Some? ==> r == Failure(service.Precheck(None).value)
    ensures !dryrun && messages != [] && service.Precheck(None).None? ==>
      var meta := FolderMetadata(FolderName(path));
      && r.Success?
      && r.value.count == |messages|
      && r.value.totalSize == SuccessSize(messages, network)
      && r.value.failedMbox == FailedOutput(FolderName(path), Failures(messages, network))
      && r.value.sent == service.BatchPosts(messages, Some(meta.1), meta.0, None, None, network, toXml)
  {
    var folder := FolderName(path);
    var labels, properties := ParseFolder(folder);
    r := UploadMailbox(service, folder, properties, labels, messages, dryrun, network, toXml);
  }
}
