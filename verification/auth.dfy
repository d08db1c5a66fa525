/** Client-login authentication of migration.py: the form fields sent and the scan of
    the response for the `Auth=` token. */
module Auth {
  import opened Wrappers
  import opened Text

  const AuthAccountType := "HOSTED"
  const AuthService := "apps"
  const Marker := "Auth="

  /** `encode_authentication_body` before URL-encoding: the four form fields. */
  function AuthFields(email: string, password: string): (fields: map<string, string>)
    ensures fields.Keys == {"Email", "Passwd", "accountType", "service"}
    ensures fields["Email"] == email && fields["Passwd"] == password
    ensures fields["accountType"] == AuthAccountType && fields["service"] == AuthService
  {
    map["Email" := email, "Passwd" := password, "accountType" := AuthAccountType, "service" := AuthService]
  }

  predicate IsBreak(c: char)
  {
    c == '\n' || c == '\r'
  }

  predicate NoBreak(s: string)
  {
    forall k :: 0 <= k < |s| ==> !IsBreak(s[k])
  }

  /** Index of the first line break at or after `from`, or `|s|`. */
  function FirstBreak(s: string, from: nat): (i: nat)
    requires from <= |s|
    ensures from <= i <= |s|
    ensures forall k :: from <= k < i ==> !IsBreak(s[k])
    ensures i < |s| ==> IsBreak(s[i])
    decreases |s| - from
  {
    if from == |s| || IsBreak(s[from]) then from else FirstBreak(s, from + 1)
  }

  /** Where the line after the break at `i` starts: `\r\n` is one break. */
  function NextLine(s: string, i: nat): (next: nat)
    requires i < |s|
    ensures i < next <= |s|
  {
    if s[i] == '\r' && i + 1 < |s| && s[i + 1] == '\n' then i + 2 else i + 1
  }

  /** Python 2 `str.splitlines()`: lines end at `\n`, `\r` or `\r\n`; a final line break
      does not start another line. */
  function SplitLines(s: string): (lines: seq<string>)
    ensures forall k :: 0 <= k < |lines| ==> NoBreak(lines[k])
    ensures s != [] ==> lines != []
    decreases |s|
  {
    if s == [] then []
    else
      var i := FirstBreak(s, 0);
      if i == |s| then [s]
      else
        [s[..i]] + SplitLines(s[NextLine(s, i)..])
  }

  /** Index of the first line that contains the marker. */
  function FirstMarked(lines: seq<string>): (r: Option<nat>)
    ensures r.Some? ==> r.value < |lines| && Contains(lines[r.value], Marker)
    ensures forall j :: 0 <= j < |lines| && (r.None? || j < r.value) ==> !Contains(lines[j], Marker)
  {
    if lines == [] then None
    else if Contains(lines[0], Marker) then Some(0)
    else
      match FirstMarked(lines[1..])
      case None => None
      case Some(k) => Some(k + 1)
  }

  datatype AuthError =
    | NoAuthToken(response: string)   // httplib.HTTPException carrying the response
    | AmbiguousAuthLine(line: string) // the assertion that the line holds one marker

  /** What `authenticate` returns or raises for a response body. */
  function ScanToken(body: string): Result<string, AuthError>
  {
    var lines := SplitLines(body);
    match FirstMarked(lines)
    case None => Failure(NoAuthToken(body))
    case Some(k) =>
      var tokens := Split(lines[k], Marker);
      if |tokens| == 2 then Success(tokens[1]) else Failure(AmbiguousAuthLine(lines[k]))
  }

  /** The scan loop of `authenticate`: the first line that splits on `Auth=` decides. */
  method ExtractToken(body: string) returns (r: Result<string, AuthError>)
    ensures r == ScanToken(body)
  {
    var lines := SplitLines(body);
    var i := 0;
    while i < |lines|
      invariant 0 <= i <= |lines|
      invariant forall j :: 0 <= j < i ==> !Contains(lines[j], Marker)
    {
      var tokens := Split(lines[i], Marker);
      if |tokens| > 1 {
        FirstMarkedIs(lines, i);
        if |tokens| == 2 {
          return Success(tokens[1]);
        }
        return Failure(AmbiguousAuthLine(lines[i]));
      }
      i := i + 1;
    }
    FirstMarkedNone(lines);
    r := Failure(NoAuthToken(body));
  }

  lemma FirstMarkedIs(lines: seq<string>, i: nat)
    requires i < |lines| && Contains(lines[i], Marker)
    requires forall j :: 0 <= j < i ==> !Contains(lines[j], Marker)
    ensures FirstMarked(lines) == Some(i)
  {
  }

  lemma FirstMarkedNone(lines: seq<string>)
    requires forall j :: 0 <= j < |lines| ==> !Contains(lines[j], Marker)
    ensures FirstMarked(lines) == None
  {
  }

  /** The line the token was taken from: no earlier line has the marker, and the line is
      text without the marker, the marker once, and the token. */
  predicate TokenLine(lines: seq<string>, k: nat, token: string)
  {
    && k < |lines|
    && (forall j :: 0 <= j < k ==> !Contains(lines[j], Marker))
    && EndsWith(lines[k], Marker + token)
    && !Contains(lines[k][..|lines[k]| - |Marker + token|], Marker)
    && !Contains(token, Marker)
  }

  /** The token is the text after `Auth=` on the first line containing it; the scan fails
      with the response exactly when no line contains the marker, and with the line when
      that first line contains the marker more than once. */
  lemma ScanTokenSpec(body: string)
    ensures ScanToken(body) == Failure(NoAuthToken(body))
            <==> forall k :: 0 <= k < |SplitLines(body)| ==> !Contains(SplitLines(body)[k], Marker)
    ensures ScanToken(body).Success? ==>
              TokenLine(SplitLines(body), FirstMarked(SplitLines(body)).value, ScanToken(body).value)
    ensures ScanToken(body).Failure? && ScanToken(body).error.AmbiguousAuthLine? ==>
              var line := SplitLines(body)[FirstMarked(SplitLines(body)).value];
              |Split(line, Marker)| > 2 && ScanToken(body).error.line == line
    ensures FirstMarked(SplitLines(body)).Some? ==>
              var line := SplitLines(body)[FirstMarked(SplitLines(body)).value];
              var i := IndexOf(line, Marker).value;
              (ScanToken(body) == Failure(AmbiguousAuthLine(line)) <==> Contains(line[i + |Marker|..], Marker))
  {
    var lines := SplitLines(body);
    match FirstMarked(lines)
    case None =>
    case Some(k) =>
      var line := lines[k];
      assert Contains(SplitLines(body)[k], Marker);
      var tokens := Split(line, Marker);
      assert |tokens| > 1;
      if |tokens| == 2 {
        SingleMarker(line);
      }
      MarkerAgain(line);
  }

  /** A line with the marker splits into more than two pieces exactly when the text after
      its first marker holds the marker again. */
  lemma MarkerAgain(line: string)
    requires Contains(line, Marker)
    ensures var i := IndexOf(line, Marker).value;
      |Split(line, Marker)| > 2 <==> Contains(line[i + |Marker|..], Marker)
  {
    var i := IndexOf(line, Marker).value;
    var after := line[i + |Marker|..];
    SplitAt(line, Marker, i);
    assert |Split(line, Marker)| == 1 + |Split(after, Marker)|;
    assert |Split(after, Marker)| > 1 <==> Contains(after, Marker);
  }

  /** A line that splits into two pieces at the marker is the first piece, the marker and
      the second piece, and neither piece holds the marker. */
  lemma SingleMarker(line: string)
    requires |Split(line, Marker)| == 2
    ensures var tokens := Split(line, Marker);
      && EndsWith(line, Marker + tokens[1])
      && line[..|line| - |Marker + tokens[1]|] == tokens[0]
      && !Contains(tokens[0], Marker) && !Contains(tokens[1], Marker)
  {
    var tokens := Split(line, Marker);
    JoinSplit(line, Marker);
    SplitPiecesFree(line, Marker);
    assert ([tokens[0]] + [tokens[1]])[1..] == [tokens[1]];
    assert tokens == [tokens[0]] + [tokens[1]];
    assert line == tokens[0] + Marker + tokens[1];
    assert line[..|line| - |Marker + tokens[1]|] == tokens[0];
    assert line[|line| - |Marker + tokens[1]|..] == Marker + tokens[1];
  }

  /** A body whose only line breaks are `\n` and which does not end with one is its lines
      joined with `\n`. */
  lemma {:induction false} SplitLinesJoin(s: string)
    requires '\r' !in s
    requires s == [] || s[|s| - 1] != '\n'
    ensures Join("\n", SplitLines(s)) == s
    decreases |s|
  {
    if s != [] {
      var i := FirstBreak(s, 0);
      if i < |s| {
        var rest := s[i + 1..];
        SplitLinesAtNewline(s);
        AfterNewline(s, i);
        SplitLinesJoin(rest);
        JoinCons("\n", s[..i], SplitLines(rest));
      }
    }
  }

  /** Cutting a `\n`-only text at a `\n` that is not its last character. */
  lemma AfterNewline(s: string, i: nat)
    requires i < |s| && s[i] == '\n'
    requires '\r' !in s && s[|s| - 1] != '\n'
    ensures var rest := s[i + 1..];
      && '\r' !in rest && rest != [] && rest[|rest| - 1] != '\n'
      && s == s[..i] + "\n" + rest
  {
    var rest := s[i + 1..];
    forall k | 0 <= k < |rest| ensures rest[k] != '\r' {
      assert rest[k] == s[i + 1 + k];
    }
  }

  /** A `\n` ends the first line and the rest is split on its own. */
  lemma SplitLinesAtNewline(s: string)
    requires s != [] && FirstBreak(s, 0) < |s| && s[FirstBreak(s, 0)] == '\n'
    ensures SplitLines(s) == [s[..FirstBreak(s, 0)]] + SplitLines(s[FirstBreak(s, 0) + 1..])
  {
    LinesStep(s);
    assert NextLine(s, FirstBreak(s, 0)) == FirstBreak(s, 0) + 1;
  }

  lemma JoinCons(sep: string, line: string, lines: seq<string>)
    requires lines != []
    ensures Join(sep, [line] + lines) == line + sep + Join(sep, lines)
  {
    assert ([line] + lines)[1..] == lines;
  }

  // ---------------------------------------------------------------------------
  // `splitlines` in general: each line with the break that ends it

  /** A line break `splitlines` recognises. */
  predicate IsLineEnd(e: string)
  {
    e == "\n" || e == "\r" || e == "\r\n"
  }

  /** The break that ends each line of `SplitLines(s)`, or `""` for a last line that has
      none. */
  function LineEnds(s: string): (ends: seq<string>)
    ensures |ends| == |SplitLines(s)|
    decreases |s|
  {
    if s == [] then []
    else
      var i := FirstBreak(s, 0);
      if i == |s| then [""]
      else
        [s[i..NextLine(s, i)]] + LineEnds(s[NextLine(s, i)..])
  }

  /** Each line followed by its break, all concatenated. */
  function Interleave(lines: seq<string>, ends: seq<string>): string
    requires |lines| == |ends|
  {
    if lines == [] then "" else lines[0] + ends[0] + Interleave(lines[1..], ends[1..])
  }

  /** A break ends the first line; the rest of the text is split on its own. */
  lemma LinesStep(s: string)
    requires s != [] && FirstBreak(s, 0) < |s|
    ensures var i := FirstBreak(s, 0);
      var next := NextLine(s, i);
      && SplitLines(s) == [s[..i]] + SplitLines(s[next..])
      && LineEnds(s) == [s[i..next]] + LineEnds(s[next..])
  {
  }

  /** The first line and its break are a non-empty prefix of the text. */
  lemma FirstLinePrefix(s: string)
    requires s != []
    ensures var first := SplitLines(s)[0] + LineEnds(s)[0];
      first != [] && StartsWith(s, first)
  {
    var i := FirstBreak(s, 0);
    if i < |s| {
      var next := NextLine(s, i);
      LinesStep(s);
      assert s[..i] + s[i..next] == s[..next];
    }
  }

  lemma InterleaveCons(line: string, end: string, lines: seq<string>, ends: seq<string>)
    requires |lines| == |ends|
    ensures Interleave([line] + lines, [end] + ends) == line + end + Interleave(lines, ends)
  {
    assert ([line] + lines)[1..] == lines && ([end] + ends)[1..] == ends;
  }

  /** Text cut at `i` and at `j` is the three pieces joined. */
  lemma Cut3(s: string, i: nat, j: nat)
    requires i <= j <= |s|
    ensures s == s[..i] + s[i..j] + s[j..]
  {
  }

  /** Putting every line back in front of its break gives the text back, whatever mix of
      `\n`, `\r` and `\r\n` it uses and whether or not it ends with a break. */
  lemma {:induction false} SplitLinesRoundTrip(s: string)
    ensures Interleave(SplitLines(s), LineEnds(s)) == s
    decreases |s|
  {
    if s != [] {
      var i := FirstBreak(s, 0);
      if i == |s| {
        InterleaveCons(s, "", [], []);
      } else {
        var next := NextLine(s, i);
        var rest := s[next..];
        LinesStep(s);
        SplitLinesRoundTrip(rest);
        InterleaveCons(s[..i], s[i..next], SplitLines(rest), LineEnds(rest));
        Cut3(s, i, next);
      }
    }
  }

  /** The breaks are exactly the ones `splitlines` recognises: every line but the last ends
      with `\n`, `\r` or `\r\n`; the last may end with none, and then it is not empty; and a
      `\r` break is never followed by `\n`, which would have made it one `\r\n` break. */
  lemma {:induction false} LineEndsSpec(s: string)
    ensures var lines, ends := SplitLines(s), LineEnds(s);
      forall k :: 0 <= k < |ends| ==>
        IsLineEnd(ends[k]) || (k == |ends| - 1 && ends[k] == "" && lines[k] != "")
    ensures var lines, ends := SplitLines(s), LineEnds(s);
      forall k :: 0 <= k < |ends| - 1 && ends[k] == "\r" ==> !StartsWith(lines[k + 1] + ends[k + 1], "\n")
    decreases |s|
  {
    if s != [] {
      var i := FirstBreak(s, 0);
      if i < |s| {
        var next := NextLine(s, i);
        var rest := s[next..];
        var e := s[i..next];
        var lines, ends := SplitLines(rest), LineEnds(rest);
        LinesStep(s);
        if next == i + 2 {
          assert e == [s[i], s[i + 1]] == "\r\n";
        } else {
          assert e == [s[i]];
        }
        LineEndsSpec(rest);
        if e == "\r" && rest != [] {
          FirstLinePrefix(rest);
          assert next == i + 1 && rest[0] == s[i + 1] != '\n';
          assert (lines[0] + ends[0])[0] == rest[0];
        }
      }
    }
  }
}
