# google-apps-email-migrate in Dafny

A verified model of the core of a small mail-upload tool. The tool reads mbox archives and
posts every message to the Google Apps Email Migration API. The model has two halves:

- the client library, `migration.py`, covering:
  - the `Multipart` body encoder;
  - the header helpers;
  - the scan for the `Auth=` token in a login response;
  - the mail-metadata schema (flags and labels);
  - the service's `upload_messages`, with its token guard, account defaults, feed URL and
    failure list;
- the driver, `mbox2gdata.py`, covering:
  - the folder-name convention (`-`-separated tokens, each a flag name or a label);
  - the name of the side mailbox that collects failed messages;
  - the input-file filter;
  - the per-file bookkeeping (count, success size, side mailbox).

Modules, one per file:

| file | module | contents |
|---|---|---|
| `wrappers.dfy` | `Wrappers` | `Option`, `Result` |
| `seqs.dfy` | `Seqs` | occurrence count and in-order filter |
| `text.dfy` | `Text` | Python's `str.split`, `str.join`, `find`, `rfind`, `startswith`, `endswith` and `str(int)`, with their round trips |
| `headers.dfy` | `Headers` | `(name, value)` headers and the four header helpers |
| `multipart.dfy` | `Multipart` | the `Multipart` class, its body as a function, and a line-level decoder that reads the body back |
| `mail_schema.dfy` | `MailSchema` | the six flags, their bits, `encode_mail_schema` as a method and as a function, and decoders that read flags and labels back |
| `auth.dfy` | `Auth` | login form fields, Python 2 `splitlines`, the token scan as a loop and as a function |
| `migration.dfy` | `Migration` | feed URL, account defaults, `post_mail`, failure list, the `EmailMigrationService` class |
| `mbox2gdata.dfy` | `Mbox2Gdata` | flag table, folder-name parsing loop, failed-file name, input selection, `upload_folder` |

Every operation that changes state is a method proved against a function. For example:
- `Multipart.Serialize` is proved against `Body`;
- `EncodeMailSchema` is proved against `SchemaChildren`;
- `ExtractToken` is proved against `ScanToken`;
- `ParseFolder` is proved against `FolderMetadata`.

The properties the code promises are then proved about those functions. Where the code
writes something that can be read back, the proof is a round trip with a decoder written
for the model:
- the multipart body;
- the schema's flags and labels;
- the feed URL and the content type;
- `split`/`join`, `splitlines` and `str(int)`.

Elsewhere a lemma characterises the result directly: the token scan, the folder-name parse,
the input filter, the failure list and the size tallies.

Things outside the program are inputs of the model:
- The network is a sequence of `Exchange`s, one per posted message. Each holds the clock
  reading that fixes the multipart boundary and the outcome of the post: success, or the
  error text.
- The XML serialiser is a function parameter `toXml` from the abstract schema elements to
  text.
- The login response body is passed to `Authenticate`.
- What `os.path` reports about the input path is a `PathKind` value.
- A mailbox is its sequence of message strings.

Integers are Python's unbounded integers. `SetBit` and `HasBit` are written with floor
division and remainder by 2, so they agree with Python's `|` and `&` on negative numbers
too. Message sizes use Python 2 integer division (`len(message) / 1000`, non-negative
operands).

Python 2 `str` values are byte strings. A Dafny `char` in this model stands for one byte, so
`|s|` is the byte length that `len` gives. This matters for the `Content-Length` header and
for the kilobyte sizes (`SizeKB`).

Behaviour of the code worth noting:
- The folder `all` gives labels `None`, not an empty list. A folder made only of flag
  tokens gives `[]`.
- A dry run still adds every message's size to the success total: `failed` stays `None`,
  so `if not failed` holds every time.
- An empty stored token counts as no token (`if not self.token`).
- An email address without `@` and no explicit domain makes `upload_messages` raise
  (`IndexError`). This is the `MalformedAccount` error.
- A token line that holds `Auth=` twice trips the `assert`. This is the
  `AmbiguousAuthLine` error.

## Model

| member | source | states |
|---|---|---|
| Headers.LengthHeader | migration.py:61-62 | the `Content-Length` header's value is a decimal numeral whose value is the body's length, non-empty and with no leading zero, as `str` writes it |
| Headers.AuthHeader | migration.py:173-174 | the `Authorization` header is `GoogleLogin auth=` followed by exactly the token |
| Headers.HeaderLineShape | migration.py:89 | the line `HeaderLine` writes for a header is exactly its name, then `: `, then its value |
| Multipart.HeaderList.constructor | migration.py:72-74 | a caller-owned header list holds the given headers |
| Multipart.Multipart.constructor | migration.py:72-79 | the boundary is fixed from the clock and the parts are empty. A non-empty caller list gets exactly one header appended, the `ContentHeader` whose value is the object's `ContentType()`. An empty list is left as it was |
| Multipart.Multipart.Append | migration.py:83-84 | exactly one part is added at the end and the earlier parts are unchanged |
| Multipart.Multipart.Serialize | migration.py:86-103 | the text built line by line is the CRLF-join of the optional header block and blank line, each part's dash boundary, header lines, blank line and body, then the close delimiter and a trailing empty line |
| Multipart.SerializeTwice | migration.py:94-103 | serialising the same object twice gives identical text |
| Multipart.EncodePartsSnoc | migration.py:99-100 | the encoding of one more part is the old encoding followed by that part's lines (`EncodePart`: dash boundary, header lines, blank line, body) |
| Multipart.BodyShape | migration.py:94-103 | the body ends with `--boundary--` and CRLF, and starts with the first top header or, with no header block, with the first dash boundary |
| Multipart.JoinStartsWithFirst | migration.py:103 | a CRLF-join starts with its first line |
| Multipart.ReadBlock | migration.py:89-90 | the decoder's block reader consumes at least one line |
| Multipart.ReadBlockOfNonEmpty | migration.py:89-90 | a block of non-empty lines followed by the blank line reads back as that block |
| Multipart.HeaderLinesNonEmpty | migration.py:89 | no header line is empty, so the blank line ends the header block |
| Multipart.HeaderLineIsNotBoundary | migration.py:87-89 | a header line is never a dash boundary or close delimiter, for boundaries without `:` |
| Multipart.DecodeEncodeParts | migration.py:86-102 | decoding the encoded parts and the close delimiter gives back every part's header lines and body, in order |
| Multipart.DecodeOnePart | migration.py:86-92 | the decoder reads one encoded part back as its header lines and body, then goes on with the rest |
| Multipart.DecodeEncodeBody | migration.py:94-103 | decoding the body's lines gives back the top header lines and every part, in order |
| Multipart.DecimalBoundaryHasNoColon | migration.py:76 | a boundary made from the clock reading contains no `:` |
| Multipart.ContentTypeRoundTrip | migration.py:81 | the content type `multipart/<subtype>; boundary=<boundary>` (what `Multipart.ContentType()` returns) parses back into the subtype and the boundary |
| MailSchema.BitIndex | migration.py:180-181 | each flag's bit is its position in `MAIL_FLAGS` (DRAFT, INBOX, SENT, STARRED, TRASH, UNREAD) |
| MailSchema.FlagNamed | migration.py:182-187 | each `IS_*` property name (`PropertyName`) belongs to exactly one flag, so reading the name back gives the flag |
| MailSchema.EncodeMailSchema | migration.py:195-219 | the children built are `SchemaChildren`: the category, the content, one property per set low bit in flag order, then one label per input label. A `None` or 0 `properties` adds no property and a `None` or empty `labels` no label |
| MailSchema.AppendProperties | migration.py:208-213 | the flag loop appends, after the children so far, one property per flag set in `properties`, in `MAIL_FLAGS` order |
| MailSchema.AppendLabels | migration.py:215-219 | the label loop appends, after the children so far, one label per name, in order |
| MailSchema.PropertiesFromSnoc | migration.py:209-213 | scanning one more flag appends that flag's property exactly when its bit is set |
| MailSchema.PropertiesStep | migration.py:209-213 | the properties of the first i + 1 flags extend those of the first i by flag i's property, if set |
| MailSchema.LabelsStep | migration.py:216-219 | the label children of the first j + 1 names extend those of the first j by label j |
| MailSchema.SetBitSpec | migration.py:210 | after setting bit j, bit i is set exactly when it was already set or i is j |
| MailSchema.HasBitZero | migration.py:208 | 0 has no bit set |
| MailSchema.SetBitBound | migration.py:180 | setting a bit below n keeps a value below 2^n |
| MailSchema.NoHighBits | migration.py:180 | a value below 2^n has no bit at or above n |
| MailSchema.BitsDetermine | migration.py:180 | two values below 2^n with the same low n bits are equal |
| MailSchema.HasBitShift | migration.py:210 | adding a multiple of 2^n leaves the bits below n unchanged |
| MailSchema.LowSixBits | migration.py:209-210 | only the low six bits of `properties` decide which flags are tested true |
| MailSchema.DecodeAppend | migration.py:208-219 | reading flags back from concatenated children reads the first part, then the second |
| MailSchema.DecodeLabels | migration.py:215-219 | label children carry no flags |
| MailSchema.DecodePropertiesFromSpec | migration.py:208-213 | reading flags back from the property children of p sets exactly the flags set in p |
| MailSchema.SchemaPropertiesRoundTrip | migration.py:208-213 | the flags read back from the schema are `properties % 64`, and 0 for `None`; no bit at or above the sixth is ever read back |
| MailSchema.SchemaPropertyCount | migration.py:208-213 | each flag's property appears exactly once when its bit is set and never otherwise |
| MailSchema.LabelCountZero | migration.py:215-219 | label children contain no non-label element |
| MailSchema.CountPropertiesFrom | migration.py:209-213 | over distinct flags, each flag's property appears once when set and never otherwise |
| MailSchema.SchemaLabelsRoundTrip | migration.py:215-219 | the labels read back from the schema are exactly the input labels, in order, duplicates kept |
| MailSchema.LabelsOfAppend | migration.py:215-219 | reading labels back from concatenated children reads the first part, then the second |
| MailSchema.LabelsOfProperties | migration.py:208-213 | property children carry no labels |
| MailSchema.LabelsOfLabels | migration.py:215-219 | the label children read back as the labels |
| MailSchema.PropertiesFromFlags | migration.py:208-213 | every child the flag loop builds is the `mailItemProperty` of a listed flag that is set in `properties` (`SetFlagProperty`); nothing else is built |
| MailSchema.PropertiesFromOrdered | migration.py:208-213 | over flags in ascending bit order, the bits of the children built (`FlagRank`) strictly increase |
| MailSchema.PropertyElementsSpec | migration.py:208-213 | every `mailItemProperty` child names a flag set in `properties`, and they come in `MAIL_FLAGS` order |
| MailSchema.SchemaPropertyOrder | migration.py:195-219 | after the category and the content, every child is a flag property or a label; each property names a flag set in `properties`; the properties come in `MAIL_FLAGS` order; and every child after a label is a label |
| MailSchema.SchemaShape | migration.py:200-206 | the category comes first and the content second, before any property or label |
| Auth.AuthFields | migration.py:139-148 | the login form has exactly the fields Email, Passwd, accountType=HOSTED and service=apps |
| Auth.FirstBreak | migration.py:163 | the line scanner stops at the first line break |
| Auth.SplitLines | migration.py:163 | `splitlines` gives lines without breaks, at least one for non-empty text |
| Auth.LineEnds | migration.py:163 | there is one break per line |
| Auth.SplitLinesRoundTrip | migration.py:163 | each line followed by its break gives the text back, for any mix of `\n`, `\r` and `\r\n` and with or without a final break |
| Auth.LineEndsSpec | migration.py:163 | every line but the last ends with `\n`, `\r` or `\r\n`. The last ends with one of those, or with nothing, and then it is not empty. A `\r` break is never followed by `\n` |
| Auth.FirstMarked | migration.py:163-168 | the chosen line holds `Auth=` and no earlier line does |
| Auth.ExtractToken | migration.py:162-171 | the `for`/`break`/`else` scan returns what the token function returns |
| Auth.FirstMarkedIs | migration.py:163-168 | the first line holding the marker is the one chosen |
| Auth.FirstMarkedNone | migration.py:169-170 | with no line holding the marker, none is chosen |
| Auth.ScanTokenSpec | migration.py:162-171 | for `ScanToken`: no line with `Auth=` raises; a token is the text after the only `Auth=` on the first marked line; the assertion fails exactly when the text after that line's first `Auth=` holds `Auth=` again, that is, when the line splits into more than two pieces |
| Auth.SingleMarker | migration.py:164-167 | a line that splits into exactly two pieces around `Auth=` ends with `Auth=` and the token, and neither piece holds the marker |
| Auth.SplitLinesJoin | migration.py:163 | for text without `\r` or a final `\n`, the lines joined by `\n` give the text back |
| Migration.FeedUrlRoundTrip | migration.py:325-328 | the `FeedUrl` `https://apps-apis.google.com/a/feeds/migration/2.0/<domain>/<username>/mail` parses back into domain and username |
| Migration.AccountDefaults | migration.py:321-324 | for `user@domain`, `DefaultUsername` is `user` and `DefaultDomain` is `domain`. With no `@` there is no default domain |
| Migration.PostRequestShape | migration.py:230-239 | a post goes to the URL with the token, a `related` content type whose boundary is the clock reading, the exact body length, and a body that reads back as the schema part then the message part |
| Migration.PostMail | migration.py:230-239 | building the multipart object and the request gives the post request |
| Migration.FailedIndices | migration.py:331-335 | the failed positions are increasing and are exactly the posts that failed |
| Migration.FailuresAtFailedIndices | migration.py:330-336 | the failure list `Failures` is exactly the messages whose post failed, in input order, each with its error |
| Migration.EmailMigrationService.constructor | migration.py:278-288 | the service keeps email and password and has no token |
| Migration.EmailMigrationService.Authenticate | migration.py:290-294 | a found token is stored; otherwise the error is raised and the stored token is unchanged |
| Migration.PostsAppend | migration.py:331-333 | posting two batches one after the other makes the calls of the first, then of the second |
| Migration.PostsSnoc | migration.py:331-333 | one more message adds exactly its own `post_mail` call, with its exchange's clock reading, after the earlier calls |
| Migration.EmailMigrationService.BatchPostsSnoc | migration.py:319-333 | the calls for the first i + 1 messages are those for the first i, then the call the service makes for message i alone |
| Migration.EmailMigrationService.UploadMessages | migration.py:319-336 | without a token, or without a domain, it raises before posting. Otherwise it makes one `post_mail` call per message, in order, each to the feed URL of the account with the stored token and one shared schema, and returns exactly the failures |
| Mbox2Gdata.FlagTable | mbox2gdata.py:46-51 | the flag table `FlagOf` maps exactly the six flag tokens, each to its own flag |
| Mbox2Gdata.Basename | mbox2gdata.py:74 | the base name contains no `/` |
| Mbox2Gdata.FolderNameOfPath | mbox2gdata.py:74 | `FolderName` of `dir/base.ext` is `base`: only the last suffix is removed |
| Mbox2Gdata.ParseFolder | mbox2gdata.py:74-91 | the `while`/`del` loop gives `(None, 0)` for `all`, else the non-flag tokens in order and the OR of the flag tokens |
| Mbox2Gdata.FlagBitsSpec | mbox2gdata.py:80-86 | the properties `FlagBits` are below 64 and a flag is set exactly when its token occurs |
| Mbox2Gdata.SameFlagsSameProperties | mbox2gdata.py:82-84 | the properties depend only on which flag tokens occur, so duplicates are harmless |
| Mbox2Gdata.LabelsSpec | mbox2gdata.py:81-91 | the labels contain no flag token, and every other token as often as in the name |
| Mbox2Gdata.TokensExample | mbox2gdata.py:75-91 | the tokens of `INBOX-STARRED-priority` give INBOX\|STARRED and `['priority']` |
| Mbox2Gdata.FolderExample | mbox2gdata.py:74-91 | the file `INBOX-STARRED-priority.mbox` gives INBOX\|STARRED and `['priority']` |
| Mbox2Gdata.UnlabeledExample | mbox2gdata.py:75-78 | `all` gives `(None, 0)`; the single token `INBOX` gives `[]` and the INBOX bit |
| Mbox2Gdata.FailedFileNeverSelected | mbox2gdata.py:143-146 | the `FailedFileName`, `mbox2gdata-failed-<folder>.mbox`, ends in `.mbox` yet `IsInputMailbox` never selects it |
| Mbox2Gdata.SelectionExample | mbox2gdata.py:145 | from `INBOX.mbox` and `mbox2gdata-failed-INBOX.mbox` only the first is selected |
| Mbox2Gdata.InputPathsSpec | mbox2gdata.py:143-146 | the collected paths are the selected entries, in listing order, each joined to the directory by `PathJoin` |
| Mbox2Gdata.ResolveInputs | mbox2gdata.py:141-150 | a directory gives its selected entries joined to it, a file gives itself, anything else is an error |
| Mbox2Gdata.SizePartition | mbox2gdata.py:105-126 | every message's size (`SizeKB`) is in the success total (`SuccessSize`) or in the failed total, never both |
| Mbox2Gdata.RecordsSnoc | mbox2gdata.py:119-124 | one more failure appends its `FailureRecord` after the earlier records: the message paired with an `X-mbox2gdata-Failure` header that holds `str(why)` |
| Mbox2Gdata.RecordsAppend | mbox2gdata.py:119-124 | the records of two batches are the records of the first, then of the second |
| Mbox2Gdata.Refile | mbox2gdata.py:116-124 | the side mailbox is created on the first failure, keeps its name once created, and gets each failed message once, in order, tagged with its error |
| Mbox2Gdata.RefileOutput | mbox2gdata.py:116-124 | refiling a batch into the side mailbox of the earlier failures gives `FailedOutput` of all of them |
| Mbox2Gdata.PostedStep | mbox2gdata.py:113-126 | after one posted message, the success total grows by its size exactly when its post did not fail |
| Mbox2Gdata.PostAndRefile | mbox2gdata.py:113-124 | the message is posted alone, raising as `upload_messages` does; its failure, if any, is refiled so the side mailbox holds the failures of every message so far |
| Mbox2Gdata.UploadMailbox | mbox2gdata.py:98-126 | every message is counted. A dry run posts nothing and counts every size. Otherwise: it raises as `upload_messages` does; each message is posted alone with the given flags and labels; the success total covers the messages that went through; the side mailbox is absent without failures and otherwise named `mbox2gdata-failed-<folder>.mbox` with every failure once, in order |
| Mbox2Gdata.UploadFolder | mbox2gdata.py:70-126 | as the message loop, with the flags and labels parsed from the file's folder name and the side mailbox named after that folder |
| Text.IndexFrom | migration.py:164 | a match is found at the first position from the start, and none before it |
| Text.Split | migration.py:322-324 | splitting gives at least one piece |
| Text.LastIndexOf | mbox2gdata.py:74 | the last occurrence of a character, or none when it does not occur |
| Text.Decimal | migration.py:61 | `str` of a natural number is a non-empty string of digits with no leading zero, so `0` is the only numeral starting with `0` |
| Text.JoinSplit | migration.py:164 | joining the pieces of a split with the separator gives the text back |
| Text.SplitPiecesFree | migration.py:164-167 | no piece of a split contains the separator |
| Text.FirstOccurrence | migration.py:322-324 | the first occurrence of a character not in `a` in `a + c + b` is at `\|a\|` |
| Text.SplitAtFirst | migration.py:322-324 | splitting `a + c + b` at a character not in `a` gives `a` and then the split of `b` |
| Text.SplitNone | migration.py:322-324 | text without the separator splits into itself |
| Text.LastOccurrence | mbox2gdata.py:74 | in `a + c + b` with no `c` in `b`, the last `c` is at `\|a\|` |
| Text.JoinAppend | migration.py:103 | joining two non-empty lists is joining each with a separator between |
| Text.DecimalRoundTrip | migration.py:61 | the decimal numeral of n reads back as n |
| Seqs.CountAppend | migration.py:215-219 | occurrences in a concatenation add up |
| Seqs.FilterCount | mbox2gdata.py:80-91 | a kept element occurs as often as before the filter, a dropped one never |
| Seqs.FilterAll | mbox2gdata.py:80-91 | every element after the filter passes it |

## Left out

- HTTP traffic is not modelled: the request object, `urlopen`, timeouts and the response
  object. Each post is an `Exchange` whose outcome is given, and the login response body is
  a parameter of `Authenticate`.
- The XML bytes from ElementTree and minidom come from a foreign library. The schema is the
  ordered list of its child elements, and the text is `toXml` of that list.
- `time.time()` is a parameter. The clock reading that fixes the boundary is given to the
  `Multipart` constructor and, per message, by the `Exchange`.
- `urllib.urlencode` of the login fields is left out, because the dict's key order is
  unspecified. `AuthFields` gives the fields as a map.
- The login request itself (URL, agent and content-type headers) is left out: it only feeds
  `urlopen`.
- The sample email and `upload_test` are left out, because their date header comes from the
  clock and `strftime`.
- Mailbox file I/O is left out: `mailbox.mbox`, `get_string`, `add` and `flush`. A mailbox
  is its sequence of message strings.
- Parsing a failed message with `email.message_from_string` is left out. A failed record is
  the message text paired with the `X-mbox2gdata-Failure` header that holds `str(why)`.
- A side mailbox file left over from an earlier run is not modelled. The source opens it with
  `create=True` and appends to it; the model's side mailbox holds only this run's failures.
- The `os.path` checks and `os.listdir` are a `PathKind` parameter; `upload` loops over the
  resolved paths and calls `upload_folder` for each.
- Option parsing, `main` and all printing to stdout and stderr are left out.
- Multipart.Multipart.Append: a part keeps its header list by value, so later changes by the
  caller to that list are not seen. The tool never changes a part's list after appending it.
- Multipart.Multipart.constructor: models `headers=None` as `null` and a caller list as a
  `HeaderList` object; a Python list that is aliased elsewhere in other ways is not modelled.
- Auth.ExtractToken: the `assert` is modelled as enabled. Under `python -O` it would be
  skipped and the second piece returned.
- Migration.EmailMigrationService.UploadMessages: only `URLError` is caught, as in the
  source. Any other error from a post would end the whole upload, and that is not modelled:
  every outcome is either success or a `PostError`.
- Migration.EmailMigrationService.UploadMessages: the batch records each `post_mail` call by
  its arguments (a `Post`). The request sent for a call is `PostRequest` of those arguments,
  which `PostMail` is proved to build.
- Mbox2Gdata.UploadFolder: the per-message progress output and the verbose flag are not
  modelled, and the side mailbox is a value rather than a file flushed after each message.
