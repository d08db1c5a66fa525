/** The `Multipart` body encoder of migration.py: ordered (headers, body) parts serialised
    as a CRLF-joined multipart body in the style of section 5.1.1 of RFC 2046. */
module Multipart {
  import opened Wrappers
  import opened Text
  import opened Headers

  const CRLF := "\r\n"

  /** One part: its header list and its raw body. */
  datatype Part = Part(headers: seq<Header>, body: string)

  /** `multipart/<subtype>; boundary=<boundary>`. */
  function ContentTypeOf(subtype: string, boundary: string): string
  {
    "multipart/" + subtype + "; boundary=" + boundary
  }

  /** The dash-boundary line that opens every part. */
  function DashBoundary(boundary: string): string
  {
    "--" + boundary
  }

  /** The close-delimiter line after the last part. */
  function CloseDelimiter(boundary: string): string
  {
    "--" + boundary + "--"
  }

  /** `encode_part`: the dash-boundary, the part's header lines, an empty line, the body. */
  function EncodePart(boundary: string, p: Part): seq<string>
  {
    [DashBoundary(boundary)] + HeaderLines(p.headers) + ["", p.body]
  }

  /** The lines of all parts, in append order. */
  function EncodeParts(boundary: string, ps: seq<Part>): seq<string>
  {
    if ps == [] then [] else EncodePart(boundary, ps[0]) + EncodeParts(boundary, ps[1..])
  }

  /** The lines `__str__` joins: the top-level header block and its empty line when there
      are top-level headers, every part, the close-delimiter and a final empty element. */
  function BodyLines(hs: seq<Header>, boundary: string, ps: seq<Part>): seq<string>
  {
    (if hs == [] then [] else HeaderLines(hs) + [""])
    + EncodeParts(boundary, ps)
    + [CloseDelimiter(boundary), ""]
  }

  /** The serialised body. */
  function Body(hs: seq<Header>, boundary: string, ps: seq<Part>): string
  {
    Join(CRLF, BodyLines(hs, boundary, ps))
  }

  /** A header list the caller owns and the constructor appends to (a Python list is
      shared by reference). */
  class HeaderList {
    var items: seq<Header>

    constructor (items: seq<Header>)
      ensures this.items == items
    {
      this.items := items;
    }
  }

  class Multipart {
    const subtype: string
    /** Fixed at construction: the decimal Unix time `now`. */
    const boundary: string
    /** The caller's header list, or null for `None`. */
    const headers: HeaderList?
    var parts: seq<Part>

    /** `__init__`: when a non-empty header list is given, appends this object's
        Content-Type header to the caller's own list. */
    constructor (subtype: string, now: nat, headers: HeaderList?)
      modifies headers
      ensures this.subtype == subtype && this.boundary == Decimal(now) && this.headers == headers
      ensures parts == []
      ensures headers != null && old(headers.items) != [] ==>
        headers.items == old(headers.items) + [ContentHeader(ContentTypeOf(subtype, Decimal(now)))]
      ensures headers != null && old(headers.items) == [] ==> headers.items == []
    {
      this.subtype := subtype;
      this.boundary := Decimal(now);
      this.headers := headers;
      this.parts := [];
      new;
      if headers != null && headers.items != [] {
        headers.items := headers.items + [ContentHeader(ContentType())];
      }
    }

    /** The `content_type` property. */
    function ContentType(): string
    {
      ContentTypeOf(subtype, boundary)
    }

    /** The top-level headers `__str__` emits: none for `None` or an empty list. */
    function TopHeaders(): seq<Header>
      reads headers
    {
      if headers == null then [] else headers.items
    }

    /** `append`: one more part at the end; earlier parts unchanged. */
    method Append(headers: seq<Header>, body: string)
      modifies this
      ensures parts == old(parts) + [Part(headers, body)]
    {
      parts := parts + [Part(headers, body)];
    }

    /** `__str__`. */
    method Serialize() returns (s: string)
      ensures s == Body(TopHeaders(), boundary, parts)
    {
      var lines: seq<string> := [];
      var hs := TopHeaders();
      if hs != [] {
        lines := lines + HeaderLines(hs);
        lines := lines + [""];
      }
      ghost var top := lines;
      var ps := parts;
      var i := 0;
      while i < |ps|
        invariant 0 <= i <= |ps|
        invariant lines == top + EncodeParts(boundary, ps[..i])
      {
        EncodePartsPrefix(boundary, ps, i);
        lines := lines + EncodePart(boundary, ps[i]);
        i := i + 1;
      }
      assert ps[..i] == ps;
      lines := lines + [CloseDelimiter(boundary)];
      lines := lines + [""];
      BodyLinesAssembled(hs, boundary, ps, top);
      s := Join(CRLF, lines);
    }
  }

  /** Serialising the same object twice gives the same text: the boundary is fixed at
      construction and serialising changes nothing. */
  method SerializeTwice(m: Multipart) returns (first: string, second: string)
    ensures first == second
  {
    first := m.Serialize();
    second := m.Serialize();
  }

  // ---------------------------------------------------------------------------
  // Shape of the serialised body

  /** The lines of the first `i + 1` parts extend those of the first `i`. */
  lemma EncodePartsPrefix(boundary: string, ps: seq<Part>, i: nat)
    requires i < |ps|
    ensures EncodeParts(boundary, ps[..i + 1]) == EncodeParts(boundary, ps[..i]) + EncodePart(boundary, ps[i])
  {
    EncodePartsSnoc(boundary, ps[..i], ps[i]);
    assert ps[..i + 1] == ps[..i] + [ps[i]];
  }

  /** The lines `__str__` builds step by step are `BodyLines`. */
  lemma BodyLinesAssembled(hs: seq<Header>, boundary: string, ps: seq<Part>, top: seq<string>)
    requires top == if hs == [] then [] else HeaderLines(hs) + [""]
    ensures top + EncodeParts(boundary, ps) + [CloseDelimiter(boundary)] + [""] == BodyLines(hs, boundary, ps)
  {
  }

  lemma {:induction false} EncodePartsSnoc(boundary: string, ps: seq<Part>, p: Part)
    ensures EncodeParts(boundary, ps + [p]) == EncodeParts(boundary, ps) + EncodePart(boundary, p)
  {
    if ps == [] {
      assert [p][1..] == [];
    } else {
      assert (ps + [p])[1..] == ps[1..] + [p];
      EncodePartsSnoc(boundary, ps[1..], p);
    }
  }

  /** The body ends with the close-delimiter and CRLF, and starts with the first top-level
      header line, or with the first dash-boundary when there are no top-level headers. */
  lemma BodyShape(hs: seq<Header>, boundary: string, ps: seq<Part>)
    ensures EndsWith(Body(hs, boundary, ps), CloseDelimiter(boundary) + CRLF)
    ensures hs != [] ==> StartsWith(Body(hs, boundary, ps), HeaderLine(hs[0]))
    ensures hs == [] ==> StartsWith(Body(hs, boundary, ps), DashBoundary(boundary))
  {
    var front := (if hs == [] then [] else HeaderLines(hs) + [""]) + EncodeParts(boundary, ps);
    var tail := [CloseDelimiter(boundary), ""];
    assert BodyLines(hs, boundary, ps) == front + tail;
    assert Join(CRLF, tail) == CloseDelimiter(boundary) + CRLF + "";
    if front == [] {
      assert BodyLines(hs, boundary, ps) == tail;
      assert hs == [] && ps == [];
    } else {
      JoinAppend(CRLF, front, tail);
      assert Body(hs, boundary, ps) == Join(CRLF, front) + CRLF + (CloseDelimiter(boundary) + CRLF);
      JoinStartsWithFirst(front);
      if hs != [] {
        assert front[0] == HeaderLine(hs[0]);
      } else {
        assert front[0] == DashBoundary(boundary);
      }
    }
  }

  lemma {:induction false} JoinStartsWithFirst(lines: seq<string>)
    requires lines != []
    ensures StartsWith(Join(CRLF, lines), lines[0])
  {
  }

  // ---------------------------------------------------------------------------
  // Reading the lines back: the partner of the encoder

  /** Splits `lines` at the first empty line: the lines before it and the lines after it. */
  function ReadBlock(lines: seq<string>): (r: Option<(seq<string>, seq<string>)>)
    ensures r.Some? ==> |r.value.1| < |lines|
  {
    if lines == [] then None
    else if lines[0] == "" then Some(([], lines[1..]))
    else
      match ReadBlock(lines[1..])
      case None => None
      case Some(rb) => Some(([lines[0]] + rb.0, rb.1))
  }

  /** Reads back the parts: for each, its header lines and its body line. */
  function DecodeParts(boundary: string, lines: seq<string>): Option<seq<(seq<string>, string)>>
    decreases |lines|
  {
    if lines == [CloseDelimiter(boundary), ""] then Some([])
    else if |lines| > 0 && lines[0] == DashBoundary(boundary) then
      var rb := ReadBlock(lines[1..]);
      if rb.None? || rb.value.1 == [] then None
      else
        var rest := rb.value.1;
        match DecodeParts(boundary, rest[1..])
        case None => None
        case Some(ps) => Some([(rb.value.0, rest[0])] + ps)
    else None
  }

  /** What a body's lines decode to: the top-level header lines and the parts. */
  datatype Decoded = Decoded(headerLines: seq<string>, parts: seq<(seq<string>, string)>)

  function DecodeBody(boundary: string, lines: seq<string>): Option<Decoded>
  {
    if |lines| > 0 && (lines[0] == DashBoundary(boundary) || lines[0] == CloseDelimiter(boundary)) then
      match DecodeParts(boundary, lines)
      case None => None
      case Some(ps) => Some(Decoded([], ps))
    else
      var rb := ReadBlock(lines);
      if rb.None? then None
      else
        match DecodeParts(boundary, rb.value.1)
        case None => None
        case Some(ps) => Some(Decoded(rb.value.0, ps))
  }

  /** The parts as the decoder sees them: rendered header lines and body. */
  function Rendered(ps: seq<Part>): seq<(seq<string>, string)>
  {
    seq(|ps|, k requires 0 <= k < |ps| => (HeaderLines(ps[k].headers), ps[k].body))
  }

  lemma {:induction false} ReadBlockOfNonEmpty(block: seq<string>, rest: seq<string>)
    requires forall k :: 0 <= k < |block| ==> block[k] != ""
    ensures ReadBlock(block + [""] + rest) == Some((block, rest))
  {
    if block == [] {
      assert ([] + [""] + rest)[1..] == rest;
    } else {
      assert (block + [""] + rest)[1..] == block[1..] + [""] + rest;
      ReadBlockOfNonEmpty(block[1..], rest);
      assert [block[0]] + block[1..] == block;
    }
  }

  lemma HeaderLinesNonEmpty(hs: seq<Header>)
    ensures forall k :: 0 <= k < |HeaderLines(hs)| ==> HeaderLines(hs)[k] != ""
  {
    forall k | 0 <= k < |hs| ensures HeaderLines(hs)[k] != "" {
      HeaderLineShape(hs[k]);
    }
  }

  /** Decoding the encoded parts gives back every part, in order. */
  lemma {:induction false} DecodeEncodeParts(boundary: string, ps: seq<Part>)
    ensures DecodeParts(boundary, EncodeParts(boundary, ps) + [CloseDelimiter(boundary), ""]) == Some(Rendered(ps))
  {
    var close := [CloseDelimiter(boundary), ""];
    if ps == [] {
      assert EncodeParts(boundary, ps) + close == close;
    } else {
      var p := ps[0];
      var hl := HeaderLines(p.headers);
      var tail := EncodeParts(boundary, ps[1..]) + close;
      assert EncodeParts(boundary, ps) + close == [DashBoundary(boundary)] + hl + ["", p.body] + tail;
      HeaderLinesNonEmpty(p.headers);
      DecodeOnePart(boundary, hl, p.body, tail);
      DecodeEncodeParts(boundary, ps[1..]);
      assert Rendered(ps) == [(hl, p.body)] + Rendered(ps[1..]);
    }
  }

  /** One encoded part in front of more lines decodes to that part in front of what the
      lines decode to. */
  lemma DecodeOnePart(boundary: string, hl: seq<string>, body: string, tail: seq<string>)
    requires forall k :: 0 <= k < |hl| ==> hl[k] != ""
    ensures DecodeParts(boundary, [DashBoundary(boundary)] + hl + ["", body] + tail)
            == match DecodeParts(boundary, tail)
               case None => None
               case Some(ps) => Some([(hl, body)] + ps)
  {
    var lines := [DashBoundary(boundary)] + hl + ["", body] + tail;
    assert |DashBoundary(boundary)| != |CloseDelimiter(boundary)|;
    assert lines[0] == DashBoundary(boundary);
    assert lines != [CloseDelimiter(boundary), ""];
    assert lines[1..] == hl + [""] + ([body] + tail);
    ReadBlockOfNonEmpty(hl, [body] + tail);
    assert ([body] + tail)[1..] == tail;
  }

  /** A header line never looks like a boundary line when the boundary has no colon. */
  lemma HeaderLineIsNotBoundary(h: Header, boundary: string)
    requires ':' !in boundary
    ensures HeaderLine(h) != DashBoundary(boundary) && HeaderLine(h) != CloseDelimiter(boundary)
  {
    HeaderLineShape(h);
    assert HeaderLine(h)[|h.name|] == HeaderLine(h)[|h.name|..|h.name| + 2][0] == ':';
    var dash, close := DashBoundary(boundary), CloseDelimiter(boundary);
    forall k | 0 <= k < |dash| ensures dash[k] != ':' {
      if k >= 2 {
        assert dash[k] == boundary[k - 2];
      }
    }
    forall k | 0 <= k < |close| ensures close[k] != ':' {
      if 2 <= k < 2 + |boundary| {
        assert close[k] == boundary[k - 2];
      }
    }
  }

  /** The serialised lines decode to the top-level header lines and every part, in order. */
  lemma DecodeEncodeBody(hs: seq<Header>, boundary: string, ps: seq<Part>)
    requires ':' !in boundary
    ensures DecodeBody(boundary, BodyLines(hs, boundary, ps)) == Some(Decoded(HeaderLines(hs), Rendered(ps)))
  {
    var partLines := EncodeParts(boundary, ps) + [CloseDelimiter(boundary), ""];
    DecodeEncodeParts(boundary, ps);
    if hs == [] {
      assert BodyLines(hs, boundary, ps) == partLines;
      if ps == [] {
        assert partLines[0] == CloseDelimiter(boundary);
      } else {
        assert partLines[0] == DashBoundary(boundary);
      }
    } else {
      var hl := HeaderLines(hs);
      assert BodyLines(hs, boundary, ps) == hl + [""] + partLines;
      HeaderLineIsNotBoundary(hs[0], boundary);
      HeaderLinesNonEmpty(hs);
      ReadBlockOfNonEmpty(hl, partLines);
    }
  }

  /** The boundary of every `Multipart` object has no colon, so its body decodes. */
  lemma DecimalBoundaryHasNoColon(now: nat)
    ensures ':' !in Decimal(now)
  {
    var s := Decimal(now);
    forall k | 0 <= k < |s| ensures s[k] != ':' {
    }
  }

  /** The content type names the subtype and the boundary, and both can be read back
      when the subtype has no `;`. */
  function ParseContentType(ct: string): Option<(string, string)>
  {
    if !StartsWith(ct, "multipart/") then None
    else
      var rest := ct[|"multipart/"|..];
      match IndexOf(rest, ";")
      case None => None
      case Some(i) =>
        if StartsWith(rest[i..], "; boundary=") then Some((rest[..i], rest[i + |"; boundary="|..]))
        else None
  }

  lemma ContentTypeRoundTrip(subtype: string, boundary: string)
    requires ';' !in subtype
    ensures ParseContentType(ContentTypeOf(subtype, boundary)) == Some((subtype, boundary))
  {
    var ct := ContentTypeOf(subtype, boundary);
    var rest := subtype + "; boundary=" + boundary;
    assert StartsWith(ct, "multipart/");
    assert ct[|"multipart/"|..] == rest;
    assert rest == subtype + [';'] + (" boundary=" + boundary);
    FirstOccurrence(subtype, ';', " boundary=" + boundary);
    assert IndexOf(rest, ";") == Some(|subtype|);
    assert rest[|subtype|..] == "; boundary=" + boundary;
    assert rest[..|subtype|] == subtype;
    assert rest[|subtype| + |"; boundary="|..] == boundary;
  }
}
