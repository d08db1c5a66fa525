/** HTTP/MIME header pairs and the common header constructors of migration.py. */
module Headers {
  import opened Text

  /** A `(name, value)` header tuple. */
  datatype Header = Header(name: string, value: string)

  /** `': '.join(h)`: the header as one line. */
  function HeaderLine(h: Header): string
  {
    h.name + ": " + h.value
  }

  /** The header lines of a header list, in order. */
  function HeaderLines(hs: seq<Header>): seq<string>
  {
    seq(|hs|, k requires 0 <= k < |hs| => HeaderLine(hs[k]))
  }

  /** `content_header(type)`. */
  function ContentHeader(contentType: string): Header
  {
    Header("Content-Type", contentType)
  }

  const AuthScheme := "GoogleLogin auth="

  /** `length_header(body)`: the value is the decimal length of the body, readable back,
      written as `str` writes it, with no leading zero. */
  function LengthHeader(body: string): (h: Header)
    ensures h.name == "Content-Length"
    ensures IsDigits(h.value) && DecimalValue(h.value) == |body|
    ensures h.value != [] && (|h.value| == 1 || h.value[0] != '0')
  {
    DecimalRoundTrip(|body|);
    Header("Content-Length", Decimal(|body|))
  }

  /** `auth_header(token)`: the token is what follows the `GoogleLogin auth=` scheme. */
  function AuthHeader(token: string): (h: Header)
    ensures h.name == "Authorization"
    ensures StartsWith(h.value, AuthScheme) && h.value[|AuthScheme|..] == token
  {
    Header("Authorization", AuthScheme + token)
  }

  /** A header line reads back as its name, then `": "`, then its value. */
  lemma HeaderLineShape(h: Header)
    ensures |HeaderLine(h)| == |h.name| + 2 + |h.value|
    ensures HeaderLine(h)[..|h.name|] == h.name
    ensures HeaderLine(h)[|h.name|..|h.name| + 2] == ": "
    ensures HeaderLine(h)[|h.name| + 2..] == h.value
  {
  }
}
