/** `EmailMigrationService` of migration.py: the account, its token, and the batch upload
    that posts one multipart request per message and collects the failures. */
module Migration {
  import opened Wrappers
  import opened Text
  import opened Headers
  import opened Multipart
  import opened MailSchema
  import opened Auth

  const ApiVersion := "2.0"
  const AppsServer := "https://apps-apis.google.com"
  const SchemaContentType := "application/atom+xml"

  /** The text of the feed URL before the domain. */
  const FeedPrefix := AppsServer + "/a/feeds/migration/" + ApiVersion + "/"
  const FeedSuffix := "/mail"

  /** `APPS_SERVER + FEED % {...}`. */
  function FeedUrl(domain: string, username: string): string
  {
    FeedPrefix + domain + "/" + username + FeedSuffix
  }

  /** Reads the domain and the username back out of a feed URL. */
  function ParseFeedUrl(url: string): Option<(string, string)>
  {
    if StartsWith(url, FeedPrefix) && EndsWith(url, FeedSuffix) && |FeedPrefix| + |FeedSuffix| <= |url| then
      var pieces := Split(url[|FeedPrefix|..|url| - |FeedSuffix|], "/");
      if |pieces| == 2 then Some((pieces[0], pieces[1])) else None
    else None
  }

  /** The feed URL names the domain and the user, and both are recoverable when neither
      contains a `/`. */
  lemma FeedUrlRoundTrip(domain: string, username: string)
    requires '/' !in domain && '/' !in username
    ensures ParseFeedUrl(FeedUrl(domain, username)) == Some((domain, username))
  {
    var url := FeedUrl(domain, username);
    var mid := domain + "/" + username;
    assert url == FeedPrefix + mid + FeedSuffix;
    assert url[|FeedPrefix|..|url| - |FeedSuffix|] == mid;
    assert StartsWith(url, FeedPrefix);
    assert EndsWith(url, FeedSuffix);
    SplitAtFirst(domain, '/', username);
    SplitNone(username, '/');
    assert domain + "/" + username == domain + ['/'] + username;
  }

  /** `username` if given and non-empty, else the text before the first `@` of the email. */
  function DefaultUsername(email: string, username: Option<string>): string
  {
    if username.Some? && username.value != "" then username.value else Split(email, "@")[0]
  }

  /** `domain` if given and non-empty, else the second `@`-separated piece of the email;
      `None` when the email has no `@` (Python's IndexError). */
  function DefaultDomain(email: string, domain: Option<string>): Option<string>
  {
    if domain.Some? && domain.value != "" then domain
    else
      var pieces := Split(email, "@");
      if |pieces| > 1 then Some(pieces[1]) else None
  }

  /** For an address `user@domain` the defaults are `user` and `domain`; an address with
      no `@` has no default domain. */
  lemma AccountDefaults(user: string, domain: string)
    requires '@' !in user && '@' !in domain
    ensures DefaultUsername(user + "@" + domain, None) == user
    ensures DefaultDomain(user + "@" + domain, None) == Some(domain)
    ensures DefaultDomain(user, None) == None
  {
    assert user + "@" + domain == user + ['@'] + domain;
    SplitAtFirst(user, '@', domain);
    SplitNone(domain, '@');
    SplitNone(user, '@');
  }

  /** An HTTP request: the target, the headers `post_mail` adds in the order it adds them,
      and the body. */
  datatype Request = Request(url: string, headers: seq<Header>, body: string)

  /** One call of `post_mail`: the feed, the token, the schema document, the message, and
      the clock reading the multipart boundary is taken from. The request it sends is
      `PostRequest` of these. */
  datatype Post = Post(url: string, token: string, schema: string, message: string, clock: nat)

  /** The two parts `post_mail` appends: the schema, then the message. */
  function PostParts(schema: string, message: string): seq<Part>
  {
    [Part([ContentHeader(SchemaContentType)], schema), Part([ContentHeader(MailContentType)], message)]
  }

  /** The request `post_mail` sends at Unix time `now`. */
  function PostRequest(url: string, token: string, schema: string, message: string, now: nat): Request
  {
    var boundary := Decimal(now);
    var body := Body([], boundary, PostParts(schema, message));
    Request(url, [AuthHeader(token), ContentHeader(ContentTypeOf("related", boundary)), LengthHeader(body)], body)
  }

  /** The request goes to `url`, authorises with the token, declares a `related` multipart
      whose boundary is the clock reading and the exact length of its body, and its body
      reads back as the schema part followed by the message part. */
  lemma PostRequestShape(url: string, token: string, schema: string, message: string, now: nat)
    ensures var req := PostRequest(url, token, schema, message, now);
      && req.url == url
      && |req.headers| == 3
      && req.headers[0].name == "Authorization" && req.headers[0].value[|AuthScheme|..] == token
      && req.headers[1].name == "Content-Type"
      && ParseContentType(req.headers[1].value) == Some(("related", Decimal(now)))
      && req.headers[2].name == "Content-Length"
      && IsDigits(req.headers[2].value) && DecimalValue(req.headers[2].value) == |req.body|
      && req.body == Join(CRLF, BodyLines([], Decimal(now), PostParts(schema, message)))
      && DecodeBody(Decimal(now), BodyLines([], Decimal(now), PostParts(schema, message)))
         == Some(Decoded([], [(["Content-Type: " + SchemaContentType], schema),
                              (["Content-Type: " + MailContentType], message)]))
  {
    var boundary := Decimal(now);
    var parts := PostParts(schema, message);
    DecimalBoundaryHasNoColon(now);
    DecodeEncodeBody([], boundary, parts);
    ContentTypeRoundTrip("related", boundary);
    PostPartsRendered(schema, message);
    assert HeaderLines([]) == [];
  }

  /** The two parts of a post render as their `Content-Type` lines and bodies. */
  lemma PostPartsRendered(schema: string, message: string)
    ensures Rendered(PostParts(schema, message))
      == [(["Content-Type: " + SchemaContentType], schema), (["Content-Type: " + MailContentType], message)]
  {
    assert HeaderLine(ContentHeader(SchemaContentType)) == "Content-Type: " + SchemaContentType;
    assert HeaderLine(ContentHeader(MailContentType)) == "Content-Type: " + MailContentType;
    assert HeaderLines([ContentHeader(SchemaContentType)]) == ["Content-Type: " + SchemaContentType];
    assert HeaderLines([ContentHeader(MailContentType)]) == ["Content-Type: " + MailContentType];
  }

  /** `post_mail`, up to the network call. */
  method PostMail(url: string, token: string, schema: string, message: string, now: nat) returns (req: Request)
    ensures req == PostRequest(url, token, schema, message, now)
  {
    var multipart := new Multipart("related", now, null);
    multipart.Append([ContentHeader(SchemaContentType)], schema);
    multipart.Append([ContentHeader(MailContentType)], message);
    var body := multipart.Serialize();
    req := Request(url, [AuthHeader(token), ContentHeader(multipart.ContentType()), LengthHeader(body)], body);
  }

  /** The error `urlopen` raised for one post, as its text `str(why)`. */
  datatype PostError = PostError(text: string)

  /** What the environment supplies for one post: the clock reading when the multipart
      body is built, and whether the request failed. */
  datatype Exchange = Exchange(clock: nat, outcome: Option<PostError>)

  datatype UploadError =
    | NotAuthenticated  // RuntimeError('Authentication required first')
    | MalformedAccount  // IndexError: no `@` in the email and no domain given

  /** The messages whose post failed, each with its error, in input order. */
  function Failures(messages: seq<string>, network: seq<Exchange>): seq<(string, PostError)>
    requires |network| == |messages|
  {
    if messages == [] then []
    else
      var n := |messages| - 1;
      Failures(messages[..n], network[..n])
      + (if network[n].outcome.Some? then [(messages[n], network[n].outcome.value)] else [])
  }

  /** One more message: its failure, if any, comes after the earlier ones. */
  lemma FailuresSnoc(messages: seq<string>, network: seq<Exchange>, i: nat)
    requires |network| == |messages| && i < |messages|
    ensures Failures(messages[..i + 1], network[..i + 1])
            == Failures(messages[..i], network[..i])
               + (if network[i].outcome.Some? then [(messages[i], network[i].outcome.value)] else [])
  {
    assert messages[..i + 1][..i] == messages[..i];
    assert network[..i + 1][..i] == network[..i];
  }

  /** The `post_mail` calls for `messages`, one per message and in order, all to `url` with the same
      token and schema; message `k` is posted at the clock reading of exchange `k`. */
  function Posts(url: string, token: string, schema: string, messages: seq<string>, network: seq<Exchange>): (rs: seq<Post>)
    requires |network| == |messages|
  {
    seq(|messages|, k requires 0 <= k < |messages| => Post(url, token, schema, messages[k], network[k].clock))
  }

  /** Posting two batches one after the other makes the calls of both, in order. */
  lemma PostsAppend(url: string, token: string, schema: string,
                    xs: seq<string>, xn: seq<Exchange>, ys: seq<string>, yn: seq<Exchange>)
    requires |xn| == |xs| && |yn| == |ys|
    ensures Posts(url, token, schema, xs + ys, xn + yn) == Posts(url, token, schema, xs, xn) + Posts(url, token, schema, ys, yn)
  {
  }

  /** One more post: the calls made so far, then the call for message `i`. */
  lemma PostsSnoc(url: string, token: string, schema: string, messages: seq<string>, network: seq<Exchange>, i: nat)
    requires |network| == |messages| && i < |messages|
    ensures Posts(url, token, schema, messages[..i + 1], network[..i + 1])
            == Posts(url, token, schema, messages[..i], network[..i])
               + [Post(url, token, schema, messages[i], network[i].clock)]
  {
  }

  /** The positions of the failed posts, in increasing order. */
  function FailedIndices(network: seq<Exchange>): (ks: seq<nat>)
    ensures forall a, b :: 0 <= a < b < |ks| ==> ks[a] < ks[b]
    ensures forall a :: 0 <= a < |ks| ==> ks[a] < |network| && network[ks[a]].outcome.Some?
    ensures forall k :: 0 <= k < |network| && network[k].outcome.Some? ==> k in ks
  {
    if network == [] then []
    else
      var n := |network| - 1;
      FailedIndices(network[..n]) + (if network[n].outcome.Some? then [n] else [])
  }

  /** The failure list is exactly the failed messages, in order, paired with their errors. */
  lemma {:induction false} FailuresAtFailedIndices(messages: seq<string>, network: seq<Exchange>)
    requires |network| == |messages|
    ensures |Failures(messages, network)| == |FailedIndices(network)|
    ensures forall a :: 0 <= a < |FailedIndices(network)| ==>
      var k := FailedIndices(network)[a];
      Failures(messages, network)[a] == (messages[k], network[k].outcome.value)
  {
    if messages != [] {
      var n := |messages| - 1;
      FailuresAtFailedIndices(messages[..n], network[..n]);
      assert network[..n] == network[..|network| - 1];
    }
  }

  /** A batch that went through: the failures and the `post_mail` calls made, one per message. */
  datatype Batch = Batch(failed: seq<(string, PostError)>, sent: seq<Post>)

  class EmailMigrationService {
    const email: string
    const password: string
    var token: Option<string>

    constructor (email: string, password: string)
      ensures this.email == email && this.password == password && token == None
    {
      this.email := email;
      this.password := password;
      token := None;
    }

    /** `authenticate`, given the login response: stores the token, or raises and leaves the
        stored token as it was. */
    method Authenticate(response: string) returns (r: Result<(), AuthError>)
      modifies this
      ensures ScanToken(response).Success? ==> r == Success(()) && token == Some(ScanToken(response).value)
      ensures ScanToken(response).Failure? ==> r == Failure(ScanToken(response).error) && token == old(token)
    {
      var t := ExtractToken(response);
      if t.Failure? {
        return Failure(t.error);
      }
      token := Some(t.value);
      r := Success(());
    }

    /** `not self.token` is false: a token is stored and it is not empty. */
    predicate Authenticated()
      reads this
    {
      token.Some? && token.value != ""
    }

    /** What `upload_messages` raises before posting anything, if anything. */
    function Precheck(domain: Option<string>): Option<UploadError>
      reads this
    {
      if !Authenticated() then Some(NotAuthenticated)
      else if DefaultDomain(email, domain).None? then Some(MalformedAccount)
      else None
    }

    /** The `post_mail` calls `upload_messages` makes for a batch that passes the checks: every
        message to the feed of the account (or of the given user and domain), with the
        stored token and the schema of the given flags and labels. */
    function BatchPosts(messages: seq<string>, properties: Option<int>, labels: Option<seq<string>>,
                        username: Option<string>, domain: Option<string>,
                        network: seq<Exchange>, toXml: seq<Element> -> string): seq<Post>
      reads this
      requires |network| == |messages| && Precheck(domain).None?
    {
      Posts(FeedUrl(DefaultDomain(email, domain).value, DefaultUsername(email, username)),
            token.value, toXml(SchemaChildren(properties, labels)), messages, network)
    }

    /** The calls of a batch are those of its first `i` messages, then those of message `i`. */
    lemma BatchPostsSnoc(messages: seq<string>, properties: Option<int>, labels: Option<seq<string>>,
                         username: Option<string>, domain: Option<string>,
                         network: seq<Exchange>, toXml: seq<Element> -> string, i: nat)
      requires |network| == |messages| && i < |messages| && Precheck(domain).None?
      ensures BatchPosts(messages[..i + 1], properties, labels, username, domain, network[..i + 1], toXml)
              == BatchPosts(messages[..i], properties, labels, username, domain, network[..i], toXml)
                 + BatchPosts([messages[i]], properties, labels, username, domain, [network[i]], toXml)
    {
      assert messages[..i + 1] == messages[..i] + [messages[i]];
      assert network[..i + 1] == network[..i] + [network[i]];
      PostsAppend(FeedUrl(DefaultDomain(email, domain).value, DefaultUsername(email, username)),
                  token.value, toXml(SchemaChildren(properties, labels)),
                  messages[..i], network[..i], [messages[i]], [network[i]]);
    }

    /** `upload_messages`: posts every message to the user's feed and returns the failures. */
    method UploadMessages(messages: seq<string>, properties: Option<int>, labels: Option<seq<string>>,
                          username: Option<string>, domain: Option<string>,
                          network: seq<Exchange>, toXml: seq<Element> -> string)
      returns (r: Result<Batch, UploadError>)
      requires |network| == |messages|
      ensures Precheck(domain).Some? ==> r == Failure(Precheck(domain).value)
      ensures Precheck(domain).None? ==>
        && r.Success?
        && r.value.failed == Failures(messages, network)
        && r.value.sent == BatchPosts(messages, properties, labels, username, domain, network, toXml)
    {
      if !Authenticated() {
        return Failure(NotAuthenticated);
      }
      var user := DefaultUsername(email, username);
      var dom := DefaultDomain(email, domain);
      if dom.None? {
        return Failure(MalformedAccount);
      }
      var url := FeedUrl(dom.value, user);
      var children := EncodeMailSchema(properties, labels);
      var schema := toXml(children);
      var failed := [];
      var sent := [];
      var i := 0;
      assert messages[..0] == [] && network[..0] == [];
      while i < |messages|
        invariant 0 <= i <= |messages|
        invariant failed == Failures(messages[..i], network[..i])
        invariant sent == Posts(url, token.value, schema, messages[..i], network[..i])
      {
        // The request goes out as exchange `i`, whose outcome is the one given.
        var request := PostMail(url, token.value, schema, messages[i], network[i].clock);
        PostsSnoc(url, token.value, schema, messages, network, i);
        FailuresSnoc(messages, network, i);
        sent := sent + [Post(url, token.value, schema, messages[i], network[i].clock)];
        if network[i].outcome.Some? {
          failed := failed + [(messages[i], network[i].outcome.value)];
        }
        i := i + 1;
      }
      assert messages[..i] == messages && network[..i] == network;
      r := Success(Batch(failed, sent));
    }
  }
}
