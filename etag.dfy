/** The ETag middleware.  It runs the inner handler, and unless the procedure
    streams or the response has no body, it hashes the body text with SHA-1,
    base64-encodes the digest and either answers 304 Not Modified (when the
    request's `if-none-match` equals the encoded digest) or returns a clone of
    the response carrying an entity tag (section 8.8.3 of RFC 9110), strong or
    `W/`-weak.  SHA-1 is a parameter: the model holds for any function from
    bytes to 20-byte digests. */
module Etag {
  import opened Wrappers
  import opened Errors
  import opened Utf8
  import opened Http
  import Base64

  /** What the procedure tells its middlewares. */
  datatype MiddlewareOptions = MiddlewareOptions(mutate: bool, stream: bool)

  /** The argument of `etag`; `weak` may be left out. */
  datatype EtagOptions = EtagOptions(weak: Option<bool>)

  /** A SHA-1 digest. */
  type Digest = d: seq<byte> | |d| == 20 witness seq(20, i => 0)

  /** A left-out `weak` is falsy. */
  predicate IsWeak(options: EtagOptions) {
    options.weak == Some(true)
  }

  /** `collectStream`: the body's text, joined and UTF-8 encoded. */
  function CollectStream(body: Body): seq<byte> {
    Encode(BodyText(body))
  }

  /** `encodeTag`: the base 64 text of the digest's bytes. */
  function EncodeTag(digest: Digest): string {
    Base64.Encode(digest)
  }

  /** The tag of a body under a given SHA-1. */
  function Tag(sha1: seq<byte> -> Digest, body: Body): string {
    EncodeTag(sha1(CollectStream(body)))
  }

  /** The `etag` header value: the tag in double quotes, after `W/` when weak. */
  function EntityTag(weak: bool, tag: string): string {
    (if weak then "W/" else "") + "\"" + tag + "\""
  }

  /** What the middleware answers, given what the inner handler answered for
      the request. */
  function EtagResult(
    options: EtagOptions,
    request: Request,
    inner: Result<Response, Thrown>,
    middleware: MiddlewareOptions,
    sha1: seq<byte> -> Digest): Result<Response, Thrown>
  {
    var response :- inner;
    if middleware.stream || response.body.NoBody? then
      Ok(response)
    else
      var tag := Tag(sha1, response.body);
      if HeaderGet(request.headers, "if-none-match") == Some(tag) then
        Ok(Response(304, map["etag" := tag], NoBody))
      else
        Ok(Response(response.status, response.headers["etag" := EntityTag(IsWeak(options), tag)], response.body))
  }

  /** `new Headers({ etag: tag })`. */
  lemma EtagHeaders(tag: string)
    ensures HeadersOf([("etag", tag)]) == map["etag" := tag]
  {
    assert [("etag", tag)][..0] == [];
    LowerNames();
  }

  /** `etag(options)` applied to a request, the inner handler and the
      middleware options: the handler runs once, on the request as given, and
      the answer is the one `EtagResult` describes. */
  method Etag(
    options: EtagOptions,
    request: Request,
    handle: Request -> Result<Response, Thrown>,
    middleware: MiddlewareOptions,
    sha1: seq<byte> -> Digest) returns (result: Result<Response, Thrown>)
    ensures result == EtagResult(options, request, handle(request), middleware, sha1)
  {
    var inner := handle(request);
    if inner.Err? {
      return inner;
    }
    var response := inner.value;
    if middleware.stream || response.body.NoBody? {
      return Ok(response);
    }
    var cloned := new Headers.Copy(response.headers);
    var tag := EncodeTag(sha1(CollectStream(response.body)));
    if HeaderGet(request.headers, "if-none-match") == Some(tag) {
      var notModified := new Headers([("etag", tag)]);
      EtagHeaders(tag);
      return Ok(Response(304, notModified.entries, NoBody));
    }
    cloned.Set("etag", EntityTag(IsWeak(options), tag));
    LowerNames();
    return Ok(Response(response.status, cloned.entries, response.body));
  }

  /** A streaming procedure's response passes through unchanged. */
  lemma StreamPassesThrough(
    options: EtagOptions, request: Request, inner: Result<Response, Thrown>, mutate: bool, sha1: seq<byte> -> Digest)
    ensures EtagResult(options, request, inner, MiddlewareOptions(mutate, true), sha1) == inner
  {
  }

  /** A response without a body passes through unchanged, whatever the flags. */
  lemma NoBodyPassesThrough(
    options: EtagOptions, request: Request, response: Response, middleware: MiddlewareOptions, sha1: seq<byte> -> Digest)
    requires response.body.NoBody?
    ensures EtagResult(options, request, Ok(response), middleware, sha1) == Ok(response)
  {
  }

  /** A handler that throws makes the middleware throw the same. */
  lemma FailurePassesThrough(
    options: EtagOptions, request: Request, error: Thrown, middleware: MiddlewareOptions, sha1: seq<byte> -> Digest)
    ensures EtagResult(options, request, Err(error), middleware, sha1) == Err(error)
  {
  }

  /** The `mutate` flag makes no difference. */
  lemma MutateIgnored(
    options: EtagOptions, request: Request, inner: Result<Response, Thrown>, stream: bool, sha1: seq<byte> -> Digest)
    ensures EtagResult(options, request, inner, MiddlewareOptions(true, stream), sha1) ==
            EtagResult(options, request, inner, MiddlewareOptions(false, stream), sha1)
  {
  }

  /** A tag has 28 characters (4 * ceil(20 / 3)), none of them a double quote. */
  lemma TagShape(digest: Digest)
    ensures |EncodeTag(digest)| == 28
    ensures '"' !in EncodeTag(digest)
  {
    Base64.EncodeLength(digest);
    Base64.EncodeHasNoQuote(digest);
  }

  /** A strong header is a double quote, 28 characters other than a double
      quote, and a double quote; a weak one is `W/` before the strong one. */
  lemma HeaderShape(digest: Digest)
    ensures var header := EntityTag(false, EncodeTag(digest));
      && |header| == 30
      && header[0] == '"' && header[29] == '"'
      && forall i :: 0 < i < 29 ==> header[i] != '"'
    ensures EntityTag(true, EncodeTag(digest)) == "W/" + EntityTag(false, EncodeTag(digest))
  {
    TagShape(digest);
    var tag := EncodeTag(digest);
    var header := EntityTag(false, tag);
    assert header == "\"" + tag + "\"";
    forall i | 0 < i < 29 ensures header[i] != '"' {
      assert header[i] == tag[i - 1];
    }
  }

  /** Distinct digests give distinct tags and distinct headers. */
  lemma DistinctDigests(d1: Digest, d2: Digest, weak: bool)
    requires d1 != d2
    ensures EncodeTag(d1) != EncodeTag(d2)
    ensures EntityTag(weak, EncodeTag(d1)) != EntityTag(weak, EncodeTag(d2))
  {
    Base64.EncodeInjective(d1, d2);
    var t1, t2 := EncodeTag(d1), EncodeTag(d2);
    TagShape(d1);
    TagShape(d2);
    var p := if weak then "W/" else "";
    assert EntityTag(weak, t1)[|p| + 1..|p| + 29] == t1;
    assert EntityTag(weak, t2)[|p| + 1..|p| + 29] == t2;
  }

  /** The `etag` header of the answer when a tag is attached or returned. */
  function EtagHeaderOf(result: Result<Response, Thrown>): Option<string> {
    if result.Ok? then HeaderGet(result.value.headers, "etag") else None
  }

  /** Two responses with the same body text get the same `etag` header. */
  lemma SameBodySameHeader(
    options: EtagOptions, request: Request, r1: Response, r2: Response, middleware: MiddlewareOptions, sha1: seq<byte> -> Digest)
    requires !middleware.stream && !r1.body.NoBody? && !r2.body.NoBody?
    requires BodyText(r1.body) == BodyText(r2.body)
    ensures EtagHeaderOf(EtagResult(options, request, Ok(r1), middleware, sha1)) ==
            EtagHeaderOf(EtagResult(options, request, Ok(r2), middleware, sha1))
    ensures EtagHeaderOf(EtagResult(options, request, Ok(r1), middleware, sha1)).Some?
  {
    LowerNames();
    assert Tag(sha1, r1.body) == Tag(sha1, r2.body);
  }

  /** A request whose `if-none-match` is the bare tag gets 304, no body and a
      single `etag` header holding the bare tag. */
  lemma NotModified(
    options: EtagOptions, request: Request, response: Response, middleware: MiddlewareOptions, sha1: seq<byte> -> Digest)
    requires !middleware.stream && !response.body.NoBody?
    requires HeaderGet(request.headers, "if-none-match") == Some(Tag(sha1, response.body))
    ensures EtagResult(options, request, Ok(response), middleware, sha1) ==
            Ok(Response(304, map["etag" := Tag(sha1, response.body)], NoBody))
  {
  }

  /** Any other request, one without `if-none-match` included, gets the clone:
      the same status and body, every other header kept, and `etag` set to the
      entity tag. */
  lemma Modified(
    options: EtagOptions, request: Request, response: Response, middleware: MiddlewareOptions, sha1: seq<byte> -> Digest)
    requires !middleware.stream && !response.body.NoBody?
    requires HeaderGet(request.headers, "if-none-match") != Some(Tag(sha1, response.body))
    ensures var result := EtagResult(options, request, Ok(response), middleware, sha1);
      && result.Ok?
      && result.value.status == response.status
      && result.value.body == response.body
      && HeaderGet(result.value.headers, "etag") == Some(EntityTag(IsWeak(options), Tag(sha1, response.body)))
      && (forall k :: k != "etag" ==> (k in result.value.headers <==> k in response.headers))
      && (forall k :: k != "etag" && k in response.headers ==> result.value.headers[k] == response.headers[k])
  {
    LowerNames();
  }

  /** An absent `if-none-match` never matches. */
  lemma AbsentNeverMatches(
    options: EtagOptions, request: Request, response: Response, middleware: MiddlewareOptions, sha1: seq<byte> -> Digest)
    requires !middleware.stream && !response.body.NoBody?
    requires HeaderGet(request.headers, "if-none-match").None?
    ensures EtagResult(options, request, Ok(response), middleware, sha1).value.status == response.status
    ensures EtagResult(options, request, Ok(response), middleware, sha1).value.body == response.body
  {
  }

  /** The header a client is given, sent back as `if-none-match` for an
      unchanged body, never gets 304: the comparison is with the bare tag,
      and the header has two more characters. */
  lemma EchoNeverNotModified(
    options: EtagOptions, request: Request, response: Response, middleware: MiddlewareOptions, sha1: seq<byte> -> Digest)
    requires !middleware.stream && !response.body.NoBody?
    requires HeaderGet(request.headers, "if-none-match") == Some(EntityTag(IsWeak(options), Tag(sha1, response.body)))
    ensures EtagResult(options, request, Ok(response), middleware, sha1) ==
      Ok(Response(response.status,
                  response.headers["etag" := EntityTag(IsWeak(options), Tag(sha1, response.body))],
                  response.body))
  {
    var tag := Tag(sha1, response.body);
    assert |EntityTag(IsWeak(options), tag)| >= |tag| + 2;
  }

  /** The opaque tag of an entity tag (section 8.8.3 of RFC 9110): the text
      between the quotes, after an optional `W/`; `None` for a value that is
      not an entity tag. */
  function OpaqueTag(value: string): (r: Option<string>)
    ensures r.Some? ==> |r.value| + 2 <= |value|
  {
    var rest := if |value| >= 2 && value[..2] == "W/" then value[2..] else value;
    if |rest| >= 2 && rest[0] == '"' && rest[|rest| - 1] == '"' then Some(rest[1..|rest| - 1]) else None
  }

  /** The opaque tag of an entity tag is the tag, strong or weak. */
  lemma OpaqueTagOfEntityTag(weak: bool, tag: string)
    ensures OpaqueTag(EntityTag(weak, tag)) == Some(tag)
  {
    var strong := "\"" + tag + "\"";
    assert strong[1..|strong| - 1] == tag;
    if weak {
      assert EntityTag(weak, tag)[..2] == "W/";
      assert EntityTag(weak, tag)[2..] == strong;
    } else {
      assert EntityTag(weak, tag) == strong && strong[0] == '"';
    }
  }

  /** The middleware as evidently intended: `if-none-match` is compared with
      the entity tag it was given by the weak comparison of section 13.1.2 of
      RFC 9110 (opaque tags equal), and the 304 carries the same header as a
      200 would. */
  function RevalidatingResult(
    options: EtagOptions,
    request: Request,
    inner: Result<Response, Thrown>,
    middleware: MiddlewareOptions,
    sha1: seq<byte> -> Digest): Result<Response, Thrown>
  {
    var response :- inner;
    if middleware.stream || response.body.NoBody? then
      Ok(response)
    else
      var tag := Tag(sha1, response.body);
      var header := EntityTag(IsWeak(options), tag);
      var given := HeaderGet(request.headers, "if-none-match");
      if given.Some? && OpaqueTag(given.value) == Some(tag) then
        Ok(Response(304, map["etag" := header], NoBody))
      else
        Ok(Response(response.status, response.headers["etag" := header], response.body))
  }

  /** Sending back the header that was given, strong or weak, for an
      unchanged body gets 304 with that header and no body. */
  lemma EchoRevalidates(
    options: EtagOptions, request: Request, response: Response, middleware: MiddlewareOptions,
    sha1: seq<byte> -> Digest, sentWeak: bool)
    requires !middleware.stream && !response.body.NoBody?
    requires HeaderGet(request.headers, "if-none-match") == Some(EntityTag(sentWeak, Tag(sha1, response.body)))
    ensures RevalidatingResult(options, request, Ok(response), middleware, sha1) ==
      Ok(Response(304, map["etag" := EntityTag(IsWeak(options), Tag(sha1, response.body))], NoBody))
  {
    OpaqueTagOfEntityTag(sentWeak, Tag(sha1, response.body));
  }

  /** Apart from the comparison, the intended middleware answers as the
      written one: the same pass-through and the same clone. */
  lemma RevalidatingAgreesOtherwise(
    options: EtagOptions, request: Request, inner: Result<Response, Thrown>, middleware: MiddlewareOptions,
    sha1: seq<byte> -> Digest)
    requires inner.Ok? && !middleware.stream && !inner.value.body.NoBody? ==>
      && HeaderGet(request.headers, "if-none-match") != Some(Tag(sha1, inner.value.body))
      && (HeaderGet(request.headers, "if-none-match").None? ||
          OpaqueTag(HeaderGet(request.headers, "if-none-match").value) != Some(Tag(sha1, inner.value.body)))
    ensures RevalidatingResult(options, request, inner, middleware, sha1) == EtagResult(options, request, inner, middleware, sha1)
  {
  }
}
