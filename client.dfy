/** The client: each call builds a request, fetches it and reads the
    response body as JSON.  `fetch` is a parameter, a function from requests
    to responses or a thrown value. */
module Client {
  import opened Wrappers
  import opened Errors
  import opened Json
  import opened Utf8
  import opened Http
  import opened UrlEncoding
  import opened Utility
  import Procedure

  /** The query string `query` and `queryStream` send: the JSON text of the
      input, passed through `encodeURIComponent` and then serialized by
      `URLSearchParams` as the one parameter `input`. */
  function QueryParameters(input: Json, codec: Codec): string {
    Serialize([(InputParameterName, EncodeUriComponent(codec.stringify(input)))])
  }

  /** `new Request(`${path}?${parameters}`)`. */
  function QueryRequest(path: string, input: Json, codec: Codec): Result<Request, Thrown> {
    NewRequest(path + "?" + QueryParameters(input, codec), RequestInit(None, [], None))
  }

  /** `procedure`: fetch, then `response.json()`, whatever the status. */
  function Call(request: Request, fetch: Request -> Result<Response, Thrown>, codec: Codec): Result<Json, Thrown> {
    var response :- fetch(request);
    match ParseBody(codec, BodyText(response.body))
    case None => Err(SyntaxError)
    case Some(j) => Ok(j)
  }

  function Query(path: string, input: Json, codec: Codec, fetch: Request -> Result<Response, Thrown>): Result<Json, Thrown> {
    var request :- QueryRequest(path, input, codec);
    Call(request, fetch, codec)
  }

  function QueryStream(path: string, input: Json, codec: Codec, fetch: Request -> Result<Response, Thrown>): Result<Json, Thrown> {
    var request :- QueryRequest(path, input, codec);
    Call(request, fetch, codec)
  }

  /** `new Request(path, { body, headers })`: no method is given. */
  function MutateRequest(path: string, input: Json, codec: Codec): Result<Request, Thrown> {
    NewRequest(path, RequestInit(None, JsonHeaders, Some(codec.stringify(input))))
  }

  function Mutate(path: string, input: Json, codec: Codec, fetch: Request -> Result<Response, Thrown>): Result<Json, Thrown> {
    var request :- MutateRequest(path, input, codec);
    Call(request, fetch, codec)
  }

  /** `encodeURIComponent`'s output is ASCII without a space, so the
      serializer finds no space in its bytes. */
  lemma NoSpaceInUriComponent(s: string)
    ensures IsAscii(EncodeUriComponent(s))
    ensures 0x20 !in Encode(EncodeUriComponent(s))
  {
    var e := EncodeUriComponent(s);
    EncodeUriComponentChars(s);
    EncodeAscii(e);
  }

  /** The request of a query: a GET, no headers, no body, and the URL is the
      path verbatim, `?input=` and the input's JSON text encoded twice; the
      encoded value is made of ASCII alphanumerics, `*-._` and `%XX`
      escapes only. */
  lemma QueryRequestShape(path: string, input: Json, codec: Codec)
    ensures var value := FormEncode(EncodeUriComponent(codec.stringify(input)));
      && QueryRequest(path, input, codec) == Ok(Request(path + "?input=" + value, "GET", map[], NoBody))
      && Escaped(value)
  {
    var value := FormEncode(EncodeUriComponent(codec.stringify(input)));
    QueryParametersText(input, codec);
    EscapedTwice(codec.stringify(input));
    assert path + "?" + ("input=" + value) == path + "?input=" + value;
    assert HeadersOf([]) == map[];
  }

  lemma QueryParametersText(input: Json, codec: Codec)
    ensures QueryParameters(input, codec) == "input=" + FormEncode(EncodeUriComponent(codec.stringify(input)))
  {
    var value := EncodeUriComponent(codec.stringify(input));
    InputNameUnchanged();
    SerializeOnePair(InputParameterName, value);
  }

  /** One pair is serialized as its encoded name, `=` and its encoded value. */
  lemma SerializeOnePair(name: string, value: string)
    ensures Serialize([(name, value)]) == FormEncode(name) + "=" + FormEncode(value)
  {
  }

  /** Text passed through `encodeURIComponent` and then the serializer holds
      escaped characters only. */
  lemma EscapedTwice(text: string)
    ensures Escaped(FormEncode(EncodeUriComponent(text)))
  {
    NoSpaceInUriComponent(text);
    FormEncodeBytesEscaped(Encode(EncodeUriComponent(text)));
  }

  /** The serializer leaves the parameter name as it is. */
  lemma InputNameUnchanged()
    ensures FormEncode(InputParameterName) == "input"
  {
    forall i | 0 <= i < 5 ensures IsFormSafe("input"[i]) {
      assert "input"[i] in "inptu";
    }
    FormEncodeSafe("input");
  }

  /** `queryStream` builds the very request `query` builds. */
  lemma QueryStreamIsQuery(path: string, input: Json, codec: Codec, fetch: Request -> Result<Response, Thrown>)
    ensures QueryStream(path, input, codec, fetch) == Query(path, input, codec, fetch)
  {
  }

  /** The serializer escapes the `!'()~` that `encodeURIComponent` keeps, and
      the `%` of its escapes. */
  lemma UriMarksEscapedAgain(c: char)
    requires c in "!'()~"
    ensures EncodeUriComponent([c]) == [c]
    ensures FormEncode([c]) == PercentEncodeByte(c as int)
    ensures FormEncode("%") == "%25"
  {
    assert [c][1..] == [];
    assert Encode([c]) == [c as int] + Encode([]);
    assert FormEncodeBytes([c as int]) == FormEncodeByte(c as int) + FormEncodeBytes([]);
    assert Encode("%") == [0x25] + Encode([]);
    assert FormEncodeBytes([0x25]) == FormEncodeByte(0x25) + FormEncodeBytes([]);
  }

  /** What the server reads from a query's `input` parameter, for a path
      without `?` or `#`: the input's JSON text after `encodeURIComponent`,
      since the parser undoes only the serializer's encoding. */
  lemma ServerReadsUriComponent(path: string, input: Json, codec: Codec)
    requires '?' !in path && '#' !in path
    ensures QueryRequest(path, input, codec).Ok?
    ensures SearchParam(QueryRequest(path, input, codec).value.url, "input") ==
      Some(EncodeUriComponent(codec.stringify(input)))
  {
    SearchParamSerialized(path, InputParameterName, EncodeUriComponent(codec.stringify(input)));
  }

  /** The server's query input is the JSON parse of that text, which is the
      input itself when its JSON text needs no escaping, as for `null`. */
  lemma ServerQueryInput(path: string, input: Json, codec: Codec)
    requires Lawful(codec)
    requires '?' !in path && '#' !in path
    ensures QueryRequest(path, input, codec).Ok?
    ensures var text := codec.stringify(input);
      Canonical(input) && (forall i :: 0 <= i < |text| ==> IsUriUnreserved(text[i])) ==>
      Procedure.QueryInput(codec, QueryRequest(path, input, codec).value) == Ok(input)
    ensures Procedure.QueryInput(codec, QueryRequest(path, input, codec).value) ==
      match codec.parse(EncodeUriComponent(codec.stringify(input)))
      case None => Err(SyntaxError)
      case Some(j) => Ok(j)
  {
    var text := codec.stringify(input);
    assert text != "";
    ServerParsesUriComponent(path, input, codec);
    EncodeUriComponentIdentity(text);
  }

  /** For a non-empty JSON text, the server's query input is the JSON parse
      of `encodeURIComponent` of it. */
  lemma ServerParsesUriComponent(path: string, input: Json, codec: Codec)
    requires '?' !in path && '#' !in path
    requires codec.stringify(input) != ""
    ensures QueryRequest(path, input, codec).Ok?
    ensures Procedure.QueryInput(codec, QueryRequest(path, input, codec).value) ==
      match codec.parse(EncodeUriComponent(codec.stringify(input)))
      case None => Err(SyntaxError)
      case Some(j) => Ok(j)
  {
    ServerReadsUriComponent(path, input, codec);
    EncodeUriComponentLength(codec.stringify(input));
  }

  /** `null` reaches the server intact. */
  lemma NullSurvives(path: string, codec: Codec)
    requires Lawful(codec)
    requires '?' !in path && '#' !in path
    ensures Procedure.QueryInput(codec, QueryRequest(path, Null, codec).value) == Ok(Null)
  {
    ServerQueryInput(path, Null, codec);
    CanonicalScalars(true, "");
    UnreservedNull();
  }

  lemma UnreservedNull()
    ensures forall i :: 0 <= i < |"null"| ==> IsUriUnreserved("null"[i])
  {
    forall i | 0 <= i < 4 ensures IsUriUnreserved("null"[i]) {
      assert "null"[i] in "lnu";
    }
  }

  /** The JSON text of an object, `{"foo":42}` for one, reaches the server
      with its opening brace escaped as `%7B`, so the server parses some text
      other than the one that was sent. */
  lemma ObjectArrivesEncoded(path: string, input: Json, codec: Codec)
    requires '?' !in path && '#' !in path
    requires |codec.stringify(input)| > 0 && codec.stringify(input)[0] == '{'
    ensures var received := SearchParam(QueryRequest(path, input, codec).value.url, "input");
      && received.Some?
      && |received.value| >= 3 && received.value[..3] == "%7B"
      && received.value != codec.stringify(input)
  {
    ServerReadsUriComponent(path, input, codec);
    OpeningBraceEscaped(codec.stringify(input));
  }

  lemma OpeningBraceEscaped(text: string)
    requires |text| > 0 && text[0] == '{'
    ensures |EncodeUriComponent(text)| >= 3 && EncodeUriComponent(text)[..3] == "%7B"
    ensures EncodeUriComponent(text) != text
  {
    assert EncodeChar('{') == [0x7B];
    assert PercentEncodeBytes([0x7B]) == PercentEncodeByte(0x7B) + PercentEncodeBytes([]);
    assert PercentEncodeByte(0x7B) == "%7B";
    assert EncodeUriComponent(text) == "%7B" + EncodeUriComponent(text[1..]);
  }

  /** As written, a query whose input is an object, an array or a string,
      `{foo: 42}` for one, fails end to end.  Its JSON text starts with `{`,
      `[` or `"`, which `encodeURIComponent` escapes, so the server's
      `JSON.parse` reads a text starting with `%` and throws; the server
      answers the bare 500, whatever the validators and the handler, and the
      client's `response.json()` cannot parse its empty body. */
  lemma EscapedQueryFails<T>(
    path: string,
    input: Json,
    codec: Codec,
    inputValidator: Procedure.Validator<Json, T>,
    outputValidator: Procedure.Validator<Procedure.Output, Procedure.Output>,
    handle: T -> Result<Procedure.Output, Thrown>)
    requires Lawful(codec)
    requires '?' !in path && '#' !in path
    requires input.Object? || input.Array? || input.Str?
    ensures Procedure.QueryInput(codec, QueryRequest(path, input, codec).value) == Err(SyntaxError)
    ensures Query(path, input, codec,
      r => Ok(Procedure.Query(inputValidator, outputValidator, handle, codec, r))) == Err(SyntaxError)
  {
    var text := codec.stringify(input);
    assert !IsUriUnreserved(text[0]);
    EscapedFirst(text);
    ServerParsesUriComponent(path, input, codec);
    var request := QueryRequest(path, input, codec).value;
    assert codec.parse(EncodeUriComponent(text)) == None;
    var server := (r: Request) => Ok(Procedure.Query(inputValidator, outputValidator, handle, codec, r));
    Procedure.ServeFailure(r => Procedure.QueryInput(codec, r), inputValidator, outputValidator, handle, codec, request);
    assert server(request) == Ok(Procedure.Failure);
    CallIgnoresStatus(request, server, codec);
  }

  /** The input of the client's own test, `{foo: 42}`, is one such. */
  lemma FooQueryFails(path: string, codec: Codec, fetch: Request -> Result<Response, Thrown>)
    requires Lawful(codec)
    requires '?' !in path && '#' !in path
    ensures Query(path, Object([("foo", Number(42.0))]), codec,
      r => Ok(Procedure.Query(Procedure.Identity(), Procedure.Identity(), (x: Json) => Ok(Procedure.Value(x)), codec, r)))
      == Err(SyntaxError)
  {
    EscapedQueryFails(path, Object([("foo", Number(42.0))]), codec,
      Procedure.Identity(), Procedure.Identity(), (x: Json) => Ok(Procedure.Value(x)));
  }

  /** The query string as evidently intended: the JSON text serialized once. */
  function IntendedQueryParameters(input: Json, codec: Codec): string {
    Serialize([(InputParameterName, codec.stringify(input))])
  }

  function IntendedQueryRequest(path: string, input: Json, codec: Codec): Result<Request, Thrown> {
    NewRequest(path + "?" + IntendedQueryParameters(input, codec), RequestInit(None, [], None))
  }

  /** With one encoding the server reads back every input. */
  lemma IntendedQueryRoundTrip(path: string, input: Json, codec: Codec)
    requires Lawful(codec)
    requires Canonical(input)
    requires '?' !in path && '#' !in path
    ensures IntendedQueryRequest(path, input, codec).Ok?
    ensures SearchParam(IntendedQueryRequest(path, input, codec).value.url, "input") == Some(codec.stringify(input))
    ensures Procedure.QueryInput(codec, IntendedQueryRequest(path, input, codec).value) == Ok(input)
  {
    IntendedServerParses(path, input, codec);
  }

  /** With one encoding the server's query input is the JSON parse of the
      input's JSON text itself, when that text is not empty. */
  lemma IntendedServerParses(path: string, input: Json, codec: Codec)
    requires '?' !in path && '#' !in path
    requires codec.stringify(input) != ""
    ensures IntendedQueryRequest(path, input, codec).Ok?
    ensures SearchParam(IntendedQueryRequest(path, input, codec).value.url, "input") == Some(codec.stringify(input))
    ensures Procedure.QueryInput(codec, IntendedQueryRequest(path, input, codec).value) ==
      match codec.parse(codec.stringify(input))
      case None => Err(SyntaxError)
      case Some(j) => Ok(j)
  {
    SearchParamSerialized(path, InputParameterName, codec.stringify(input));
  }

  /** The request of a mutation has a body and no method, so the Request
      constructor's default GET refuses it: every `mutate` call throws a
      TypeError and `fetch` is never reached. */
  lemma MutateAlwaysThrows(path: string, input: Json, codec: Codec, fetch: Request -> Result<Response, Thrown>)
    ensures MutateRequest(path, input, codec) == Err(TypeError)
    ensures Mutate(path, input, codec, fetch) == Err(TypeError)
  {
    assert Lower("GET") == "get";
  }

  /** The mutation request as evidently intended: method POST. */
  function IntendedMutateRequest(path: string, input: Json, codec: Codec): Result<Request, Thrown> {
    NewRequest(path, RequestInit(Some("POST"), JsonHeaders, Some(codec.stringify(input))))
  }

  function IntendedMutate(path: string, input: Json, codec: Codec, fetch: Request -> Result<Response, Thrown>): Result<Json, Thrown> {
    var request :- IntendedMutateRequest(path, input, codec);
    Call(request, fetch, codec)
  }

  /** With POST the mutation request is built: the path verbatim, the JSON
      content type and the input's JSON text as body, from which the server
      reads back the input. */
  lemma IntendedMutateRequestShape(path: string, input: Json, codec: Codec)
    requires Lawful(codec)
    requires Canonical(input)
    ensures IntendedMutateRequest(path, input, codec) ==
      Ok(Request(path, "POST", map["content-type" := "application/json"], Text(codec.stringify(input))))
    ensures Procedure.MutateInput(codec, IntendedMutateRequest(path, input, codec).value) == Ok(input)
  {
    JsonHeadersContents();
    ParseBodyRoundTrip(codec, input);
    assert Lower("POST") == "post";
  }

  /** The client reads the body whatever the status: a JSON body is returned
      even with status 500, and the server's bare 500 makes the call throw a
      SyntaxError; a `fetch` that throws makes the call throw the same. */
  lemma CallIgnoresStatus(request: Request, fetch: Request -> Result<Response, Thrown>, codec: Codec)
    requires Lawful(codec)
    ensures fetch(request).Err? ==> Call(request, fetch, codec) == Err(fetch(request).error)
    ensures fetch(request).Ok? && ParseBody(codec, BodyText(fetch(request).value.body)).Some? ==>
      Call(request, fetch, codec) == Ok(ParseBody(codec, BodyText(fetch(request).value.body)).value)
    ensures fetch(request) == Ok(Procedure.Failure) ==> Call(request, fetch, codec) == Err(SyntaxError)
  {
    ParseBodyCases(codec, "");
  }

  /** Against a server whose handler returns its input, the intended
      mutation returns the input. */
  lemma IntendedMutateEndToEnd(path: string, input: Json, codec: Codec)
    requires Lawful(codec)
    requires Canonical(input)
    ensures IntendedMutate(path, input, codec,
      r => Ok(Procedure.Mutate(Procedure.Identity(), Procedure.Identity(), (x: Json) => Ok(Procedure.Value(x)), codec, r)))
      == Ok(input)
  {
    IntendedMutateRequestShape(path, input, codec);
    var request := IntendedMutateRequest(path, input, codec).value;
    Procedure.MutateIdentityRoundTrip(codec, request.url, request.verb, request.headers, input);
  }
}
