/** The server side: a procedure takes a request through four stages (read
    the input, validate it, run the handler, validate the output) and turns
    the output into a response; any failure becomes a bare 500.  `query`
    reads its input from the `input` search parameter, `mutate` from the
    request body. */
module Procedure {
  import opened Wrappers
  import opened Errors
  import opened Json
  import opened Http
  import opened UrlEncoding
  import opened Utility

  /** A validator: either a plain function or a schema object whose `parse`
      method is called; either one returns the validated value or throws. */
  datatype Validator<!A, B> =
    | FunctionValidator(apply: A -> Result<B, Thrown>)
    | SchemaValidator(parse: A -> Result<B, Thrown>)

  /** `validate`: a function is applied directly, a schema through `parse`. */
  function Validate<A, B>(validator: Validator<A, B>, data: A): Result<B, Thrown> {
    match validator
    case FunctionValidator(f) => f(data)
    case SchemaValidator(p) => p(data)
  }

  /** Both kinds of validator come down to the one partial function they carry. */
  lemma ValidateReduces<A, B>(f: A -> Result<B, Thrown>, data: A)
    ensures Validate(FunctionValidator(f), data) == f(data)
    ensures Validate(SchemaValidator(f), data) == f(data)
  {
  }

  /** What a handler returns: `undefined`, an async iterable (its elements in
      order), or any other value, `null` included. */
  datatype Output = Undefined | Iterable(elements: seq<Json>) | Value(value: Json)

  /** One `JSON.stringify` text per element, in order. */
  function StringifyAll(elements: seq<Json>, codec: Codec): (texts: seq<string>)
    ensures |texts| == |elements|
    ensures forall i :: 0 <= i < |elements| ==> texts[i] == codec.stringify(elements[i])
  {
    if elements == [] then []
    else [codec.stringify(elements[0])] + StringifyAll(elements[1..], codec)
  }

  /** The response for an output that passed validation. */
  function Respond(data: Output, codec: Codec): Response {
    match data
    case Undefined => Response(200, map[], NoBody)
    case Iterable(elements) => Response(200, map[], Chunks(StringifyAll(elements, codec)))
    case Value(j) => Response(200, HeadersOf(JsonHeaders), Text(codec.stringify(j)))
  }

  /** The response to any failure. */
  const Failure: Response := Response(500, map[], NoBody)

  /** The four stages, each fed the value of the one before; the first
      failure is the result. */
  function Run<T>(
    getInput: Request -> Result<Json, Thrown>,
    inputValidator: Validator<Json, T>,
    outputValidator: Validator<Output, Output>,
    handle: T -> Result<Output, Thrown>,
    request: Request): Result<Output, Thrown>
  {
    var raw :- getInput(request);
    var input :- Validate(inputValidator, raw);
    var output :- handle(input);
    Validate(outputValidator, output)
  }

  /** `procedure(getInput, inputValidator, outputValidator, handle)` applied
      to a request. */
  function Serve<T>(
    getInput: Request -> Result<Json, Thrown>,
    inputValidator: Validator<Json, T>,
    outputValidator: Validator<Output, Output>,
    handle: T -> Result<Output, Thrown>,
    codec: Codec,
    request: Request): Response
  {
    match Run(getInput, inputValidator, outputValidator, handle, request)
    case Ok(data) => Respond(data, codec)
    case Err(_) => Failure
  }

  /** The pipeline succeeds exactly when every stage succeeds on the value of
      the one before, and its value is then that of the last stage. */
  lemma RunStages<T>(
    getInput: Request -> Result<Json, Thrown>,
    inputValidator: Validator<Json, T>,
    outputValidator: Validator<Output, Output>,
    handle: T -> Result<Output, Thrown>,
    request: Request)
    ensures Run(getInput, inputValidator, outputValidator, handle, request).Ok? <==>
      && getInput(request).Ok?
      && Validate(inputValidator, getInput(request).value).Ok?
      && handle(Validate(inputValidator, getInput(request).value).value).Ok?
      && Validate(outputValidator, handle(Validate(inputValidator, getInput(request).value).value).value).Ok?
    ensures Run(getInput, inputValidator, outputValidator, handle, request).Ok? ==>
      Run(getInput, inputValidator, outputValidator, handle, request).value ==
      Validate(outputValidator, handle(Validate(inputValidator, getInput(request).value).value).value).value
  {
  }

  /** A stage that fails stops the pipeline: the later stages do not run and
      the failure is the one thrown. */
  lemma RunFirstFailure<T>(
    getInput: Request -> Result<Json, Thrown>,
    inputValidator: Validator<Json, T>,
    outputValidator: Validator<Output, Output>,
    handle: T -> Result<Output, Thrown>,
    request: Request)
    ensures getInput(request).Err? ==>
      Run(getInput, inputValidator, outputValidator, handle, request) == Err(getInput(request).error)
    ensures getInput(request).Ok? && Validate(inputValidator, getInput(request).value).Err? ==>
      Run(getInput, inputValidator, outputValidator, handle, request) ==
      Err(Validate(inputValidator, getInput(request).value).error)
    ensures (getInput(request).Ok? && Validate(inputValidator, getInput(request).value).Ok? &&
             handle(Validate(inputValidator, getInput(request).value).value).Err?) ==>
      Run(getInput, inputValidator, outputValidator, handle, request) ==
      Err(handle(Validate(inputValidator, getInput(request).value).value).error)
    ensures (getInput(request).Ok? && Validate(inputValidator, getInput(request).value).Ok? &&
             handle(Validate(inputValidator, getInput(request).value).value).Ok? &&
             Validate(outputValidator, handle(Validate(inputValidator, getInput(request).value).value).value).Err?) ==>
      Run(getInput, inputValidator, outputValidator, handle, request) ==
      Err(Validate(outputValidator, handle(Validate(inputValidator, getInput(request).value).value).value).error)
  {
  }

  /** Every failure, whatever was thrown, gives status 500 with no body and no
      headers. */
  lemma ServeFailure<T>(
    getInput: Request -> Result<Json, Thrown>,
    inputValidator: Validator<Json, T>,
    outputValidator: Validator<Output, Output>,
    handle: T -> Result<Output, Thrown>,
    codec: Codec,
    request: Request)
    requires Run(getInput, inputValidator, outputValidator, handle, request).Err?
    ensures Serve(getInput, inputValidator, outputValidator, handle, codec, request) == Response(500, map[], NoBody)
  {
  }

  /** A success is answered with status 200, whatever the output. */
  lemma ServeSuccess<T>(
    getInput: Request -> Result<Json, Thrown>,
    inputValidator: Validator<Json, T>,
    outputValidator: Validator<Output, Output>,
    handle: T -> Result<Output, Thrown>,
    codec: Codec,
    request: Request)
    ensures Serve(getInput, inputValidator, outputValidator, handle, codec, request).status == 200 <==>
      Run(getInput, inputValidator, outputValidator, handle, request).Ok?
  {
  }

  /** A handler that throws an `RpcError` gets 500 too: its status is not
      used. */
  lemma RpcErrorStatusIgnored<T>(
    getInput: Request -> Result<Json, Thrown>,
    inputValidator: Validator<Json, T>,
    outputValidator: Validator<Output, Output>,
    handle: T -> Result<Output, Thrown>,
    codec: Codec,
    request: Request,
    error: RpcError)
    requires getInput(request).Ok? && Validate(inputValidator, getInput(request).value).Ok?
    requires handle(Validate(inputValidator, getInput(request).value).value) == Err(Rpc(error))
    ensures Serve(getInput, inputValidator, outputValidator, handle, codec, request).status == 500
  {
  }

  /** An undefined output: status 200, no body, no headers. */
  lemma RespondUndefined(codec: Codec)
    ensures Respond(Undefined, codec).status == 200
    ensures Respond(Undefined, codec).body.NoBody?
    ensures HeaderGet(Respond(Undefined, codec).headers, "content-type").None?
  {
  }

  /** An iterable output: one chunk per element, in order, each parsing back
      to its element, and the body text is the chunks with no separator. */
  lemma RespondIterable(elements: seq<Json>, codec: Codec)
    requires Lawful(codec)
    requires forall i :: 0 <= i < |elements| ==> Canonical(elements[i])
    ensures Respond(Iterable(elements), codec).status == 200
    ensures Respond(Iterable(elements), codec).body.Chunks?
    ensures |Respond(Iterable(elements), codec).body.chunks| == |elements|
    ensures forall i :: 0 <= i < |elements| ==>
      codec.parse(Respond(Iterable(elements), codec).body.chunks[i]) == Some(elements[i])
    ensures BodyText(Respond(Iterable(elements), codec).body) == Concat(StringifyAll(elements, codec))
    ensures HeaderGet(Respond(Iterable(elements), codec).headers, "content-type").None?
  {
  }

  /** Two elements stream as their two texts, back to back. */
  lemma RespondIterableNoSeparator(a: Json, b: Json, codec: Codec)
    ensures BodyText(Respond(Iterable([a, b]), codec).body) == codec.stringify(a) + codec.stringify(b)
  {
    assert StringifyAll([a, b], codec) == [codec.stringify(a), codec.stringify(b)];
    assert Concat([codec.stringify(b)]) == codec.stringify(b) + "";
  }

  /** Any other output, `null` included: status 200 and the JSON text as
      body. */
  lemma RespondValue(j: Json, codec: Codec)
    requires Lawful(codec)
    ensures Respond(Value(j), codec).status == 200
    ensures Canonical(j) ==> GetJsonBody(Respond(Value(j), codec).body, codec) == Some(j)
    ensures j == Null ==> BodyText(Respond(Value(j), codec).body) == "null"
  {
    if Canonical(j) {
      GetJsonBodyRoundTrip(j, codec);
    }
  }

  /** ... and the JSON content type as its one header. */
  lemma RespondValueHeaders(j: Json, codec: Codec)
    ensures Respond(Value(j), codec).headers == map["content-type" := "application/json"]
    ensures HeaderGet(Respond(Value(j), codec).headers, "content-type") == Some("application/json")
  {
    JsonHeadersContents();
    var headers := Respond(Value(j), codec).headers;
    assert headers == map["content-type" := "application/json"];
    LowerNames();
  }

  /** `query`'s input: the `input` search parameter, JSON-parsed; a missing or
      empty one is an error. */
  function QueryInput(codec: Codec, request: Request): Result<Json, Thrown> {
    var input := SearchParam(request.url, InputParameterName);
    if input.None? || input.value == "" then
      Err(PlainError("Input parameter not defined"))
    else match codec.parse(input.value)
      case None => Err(SyntaxError)
      case Some(j) => Ok(j)
  }

  /** `mutate`'s input: the whole body, read by `request.json()`. */
  function MutateInput(codec: Codec, request: Request): Result<Json, Thrown> {
    match ParseBody(codec, BodyText(request.body))
    case None => Err(SyntaxError)
    case Some(j) => Ok(j)
  }

  /** The input reader of `query`, succeeding exactly on a present, non-empty
      parameter that parses, with its parsed value. */
  lemma QueryInputCases(codec: Codec, request: Request)
    ensures QueryInput(codec, request).Ok? <==>
      && SearchParam(request.url, "input").Some?
      && SearchParam(request.url, "input").value != ""
      && codec.parse(SearchParam(request.url, "input").value).Some?
    ensures QueryInput(codec, request).Ok? ==>
      Some(QueryInput(codec, request).value) == codec.parse(SearchParam(request.url, "input").value)
    ensures SearchParam(request.url, "input").None? || SearchParam(request.url, "input") == Some("") ==>
      QueryInput(codec, request) == Err(PlainError("Input parameter not defined"))
  {
  }

  /** The input reader of `mutate` succeeds exactly when the body parses
      after one leading byte order mark, if any; the empty body does not. */
  lemma MutateInputCases(codec: Codec, request: Request)
    requires Lawful(codec)
    ensures MutateInput(codec, request).Ok? <==> ParseBody(codec, BodyText(request.body)).Some?
    ensures MutateInput(codec, request).Ok? ==> Some(MutateInput(codec, request).value) == ParseBody(codec, BodyText(request.body))
    ensures BodyText(request.body) == "" ==> MutateInput(codec, request) == Err(SyntaxError)
  {
    ParseBodyCases(codec, BodyText(request.body));
  }

  /** Unlike the `JSON.parse` of a query's parameter, a mutation reads its
      input through `request.json()`, so a body that starts with a byte
      order mark is accepted. */
  lemma MutateAcceptsByteOrderMark(codec: Codec, url: string, verb: string, headers: HeaderMap, j: Json)
    requires Lawful(codec)
    requires Canonical(j)
    ensures MutateInput(codec, Request(url, verb, headers, Text([ByteOrderMark] + codec.stringify(j)))) == Ok(j)
  {
    ParseBodyRoundTrip(codec, j);
  }

  /** `query(inputValidator, outputValidator, handle)` applied to a request. */
  function Query<T>(
    inputValidator: Validator<Json, T>,
    outputValidator: Validator<Output, Output>,
    handle: T -> Result<Output, Thrown>,
    codec: Codec,
    request: Request): Response
  {
    Serve(r => QueryInput(codec, r), inputValidator, outputValidator, handle, codec, request)
  }

  /** `mutate(inputValidator, outputValidator, handle)` applied to a request. */
  function Mutate<T>(
    inputValidator: Validator<Json, T>,
    outputValidator: Validator<Output, Output>,
    handle: T -> Result<Output, Thrown>,
    codec: Codec,
    request: Request): Response
  {
    Serve(r => MutateInput(codec, r), inputValidator, outputValidator, handle, codec, request)
  }

  /** A query without a usable `input` parameter is answered 500, before any
      validator or the handler runs. */
  lemma QueryMissingInput<T>(
    inputValidator: Validator<Json, T>,
    outputValidator: Validator<Output, Output>,
    handle: T -> Result<Output, Thrown>,
    codec: Codec,
    request: Request)
    requires SearchParam(request.url, "input").None? || SearchParam(request.url, "input") == Some("")
    ensures Query(inputValidator, outputValidator, handle, codec, request) == Failure
  {
  }

  /** A mutation whose body does not parse, the empty body included, is
      answered 500. */
  lemma MutateUnparseable<T>(
    inputValidator: Validator<Json, T>,
    outputValidator: Validator<Output, Output>,
    handle: T -> Result<Output, Thrown>,
    codec: Codec,
    request: Request)
    requires ParseBody(codec, BodyText(request.body)).None?
    ensures Mutate(inputValidator, outputValidator, handle, codec, request) == Failure
  {
  }

  /** The validator that accepts everything unchanged. */
  function Identity<A>(): Validator<A, A> {
    FunctionValidator(x => Ok(x))
  }

  /** A mutation whose handler returns its input answers with the JSON text
      of the input it was sent, which reads back as that input. */
  lemma MutateIdentityRoundTrip(codec: Codec, url: string, verb: string, headers: HeaderMap, j: Json)
    requires Lawful(codec)
    requires Canonical(j)
    ensures var response := Mutate(Identity(), Identity(), (x: Json) => Ok(Value(x)), codec,
                                   Request(url, verb, headers, Text(codec.stringify(j))));
      && response.status == 200
      && response.headers == map["content-type" := "application/json"]
      && GetJsonBody(response.body, codec) == Some(j)
  {
    ParseBodyRoundTrip(codec, j);
    RespondValue(j, codec);
    RespondValueHeaders(j, codec);
  }

  /** A query whose handler returns its input answers with the value of its
      `input` parameter. */
  lemma QueryIdentityRoundTrip(codec: Codec, request: Request, j: Json)
    requires Lawful(codec)
    requires Canonical(j)
    requires SearchParam(request.url, "input") == Some(codec.stringify(j))
    ensures var response := Query(Identity(), Identity(), (x: Json) => Ok(Value(x)), codec, request);
      && response.status == 200
      && GetJsonBody(response.body, codec) == Some(j)
  {
    RespondValue(j, codec);
  }
}
