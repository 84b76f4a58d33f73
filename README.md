# oneRPC procedure engine, modelled in Dafny

oneRPC turns validated handler functions into HTTP request handlers and
gives clients functions that call them. This project models the core of
the library:

- **Server procedures** (`src/main.ts`). A `query` reads its input from the
  `input` search parameter of the URL; a `mutate` reads it from the request
  body. Both run a procedure that reads the input, validates it, runs the
  handler and validates the output, in that order. An undefined output is
  answered with an empty response. An async iterable is answered with a
  stream of JSON texts. Any other value is answered with a JSON body and
  the JSON content type. Any failure is answered with a bare 500.
- **The ETag middleware** (`src/middleware/etag.ts`). It hashes the text of
  a non-streamed response body with SHA-1 and base64-encodes the digest.
  If the request's `if-none-match` equals that tag it answers 304;
  otherwise it attaches a strong or weak entity tag to a clone of the
  response.
- **Helpers** (`src/utility.ts`): `mergeHeaders`, `getJsonBody` and the
  two constants.
- **The client** (`src/client.ts`). `query`, `queryStream` and `mutate`
  build a request, fetch it and read the body as JSON.
- **`RpcError`** (`src/error.ts`): an error with an optional status.

The built-ins these depend on are modelled concretely where the properties
rest on their details:

- UTF-8 (`TextEncoder`, and the decoding the URL parser applies);
- base 64 (section 4 of RFC 4648, `btoa`);
- `encodeURIComponent` (section 19.2.6.5 of ECMA-262);
- the application/x-www-form-urlencoded serializer and parser (section 5.2
  of the WHATWG URL Standard, `URLSearchParams`);
- the fragment and query split of a URL;
- `Headers` and its case-insensitive names;
- the Request constructor's refusal of a GET or HEAD request with a body
  (Fetch Standard).

SHA-1, `JSON.stringify`, `JSON.parse`, validators, handlers and `fetch` are
parameters. `Json.Lawful` states the facts about JSON that the round trips
need:

- parsing reads back what stringifying wrote, for every `Json.Canonical`
  value;
- stringifying writes a non-empty text that does not start with a byte
  order mark;
- an object's text starts with `{`, an array's with `[` and a string's
  with `"`;
- the empty text is not JSON, nor is a text starting with `%`;
- `null` is written `null`.

A `Json` value is canonical when it stands for a value a JavaScript program
can hold. Every number is a finite double. Every object's member names are
distinct and in the order an object keeps them: array indices first,
ascending. Everything else holds for any such functions.

Bodies are read as `Body.json()` reads them (`Json.ParseBody`): one leading
byte order mark is dropped before parsing. A query's parameter goes to
`JSON.parse` as it is.

Modules, one per file:

- `Wrappers`: `Option`, `Result`.
- `Utf8`, `Base64`, `UrlEncoding`: the encodings.
- `Json`: the value type and codec.
- `Errors`: `RpcError` and thrown values.
- `Http`: bodies, requests, responses, the `Headers` class and the Request
  constructor.
- `Utility`: `src/utility.ts`.
- `Procedure`: `src/main.ts`.
- `Etag`: `src/middleware/etag.ts`.
- `Client`: `src/client.ts`.

`Etag.Etag`, `Utility.MergeHeaders` and `Utility.SetAll` are methods that
work on `Headers` objects in place. Each is proved against a function that
states its result. The rest of the core is pure and is modelled as
functions.

Where the library's documented design and its code differ, the model
follows the code:

- Streamed elements are concatenated with no newline between them.
- Every failure, an `RpcError` with a status included, becomes a 500 with
  no body and no headers. No error message is sent.
- A query without an `input` parameter fails with 500. It is not treated
  as an undefined input.
- The middleware compares `if-none-match` with the bare tag, not with the
  quoted header.
- The client neither checks the status nor turns a non-2xx response into
  an error. It has no per-call options, and `queryStream` reads the body
  with `response.json()` like `query`.

## Model

| member | source | states |
|---|---|---|
| `Utf8.EncodeChar` | src/middleware/etag.ts:33 | a character encodes to 1 to 4 bytes, and to the one byte of its code exactly when it is ASCII |
| `Utf8.Encode` | src/middleware/etag.ts:33 | no contract of its own; see `Utf8.DecodeEncode`, `Utf8.EncodeInjective`, `Utf8.EncodeAscii`, `Utf8.EncodeAppend` |
| `Utf8.DecodeFirstEncodeChar` | src/middleware/etag.ts:33 | decoding the front of an encoded character reads back that character and its byte count, whatever follows |
| `Utf8.DecodeEncode` | src/middleware/etag.ts:33 | UTF-8 decoding inverts `TextEncoder.encode` |
| `Utf8.EncodeInjective` | src/middleware/etag.ts:33-34 | distinct body texts give distinct byte sequences to hash |
| `Utf8.EncodeAscii` | src/client.ts:12 | an ASCII string encodes to its character codes, one byte each |
| `Utf8.EncodeAppend` | src/middleware/etag.ts:34 | encoding a concatenation is concatenating the encodings |
| `Base64.SextetRoundTrip` | src/middleware/etag.ts:38 | every six-bit value has one alphabet character, which decodes back to it |
| `Base64.Encode` | src/middleware/etag.ts:37-38 | no contract of its own; see `Base64.EncodeLength`, `Base64.EncodeAlphabet`, `Base64.EncodeHasNoQuote`, `Base64.DecodeEncode`, `Base64.EncodeInjective` |
| `Base64.DecodeGroup3` | src/middleware/etag.ts:38 | a full group of three bytes decodes back from its four characters |
| `Base64.DecodeGroup2` | src/middleware/etag.ts:38 | a final group of two bytes decodes back from its padded characters |
| `Base64.DecodeGroup1` | src/middleware/etag.ts:38 | a final single byte decodes back from its two-pad group |
| `Base64.EncodeLength` | src/middleware/etag.ts:37-38 | n bytes give 4 * ceil(n / 3) characters |
| `Base64.EncodeAlphabet` | src/middleware/etag.ts:37-38 | every output character is in the base 64 alphabet or is the pad `=` |
| `Base64.EncodeHasNoQuote` | src/middleware/etag.ts:37-38 | the encoding never contains a double quote |
| `Base64.DecodeEncode` | src/middleware/etag.ts:37-38 | decoding inverts `btoa` of the bytes |
| `Base64.EncodeInjective` | src/middleware/etag.ts:37-38 | distinct byte sequences have distinct encodings |
| `UrlEncoding.HexDigit` | src/client.ts:12 | escapes use upper-case hexadecimal digits |
| `UrlEncoding.HexValue` | src/main.ts:22 | a hexadecimal digit, either case, has a value below 16 |
| `UrlEncoding.HexValueOfDigit` | src/main.ts:22 | the parser reads back the value of every digit the encoders write |
| `UrlEncoding.PercentEncodeByte` | src/client.ts:12 | a byte is escaped as `%` and two upper-case hexadecimal digits |
| `UrlEncoding.PercentEncodeBytesShape` | src/client.ts:12 | escaping n bytes gives 3n characters, each alphanumeric or `%` |
| `UrlEncoding.EncodeUriComponent` | src/client.ts:12 | no contract of its own; see `UrlEncoding.EncodeUriComponentChars`, `UrlEncoding.EncodeUriComponentLength`, `UrlEncoding.EncodeUriComponentIdentity`, `UrlEncoding.EscapedFirst` |
| `UrlEncoding.EscapedFirst` | src/client.ts:12 | a text whose first character is escaped is encoded from a `%` on |
| `UrlEncoding.EncodeUriComponentChars` | src/client.ts:12 | every character `encodeURIComponent` emits is unreserved or `%` |
| `UrlEncoding.EncodeUriComponentLength` | src/client.ts:12 | the output is never shorter than the input, and is at least two characters longer once any character is escaped |
| `UrlEncoding.EncodeUriComponentIdentity` | src/client.ts:12 | `encodeURIComponent` leaves a string unchanged exactly when all its characters are unreserved |
| `UrlEncoding.EncodeUriComponentUnreserved` | src/client.ts:12 | a string of unreserved characters is left unchanged |
| `UrlEncoding.EscapedChars` | src/client.ts:11-13 | an escaped string holds only form-safe characters and `%` |
| `UrlEncoding.FormEncodeBytesAppend` | src/client.ts:11-13 | the serializer works on bytes one at a time |
| `UrlEncoding.FormEncodeBytesEscaped` | src/client.ts:11-13 | bytes without a space serialize to form-safe characters and `%XX` escapes only |
| `UrlEncoding.FormEncodeSafe` | src/client.ts:11-13 | form-safe text is serialized unchanged |
| `UrlEncoding.FormEncodeBytesChars` | src/client.ts:11-13 | every serialized character is form-safe, `%` or `+`, so never `&`, `=`, `#` or `?` |
| `UrlEncoding.FormEncodeChars` | src/client.ts:11-13 | the same, for the serialization of a string |
| `UrlEncoding.Serialize` | src/client.ts:11-13 | no contract of its own; see `UrlEncoding.FormEncodeChars`, `UrlEncoding.SearchParamSerialized`, `Client.QueryParametersText` |
| `UrlEncoding.PlusToSpace` | src/main.ts:22 | the parser turns each `+` into a space and keeps every other byte |
| `UrlEncoding.EncodeFormEncodeBytes` | src/client.ts:11-13 | serialized text is ASCII |
| `UrlEncoding.PlusToSpaceAppend` | src/main.ts:22 | plus-to-space works byte by byte |
| `UrlEncoding.PercentDecodeFormEncodeByte` | src/main.ts:22 | the parser reads one serialized byte back, whatever follows |
| `UrlEncoding.PercentDecodeFormEncode` | src/main.ts:22 | percent-decoding inverts the serializer on bytes |
| `UrlEncoding.FormDecodeEncode` | src/main.ts:22 | the parser's decoding inverts the serializer's encoding, for every string |
| `UrlEncoding.IndexOf` | src/main.ts:22 | the first occurrence of a character, or `None` exactly when it is absent |
| `UrlEncoding.Get` | src/main.ts:22 | `searchParams.get` finds a value exactly when some pair has that name, and the value is that of the first such pair |
| `UrlEncoding.QueryOfJoined` | src/main.ts:22 | the query of `path?query` is `query`, for a path without `?` or `#` and a query without `#` |
| `UrlEncoding.ParseSinglePair` | src/main.ts:22 | a query with one `name=value` sequence parses to that one pair, decoded |
| `UrlEncoding.SearchParamSerialized` | src/client.ts:11-15 | the server finds, under its name, the value `URLSearchParams` serialized into the URL |
| `UrlEncoding.SearchParam` | src/main.ts:22 | no contract of its own; see `UrlEncoding.QueryOfJoined`, `UrlEncoding.ParseSinglePair`, `UrlEncoding.Get`, `UrlEncoding.SearchParamSerialized` |
| `Json.ParseBodyCases` | src/utility.ts:16 | `json()` parses the text after one leading byte order mark, or the whole text when there is none; the empty text and a lone byte order mark do not parse |
| `Json.ParseBody` | src/utility.ts:16 | no contract of its own; see `Json.ParseBodyCases`, `Json.ParseBodyRoundTrip` |
| `Json.ParseBodyRoundTrip` | src/utility.ts:16 | `json()` reads back what `JSON.stringify` wrote, with or without a byte order mark in front |
| `Json.CanonicalScalars` | src/main.ts:67-70 | `null`, booleans, strings and empty arrays and objects are values a program can hold |
| `Json.RepeatedNameNotCanonical` | src/main.ts:67-70 | an object with a repeated member name is not a value a program can hold |
| `Json.IndexAfterNameNotCanonical` | src/main.ts:67-70 | an object with an array index after an ordinary name is not a value a program can hold |
| `Errors.NewRpcError` | src/error.ts:1-9 | no contract of its own; see `Errors.StatusSupplied`, `Errors.StatusOmitted`, `Errors.MessagePassedThrough`, `Errors.InstanceChecks` |
| `Errors.StatusSupplied` | src/error.ts:7 | `status` is the status given in `options` |
| `Errors.StatusOmitted` | src/error.ts:4-7 | without `options`, or without `options.status`, there is no status |
| `Errors.MessagePassedThrough` | src/error.ts:4-5 | the message reaches the base `Error` unchanged, and a missing message is the empty string |
| `Errors.InstanceChecks` | src/error.ts:1 | an `RpcError` is an `Error`, and a plain `Error` is not an `RpcError` |
| `Http.Lower` | src/utility.ts:32 | a lower-cased header name keeps its length and has no upper-case ASCII letter; each such letter becomes the one 32 code points above it, and every other character is kept |
| `Http.LowerIdempotent` | src/utility.ts:33 | lowercasing a lower-case name changes nothing |
| `Http.LowerNoUpper` | src/utility.ts:9 | a name without upper-case letters is its own lower-case form |
| `Http.LowerNames` | src/middleware/etag.ts:19 | the names `etag`, `if-none-match` and `content-type` are already lower-case |
| `Http.HeadersOfContents` | src/utility.ts:32 | `new Headers(init)` holds a name exactly when `init` gives it a value, mapped to all its values joined by `, ` in order |
| `Http.ValuesForNonEmpty` | src/utility.ts:32 | a name has values exactly when some pair of `init` carries it, compared after lowercasing |
| `Http.HeadersOfKeys` | src/utility.ts:32 | the names of `new Headers(init)` are the lower-cased names of `init` |
| `Http.HeadersOfLower` | src/utility.ts:32 | every stored name is lower-case |
| `Http.NewRequest` | src/client.ts:36-40 | no contract of its own; see `Client.QueryRequestShape`, `Client.MutateAlwaysThrows`, `Client.IntendedMutateRequestShape` |
| `Http.Headers.constructor` | src/utility.ts:29 | `new Headers(init)` appends every pair of `init`, in order |
| `Http.Headers.Copy` | src/middleware/etag.ts:14 | a clone's headers start as the original's |
| `Http.Headers.Append` | src/utility.ts:32 | appending combines a repeated name's values |
| `Http.Headers.Set` | src/middleware/etag.ts:26 | `set` replaces every value of the lower-cased name and changes nothing else |
| `Utility.JsonHeadersContents` | src/utility.ts:7-10 | the JSON headers hold one entry, `content-type: application/json` |
| `Utility.GetJsonBody` | src/utility.ts:12-23 | no contract of its own; see `Utility.GetJsonBodyCases`, `Utility.GetJsonBodyRoundTrip` |
| `Utility.GetJsonBodyCases` | src/utility.ts:12-23 | the body text is parsed after one leading byte order mark, if any; a body that does not parse, the empty one included, gives undefined |
| `Utility.GetJsonBodyRoundTrip` | src/utility.ts:12-23 | a body written by `JSON.stringify` reads back as the value written, also after a byte order mark |
| `Utility.SetAll` | src/utility.ts:32-34 | the inner loop sets every entry of one header list over the result |
| `Utility.MergeHeaders` | src/utility.ts:25-38 | the result is a fresh `Headers` holding `one`'s headers with `other`'s set over them |
| `Utility.MergedOtherWins` | src/utility.ts:31-35 | a name present in `other` reads as `other`'s value |
| `Utility.MergedOneKept` | src/utility.ts:31-35 | a name present only in `one` keeps `one`'s value |
| `Utility.MergedKeys` | src/utility.ts:29-37 | the merged names are the union of both inputs' names, lower-cased |
| `Utility.MergedUndefined` | src/utility.ts:25-32 | an undefined argument acts as empty on either side |
| `Procedure.Validate` | src/main.ts:76-77 | no contract of its own; see `Procedure.ValidateReduces` |
| `Procedure.Run` | src/main.ts:55-59 | no contract of its own; see `Procedure.RunStages`, `Procedure.RunFirstFailure` |
| `Procedure.Respond` | src/main.ts:61-70 | no contract of its own; see `Procedure.RespondUndefined`, `Procedure.RespondIterable`, `Procedure.RespondIterableNoSeparator`, `Procedure.RespondValue`, `Procedure.RespondValueHeaders` |
| `Procedure.Serve` | src/main.ts:54-73 | no contract of its own; see `Procedure.ServeFailure`, `Procedure.ServeSuccess`, `Procedure.RpcErrorStatusIgnored` |
| `Procedure.QueryInput` | src/main.ts:22-28 | no contract of its own; see `Procedure.QueryInputCases` |
| `Procedure.MutateInput` | src/main.ts:41 | no contract of its own; see `Procedure.MutateInputCases`, `Procedure.MutateAcceptsByteOrderMark` |
| `Procedure.Query` | src/main.ts:15-33 | no contract of its own; see `Procedure.QueryMissingInput`, `Procedure.QueryIdentityRoundTrip`, `Client.EscapedQueryFails` |
| `Procedure.Mutate` | src/main.ts:35-45 | no contract of its own; see `Procedure.MutateUnparseable`, `Procedure.MutateIdentityRoundTrip` |
| `Procedure.ValidateReduces` | src/main.ts:76-77 | function validators are applied directly and schemas through `parse`, so both come down to one partial function |
| `Procedure.StringifyAll` | src/main.ts:64 | one `JSON.stringify` text per element, in order |
| `Procedure.RunStages` | src/main.ts:55-59 | the pipeline succeeds exactly when every stage succeeds on the previous stage's value, and its value is then the last stage's |
| `Procedure.RunFirstFailure` | src/main.ts:55-59 | whichever stage fails first (the input read, the input validator, the handler or the output validator) stops the pipeline with its own error |
| `Procedure.ServeFailure` | src/main.ts:71-73 | any failure gives status 500 with no body and no headers |
| `Procedure.ServeSuccess` | src/main.ts:54-73 | the status is 200 exactly when every stage succeeds |
| `Procedure.RpcErrorStatusIgnored` | src/main.ts:71-73 | an `RpcError` thrown by the handler gives 500, whatever its status |
| `Procedure.RespondUndefined` | src/main.ts:61-62 | an undefined output gives 200 with no body and no content type |
| `Procedure.RespondIterable` | src/main.ts:63-64 | an iterable output gives one chunk per element, in order, each parsing back to its element, with no content type |
| `Procedure.RespondIterableNoSeparator` | src/main.ts:64 | the streamed text of two elements is their two JSON texts back to back |
| `Procedure.RespondValue` | src/main.ts:67-70 | any other output, `null` included, gives 200 and a body that reads back as the output |
| `Procedure.RespondValueHeaders` | src/main.ts:67-70 | that response carries exactly the JSON content-type header |
| `Procedure.QueryInputCases` | src/main.ts:22-28 | the query input is the parsed `input` parameter; a missing, empty or unparseable one fails |
| `Procedure.MutateInputCases` | src/main.ts:41 | the mutation input is the body read by `request.json()`; a body that does not parse, the empty one included, fails |
| `Procedure.MutateAcceptsByteOrderMark` | src/main.ts:41 | unlike a query's `JSON.parse`, a mutation accepts a body that starts with a byte order mark and reads the value after it |
| `Procedure.QueryMissingInput` | src/main.ts:22-26 | a query without a usable `input` parameter is answered with the bare 500 |
| `Procedure.MutateUnparseable` | src/main.ts:35-45 | a mutation whose body does not parse is answered with the bare 500 |
| `Procedure.MutateIdentityRoundTrip` | src/main.ts:54-70 | an identity mutation answers 200 with JSON headers and a body that reads back as the input sent |
| `Procedure.QueryIdentityRoundTrip` | src/main.ts:15-33 | an identity query answers 200 with a body that reads back as its `input` parameter |
| `Etag.CollectStream` | src/middleware/etag.ts:30-35 | no contract of its own; see `Utf8.EncodeAppend`, `Etag.SameBodySameHeader` |
| `Etag.EncodeTag` | src/middleware/etag.ts:37-38 | no contract of its own; see `Etag.TagShape`, `Etag.DistinctDigests` |
| `Etag.EntityTag` | src/middleware/etag.ts:26 | no contract of its own; see `Etag.HeaderShape`, `Etag.OpaqueTagOfEntityTag` |
| `Etag.EtagResult` | src/middleware/etag.ts:8-27 | no contract of its own; see `Etag.StreamPassesThrough`, `Etag.NoBodyPassesThrough`, `Etag.FailurePassesThrough`, `Etag.MutateIgnored`, `Etag.NotModified`, `Etag.Modified`, `Etag.EchoNeverNotModified` |
| `Etag.EtagHeaders` | src/middleware/etag.ts:20-23 | the 304's headers hold only `etag` |
| `Etag.Etag` | src/middleware/etag.ts:5-27 | the handler runs once on the request as given, and the answer is `EtagResult` of what it returned |
| `Etag.StreamPassesThrough` | src/middleware/etag.ts:10-12 | for a streaming procedure the inner response passes through unchanged, with no `etag` |
| `Etag.NoBodyPassesThrough` | src/middleware/etag.ts:10-12 | a response without a body passes through unchanged, whatever the flags |
| `Etag.FailurePassesThrough` | src/middleware/etag.ts:8 | a handler that throws makes the middleware throw the same |
| `Etag.MutateIgnored` | src/middleware/etag.ts:7 | the `mutate` flag makes no difference |
| `Etag.TagShape` | src/middleware/etag.ts:37-38 | a tag is 28 characters long, with no double quote |
| `Etag.HeaderShape` | src/middleware/etag.ts:26 | a strong header is `"`, 28 non-quote characters and `"`; a weak one is `W/` before it |
| `Etag.DistinctDigests` | src/middleware/etag.ts:15-17 | distinct digests give distinct tags and distinct headers |
| `Etag.SameBodySameHeader` | src/middleware/etag.ts:15-17 | equal body texts give equal `etag` headers |
| `Etag.NotModified` | src/middleware/etag.ts:19-24 | an `if-none-match` equal to the bare tag gets 304, no body and only `etag` holding the bare tag |
| `Etag.Modified` | src/middleware/etag.ts:26-27 | any other request gets the clone: same status and body, other headers kept, `etag` set to the entity tag |
| `Etag.AbsentNeverMatches` | src/middleware/etag.ts:19 | without `if-none-match` the response keeps its status and body |
| `Etag.EchoNeverNotModified` | src/middleware/etag.ts:19-26 | sending back the header given, for an unchanged body, never gets 304 |
| `Etag.OpaqueTag` | src/middleware/etag.ts:26 | the opaque tag of an entity tag is at least two characters shorter than it |
| `Etag.OpaqueTagOfEntityTag` | src/middleware/etag.ts:26 | the opaque tag of the emitted header, strong or weak, is the tag |
| `Etag.EchoRevalidates` | src/middleware/etag.ts:19 | with the intended comparison, sending back the header given gets 304 carrying that header |
| `Etag.RevalidatingAgreesOtherwise` | src/middleware/etag.ts:10-27 | apart from the comparison, the intended middleware answers as the written one |
| `Client.QueryRequest` | src/client.ts:11-15 | no contract of its own; see `Client.QueryRequestShape`, `Client.ServerReadsUriComponent` |
| `Client.MutateRequest` | src/client.ts:35-41 | no contract of its own; see `Client.MutateAlwaysThrows` |
| `Client.Call` | src/client.ts:43-49 | no contract of its own; see `Client.CallIgnoresStatus` |
| `Client.Query` | src/client.ts:7-16 | no contract of its own; see `Client.QueryRequestShape`, `Client.EscapedQueryFails`, `Client.FooQueryFails` |
| `Client.QueryStream` | src/client.ts:18-29 | no contract of its own; see `Client.QueryStreamIsQuery` |
| `Client.Mutate` | src/client.ts:31-41 | no contract of its own; see `Client.MutateAlwaysThrows` |
| `Client.NoSpaceInUriComponent` | src/client.ts:12 | `encodeURIComponent`'s output is ASCII with no space |
| `Client.QueryParametersText` | src/client.ts:11-13 | the query string is `input=` and the input's JSON text encoded twice |
| `Client.SerializeOnePair` | src/client.ts:11-13 | one pair is serialized as its form-encoded name, `=` and its form-encoded value |
| `Client.EscapedTwice` | src/client.ts:11-13 | text encoded by `encodeURIComponent` and then the serializer holds escaped characters only |
| `Client.InputNameUnchanged` | src/client.ts:12 | the serializer leaves the name `input` as it is |
| `Client.QueryRequestShape` | src/client.ts:11-15 | a query is a GET with no headers or body, to `path?input=` and the JSON text encoded twice, made of `*-._`, alphanumerics and `%XX` only |
| `Client.QueryStreamIsQuery` | src/client.ts:18-29 | `queryStream` builds and sends the very request `query` does |
| `Client.UriMarksEscapedAgain` | src/client.ts:11-13 | the serializer escapes the `!'()~` that `encodeURIComponent` keeps, and its `%` |
| `Client.ServerReadsUriComponent` | src/client.ts:11-15 | the server reads `encodeURIComponent` of the JSON text, not the text itself |
| `Client.ServerQueryInput` | src/client.ts:11-15 | the server parses that text, which gives a canonical input back when no character needed escaping |
| `Client.ServerParsesUriComponent` | src/client.ts:11-15 | for a non-empty JSON text, the server's query input is the JSON parse of `encodeURIComponent` of it |
| `Client.NullSurvives` | src/client.ts:11-15 | `null` reaches the server intact |
| `Client.OpeningBraceEscaped` | src/client.ts:12 | a text opening with `{` is escaped from `%7B` on and changes |
| `Client.ObjectArrivesEncoded` | src/client.ts:11-15 | an object's JSON text, such as `{"foo":42}`, reaches the server as different text beginning `%7B` |
| `Client.EscapedQueryFails` | src/client.ts:11-15 | a query of an object, array or string input fails end to end: the server's `JSON.parse` rejects the escaped text, it answers the bare 500, and the client's `response.json()` throws a SyntaxError, whatever the validators and handler |
| `Client.FooQueryFails` | src/client.ts:11-15 | the client's own test input `{foo: 42}` gets a SyntaxError from an identity query |
| `Client.IntendedServerParses` | src/client.ts:11-15 | with one encoding, the server's query input is the JSON parse of the input's own non-empty JSON text |
| `Client.IntendedQueryRoundTrip` | src/client.ts:11-15 | with one encoding the server reads back every input |
| `Client.MutateAlwaysThrows` | src/client.ts:35-41 | a body with no method is refused by the Request constructor, so every `mutate` throws a TypeError before `fetch` |
| `Client.IntendedMutateRequestShape` | src/client.ts:35-41 | with POST, the request is the path verbatim, the JSON content type and the JSON text, from which the server reads the input back |
| `Client.IntendedMutateEndToEnd` | src/client.ts:31-41 | against an identity server the intended mutation returns its input |
| `Client.CallIgnoresStatus` | src/client.ts:43-49 | the body is read whatever the status; a thrown `fetch` error propagates; the server's bare 500 becomes a SyntaxError |

## Left out

- SHA-1, `JSON.stringify`, `JSON.parse`, validators, handlers and `fetch` are parameters. `crypto.subtle.digest` is any function from bytes to 20 bytes.
- `Errors.RpcErrorOptions`: `status` is an integer. A `number` that is not an integer, such as `403.5`, can be stored by the source but not by the model.
- Asynchrony, promises and laziness are not modelled. Bodies are whole values, streams are sequences of text chunks, and the hidash stream helpers are plain concatenation.
- Bodies are text. Decoding bytes to text at chunk boundaries is not modelled, nor is a stream that fails midway.
- A JSON value has no `undefined`. An element that `JSON.stringify` cannot write cannot arise. So `mutate(path, undefined)` is not modelled: its body is absent, and the request is a GET that does not throw.
- `NaN`, the infinities and `-0` are not modelled. `JSON.stringify` writes the first three as `null`, and a real number has no sign of zero.
- Round trips are promised only for canonical values (`Json.Canonical`). No round trip is promised for a `Json` that no JavaScript value stands for, such as an object with a repeated member name.
- A body can be read only once, and `getJsonBody` on a used body is not modelled. Neither is the tee that `clone` performs.
- `new URL(request.url)` throwing on an invalid URL is not modelled. Neither is resolving a relative `path` in `new Request(path)`. The URL is a string cut at the first `#` and the first `?`.
- Header name and value validation, `set-cookie`, and the iteration order of `Headers` are not modelled. A `HeadersInit` is a list of pairs.
- `Http.Request`, `Http.Response`: nothing requires a header map's keys to be lower case. A value with a key such as `If-None-Match` can be written down, although no `Headers` object holds one. `HeaderGet` reads such a key as absent. Every request and response built by the core is lower case: it comes from `HeadersOf` (`Http.HeadersOfLower`), `Headers.Set` or a literal map of lower-case names.
- `Http.AppendHeader`, `Http.Headers.Set`: header values are kept as given. A `Headers` object trims leading and trailing HTTP whitespace (tab, line feed, carriage return, space) from a value. The values the core writes itself, a base 64 entity tag and `application/json`, have none; values a caller passes to `mergeHeaders` are not trimmed in the model.
- Strings are sequences of Unicode scalar values, not JavaScript's UTF-16 code units. Lone surrogates cannot occur, and lengths count scalar values.
- The standard `cause` option of `RpcError`, and the `name` and `stack` of errors, are not modelled.
- An output validator receives the handler's value as a whole, an iterable included.
- A truthy `weak` that is not `true` is not modelled, because `weak` is an optional boolean.
- `Utf8.Decode`: an ill-formed sequence is replaced byte by byte with U+FFFD, not by maximal subpart. Every decoded text in the lemmas is well formed.
- `Client.ObjectArrivesEncoded`: states the escaped opening `%7B` and that the text changes, for any JSON text opening with `{`, rather than the whole escaped text `%7B%22foo%22%3A42%7D`.
- `Etag.RevalidatingResult` compares one entity tag. A list of tags and `*` in `if-none-match` are not part of this model.
- The tests expect behaviour the code here does not have, so it is not modelled: a `Server` with options, headers and middlewares; a 400 status; a 200 answer for an empty mutation body; JSON error bodies; and `etag()` called without an argument.
- `src/adapter/aws-lambda.ts`, `src/validation.ts`, `src/options.ts`, `src/middleware/utility.ts`, `src/index.ts` and the examples are not part of this model. They hold no logic of the core, only glue, wrappers and type declarations.

## Findings

| source | as written | input that shows it | evidently intended | confidence | as-written member | corrected member |
|---|---|---|---|---|---|---|
| src/middleware/etag.ts:19 | `if-none-match` is compared with the bare base 64 tag, but the `etag` header sent at line 26 is that tag in quotes, `W/`-prefixed when weak | any non-streamed body: send back the `etag` header of the first response as `if-none-match`, and the second answer is the 200 clone again, never 304 | compare the opaque tag of `if-none-match` with the tag, by the weak comparison of section 13.1.2 of RFC 9110, and carry the same header on the 304 | high, not executed | `Etag.EchoNeverNotModified` | `Etag.EchoRevalidates` |
| src/client.ts:11-13 | the JSON text is passed through `encodeURIComponent` and then serialized again by `URLSearchParams`, and the server decodes once | input `{foo: 42}`: the server's `input` parameter is `%7B%22foo%22%3A42%7D`, not `{"foo":42}`, so `JSON.parse` fails and the query is answered with a 500 | serialize the JSON text once, with `URLSearchParams` alone | medium, not executed | `Client.EscapedQueryFails` | `Client.IntendedQueryRoundTrip` |
| src/client.ts:36-40 | the mutation request has a body and no method, so it defaults to GET | any JSON input: `new Request(path, { body, headers })` throws a TypeError, because a GET request cannot have a body, so `fetch` is never called | give the request method POST | high, not executed | `Client.MutateAlwaysThrows` | `Client.IntendedMutateEndToEnd` |
