/** Shared helpers: the name of the query parameter that carries a query's
    input, the JSON content-type header, reading a JSON body, and merging
    header lists. */
module Utility {
  import opened Wrappers
  import opened Json
  import opened Http

  const InputParameterName: string := "input"

  /** `{ "content-type": "application/json" }`. */
  const JsonHeaders: HeadersInit := [("content-type", "application/json")]

  /** The JSON headers hold exactly one entry. */
  lemma JsonHeadersContents()
    ensures HeadersOf(JsonHeaders) == map["content-type" := "application/json"]
    ensures |HeadersOf(JsonHeaders)| == 1
  {
    assert JsonHeaders[..0] == [];
    LowerNames();
  }

  /** `getJsonBody`: the body read by `json()`, or `None` (`undefined`)
      when it does not parse. */
  function GetJsonBody(body: Body, codec: Codec): Option<Json> {
    ParseBody(codec, BodyText(body))
  }

  /** A body that parses, after one leading byte order mark if any, gives
      its value; one that does not, the empty body included, gives
      `undefined`. */
  lemma GetJsonBodyCases(body: Body, codec: Codec)
    requires Lawful(codec)
    ensures var text := BodyText(body);
      (|text| == 0 || text[0] != ByteOrderMark) ==> GetJsonBody(body, codec) == codec.parse(text)
    ensures var text := BodyText(body);
      |text| > 0 && text[0] == ByteOrderMark ==> GetJsonBody(body, codec) == codec.parse(text[1..])
    ensures BodyText(body) == "" ==> GetJsonBody(body, codec).None?
  {
    ParseBodyCases(codec, BodyText(body));
  }

  /** A body written by `JSON.stringify` reads back as the value written. */
  lemma GetJsonBodyRoundTrip(j: Json, codec: Codec)
    requires Lawful(codec)
    requires Canonical(j)
    ensures GetJsonBody(Text(codec.stringify(j)), codec) == Some(j)
    ensures GetJsonBody(Text([ByteOrderMark] + codec.stringify(j)), codec) == Some(j)
  {
    ParseBodyRoundTrip(codec, j);
  }

  /** The header list of an optional `HeadersInit`: `undefined` is empty. */
  function HeadersOfOptional(init: Option<HeadersInit>): HeaderMap {
    HeadersOf(init.GetOr([]))
  }

  /** What `mergeHeaders(one, other)` holds: every header of `one`, then every
      header of `other` set over it. */
  function Merged(one: Option<HeadersInit>, other: Option<HeadersInit>): HeaderMap {
    HeadersOfOptional(one) + HeadersOfOptional(other)
  }

  /** The headers of the inputs taken in order, each set over the earlier ones. */
  function MergedAll(inits: seq<Option<HeadersInit>>): HeaderMap
    decreases |inits|
  {
    if inits == [] then map[]
    else MergedAll(inits[..|inits| - 1]) + HeadersOfOptional(inits[|inits| - 1])
  }

  /** The inner loop of `mergeHeaders`: `set` every entry of `source` on
      `headers`, one name at a time, in any order. */
  method SetAll(headers: Headers, source: HeaderMap)
    requires forall k :: k in source ==> Lower(k) == k
    modifies headers
    ensures headers.entries == old(headers.entries) + source
  {
    ghost var base := headers.entries;
    var pending := source.Keys;
    while pending != {}
      invariant pending <= source.Keys
      invariant headers.entries == base + map k | k in source.Keys - pending :: source[k]
      decreases pending
    {
      var key :| key in pending;
      headers.Set(key, source[key]);
      pending := pending - {key};
    }
    assert (map k | k in source.Keys - {} :: source[k]) == source;
  }

  /** `mergeHeaders`: a fresh `Headers` object filled by setting, for each
      argument in turn, each of its entries. */
  method MergeHeaders(one: Option<HeadersInit>, other: Option<HeadersInit>) returns (headers: Headers)
    ensures fresh(headers)
    ensures headers.entries == Merged(one, other)
  {
    headers := new Headers([]);
    var inits := [one, other];
    for n := 0 to 2
      invariant fresh(headers)
      invariant headers.entries == MergedAll(inits[..n])
    {
      var initial := new Headers(inits[n].GetOr([]));
      HeadersOfLower(inits[n].GetOr([]));
      SetAll(headers, initial.entries);
      assert inits[..n + 1][..n] == inits[..n];
    }
    assert inits[..2] == [one, other];
    assert inits[..2][..1] == [one] && [one][..0] == [];
  }

  /** A name given in `other` reads as `other`'s value. */
  lemma MergedOtherWins(one: Option<HeadersInit>, other: Option<HeadersInit>, name: string)
    requires other.Some? && exists i :: 0 <= i < |other.value| && Lower(other.value[i].0) == Lower(name)
    ensures HeaderGet(Merged(one, other), name) == HeaderGet(HeadersOfOptional(other), name)
    ensures HeaderGet(Merged(one, other), name).Some?
  {
    HeadersOfKeys(other.value);
  }

  /** A name given only in `one` keeps `one`'s value. */
  lemma MergedOneKept(one: Option<HeadersInit>, other: Option<HeadersInit>, name: string)
    requires other.None? || forall i :: 0 <= i < |other.value| ==> Lower(other.value[i].0) != Lower(name)
    ensures HeaderGet(Merged(one, other), name) == HeaderGet(HeadersOfOptional(one), name)
  {
    if other.Some? {
      HeadersOfKeys(other.value);
    }
  }

  /** The merged names are exactly the names of both inputs, lower-cased. */
  lemma MergedKeys(one: HeadersInit, other: HeadersInit)
    ensures Merged(Some(one), Some(other)).Keys ==
      (set i | 0 <= i < |one| :: Lower(one[i].0)) + (set i | 0 <= i < |other| :: Lower(other[i].0))
  {
    HeadersOfKeys(one);
    HeadersOfKeys(other);
  }

  /** An `undefined` argument acts as an empty one, on either side. */
  lemma MergedUndefined(h: HeadersInit)
    ensures Merged(None, Some(h)) == HeadersOf(h)
    ensures Merged(Some(h), None) == HeadersOf(h)
  {
    assert HeadersOf([]) == map[];
  }
}
