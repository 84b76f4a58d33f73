/** The Fetch primitives the library is built on: bodies, requests,
    responses, header lists and the `Headers` object that updates one in
    place.  Header names are compared case-insensitively: a `Headers` object
    byte-lowercases every name it stores. */
module Http {
  import opened Wrappers
  import opened Errors

  /** A body: absent (`null`), one text, or a stream of text chunks. */
  datatype Body = NoBody | Text(text: string) | Chunks(chunks: seq<string>)

  function Concat(chunks: seq<string>): string {
    if chunks == [] then "" else chunks[0] + Concat(chunks[1..])
  }

  /** The text a body consumes to; an absent body reads as empty. */
  function BodyText(b: Body): string {
    match b
    case NoBody => ""
    case Text(t) => t
    case Chunks(cs) => Concat(cs)
  }

  /** Header name (lower-case) to combined value. */
  type HeaderMap = map<string, string>

  /** A `HeadersInit`: name/value pairs in order, names in any case. */
  type HeadersInit = seq<(string, string)>

  datatype Request = Request(url: string, verb: string, headers: HeaderMap, body: Body)

  datatype Response = Response(status: int, headers: HeaderMap, body: Body)

  function LowerChar(c: char): char {
    if 'A' <= c <= 'Z' then (c as int + 32) as char else c
  }

  /** Byte-lowercase: no upper-case ASCII letter is left, each one becomes
      the letter 32 code points above it, and every other character is
      kept. */
  function Lower(s: string): (r: string)
    ensures |r| == |s|
    ensures forall i :: 0 <= i < |r| ==> !('A' <= r[i] <= 'Z')
    ensures forall i :: 0 <= i < |s| ==> ('A' <= s[i] <= 'Z' ==> r[i] as int == s[i] as int + 32)
    ensures forall i :: 0 <= i < |s| ==> (!('A' <= s[i] <= 'Z') ==> r[i] == s[i])
  {
    seq(|s|, i requires 0 <= i < |s| => LowerChar(s[i]))
  }

  lemma LowerIdempotent(s: string)
    ensures Lower(Lower(s)) == Lower(s)
  {
  }

  /** A name with no upper-case letter is its own lower-case form. */
  lemma LowerNoUpper(s: string)
    requires forall i :: 0 <= i < |s| ==> !('A' <= s[i] <= 'Z')
    ensures Lower(s) == s
  {
  }

  /** The header names the library uses are already lower-case. */
  lemma LowerNames()
    ensures Lower("etag") == "etag"
    ensures Lower("if-none-match") == "if-none-match"
    ensures Lower("content-type") == "content-type"
  {
  }

  /** Header lookup, `None` standing for `null`. */
  function HeaderGet(m: HeaderMap, name: string): Option<string> {
    if Lower(name) in m then Some(m[Lower(name)]) else None
  }

  /** Append: a second value for a name is combined with the first, joined
      by a comma and a space, which is what `get` and `entries` report. */
  function AppendHeader(m: HeaderMap, name: string, value: string): HeaderMap {
    var key := Lower(name);
    if key in m then m[key := m[key] + ", " + value] else m[key := value]
  }

  /** The header list of `new Headers(init)`: every pair appended in order. */
  function HeadersOf(init: HeadersInit): HeaderMap
    decreases |init|
  {
    if init == [] then map[]
    else AppendHeader(HeadersOf(init[..|init| - 1]), init[|init| - 1].0, init[|init| - 1].1)
  }

  /** The values given for lower-case name `key`, in order. */
  function ValuesFor(init: HeadersInit, key: string): seq<string>
    decreases |init|
  {
    if init == [] then []
    else
      var last := init[|init| - 1];
      ValuesFor(init[..|init| - 1], key) + (if Lower(last.0) == key then [last.1] else [])
  }

  /** Values joined by a comma and a space. */
  function JoinValues(values: seq<string>): string
    requires values != []
    decreases |values|
  {
    if |values| == 1 then values[0]
    else JoinValues(values[..|values| - 1]) + ", " + values[|values| - 1]
  }

  /** The names of `new Headers(init)` are exactly the lower-cased names of
      `init`, and each maps to all of its values, combined in order. */
  lemma {:induction false} HeadersOfContents(init: HeadersInit, key: string)
    ensures key in HeadersOf(init) <==> ValuesFor(init, key) != []
    ensures key in HeadersOf(init) ==> HeadersOf(init)[key] == JoinValues(ValuesFor(init, key))
  {
    if init != [] {
      var front, last := init[..|init| - 1], init[|init| - 1];
      HeadersOfContents(front, key);
      var vs := ValuesFor(front, key);
      assert HeadersOf(init) == AppendHeader(HeadersOf(front), last.0, last.1);
      if Lower(last.0) == key {
        var ws := vs + [last.1];
        assert ValuesFor(init, key) == ws;
        if vs != [] {
          assert ws[..|ws| - 1] == vs && ws[|ws| - 1] == last.1;
          assert JoinValues(ws) == JoinValues(vs) + ", " + last.1;
        }
      } else {
        assert ValuesFor(init, key) == vs + [] == vs;
        assert key in HeadersOf(init) <==> key in HeadersOf(front);
        if key in HeadersOf(front) {
          assert HeadersOf(init)[key] == HeadersOf(front)[key];
        }
      }
    }
  }

  lemma {:induction false} ValuesForNonEmpty(init: HeadersInit, key: string)
    ensures ValuesFor(init, key) != [] <==> exists i :: 0 <= i < |init| && Lower(init[i].0) == key
  {
    if init != [] {
      var front := init[..|init| - 1];
      ValuesForNonEmpty(front, key);
      assert forall i :: 0 <= i < |front| ==> front[i] == init[i];
    }
  }

  /** The key set of `new Headers(init)`: the lower-cased names of `init`. */
  lemma HeadersOfKeys(init: HeadersInit)
    ensures HeadersOf(init).Keys == set i | 0 <= i < |init| :: Lower(init[i].0)
  {
    forall key ensures key in HeadersOf(init) <==> exists i :: 0 <= i < |init| && Lower(init[i].0) == key {
      HeadersOfContents(init, key);
      ValuesForNonEmpty(init, key);
    }
  }

  /** Every name stored is lower-case. */
  lemma {:induction false} HeadersOfLower(init: HeadersInit)
    ensures forall k :: k in HeadersOf(init) ==> Lower(k) == k
  {
    if init != [] {
      HeadersOfLower(init[..|init| - 1]);
      LowerIdempotent(init[|init| - 1].0);
    }
  }

  /** A `Headers` object: a header list updated in place. */
  class Headers {
    var entries: HeaderMap

    /** `new Headers(init)`, `new Headers()` being the empty `init`. */
    constructor (init: HeadersInit)
      ensures entries == HeadersOf(init)
    {
      entries := map[];
      new;
      var i := 0;
      while i < |init|
        invariant 0 <= i <= |init|
        invariant entries == HeadersOf(init[..i])
      {
        Append(init[i].0, init[i].1);
        assert init[..i + 1][..i] == init[..i];
        i := i + 1;
      }
      assert init[..|init|] == init;
    }

    /** The header list that `clone()` copies into a new response. */
    constructor Copy(m: HeaderMap)
      ensures entries == m
    {
      entries := m;
    }

    method Append(name: string, value: string)
      modifies this
      ensures entries == AppendHeader(old(entries), name, value)
    {
      entries := AppendHeader(entries, name, value);
    }

    /** `headers.set(name, value)`: replaces every value of the name. */
    method Set(name: string, value: string)
      modifies this
      ensures entries == old(entries)[Lower(name) := value]
    {
      entries := entries[Lower(name) := value];
    }

    function Get(name: string): Option<string>
      reads this
    {
      HeaderGet(entries, name)
    }
  }

  /** The `init` argument of the Request constructor. */
  datatype RequestInit = RequestInit(verb: Option<string>, headers: HeadersInit, body: Option<string>)

  /** `new Request(url, init)`.  The method defaults to GET, and a request
      with a body and method GET or HEAD is refused with a TypeError (Fetch
      Standard, the Request constructor); a text body brings a text/plain
      content-type when none is given. */
  function NewRequest(url: string, init: RequestInit): Result<Request, Thrown> {
    var verb := init.verb.GetOr("GET");
    if init.body.Some? && (Lower(verb) == "get" || Lower(verb) == "head") then
      Err(TypeError)
    else
      var headers := HeadersOf(init.headers);
      match init.body
      case None => Ok(Request(url, verb, headers, NoBody))
      case Some(text) =>
        var typed := if "content-type" in headers then headers else headers["content-type" := "text/plain;charset=UTF-8"];
        Ok(Request(url, verb, typed, Text(text)))
  }
}
