/** JSON values and the two built-ins that convert them to and from text.
    `JSON.stringify` and `JSON.parse` are not modelled: a `Codec` carries
    them as functions, and `Lawful` states the facts about them that the
    round-trip lemmas rely on. */
module Json {
  import opened Wrappers

  datatype Json =
    | Null
    | Bool(b: bool)
    | Number(n: real)
    | Str(s: string)
    | Array(items: seq<Json>)
    | Object(members: seq<(string, Json)>)

  /** `stringify` is `JSON.stringify`; `parse` is `JSON.parse`, with `None`
      for the SyntaxError it throws. */
  datatype Codec = Codec(stringify: Json -> string, parse: string -> Option<Json>)

  /** 2 to the power `n`. */
  function Pow2(n: nat): (r: real)
    ensures r >= 1.0
  {
    if n == 0 then 1.0 else 2.0 * Pow2(n - 1)
  }

  /** `x` is `m * 2^e` for an integer `m` with |m| < 2^53. */
  predicate IsDoubleAt(x: real, e: int) {
    var m := if e >= 0 then x / Pow2(e) else x * Pow2(-e);
    m.Floor as real == m && -Pow2(53) < m < Pow2(53)
  }

  predicate IsDoubleFrom(x: real, e: int)
    decreases 972 - e
  {
    e <= 971 && (IsDoubleAt(x, e) || IsDoubleFrom(x, e + 1))
  }

  /** A finite IEEE 754 binary64 value, the only numbers JavaScript holds:
      `m * 2^e` with |m| < 2^53 and -1074 <= e <= 971. */
  predicate IsDouble(x: real) {
    IsDoubleFrom(x, -1074)
  }

  function DigitValue(c: char): nat {
    if '0' <= c <= '9' then c as int - '0' as int else 0
  }

  /** The decimal value of a string of digits. */
  function DigitsValue(s: string): nat {
    if s == [] then 0 else DigitsValue(s[..|s| - 1]) * 10 + DigitValue(s[|s| - 1])
  }

  /** An array index (section 6.1.7 of ECMA-262): the canonical decimal text
      of an integer below 2^32 - 1. */
  predicate IsArrayIndex(name: string) {
    && |name| > 0
    && (forall i :: 0 <= i < |name| ==> '0' <= name[i] <= '9')
    && (name[0] != '0' || |name| == 1)
    && DigitsValue(name) < 0xFFFF_FFFF
  }

  /** The member order a JavaScript object can have (OrdinaryOwnPropertyKeys,
      section 10.1.11.1 of ECMA-262): names distinct, array indices first and
      ascending, then the other names. */
  predicate MembersInOrder(members: seq<(string, Json)>) {
    && (forall i, k :: 0 <= i < k < |members| ==> members[i].0 != members[k].0)
    && (forall i, k :: 0 <= i < k < |members| && IsArrayIndex(members[k].0) ==>
          IsArrayIndex(members[i].0) && DigitsValue(members[i].0) < DigitsValue(members[k].0))
  }

  /** A `Json` that stands for a value a JavaScript program can hold: every
      number a finite double and every object's members as an object holds
      them. */
  predicate Canonical(j: Json) {
    match j
    case Number(n) => IsDouble(n)
    case Array(items) => forall i :: 0 <= i < |items| ==> Canonical(items[i])
    case Object(members) =>
      MembersInOrder(members) && forall i :: 0 <= i < |members| ==> Canonical(members[i].1)
    case _ => true
  }

  const ByteOrderMark: char := '\U{FEFF}'

  /** Parsing reads back every value a program can hold from what
      stringifying wrote; stringifying writes a non-empty text that does not
      start with a byte order mark (it starts with `n`, `t`, `f`, `"`, `-`, a
      digit, `[` or `{`), and an object's text starts with `{`, an array's
      with `[` and a string's with `"`; the empty text is not JSON, nor is a
      text starting with `%`, which is neither JSON whitespace nor the start
      of a value; `null` is written `null`. */
  ghost predicate Lawful(codec: Codec) {
    && (forall j :: Canonical(j) ==> codec.parse(codec.stringify(j)) == Some(j))
    && (forall j :: codec.stringify(j) != [] && codec.stringify(j)[0] != ByteOrderMark)
    && (forall j: Json :: j.Object? ==> codec.stringify(j)[0] == '{')
    && (forall j: Json :: j.Array? ==> codec.stringify(j)[0] == '[')
    && (forall j: Json :: j.Str? ==> codec.stringify(j)[0] == '"')
    && codec.parse("") == None
    && (forall t :: |t| > 0 && t[0] == '%' ==> codec.parse(t) == None)
    && codec.stringify(Null) == "null"
  }

  /** `Body.json()`: the body bytes are decoded by UTF-8 decode (Encoding
      Standard), which drops one leading byte order mark, and then parsed. */
  function ParseBody(codec: Codec, text: string): Option<Json> {
    codec.parse(if |text| > 0 && text[0] == ByteOrderMark then text[1..] else text)
  }

  /** A body is parsed as its text after one leading byte order mark, if
      any; the empty body does not parse; a stringified value reads back,
      with or without a byte order mark in front. */
  lemma ParseBodyCases(codec: Codec, text: string)
    requires Lawful(codec)
    ensures |text| > 0 && text[0] == ByteOrderMark ==> ParseBody(codec, text) == codec.parse(text[1..])
    ensures (|text| == 0 || text[0] != ByteOrderMark) ==> ParseBody(codec, text) == codec.parse(text)
    ensures text == "" ==> ParseBody(codec, text).None?
    ensures text == [ByteOrderMark] ==> ParseBody(codec, text).None?
  {
    if text == [ByteOrderMark] {
      assert text[1..] == "";
    }
  }

  /** What `JSON.stringify` wrote reads back through `Body.json()`, also
      after a byte order mark. */
  lemma ParseBodyRoundTrip(codec: Codec, j: Json)
    requires Lawful(codec)
    requires Canonical(j)
    ensures ParseBody(codec, codec.stringify(j)) == Some(j)
    ensures ParseBody(codec, [ByteOrderMark] + codec.stringify(j)) == Some(j)
  {
    assert ([ByteOrderMark] + codec.stringify(j))[1..] == codec.stringify(j);
  }

  /** `null`, booleans and strings are always values a program can hold. */
  lemma CanonicalScalars(b: bool, s: string)
    ensures Canonical(Null) && Canonical(Bool(b)) && Canonical(Str(s))
    ensures Canonical(Array([])) && Canonical(Object([]))
  {
  }

  /** A repeated member name is not something an object can hold. */
  lemma RepeatedNameNotCanonical(name: string, a: Json, b: Json)
    ensures !Canonical(Object([(name, a), (name, b)]))
  {
    var members := [(name, a), (name, b)];
    assert members[0].0 == members[1].0;
  }

  /** Nor is an array index after an ordinary name: an object lists its
      array indices first. */
  lemma IndexAfterNameNotCanonical(a: Json, b: Json)
    ensures !Canonical(Object([("b", a), ("1", b)]))
  {
    var members := [("b", a), ("1", b)];
    assert DigitsValue("1") == 1 by {
      assert "1"[..0] == "";
    }
    assert IsArrayIndex(members[1].0);
    assert !IsArrayIndex(members[0].0);
  }
}
