/** The two percent-encoders the client chains and the decoder the server
    applies:
    - `EncodeUriComponent`: `encodeURIComponent` of ECMA-262 (section 19.2.6.5,
      the abstract operation Encode with the unreserved set of uriAlpha,
      DecimalDigit and uriMark);
    - `FormEncode` and `Serialize`: the application/x-www-form-urlencoded
      serializer of section 5.2 of the WHATWG URL Standard
      (`URLSearchParams.prototype.toString`);
    - `FormDecode`, `Parse` and `Get`: the application/x-www-form-urlencoded
      parser of the same section (`URLSearchParams.prototype.get`);
    - `QueryOf`: the query component of a URL, as `new URL(url).searchParams`
      sees it. */
module UrlEncoding {
  import opened Wrappers
  import opened Utf8

  predicate IsAsciiAlpha(c: char) {
    'A' <= c <= 'Z' || 'a' <= c <= 'z'
  }

  predicate IsAsciiDigit(c: char) {
    '0' <= c <= '9'
  }

  predicate IsAsciiAlphanumeric(c: char) {
    IsAsciiAlpha(c) || IsAsciiDigit(c)
  }

  predicate IsUpperHex(c: char) {
    '0' <= c <= '9' || 'A' <= c <= 'F'
  }

  /** Upper-case hexadecimal digit, as both encoders emit them. */
  function HexDigit(n: int): (c: char)
    requires 0 <= n < 16
    ensures IsUpperHex(c)
  {
    if n < 10 then ('0' as int + n) as char else ('A' as int + (n - 10)) as char
  }

  /** The value of an ASCII hexadecimal digit of either case, given as a byte. */
  function HexValue(b: byte): (r: Option<int>)
    ensures r.Some? ==> 0 <= r.value < 16
  {
    if 0x30 <= b <= 0x39 then Some(b - 0x30)
    else if 0x41 <= b <= 0x46 then Some(b - 0x41 + 10)
    else if 0x61 <= b <= 0x66 then Some(b - 0x61 + 10)
    else None
  }

  lemma HexValueOfDigit(n: int)
    requires 0 <= n < 16
    ensures HexDigit(n) as int < 0x80 && HexValue(HexDigit(n) as int) == Some(n)
  {
  }

  /** `%` followed by two upper-case hex digits. */
  function PercentEncodeByte(b: byte): (r: string)
    ensures |r| == 3 && r[0] == '%' && IsUpperHex(r[1]) && IsUpperHex(r[2])
  {
    ['%', HexDigit(b / 16), HexDigit(b % 16)]
  }

  function PercentEncodeBytes(bs: seq<byte>): string {
    if bs == [] then "" else PercentEncodeByte(bs[0]) + PercentEncodeBytes(bs[1..])
  }

  // ---------------------------------------------------------------------
  // encodeURIComponent (ECMA-262)

  /** Characters that `encodeURIComponent` leaves as they are. */
  predicate IsUriUnreserved(c: char) {
    IsAsciiAlphanumeric(c) || c in "-_.!~*'()"
  }

  /** A string whose first character is escaped is encoded from a `%` on. */
  lemma EscapedFirst(s: string)
    requires |s| > 0 && !IsUriUnreserved(s[0])
    ensures |EncodeUriComponent(s)| > 0 && EncodeUriComponent(s)[0] == '%'
  {
    var head := PercentEncodeBytes(EncodeChar(s[0]));
    assert head == PercentEncodeByte(EncodeChar(s[0])[0]) + PercentEncodeBytes(EncodeChar(s[0])[1..]);
    assert EncodeUriComponent(s) == head + EncodeUriComponent(s[1..]);
  }

  /** Dafny characters are Unicode scalar values, so the URIError that a lone
      surrogate raises cannot arise. */
  function EncodeUriComponent(s: string): string {
    if s == [] then ""
    else
      (if IsUriUnreserved(s[0]) then [s[0]] else PercentEncodeBytes(EncodeChar(s[0])))
      + EncodeUriComponent(s[1..])
  }

  lemma {:induction false} PercentEncodeBytesShape(bs: seq<byte>)
    ensures |PercentEncodeBytes(bs)| == 3 * |bs|
    ensures forall i :: 0 <= i < |PercentEncodeBytes(bs)| ==>
      IsAsciiAlphanumeric(PercentEncodeBytes(bs)[i]) || PercentEncodeBytes(bs)[i] == '%'
  {
    if bs != [] {
      PercentEncodeBytesShape(bs[1..]);
      var p, rest := PercentEncodeByte(bs[0]), PercentEncodeBytes(bs[1..]);
      forall i | 0 <= i < |p + rest| ensures IsAsciiAlphanumeric((p + rest)[i]) || (p + rest)[i] == '%' {
        if i >= 3 {
          assert (p + rest)[i] == rest[i - 3];
        }
      }
    }
  }

  /** Every character `encodeURIComponent` emits is unreserved or the `%` of
      an escape; in particular the output is ASCII and holds no space. */
  lemma {:induction false} EncodeUriComponentChars(s: string)
    ensures forall i :: 0 <= i < |EncodeUriComponent(s)| ==>
      IsUriUnreserved(EncodeUriComponent(s)[i]) || EncodeUriComponent(s)[i] == '%'
  {
    if s != [] {
      var head := if IsUriUnreserved(s[0]) then [s[0]] else PercentEncodeBytes(EncodeChar(s[0]));
      var rest := EncodeUriComponent(s[1..]);
      PercentEncodeBytesShape(EncodeChar(s[0]));
      EncodeUriComponentChars(s[1..]);
      forall i | 0 <= i < |head + rest| ensures IsUriUnreserved((head + rest)[i]) || (head + rest)[i] == '%' {
        if i >= |head| {
          assert (head + rest)[i] == rest[i - |head|];
        } else {
          assert (head + rest)[i] == head[i];
        }
      }
    }
  }

  /** The output is at least as long as the input, and at least two
      characters longer as soon as one input character is escaped. */
  lemma {:induction false} EncodeUriComponentLength(s: string)
    ensures |EncodeUriComponent(s)| >= |s|
    ensures (exists i :: 0 <= i < |s| && !IsUriUnreserved(s[i])) ==> |EncodeUriComponent(s)| >= |s| + 2
  {
    if s != [] {
      EncodeUriComponentLength(s[1..]);
      PercentEncodeBytesShape(EncodeChar(s[0]));
      if exists i :: 0 <= i < |s| && !IsUriUnreserved(s[i]) {
        var i :| 0 <= i < |s| && !IsUriUnreserved(s[i]);
        if i > 0 {
          assert !IsUriUnreserved(s[1..][i - 1]);
        }
      }
    }
  }

  /** `encodeURIComponent` leaves a string unchanged exactly when every one of
      its characters is unreserved. */
  lemma {:induction false} EncodeUriComponentIdentity(s: string)
    ensures EncodeUriComponent(s) == s <==> forall i :: 0 <= i < |s| ==> IsUriUnreserved(s[i])
  {
    if forall i :: 0 <= i < |s| ==> IsUriUnreserved(s[i]) {
      EncodeUriComponentUnreserved(s);
    } else {
      EncodeUriComponentLength(s);
    }
  }

  lemma {:induction false} EncodeUriComponentUnreserved(s: string)
    requires forall i :: 0 <= i < |s| ==> IsUriUnreserved(s[i])
    ensures EncodeUriComponent(s) == s
  {
    if s != [] {
      assert forall i :: 0 <= i < |s[1..]| ==> IsUriUnreserved(s[1..][i]) by {
        forall i | 0 <= i < |s[1..]| ensures IsUriUnreserved(s[1..][i]) {
          assert s[1..][i] == s[i + 1];
        }
      }
      EncodeUriComponentUnreserved(s[1..]);
      assert [s[0]] + s[1..] == s;
    }
  }

  // ---------------------------------------------------------------------
  // application/x-www-form-urlencoded serializer (WHATWG URL)

  /** Bytes outside the application/x-www-form-urlencoded percent-encode set:
      ASCII alphanumerics and `*`, `-`, `.`, `_`. */
  predicate IsFormUnencoded(b: byte) {
    (0x30 <= b <= 0x39) || (0x41 <= b <= 0x5A) || (0x61 <= b <= 0x7A) || b in {0x2A, 0x2D, 0x2E, 0x5F}
  }

  predicate IsFormSafe(c: char) {
    IsAsciiAlphanumeric(c) || c in "*-._"
  }

  /** One byte of the UTF-8 encoding: the space becomes `+` (space-as-plus is
      set for this serializer), an unencoded byte stays, any other byte is
      percent-encoded. */
  function FormEncodeByte(b: byte): (r: string) {
    if b == 0x20 then "+"
    else if IsFormUnencoded(b) then [b as char]
    else PercentEncodeByte(b)
  }

  function FormEncodeBytes(bs: seq<byte>): string {
    if bs == [] then "" else FormEncodeByte(bs[0]) + FormEncodeBytes(bs[1..])
  }

  /** Percent-encode after encoding with UTF-8. */
  function FormEncode(s: string): string {
    FormEncodeBytes(Encode(s))
  }

  function SerializePair(p: (string, string)): string {
    FormEncode(p.0) + "=" + FormEncode(p.1)
  }

  /** The pairs serialized in order and joined with `&`. */
  function Serialize(pairs: seq<(string, string)>): string {
    if pairs == [] then ""
    else if |pairs| == 1 then SerializePair(pairs[0])
    else SerializePair(pairs[0]) + "&" + Serialize(pairs[1..])
  }

  /** A string made of form-safe characters and escapes `%XX` with two
      upper-case hexadecimal digits, and of nothing else. */
  predicate Escaped(s: string)
    decreases |s|
  {
    || s == []
    || (IsFormSafe(s[0]) && Escaped(s[1..]))
    || (|s| >= 3 && s[0] == '%' && IsUpperHex(s[1]) && IsUpperHex(s[2]) && Escaped(s[3..]))
  }

  lemma {:induction false} EscapedChars(s: string)
    requires Escaped(s)
    ensures forall i :: 0 <= i < |s| ==> IsFormSafe(s[i]) || s[i] == '%'
  {
    if s != [] {
      if IsFormSafe(s[0]) && Escaped(s[1..]) {
        EscapedChars(s[1..]);
        assert forall i :: 1 <= i < |s| ==> s[i] == s[1..][i - 1];
      } else {
        EscapedChars(s[3..]);
        assert forall i :: 3 <= i < |s| ==> s[i] == s[3..][i - 3];
      }
    }
  }

  lemma {:induction false} FormEncodeBytesAppend(a: seq<byte>, b: seq<byte>)
    ensures FormEncodeBytes(a + b) == FormEncodeBytes(a) + FormEncodeBytes(b)
  {
    if a == [] {
      assert a + b == b;
    } else {
      assert (a + b)[0] == a[0] && (a + b)[1..] == a[1..] + b;
      FormEncodeBytesAppend(a[1..], b);
    }
  }

  /** With no space among the bytes the serializer's output is `Escaped`. */
  lemma {:induction false} FormEncodeBytesEscaped(bs: seq<byte>)
    requires 0x20 !in bs
    ensures Escaped(FormEncodeBytes(bs))
  {
    if bs != [] {
      var head, rest := FormEncodeByte(bs[0]), FormEncodeBytes(bs[1..]);
      assert 0x20 !in bs[1..];
      FormEncodeBytesEscaped(bs[1..]);
      var s := head + rest;
      if IsFormUnencoded(bs[0]) {
        assert s[0] == bs[0] as char && s[1..] == rest;
      } else {
        assert s[0] == '%' && s[1] == head[1] && s[2] == head[2] && s[3..] == rest;
      }
    }
  }

  /** Form-safe text passes through the serializer unchanged. */
  lemma {:induction false} FormEncodeSafe(s: string)
    requires forall i :: 0 <= i < |s| ==> IsFormSafe(s[i])
    ensures FormEncode(s) == s
  {
    if s != [] {
      assert forall i :: 0 <= i < |s[1..]| ==> IsFormSafe(s[1..][i]) by {
        forall i | 0 <= i < |s[1..]| ensures IsFormSafe(s[1..][i]) {
          assert s[1..][i] == s[i + 1];
        }
      }
      FormEncodeSafe(s[1..]);
      FormEncodeBytesAppend(EncodeChar(s[0]), Encode(s[1..]));
      assert EncodeChar(s[0]) == [s[0] as int];
      assert [s[0]] + s[1..] == s;
    }
  }

  /** Every character the serializer writes is form-safe, `%` or `+`: none is
      a `&`, `=`, `#` or `?`. */
  lemma {:induction false} FormEncodeBytesChars(bs: seq<byte>)
    ensures forall i :: 0 <= i < |FormEncodeBytes(bs)| ==>
      IsFormSafe(FormEncodeBytes(bs)[i]) || FormEncodeBytes(bs)[i] == '%' || FormEncodeBytes(bs)[i] == '+'
  {
    if bs != [] {
      var head, rest := FormEncodeByte(bs[0]), FormEncodeBytes(bs[1..]);
      FormEncodeBytesChars(bs[1..]);
      forall i | 0 <= i < |head + rest|
        ensures IsFormSafe((head + rest)[i]) || (head + rest)[i] == '%' || (head + rest)[i] == '+'
      {
        if i >= |head| {
          assert (head + rest)[i] == rest[i - |head|];
        } else {
          assert (head + rest)[i] == head[i];
        }
      }
    }
  }

  /** The characters of `FormEncode(s)`. */
  lemma FormEncodeChars(s: string)
    ensures forall i :: 0 <= i < |FormEncode(s)| ==>
      IsFormSafe(FormEncode(s)[i]) || FormEncode(s)[i] == '%' || FormEncode(s)[i] == '+'
  {
    FormEncodeBytesChars(Encode(s));
  }

  // ---------------------------------------------------------------------
  // application/x-www-form-urlencoded parser (WHATWG URL)

  function PlusToSpace(bs: seq<byte>): (r: seq<byte>)
    ensures |r| == |bs|
    ensures forall i :: 0 <= i < |bs| ==> r[i] == if bs[i] == 0x2B then 0x20 else bs[i]
  {
    if bs == [] then [] else [if bs[0] == 0x2B then 0x20 else bs[0]] + PlusToSpace(bs[1..])
  }

  /** Percent-decode: `%` and two hexadecimal digits of either case give one
      byte; every other byte, a lone `%` included, is kept. */
  function PercentDecode(bs: seq<byte>): seq<byte>
    decreases |bs|
  {
    if bs == [] then []
    else if bs[0] == 0x25 && |bs| >= 3 && HexValue(bs[1]).Some? && HexValue(bs[2]).Some? then
      [HexValue(bs[1]).value * 16 + HexValue(bs[2]).value] + PercentDecode(bs[3..])
    else
      [bs[0]] + PercentDecode(bs[1..])
  }

  /** The decoding the parser applies to a name or a value. */
  function FormDecode(s: string): string {
    Decode(PercentDecode(PlusToSpace(Encode(s))))
  }

  lemma {:induction false} EncodeFormEncodeBytes(bs: seq<byte>)
    ensures IsAscii(FormEncodeBytes(bs))
  {
    if bs != [] {
      EncodeFormEncodeBytes(bs[1..]);
      var head, rest := FormEncodeByte(bs[0]), FormEncodeBytes(bs[1..]);
      forall i | 0 <= i < |head + rest| ensures (head + rest)[i] as int < 0x80 {
        if i >= |head| {
          assert (head + rest)[i] == rest[i - |head|];
        }
      }
    }
  }

  lemma PlusToSpaceAppend(a: seq<byte>, b: seq<byte>)
    ensures PlusToSpace(a + b) == PlusToSpace(a) + PlusToSpace(b)
  {
  }

  /** The bytes of one serialized byte decode back to it, whatever follows. */
  lemma PercentDecodeFormEncodeByte(b: byte, tail: seq<byte>)
    ensures PercentDecode(PlusToSpace(Encode(FormEncodeByte(b))) + tail) == [b] + PercentDecode(tail)
  {
    var head := FormEncodeByte(b);
    var p := PlusToSpace(Encode(head)) + tail;
    if b == 0x20 {
      assert Encode(head) == [0x2B];
      assert p[0] == 0x20 && p[1..] == tail;
    } else if IsFormUnencoded(b) {
      assert Encode(head) == [b];
      assert p[0] == b && p[1..] == tail;
    } else {
      var hi, lo := b / 16, b % 16;
      HexValueOfDigit(hi);
      HexValueOfDigit(lo);
      EncodeAscii(head);
      assert Encode(head) == [0x25, HexDigit(hi) as int, HexDigit(lo) as int];
      assert p[0] == 0x25 && p[1] == HexDigit(hi) as int && p[2] == HexDigit(lo) as int;
      assert p[3..] == tail;
    }
  }

  /** Percent-decoding after plus-to-space inverts the serializer, byte for
      byte. */
  lemma {:induction false} PercentDecodeFormEncode(bs: seq<byte>)
    ensures PercentDecode(PlusToSpace(Encode(FormEncodeBytes(bs)))) == bs
  {
    if bs != [] {
      var head, rest := FormEncodeByte(bs[0]), FormEncodeBytes(bs[1..]);
      EncodeAppend(head, rest);
      PlusToSpaceAppend(Encode(head), Encode(rest));
      PercentDecodeFormEncodeByte(bs[0], PlusToSpace(Encode(rest)));
      PercentDecodeFormEncode(bs[1..]);
      assert [bs[0]] + bs[1..] == bs;
    }
  }

  /** Form-decoding inverts form-encoding. */
  lemma FormDecodeEncode(s: string)
    ensures FormDecode(FormEncode(s)) == s
  {
    PercentDecodeFormEncode(Encode(s));
    DecodeEncode(s);
  }

  /** The first index of `c` in `s`. */
  function IndexOf(s: string, c: char): (r: Option<nat>)
    ensures r.None? <==> c !in s
    ensures r.Some? ==> r.value < |s| && s[r.value] == c && c !in s[..r.value]
  {
    if s == [] then None
    else if s[0] == c then Some(0)
    else match IndexOf(s[1..], c)
      case None => None
      case Some(i) =>
        assert s[..i + 1] == [s[0]] + s[1..][..i];
        Some(i + 1)
  }

  /** Strictly splitting on `sep`. */
  function SplitOn(s: string, sep: char): (r: seq<string>)
    decreases |s|
  {
    match IndexOf(s, sep)
    case None => [s]
    case Some(i) => [s[..i]] + SplitOn(s[i + 1..], sep)
  }

  /** One non-empty sequence: the name before the first `=`, the value after
      it, or the whole sequence and an empty value when there is no `=`. */
  function ParsePair(bytes: string): (string, string) {
    match IndexOf(bytes, '=')
    case None => (FormDecode(bytes), "")
    case Some(i) => (FormDecode(bytes[..i]), FormDecode(bytes[i + 1..]))
  }

  function ParseSequences(sequences: seq<string>): seq<(string, string)> {
    if sequences == [] then []
    else if sequences[0] == "" then ParseSequences(sequences[1..])
    else [ParsePair(sequences[0])] + ParseSequences(sequences[1..])
  }

  function Parse(query: string): seq<(string, string)> {
    ParseSequences(SplitOn(query, '&'))
  }

  /** The value of the first pair with the given name, `None` standing for
      the `null` that `URLSearchParams.prototype.get` returns. */
  function Get(pairs: seq<(string, string)>, name: string): (r: Option<string>)
    ensures r.Some? <==> exists i :: 0 <= i < |pairs| && pairs[i].0 == name
    ensures r.Some? ==> exists i :: 0 <= i < |pairs| && pairs[i].0 == name && r.value == pairs[i].1 &&
                                    (forall k :: 0 <= k < i ==> pairs[k].0 != name)
  {
    if pairs == [] then None
    else if pairs[0].0 == name then Some(pairs[0].1)
    else
      var r := Get(pairs[1..], name);
      assert forall i :: 1 <= i < |pairs| ==> pairs[i] == pairs[1..][i - 1];
      r
  }

  /** The query of a URL: what follows the first `?` before the fragment,
      `None` when there is no `?`. */
  function QueryOf(url: string): Option<string> {
    var beforeFragment := match IndexOf(url, '#') case None => url case Some(i) => url[..i];
    match IndexOf(beforeFragment, '?')
    case None => None
    case Some(i) => Some(beforeFragment[i + 1..])
  }

  /** The value of a search parameter of a URL. */
  function SearchParam(url: string, name: string): Option<string> {
    match QueryOf(url)
    case None => None
    case Some(query) => Get(Parse(query), name)
  }

  /** The query of `path?query`, for a path without `?` or `#` and a query
      without `#`. */
  lemma QueryOfJoined(path: string, query: string)
    requires '?' !in path && '#' !in path && '#' !in query
    ensures QueryOf(path + "?" + query) == Some(query)
  {
    var url := path + "?" + query;
    assert '#' !in url by {
      forall i | 0 <= i < |url| ensures url[i] != '#' {
        if i < |path| {
          assert url[i] == path[i];
        } else if i > |path| {
          assert url[i] == query[i - |path| - 1];
        }
      }
    }
    assert url[..|path|] == path && url[|path|] == '?';
    assert IndexOf(url, '?') == Some(|path|);
    assert url[|path| + 1..] == query;
  }

  /** A query of one `name=value` sequence, the name without `=`, parses to
      that one pair, decoded. */
  lemma ParseSinglePair(n: string, v: string)
    requires '=' !in n && '&' !in n && '&' !in v
    ensures Parse(n + "=" + v) == [(FormDecode(n), FormDecode(v))]
  {
    var q := n + "=" + v;
    assert '&' !in q by {
      forall i | 0 <= i < |q| ensures q[i] != '&' {
        if i < |n| {
          assert q[i] == n[i];
        } else if i > |n| {
          assert q[i] == v[i - |n| - 1];
        }
      }
    }
    assert SplitOn(q, '&') == [q];
    assert q[..|n|] == n && q[|n|] == '=';
    assert IndexOf(q, '=') == Some(|n|);
    assert q[|n| + 1..] == v;
    assert ParsePair(q) == (FormDecode(n), FormDecode(v));
    var none: seq<string> := [];
    assert q != "" && [q][1..] == none;
    assert ParseSequences([q]) == [ParsePair(q)] + ParseSequences([]);
  }

  /** A URL made of a path without `?` or `#` and the serialization of one
      name/value pair: the parser finds that value under that name. */
  lemma SearchParamSerialized(path: string, name: string, value: string)
    requires '?' !in path && '#' !in path
    ensures SearchParam(path + "?" + Serialize([(name, value)]), name) == Some(value)
  {
    var n, v := FormEncode(name), FormEncode(value);
    var q := n + "=" + v;
    assert Serialize([(name, value)]) == q;
    FormEncodeChars(name);
    FormEncodeChars(value);
    assert '=' !in n && '&' !in n && '#' !in n;
    assert '&' !in v && '#' !in v;
    assert '#' !in q by {
      forall i | 0 <= i < |q| ensures q[i] != '#' {
        if i < |n| {
          assert q[i] == n[i];
        } else if i > |n| {
          assert q[i] == v[i - |n| - 1];
        }
      }
    }
    QueryOfJoined(path, q);
    ParseSinglePair(n, v);
    FormDecodeEncode(name);
    FormDecodeEncode(value);
  }
}
