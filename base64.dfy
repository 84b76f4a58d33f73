/** The base 64 encoding of section 4 of RFC 4648, as `btoa` produces it for a
    string whose character codes are the bytes (`String.fromCharCode(...bytes)`).
    `Decode` is its reference inverse; it is not used by the middleware. */
module Base64 {
  import opened Wrappers
  import opened Utf8

  /** The character of the base 64 alphabet (Table 1 of RFC 4648) for a
      six-bit value. */
  function Sextet(n: int): (c: char)
    requires 0 <= n < 64
  {
    if n < 26 then ('A' as int + n) as char
    else if n < 52 then ('a' as int + (n - 26)) as char
    else if n < 62 then ('0' as int + (n - 52)) as char
    else if n == 62 then '+'
    else '/'
  }

  /** The six-bit value of an alphabet character, or `None` for any other
      character (the pad `=` included). */
  function SextetValue(c: char): (r: Option<int>)
    ensures r.Some? ==> 0 <= r.value < 64
  {
    if 'A' <= c <= 'Z' then Some(c as int - 'A' as int)
    else if 'a' <= c <= 'z' then Some(c as int - 'a' as int + 26)
    else if '0' <= c <= '9' then Some(c as int - '0' as int + 52)
    else if c == '+' then Some(62)
    else if c == '/' then Some(63)
    else None
  }

  const Pad: char := '='

  predicate IsAlphabet(c: char) {
    'A' <= c <= 'Z' || 'a' <= c <= 'z' || '0' <= c <= '9' || c == '+' || c == '/'
  }

  lemma SextetRoundTrip(n: int)
    requires 0 <= n < 64
    ensures IsAlphabet(Sextet(n)) && SextetValue(Sextet(n)) == Some(n)
  {
  }

  /** Four characters for three bytes. */
  function Group3(b0: byte, b1: byte, b2: byte): string {
    [Sextet(b0 / 4), Sextet(b0 % 4 * 16 + b1 / 16), Sextet(b1 % 16 * 4 + b2 / 64), Sextet(b2 % 64)]
  }

  /** Four characters for the last two bytes: one pad character. */
  function Group2(b0: byte, b1: byte): string {
    [Sextet(b0 / 4), Sextet(b0 % 4 * 16 + b1 / 16), Sextet(b1 % 16 * 4), Pad]
  }

  /** Four characters for the last single byte: two pad characters. */
  function Group1(b0: byte): string {
    [Sextet(b0 / 4), Sextet(b0 % 4 * 16), Pad, Pad]
  }

  function Encode(b: seq<byte>): string
    decreases |b|
  {
    if |b| == 0 then ""
    else if |b| == 1 then Group1(b[0])
    else if |b| == 2 then Group2(b[0], b[1])
    else Group3(b[0], b[1], b[2]) + Encode(b[3..])
  }

  /** Decodes one group of four characters; `None` when a character is
      outside the alphabet or padding is misplaced. */
  function DecodeGroup(g: string): (r: Option<seq<byte>>)
    requires |g| == 4
  {
    var v0, v1, v2, v3 := SextetValue(g[0]), SextetValue(g[1]), SextetValue(g[2]), SextetValue(g[3]);
    if v0.None? || v1.None? then None
    else if g[2] == Pad && g[3] == Pad then
      Some([v0.value * 4 + v1.value / 16])
    else if v2.None? then None
    else if g[3] == Pad then
      Some([v0.value * 4 + v1.value / 16, v1.value % 16 * 16 + v2.value / 4])
    else if v3.None? then None
    else
      Some([v0.value * 4 + v1.value / 16, v1.value % 16 * 16 + v2.value / 4, v2.value % 4 * 64 + v3.value])
  }

  function Decode(s: string): (r: Option<seq<byte>>)
    decreases |s|
  {
    if |s| == 0 then Some([])
    else if |s| < 4 then None
    else match DecodeGroup(s[..4])
      case None => None
      case Some(g) =>
        if |s| > 4 && |g| < 3 then None
        else match Decode(s[4..])
          case None => None
          case Some(rest) => Some(g + rest)
  }

  lemma Recombine(hi: int, lo: int, k: int)
    requires k == 4 || k == 16 || k == 64
    requires 0 <= lo < k
    ensures (hi * k + lo) / k == hi && (hi * k + lo) % k == lo
  {
  }

  lemma DecodeGroup3(b0: byte, b1: byte, b2: byte)
    ensures DecodeGroup(Group3(b0, b1, b2)) == Some([b0, b1, b2])
  {
    Recombine(b0 % 4, b1 / 16, 16);
    Recombine(b1 % 16, b2 / 64, 4);
    assert b0 / 4 * 4 + b0 % 4 == b0;
    assert b1 / 16 * 16 + b1 % 16 == b1;
    assert b2 / 64 * 64 + b2 % 64 == b2;
    SextetRoundTrip(b0 / 4);
    SextetRoundTrip(b0 % 4 * 16 + b1 / 16);
    SextetRoundTrip(b1 % 16 * 4 + b2 / 64);
    SextetRoundTrip(b2 % 64);
  }

  lemma DecodeGroup2(b0: byte, b1: byte)
    ensures DecodeGroup(Group2(b0, b1)) == Some([b0, b1])
  {
    Recombine(b0 % 4, b1 / 16, 16);
    Recombine(b1 % 16, 0, 4);
    SextetRoundTrip(b0 / 4);
    SextetRoundTrip(b0 % 4 * 16 + b1 / 16);
    SextetRoundTrip(b1 % 16 * 4);
  }

  lemma DecodeGroup1(b0: byte)
    ensures DecodeGroup(Group1(b0)) == Some([b0])
  {
    Recombine(b0 % 4, 0, 16);
    SextetRoundTrip(b0 / 4);
    SextetRoundTrip(b0 % 4 * 16);
  }

  /** The output has 4 * ceil(n / 3) characters for n input bytes. */
  lemma {:induction false} EncodeLength(b: seq<byte>)
    ensures |Encode(b)| == 4 * ((|b| + 2) / 3)
  {
    if |b| >= 3 {
      EncodeLength(b[3..]);
    }
  }

  /** Every output character is an alphabet character or the pad. */
  lemma {:induction false} EncodeAlphabet(b: seq<byte>)
    ensures forall i :: 0 <= i < |Encode(b)| ==> IsAlphabet(Encode(b)[i]) || Encode(b)[i] == Pad
  {
    if |b| == 1 {
      SextetRoundTrip(b[0] / 4);
      SextetRoundTrip(b[0] % 4 * 16);
    } else if |b| == 2 {
      SextetRoundTrip(b[0] / 4);
      SextetRoundTrip(b[0] % 4 * 16 + b[1] / 16);
      SextetRoundTrip(b[1] % 16 * 4);
    } else if |b| >= 3 {
      DecodeGroup3(b[0], b[1], b[2]);
      SextetRoundTrip(b[0] / 4);
      SextetRoundTrip(b[0] % 4 * 16 + b[1] / 16);
      SextetRoundTrip(b[1] % 16 * 4 + b[2] / 64);
      SextetRoundTrip(b[2] % 64);
      EncodeAlphabet(b[3..]);
      var g, rest := Group3(b[0], b[1], b[2]), Encode(b[3..]);
      forall i | 0 <= i < |g + rest| ensures IsAlphabet((g + rest)[i]) || (g + rest)[i] == Pad {
        if i >= 4 {
          assert (g + rest)[i] == rest[i - 4];
        }
      }
    }
  }

  /** The output never contains a double quote, so it can stand between the
      quotes of an entity tag. */
  lemma EncodeHasNoQuote(b: seq<byte>)
    ensures '"' !in Encode(b)
  {
    EncodeAlphabet(b);
  }

  /** Decoding inverts encoding. */
  lemma {:induction false} DecodeEncode(b: seq<byte>)
    ensures Decode(Encode(b)) == Some(b)
  {
    if |b| == 1 {
      var g := Group1(b[0]);
      DecodeGroup1(b[0]);
      assert Encode(b) == g;
      assert g[..4] == g && DecodeGroup(g[..4]) == Some([b[0]]);
      assert Decode(g[4..]) == Some([]);
      assert Decode(g) == Some([b[0]] + []);
      assert [b[0]] + [] == b;
    } else if |b| == 2 {
      var g := Group2(b[0], b[1]);
      DecodeGroup2(b[0], b[1]);
      assert Encode(b) == g;
      assert g[..4] == g && DecodeGroup(g[..4]) == Some([b[0], b[1]]);
      assert Decode(g[4..]) == Some([]);
      assert Decode(g) == Some([b[0], b[1]] + []);
      assert [b[0], b[1]] + [] == b;
    } else if |b| >= 3 {
      var g, rest := Group3(b[0], b[1], b[2]), Encode(b[3..]);
      DecodeGroup3(b[0], b[1], b[2]);
      assert (g + rest)[..4] == g;
      assert (g + rest)[4..] == rest;
      DecodeEncode(b[3..]);
      assert [b[0], b[1], b[2]] + b[3..] == b;
    }
  }

  /** Distinct byte sequences have distinct encodings. */
  lemma EncodeInjective(a: seq<byte>, b: seq<byte>)
    ensures Encode(a) == Encode(b) ==> a == b
  {
    DecodeEncode(a);
    DecodeEncode(b);
  }
}
