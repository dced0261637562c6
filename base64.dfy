/**
 * Base64 with the standard alphabet of section 4 of RFC 4648, as the
 * decoder configured by `general_purpose::STANDARD` applies it: the input
 * is a whole number of 4-character groups, '=' padding appears only in the
 * last group and is required there, and the pad bits of a padded group
 * are zero (the canonical encoding of section 3.5 of RFC 4648).
 */
module Base64 {
  import opened Wrappers

  /** A 6-bit value: one character of the encoding. */
  type Sextet = x: int | 0 <= x < 64

  /** The character of the alphabet (Table 1 of RFC 4648) that stands for `v`. */
  function CharOf(v: Sextet): (c: char)
  {
    if v < 26 then ('A' as int + v) as char
    else if v < 52 then ('a' as int + (v - 26)) as char
    else if v < 62 then ('0' as int + (v - 52)) as char
    else if v == 62 then '+'
    else '/'
  }

  /** The value of an alphabet character; `None` for anything else, '=' included. */
  function ValueOf(c: char): Option<Sextet>
  {
    if 'A' <= c <= 'Z' then Some(c as int - 'A' as int)
    else if 'a' <= c <= 'z' then Some(c as int - 'a' as int + 26)
    else if '0' <= c <= '9' then Some(c as int - '0' as int + 52)
    else if c == '+' then Some(62)
    else if c == '/' then Some(63)
    else None
  }

  lemma ValueOfCharOf(v: Sextet)
    ensures ValueOf(CharOf(v)) == Some(v)
  {
  }

  lemma CharOfValueOf(c: char)
    requires ValueOf(c).Some?
    ensures CharOf(ValueOf(c).value) == c
  {
  }

  /** The characters an encoding is made of. */
  predicate IsEncodingChar(c: char) {
    ValueOf(c).Some? || c == '='
  }

  /** Three bytes as four characters. */
  function EncodeGroup(b0: byte, b1: byte, b2: byte): string
  {
    [CharOf(b0 / 4), CharOf((b0 % 4) * 16 + b1 / 16), CharOf((b1 % 16) * 4 + b2 / 64), CharOf(b2 % 64)]
  }

  /** The padded encoding of `b` (section 4 of RFC 4648). */
  function Encode(b: seq<byte>): (s: string)
    ensures |s| == 4 * ((|b| + 2) / 3)
    decreases |b|
  {
    if |b| == 0 then ""
    else if |b| == 1 then EncodeLastOne(b[0])
    else if |b| == 2 then EncodeLastTwo(b[0], b[1])
    else EncodeGroup(b[0], b[1], b[2]) + Encode(b[3..])
  }

  /** A last single byte: two characters and two pad characters. */
  function EncodeLastOne(b0: byte): string {
    [CharOf(b0 / 4), CharOf((b0 % 4) * 16), '=', '=']
  }

  /** Two last bytes: three characters and one pad character. */
  function EncodeLastTwo(b0: byte, b1: byte): string {
    [CharOf(b0 / 4), CharOf((b0 % 4) * 16 + b1 / 16), CharOf((b1 % 16) * 4), '=']
  }

  /** An encoding is made of alphabet characters and '=' alone. */
  lemma {:induction false} EncodingAlphabet(b: seq<byte>)
    ensures forall i :: 0 <= i < |Encode(b)| ==> IsEncodingChar(Encode(b)[i])
    decreases |b|
  {
    var s := Encode(b);
    if |b| >= 3 {
      EncodingAlphabet(b[3..]);
      var g, e := EncodeGroup(b[0], b[1], b[2]), Encode(b[3..]);
      assert s == g + e;
      ValueOfCharOf(b[0] / 4);
      ValueOfCharOf((b[0] % 4) * 16 + b[1] / 16);
      ValueOfCharOf((b[1] % 16) * 4 + b[2] / 64);
      ValueOfCharOf(b[2] % 64);
      forall i | 0 <= i < |s| ensures IsEncodingChar(s[i]) {
        if i >= 4 {
          assert s[i] == e[i - 4];
        }
      }
    } else if |b| == 1 {
      ValueOfCharOf(b[0] / 4);
      ValueOfCharOf((b[0] % 4) * 16);
    } else if |b| == 2 {
      ValueOfCharOf(b[0] / 4);
      ValueOfCharOf((b[0] % 4) * 16 + b[1] / 16);
      ValueOfCharOf((b[1] % 16) * 4);
    }
  }

  /** Four alphabet characters as three bytes. */
  function DecodeGroup(s: string): Option<seq<byte>>
    requires |s| == 4
  {
    var a, b, c, d := ValueOf(s[0]), ValueOf(s[1]), ValueOf(s[2]), ValueOf(s[3]);
    if a.Some? && b.Some? && c.Some? && d.Some? then
      Some([a.value * 4 + b.value / 16, (b.value % 16) * 16 + c.value / 4, (c.value % 4) * 64 + d.value])
    else None
  }

  /** The last group, which may carry one or two pad characters. */
  function DecodeFinalGroup(s: string): Option<seq<byte>>
    requires |s| == 4
  {
    var a, b, c := ValueOf(s[0]), ValueOf(s[1]), ValueOf(s[2]);
    if s[2] == '=' && s[3] == '=' then
      if a.Some? && b.Some? && b.value % 16 == 0 then Some([a.value * 4 + b.value / 16]) else None
    else if s[3] == '=' then
      if a.Some? && b.Some? && c.Some? && c.value % 4 == 0 then
        Some([a.value * 4 + b.value / 16, (b.value % 16) * 16 + c.value / 4])
      else None
    else DecodeGroup(s)
  }

  /** `general_purpose::STANDARD.decode(s)`: `None` is the decode error. */
  function Decode(s: string): Option<seq<byte>>
    decreases |s|
  {
    if |s| == 0 then Some([])
    else if |s| < 4 then None
    else if |s| == 4 then DecodeFinalGroup(s)
    else match DecodeGroup(s[..4])
      case None => None
      case Some(g) =>
        match Decode(s[4..])
        case None => None
        case Some(rest) => Some(g + rest)
  }

  /** The arithmetic of one group: the bytes that four computed sextets stand for are the original bytes. */
  lemma GroupBytesArithmetic(b0: byte, b1: byte, b2: byte)
    ensures var x, y, z, w := b0 / 4, (b0 % 4) * 16 + b1 / 16, (b1 % 16) * 4 + b2 / 64, b2 % 64;
      x * 4 + y / 16 == b0 && (y % 16) * 16 + z / 4 == b1 && (z % 4) * 64 + w == b2
  {
    SplitBy16(b0 % 4, b1 / 16);
    SplitBy4(b1 % 16, b2 / 64);
  }

  lemma GroupRoundTrip(b0: byte, b1: byte, b2: byte)
    ensures DecodeGroup(EncodeGroup(b0, b1, b2)) == Some([b0, b1, b2])
  {
    var x, y, z, w := b0 / 4, (b0 % 4) * 16 + b1 / 16, (b1 % 16) * 4 + b2 / 64, b2 % 64;
    GroupBytesArithmetic(b0, b1, b2);
    ValueOfCharOf(x);
    ValueOfCharOf(y);
    ValueOfCharOf(z);
    ValueOfCharOf(w);
    var s := EncodeGroup(b0, b1, b2);
    assert s == [CharOf(x), CharOf(y), CharOf(z), CharOf(w)];
    assert ValueOf(s[0]) == Some(x) && ValueOf(s[1]) == Some(y) && ValueOf(s[2]) == Some(z) && ValueOf(s[3]) == Some(w);
  }

  /** A single group is the last one. */
  lemma DecodeLastGroup(s: string)
    requires |s| == 4
    ensures Decode(s) == DecodeFinalGroup(s)
  {
  }

  lemma LastOneDecodes(b0: byte)
    ensures DecodeFinalGroup(EncodeLastOne(b0)) == Some([b0])
  {
    var x, y := b0 / 4, (b0 % 4) * 16;
    SplitBy16(b0 % 4, 0);
    assert x * 4 + y / 16 == b0 && y % 16 == 0;
    ValueOfCharOf(x);
    ValueOfCharOf(y);
  }

  /** A final group holding two bytes decodes to them when its pad bits are zero. */
  lemma PaddedPairDecodes(x: Sextet, y: Sextet, z: Sextet)
    requires z % 4 == 0
    ensures DecodeFinalGroup([CharOf(x), CharOf(y), CharOf(z), '=']) == Some([x * 4 + y / 16, (y % 16) * 16 + z / 4])
  {
    ValueOfCharOf(x);
    ValueOfCharOf(y);
    ValueOfCharOf(z);
    assert CharOf(z) != '=';
  }

  lemma LastTwoDecodes(b0: byte, b1: byte)
    ensures DecodeFinalGroup(EncodeLastTwo(b0, b1)) == Some([b0, b1])
  {
    var x, y, z := b0 / 4, (b0 % 4) * 16 + b1 / 16, (b1 % 16) * 4;
    SplitBy4(b1 % 16, 0);
    GroupBytesArithmetic(b0, b1, 0);
    PaddedPairDecodes(x, y, z);
  }

  lemma DecodeEncodeOne(b: seq<byte>)
    requires |b| == 1
    ensures Decode(Encode(b)) == Some(b)
  {
    assert Encode(b) == EncodeLastOne(b[0]);
    DecodeLastGroup(EncodeLastOne(b[0]));
    LastOneDecodes(b[0]);
    assert b == [b[0]];
  }

  lemma DecodeEncodeTwo(b: seq<byte>)
    requires |b| == 2
    ensures Decode(Encode(b)) == Some(b)
  {
    assert Encode(b) == EncodeLastTwo(b[0], b[1]);
    DecodeLastGroup(EncodeLastTwo(b[0], b[1]));
    LastTwoDecodes(b[0], b[1]);
    assert b == [b[0], b[1]];
  }

  /** A full group that is also the last decodes as a full group: it holds no pad character. */
  lemma FullLastGroupDecodes(b0: byte, b1: byte, b2: byte)
    ensures DecodeFinalGroup(EncodeGroup(b0, b1, b2)) == Some([b0, b1, b2])
  {
    GroupRoundTrip(b0, b1, b2);
    ValueOfCharOf((b1 % 16) * 4 + b2 / 64);
    ValueOfCharOf(b2 % 64);
  }

  lemma DecodeEncodeThree(b: seq<byte>)
    requires |b| == 3
    ensures Decode(Encode(b)) == Some(b)
  {
    var g := EncodeGroup(b[0], b[1], b[2]);
    assert Encode(b) == g + Encode(b[3..]) == g;
    DecodeLastGroup(g);
    FullLastGroupDecodes(b[0], b[1], b[2]);
    assert b == [b[0], b[1], b[2]];
  }

  /** A full group in front of further groups decodes on its own. */
  lemma DecodeInFront(g: string, e: string)
    requires |g| == 4 && |e| >= 4
    ensures Decode(g + e) ==
      match DecodeGroup(g)
      case None => None
      case Some(x) => match Decode(e) case None => None case Some(rest) => Some(x + rest)
  {
    var s := g + e;
    assert s[..4] == g && s[4..] == e;
  }

  /** The encoding of three bytes in front of further groups decodes to those bytes in front. */
  lemma GroupInFront(b0: byte, b1: byte, b2: byte, e: string)
    requires |e| >= 4
    ensures Decode(EncodeGroup(b0, b1, b2) + e) ==
      match Decode(e) case None => None case Some(rest) => Some([b0, b1, b2] + rest)
  {
    DecodeInFront(EncodeGroup(b0, b1, b2), e);
    GroupRoundTrip(b0, b1, b2);
  }

  /** Decoding undoes encoding. */
  lemma {:induction false} DecodeEncode(b: seq<byte>)
    ensures Decode(Encode(b)) == Some(b)
    decreases |b|, 1
  {
    if |b| == 1 {
      DecodeEncodeOne(b);
    } else if |b| == 2 {
      DecodeEncodeTwo(b);
    } else if |b| == 3 {
      DecodeEncodeThree(b);
    } else if |b| > 3 {
      GroupsDecode(b);
    }
  }

  /** Decoding undoes encoding for more than three bytes: the first group, then the rest. */
  lemma {:induction false} GroupsDecode(b: seq<byte>)
    requires |b| > 3
    ensures Decode(Encode(b)) == Some(b)
    decreases |b|, 0
  {
    var rest := b[3..];
    var e := Encode(rest);
    assert Encode(b) == EncodeGroup(b[0], b[1], b[2]) + e;
    DecodeEncode(rest);
    GroupInFront(b[0], b[1], b[2], e);
    assert b == [b[0], b[1], b[2]] + rest;
  }

  /** Only the canonical encoding decodes: whatever decodes is the encoding of what it decodes to. */
  lemma {:induction false} EncodeDecode(s: string)
    requires Decode(s).Some?
    ensures Encode(Decode(s).value) == s
    decreases |s|
  {
    if |s| == 4 {
      FinalGroupCanonical(s);
    } else if |s| > 4 {
      var g := DecodeGroup(s[..4]).value;
      var rest := Decode(s[4..]).value;
      GroupCanonical(s[..4]);
      EncodeDecode(s[4..]);
      assert (g + rest)[3..] == rest;
      assert s == s[..4] + s[4..];
    }
  }

  /** Splitting a value into a quotient and a remainder by a constant, one divisor at a time. */
  lemma SplitBy4(q: int, r: int)
    requires 0 <= r < 4
    ensures (q * 4 + r) / 4 == q && (q * 4 + r) % 4 == r
  {
  }

  lemma SplitBy16(q: int, r: int)
    requires 0 <= r < 16
    ensures (q * 16 + r) / 16 == q && (q * 16 + r) % 16 == r
  {
  }

  /** The bytes computed from four sextets give the same four sextets back. */
  lemma GroupArithmetic(a: Sextet, b: Sextet, c: Sextet, d: Sextet)
    ensures var g0, g1, g2 := a * 4 + b / 16, (b % 16) * 16 + c / 4, (c % 4) * 64 + d;
      g0 / 4 == a && (g0 % 4) * 16 + g1 / 16 == b && (g1 % 16) * 4 + g2 / 64 == c && g2 % 64 == d
  {
    SplitBy4(a, b / 16);
    SplitBy16(b % 16, c / 4);
    SplitBy64(c % 4, d);
  }

  lemma GroupCanonical(s: string)
    requires |s| == 4 && DecodeGroup(s).Some?
    ensures var g := DecodeGroup(s).value; EncodeGroup(g[0], g[1], g[2]) == s
  {
    var a, b, c, d := ValueOf(s[0]).value, ValueOf(s[1]).value, ValueOf(s[2]).value, ValueOf(s[3]).value;
    GroupArithmetic(a, b, c, d);
    CharOfValueOf(s[0]);
    CharOfValueOf(s[1]);
    CharOfValueOf(s[2]);
    CharOfValueOf(s[3]);
  }

  lemma FinalGroupCanonical(s: string)
    requires |s| == 4 && DecodeFinalGroup(s).Some?
    ensures Encode(DecodeFinalGroup(s).value) == s
  {
    if s[3] != '=' {
      GroupCanonical(s);
      var g := DecodeGroup(s).value;
      assert Encode(g) == EncodeGroup(g[0], g[1], g[2]) + Encode(g[3..]);
    } else {
      var a, b := ValueOf(s[0]).value, ValueOf(s[1]).value;
      CharOfValueOf(s[0]);
      CharOfValueOf(s[1]);
      if s[2] == '=' {
        SplitBy4(a, b / 16);
      } else {
        var c := ValueOf(s[2]).value;
        CharOfValueOf(s[2]);
        GroupArithmetic(a, b, c, 0);
      }
    }
  }
}
