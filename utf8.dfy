/**
 * UTF-8 as RFC 3629 defines it (section 4, the syntax of well-formed
 * sequences), which is what `String::from_utf8` accepts: no overlong forms,
 * no surrogate code points, nothing above U+10FFFF. A Dafny `char` is a
 * Unicode scalar value, the same set of values as Rust's `char`.
 */
module Utf8 {
  import opened Wrappers

  /** The bytes of one scalar value (the table of section 3 of RFC 3629). */
  function EncodeScalar(c: char): (b: seq<byte>)
    ensures 1 <= |b| <= 4
  {
    var cp := c as int;
    if cp < 0x80 then [cp]
    else if cp < 0x800 then [0xC0 + cp / 64, 0x80 + cp % 64]
    else if cp < 0x10000 then [0xE0 + cp / 4096, 0x80 + (cp / 64) % 64, 0x80 + cp % 64]
    else [0xF0 + cp / 262144, 0x80 + (cp / 4096) % 64, 0x80 + (cp / 64) % 64, 0x80 + cp % 64]
  }

  /** The bytes of a Rust `String` holding `s`. */
  function Encode(s: string): seq<byte>
    decreases |s|
  {
    if s == [] then [] else EncodeScalar(s[0]) + Encode(s[1..])
  }

  predicate InRange(b: byte, lo: int, hi: int) {
    lo <= b <= hi
  }

  /** The second byte of a three-byte sequence led by `b0`: narrower after E0 (no overlongs) and ED (no surrogates). */
  function Low3(b0: byte): int { if b0 == 0xE0 then 0xA0 else 0x80 }
  function High3(b0: byte): int { if b0 == 0xED then 0x9F else 0xBF }

  /** The second byte of a four-byte sequence led by `b0`: narrower after F0 (no overlongs) and F4 (nothing past U+10FFFF). */
  function Low4(b0: byte): int { if b0 == 0xF0 then 0x90 else 0x80 }
  function High4(b0: byte): int { if b0 == 0xF4 then 0x8F else 0xBF }

  /** The scalar value at the front of `b` and the number of bytes it takes, if they form a well-formed sequence. */
  function DecodeFirst(b: seq<byte>): (r: Option<(char, nat)>)
    requires |b| > 0
    ensures r.Some? ==> 1 <= r.value.1 <= |b|
  {
    var b0: int := b[0];
    if b0 < 0x80 then Some((b0 as char, 1))
    else if 0xC2 <= b0 <= 0xDF then
      if |b| >= 2 && InRange(b[1], 0x80, 0xBF) then
        var b1: int := b[1];
        Some((((b0 - 0xC0) * 64 + (b1 - 0x80)) as char, 2))
      else None
    else if 0xE0 <= b0 <= 0xEF then
      if |b| >= 3 && InRange(b[1], Low3(b0), High3(b0)) && InRange(b[2], 0x80, 0xBF) then
        var b1: int, b2: int := b[1], b[2];
        Some((((b0 - 0xE0) * 4096 + (b1 - 0x80) * 64 + (b2 - 0x80)) as char, 3))
      else None
    else if 0xF0 <= b0 <= 0xF4 then
      if |b| >= 4 && InRange(b[1], Low4(b0), High4(b0)) && InRange(b[2], 0x80, 0xBF) && InRange(b[3], 0x80, 0xBF) then
        var b1: int, b2: int, b3: int := b[1], b[2], b[3];
        Some((((b0 - 0xF0) * 262144 + (b1 - 0x80) * 4096 + (b2 - 0x80) * 64 + (b3 - 0x80)) as char, 4))
      else None
    else None
  }

  /** `String::from_utf8(b)`: `None` is the error for ill-formed input. */
  function Decode(b: seq<byte>): Option<string>
    decreases |b|
  {
    if b == [] then Some([])
    else match DecodeFirst(b)
      case None => None
      case Some((c, n)) =>
        match Decode(b[n..])
        case None => None
        case Some(rest) => Some([c] + rest)
  }

  lemma TwoByteRoundTrip(c: char, rest: seq<byte>)
    requires 0x80 <= c as int < 0x800
    ensures DecodeFirst(EncodeScalar(c) + rest) == Some((c, 2))
  {
    var cp := c as int;
    SplitBy64(cp / 64, cp % 64);
  }

  lemma ThreeByteRoundTrip(c: char, rest: seq<byte>)
    requires 0x800 <= c as int < 0x10000
    ensures DecodeFirst(EncodeScalar(c) + rest) == Some((c, 3))
  {
    var cp := c as int;
    var q, m := cp / 64, cp % 64;
    SplitBy64(q, m);
    SplitBy64(q / 64, q % 64);
    assert cp == (q / 64) * 4096 + (q % 64) * 64 + m;
  }

  /** The base-64 digits of a value below 64 * 262144, most significant first. */
  lemma FourDigits(cp: int, d0: int, d1: int, d2: int, d3: int)
    requires 0 <= d0 < 64 && 0 <= d1 < 64 && 0 <= d2 < 64 && 0 <= d3 < 64
    requires cp == d0 * 262144 + d1 * 4096 + d2 * 64 + d3
    ensures cp / 262144 == d0 && (cp / 4096) % 64 == d1 && (cp / 64) % 64 == d2 && cp % 64 == d3
  {
    SplitBy64(d0 * 4096 + d1 * 64 + d2, d3);
    SplitBy64(d0 * 64 + d1, d2);
    SplitBy4096(d0 * 64 + d1, d2 * 64 + d3);
    SplitBy64(d0, d1);
    SplitBy262144(d0, d1 * 4096 + d2 * 64 + d3);
  }

  lemma SplitBy4096(q: int, r: int)
    requires 0 <= r < 4096
    ensures (q * 4096 + r) / 4096 == q
  {
  }

  lemma SplitBy262144(q: int, r: int)
    requires 0 <= r < 262144
    ensures (q * 262144 + r) / 262144 == q
  {
  }

  lemma FourByteRoundTrip(c: char, rest: seq<byte>)
    requires 0x10000 <= c as int
    ensures DecodeFirst(EncodeScalar(c) + rest) == Some((c, 4))
  {
    var cp := c as int;
    var q, d3 := cp / 64, cp % 64;
    var q2, d2 := q / 64, q % 64;
    var d0, d1 := q2 / 64, q2 % 64;
    assert cp == d0 * 262144 + d1 * 4096 + d2 * 64 + d3;
    FourDigits(cp, d0, d1, d2, d3);
    assert d0 <= 4;
    assert d0 == 0 ==> d1 >= 16;
    assert d0 == 4 ==> d1 <= 15;
    var b := EncodeScalar(c) + rest;
    assert b[0] == 0xF0 + d0 && b[1] == 0x80 + d1 && b[2] == 0x80 + d2 && b[3] == 0x80 + d3;
    assert InRange(b[1], Low4(b[0]), High4(b[0]));
  }

  lemma ScalarRoundTrip(c: char, rest: seq<byte>)
    ensures DecodeFirst(EncodeScalar(c) + rest) == Some((c, |EncodeScalar(c)|))
  {
    var cp := c as int;
    if 0x80 <= cp < 0x800 {
      TwoByteRoundTrip(c, rest);
    } else if 0x800 <= cp < 0x10000 {
      ThreeByteRoundTrip(c, rest);
    } else if 0x10000 <= cp {
      FourByteRoundTrip(c, rest);
    }
  }

  /** Decoding the bytes of a string gives the string back. */
  lemma {:induction false} DecodeEncode(s: string)
    ensures Decode(Encode(s)) == Some(s)
    decreases |s|
  {
    if s != [] {
      var e, rest := EncodeScalar(s[0]), Encode(s[1..]);
      ScalarRoundTrip(s[0], rest);
      DecodeEncode(s[1..]);
      assert (e + rest)[|e|..] == rest;
      assert s == [s[0]] + s[1..];
    }
  }

  lemma TwoByteCanonical(b: seq<byte>)
    requires |b| >= 2 && 0xC2 <= b[0] <= 0xDF && DecodeFirst(b).Some?
    ensures b[..2] == EncodeScalar(DecodeFirst(b).value.0)
  {
    var b0: int, b1: int := b[0], b[1];
    SplitBy64(b0 - 0xC0, b1 - 0x80);
  }

  lemma ThreeByteCanonical(b: seq<byte>)
    requires |b| >= 3 && 0xE0 <= b[0] <= 0xEF && DecodeFirst(b).Some?
    ensures b[..3] == EncodeScalar(DecodeFirst(b).value.0)
  {
    var b0: int, b1: int, b2: int := b[0], b[1], b[2];
    var q := (b0 - 0xE0) * 64 + (b1 - 0x80);
    SplitBy64(q, b2 - 0x80);
    SplitBy64(b0 - 0xE0, b1 - 0x80);
  }

  lemma FourByteCanonical(b: seq<byte>)
    requires |b| >= 4 && 0xF0 <= b[0] <= 0xF4 && DecodeFirst(b).Some?
    ensures b[..4] == EncodeScalar(DecodeFirst(b).value.0)
  {
    var b0: int, b1: int, b2: int, b3: int := b[0], b[1], b[2], b[3];
    var q2 := (b0 - 0xF0) * 64 + (b1 - 0x80);
    var q := q2 * 64 + (b2 - 0x80);
    SplitBy64(q, b3 - 0x80);
    SplitBy64(q2, b2 - 0x80);
    SplitBy64(b0 - 0xF0, b1 - 0x80);
  }

  /** A well-formed sequence is the encoding of the scalar value it decodes to: there are no overlong forms. */
  lemma FirstCanonical(b: seq<byte>)
    requires |b| > 0 && DecodeFirst(b).Some?
    ensures var (c, n) := DecodeFirst(b).value; b[..n] == EncodeScalar(c)
  {
    if 0xC2 <= b[0] <= 0xDF {
      TwoByteCanonical(b);
    } else if 0xE0 <= b[0] <= 0xEF {
      ThreeByteCanonical(b);
    } else if 0xF0 <= b[0] <= 0xF4 {
      FourByteCanonical(b);
    }
  }

  /** Whatever decodes is the encoding of the string it decodes to. */
  lemma {:induction false} EncodeDecode(b: seq<byte>)
    requires Decode(b).Some?
    ensures Encode(Decode(b).value) == b
    decreases |b|
  {
    if b != [] {
      DecodeStep(b);
      var first := DecodeFirst(b).value;
      var c, n := first.0, first.1;
      var rest := Decode(b[n..]).value;
      assert Decode(b).value == [c] + rest;
      FirstCanonical(b);
      assert b[..n] == EncodeScalar(c);
      EncodeDecode(b[n..]);
      assert Encode(rest) == b[n..];
      EncodeCons(c, rest);
      assert b == b[..n] + b[n..];
    }
  }

  /** A successful decode is the first character in front of the decoded rest. */
  lemma DecodeStep(b: seq<byte>)
    requires b != [] && Decode(b).Some?
    ensures DecodeFirst(b).Some?
    ensures var n := DecodeFirst(b).value.1;
      Decode(b[n..]).Some? && Decode(b).value == [DecodeFirst(b).value.0] + Decode(b[n..]).value
  {
  }

  /** The encoding of a string is the encoding of its first character in front of the rest's. */
  lemma EncodeCons(c: char, rest: string)
    ensures Encode([c] + rest) == EncodeScalar(c) + Encode(rest)
  {
    assert ([c] + rest)[0] == c && ([c] + rest)[1..] == rest;
  }
}
