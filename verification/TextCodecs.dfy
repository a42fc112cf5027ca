/** Text forms of byte strings: hexadecimal, UUID text, base64 (sections 4 and 8 of
    RFC 4648) and decimal indexes. Text is the bytes of its ASCII characters. */
module TextCodecs {
  import opened Bytes

  // ---------------------------------------------------------------- hexadecimal

  function HexDigit(n: int): (c: byte)
    requires 0 <= n < 16
    ensures 48 <= c <= 57 || 97 <= c <= 102
  {
    if n < 10 then 48 + n else 87 + n
  }

  /** The value of a hexadecimal digit in either case. */
  function HexValue(c: byte): (v: Option<nat>)
    ensures v.Some? ==> v.value < 16
  {
    if 48 <= c <= 57 then Some(c - 48)
    else if 97 <= c <= 102 then Some(c - 87)
    else if 65 <= c <= 70 then Some(c - 55)
    else None
  }

  /** `hex::encode`: lower-case, two digits a byte. */
  function HexEncode(b: bytes): (t: bytes)
    ensures |t| == 2 * |b|
  {
    if b == [] then [] else [HexDigit(b[0] / 16), HexDigit(b[0] % 16)] + HexEncode(b[1..])
  }

  /** `hex::decode`: either case; None for odd length or a foreign character. */
  function HexDecode(t: bytes): (b: Option<bytes>)
    ensures b.Some? ==> 2 * |b.value| == |t|
  {
    if t == [] then Some([])
    else if |t| < 2 || HexValue(t[0]).None? || HexValue(t[1]).None? then None
    else
      var rest := HexDecode(t[2..]);
      if rest.None? then None
      else Some([HexValue(t[0]).value * 16 + HexValue(t[1]).value] + rest.value)
  }

  lemma {:induction false} HexRoundTrip(b: bytes)
    ensures HexDecode(HexEncode(b)) == Some(b)
  {
    if b == [] {
    } else {
      HexRoundTrip(b[1..]);
      assert HexEncode(b)[2..] == HexEncode(b[1..]);
      assert b == [b[0]] + b[1..];
    }
  }

  /** A text with a character that is no hexadecimal digit does not decode. */
  lemma {:induction false} HexRejects(t: bytes, i: nat)
    requires i < |t| && HexValue(t[i]).None?
    ensures HexDecode(t).None?
  {
    if i < 2 {
    } else {
      HexRejects(t[2..], i - 2);
    }
  }

  // ----------------------------------------------------------------------- UUID

  const HYPHEN: byte := 45

  /** The hyphenated lower-case form of a UUID. */
  function UuidText(u: bytes16): (t: bytes)
    ensures |t| == 36
  {
    var h := HexEncode(u);
    h[..8] + [HYPHEN] + h[8..12] + [HYPHEN] + h[12..16] + [HYPHEN] + h[16..20] + [HYPHEN] + h[20..]
  }

  function ParseHyphenated(t: bytes): (u: Option<bytes16>)
    requires |t| == 36
  {
    if t[8] == t[13] == t[18] == t[23] == HYPHEN then
      HexDecode(t[..8] + t[9..13] + t[14..18] + t[19..23] + t[24..])
    else None
  }

  /** `Uuid::parse_str`: 32 digits, hyphenated, braced, or a `urn:uuid:` name. */
  function ParseUuid(t: bytes): (u: Option<bytes16>) {
    if |t| == 32 then HexDecode(t)
    else if |t| == 36 then ParseHyphenated(t)
    else if |t| == 38 && t[0] == 123 && t[37] == 125 then ParseHyphenated(t[1..37])
    else if |t| == 45 && t[..9] == Ascii("urn:uuid:") then ParseHyphenated(t[9..])
    else None
  }

  lemma UuidRoundTrip(u: bytes16)
    ensures ParseUuid(UuidText(u)) == Some(u)
  {
    var h, t := HexEncode(u), UuidText(u);
    assert t[..8] == h[..8] && t[9..13] == h[8..12] && t[14..18] == h[12..16];
    assert t[19..23] == h[16..20] && t[24..] == h[20..];
    assert h[..8] + h[8..12] + h[12..16] + h[16..20] + h[20..] == h;
    HexRoundTrip(u);
  }

  // --------------------------------------------------------------------- base64

  const PAD: byte := 61

  function Sextet(n: int): (c: byte)
    requires 0 <= n < 64
    ensures c != PAD
  {
    if n < 26 then 65 + n
    else if n < 52 then 71 + n
    else if n < 62 then n - 4
    else if n == 62 then 43
    else 47
  }

  function SextetValue(c: byte): (v: Option<nat>)
    ensures v.Some? ==> v.value < 64 && Sextet(v.value) == c
  {
    if 65 <= c <= 90 then Some(c - 65)
    else if 97 <= c <= 122 then Some(c - 71)
    else if 48 <= c <= 57 then Some(c + 4)
    else if c == 43 then Some(62)
    else if c == 47 then Some(63)
    else None
  }

  lemma SextetInverse(n: int)
    requires 0 <= n < 64
    ensures SextetValue(Sextet(n)) == Some(n)
  {
  }

  function EncodeGroup(a: byte, b: byte, c: byte): (t: bytes)
    ensures |t| == 4
  {
    [Sextet(a / 4), Sextet(a % 4 * 16 + b / 16), Sextet(b % 16 * 4 + c / 64), Sextet(c % 64)]
  }

  /** Base64 with the standard alphabet and padding. */
  function Base64Encode(b: bytes): bytes {
    if b == [] then []
    else if |b| == 1 then EncodeGroup(b[0], 0, 0)[..2] + [PAD, PAD]
    else if |b| == 2 then EncodeGroup(b[0], b[1], 0)[..3] + [PAD]
    else EncodeGroup(b[0], b[1], b[2]) + Base64Encode(b[3..])
  }

  function DecodeGroup(t: bytes): (b: Option<bytes>)
    requires |t| == 4
    ensures b.Some? ==> |b.value| == 3
  {
    var w, x, y, z := SextetValue(t[0]), SextetValue(t[1]), SextetValue(t[2]), SextetValue(t[3]);
    if w.None? || x.None? || y.None? || z.None? then None
    else
      Some([w.value * 4 + x.value / 16,
            x.value % 16 * 16 + y.value / 4,
            y.value % 4 * 64 + z.value])
  }

  /** The strict decoder: padding is required and unused bits must be zero. */
  function Base64Decode(t: bytes): Option<bytes> {
    if t == [] then Some([])
    else if |t| < 4 then None
    else if |t| == 4 && t[3] == PAD then
      if t[2] == PAD then
        var d := DecodeGroup(t[..2] + [Sextet(0), Sextet(0)]);
        if d.None? || d.value[1..] != [0, 0] then None else Some(d.value[..1])
      else
        var d := DecodeGroup(t[..3] + [Sextet(0)]);
        if d.None? || d.value[2] != 0 then None else Some(d.value[..2])
    else
      var d := DecodeGroup(t[..4]);
      if d.None? then None
      else
        var rest := Base64Decode(t[4..]);
        if rest.None? then None else Some(d.value + rest.value)
  }

  lemma GroupRoundTrip(a: byte, b: byte, c: byte)
    ensures DecodeGroup(EncodeGroup(a, b, c)) == Some([a, b, c])
  {
    var w, x, y, z := a / 4, a % 4 * 16 + b / 16, b % 16 * 4 + c / 64, c % 64;
    SextetInverse(w);
    SextetInverse(x);
    SextetInverse(y);
    SextetInverse(z);
    assert x / 16 == a % 4 && x % 16 == b / 16 && y / 4 == b % 16 && y % 4 == c / 64;
  }

  lemma GroupCanonical(t: bytes)
    requires |t| == 4 && DecodeGroup(t).Some?
    ensures var d := DecodeGroup(t).value; EncodeGroup(d[0], d[1], d[2]) == t
  {
    var w, x, y, z := SextetValue(t[0]).value, SextetValue(t[1]).value,
                      SextetValue(t[2]).value, SextetValue(t[3]).value;
    var d := DecodeGroup(t).value;
    assert d[0] / 4 == w && d[0] % 4 * 16 + d[1] / 16 == x;
    assert d[1] % 16 * 4 + d[2] / 64 == y && d[2] % 64 == z;
  }

  lemma OneByteRoundTrip(a: byte)
    ensures Base64Decode(Base64Encode([a])) == Some([a])
  {
    GroupRoundTrip(a, 0, 0);
    var t := Base64Encode([a]);
    assert t[..2] + [Sextet(0), Sextet(0)] == EncodeGroup(a, 0, 0);
    assert [a, 0, 0][1..] == [0, 0] && [a, 0, 0][..1] == [a];
  }

  lemma TwoBytesRoundTrip(a: byte, b: byte)
    ensures Base64Decode(Base64Encode([a, b])) == Some([a, b])
  {
    GroupRoundTrip(a, b, 0);
    var t := Base64Encode([a, b]);
    assert t[..3] + [Sextet(0)] == EncodeGroup(a, b, 0);
    assert [a, b, 0][..2] == [a, b];
  }

  lemma FullGroupDecodes(a: byte, b: byte, c: byte, rest: bytes)
    requires Base64Decode(rest).Some?
    ensures Base64Decode(EncodeGroup(a, b, c) + rest) == Some([a, b, c] + Base64Decode(rest).value)
  {
    GroupRoundTrip(a, b, c);
    var t := EncodeGroup(a, b, c) + rest;
    assert t[..4] == EncodeGroup(a, b, c) && t[4..] == rest;
  }

  lemma EncodeFirstGroup(b: bytes)
    requires |b| >= 3
    ensures Base64Encode(b) == EncodeGroup(b[0], b[1], b[2]) + Base64Encode(b[3..])
  {
  }

  lemma {:induction false} Base64RoundTrip(b: bytes)
    ensures Base64Decode(Base64Encode(b)) == Some(b)
  {
    if b == [] {
    } else if |b| == 1 {
      assert b == [b[0]];
      OneByteRoundTrip(b[0]);
    } else if |b| == 2 {
      assert b == [b[0], b[1]];
      TwoBytesRoundTrip(b[0], b[1]);
    } else {
      var front, rest := [b[0], b[1], b[2]], b[3..];
      assert b == front + rest;
      Base64RoundTrip(rest);
      FullGroupDecodes(b[0], b[1], b[2], Base64Encode(rest));
      EncodeFirstGroup(b);
    }
  }

  /** Only the canonical spelling of a byte string decodes to it. */
  lemma {:induction false} Base64Canonical(t: bytes)
    requires Base64Decode(t).Some?
    ensures Base64Encode(Base64Decode(t).value) == t
  {
    if t == [] {
    } else if |t| == 4 && t[3] == PAD {
      if t[2] == PAD {
        CanonicalOne(t);
      } else {
        CanonicalTwo(t);
      }
    } else {
      var d, rest := DecodeGroup(t[..4]).value, Base64Decode(t[4..]).value;
      Base64Canonical(t[4..]);
      GroupCanonical(t[..4]);
      Halves(d, rest);
      EncodeFirstGroup(d + rest);
      assert t == t[..4] + t[4..];
    }
  }

  lemma CanonicalOne(t: bytes)
    requires |t| == 4 && t[3] == PAD && t[2] == PAD && Base64Decode(t).Some?
    ensures Base64Encode(Base64Decode(t).value) == t
  {
    GroupCanonical(t[..2] + [Sextet(0), Sextet(0)]);
    assert t == t[..2] + [PAD, PAD];
  }

  lemma CanonicalTwo(t: bytes)
    requires |t| == 4 && t[3] == PAD && t[2] != PAD && Base64Decode(t).Some?
    ensures Base64Encode(Base64Decode(t).value) == t
  {
    GroupCanonical(t[..3] + [Sextet(0)]);
    assert t == t[..3] + [PAD];
  }

  /** The text of a byte string whose length is no multiple of 3 ends in padding. */
  lemma {:induction false} Base64Padded(b: bytes)
    requires |b| % 3 != 0
    ensures Base64Encode(b) != [] && Base64Encode(b)[|Base64Encode(b)| - 1] == PAD
  {
    if |b| <= 2 {
    } else {
      Base64Padded(b[3..]);
    }
  }

  // -------------------------------------------------------------------- decimal

  /** Decimal digits of an index, as `format!` writes them. */
  function Decimal(n: nat): bytes {
    if n < 10 then [48 + n] else Decimal(n / 10) + [48 + n % 10]
  }
}
