/** UTF-8 as defined in RFC 3629, as produced by `Encoding.UTF8.GetBytes`.
    A Dafny `char` is a Unicode scalar value, so every string has an encoding;
    the decoder is strict (no overlong forms, no surrogates, nothing above
    U+10FFFF) and accepts exactly the encoder's outputs. */
module Utf8 {
  import opened Wrappers
  import opened Octets

  /** Length of the encoding of code point `cp` (table in section 3 of RFC 3629). */
  function Width(c: char): (n: nat)
    ensures 1 <= n <= 4
  {
    var cp := c as int;
    if cp < 0x80 then 1 else if cp < 0x800 then 2 else if cp < 0x10000 then 3 else 4
  }

  function EncodeChar(c: char): (bs: seq<byte>)
    ensures |bs| == Width(c)
  {
    var cp := c as int;
    if cp < 0x80 then [cp]
    else if cp < 0x800 then [0xC0 + cp / 64, 0x80 + cp % 64]
    else if cp < 0x10000 then [0xE0 + cp / 4096, 0x80 + (cp / 64) % 64, 0x80 + cp % 64]
    else [0xF0 + cp / 262144, 0x80 + (cp / 4096) % 64, 0x80 + (cp / 64) % 64, 0x80 + cp % 64]
  }

  function Encode(s: string): (bs: seq<byte>)
    ensures |s| <= |bs| <= 4 * |s|
  {
    if |s| == 0 then [] else EncodeChar(s[0]) + Encode(s[1..])
  }

  predicate IsContinuation(b: byte) {
    0x80 <= b < 0xC0
  }

  predicate IsScalar(cp: int) {
    (0 <= cp < 0xD800) || (0xE000 <= cp < 0x11_0000)
  }

  /** Decodes the first character of `bs` and the number of octets it takes. */
  function DecodeFirst(bs: seq<byte>): (r: Option<(char, nat)>)
    ensures r.Some? ==> 1 <= r.value.1 <= |bs|
  {
    if |bs| == 0 then None
    else
      var b0: int := bs[0];
      if b0 < 0x80 then Some((b0 as char, 1))
      else if 0xC2 <= b0 < 0xE0 then
        if |bs| < 2 || !IsContinuation(bs[1]) then None
        else Some((((b0 - 0xC0) * 64 + (bs[1] as int - 0x80)) as char, 2))
      else if 0xE0 <= b0 < 0xF0 then
        if |bs| < 3 || !IsContinuation(bs[1]) || !IsContinuation(bs[2]) then None
        else
          var cp := (b0 - 0xE0) * 4096 + (bs[1] as int - 0x80) * 64 + (bs[2] as int - 0x80);
          if 0x800 <= cp && IsScalar(cp) then Some((cp as char, 3)) else None
      else if 0xF0 <= b0 < 0xF5 then
        if |bs| < 4 || !IsContinuation(bs[1]) || !IsContinuation(bs[2]) || !IsContinuation(bs[3]) then None
        else
          var cp := (b0 - 0xF0) * 262144 + (bs[1] as int - 0x80) * 4096 + (bs[2] as int - 0x80) * 64 + (bs[3] as int - 0x80);
          if 0x1_0000 <= cp < 0x11_0000 then Some((cp as char, 4)) else None
      else None
  }

  function Decode(bs: seq<byte>): (r: Option<string>)
    decreases |bs|
  {
    if |bs| == 0 then Some([])
    else
      match DecodeFirst(bs)
      case None => None
      case Some((c, n)) =>
        match Decode(bs[n..])
        case None => None
        case Some(rest) => Some([c] + rest)
  }

  /** The first character's encoding is recognised whatever follows it. */
  lemma DecodeFirstEncodeChar(c: char, rest: seq<byte>)
    ensures DecodeFirst(EncodeChar(c) + rest) == Some((c, Width(c)))
  {
    var cp := c as int;
    if cp < 0x80 {
    } else if cp < 0x800 {
      DecodeFirstTwo(c, rest);
    } else if cp < 0x10000 {
      DecodeFirstThree(c, rest);
    } else {
      DecodeFirstFour(c, rest);
    }
  }

  /** Splitting a code point into 6-bit digits and joining them again. */
  lemma Digits2(cp: int)
    requires 0x80 <= cp < 0x800
    ensures 2 <= cp / 64 < 0x20
    ensures (cp / 64) * 64 + cp % 64 == cp
  {
  }

  lemma Digits3(cp: int)
    requires 0x800 <= cp < 0x10000
    ensures cp / 4096 < 0x10
    ensures (cp / 4096) * 4096 + ((cp / 64) % 64) * 64 + cp % 64 == cp
  {
  }

  lemma Digits4(cp: int)
    requires 0x10000 <= cp < 0x11_0000
    ensures cp / 262144 < 5
    ensures (cp / 262144) * 262144 + ((cp / 4096) % 64) * 4096 + ((cp / 64) % 64) * 64 + cp % 64 == cp
  {
  }

  lemma DecodeFirstTwo(c: char, rest: seq<byte>)
    requires 0x80 <= c as int < 0x800
    ensures DecodeFirst(EncodeChar(c) + rest) == Some((c, 2))
  {
    var cp := c as int;
    Digits2(cp);
    var bs := EncodeChar(c) + rest;
    assert bs[0] as int == 0xC0 + cp / 64 && bs[1] as int == 0x80 + cp % 64;
  }

  lemma DecodeFirstThree(c: char, rest: seq<byte>)
    requires 0x800 <= c as int < 0x10000
    ensures DecodeFirst(EncodeChar(c) + rest) == Some((c, 3))
  {
    var cp := c as int;
    Digits3(cp);
    var bs := EncodeChar(c) + rest;
    assert bs[0] as int == 0xE0 + cp / 4096;
    assert bs[1] as int == 0x80 + (cp / 64) % 64 && bs[2] as int == 0x80 + cp % 64;
  }

  lemma DecodeFirstFour(c: char, rest: seq<byte>)
    requires 0x10000 <= c as int
    ensures DecodeFirst(EncodeChar(c) + rest) == Some((c, 4))
  {
    var cp := c as int;
    Digits4(cp);
    var d0, d1, d2, d3 := cp / 262144, (cp / 4096) % 64, (cp / 64) % 64, cp % 64;
    var bs := EncodeChar(c) + rest;
    assert bs[0] as int == 0xF0 + d0;
    assert bs[1] as int == 0x80 + d1 && bs[2] as int == 0x80 + d2 && bs[3] as int == 0x80 + d3;
    assert d0 * 262144 + d1 * 4096 + d2 * 64 + d3 == cp;
  }

  /** Decoding inverts encoding. */
  lemma {:induction false} DecodeEncode(s: string)
    ensures Decode(Encode(s)) == Some(s)
  {
    if |s| > 0 {
      var e := EncodeChar(s[0]);
      var rest := Encode(s[1..]);
      DecodeFirstEncodeChar(s[0], rest);
      assert (e + rest)[Width(s[0])..] == rest;
      DecodeEncode(s[1..]);
      assert s == [s[0]] + s[1..];
    }
  }

  /** A decoded character's octets are its encoding. */
  lemma EncodeCharDecodeFirst(bs: seq<byte>)
    requires DecodeFirst(bs).Some?
    ensures EncodeChar(DecodeFirst(bs).value.0) == bs[..DecodeFirst(bs).value.1]
  {
    var b0 := bs[0];
    if b0 < 0x80 {
    } else if b0 < 0xE0 {
      EncodeCharTwo(bs);
    } else if b0 < 0xF0 {
      EncodeCharThree(bs);
    } else {
      EncodeCharFour(bs);
    }
  }

  lemma EncodeCharTwo(bs: seq<byte>)
    requires DecodeFirst(bs).Some? && 0x80 <= bs[0] < 0xE0
    ensures EncodeChar(DecodeFirst(bs).value.0) == bs[..2]
  {
    var b0: int, x1: int := bs[0], bs[1] - 0x80;
    var cp := DecodeFirst(bs).value.0 as int;
    assert cp == (b0 - 0xC0) * 64 + x1;
    assert cp / 64 == b0 - 0xC0 && cp % 64 == x1;
  }

  lemma EncodeCharThree(bs: seq<byte>)
    requires DecodeFirst(bs).Some? && 0xE0 <= bs[0] < 0xF0
    ensures EncodeChar(DecodeFirst(bs).value.0) == bs[..3]
  {
    var b0: int, x1: int, x2: int := bs[0], bs[1] - 0x80, bs[2] - 0x80;
    var cp := DecodeFirst(bs).value.0 as int;
    assert cp == (b0 - 0xE0) * 4096 + x1 * 64 + x2;
    JoinDigits3(b0 - 0xE0, x1, x2);
  }

  lemma EncodeCharFour(bs: seq<byte>)
    requires DecodeFirst(bs).Some? && 0xF0 <= bs[0]
    ensures EncodeChar(DecodeFirst(bs).value.0) == bs[..4]
  {
    var b0: int, x1: int, x2: int, x3: int := bs[0], bs[1] - 0x80, bs[2] - 0x80, bs[3] - 0x80;
    var cp := DecodeFirst(bs).value.0 as int;
    assert cp == (b0 - 0xF0) * 262144 + x1 * 4096 + x2 * 64 + x3;
    JoinDigits4(b0 - 0xF0, x1, x2, x3);
  }

  /** Quotient and remainder by 64, 4096 and 262144 are determined by any
      decomposition with a remainder in range. */
  lemma DivMod64(x: int, q: int, r: int)
    requires 0 <= r < 64 && x == q * 64 + r
    ensures x / 64 == q && x % 64 == r
  {
  }

  lemma DivMod4096(x: int, q: int, r: int)
    requires 0 <= r < 4096 && x == q * 4096 + r
    ensures x / 4096 == q
  {
  }

  lemma DivMod262144(x: int, q: int, r: int)
    requires 0 <= r < 262144 && x == q * 262144 + r
    ensures x / 262144 == q
  {
  }

  /** Joining 6-bit digits and splitting them again. */
  lemma JoinDigits3(d0: nat, d1: nat, d2: nat)
    requires d1 < 64 && d2 < 64
    ensures var cp := d0 * 4096 + d1 * 64 + d2;
      cp / 4096 == d0 && (cp / 64) % 64 == d1 && cp % 64 == d2
  {
    var cp := d0 * 4096 + d1 * 64 + d2;
    DivMod64(cp, d0 * 64 + d1, d2);
    DivMod64(d0 * 64 + d1, d0, d1);
    DivMod4096(cp, d0, d1 * 64 + d2);
  }

  lemma JoinDigits4(d0: nat, d1: nat, d2: nat, d3: nat)
    requires d1 < 64 && d2 < 64 && d3 < 64
    ensures var cp := d0 * 262144 + d1 * 4096 + d2 * 64 + d3;
      cp / 262144 == d0 && (cp / 4096) % 64 == d1 && (cp / 64) % 64 == d2 && cp % 64 == d3
  {
    var cp := d0 * 262144 + d1 * 4096 + d2 * 64 + d3;
    DivMod64(cp, d0 * 4096 + d1 * 64 + d2, d3);
    DivMod64(d0 * 4096 + d1 * 64 + d2, d0 * 64 + d1, d2);
    DivMod4096(cp, d0 * 64 + d1, d2 * 64 + d3);
    DivMod64(d0 * 64 + d1, d0, d1);
    DivMod262144(cp, d0, d1 * 4096 + d2 * 64 + d3);
  }

  /** One step of a successful decode: the first character, then the rest. */
  lemma DecodeStep(bs: seq<byte>)
    requires |bs| > 0 && Decode(bs).Some?
    ensures DecodeFirst(bs).Some?
    ensures Decode(bs[DecodeFirst(bs).value.1..]).Some?
    ensures Decode(bs).value == [DecodeFirst(bs).value.0] + Decode(bs[DecodeFirst(bs).value.1..]).value
  {
  }

  lemma EncodeCons(c: char, t: string)
    ensures Encode([c] + t) == EncodeChar(c) + Encode(t)
  {
    assert ([c] + t)[1..] == t;
  }

  /** The decoder accepts only what the encoder produces. */
  lemma {:induction false} EncodeDecode(bs: seq<byte>)
    requires Decode(bs).Some?
    ensures Encode(Decode(bs).value) == bs
    decreases |bs|
  {
    if |bs| > 0 {
      DecodeStep(bs);
      var c, n := DecodeFirst(bs).value.0, DecodeFirst(bs).value.1;
      var t := Decode(bs[n..]).value;
      calc {
        Encode(Decode(bs).value);
        == Encode([c] + t);
        == { EncodeCons(c, t); }
        EncodeChar(c) + Encode(t);
        == { EncodeCharDecodeFirst(bs); EncodeDecode(bs[n..]); }
        bs[..n] + bs[n..];
        == { assert bs == bs[..n] + bs[n..]; }
        bs;
      }
    }
  }
}
