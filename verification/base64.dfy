/** The base64 encoding of section 4 of RFC 4648 (alphabet `A-Z a-z 0-9 + /`,
    padding with `=`), as produced by `Convert.ToBase64String`, together with a
    strict decoder that accepts exactly the encoder's outputs. */
module Base64 {
  import opened Wrappers
  import opened Octets

  type sextet = i: int | 0 <= i < 64

  /** Character of the base64 alphabet with index `i` (Table 1 of RFC 4648). */
  function CharOf(i: sextet): (c: char)
    ensures c != '=' && c != '"'
  {
    if i < 26 then ('A' as int + i) as char
    else if i < 52 then ('a' as int + (i - 26)) as char
    else if i < 62 then ('0' as int + (i - 52)) as char
    else if i == 62 then '+'
    else '/'
  }

  /** Index of an alphabet character; `None` for any other character. */
  function IndexOf(c: char): (r: Option<sextet>)
    ensures r.Some? ==> CharOf(r.value) == c
  {
    if 'A' <= c <= 'Z' then Some(c as int - 'A' as int)
    else if 'a' <= c <= 'z' then Some(c as int - 'a' as int + 26)
    else if '0' <= c <= '9' then Some(c as int - '0' as int + 52)
    else if c == '+' then Some(62)
    else if c == '/' then Some(63)
    else None
  }

  lemma IndexOfCharOf(i: sextet)
    ensures IndexOf(CharOf(i)) == Some(i)
  {
  }

  /** Three octets become four characters (section 4 of RFC 4648). */
  function EncodeGroup(a: byte, b: byte, c: byte): seq<char> {
    [CharOf(a / 4), CharOf((a % 4) * 16 + b / 16), CharOf((b % 16) * 4 + c / 64), CharOf(c % 64)]
  }

  /** Final quantum of two octets: three characters and one `=`. */
  function EncodeTwo(a: byte, b: byte): seq<char> {
    [CharOf(a / 4), CharOf((a % 4) * 16 + b / 16), CharOf((b % 16) * 4), '=']
  }

  /** Final quantum of one octet: two characters and `==`. */
  function EncodeOne(a: byte): seq<char> {
    [CharOf(a / 4), CharOf((a % 4) * 16), '=', '=']
  }

  function Encode(bs: seq<byte>): (s: string)
    ensures |s| == 4 * ((|bs| + 2) / 3)
    ensures forall k :: 0 <= k < |s| ==> s[k] != '"'
    decreases |bs|
  {
    if |bs| == 0 then []
    else if |bs| == 1 then EncodeOne(bs[0])
    else if |bs| == 2 then EncodeTwo(bs[0], bs[1])
    else EncodeGroup(bs[0], bs[1], bs[2]) + Encode(bs[3..])
  }

  /** Decodes four characters; padding is accepted only in the last quantum and
      only when the bits it drops are zero, so that the encoding is canonical. */
  function DecodeQuantum(q: seq<char>, last: bool): (r: Option<seq<byte>>)
    requires |q| == 4
  {
    var i0 := IndexOf(q[0]);
    var i1 := IndexOf(q[1]);
    var i2 := IndexOf(q[2]);
    var i3 := IndexOf(q[3]);
    if i0.None? || i1.None? then None
    else
      var x0, x1 := i0.value, i1.value;
      if last && q[2] == '=' && q[3] == '=' then
        if x1 % 16 == 0 then Some([x0 * 4 + x1 / 16]) else None
      else if i2.None? then None
      else
        var x2 := i2.value;
        if last && q[3] == '=' then
          if x2 % 4 == 0 then Some([x0 * 4 + x1 / 16, (x1 % 16) * 16 + x2 / 4]) else None
        else if i3.None? then None
        else
          var x3 := i3.value;
          Some([x0 * 4 + x1 / 16, (x1 % 16) * 16 + x2 / 4, (x2 % 4) * 64 + x3])
  }

  function Decode(s: string): (r: Option<seq<byte>>)
    decreases |s|
  {
    if |s| == 0 then Some([])
    else if |s| < 4 then None
    else
      match DecodeQuantum(s[..4], |s| == 4)
      case None => None
      case Some(head) =>
        match Decode(s[4..])
        case None => None
        case Some(tail) => Some(head + tail)
  }

  lemma GroupRoundTrip(a: byte, b: byte, c: byte)
    ensures DecodeQuantum(EncodeGroup(a, b, c), false) == Some([a, b, c])
    ensures DecodeQuantum(EncodeGroup(a, b, c), true) == Some([a, b, c])
  {
    var i0, i1, i2, i3 := a / 4, (a % 4) * 16 + b / 16, (b % 16) * 4 + c / 64, c % 64;
    IndexOfCharOf(i0);
    IndexOfCharOf(i1);
    IndexOfCharOf(i2);
    IndexOfCharOf(i3);
    assert i0 * 4 + i1 / 16 == a;
    assert (i1 % 16) * 16 + i2 / 4 == b;
    assert (i2 % 4) * 64 + i3 == c;
  }

  lemma OneRoundTrip(a: byte)
    ensures DecodeQuantum(EncodeOne(a), true) == Some([a])
  {
    IndexOfCharOf(a / 4);
    IndexOfCharOf((a % 4) * 16);
    assert ((a % 4) * 16) % 16 == 0 && (a / 4) * 4 + ((a % 4) * 16) / 16 == a;
  }

  /** The bit arithmetic of a two-octet quantum, apart from the alphabet. */
  lemma TwoArith(a: byte, b: byte)
    ensures var i0, i1, i2 := a / 4, (a % 4) * 16 + b / 16, (b % 16) * 4;
      && i2 % 4 == 0
      && i0 * 4 + i1 / 16 == a
      && (i1 % 16) * 16 + i2 / 4 == b
  {
  }

  lemma TwoRoundTrip(a: byte, b: byte)
    ensures DecodeQuantum(EncodeTwo(a, b), true) == Some([a, b])
  {
    var i0: sextet, i1: sextet, i2: sextet := a / 4, (a % 4) * 16 + b / 16, (b % 16) * 4;
    TwoArith(a, b);
    IndexOfCharOf(i0);
    IndexOfCharOf(i1);
    IndexOfCharOf(i2);
    var q := EncodeTwo(a, b);
    assert q == [CharOf(i0), CharOf(i1), CharOf(i2), '='];
  }

  /** A final quantum of four characters decodes on its own. */
  lemma LastQuantum(q: seq<char>)
    requires |q| == 4
    ensures Decode(q) == DecodeQuantum(q, true)
  {
    assert q[..4] == q;
    assert q[4..] == [];
    if DecodeQuantum(q, true).Some? {
      assert DecodeQuantum(q, true).value + [] == DecodeQuantum(q, true).value;
    }
  }

  lemma DecodeEncodeOne(bs: seq<byte>)
    requires |bs| == 1
    ensures Decode(Encode(bs)) == Some(bs)
  {
    assert Encode(bs) == EncodeOne(bs[0]);
    OneRoundTrip(bs[0]);
    LastQuantum(EncodeOne(bs[0]));
    assert bs == [bs[0]];
  }

  lemma DecodeEncodeTwo(bs: seq<byte>)
    requires |bs| == 2
    ensures Decode(Encode(bs)) == Some(bs)
  {
    assert Encode(bs) == EncodeTwo(bs[0], bs[1]);
    TwoRoundTrip(bs[0], bs[1]);
    LastQuantum(EncodeTwo(bs[0], bs[1]));
    assert bs == [bs[0], bs[1]];
  }

  /** Decoding proceeds one quantum at a time. */
  lemma DecodeStep(q: seq<char>, rest: string, head: seq<byte>, tail: seq<byte>)
    requires |q| == 4
    requires DecodeQuantum(q, |rest| == 0) == Some(head)
    requires Decode(rest) == Some(tail)
    ensures Decode(q + rest) == Some(head + tail)
  {
    var s := q + rest;
    assert s[..4] == q;
    assert s[4..] == rest;
  }

  lemma EncodeCons(bs: seq<byte>)
    requires |bs| >= 3
    ensures Encode(bs) == EncodeGroup(bs[0], bs[1], bs[2]) + Encode(bs[3..])
  {
  }

  /** A full group in front of a string that decodes. */
  lemma DecodeGroupCons(bs: seq<byte>, rest: string)
    requires |bs| >= 3
    requires Decode(rest) == Some(bs[3..])
    ensures Decode(EncodeGroup(bs[0], bs[1], bs[2]) + rest) == Some(bs)
  {
    GroupRoundTrip(bs[0], bs[1], bs[2]);
    var head := bs[..3];
    assert head == [bs[0], bs[1], bs[2]];
    DecodeStep(EncodeGroup(bs[0], bs[1], bs[2]), rest, head, bs[3..]);
    assert head + bs[3..] == bs;
  }

  /** Decoding inverts encoding: every octet string survives the round trip. */
  lemma {:induction false} DecodeEncode(bs: seq<byte>)
    ensures Decode(Encode(bs)) == Some(bs)
    decreases |bs|
  {
    if |bs| == 0 {
    } else if |bs| == 1 {
      DecodeEncodeOne(bs);
    } else if |bs| == 2 {
      DecodeEncodeTwo(bs);
    } else {
      EncodeCons(bs);
      DecodeEncode(bs[3..]);
      DecodeGroupCons(bs, Encode(bs[3..]));
    }
  }

  /** The bit arithmetic of decoding, read backwards: re-encoding the decoded
      octets gives back the sextets, when the dropped bits are zero. */
  lemma OneArithInv(x0: sextet, x1: sextet)
    requires x1 % 16 == 0
    ensures var a := x0 * 4 + x1 / 16; a / 4 == x0 && (a % 4) * 16 == x1
  {
  }

  lemma TwoArithInv(x0: sextet, x1: sextet, x2: sextet)
    requires x2 % 4 == 0
    ensures var a, b := x0 * 4 + x1 / 16, (x1 % 16) * 16 + x2 / 4;
      && a / 4 == x0
      && (a % 4) * 16 + b / 16 == x1
      && (b % 16) * 4 == x2
  {
  }

  lemma GroupArithInv(x0: sextet, x1: sextet, x2: sextet, x3: sextet)
    ensures var a, b, c := x0 * 4 + x1 / 16, (x1 % 16) * 16 + x2 / 4, (x2 % 4) * 64 + x3;
      && a / 4 == x0
      && (a % 4) * 16 + b / 16 == x1
      && (b % 16) * 4 + c / 64 == x2
      && c % 64 == x3
  {
  }

  lemma CanonicalOne(q: seq<char>, h: seq<byte>)
    requires |q| == 4 && q[2] == '=' && q[3] == '='
    requires DecodeQuantum(q, true) == Some(h)
    ensures |h| == 1 && q == EncodeOne(h[0])
  {
    var x0: int, x1: int := IndexOf(q[0]).value, IndexOf(q[1]).value;
    OneArithInv(x0, x1);
    var e: seq<int> := [x0 * 4 + x1 / 16];
    assert h == e;
  }

  lemma CanonicalTwo(q: seq<char>, h: seq<byte>)
    requires |q| == 4 && q[2] != '=' && q[3] == '='
    requires DecodeQuantum(q, true) == Some(h)
    ensures |h| == 2 && q == EncodeTwo(h[0], h[1])
  {
    var x0: int, x1: int, x2: int := IndexOf(q[0]).value, IndexOf(q[1]).value, IndexOf(q[2]).value;
    TwoArithInv(x0, x1, x2);
    var e: seq<int> := [x0 * 4 + x1 / 16, (x1 % 16) * 16 + x2 / 4];
    assert h == e;
  }

  /** Re-encoding the octets decoded from four sextets gives back their characters. */
  lemma EncodeGroupOfSextets(x0: sextet, x1: sextet, x2: sextet, x3: sextet)
    ensures EncodeGroup(x0 * 4 + x1 / 16, (x1 % 16) * 16 + x2 / 4, (x2 % 4) * 64 + x3)
         == [CharOf(x0), CharOf(x1), CharOf(x2), CharOf(x3)]
  {
    GroupArithInv(x0, x1, x2, x3);
  }

  lemma CanonicalGroup(q: seq<char>, last: bool, h: seq<byte>)
    requires |q| == 4 && (!last || (q[2] != '=' && q[3] != '='))
    requires DecodeQuantum(q, last) == Some(h)
    ensures |h| == 3 && q == EncodeGroup(h[0], h[1], h[2])
  {
    var x0: int, x1: int := IndexOf(q[0]).value, IndexOf(q[1]).value;
    var x2: int, x3: int := IndexOf(q[2]).value, IndexOf(q[3]).value;
    var e: seq<int> := [x0 * 4 + x1 / 16, (x1 % 16) * 16 + x2 / 4, (x2 % 4) * 64 + x3];
    assert h == e;
    EncodeGroupOfSextets(x0, x1, x2, x3);
    assert q == [CharOf(x0), CharOf(x1), CharOf(x2), CharOf(x3)];
  }

  /** A decodable quantum is the encoding of what it decodes to; padded
      quanta occur only last. */
  lemma QuantumCanonical(q: seq<char>, last: bool, h: seq<byte>)
    requires |q| == 4
    requires DecodeQuantum(q, last) == Some(h)
    ensures |h| == 3 ==> q == EncodeGroup(h[0], h[1], h[2])
    ensures |h| == 2 ==> last && q == EncodeTwo(h[0], h[1])
    ensures |h| == 1 ==> last && q == EncodeOne(h[0])
    ensures 1 <= |h| <= 3
  {
    if last && q[2] == '=' && q[3] == '=' {
      CanonicalOne(q, h);
    } else if last && q[3] == '=' {
      CanonicalTwo(q, h);
    } else {
      CanonicalGroup(q, last, h);
    }
  }

  /** The decoder accepts only what the encoder produces: a decodable string is
      the encoding of its decoding, so every octet string has exactly one
      base64 form. */
  lemma {:induction false} EncodeDecode(s: string)
    requires Decode(s).Some?
    ensures Encode(Decode(s).value) == s
    decreases |s|
  {
    if |s| == 0 {
    } else {
      var q, rest := s[..4], s[4..];
      assert s == q + rest;
      var head := DecodeQuantum(q, |s| == 4).value;
      var tail := Decode(rest).value;
      QuantumCanonical(q, |s| == 4, head);
      EncodeDecode(rest);
      var bs := head + tail;
      if |head| == 3 {
        assert bs[3..] == tail;
        assert [bs[0], bs[1], bs[2]] == head;
      } else {
        assert rest == [] && tail == [];
        assert bs == head;
      }
    }
  }
}
