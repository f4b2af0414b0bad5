/** `base64.b64encode`: the base 64 encoding of section 4 of RFC 4648, with
    the standard alphabet and '=' padding, and the decoder that inverts it. */
module Base64 {
  import opened Wrappers
  import opened Bits
  import opened Packing

  /** The value of a 6-bit group as a character of the standard alphabet
      (Table 1 of RFC 4648). */
  function CharOf(i: nat): (c: char)
    requires i < 64
    ensures c != '='
    ensures i < 26 <==> 'A' <= c <= 'Z'
    ensures 26 <= i < 52 <==> 'a' <= c <= 'z'
    ensures 52 <= i < 62 <==> '0' <= c <= '9'
    ensures i == 62 <==> c == '+'
    ensures i == 63 <==> c == '/'
  {
    if i < 26 then ('A' as int + i) as char
    else if i < 52 then ('a' as int + i - 26) as char
    else if i < 62 then ('0' as int + i - 52) as char
    else if i == 62 then '+'
    else '/'
  }

  /** The 6-bit value of an alphabet character; `None` for any other
      character. */
  function IndexOf(c: char): (r: Option<nat>)
    ensures r.Some? ==> r.value < 64 && CharOf(r.value) == c
  {
    if 'A' <= c <= 'Z' then Some(c as int - 'A' as int)
    else if 'a' <= c <= 'z' then Some(c as int - 'a' as int + 26)
    else if '0' <= c <= '9' then Some(c as int - '0' as int + 52)
    else if c == '+' then Some(62)
    else if c == '/' then Some(63)
    else None
  }

  lemma IndexOfCharOf(i: nat)
    requires i < 64
    ensures IndexOf(CharOf(i)) == Some(i)
  {
  }

  /** Three bytes as four characters. */
  function EncodeGroup(b0: Byte, b1: Byte, b2: Byte): string {
    [CharOf(b0 / 4), CharOf((b0 % 4) * 16 + b1 / 16), CharOf((b1 % 16) * 4 + b2 / 64), CharOf(b2 % 64)]
  }

  /** The encoding: every three bytes become four characters; a final one or
      two bytes are zero-filled to a whole character and padded with '=' to
      four characters. */
  function Encode(bytes: seq<Byte>): (s: string)
    ensures |s| == 4 * ((|bytes| + 2) / 3)
    decreases |bytes|
  {
    if |bytes| == 0 then []
    else if |bytes| == 1 then
      [CharOf(bytes[0] / 4), CharOf((bytes[0] % 4) * 16), '=', '=']
    else if |bytes| == 2 then
      [CharOf(bytes[0] / 4), CharOf((bytes[0] % 4) * 16 + bytes[1] / 16), CharOf((bytes[1] % 16) * 4), '=']
    else
      EncodeGroup(bytes[0], bytes[1], bytes[2]) + Encode(bytes[3..])
  }

  lemma SmallPowers()
    ensures Pow2(2) == 4 && Pow2(4) == 16 && Pow2(6) == 64
  {
    assert Pow2(1) == 2 && Pow2(3) == 8 && Pow2(5) == 32;
  }

  lemma ZeroBits()
    ensures ToBits(0, 2) == "00" && ToBits(0, 4) == "0000"
  {
    assert ToBits(0, 1) == "0" && ToBits(0, 3) == "000";
  }

  /** A byte's 8 bits cut after 6 bits. */
  lemma SplitSixTwo(b: Byte)
    ensures ToBits(b, 8) == ToBits(b / 4, 6) + ToBits(b % 4, 2)
  {
    SmallPowers();
    var p := Pow2(2);
    assert b % 4 < p && b == (b / 4) * p + b % 4;
    ToBitsSplit(b, b / 4, b % 4, 6, 2);
  }

  /** A byte's 8 bits cut after 4 bits. */
  lemma SplitFourFour(b: Byte)
    ensures ToBits(b, 8) == ToBits(b / 16, 4) + ToBits(b % 16, 4)
  {
    SmallPowers();
    var p := Pow2(4);
    assert b % 16 < p && b == (b / 16) * p + b % 16;
    ToBitsSplit(b, b / 16, b % 16, 4, 4);
  }

  /** A byte's 8 bits cut after 2 bits. */
  lemma SplitTwoSix(b: Byte)
    ensures ToBits(b, 8) == ToBits(b / 64, 2) + ToBits(b % 64, 6)
  {
    SmallPowers();
    var p := Pow2(6);
    assert b % 64 < p && b == (b / 64) * p + b % 64;
    ToBitsSplit(b, b / 64, b % 64, 2, 6);
  }

  /** A 6-bit value built from a 2-bit and a 4-bit part renders as the two
      parts one after the other. */
  lemma JoinTwoFour(x: nat, y: nat)
    requires x < 4 && y < 16
    ensures ToBits(x * 16 + y, 6) == ToBits(x, 2) + ToBits(y, 4)
  {
    SmallPowers();
    var p := Pow2(4);
    assert y < p && x * 16 + y == x * p + y;
    ToBitsSplit(x * 16 + y, x, y, 2, 4);
  }

  /** A 6-bit value built from a 4-bit and a 2-bit part renders as the two
      parts one after the other. */
  lemma JoinFourTwo(x: nat, y: nat)
    requires x < 16 && y < 4
    ensures ToBits(x * 4 + y, 6) == ToBits(x, 4) + ToBits(y, 2)
  {
    SmallPowers();
    var p := Pow2(2);
    assert y < p && x * 4 + y == x * p + y;
    ToBitsSplit(x * 4 + y, x, y, 4, 2);
  }

  lemma Regroup(a: string, p: string, q: string, r: string, s: string, d: string, x: string, y: string)
    requires x == p + q && y == r + s
    ensures a + x + y + d == (a + p) + (q + r) + (s + d)
  {
  }

  lemma RegroupPadded(a: string, p: string, q: string, r: string, z: string, x: string, y: string)
    requires x == p + q && y == r + z
    ensures a + x + y == (a + p) + (q + r) + z
  {
  }

  /** The regrouping of section 4 of RFC 4648: the 24 bits of three bytes,
      most significant first, are the 24 bits of the four 6-bit values that
      `EncodeGroup` writes as characters. */
  lemma GroupBits(b0: Byte, b1: Byte, b2: Byte)
    ensures ToBits(b0 / 4, 6) + ToBits((b0 % 4) * 16 + b1 / 16, 6)
          + ToBits((b1 % 16) * 4 + b2 / 64, 6) + ToBits(b2 % 64, 6)
         == ToBits(b0, 8) + ToBits(b1, 8) + ToBits(b2, 8)
  {
    var a, p := ToBits(b0 / 4, 6), ToBits(b0 % 4, 2);
    var q, r := ToBits(b1 / 16, 4), ToBits(b1 % 16, 4);
    var s, d := ToBits(b2 / 64, 2), ToBits(b2 % 64, 6);
    var x, y := ToBits((b0 % 4) * 16 + b1 / 16, 6), ToBits((b1 % 16) * 4 + b2 / 64, 6);
    assert x == p + q by { JoinTwoFour(b0 % 4, b1 / 16); }
    assert y == r + s by { JoinFourTwo(b1 % 16, b2 / 64); }
    assert ToBits(b0, 8) == a + p by { SplitSixTwo(b0); }
    assert ToBits(b1, 8) == q + r by { SplitFourFour(b1); }
    assert ToBits(b2, 8) == s + d by { SplitTwoSix(b2); }
    Regroup(a, p, q, r, s, d, x, y);
  }

  /** A final single byte: its 8 bits, filled with four zero bits, are the
      two 6-bit values written before the padding "==". */
  lemma OneByteBits(b0: Byte)
    ensures ToBits(b0 / 4, 6) + ToBits((b0 % 4) * 16, 6) == ToBits(b0, 8) + "0000"
  {
    var a, p := ToBits(b0 / 4, 6), ToBits(b0 % 4, 2);
    ZeroBits();
    SplitSixTwo(b0);
    JoinTwoFour(b0 % 4, 0);
    assert ToBits((b0 % 4) * 16, 6) == p + "0000";
    assert a + (p + "0000") == (a + p) + "0000";
  }

  /** A final pair of bytes: their 16 bits, filled with two zero bits, are
      the three 6-bit values written before the padding "=". */
  lemma TwoBytesBits(b0: Byte, b1: Byte)
    ensures ToBits(b0 / 4, 6) + ToBits((b0 % 4) * 16 + b1 / 16, 6) + ToBits((b1 % 16) * 4, 6)
         == ToBits(b0, 8) + ToBits(b1, 8) + "00"
  {
    var a, p := ToBits(b0 / 4, 6), ToBits(b0 % 4, 2);
    var q, r := ToBits(b1 / 16, 4), ToBits(b1 % 16, 4);
    var x, y := ToBits((b0 % 4) * 16 + b1 / 16, 6), ToBits((b1 % 16) * 4, 6);
    assert x == p + q by { JoinTwoFour(b0 % 4, b1 / 16); }
    assert y == r + "00" by { ZeroBits(); JoinFourTwo(b1 % 16, 0); }
    assert ToBits(b0, 8) == a + p by { SplitSixTwo(b0); }
    assert ToBits(b1, 8) == q + r by { SplitFourFour(b1); }
    RegroupPadded(a, p, q, r, "00", x, y);
  }

  /** Four characters without padding as three bytes. */
  function DecodeGroup(q: string): (r: Option<seq<Byte>>)
    requires |q| == 4
    ensures r.Some? ==> |r.value| == 3
  {
    match (IndexOf(q[0]), IndexOf(q[1]), IndexOf(q[2]), IndexOf(q[3]))
    case (Some(c0), Some(c1), Some(c2), Some(c3)) =>
      Some([c0 * 4 + c1 / 16, (c1 % 16) * 16 + c2 / 4, (c2 % 4) * 64 + c3])
    case _ => None
  }

  /** The last four characters, where one or two '=' may stand for missing
      bytes. */
  function DecodeLast(q: string): (r: Option<seq<Byte>>)
    requires |q| == 4
    ensures r.Some? ==> 1 <= |r.value| <= 3
  {
    if q[2] == '=' && q[3] == '=' then
      match (IndexOf(q[0]), IndexOf(q[1]))
      case (Some(c0), Some(c1)) => Some([c0 * 4 + c1 / 16])
      case _ => None
    else if q[3] == '=' then
      match (IndexOf(q[0]), IndexOf(q[1]), IndexOf(q[2]))
      case (Some(c0), Some(c1), Some(c2)) => Some([c0 * 4 + c1 / 16, (c1 % 16) * 16 + c2 / 4])
      case _ => None
    else
      DecodeGroup(q)
  }

  /** The decoding; `None` for text that is not a whole number of
      four-character groups over the alphabet, with padding only at the end. */
  function Decode(s: string): (r: Option<seq<Byte>>)
    decreases |s|
  {
    if |s| == 0 then Some([])
    else if |s| < 4 then None
    else if |s| == 4 then DecodeLast(s)
    else
      match (DecodeGroup(s[..4]), Decode(s[4..]))
      case (Some(g), Some(rest)) => Some(g + rest)
      case _ => None
  }

  lemma DecodeEncodeGroup(b0: Byte, b1: Byte, b2: Byte)
    ensures DecodeGroup(EncodeGroup(b0, b1, b2)) == Some([b0, b1, b2])
  {
    var c0, c1, c2, c3 := b0 / 4, (b0 % 4) * 16 + b1 / 16, (b1 % 16) * 4 + b2 / 64, b2 % 64;
    IndexOfCharOf(c0);
    IndexOfCharOf(c1);
    IndexOfCharOf(c2);
    IndexOfCharOf(c3);
    assert c1 / 16 == b0 % 4 && c1 % 16 == b1 / 16;
    assert c2 / 4 == b1 % 16 && c2 % 4 == b2 / 64;
  }

  lemma DecodeEncodeOne(b0: Byte)
    ensures Decode(Encode([b0])) == Some([b0])
  {
    IndexOfCharOf(b0 / 4);
    IndexOfCharOf((b0 % 4) * 16);
  }

  lemma DecodeEncodeTwo(b0: Byte, b1: Byte)
    ensures Decode(Encode([b0, b1])) == Some([b0, b1])
  {
    var c1 := (b0 % 4) * 16 + b1 / 16;
    IndexOfCharOf(b0 / 4);
    IndexOfCharOf(c1);
    IndexOfCharOf((b1 % 16) * 4);
    assert c1 / 16 == b0 % 4 && c1 % 16 == b1 / 16;
    assert (b1 % 16) * 4 / 4 == b1 % 16;
  }

  /** Decoding the encoding gives back the bytes. */
  lemma {:induction false} DecodeEncode(bytes: seq<Byte>)
    ensures Decode(Encode(bytes)) == Some(bytes)
    decreases |bytes|
  {
    if |bytes| == 1 {
      DecodeEncodeOne(bytes[0]);
      assert bytes == [bytes[0]];
    } else if |bytes| == 2 {
      DecodeEncodeTwo(bytes[0], bytes[1]);
      assert bytes == [bytes[0], bytes[1]];
    } else if |bytes| >= 3 {
      var s := Encode(bytes);
      var group := EncodeGroup(bytes[0], bytes[1], bytes[2]);
      DecodeEncodeGroup(bytes[0], bytes[1], bytes[2]);
      assert s == group + Encode(bytes[3..]);
      assert bytes == [bytes[0], bytes[1], bytes[2]] + bytes[3..];
      if |bytes| == 3 {
        assert bytes[3..] == [];
        assert s == group && s[3] != '=';
        assert Decode(s) == DecodeGroup(group);
        assert bytes == [bytes[0], bytes[1], bytes[2]];
      } else {
        DecodeEncode(bytes[3..]);
        assert s[..4] == group;
        assert s[4..] == Encode(bytes[3..]);
      }
    }
  }
}
