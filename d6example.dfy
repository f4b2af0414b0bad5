/** The rolls [1, 2, 3, 4, 5, 6] of a six-sided die, worked through the
    pipeline: 14 bits, two bytes (the second from a partial chunk of 6 bits),
    four characters of base 64 text. */
module D6Example {
  import opened Bits
  import opened Packing
  import Base64
  import Rolldice

  lemma FirstThreeBits()
    ensures BinaryString([1, 2, 3]) == "11011"
  {
    BinaryStringAppend([], 1);
    assert [] + [1] == [1];
    BinaryStringAppend([1], 2);
    assert [1] + [2] == [1, 2];
    BinaryStringAppend([1, 2], 3);
    assert [1, 2] + [3] == [1, 2, 3];
  }

  lemma FourBits()
    ensures BinaryString([1, 2, 3, 4]) == "11011100"
  {
    FirstThreeBits();
    BinaryStringAppend([1, 2, 3], 4);
    assert [1, 2, 3] + [4] == [1, 2, 3, 4];
    assert Bin(4) == "100";
  }

  lemma FiveBits()
    ensures BinaryString([1, 2, 3, 4, 5]) == "11011100101"
  {
    FourBits();
    BinaryStringAppend([1, 2, 3, 4], 5);
    assert [1, 2, 3, 4] + [5] == [1, 2, 3, 4, 5];
    assert Bin(5) == "101";
  }

  lemma AllBits()
    ensures BinaryString([1, 2, 3, 4, 5, 6]) == "11011100101110"
  {
    FiveBits();
    BinaryStringAppend([1, 2, 3, 4, 5], 6);
    assert [1, 2, 3, 4, 5] + [6] == [1, 2, 3, 4, 5, 6];
    assert Bin(6) == "110";
  }

  lemma TwoChunks()
    ensures Chunks("11011100101110") == ["11011100", "101110"]
  {
    var bits := "11011100101110";
    assert bits[..8] == "11011100" && bits[8..] == "101110";
  }

  lemma FirstByte()
    ensures ValueOf("11011100") == 0xDC
  {
    assert ToBits(0xDC, 8) == "11011100";
    ValueOfToBits(0xDC, 8);
  }

  lemma SecondByte()
    ensures ValueOf("101110") == 0x2E
  {
    assert ToBits(0x2E, 6) == "101110";
    ValueOfToBits(0x2E, 6);
  }

  lemma TwoBytes()
    ensures Pack("11011100101110") == [0xDC, 0x2E]
  {
    var bits := "11011100101110";
    TwoChunks();
    FirstByte();
    SecondByte();
    var bytes := Pack(bits);
    assert |bytes| == 2;
    assert bytes[0] == ByteOf("11011100") && bytes[1] == ByteOf("101110");
  }

  lemma FourCharacters()
    ensures Base64.Encode([0xDC, 0x2E]) == "3C4="
  {
  }

  lemma Pipeline()
    ensures BinaryString([1, 2, 3, 4, 5, 6]) == "11011100101110"
    ensures Packing.GetBytes([1, 2, 3, 4, 5, 6]) == [0xDC, 0x2E]
    ensures Rolldice.Output([1, 2, 3, 4, 5, 6]) == "3C4="
  {
    AllBits();
    TwoBytes();
    FourCharacters();
  }
}
