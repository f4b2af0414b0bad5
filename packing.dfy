/** The byte packing of `Dice.get_bytes`: every roll becomes its minimal
    binary form, the forms are joined in roll order, the joined bit string is
    cut into 8-bit chunks from the front and each chunk is read as an
    unsigned number. A trailing chunk shorter than 8 bits is kept, as the
    value of its own bits (right-aligned), so a string of B bits packs into
    ceil(B/8) bytes. */
module Packing {
  import opened Bits

  type Byte = b: int | 0 <= b < 256

  predicate AllPositive(rolls: seq<int>) {
    forall i :: 0 <= i < |rolls| ==> rolls[i] >= 1
  }

  function Min(a: int, b: int): int {
    if a <= b then a else b
  }

  /** `''.join(parts)` */
  function Concat(parts: seq<string>): (s: string)
    ensures (forall i :: 0 <= i < |parts| ==> IsBitString(parts[i])) ==> IsBitString(s)
  {
    if parts == [] then [] else parts[0] + Concat(parts[1..])
  }

  lemma {:induction false} ConcatAppend(a: seq<string>, b: seq<string>)
    ensures Concat(a + b) == Concat(a) + Concat(b)
  {
    if a != [] {
      assert (a + b)[1..] == a[1..] + b;
      ConcatAppend(a[1..], b);
    } else {
      assert a + b == b;
    }
  }

  /** `''.join([bin(_)[2:] for _ in rolls])` */
  function BinaryString(rolls: seq<int>): (bits: string)
    requires AllPositive(rolls)
    ensures IsBitString(bits)
    ensures bits == [] <==> rolls == []
    ensures rolls != [] ==> bits[0] == '1'
  {
    Concat(seq(|rolls|, i requires 0 <= i < |rolls| => Bin(rolls[i])))
  }

  /** Appending a roll appends its minimal binary form to the bit string:
      the forms stand in roll order. */
  lemma BinaryStringAppend(rolls: seq<int>, v: int)
    requires AllPositive(rolls) && v >= 1
    ensures AllPositive(rolls + [v])
    ensures BinaryString(rolls + [v]) == BinaryString(rolls) + Bin(v)
  {
    var forms := seq(|rolls|, i requires 0 <= i < |rolls| => Bin(rolls[i]));
    var rolls' := rolls + [v];
    var forms' := seq(|rolls'|, i requires 0 <= i < |rolls'| => Bin(rolls'[i]));
    assert forms' == forms + [Bin(v)];
    ConcatAppend(forms, [Bin(v)]);
    assert Concat([Bin(v)]) == Bin(v);
  }

  /** The width of the last chunk of a string of `total` bits: `total % 8`,
      or 8 when that is zero. */
  function LastWidth(total: nat): (w: nat)
    ensures 1 <= w <= 8
  {
    if total % 8 == 0 then 8 else total % 8
  }

  /** The 8-bit chunks of `s`, cut from the front; the last one holds what
      is left and may be shorter. */
  function Chunks(s: string): (chunks: seq<string>)
    ensures |chunks| == (|s| + 7) / 8
    ensures forall i :: 0 <= i < |chunks| ==> 1 <= |chunks[i]| <= 8
    ensures forall i :: 0 <= i < |chunks| - 1 ==> |chunks[i]| == 8
    ensures IsBitString(s) ==> forall i :: 0 <= i < |chunks| ==> IsBitString(chunks[i])
    decreases |s|
  {
    if |s| <= 8 then (if s == [] then [] else [s])
    else [s[..8]] + Chunks(s[8..])
  }

  /** The last chunk holds `|s| % 8` bits, or 8 when that is zero. */
  lemma {:induction false} LastChunkWidth(s: string)
    ensures s != [] ==> |Chunks(s)[|Chunks(s)| - 1]| == LastWidth(|s|)
    decreases |s|
  {
    if |s| > 8 {
      var rest := s[8..];
      LastChunkWidth(rest);
      LastOfCons(s);
      LastWidthStep(|s|);
    } else if s != [] {
      assert Chunks(s) == [s];
    }
  }

  lemma LastOfCons(s: string)
    requires |s| > 8
    ensures Chunks(s[8..]) != [] && Chunks(s)[|Chunks(s)| - 1] == Chunks(s[8..])[|Chunks(s[8..])| - 1]
  {
    assert Chunks(s) == [s[..8]] + Chunks(s[8..]);
  }

  lemma LastWidthStep(n: nat)
    requires n > 8
    ensures LastWidth(n - 8) == LastWidth(n)
  {
  }

  /** Chunk `i` is `s[8 * i : 8 * i + 8]`, the slice the comprehension
      `[s[i:i + 8] for i in range(0, len(s), 8)]` takes. */
  lemma {:induction false} ChunkAt(s: string, i: nat)
    requires i < |Chunks(s)|
    ensures Chunks(s)[i] == s[8 * i .. Min(8 * i + 8, |s|)]
    decreases i
  {
    if i == 0 {
      FirstChunk(s);
    } else {
      var rest := s[8..];
      LaterChunk(s, i);
      ChunkAt(rest, i - 1);
      var lo, hi := 8 * (i - 1), Min(8 * (i - 1) + 8, |rest|);
      assert 8 + lo == 8 * i && 8 + hi == Min(8 * i + 8, |s|);
      SliceOfSuffix(s, 8, lo, hi);
    }
  }

  lemma FirstChunk(s: string)
    requires s != []
    ensures Chunks(s)[0] == s[..Min(8, |s|)]
  {
  }

  lemma LaterChunk(s: string, i: nat)
    requires 0 < i < |Chunks(s)|
    ensures |s| > 8 && i - 1 < |Chunks(s[8..])| && Chunks(s)[i] == Chunks(s[8..])[i - 1]
  {
  }

  lemma SliceOfSuffix(s: string, k: nat, lo: nat, hi: nat)
    requires k <= |s| && lo <= hi <= |s| - k
    ensures s[k..][lo..hi] == s[k + lo..k + hi]
  {
  }

  /** Joining the chunks gives back the bit string. */
  lemma {:induction false} ConcatChunks(s: string)
    ensures Concat(Chunks(s)) == s
    decreases |s|
  {
    if |s| > 8 {
      var rest := s[8..];
      ConcatChunks(rest);
      assert Chunks(s)[0] == s[..8] && Chunks(s)[1..] == Chunks(rest);
      assert s == s[..8] + rest;
    } else if s != [] {
      assert Chunks(s) == [s];
      assert Concat([s]) == s + Concat([]);
    }
  }

  /** `int(chunk, 2)` for one chunk of at most 8 bits. */
  function ByteOf(chunk: string): (b: Byte)
    requires IsBitString(chunk) && |chunk| <= 8
    ensures b == ValueOf(chunk) && b < Pow2(|chunk|)
  {
    Pow2Monotone(|chunk|, 8);
    ValueOf(chunk)
  }

  /** `bytes([int(chunk, 2) for chunk in Chunks(bits)])`: ceil(B/8) bytes,
      the last of them below 2^k when it comes from a partial chunk of k
      bits. */
  function Pack(bits: string): (bytes: seq<Byte>)
    requires IsBitString(bits)
    ensures |bytes| == (|bits| + 7) / 8
    ensures bytes == [] <==> bits == []
    ensures bytes != [] ==> bytes[|bytes| - 1] < Pow2(LastWidth(|bits|))
  {
    var chunks := Chunks(bits);
    LastChunkWidth(bits);
    seq(|chunks|, i requires 0 <= i < |chunks| => ByteOf(chunks[i]))
  }

  lemma PackCons(bits: string)
    requires IsBitString(bits) && |bits| > 8
    ensures Pack(bits) == [ByteOf(bits[..8])] + Pack(bits[8..])
  {
  }

  /** Rewrites packed bytes as bits: each byte but the last in exactly 8
      bits, the last in `lastWidth` bits. */
  function Unpack(bytes: seq<Byte>, lastWidth: nat): (bits: string)
    ensures IsBitString(bits)
  {
    if bytes == [] then []
    else if |bytes| == 1 then ToBits(bytes[0], lastWidth)
    else ToBits(bytes[0], 8) + Unpack(bytes[1..], lastWidth)
  }

  lemma UnpackCons(b: Byte, bytes: seq<Byte>, lastWidth: nat)
    requires bytes != []
    ensures Unpack([b] + bytes, lastWidth) == ToBits(b, 8) + Unpack(bytes, lastWidth)
  {
    assert ([b] + bytes)[1..] == bytes;
  }

  /** Unpacking with the width of the last chunk reproduces the bit string:
      no bit is lost, the trailing partial chunk included. */
  lemma {:induction false} UnpackPack(bits: string)
    requires IsBitString(bits)
    ensures Unpack(Pack(bits), LastWidth(|bits|)) == bits
    decreases |bits|
  {
    if |bits| > 8 {
      var head, rest := bits[..8], bits[8..];
      var w := LastWidth(|bits|);
      LastWidthStep(|bits|);
      PackCons(bits);
      UnpackCons(ByteOf(head), Pack(rest), w);
      ToBitsOfValueOf(head);
      UnpackPack(rest);
      assert Unpack(Pack(bits), w) == head + rest;
      assert bits == head + rest;
    } else if bits != [] {
      UnpackPackShort(bits);
    }
  }

  /** A string of at most 8 bits packs into one byte that renders back in
      its own width. */
  lemma UnpackPackShort(bits: string)
    requires IsBitString(bits) && 1 <= |bits| <= 8
    ensures Unpack(Pack(bits), LastWidth(|bits|)) == bits
  {
    assert Chunks(bits) == [bits];
    assert Pack(bits) == [ByteOf(bits)];
    assert LastWidth(|bits|) == |bits|;
    ToBitsOfValueOf(bits);
  }

  /** `Dice.get_bytes` on a roll sequence. */
  function GetBytes(rolls: seq<int>): (bytes: seq<Byte>)
    requires AllPositive(rolls)
    ensures |bytes| == (|BinaryString(rolls)| + 7) / 8
    ensures Unpack(bytes, LastWidth(|BinaryString(rolls)|)) == BinaryString(rolls)
    ensures rolls == [] ==> bytes == []
    ensures bytes != [] ==> bytes[|bytes| - 1] < Pow2(LastWidth(|BinaryString(rolls)|))
  {
    var bits := BinaryString(rolls);
    UnpackPack(bits);
    Pack(bits)
  }
}
