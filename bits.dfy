/** Bit strings as Python renders them: text over the characters '0' and '1',
    most significant bit first. */
module Bits {

  predicate IsBitString(s: string) {
    forall i :: 0 <= i < |s| ==> s[i] == '0' || s[i] == '1'
  }

  function Pow2(k: nat): (r: nat)
    ensures r >= 1
  {
    if k == 0 then 1 else 2 * Pow2(k - 1)
  }

  lemma {:induction false} Pow2Monotone(j: nat, k: nat)
    requires j <= k
    ensures Pow2(j) <= Pow2(k)
  {
    if j < k {
      Pow2Monotone(j, k - 1);
    }
  }

  function Digit(b: nat): (c: char)
    requires b < 2
    ensures c == '0' || c == '1'
  {
    if b == 0 then '0' else '1'
  }

  function DigitValue(c: char): (b: nat)
    ensures b < 2
    ensures c == '0' || c == '1' ==> Digit(b) == c
  {
    if c == '1' then 1 else 0
  }

  /** `bin(v)[2:]`: the minimal binary form of `v`, with no leading zeros
      ("0" for zero). */
  function Bin(v: nat): (s: string)
    ensures IsBitString(s) && |s| >= 1
    ensures v >= 1 ==> s[0] == '1'
  {
    if v < 2 then [Digit(v)] else Bin(v / 2) + [Digit(v % 2)]
  }

  /** `int(s, 2)`: the unsigned value of a bit string read most significant
      bit first. */
  function ValueOf(s: string): (v: nat)
    requires IsBitString(s)
    ensures v < Pow2(|s|)
  {
    if s == [] then 0 else 2 * ValueOf(s[..|s| - 1]) + DigitValue(s[|s| - 1])
  }

  /** The `k`-bit rendering of `v`, zero-padded on the left. */
  function ToBits(v: nat, k: nat): (s: string)
    ensures IsBitString(s) && |s| == k
  {
    if k == 0 then [] else ToBits(v / 2, k - 1) + [Digit(v % 2)]
  }

  /** A bit string whose first bit is 1 has a value of at least 2^(|s|-1). */
  lemma {:induction false} LeadingOneValue(s: string)
    requires IsBitString(s) && |s| >= 1 && s[0] == '1'
    ensures ValueOf(s) >= Pow2(|s| - 1)
  {
    if |s| > 1 {
      var p := s[..|s| - 1];
      assert p[0] == '1';
      LeadingOneValue(p);
    }
  }

  /** Reading back the minimal binary form gives the number. */
  lemma {:induction false} ValueOfBin(v: nat)
    ensures ValueOf(Bin(v)) == v
  {
    if v >= 2 {
      ValueOfBin(v / 2);
      var s := Bin(v);
      assert s[..|s| - 1] == Bin(v / 2);
    }
  }

  /** The minimal binary form of the value of a bit string that starts with 1
      is that bit string: the form is unique. */
  lemma {:induction false} BinOfValueOf(s: string)
    requires IsBitString(s) && |s| >= 1 && s[0] == '1'
    ensures Bin(ValueOf(s)) == s
  {
    if |s| > 1 {
      var p := s[..|s| - 1];
      assert p[0] == '1';
      BinOfValueOf(p);
      LeadingOneValue(p);
      var v := ValueOf(s);
      assert v / 2 == ValueOf(p) && v % 2 == DigitValue(s[|s| - 1]);
      assert s == p + [s[|s| - 1]];
    }
  }

  /** `len(bin(v)[2:])` is floor(log2 v) + 1: the one width `w` with
      2^(w-1) <= v < 2^w. */
  lemma BinLength(v: nat)
    requires v >= 1
    ensures Pow2(|Bin(v)| - 1) <= v < Pow2(|Bin(v)|)
  {
    ValueOfBin(v);
    LeadingOneValue(Bin(v));
  }

  /** Rendering a value in `k` bits and reading it back gives the value. */
  lemma {:induction false} ValueOfToBits(v: nat, k: nat)
    requires v < Pow2(k)
    ensures ValueOf(ToBits(v, k)) == v
  {
    if k > 0 {
      ValueOfToBits(v / 2, k - 1);
      var s := ToBits(v, k);
      assert s[..k - 1] == ToBits(v / 2, k - 1);
    }
  }

  /** Rendering the value of a bit string in its own width gives it back,
      leading zeros included. */
  lemma {:induction false} ToBitsOfValueOf(s: string)
    requires IsBitString(s)
    ensures ToBits(ValueOf(s), |s|) == s
  {
    if s != [] {
      var p := s[..|s| - 1];
      ToBitsOfValueOf(p);
      var v := ValueOf(s);
      assert v / 2 == ValueOf(p) && v % 2 == DigitValue(s[|s| - 1]);
      assert s == p + [s[|s| - 1]];
    }
  }

  /** Quotient and remainder are the unique pair that rebuilds `v`. */
  lemma DivModUnique(v: nat, d: nat, a: nat, m: nat)
    requires d > 0 && v == d * a + m && m < d
    ensures v / d == a && v % d == m
  {
    var a', m' := v / d, v % d;
    assert d * a' + m' == v;
    MulBound(d, a - a');
    assert d * (a - a') == d * a - d * a';
  }

  /** A nonzero multiple of `d` is at least `d` away from zero. */
  lemma MulBound(d: nat, n: int)
    requires d > 0
    ensures n >= 1 ==> d * n >= d
    ensures n <= -1 ==> d * n + d <= 0
  {
    if n >= 1 {
      MulAtLeast(d, n);
    } else if n <= -1 {
      MulAtLeast(d, -n);
      assert d * n == -(d * -n);
    }
  }

  lemma {:induction false} MulAtLeast(d: nat, n: nat)
    requires n >= 1
    ensures d * n >= d
  {
    if n > 1 {
      MulAtLeast(d, n - 1);
      assert d * n == d * (n - 1) + d;
    }
  }

  /** Halving `h * 2^k + l`, with `l` below 2^k, halves the low part and
      keeps its parity. */
  lemma HalfSplit(v: nat, h: nat, l: nat, k: nat)
    requires k > 0 && l < Pow2(k) && v == h * Pow2(k) + l
    ensures v / 2 == h * Pow2(k - 1) + l / 2 && v % 2 == l % 2
    ensures l / 2 < Pow2(k - 1)
  {
    var p := Pow2(k - 1);
    assert h * Pow2(k) == 2 * (h * p);
    DivModUnique(v, 2, h * p + l / 2, l % 2);
  }

  /** The `j + k`-bit rendering of `v == h * 2^k + l`, with `l` below 2^k,
      is the `j`-bit rendering of the high part `h` followed by the `k`-bit
      rendering of the low part `l`. */
  lemma {:induction false} ToBitsSplit(v: nat, h: nat, l: nat, j: nat, k: nat)
    requires l < Pow2(k) && v == h * Pow2(k) + l
    ensures ToBits(v, j + k) == ToBits(h, j) + ToBits(l, k)
  {
    if k == 0 {
      assert v == h;
    } else {
      HalfSplit(v, h, l, k);
      ToBitsSplit(v / 2, h, l / 2, j, k - 1);
      ToBitsStep(v, j + k);
      ToBitsStep(l, k);
      AppendAssoc(ToBits(h, j), ToBits(l / 2, k - 1), [Digit(l % 2)]);
    }
  }

  /** One step of the rendering: the last bit is the parity. */
  lemma ToBitsStep(v: nat, k: nat)
    requires k > 0
    ensures ToBits(v, k) == ToBits(v / 2, k - 1) + [Digit(v % 2)]
  {
  }

  lemma AppendAssoc(a: string, b: string, c: string)
    ensures (a + b) + c == a + (b + c)
  {
  }
}
