/** How `dice_throws` reads one line of rolls: commas become spaces, the line
    is split on whitespace as `str.split()` does with no argument, and every
    token is read with `int()`. */
module Tokens {
  import opened Wrappers

  /** The characters `str.isspace` accepts, hence the separators of
      `str.split()`. */
  predicate IsSpace(c: char)
    ensures IsSpace(c) ==> c != ',' && !('0' <= c <= '9') && c != '+' && c != '-'
  {
    c == ' ' || '\t' <= c <= '\r' || '\U{001c}' <= c <= '\U{001f}'
    || c == '\U{0085}' || c == '\U{00a0}' || c == '\U{1680}'
    || '\U{2000}' <= c <= '\U{200a}' || c == '\U{2028}' || c == '\U{2029}'
    || c == '\U{202f}' || c == '\U{205f}' || c == '\U{3000}'
  }

  /** A token: a non-empty run of characters none of which is whitespace. */
  predicate IsToken(t: string) {
    |t| >= 1 && forall i :: 0 <= i < |t| ==> !IsSpace(t[i])
  }

  predicate AllSpace(s: string) {
    forall i :: 0 <= i < |s| ==> IsSpace(s[i])
  }

  /** `s.replace(",", " ")` */
  function ReplaceCommas(s: string): (r: string)
    ensures |r| == |s|
    ensures forall i :: 0 <= i < |s| ==> r[i] == (if s[i] == ',' then ' ' else s[i])
    ensures forall i :: 0 <= i < |r| ==> r[i] != ','
  {
    if s == [] then [] else [if s[0] == ',' then ' ' else s[0]] + ReplaceCommas(s[1..])
  }

  /** The length of the run of non-whitespace characters that starts `s`. */
  function WordLength(s: string): (n: nat)
    ensures n <= |s|
    ensures forall i :: 0 <= i < n ==> !IsSpace(s[i])
    ensures n < |s| ==> IsSpace(s[n])
  {
    if s == [] || IsSpace(s[0]) then 0 else 1 + WordLength(s[1..])
  }

  /** `s.split()`: the maximal runs of non-whitespace characters, in order. */
  function Split(s: string): (tokens: seq<string>)
    ensures forall i :: 0 <= i < |tokens| ==> IsToken(tokens[i])
    ensures forall i, k :: 0 <= i < |tokens| && 0 <= k < |tokens[i]| ==> tokens[i][k] in s
    decreases |s|
  {
    if s == [] then []
    else if IsSpace(s[0]) then Split(s[1..])
    else
      var n := WordLength(s);
      assert forall c :: c in s[n..] ==> c in s;
      [s[..n]] + Split(s[n..])
  }

  /** A string of whitespace alone holds no token. */
  lemma {:induction false} SplitAllSpace(s: string)
    requires AllSpace(s)
    ensures Split(s) == []
  {
    if s != [] {
      SplitAllSpace(s[1..]);
    }
  }

  /** A single token splits into itself. */
  lemma SplitToken(t: string)
    requires IsToken(t)
    ensures Split(t) == [t]
  {
    WordLengthOfToken(t);
    assert t[..|t|] == t && t[|t|..] == [];
    assert Split(t) == [t] + Split([]);
  }

  lemma {:induction false} WordLengthOfToken(t: string)
    requires forall i :: 0 <= i < |t| ==> !IsSpace(t[i])
    ensures WordLength(t) == |t|
  {
    if t != [] {
      WordLengthOfToken(t[1..]);
    }
  }

  /** A whitespace character never falls inside a word. */
  lemma {:induction false} WordLengthBeforeSpace(a: string, c: char, b: string)
    requires IsSpace(c)
    ensures WordLength(a + [c] + b) == WordLength(a)
  {
    if a == [] {
    } else if !IsSpace(a[0]) {
      assert (a + [c] + b)[1..] == a[1..] + [c] + b;
      WordLengthBeforeSpace(a[1..], c, b);
    }
  }

  /** Whitespace separates: splitting at a whitespace character and splitting
      the two sides agree. With SplitToken and SplitAllSpace this fixes the
      result of `Split` on every string. */
  lemma {:induction false} SplitSeparated(a: string, c: char, b: string)
    requires IsSpace(c)
    ensures Split(a + [c] + b) == Split(a) + Split(b)
    decreases |a|
  {
    var s := a + [c] + b;
    if a == [] {
      assert s[1..] == b;
    } else if IsSpace(a[0]) {
      assert s[1..] == a[1..] + [c] + b;
      SplitSeparated(a[1..], c, b);
    } else {
      var n := WordLength(a);
      WordLengthBeforeSpace(a, c, b);
      assert s[..n] == a[..n];
      assert s[n..] == a[n..] + [c] + b;
      SplitSeparated(a[n..], c, b);
    }
  }

  predicate IsDecimal(d: string) {
    |d| >= 1 && forall i :: 0 <= i < |d| ==> '0' <= d[i] <= '9'
  }

  /** The value of a string of decimal digits, most significant first. */
  function DecimalValue(d: string): nat
    requires forall i :: 0 <= i < |d| ==> '0' <= d[i] <= '9'
  {
    if d == [] then 0 else 10 * DecimalValue(d[..|d| - 1]) + (d[|d| - 1] as int - '0' as int)
  }

  /** `int(t)` for a token made of an optional sign followed by decimal
      digits; `None` (a `ValueError` in the program) for any other token. */
  function ParseInt(t: string): (r: Option<int>)
    ensures r.Some? <==> IsDecimal(t) || (|t| >= 1 && (t[0] == '+' || t[0] == '-') && IsDecimal(t[1..]))
  {
    if IsDecimal(t) then Some(DecimalValue(t))
    else if |t| >= 1 && t[0] == '+' && IsDecimal(t[1..]) then Some(DecimalValue(t[1..]))
    else if |t| >= 1 && t[0] == '-' && IsDecimal(t[1..]) then Some(-(DecimalValue(t[1..]) as int))
    else None
  }

  /** The decimal rendering of a natural number: a reference inverse of
      `int()`, used to state its round trip. */
  function Decimal(n: nat): (d: string)
    ensures IsDecimal(d)
  {
    if n < 10 then [('0' as int + n) as char] else Decimal(n / 10) + [('0' as int + n % 10) as char]
  }

  lemma {:induction false} DecimalValueOfDecimal(n: nat)
    ensures DecimalValue(Decimal(n)) == n
  {
    if n >= 10 {
      DecimalValueOfDecimal(n / 10);
      var d := Decimal(n);
      assert d[..|d| - 1] == Decimal(n / 10);
    }
  }

  /** `int()` reads back the decimal rendering of every integer `v`. */
  lemma ParseIntDecimal(v: int)
    ensures v >= 0 ==> ParseInt(Decimal(v)) == Some(v)
    ensures v < 0 ==> ParseInt("-" + Decimal(-v)) == Some(v)
  {
    if v >= 0 {
      DecimalValueOfDecimal(v);
    } else {
      DecimalValueOfDecimal(-v);
      var t := "-" + Decimal(-v);
      assert t[1..] == Decimal(-v);
      assert !IsDecimal(t) by { assert t[0] == '-'; }
    }
  }

  /** `[int(num) for num in tokens]`; `None` as soon as one token is not a
      number. */
  function ParseAll(tokens: seq<string>): (r: Option<seq<int>>)
    ensures r.Some? <==> forall i :: 0 <= i < |tokens| ==> ParseInt(tokens[i]).Some?
    ensures r.Some? ==> |r.value| == |tokens|
    ensures r.Some? ==> forall i :: 0 <= i < |tokens| ==> ParseInt(tokens[i]) == Some(r.value[i])
  {
    if tokens == [] then Some([])
    else
      match (ParseInt(tokens[0]), ParseAll(tokens[1..]))
      case (Some(v), Some(vs)) => Some([v] + vs)
      case _ => None
  }

  /** `line.replace(",", " ").split()`: the tokens of one input line, none
      of them empty and none holding a comma or whitespace. */
  function Tokenize(line: string): (tokens: seq<string>)
    ensures forall i :: 0 <= i < |tokens| ==> IsToken(tokens[i]) && ',' !in tokens[i]
  {
    var s := ReplaceCommas(line);
    var tokens := Split(s);
    tokens
  }

  /** One input line of `dice_throws` as the numbers it holds. */
  function ParseLine(line: string): (r: Option<seq<int>>)
    ensures r.Some? <==> forall i :: 0 <= i < |Tokenize(line)| ==> ParseInt(Tokenize(line)[i]).Some?
    ensures r.Some? ==> |r.value| == |Tokenize(line)|
  {
    ParseAll(Tokenize(line))
  }
}
