/** The die, its roll sequence, and the two ways the program fills it: a
    fixed number of automatic rolls (`simulate_dice_throws`) and rolls typed
    in line by line (`dice_throws`). */
module Rolldice {
  import opened Wrappers
  import opened Bits
  import opened Packing
  import Base64
  import Tokens

  predicate InRange(numSides: int, v: int) {
    1 <= v <= numSides
  }

  predicate AllInRange(numSides: int, rolls: seq<int>) {
    forall i :: 0 <= i < |rolls| ==> InRange(numSides, rolls[i])
  }

  /** A die with a fixed number of sides and the rolls made with it so far. */
  class Dice {
    const numSides: int
    var rolls: seq<int>

    /** Every roll kept is a face of the die. */
    ghost predicate Valid()
      reads this
    {
      AllInRange(numSides, rolls)
    }

    constructor (numSides: int)
      ensures this.numSides == numSides && rolls == [] && Valid()
    {
      this.numSides := numSides;
      rolls := [];
    }

    /** `roll_dice(value)`: keeps `value` when it is a face of the die and
        otherwise leaves the rolls alone; with no value, draws a face of the
        die (the secure random draw is a nondeterministic choice here). */
    method RollDice(value: Option<int>)
      requires Valid()
      requires value.None? ==> numSides >= 1
      modifies this
      ensures Valid()
      ensures value.Some? && InRange(numSides, value.value) ==> rolls == old(rolls) + [value.value]
      ensures value.Some? && !InRange(numSides, value.value) ==> rolls == old(rolls)
      ensures value.None? ==> |rolls| == |old(rolls)| + 1 && rolls[..|old(rolls)|] == old(rolls)
    {
      var v: int;
      if value.None? {
        v :| 1 <= v <= numSides;
      } else {
        v := value.value;
      }
      if v < 1 || v > numSides {
        return;
      }
      rolls := rolls + [v];
    }

    /** `get_bytes()`: the packed rolls; reads the rolls and changes nothing. */
    method GetBytes() returns (bytes: seq<Byte>)
      requires Valid()
      ensures bytes == Packing.GetBytes(rolls)
    {
      bytes := Packing.GetBytes(rolls);
    }
  }

  /** The base 64 text the program prints for a roll sequence. */
  function Output(rolls: seq<int>): (b64: string)
    requires AllPositive(rolls)
    ensures |b64| == 4 * ((|Packing.GetBytes(rolls)| + 2) / 3)
    ensures Base64.Decode(b64) == Some(Packing.GetBytes(rolls))
  {
    var bytes := Packing.GetBytes(rolls);
    Base64.DecodeEncode(bytes);
    Base64.Encode(bytes)
  }

  /** `simulate_dice_throws` with the roll count given: exactly
      `numDiceRolls` automatic rolls, packed and base 64 encoded. The rolls
      drawn are returned beside the text. */
  method SimulateDiceThrows(numSides: int, numDiceRolls: nat) returns (b64: string, rolls: seq<int>)
    requires numDiceRolls > 0 ==> numSides >= 1
    ensures |rolls| == numDiceRolls && AllInRange(numSides, rolls)
    ensures b64 == Output(rolls)
  {
    var d := new Dice(numSides);
    for i := 0 to numDiceRolls
      invariant d.Valid() && |d.rolls| == i
    {
      d.RollDice(None);
    }
    var bytes := d.GetBytes();
    b64 := Base64.Encode(bytes);
    rolls := d.rolls;
  }

  /** The in-order filter of entered values to the faces of the die: what
      `roll_dice` keeps of them. */
  function Accepted(numSides: int, values: seq<int>): (rolls: seq<int>)
    ensures AllInRange(numSides, rolls) && |rolls| <= |values|
  {
    if values == [] then []
    else
      var last := values[|values| - 1];
      Accepted(numSides, values[..|values| - 1]) + (if InRange(numSides, last) then [last] else [])
  }

  lemma {:induction false} AcceptedAppend(numSides: int, a: seq<int>, b: seq<int>)
    ensures Accepted(numSides, a + b) == Accepted(numSides, a) + Accepted(numSides, b)
    decreases |b|
  {
    if b == [] {
      assert a + b == a;
    } else {
      var b' := b[..|b| - 1];
      assert (a + b)[..|a + b| - 1] == a + b';
      AcceptedAppend(numSides, a, b');
    }
  }

  /** A value is kept exactly when it was entered and is a face of the die. */
  lemma {:induction false} AcceptedMembers(numSides: int, values: seq<int>, v: int)
    ensures v in Accepted(numSides, values) <==> v in values && InRange(numSides, v)
  {
    if values != [] {
      var init := values[..|values| - 1];
      AcceptedMembers(numSides, init, v);
      assert values == init + [values[|values| - 1]];
    }
  }

  /** Why `dice_throws` ends without output: the input ran out (`input()`
      raises `EOFError`) or a token was not a number (`int()` raises
      `ValueError`). */
  datatype InputError = EndOfInput | MalformedInput

  /** The state when the collection loop stops: the rolls kept and how many
      input lines were read. */
  datatype Collected = Collected(rolls: seq<int>, linesRead: nat)

  /** The collection loop of `dice_throws` as a function: while fewer than
      `needed` rolls are kept, read the next line and feed all of its values
      to `roll_dice`. */
  function Collect(numSides: int, needed: nat, lines: seq<string>, rolls: seq<int>): (r: Result<Collected, InputError>)
    requires AllInRange(numSides, rolls)
    ensures r.Ok? ==> AllInRange(numSides, r.value.rolls) && |r.value.rolls| >= needed
    ensures r.Ok? ==> r.value.linesRead <= |lines|
    decreases |lines|
  {
    if |rolls| >= needed then Ok(Collected(rolls, 0))
    else if lines == [] then Err(EndOfInput)
    else
      match Tokens.ParseLine(lines[0])
      case None => Err(MalformedInput)
      case Some(values) =>
        var more := Accepted(numSides, values);
        Shifted(Collect(numSides, needed, lines[1..], rolls + more), 1)
  }

  /** The same outcome with `k` more lines read before it. */
  function Shifted(r: Result<Collected, InputError>, k: nat): (r': Result<Collected, InputError>)
    ensures r'.Ok? <==> r.Ok?
    ensures r.Ok? ==> r'.value.rolls == r.value.rolls && r'.value.linesRead == r.value.linesRead + k
    ensures r.Err? ==> r' == r
  {
    match r
    case Ok(c) => Ok(Collected(c.rolls, c.linesRead + k))
    case Err(e) => Err(e)
  }

  /** The values entered on `lines`, in order; `None` if a line holds a token
      that is not a number. */
  function Entered(lines: seq<string>): (r: Option<seq<int>>)
    ensures r.Some? <==> forall i :: 0 <= i < |lines| ==> Tokens.ParseLine(lines[i]).Some?
  {
    if lines == [] then Some([])
    else
      match (Tokens.ParseLine(lines[0]), Entered(lines[1..]))
      case (Some(vs), Some(rest)) => Some(vs + rest)
      case _ => None
  }

  lemma EnteredPrefix(lines: seq<string>, k: nat, values: seq<int>)
    requires 0 < k <= |lines| && Tokens.ParseLine(lines[0]) == Some(values)
    ensures Entered(lines[..k]).Some? <==> Entered(lines[1..][..k - 1]).Some?
    ensures Entered(lines[..k]).Some? ==> Entered(lines[..k]).value == values + Entered(lines[1..][..k - 1]).value
  {
    var p := lines[..k];
    assert p[0] == lines[0] && p[1..] == lines[1..][..k - 1];
  }

  /** The rolls kept after the first `k` lines: the accepted values of the
      first line, then those of the `k - 1` lines after it. */
  lemma PrefixRolls(numSides: int, lines: seq<string>, rolls: seq<int>, values: seq<int>, k: nat)
    requires 0 < k <= |lines| && Tokens.ParseLine(lines[0]) == Some(values)
    requires Entered(lines[1..][..k - 1]).Some?
    ensures Entered(lines[..k]).Some?
    ensures rolls + Accepted(numSides, Entered(lines[..k]).value)
         == (rolls + Accepted(numSides, values)) + Accepted(numSides, Entered(lines[1..][..k - 1]).value)
  {
    EnteredPrefix(lines, k, values);
    var later := Entered(lines[1..][..k - 1]).value;
    assert Entered(lines[..k]).value == values + later;
    AcceptedAppend(numSides, values, later);
    var a, b := Accepted(numSides, values), Accepted(numSides, later);
    assert rolls + (a + b) == (rolls + a) + b;
  }

  /** One step of the loop: a line read while rolls are still missing. */
  lemma CollectUnfold(numSides: int, needed: nat, lines: seq<string>, rolls: seq<int>, values: seq<int>)
    requires AllInRange(numSides, rolls) && |rolls| < needed && lines != []
    requires Tokens.ParseLine(lines[0]) == Some(values)
    ensures AllInRange(numSides, rolls + Accepted(numSides, values))
    ensures Collect(numSides, needed, lines, rolls)
         == Shifted(Collect(numSides, needed, lines[1..], rolls + Accepted(numSides, values)), 1)
  {
  }

  /** When collection succeeds after reading `k` lines, those lines parse and
      the rolls are the accepted values of everything entered on them, in
      order. */
  lemma {:induction false} CollectOk(numSides: int, needed: nat, lines: seq<string>, rolls: seq<int>)
    requires AllInRange(numSides, rolls)
    requires Collect(numSides, needed, lines, rolls).Ok?
    ensures var c := Collect(numSides, needed, lines, rolls).value;
      && c.linesRead <= |lines|
      && Entered(lines[..c.linesRead]).Some?
      && c.rolls == rolls + Accepted(numSides, Entered(lines[..c.linesRead]).value)
    decreases |lines|
  {
    if |rolls| >= needed {
      assert lines[..0] == [];
    } else {
      var values := Tokens.ParseLine(lines[0]).value;
      var more := Accepted(numSides, values);
      var tail := lines[1..];
      CollectUnfold(numSides, needed, lines, rolls, values);
      var inner := Collect(numSides, needed, tail, rolls + more);
      CollectOk(numSides, needed, tail, rolls + more);
      var k := inner.value.linesRead;
      assert Collect(numSides, needed, lines, rolls).value == Collected(inner.value.rolls, k + 1);
      PrefixRolls(numSides, lines, rolls, values, k + 1);
    }
  }

  /** The loop stops as soon as it can: before the last line it read there
      were still too few rolls. That line is fed whole, so the rolls may
      overshoot the count. */
  lemma {:induction false} CollectStopsEarly(numSides: int, needed: nat, lines: seq<string>, rolls: seq<int>)
    requires AllInRange(numSides, rolls)
    requires Collect(numSides, needed, lines, rolls).Ok?
    ensures var k := Collect(numSides, needed, lines, rolls).value.linesRead;
      k > 0 ==>
        && Entered(lines[..k - 1]).Some?
        && |rolls + Accepted(numSides, Entered(lines[..k - 1]).value)| < needed
    decreases |lines|
  {
    if |rolls| < needed {
      var values := Tokens.ParseLine(lines[0]).value;
      var more := Accepted(numSides, values);
      var tail := lines[1..];
      CollectUnfold(numSides, needed, lines, rolls, values);
      var inner := Collect(numSides, needed, tail, rolls + more);
      CollectStopsEarly(numSides, needed, tail, rolls + more);
      var k := inner.value.linesRead;
      assert Collect(numSides, needed, lines, rolls).value.linesRead == k + 1;
      if k > 0 {
        PrefixRolls(numSides, lines, rolls, values, k);
      } else {
        assert lines[..0] == [];
      }
    }
  }

  /** Collection fails for want of input exactly when every line parses and
      all of them together still give too few rolls. */
  lemma {:induction false} CollectEndOfInput(numSides: int, needed: nat, lines: seq<string>, rolls: seq<int>)
    requires AllInRange(numSides, rolls)
    ensures Collect(numSides, needed, lines, rolls) == Err(EndOfInput) <==>
      Entered(lines).Some? && |rolls + Accepted(numSides, Entered(lines).value)| < needed
    decreases |lines|
  {
    if lines != [] && |rolls| < needed {
      match Tokens.ParseLine(lines[0])
      case None =>
      case Some(values) =>
        var more := Accepted(numSides, values);
        CollectEndOfInput(numSides, needed, lines[1..], rolls + more);
        if Entered(lines[1..]).Some? {
          AcceptedAppend(numSides, values, Entered(lines[1..]).value);
        }
    }
  }

  /** Collection ends normally whenever some first `k` lines all parse and
      give enough rolls: the loop never reports an error for input that
      would have completed it. */
  lemma {:induction false} CollectSucceeds(numSides: int, needed: nat, lines: seq<string>, rolls: seq<int>, k: nat)
    requires AllInRange(numSides, rolls) && k <= |lines|
    requires Entered(lines[..k]).Some?
    requires |rolls + Accepted(numSides, Entered(lines[..k]).value)| >= needed
    ensures Collect(numSides, needed, lines, rolls).Ok?
    decreases k
  {
    if |rolls| < needed {
      NothingEntered(numSides, lines);
      var prefix := lines[..k];
      assert prefix[0] == lines[0];
      var values := Tokens.ParseLine(lines[0]).value;
      var more := Accepted(numSides, values);
      CollectUnfold(numSides, needed, lines, rolls, values);
      EnteredPrefix(lines, k, values);
      PrefixRolls(numSides, lines, rolls, values, k);
      CollectSucceeds(numSides, needed, lines[1..], rolls + more, k - 1);
    }
  }

  /** No lines read: nothing entered and nothing kept. */
  lemma NothingEntered(numSides: int, lines: seq<string>)
    ensures Entered(lines[..0]) == Some([]) && Accepted(numSides, []) == []
  {
    assert lines[..0] == [];
  }

  /** The inner loop of `dice_throws`: every value of one line goes to
      `roll_dice`, which keeps the faces of the die. */
  method FeedLine(d: Dice, values: seq<int>)
    requires d.Valid()
    modifies d
    ensures d.Valid()
    ensures d.rolls == old(d.rolls) + Accepted(d.numSides, values)
  {
    for j := 0 to |values|
      invariant d.Valid()
      invariant d.rolls == old(d.rolls) + Accepted(d.numSides, values[..j])
    {
      d.RollDice(Some(values[j]));
      assert values[..j + 1][..j] == values[..j];
    }
    assert values[..|values|] == values;
  }

  /** Reading line `next` of the input moves the loop on by one line. */
  lemma CollectNextLine(numSides: int, needed: nat, lines: seq<string>, next: nat, rolls: seq<int>, values: seq<int>)
    requires AllInRange(numSides, rolls) && next < |lines| && |rolls| < needed
    requires Tokens.ParseLine(lines[next]) == Some(values)
    ensures AllInRange(numSides, rolls + Accepted(numSides, values))
    ensures Shifted(Collect(numSides, needed, lines[next..], rolls), next)
         == Shifted(Collect(numSides, needed, lines[next + 1..], rolls + Accepted(numSides, values)), next + 1)
  {
    var rest := lines[next..];
    assert rest[0] == lines[next] && rest[1..] == lines[next + 1..];
    var after := Collect(numSides, needed, rest[1..], rolls + Accepted(numSides, values));
    assert Collect(numSides, needed, rest, rolls) == Shifted(after, 1);
    ShiftedTwice(after, 1, next);
  }

  lemma ShiftedTwice(r: Result<Collected, InputError>, j: nat, k: nat)
    ensures Shifted(Shifted(r, j), k) == Shifted(r, j + k)
  {
  }

  /** `dice_throws` with the side count and roll count given and the input
      lines supplied: the base 64 text of the collected rolls, or the error
      that ends the program. */
  method DiceThrows(numSides: int, numberOfRolls: nat, lines: seq<string>) returns (r: Result<string, InputError>)
    ensures var c := Collect(numSides, numberOfRolls, lines, []);
      && (c.Ok? ==> r == Ok(Output(c.value.rolls)))
      && (c.Err? ==> r == Err(c.error))
  {
    ghost var outcome := Collect(numSides, numberOfRolls, lines, []);
    var d := new Dice(numSides);
    var next := 0;
    assert lines[0..] == lines;
    while |d.rolls| < numberOfRolls
      invariant d.Valid() && d.numSides == numSides && next <= |lines|
      invariant outcome == Shifted(Collect(numSides, numberOfRolls, lines[next..], d.rolls), next)
      decreases |lines| - next
    {
      if next == |lines| {
        assert lines[next..] == [];
        return Err(EndOfInput);
      }
      var values := Tokens.ParseLine(lines[next]);
      if values.None? {
        assert lines[next..][0] == lines[next];
        return Err(MalformedInput);
      }
      CollectNextLine(numSides, numberOfRolls, lines, next, d.rolls, values.value);
      FeedLine(d, values.value);
      next := next + 1;
    }
    var bytes := d.GetBytes();
    r := Ok(Base64.Encode(bytes));
  }
}
