/**
 * One linear feedback shift register of the Geffe generator. The register keeps
 * its cells as a list of the integers 0 and 1; each step emits the first cell,
 * shifts left and appends the XOR of the tapped cells of the state before the
 * shift. The value-level functions below specify what the `Lfsr` class does.
 */
module ShiftRegister {
  import opened Wrappers

  /** A register cell, which the source stores as the Python int 0 or 1. */
  type Bit = b: int | 0 <= b <= 1

  /** Python's `^` on two cells. */
  function Xor(a: Bit, b: Bit): (r: Bit)
    ensures r == (a + b) % 2
  {
    if a == b then 0 else 1
  }

  /** The character a cell is written as. */
  function BitChar(b: Bit): char {
    if b == 1 then '1' else '0'
  }

  /** The register written as a bit string, one character per cell. */
  function Render(bits: seq<Bit>): (s: string)
    ensures |s| == |bits|
    ensures forall i :: 0 <= i < |bits| ==> s[i] == BitChar(bits[i])
  {
    if bits == [] then "" else [BitChar(bits[0])] + Render(bits[1..])
  }

  /** Reads a bit string back into cells; `None` at the first character that is not a bit. */
  function ParseBits(s: string): Option<seq<Bit>> {
    if s == [] then Some([])
    else if s[0] != '0' && s[0] != '1' then None
    else
      match ParseBits(s[1..])
      case None => None
      case Some(rest) => Some([if s[0] == '1' then 1 else 0] + rest)
  }

  /** A rendering can be read back as exactly the cells it was made from. */
  lemma {:induction false} ParseRender(bits: seq<Bit>)
    ensures ParseBits(Render(bits)) == Some(bits)
  {
    if bits != [] {
      ParseRender(bits[1..]);
      var s := Render(bits);
      assert s[1..] == Render(bits[1..]);
      assert [bits[0]] + bits[1..] == bits;
    }
  }

  /** A bit string that parses is the rendering of what it parses to. */
  lemma {:induction false} RenderParse(s: string)
    requires ParseBits(s).Some?
    ensures Render(ParseBits(s).value) == s
  {
    if s != [] {
      RenderParse(s[1..]);
    }
  }

  /** Every tap names a cell of a register of the given width. */
  predicate TapsFit(taps: seq<nat>, width: nat) {
    forall i :: 0 <= i < |taps| ==> taps[i] < width
  }

  /** The number of taps that see a 1: an order-free reference for the feedback bit. */
  function TappedOnes(state: seq<Bit>, taps: seq<nat>): nat
    requires TapsFit(taps, |state|)
  {
    if taps == [] then 0 else state[taps[0]] + TappedOnes(state, taps[1..])
  }

  lemma {:induction false} TappedOnesAppend(state: seq<Bit>, taps: seq<nat>, t: nat)
    requires TapsFit(taps, |state|) && t < |state|
    ensures TappedOnes(state, taps + [t]) == TappedOnes(state, taps) + state[t]
  {
    if taps != [] {
      assert (taps + [t])[1..] == taps[1..] + [t];
      TappedOnesAppend(state, taps[1..], t);
    }
  }

  /**
   * The feedback bit: starting from 0, XOR in the cell at each tap in order, as
   * the step loop accumulates it. It is the parity of the tapped cells holding 1,
   * so the order of the taps does not matter.
   */
  function Feedback(state: seq<Bit>, taps: seq<nat>): (b: Bit)
    requires TapsFit(taps, |state|)
    ensures b == TappedOnes(state, taps) % 2
  {
    if taps == [] then 0
    else
      var init, last := taps[..|taps| - 1], taps[|taps| - 1];
      assert taps == init + [last];
      TappedOnesAppend(state, init, last);
      Xor(Feedback(state, init), state[last])
  }

  predicate AllZero(state: seq<Bit>) {
    forall i :: 0 <= i < |state| ==> state[i] == 0
  }

  /** An all-zero register feeds back 0, whatever its taps. */
  lemma {:induction false} FeedbackOfZero(state: seq<Bit>, taps: seq<nat>)
    requires TapsFit(taps, |state|) && AllZero(state)
    ensures Feedback(state, taps) == 0
  {
    if taps != [] {
      FeedbackOfZero(state, taps[..|taps| - 1]);
    }
  }

  /** The state after one step: drop the first cell, append the feedback bit. */
  function Next(state: seq<Bit>, taps: seq<nat>): (r: seq<Bit>)
    requires |state| > 0 && TapsFit(taps, |state|)
    ensures |r| == |state|
  {
    state[1..] + [Feedback(state, taps)]
  }

  /** The state after `n` steps. */
  function Run(state: seq<Bit>, taps: seq<nat>, n: nat): (r: seq<Bit>)
    requires |state| > 0 && TapsFit(taps, |state|)
    ensures |r| == |state|
    decreases n
  {
    if n == 0 then state else Run(Next(state, taps), taps, n - 1)
  }

  /** The output bits of `n` steps: the first cell of each state before its step. */
  function Outputs(state: seq<Bit>, taps: seq<nat>, n: nat): (r: seq<Bit>)
    requires |state| > 0 && TapsFit(taps, |state|)
    ensures |r| == n
    decreases n
  {
    if n == 0 then [] else [state[0]] + Outputs(Next(state, taps), taps, n - 1)
  }

  /** One more step after `n` steps is the `n + 1`-st state. */
  lemma {:induction false} RunSucc(state: seq<Bit>, taps: seq<nat>, n: nat)
    requires |state| > 0 && TapsFit(taps, |state|)
    ensures Run(state, taps, n + 1) == Next(Run(state, taps, n), taps)
    decreases n
  {
    if n > 0 {
      RunSucc(Next(state, taps), taps, n - 1);
    }
  }

  /** The output of step `n + 1` is the first cell of the state after `n` steps. */
  lemma {:induction false} OutputsSucc(state: seq<Bit>, taps: seq<nat>, n: nat)
    requires |state| > 0 && TapsFit(taps, |state|)
    ensures Outputs(state, taps, n + 1) == Outputs(state, taps, n) + [Run(state, taps, n)[0]]
    decreases n
  {
    if n > 0 {
      OutputsSucc(Next(state, taps), taps, n - 1);
    }
  }

  /** The `i`-th output bit is the first cell of the state after `i` steps. */
  lemma {:induction false} OutputAt(state: seq<Bit>, taps: seq<nat>, n: nat, i: nat)
    requires |state| > 0 && TapsFit(taps, |state|) && i < n
    ensures Outputs(state, taps, n)[i] == Run(state, taps, i)[0]
    decreases n
  {
    if i > 0 {
      OutputAt(Next(state, taps), taps, n - 1, i - 1);
    }
  }

  /** An all-zero state is a fixed point: every step emits 0 and leaves it all-zero. */
  lemma {:induction false} ZeroIsFixedPoint(state: seq<Bit>, taps: seq<nat>, n: nat)
    requires |state| > 0 && TapsFit(taps, |state|) && AllZero(state)
    ensures Run(state, taps, n) == state
    ensures forall i :: 0 <= i < n ==> Outputs(state, taps, n)[i] == 0
  {
    FeedbackOfZero(state, taps);
    assert Next(state, taps) == state;
    if n > 0 {
      ZeroIsFixedPoint(state, taps, n - 1);
    }
  }

  /** The first step of the first register: taps `[0, 1]` on `0100`. */
  lemma KnownAnswerStep()
    ensures Feedback([0, 1, 0, 0], [0, 1]) == 1
    ensures Next([0, 1, 0, 0], [0, 1]) == [1, 0, 0, 1]
    ensures Render([1, 0, 0, 1]) == "1001"
  {
    assert [0, 1][..1] == [0];
    assert [0, 1, 0, 0][1..] == [1, 0, 0];
  }

  /** A register: its taps, its name, and the cells that each step replaces. */
  class Lfsr {
    const taps: seq<nat>
    const name: string
    var state: seq<Bit>

    /** A register can step when it has a cell and every tap names one. */
    predicate Valid()
      reads this
    {
      |state| > 0 && TapsFit(taps, |state|)
    }

    /** The state is a copy of the initial vector (sequences are values). */
    constructor (taps: seq<nat>, initState: seq<Bit>, name: string)
      ensures this.taps == taps && this.name == name && state == initState
    {
      this.taps := taps;
      this.name := name;
      state := initState;
    }

    /**
     * One step: returns the rendering of the old and the new state and the output
     * bit, which is the first cell before the shift.
     */
    method Step() returns (oldState: string, newState: string, output: Bit)
      requires Valid()
      modifies this
      ensures Valid()
      ensures output == old(state)[0]
      ensures state == Next(old(state), taps)
      ensures oldState == Render(old(state)) && newState == Render(state)
    {
      oldState := Render(state);
      output := state[0];
      var newBit: Bit := 0;
      for k := 0 to |taps|
        invariant newBit == Feedback(state, taps[..k])
      {
        assert taps[..k + 1][..k] == taps[..k];
        newBit := Xor(newBit, state[taps[k]]);
      }
      assert taps[..|taps|] == taps;
      state := state[1..] + [newBit];
      newState := Render(state);
    }

    /** The current state as a bit string, which reads back as the state itself. */
    function GetState(): (s: string)
      reads this
      ensures ParseBits(s) == Some(state)
      ensures |s| == |state|
    {
      ParseRender(state);
      Render(state)
    }
  }
}
