/**
 * The Geffe generator: three registers stepped in lockstep, a selector that takes
 * the second generator's bit when the control bit is 1 and the first generator's
 * bit otherwise, and a stream cipher that XORs the resulting keystream into the
 * plaintext digit by digit.
 */
module Geffe {
  import opened Wrappers
  import opened ShiftRegister

  const InitR0: seq<Bit> := [0, 1, 0, 0]
  const InitR1: seq<Bit> := [0, 1, 1, 1]
  const InitCtrl: seq<Bit> := [0, 1, 1, 0]

  const TapsR0: seq<nat> := [0, 1]
  const TapsR1: seq<nat> := [0, 3]
  const TapsCtrl: seq<nat> := [0, 1, 2, 3]

  const Plaintext: string := "1011010010011101"

  /** The number of iterations of `range(steps)`, which is empty for `steps <= 0`. */
  function Count(steps: int): (r: nat)
    ensures r >= steps && (r == steps || r == 0)
  {
    if steps > 0 then steps else 0
  }

  // ---------------------------------------------------------------------------
  // Plaintext normalisation: whitespace stripped from both ends, then every
  // space character removed

  /** Python's `str.isspace` for a single character. */
  predicate IsSpace(c: char)
    ensures c == ' ' || c == '\t' || c == '\n' || c == '\r' ==> IsSpace(c)
    ensures IsSpace(c) ==> c != '0' && c != '1'
  {
    var k := c as int;
    (0x09 <= k <= 0x0D) || (0x1C <= k <= 0x20) || k == 0x85 || k == 0xA0 || k == 0x1680 ||
    (0x2000 <= k <= 0x200A) || k == 0x2028 || k == 0x2029 || k == 0x202F || k == 0x205F || k == 0x3000
  }

  /** Removes leading whitespace: exactly the whitespace before the first other character. */
  function StripLeft(s: string): (r: string)
    ensures r == [] || !IsSpace(r[0])
    ensures |r| <= |s| && r == s[|s| - |r|..]
    ensures forall i :: 0 <= i < |s| - |r| ==> IsSpace(s[i])
  {
    if s != [] && IsSpace(s[0]) then StripLeft(s[1..]) else s
  }

  /** Removes trailing whitespace: exactly the whitespace after the last other character. */
  function StripRight(s: string): (r: string)
    ensures r == [] || !IsSpace(r[|r| - 1])
    ensures |r| <= |s| && r == s[..|r|]
    ensures forall i :: |r| <= i < |s| ==> IsSpace(s[i])
  {
    if s != [] && IsSpace(s[|s| - 1]) then StripRight(s[..|s| - 1]) else s
  }

  /** `str.strip()`: neither end of the result is whitespace. */
  function Strip(s: string): (r: string)
    ensures r == [] || (!IsSpace(r[0]) && !IsSpace(r[|r| - 1]))
  {
    var left := StripLeft(s);
    var r := StripRight(left);
    assert r != [] ==> r[0] == left[0];
    r
  }

  /**
   * What `Strip` keeps is the piece of `s` that starts at `k`, and everything it
   * cuts away on either side is whitespace.
   */
  lemma StripTrimsWhitespace(s: string) returns (k: nat)
    ensures k + |Strip(s)| <= |s| && Strip(s) == s[k..k + |Strip(s)|]
    ensures forall i :: 0 <= i < k ==> IsSpace(s[i])
    ensures forall i :: k + |Strip(s)| <= i < |s| ==> IsSpace(s[i])
  {
    var left := StripLeft(s);
    var r := Strip(s);
    k := |s| - |left|;
    assert left == s[k..];
    assert r == left[..|r|];
    forall i | k + |r| <= i < |s|
      ensures IsSpace(s[i])
    {
      assert s[i] == left[i - k];
    }
  }

  /** `str.replace(' ', '')`: no space is left, and a text without spaces is unchanged. */
  function RemoveSpaces(s: string): (r: string)
    ensures forall i :: 0 <= i < |r| ==> r[i] != ' '
    ensures s != [] && s[0] != ' ' ==> r != [] && r[0] == s[0]
    ensures s != [] && s[|s| - 1] != ' ' ==> r != [] && r[|r| - 1] == s[|s| - 1]
    ensures (forall i :: 0 <= i < |s| ==> s[i] != ' ') ==> r == s
  {
    if s == [] then []
    else if s[0] == ' ' then RemoveSpaces(s[1..])
    else [s[0]] + RemoveSpaces(s[1..])
  }

  /** Every character other than the space is kept as often as it occurs in `s`. */
  lemma {:induction false} RemoveSpacesKeepsOthers(s: string)
    ensures forall c :: c != ' ' ==> multiset(RemoveSpaces(s))[c] == multiset(s)[c]
  {
    if s != [] {
      RemoveSpacesKeepsOthers(s[1..]);
      assert s == [s[0]] + s[1..];
    }
  }

  /** Removing spaces works piece by piece, so what is kept stays in the order of `s`. */
  lemma {:induction false} RemoveSpacesAppend(a: string, b: string)
    ensures RemoveSpaces(a + b) == RemoveSpaces(a) + RemoveSpaces(b)
  {
    if a == [] {
      assert a + b == b;
    } else {
      assert (a + b)[1..] == a[1..] + b;
      RemoveSpacesAppend(a[1..], b);
    }
  }

  /**
   * The plaintext as the generator reads it: no space anywhere, no whitespace at
   * either end, and a text without whitespace left as it is.
   */
  function Normalize(s: string): (r: string)
    ensures forall i :: 0 <= i < |r| ==> r[i] != ' '
    ensures r == [] || (!IsSpace(r[0]) && !IsSpace(r[|r| - 1]))
    ensures (forall i :: 0 <= i < |s| ==> !IsSpace(s[i])) ==> r == s
  {
    RemoveSpaces(Strip(s))
  }

  /** Normalising removes whitespace only: every other character keeps its count. */
  lemma NormalizeKeepsOthers(s: string)
    ensures forall c :: !IsSpace(c) ==> multiset(Normalize(s))[c] == multiset(s)[c]
  {
    var r := Strip(s);
    var k := StripTrimsWhitespace(s);
    var front, back := s[..k], s[k + |r|..];
    SplitAround(s, k, k + |r|);
    OthersAcrossWhitespace(front, r, back);
    RemoveSpacesKeepsOthers(r);
  }

  lemma SplitAround(s: string, i: nat, j: nat)
    requires i <= j <= |s|
    ensures s == s[..i] + s[i..j] + s[j..]
  {
    assert s == s[..i] + s[i..];
    assert s[i..] == s[i..j] + s[j..];
  }

  /** Whitespace around a text adds nothing but whitespace. */
  lemma OthersAcrossWhitespace(front: string, mid: string, back: string)
    requires forall i :: 0 <= i < |front| ==> IsSpace(front[i])
    requires forall i :: 0 <= i < |back| ==> IsSpace(back[i])
    ensures forall c :: !IsSpace(c) ==> multiset(front + mid + back)[c] == multiset(mid)[c]
  {
    forall c | !IsSpace(c)
      ensures multiset(front + mid + back)[c] == multiset(mid)[c]
    {
      WhitespaceHasNone(front, c);
      WhitespaceHasNone(back, c);
    }
  }

  /** A run of whitespace contains no character that is not whitespace. */
  lemma {:induction false} WhitespaceHasNone(t: string, c: char)
    requires forall i :: 0 <= i < |t| ==> IsSpace(t[i])
    requires !IsSpace(c)
    ensures multiset(t)[c] == 0
  {
    if t != [] {
      assert t == [t[0]] + t[1..];
      WhitespaceHasNone(t[1..], c);
    }
  }

  /** Normalising twice is normalising once. */
  lemma NormalizeIdempotent(s: string)
    ensures Normalize(Normalize(s)) == Normalize(s)
  {
    var x := Normalize(s);
    assert StripLeft(x) == x;
    assert StripRight(x) == x;
    assert Strip(x) == x;
  }

  /** The built-in plaintext is a sixteen-bit string that normalisation leaves as it is. */
  lemma DefaultPlaintextIsNormal()
    ensures |Plaintext| == 16 && IsBitString(Plaintext)
    ensures Normalize(Plaintext) == Plaintext
  {
    assert IsBitString(Plaintext) by {
      forall i | 0 <= i < |Plaintext|
        ensures IsBitChar(Plaintext[i])
      {
      }
    }
  }

  // ---------------------------------------------------------------------------
  // The stream cipher: each plaintext digit XORed with the keystream bit at its position

  /** A character `int()` accepts as a single decimal digit. */
  predicate IsDigit(c: char) {
    '0' <= c <= '9'
  }

  predicate IsBitChar(c: char) {
    c == '0' || c == '1'
  }

  predicate IsBitString(s: string) {
    forall i :: 0 <= i < |s| ==> IsBitChar(s[i])
  }

  predicate AllDigits(s: string) {
    forall i :: 0 <= i < |s| ==> IsDigit(s[i])
  }

  function DigitValue(c: char): int
    requires IsDigit(c)
  {
    c as int - '0' as int
  }

  /**
   * The digit of `int(c) ^ int(g)` for a decimal digit `c` and a keystream bit `g`:
   * XOR with 0 or 1 changes only the lowest bit, so the result is again one digit.
   */
  function DigitXor(c: char, g: char): (r: char)
    requires IsDigit(c) && IsBitChar(g)
    ensures IsDigit(r)
    ensures DigitValue(r) / 2 == DigitValue(c) / 2
    ensures DigitValue(r) % 2 == (DigitValue(c) + DigitValue(g)) % 2
  {
    if g == '0' then c
    else if DigitValue(c) % 2 == 0 then (c as int + 1) as char
    else (c as int - 1) as char
  }

  /** On bit characters the digit XOR is the cell XOR of the register model. */
  lemma DigitXorOnBits(a: Bit, b: Bit)
    ensures DigitXor(BitChar(a), BitChar(b)) == BitChar(Xor(a, b))
  {
  }

  /** The text XORed position by position with the keystream. */
  function XorText(text: string, gamma: string): (r: string)
    requires |text| == |gamma| && AllDigits(text) && IsBitString(gamma)
    ensures |r| == |text| && AllDigits(r)
    ensures forall i :: 0 <= i < |r| ==> r[i] == DigitXor(text[i], gamma[i])
  {
    if text == [] then []
    else [DigitXor(text[0], gamma[0])] + XorText(text[1..], gamma[1..])
  }

  /** XORing twice with the same keystream gives back the text: decryption is encryption. */
  lemma XorTextSelfInverse(text: string, gamma: string)
    requires |text| == |gamma| && AllDigits(text) && IsBitString(gamma)
    ensures XorText(XorText(text, gamma), gamma) == text
  {
    var once := XorText(text, gamma);
    var twice := XorText(once, gamma);
    forall i | 0 <= i < |text|
      ensures twice[i] == text[i]
    {
      DigitXorTwice(text[i], gamma[i]);
    }
  }

  /** One digit XORed twice with the same key bit is the digit again. */
  lemma DigitXorTwice(c: char, g: char)
    requires IsDigit(c) && IsBitChar(g)
    ensures DigitXor(DigitXor(c, g), g) == c
  {
    if g == '1' {
      assert DigitValue(DigitXor(DigitXor(c, g), g)) == DigitValue(c);
    }
  }

  datatype CipherError = LengthMismatch | NotADigit(index: nat)

  /**
   * Step 4 of the simulation: no ciphertext unless the text has exactly `steps`
   * characters; otherwise XOR digit by digit, failing at the first character that
   * is not a digit.
   */
  method Encrypt(text: string, gamma: string, steps: int) returns (r: Result<string, CipherError>)
    requires |gamma| == Count(steps) && IsBitString(gamma)
    ensures r.Ok? <==> |text| == steps && AllDigits(text)
    ensures r == Err(LengthMismatch) <==> |text| != steps
    ensures r.Ok? ==> r.value == XorText(text, gamma)
    ensures r.Err? && r.error.NotADigit? ==>
      var i := r.error.index;
      |text| == steps && i < |text| && !IsDigit(text[i]) && AllDigits(text[..i])
  {
    if |text| != steps {
      return Err(LengthMismatch);
    }
    var cipher := "";
    for i := 0 to steps
      invariant |cipher| == i && AllDigits(text[..i])
      invariant forall j :: 0 <= j < i ==> cipher[j] == DigitXor(text[j], gamma[j])
    {
      if !IsDigit(text[i]) {
        return Err(NotADigit(i));
      }
      cipher := cipher + [DigitXor(text[i], gamma[i])];
    }
    assert text[..steps] == text;
    return Ok(cipher);
  }

  // ---------------------------------------------------------------------------
  // The Geffe selector: the second generator's bit where the control bit is '1',
  // the first generator's bit otherwise

  method Combine(r0Seq: string, r1Seq: string, ctrlSeq: string, n: nat) returns (gamma: string)
    requires n <= |r0Seq| && n <= |r1Seq| && n <= |ctrlSeq|
    ensures |gamma| == n
    ensures forall i :: 0 <= i < n ==> gamma[i] == (if ctrlSeq[i] == '1' then r1Seq[i] else r0Seq[i])
    ensures IsBitString(r0Seq) && IsBitString(r1Seq) ==> IsBitString(gamma)
  {
    gamma := "";
    for i := 0 to n
      invariant |gamma| == i
      invariant forall j :: 0 <= j < i ==> gamma[j] == (if ctrlSeq[j] == '1' then r1Seq[j] else r0Seq[j])
    {
      if ctrlSeq[i] == '1' {
        gamma := gamma + [r1Seq[i]];
      } else {
        gamma := gamma + [r0Seq[i]];
      }
    }
  }

  // ---------------------------------------------------------------------------
  // Driving the registers

  /** A rendered register sequence is a bit string. */
  lemma RenderIsBitString(bits: seq<Bit>)
    ensures IsBitString(Render(bits))
  {
    forall i | 0 <= i < |bits|
      ensures IsBitChar(Render(bits)[i])
    {
    }
  }

  lemma RenderAppend(bits: seq<Bit>, b: Bit)
    ensures Render(bits + [b]) == Render(bits) + [BitChar(b)]
  {
    assert |Render(bits + [b])| == |Render(bits) + [BitChar(b)]|;
  }

  /** Step 1 of the simulation for one register: `n` steps, collecting the output bits. */
  method RunAlone(register: Lfsr, n: nat) returns (outputs: string)
    requires register.Valid()
    modifies register
    ensures register.Valid()
    ensures register.state == Run(old(register.state), register.taps, n)
    ensures outputs == Render(Outputs(old(register.state), register.taps, n))
  {
    ghost var init := register.state;
    outputs := "";
    for k := 0 to n
      invariant register.Valid() && |register.state| == |init|
      invariant register.state == Run(init, register.taps, k)
      invariant outputs == Render(Outputs(init, register.taps, k))
    {
      var oldState, newState, output := register.Step();
      RunSucc(init, register.taps, k);
      OutputsSucc(init, register.taps, k);
      RenderAppend(Outputs(init, register.taps, k), output);
      outputs := outputs + [BitChar(output)];
    }
  }

  /** Steps 2 of the simulation: the three registers stepped together `n` times. */
  method Lockstep(r0: Lfsr, r1: Lfsr, ctrl: Lfsr, n: nat) returns (r0Seq: string, r1Seq: string, ctrlSeq: string)
    requires r0 != r1 && r0 != ctrl && r1 != ctrl
    requires r0.Valid() && r1.Valid() && ctrl.Valid()
    modifies r0, r1, ctrl
    ensures r0.Valid() && r1.Valid() && ctrl.Valid()
    ensures r0.state == Run(old(r0.state), r0.taps, n)
    ensures r1.state == Run(old(r1.state), r1.taps, n)
    ensures ctrl.state == Run(old(ctrl.state), ctrl.taps, n)
    ensures r0Seq == Render(Outputs(old(r0.state), r0.taps, n))
    ensures r1Seq == Render(Outputs(old(r1.state), r1.taps, n))
    ensures ctrlSeq == Render(Outputs(old(ctrl.state), ctrl.taps, n))
  {
    ghost var init0, init1, initCtrl := r0.state, r1.state, ctrl.state;
    r0Seq, r1Seq, ctrlSeq := "", "", "";
    for k := 0 to n
      invariant r0.Valid() && r1.Valid() && ctrl.Valid()
      invariant |r0.state| == |init0| && |r1.state| == |init1| && |ctrl.state| == |initCtrl|
      invariant r0.state == Run(init0, r0.taps, k)
      invariant r1.state == Run(init1, r1.taps, k)
      invariant ctrl.state == Run(initCtrl, ctrl.taps, k)
      invariant r0Seq == Render(Outputs(init0, r0.taps, k))
      invariant r1Seq == Render(Outputs(init1, r1.taps, k))
      invariant ctrlSeq == Render(Outputs(initCtrl, ctrl.taps, k))
    {
      var i0, j0, bit0 := r0.Step();
      var i1, j1, bit1 := r1.Step();
      var iCtrl, jCtrl, bitCtrl := ctrl.Step();
      RunSucc(init0, r0.taps, k);
      RunSucc(init1, r1.taps, k);
      RunSucc(initCtrl, ctrl.taps, k);
      OutputsSucc(init0, r0.taps, k);
      OutputsSucc(init1, r1.taps, k);
      OutputsSucc(initCtrl, ctrl.taps, k);
      RenderAppend(Outputs(init0, r0.taps, k), bit0);
      RenderAppend(Outputs(init1, r1.taps, k), bit1);
      RenderAppend(Outputs(initCtrl, ctrl.taps, k), bitCtrl);
      r0Seq := r0Seq + [BitChar(bit0)];
      r1Seq := r1Seq + [BitChar(bit1)];
      ctrlSeq := ctrlSeq + [BitChar(bitCtrl)];
    }
  }

  // ---------------------------------------------------------------------------
  // The whole simulation

  /** The three initial vectors are non-empty and their taps index them. */
  lemma InitialVectorsFit()
    ensures |InitR0| > 0 && TapsFit(TapsR0, |InitR0|)
    ensures |InitR1| > 0 && TapsFit(TapsR1, |InitR1|)
    ensures |InitCtrl| > 0 && TapsFit(TapsCtrl, |InitCtrl|)
  {
  }

  /**
   * What `simulate` computes: the outputs of the three registers run one after
   * another, the three output strings of the lockstep run after the reset, the
   * keystream and the cipher outcome.
   */
  datatype Report = Report(
    alone: seq<string>,
    r0Seq: string, r1Seq: string, ctrlSeq: string,
    gamma: string,
    cipher: Result<string, CipherError>)

  /**
   * `simulate(steps)` with the plaintext as a parameter. Each register first runs
   * alone; the states are then reset to the initial vectors, so the lockstep run
   * reproduces the same three output strings.
   */
  method Simulate(steps: int, plaintext: string) returns (report: Report)
    ensures report.r0Seq == Render(Outputs(InitR0, TapsR0, Count(steps)))
    ensures report.r1Seq == Render(Outputs(InitR1, TapsR1, Count(steps)))
    ensures report.ctrlSeq == Render(Outputs(InitCtrl, TapsCtrl, Count(steps)))
    ensures report.alone == [report.r0Seq, report.r1Seq, report.ctrlSeq]
    ensures |report.gamma| == Count(steps) && IsBitString(report.gamma)
    ensures forall i :: 0 <= i < Count(steps) ==>
      report.gamma[i] == (if report.ctrlSeq[i] == '1' then report.r1Seq[i] else report.r0Seq[i])
    ensures report.cipher.Ok? <==> |Normalize(plaintext)| == steps && AllDigits(Normalize(plaintext))
    ensures report.cipher == Err(LengthMismatch) <==> |Normalize(plaintext)| != steps
    ensures report.cipher.Ok? ==> report.cipher.value == XorText(Normalize(plaintext), report.gamma)
    ensures report.cipher.Err? && report.cipher.error.NotADigit? ==>
      var text, i := Normalize(plaintext), report.cipher.error.index;
      |text| == steps && i < |text| && !IsDigit(text[i]) && AllDigits(text[..i])
  {
    InitialVectorsFit();
    var r0 := new Lfsr(TapsR0, InitR0, "R0");
    var r1 := new Lfsr(TapsR1, InitR1, "R1");
    var ctrl := new Lfsr(TapsCtrl, InitCtrl, "CTRL");
    var n := Count(steps);

    // Step 1: each register on its own.
    var alone0 := RunAlone(r0, n);
    var alone1 := RunAlone(r1, n);
    var aloneCtrl := RunAlone(ctrl, n);

    // Reset to the initial vectors, then step 2: the lockstep run.
    r0.state := InitR0;
    r1.state := InitR1;
    ctrl.state := InitCtrl;
    var r0Seq, r1Seq, ctrlSeq := Lockstep(r0, r1, ctrl, n);

    // Step 3: the Geffe selection.
    RenderIsBitString(Outputs(InitR0, TapsR0, n));
    RenderIsBitString(Outputs(InitR1, TapsR1, n));
    var gamma := Combine(r0Seq, r1Seq, ctrlSeq, n);

    // Step 4: the cipher.
    var text := Normalize(plaintext);
    var cipher := Encrypt(text, gamma, steps);
    report := Report([alone0, alone1, aloneCtrl], r0Seq, r1Seq, ctrlSeq, gamma, cipher);
  }
}
