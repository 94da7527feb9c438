/**
 * The textbook RSA script: trial-division primality, the choice of the public
 * exponent from a fixed candidate list, the private exponent from `egcd`,
 * validation and conversion of the binary-string inputs, and the bare RSAEP/RSADP
 * primitives (`pow(m, e, n)` and `pow(c, d, n)`) of sections 5.1.1 and 5.1.2 of
 * RFC 8017, without their range check on the message representative.
 */
module Rsa {
  import opened Wrappers
  import opened NumberTheory

  /** `is_prime(n)`: trial division with early returns. */
  method IsPrime(n: int) returns (b: bool)
    ensures n < 2 ==> !b
    ensures n >= 2 && n % 2 == 0 ==> (b <==> n == 2)
    ensures n >= 3 && n % 2 == 1 ==> (b <==> NoOddDivisorUpTo(n, Isqrt(n)))
    ensures b <==> Prime(n)
  {
    if n < 2 {
      return false;
    }
    if n % 2 == 0 {
      EvenPrime(n);
      return n == 2;
    }
    var r := Isqrt(n);
    b := OddTrialDivision(n, r);
    TrialDivisionDecidesPrimality(n);
  }

  /** The loop of `is_prime`: odd candidates from 3 up to `r`, stopping at the first divisor. */
  method OddTrialDivision(n: int, r: int) returns (b: bool)
    ensures b <==> NoOddDivisorUpTo(n, r)
  {
    var i := 3;
    while i <= r
      invariant 3 <= i && i % 2 == 1
      invariant NoOddDivisorUpTo(n, i - 1)
      decreases r - i
    {
      if n % i == 0 {
        DivisorBreaksSearch(n, i, r);
        return false;
      }
      NoOddDivisorStep(n, i);
      i := i + 2;
    }
    NoOddDivisorShrink(n, i - 1, r);
    return true;
  }

  /** An odd divisor `i` within the bound refutes the trial-division verdict. */
  lemma DivisorBreaksSearch(n: int, i: int, r: int)
    requires 3 <= i <= r && i % 2 == 1 && n % i == 0
    ensures !NoOddDivisorUpTo(n, r)
  {
    assert Divides(i, n);
  }

  /** Testing one more odd candidate extends the divisor-free range by two. */
  lemma NoOddDivisorStep(n: int, i: int)
    requires 3 <= i && i % 2 == 1 && n % i != 0
    requires NoOddDivisorUpTo(n, i - 1)
    ensures NoOddDivisorUpTo(n, i + 1)
  {
    forall k | 3 <= k <= i + 1 && k % 2 == 1
      ensures !Divides(k, n)
    {
      if k == i + 1 {
        assert false;
      }
    }
  }

  lemma NoOddDivisorShrink(n: int, bound: int, smaller: int)
    requires NoOddDivisorUpTo(n, bound) && smaller <= bound
    ensures NoOddDivisorUpTo(n, smaller)
  {
  }

  /** An even number is prime exactly when it is 2. */
  lemma EvenPrime(n: int)
    requires n >= 2 && n % 2 == 0
    ensures Prime(n) <==> n == 2
  {
    if n != 2 {
      assert Divides(2, n);
    }
  }

  /** The candidate public exponents, tried in this order. */
  const Candidates: seq<int> := [3, 5, 7, 11, 13, 17, 65537]

  /** A candidate is usable when it is below `phi` and coprime to it. */
  predicate Usable(candidate: int, phi: int)
    ensures Usable(candidate, phi) <==> candidate < phi && IsGcd(1, candidate, phi)
  {
    CoprimeMeansGcdOne(candidate, phi);
    candidate < phi && MathGcd(candidate, phi) == 1
  }

  /** `math.gcd` answers 1 exactly when 1 is the greatest common divisor. */
  lemma CoprimeMeansGcdOne(a: int, b: int)
    ensures MathGcd(a, b) == 1 <==> IsGcd(1, a, b)
  {
    if IsGcd(1, a, b) {
      GcdUnique(MathGcd(a, b), 1, a, b);
    }
  }

  /**
   * The loop that assigns `e`: the first usable candidate, or `None` when no
   * candidate is usable. The candidates are increasing, so the first usable one is
   * also the least.
   */
  method ChooseExponent(phi: int) returns (e: Option<int>)
    ensures e.None? <==> forall c :: c in Candidates ==> !Usable(c, phi)
    ensures e.Some? ==> e.value in Candidates && Usable(e.value, phi)
    ensures e.Some? ==> forall c :: c in Candidates && c < e.value ==> !Usable(c, phi)
  {
    e := None;
    var i := 0;
    while i < |Candidates|
      invariant 0 <= i <= |Candidates| && e.None?
      invariant forall j :: 0 <= j < i ==> !Usable(Candidates[j], phi)
    {
      var candidate := Candidates[i];
      if candidate < phi && MathGcd(candidate, phi) == 1 {
        e := Some(candidate);
        assert candidate in Candidates;
        forall c | c in Candidates && c < candidate
          ensures !Usable(c, phi)
        {
          var j :| 0 <= j < |Candidates| && Candidates[j] == c;
          assert j < i;
        }
        return;
      }
      i := i + 1;
    }
    forall c | c in Candidates
      ensures !Usable(c, phi)
    {
      var j :| 0 <= j < |Candidates| && Candidates[j] == c;
    }
  }

  /**
   * `d = x % phi` where `(g, x, y) = egcd(e, phi)`, or the raised error when `g != 1`.
   * The caller only reaches this with `3 <= e < phi`.
   */
  function PrivateExponent(e: int, phi: int): (r: Result<int, KeyError>)
    requires phi > 1
    ensures e >= 0 ==> (r.Ok? <==> Gcd(e, phi) == 1)
    ensures r.Ok? ==> 0 <= r.value < phi && (e * r.value) % phi == 1
  {
    var (g, x, y) := Egcd(e, phi);
    EgcdOfNatural(e, phi);
    if g != 1 then
      Err(NotInvertible)
    else
      InverseFromBezout(e, phi, x, y);
      Ok(FloorMod(x, phi))
  }

  lemma EgcdOfNatural(e: int, phi: nat)
    ensures e >= 0 ==> Egcd(e, phi).0 == Gcd(e, phi)
  {
    if e >= 0 {
      EgcdIsGcd(e, phi);
    }
  }

  /** From `e*x + phi*y == 1`, the remainder of `x` is an inverse of `e` modulo `phi`. */
  lemma InverseFromBezout(e: int, phi: int, x: int, y: int)
    requires phi > 1 && x * e + y * phi == 1
    ensures (e * FloorMod(x, phi)) % phi == 1
  {
    var q := FloorDiv(x, phi);
    var d := FloorMod(x, phi);
    assert e * d == e * x - phi * (e * q);
    assert e * d == 1 + phi * (-y - e * q);
    ModAddMultiple(1, phi, -y - e * q);
  }

  datatype KeyError = NoPublicExponent | NotInvertible

  /** `m^e` over the integers. */
  function Pow(b: int, e: nat): int {
    if e == 0 then 1 else b * Pow(b, e - 1)
  }

  /** Python's three-argument `pow(b, e, n)` for a positive modulus. */
  function ModPow(b: int, e: nat, n: int): (r: int)
    requires n > 0
    ensures 0 <= r < n
    ensures r == Pow(b, e) % n
  {
    if e == 0 then 1 % n
    else
      var rest := ModPow(b, e - 1, n);
      MulMod(b, Pow(b, e - 1), n);
      (b * rest) % n
  }

  /** Reducing a factor before multiplying does not change the remainder. */
  lemma MulMod(b: int, x: int, n: int)
    requires n > 0
    ensures (b * (x % n)) % n == (b * x) % n
  {
    assert b * x == b * (x % n) + n * (b * (x / n));
    ModAddMultiple(b * (x % n), n, b * (x / n));
  }

  /** The input check: non-empty, and every character is `'0'` or `'1'`. */
  predicate IsBinaryInput(s: string) {
    |s| > 0 && forall i :: 0 <= i < |s| ==> s[i] == '0' || s[i] == '1'
  }

  /** An input passes the check exactly when its zeros and ones make up the whole, non-empty string. */
  lemma BinaryInputByCount(s: string)
    ensures IsBinaryInput(s) <==> |s| > 0 && multiset(s)['0'] + multiset(s)['1'] == |s|
  {
    BitCount(s);
  }

  lemma {:induction false} BitCount(s: string)
    ensures multiset(s)['0'] + multiset(s)['1'] <= |s|
    ensures (forall i :: 0 <= i < |s| ==> s[i] == '0' || s[i] == '1') <==>
      multiset(s)['0'] + multiset(s)['1'] == |s|
  {
    if s != [] {
      assert s == [s[0]] + s[1..];
      BitCount(s[1..]);
      assert forall i :: 1 <= i < |s| ==> s[i] == s[1..][i - 1];
    }
  }

  /** `int(s, 2)` on a string of binary digits, most significant first. */
  function FromBinary(s: string): (v: nat)
    requires forall i :: 0 <= i < |s| ==> s[i] == '0' || s[i] == '1'
    ensures v < Pow(2, |s|)
  {
    if s == [] then 0
    else 2 * FromBinary(s[..|s| - 1]) + (if s[|s| - 1] == '1' then 1 else 0)
  }

  /** `bin(v)[2:]`: the binary digits of `v` without leading zeros (`"0"` for zero). */
  function ToBinary(v: nat): (s: string)
    ensures |s| > 0 && IsBinaryInput(s)
    ensures s[0] == '0' <==> v == 0
    ensures v > 0 ==> Pow(2, |s| - 1) <= v
  {
    if v < 2 then [if v == 1 then '1' else '0']
    else ToBinary(v / 2) + [if v % 2 == 1 then '1' else '0']
  }

  /** A binary string is canonical when it has no leading zero, or is `"0"`. */
  predicate Canonical(s: string) {
    IsBinaryInput(s) && (s[0] == '0' ==> s == "0")
  }

  /** Reading back the digits that `bin` wrote gives the number. */
  lemma {:induction false} FromToBinary(v: nat)
    ensures FromBinary(ToBinary(v)) == v
  {
    if v >= 2 {
      var s := ToBinary(v);
      assert s[..|s| - 1] == ToBinary(v / 2);
      FromToBinary(v / 2);
    }
  }

  /** Writing back a canonical binary input reproduces it digit for digit. */
  lemma {:induction false} ToFromBinary(s: string)
    requires Canonical(s)
    ensures ToBinary(FromBinary(s)) == s
  {
    if |s| > 1 {
      var init := s[..|s| - 1];
      assert Canonical(init);
      ToFromBinary(init);
      PositiveWhenLeadingOne(init);
      var v := FromBinary(s);
      assert v / 2 == FromBinary(init);
    }
  }

  lemma {:induction false} PositiveWhenLeadingOne(s: string)
    requires IsBinaryInput(s) && s[0] == '1'
    ensures FromBinary(s) > 0
  {
    if |s| > 1 {
      PositiveWhenLeadingOne(s[..|s| - 1]);
    }
  }

  /** The values the script assigns at module level after choosing `p` and `q`. */
  datatype Key = Key(n: int, phi: int, e: int, d: int)

  /**
   * From the two primes to the key: `n = p*q`, `phi = (p-1)*(q-1)`, the chosen
   * public exponent and its inverse. Without a usable candidate `e` stays `None`
   * and the call `egcd(e, phi)` fails.
   */
  method SetUpKey(p: int, q: int) returns (r: Result<Key, KeyError>)
    ensures r.Err? <==> forall c :: c in Candidates ==> !Usable(c, (p - 1) * (q - 1))
    ensures r.Err? ==> r.error == NoPublicExponent
    ensures r.Ok? ==>
      var k := r.value;
      && k.n == p * q && k.phi == (p - 1) * (q - 1)
      && k.e in Candidates && Usable(k.e, k.phi)
      && (forall c :: c in Candidates && c < k.e ==> !Usable(c, k.phi))
      && 0 <= k.d < k.phi && (k.e * k.d) % k.phi == 1
  {
    var n := p * q;
    var phi := (p - 1) * (q - 1);
    var e := ChooseExponent(phi);
    if e.None? {
      return Err(NoPublicExponent);
    }
    var inverse := PrivateExponent(e.value, phi);
    if inverse.Err? {
      assert false;
      return Err(NotInvertible);
    }
    r := Ok(Key(n, phi, e.value, inverse.value));
  }

  datatype Report = Report(key: Key, cipherText: nat, cipherBin: string, plainText: nat, plainBin: string)

  datatype ScriptError = BadPlaintextInput | BadCiphertextInput

  const P := 257
  const Q := 167

  /**
   * The script from the fixed primes to the two results: key setup, then validation
   * and conversion of the two inputs, then RSAEP on the first and RSADP on the second.
   * The two inputs are parameters instead of console reads.
   */
  method RunScript(xBin: string, yBin: string) returns (r: Result<Report, ScriptError>)
    ensures !IsBinaryInput(xBin) ==> r == Err(BadPlaintextInput)
    ensures IsBinaryInput(xBin) && !IsBinaryInput(yBin) ==> r == Err(BadCiphertextInput)
    ensures IsBinaryInput(xBin) && IsBinaryInput(yBin) ==> r.Ok?
    ensures r.Ok? ==> r.value.key == Key(42919, 42496, 3, 28331)
    ensures r.Ok? ==>
      && r.value.cipherText == Pow(FromBinary(xBin), r.value.key.e) % r.value.key.n
      && r.value.plainText == Pow(FromBinary(yBin), r.value.key.d) % r.value.key.n
      && Canonical(r.value.cipherBin) && FromBinary(r.value.cipherBin) == r.value.cipherText
      && Canonical(r.value.plainBin) && FromBinary(r.value.plainBin) == r.value.plainText
  {
    var key := SetUpKey(P, Q);
    // With the fixed primes the first candidate is usable, so key setup cannot fail.
    assert Gcd(3, 42496) == Gcd(42496, 3) == Gcd(3, 1) == Gcd(1, 0) == 1;
    assert Usable(3, 42496);
    assert (P - 1) * (Q - 1) == 42496 && 3 in Candidates;
    var k := key.value;
    assert k.phi == 42496 && k.e == 3;
    InverseUnique(3, k.phi, k.d, 28331);
    if !IsBinaryInput(xBin) {
      return Err(BadPlaintextInput);
    }
    if !IsBinaryInput(yBin) {
      return Err(BadCiphertextInput);
    }
    var m := FromBinary(xBin);
    var c := FromBinary(yBin);
    var cipherText := ModPow(m, k.e, k.n);
    var cipherBin := ToBinary(cipherText);
    FromToBinary(cipherText);
    var plainText := ModPow(c, k.d, k.n);
    var plainBin := ToBinary(plainText);
    FromToBinary(plainText);
    r := Ok(Report(k, cipherText, cipherBin, plainText, plainBin));
  }

  /** The inverse of `e` modulo `phi` in `[0, phi)` is unique when it exists. */
  lemma InverseUnique(e: int, phi: int, d: int, d': int)
    requires phi > 1 && 0 <= d < phi && 0 <= d' < phi
    requires (e * d) % phi == 1 && (e * d') % phi == 1
    ensures d == d'
  {
    var a, b := (e * d) / phi, (e * d') / phi;
    assert e * d == 1 + phi * a && e * d' == 1 + phi * b;
    assert d' * (e * d) == d * (e * d');
    assert d' + phi * (a * d') == d + phi * (b * d);
    DivModUnique(d', phi, b * d - a * d', d);
    DivModUnique(d', phi, 0, d');
  }
}
