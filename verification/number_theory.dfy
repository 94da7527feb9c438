/**
 * Integer arithmetic used by the textbook RSA script: Python's floor division and
 * modulo, divisibility, Euclid's gcd (`math.gcd`), the recursive extended Euclid
 * `egcd`, the integer square root that replaces `int(n**0.5)`, and primality.
 */
module NumberTheory {

  function Abs(x: int): nat { if x < 0 then -x else x }

  /** `d` divides `n`; zero divides only zero. */
  predicate Divides(d: int, n: int) {
    if d == 0 then n == 0 else n % d == 0
  }

  /** Python's `a // b`: the quotient rounded towards minus infinity. */
  function FloorDiv(a: int, b: int): (q: int)
    requires b != 0
    ensures b > 0 ==> q * b <= a < q * b + b
    ensures b < 0 ==> q * b + b < a <= q * b
  {
    if b > 0 then a / b else (-a) / (-b)
  }

  /** Python's `a % b`: the remainder has the sign of the divisor. */
  function FloorMod(a: int, b: int): (r: int)
    requires b != 0
    ensures a == FloorDiv(a, b) * b + r
    ensures b > 0 ==> 0 <= r < b
    ensures b < 0 ==> b < r <= 0
    ensures Abs(r) < Abs(b)
  {
    var r := a - FloorDiv(a, b) * b;
    assert b < 0 ==> r == -((-a) % (-b));
    r
  }

  /** Division with remainder is unique: the only fact about `/` and `%` the proofs below need. */
  lemma DivModUnique(a: int, n: int, q: int, r: int)
    requires n > 0 && a == n * q + r && 0 <= r < n
    ensures a / n == q && a % n == r
  {
    var q', r' := a / n, a % n;
    assert n * (q - q') == r' - r;
    if q - q' >= 1 {
      MulAtLeast(n, q - q');
    } else if q - q' <= -1 {
      MulAtLeast(n, q' - q);
    }
  }

  lemma MulAtLeast(n: int, k: int)
    requires n > 0 && k >= 1
    ensures n * k >= n
  {
    assert n * k == n + n * (k - 1);
  }

  /** Adding a multiple of the modulus does not change the remainder. */
  lemma ModAddMultiple(a: int, n: int, k: int)
    requires n > 0
    ensures (a + n * k) % n == a % n
  {
    assert a + n * k == n * (a / n + k) + a % n;
    DivModUnique(a + n * k, n, a / n + k, a % n);
  }

  /** A common divisor divides every integer combination. */
  lemma DividesCombination(d: int, u: int, v: int, s: int, t: int)
    requires Divides(d, u) && Divides(d, v)
    ensures Divides(d, s * u + t * v)
  {
    if d != 0 {
      var p, q := u / d, v / d;
      assert u == d * p && v == d * q;
      assert s * u + t * v == d * (s * p + t * q);
      ModAddMultiple(0, Abs(d), if d > 0 then s * p + t * q else -(s * p + t * q));
    }
  }

  /** `g` is the greatest common divisor of `a` and `b`, in the divisibility order. */
  ghost predicate IsGcd(g: int, a: int, b: int) {
    g >= 0 && Divides(g, a) && Divides(g, b) &&
    forall d :: Divides(d, a) && Divides(d, b) ==> Divides(d, g)
  }

  /** Euclid's algorithm on natural numbers: the value of `math.gcd`. */
  function Gcd(a: nat, b: nat): nat
    decreases b
  {
    if b == 0 then a else Gcd(b, a % b)
  }

  /** `math.gcd` of arbitrary integers works on their absolute values. */
  function MathGcd(a: int, b: int): (g: nat)
    ensures IsGcd(g, a, b)
  {
    GcdIsGcd(Abs(a), Abs(b));
    DividesAbs(a);
    DividesAbs(b);
    Gcd(Abs(a), Abs(b))
  }

  /** Divisibility does not see the sign of the dividend. */
  lemma DividesAbs(n: int)
    ensures forall d :: Divides(d, Abs(n)) <==> Divides(d, n)
  {
    forall d
      ensures Divides(d, -n) <==> Divides(d, n)
    {
      DividesNeg(d, n);
    }
  }

  lemma DividesNeg(d: int, n: int)
    ensures Divides(d, -n) <==> Divides(d, n)
  {
    if Divides(d, n) {
      DividesCombination(d, n, n, -1, 0);
      assert -1 * n + 0 * n == -n;
    }
    if Divides(d, -n) {
      DividesCombination(d, -n, -n, -1, 0);
      assert -1 * -n + 0 * -n == n;
    }
  }

  /** A greatest common divisor is unique. */
  lemma GcdUnique(g: int, h: int, a: int, b: int)
    requires IsGcd(g, a, b) && IsGcd(h, a, b)
    ensures g == h
  {
    assert Divides(g, h) && Divides(h, g);
    if g != 0 && h != 0 {
      DivisorAtMost(g, h);
      DivisorAtMost(h, g);
    }
  }

  /** A positive divisor of a positive number is at most that number. */
  lemma DivisorAtMost(d: int, n: int)
    requires d > 0 && n > 0 && n % d == 0
    ensures d <= n
  {
    assert n == d * (n / d);
    MulAtLeast(d, n / d);
  }

  /**
   * `egcd(a, b)` returns `(g, x, y)` with `g == x*a + y*b`. The recursion passes
   * `a % b` as the new second argument, whose magnitude is below that of `b`.
   */
  function Egcd(a: int, b: int): (r: (int, int, int))
    ensures r.0 == r.1 * a + r.2 * b
    ensures b == 0 ==> r == (a, 1, 0)
    decreases Abs(b)
  {
    if b == 0 then (a, 1, 0)
    else
      var (g, x1, y1) := Egcd(b, FloorMod(a, b));
      var q := FloorDiv(a, b);
      BezoutStep(a, b, q, g, x1, y1);
      (g, y1, x1 - q * y1)
  }

  /** The back-substitution of `egcd`: a combination of `b` and `a - q*b` is one of `a` and `b`. */
  lemma BezoutStep(a: int, b: int, q: int, g: int, x1: int, y1: int)
    requires g == x1 * b + y1 * (a - q * b)
    ensures g == y1 * a + (x1 - q * y1) * b
  {
    assert y1 * (a - q * b) == y1 * a - q * y1 * b;
  }

  /** On natural numbers `egcd` computes the same `g` as Euclid's algorithm. */
  lemma {:induction false} EgcdComputesGcd(a: nat, b: nat)
    ensures Egcd(a, b).0 == Gcd(a, b)
    decreases b
  {
    if b != 0 {
      assert FloorMod(a, b) == a % b;
      EgcdComputesGcd(b, a % b);
    }
  }

  lemma {:induction false} GcdDividesBoth(a: nat, b: nat)
    ensures Divides(Gcd(a, b), a) && Divides(Gcd(a, b), b)
    decreases b
  {
    if b != 0 {
      var g := Gcd(b, a % b);
      GcdDividesBoth(b, a % b);
      assert a == (a / b) * b + 1 * (a % b);
      DividesCombination(g, b, a % b, a / b, 1);
    }
  }

  /** Euclid's `Gcd` is the greatest common divisor; the Bézout identity of `egcd` gives maximality. */
  lemma GcdIsGcd(a: nat, b: nat)
    ensures IsGcd(Gcd(a, b), a, b)
  {
    GcdDividesBoth(a, b);
    EgcdComputesGcd(a, b);
    var (g, x, y) := Egcd(a, b);
    forall d | Divides(d, a) && Divides(d, b)
      ensures Divides(d, Gcd(a, b))
    {
      DividesCombination(d, a, b, x, y);
    }
  }

  /** For non-negative arguments the first component of `egcd` is their greatest common divisor. */
  lemma EgcdIsGcd(a: int, b: int)
    requires a >= 0 && b >= 0
    ensures IsGcd(Egcd(a, b).0, a, b)
    ensures Egcd(a, b).0 == Gcd(a, b)
  {
    EgcdComputesGcd(a, b);
    GcdIsGcd(a, b);
  }

  /** The integer square root: the exact counterpart of `int(n**0.5)`. */
  function Isqrt(n: nat): (r: nat)
    ensures r * r <= n < (r + 1) * (r + 1)
  {
    if n == 0 then 0
    else
      var s := Isqrt(n - 1);
      if (s + 1) * (s + 1) <= n then s + 1 else s
  }

  /** Primality by definition: at least 2 and no divisor strictly between 1 and itself. */
  predicate Prime(n: int) {
    n >= 2 && forall k :: 2 <= k < n ==> !Divides(k, n)
  }

  /** No odd number in `[3, bound]` divides `n`: what the trial-division loop establishes. */
  predicate NoOddDivisorUpTo(n: int, bound: int) {
    forall i :: 3 <= i <= bound && i % 2 == 1 ==> !Divides(i, n)
  }

  lemma MulMono(a: int, b: int, c: int, d: int)
    requires 0 <= a <= c && 0 <= b <= d
    ensures a * b <= c * d
  {
    assert c * d - a * b == (c - a) * d + a * (d - b);
  }

  /** An odd product has odd factors. */
  lemma OddFactor(a: int, b: int)
    requires (a * b) % 2 == 1
    ensures a % 2 == 1
  {
    if a % 2 == 0 {
      assert a * b == 2 * ((a / 2) * b) + 0;
      DivModUnique(a * b, 2, (a / 2) * b, 0);
    }
  }

  /** A proper divisor at least 2 leaves a cofactor at least 2. */
  lemma Cofactor(n: int, k: int) returns (e: int)
    requires 2 <= k < n && Divides(k, n)
    ensures n == k * e && e >= 2 && Divides(e, n)
  {
    e := n / k;
    assert n == k * e;
    if e <= 0 {
      MulMono(k, 0, k, -e);
    }
    DivModUnique(n, e, k, 0);
  }

  /**
   * For odd `n >= 3`, trial division by the odd numbers up to `Isqrt(n)` decides
   * primality: a composite odd number has an odd divisor no larger than its root.
   */
  lemma TrialDivisionDecidesPrimality(n: int)
    requires n >= 3 && n % 2 == 1
    ensures NoOddDivisorUpTo(n, Isqrt(n)) <==> Prime(n)
  {
    var r := Isqrt(n);
    if Prime(n) {
      forall i | 3 <= i <= r && i % 2 == 1
        ensures !Divides(i, n)
      {
        MulMono(1, r, r, r);
        assert i < n;
      }
    }
    if NoOddDivisorUpTo(n, r) && !Prime(n) {
      var k :| 2 <= k < n && Divides(k, n);
      var e := Cofactor(n, k);
      OddFactor(k, e);
      assert n == e * k;
      OddFactor(e, k);
      if k > r && e > r {
        MulMono(r + 1, r + 1, k, e);
      }
    }
  }
}
