// The Goldilocks prime field used by every table of the prover.
//
// Field elements are modelled by their canonical representatives 0 .. P-1.
// Constraint polynomials are evaluated over the integers (the map from int
// to the field is a ring homomorphism), and a constraint holds when its
// integer value is divisible by P.

module Field {

  /** The Goldilocks modulus 2^64 - 2^32 + 1. */
  const P: int := 0xFFFF_FFFF_0000_0001

  const TWO_32: int := 0x1_0000_0000

  /** A canonical field element. */
  type Felt = x: int | 0 <= x < P

  /** The field image of an integer (from_canonical_* / from_noncanonical_i64). */
  function Canon(x: int): (r: Felt)
    ensures (r - x) % P == 0
  {
    ModSubSelf(x);
    x % P
  }

  /** Two integers denote the same field element. */
  predicate Eq(a: int, b: int)
  {
    (a - b) % P == 0
  }

  /** An integer denotes the zero of the field. */
  predicate IsZero(t: int)
  {
    t % P == 0
  }

  /**
   * P is prime: it has no factorisation into two factors strictly between
   * 1 and P. Dafny cannot discharge this fact about a 64-bit constant, so
   * every lemma that needs it (the zero-product rule, inverses) takes it as
   * an explicit hypothesis.
   */
  ghost predicate PrimeModulus()
  {
    forall d, m :: 1 < d < P ==> !Factors(d, m, P)
  }

  /** n is d times m. */
  ghost predicate Factors(d: int, m: int, n: int)
  {
    d * m == n
  }

  lemma ModSubSelf(x: int)
    ensures (x % P - x) % P == 0
  {
    var q := x / P;
    assert x % P - x == -q * P;
    MulModZero(-q);
  }

  lemma MulModZero(k: int)
    ensures (k * P) % P == 0
  {
  }

  /** Congruence to zero is stable under adding multiples of P. */
  lemma IsZeroShift(t: int, k: int)
    ensures IsZero(t + k * P) <==> IsZero(t)
  {
  }

  /** Two canonical elements are the same field element only if equal. */
  lemma EqCanonical(a: int, b: int)
    requires -P < a - b < P
    ensures Eq(a, b) <==> a == b
  {
    if a - b > 0 {
      assert (a - b) % P == a - b;
    } else if a - b < 0 {
      assert (a - b) % P == a - b + P;
    }
  }

  /** Congruent to zero and strictly inside (-P, P) means zero. */
  lemma IsZeroSmall(t: int)
    requires -P < t < P
    ensures IsZero(t) <==> t == 0
  {
    EqCanonical(t, 0);
  }

  lemma IsZeroMulLeft(a: int, b: int)
    requires IsZero(a)
    ensures IsZero(a * b)
  {
    var q := a / P;
    assert a == q * P;
    assert a * b == (q * b) * P;
    MulModZero(q * b);
  }

  lemma IsZeroMulRight(a: int, b: int)
    requires IsZero(b)
    ensures IsZero(a * b)
  {
    IsZeroMulLeft(b, a);
    assert b * a == a * b;
  }

  lemma IsZeroAdd(a: int, b: int)
    requires IsZero(a) && IsZero(b)
    ensures IsZero(a + b)
  {
    var qa, qb := a / P, b / P;
    assert a + b == (qa + qb) * P;
    MulModZero(qa + qb);
  }

  lemma IsZeroNeg(a: int)
    requires IsZero(a)
    ensures IsZero(-a)
  {
    var q := a / P;
    assert -a == (-q) * P;
    MulModZero(-q);
  }

  /** A term and its negation vanish together. */
  lemma IsZeroNegIff(t: int)
    ensures IsZero(-t) <==> IsZero(t)
  {
    if IsZero(t) {
      IsZeroNeg(t);
    }
    if IsZero(-t) {
      IsZeroNeg(-t);
    }
  }

  lemma EqTrans(a: int, b: int, c: int)
    requires Eq(a, b) && Eq(b, c)
    ensures Eq(a, c)
  {
    IsZeroAdd(a - b, b - c);
  }

  // ---------------------------------------------------------------------
  // Greatest common divisor and Bezout coefficients
  // ---------------------------------------------------------------------

  function Gcd(a: nat, b: nat): nat
    decreases b
  {
    if b == 0 then a else Gcd(b, a % b)
  }

  /** The common divisor found by Euclid's algorithm divides both inputs. */
  lemma {:induction false} GcdDivides(a: nat, b: nat) returns (ma: int, mb: int)
    requires a > 0 || b > 0
    ensures Gcd(a, b) > 0
    ensures a == ma * Gcd(a, b) && b == mb * Gcd(a, b)
    decreases b
  {
    if b == 0 {
      ma, mb := 1, 0;
    } else {
      var q, r := a / b, a % b;
      var u, v := GcdDivides(b, r);
      var g := Gcd(b, r);
      DividesStep(a, b, q, r, u, v, g);
      ma, mb := q * u + v, u;
    }
  }

  /** If g divides b and a % b, it divides a. */
  lemma DividesStep(a: int, b: int, q: int, r: int, u: int, v: int, g: int)
    requires a == q * b + r && b == u * g && r == v * g
    ensures a == (q * u + v) * g
  {
    assert q * b == (q * u) * g;
  }

  /** Extended Euclid: coefficients (x, y) with x*a + y*b == Gcd(a, b). */
  function Bezout(a: nat, b: nat): (r: (int, int))
    ensures r.0 * a + r.1 * b == Gcd(a, b)
    decreases b
  {
    if b == 0 then (1, 0)
    else
      var (x, y) := Bezout(b, a % b);
      BezoutStep(a, b, a / b, a % b, x, y, Gcd(a, b));
      (y, x - (a / b) * y)
  }

  lemma BezoutStep(a: int, b: int, q: int, r: int, x: int, y: int, g: int)
    requires a == q * b + r
    requires x * b + y * r == g
    ensures y * a + (x - q * y) * b == g
  {
    assert y * a == (y * q) * b + y * r;
    assert (x - q * y) * b == x * b - (y * q) * b;
  }

  lemma MulSign(m: int, g: int)
    requires g > 0
    ensures m <= 0 ==> m * g <= 0
    ensures m >= 1 ==> m * g >= g
  {
  }

  /** Under primality every non-zero canonical element is coprime to P. */
  lemma CoprimeToP(x: int)
    requires PrimeModulus()
    requires 0 < x < P
    ensures Gcd(x, P) == 1
  {
    var mx, mp := GcdDivides(x, P);
    var g := Gcd(x, P);
    MulSign(mx, g);
    assert g <= x;
    assert Factors(g, mp, P);
  }

  /**
   * The multiplicative inverse, or zero for zero (try_inverse followed by
   * unwrap_or_default).
   */
  function Inv(x: Felt): (r: Felt)
    ensures x == 0 ==> r == 0
  {
    if x == 0 then 0
    else
      var c := Bezout(x, P);
      c.0 % P
  }

  /** A nonzero element times its inverse is one. */
  lemma InvIsInverse(x: Felt)
    requires PrimeModulus() && x != 0
    ensures (x * Inv(x)) % P == 1
  {
    var c := Bezout(x, P);
    InvCorrect(x, c.0, c.1);
  }

  lemma InvCorrect(x: int, u: int, v: int)
    requires 0 < x < P
    requires u * x + v * P == Gcd(x, P)
    ensures PrimeModulus() ==> (x * (u % P)) % P == 1
  {
    if PrimeModulus() {
      CoprimeToP(x);
      InvArith(x, u, v);
    }
  }

  lemma InvArith(x: int, u: int, v: int)
    requires u * x + v * P == 1
    ensures (x * (u % P)) % P == 1
  {
    var q, r := u / P, u % P;
    assert x * r == x * u - (x * q) * P by {
      assert u == q * P + r;
      assert x * u == x * (q * P) + x * r;
    }
    var k := -v - x * q;
    assert x * r == 1 + k * P;
    assert (1 + k * P) % P == 1;
  }

  lemma SplitByP(a: int, b: int) returns (x: int)
    ensures 0 <= x < P && IsZero(a - x)
    ensures IsZero(a * b) <==> IsZero(x * b)
  {
    var qa := a / P;
    x := a % P;
    assert a == qa * P + x;
    assert a * b == x * b + (qa * b) * P;
    IsZeroShift(x * b, qa * b);
    assert a - x == qa * P;
  }

  lemma Cancel(b: int, x: int, u: int, v: int)
    requires u * x + v * P == 1
    ensures b == u * (x * b) + (v * b) * P
  {
    assert b * (u * x + v * P) == b;
    assert b * (u * x) == u * (x * b);
    assert b * (v * P) == (v * b) * P;
  }

  /** A field with a prime modulus has no zero divisors. */
  lemma ZeroProduct(a: int, b: int)
    requires PrimeModulus()
    requires IsZero(a * b)
    ensures IsZero(a) || IsZero(b)
  {
    var x := SplitByP(a, b);
    if x != 0 {
      CoprimeToP(x);
      var c := Bezout(x, P);
      Cancel(b, x, c.0, c.1);
      IsZeroMulLeft(x * b, c.0);
      IsZeroShift(c.0 * (x * b), c.1 * b);
    } else {
      assert IsZero(a);
    }
  }

  /** Zero-product in the form used by most gadgets: a difference vanishes. */
  lemma EqOrEq(x: int, a: int, b: int)
    requires PrimeModulus()
    requires IsZero((x - a) * (x - b))
    ensures Eq(x, a) || Eq(x, b)
  {
    ZeroProduct(x - a, x - b);
  }

  /** x * (1 - x) vanishes exactly on the field elements 0 and 1. */
  lemma BinaryMeaning(x: Felt)
    requires PrimeModulus()
    ensures IsZero(x * (1 - x)) <==> x == 0 || x == 1
  {
    if IsZero(x * (1 - x)) {
      ZeroProduct(x, 1 - x);
      IsZeroSmall(x);
      IsZeroSmall(1 - x);
    }
  }

  /** x.is_binary(): the term x (1 - x), which vanishes on bits. */
  function IsBinaryTerm(x: int): int
  {
    x * (1 - x)
  }

  /** A canonical element is t in the field exactly when it is t's canonical image. */
  lemma IsZeroCanon(x: Felt, t: int)
    ensures IsZero(x - t) <==> x == Canon(t)
  {
    var c := Canon(t);
    var q := (c - t) / P;
    assert c - t == q * P;
    assert x - t == (x - c) + q * P;
    IsZeroShift(x - c, q);
    EqCanonical(x, c);
  }

  /** A gated difference s (x - y) vanishes exactly when the gate is off or x is y. */
  lemma GatedEq(s: Felt, x: Felt, y: int)
    requires PrimeModulus()
    ensures IsZero(s * (x - y)) <==> s == 0 || x == Canon(y)
  {
    IsZeroCanon(x, y);
    if IsZero(s * (x - y)) {
      ZeroProduct(s, x - y);
      IsZeroSmall(s);
    }
    if x == Canon(y) {
      IsZeroMulRight(s, x - y);
    }
  }

  /**
   * A gated product of two differences vanishes exactly when the gate is
   * off or x is one of the two candidates.
   */
  lemma GatedEitherEq(s: Felt, x: Felt, a: int, b: int)
    requires PrimeModulus()
    ensures IsZero(s * ((x - a) * (x - b))) <==> s == 0 || x == Canon(a) || x == Canon(b)
  {
    var u, v := x - a, x - b;
    var d := u * v;
    IsZeroCanon(x, a);
    IsZeroCanon(x, b);
    if IsZero(s * d) {
      ZeroProduct(s, d);
      IsZeroSmall(s);
      if s != 0 {
        ZeroProduct(u, v);
      }
    }
    if x == Canon(a) {
      IsZeroMulLeft(u, v);
      IsZeroMulRight(s, d);
    }
    if x == Canon(b) {
      IsZeroMulRight(u, v);
      IsZeroMulRight(s, d);
    }
  }

  /** The zero-product rule for two factors strictly inside (-P, P). */
  lemma ZeroProductSmall(a: int, b: int)
    requires PrimeModulus()
    requires -P < a < P && -P < b < P
    ensures IsZero(a * b) <==> a == 0 || b == 0
  {
    if IsZero(a * b) {
      ZeroProduct(a, b);
      IsZeroSmall(a);
      IsZeroSmall(b);
    }
  }

  /**
   * A value below 2^32 is x or x - 2^32 in the field, for 0 <= x < 2^33,
   * exactly when it is x reduced modulo 2^32.
   */
  lemma WrapCandidates(y: Felt, x: int)
    requires y < TWO_32 && 0 <= x < 2 * TWO_32
    ensures (y == Canon(x) || y == Canon(x - TWO_32)) <==> y == x % TWO_32
  {
    assert Canon(x) == x;
    if x < TWO_32 {
      assert Canon(x - TWO_32) == x - TWO_32 + P;
      assert x % TWO_32 == x;
    } else {
      assert Canon(x - TWO_32) == x - TWO_32;
      assert x % TWO_32 == x - TWO_32;
    }
  }

  // ---------------------------------------------------------------------
  // Rust integer helpers shared by the trace generators
  // ---------------------------------------------------------------------

  predicate IsPow2(n: nat)
  {
    n == 1 || (n > 1 && n % 2 == 0 && IsPow2(n / 2))
  }

  function NextPow2From(n: nat, p: nat): (r: nat)
    requires IsPow2(p)
    ensures IsPow2(r) && r >= n && r >= p
    ensures p >= n ==> r == p
    ensures p < n ==> r / 2 < n
    decreases n - p
  {
    if p >= n then p else NextPow2From(n, 2 * p)
  }

  /** usize::next_power_of_two: the least power of two that is >= n (1 for 0). */
  function NextPow2(n: nat): (r: nat)
    ensures IsPow2(r) && r >= n && r >= 1
    ensures r == 1 || r / 2 < n
  {
    NextPow2From(n, 1)
  }

  /** Between two powers of two, the smaller one is at most half the larger. */
  lemma {:induction false} Pow2Gap(p: nat, n: nat)
    requires IsPow2(p) && IsPow2(n) && p < n
    ensures 2 * p <= n
    decreases p
  {
    if p > 1 {
      Pow2Gap(p / 2, n / 2);
    }
  }

  /** next_power_of_two leaves a power of two unchanged. */
  lemma NextPow2OfPow2(n: nat)
    ensures IsPow2(n) ==> NextPow2(n) == n
  {
    var r := NextPow2(n);
    if IsPow2(n) && r != n {
      assert r / 2 < n;
      Pow2Gap(n, r);
    }
  }

  function Max(a: int, b: int): int
  {
    if a >= b then a else b
  }
}
