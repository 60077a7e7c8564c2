// Bit-level arithmetic on natural numbers: powers of two, the bitwise
// operators XOR, AND and OR defined bit by bit, little-endian byte limbs
// and plonky2's reduce_with_powers. The XOR, bitwise and CPU tables state
// their meaning in these terms.

module Bits {

  function Pow2(j: nat): (r: nat)
    ensures r >= 1
  {
    if j == 0 then 1 else 2 * Pow2(j - 1)
  }

  lemma {:induction false} Pow2Add(i: nat, j: nat)
    ensures Pow2(i + j) == Pow2(i) * Pow2(j)
  {
    if i > 0 {
      Pow2Add(i - 1, j);
    }
  }

  /** Bitwise exclusive or, lowest bit first. */
  function Xor(a: nat, b: nat): nat
    decreases a + b
  {
    if a == 0 && b == 0 then 0 else (a % 2 + b % 2) % 2 + 2 * Xor(a / 2, b / 2)
  }

  /** Bitwise and, lowest bit first. */
  function And(a: nat, b: nat): nat
    decreases a + b
  {
    if a == 0 && b == 0 then 0 else (a % 2) * (b % 2) + 2 * And(a / 2, b / 2)
  }

  /** Bitwise or, lowest bit first. */
  function Or(a: nat, b: nat): nat
    decreases a + b
  {
    if a == 0 && b == 0 then 0 else (if a % 2 == 1 || b % 2 == 1 then 1 else 0) + 2 * Or(a / 2, b / 2)
  }

  /** The recursion of Xor also holds when both arguments are zero. */
  lemma XorUnfold(a: nat, b: nat)
    ensures Xor(a, b) == (a % 2 + b % 2) % 2 + 2 * Xor(a / 2, b / 2)
  {
  }

  /**
   * The half-adder identities behind the CPU's AND and OR gadgets:
   * a + b = (a ^ b) + 2 (a & b) and a | b = (a ^ b) + (a & b).
   */
  lemma {:induction false} HalfAdder(a: nat, b: nat)
    ensures a + b == Xor(a, b) + 2 * And(a, b)
    ensures Or(a, b) == Xor(a, b) + And(a, b)
    decreases a + b
  {
    if a != 0 || b != 0 {
      HalfAdder(a / 2, b / 2);
      XorUnfold(a, b);
    }
  }

  /** Xor(a, a) is zero: the xor of a value with itself clears every bit. */
  lemma {:induction false} XorSelf(a: nat)
    ensures Xor(a, a) == 0
    decreases a
  {
    if a != 0 {
      XorSelf(a / 2);
    }
  }

  /** The xor of two j-bit numbers is a j-bit number. */
  lemma {:induction false} XorBound(a: nat, b: nat, j: nat)
    requires a < Pow2(j) && b < Pow2(j)
    ensures Xor(a, b) < Pow2(j)
    decreases j
  {
    if j > 0 && (a != 0 || b != 0) {
      XorBound(a / 2, b / 2, j - 1);
    }
  }

  lemma MulAtLeast(d: int, m: int)
    requires d >= 1 && m >= 0
    ensures d * m >= m
  {
    assert d * m == m + (d - 1) * m;
  }

  lemma MulAtLeastImp(d: int, m: int)
    ensures d >= 1 && m >= 0 ==> d * m >= m
  {
    if d >= 1 && m >= 0 {
      MulAtLeast(d, m);
    }
  }

  /** Quotient and remainder are determined by x = q m + r with 0 <= r < m. */
  lemma DivModUnique(x: int, m: int, q: int, r: int)
    requires m > 0 && 0 <= r < m && x == q * m + r
    ensures x / m == q && x % m == r
  {
    var q' := x / m;
    var r' := x % m;
    assert (q - q') * m == r' - r;
    if q > q' {
      MulAtLeast(q - q', m);
    } else if q < q' {
      MulAtLeast(q' - q, m);
    }
  }

  lemma DivTwice(x: nat, m: nat)
    requires m >= 1
    ensures x / (2 * m) == (x / 2) / m
    ensures x % (2 * m) == x % 2 + 2 * ((x / 2) % m)
  {
    var q := (x / 2) / m;
    var r := (x / 2) % m;
    assert x / 2 == q * m + r;
    assert x == q * (2 * m) + (x % 2 + 2 * r);
    DivModUnique(x, 2 * m, q, x % 2 + 2 * r);
  }

  lemma DivBounds(a: nat, m: nat)
    requires m >= 1
    ensures 0 <= a / m <= a
  {
    var q := a / m;
    assert a == q * m + a % m;
    MulAtLeastImp(-q, m);
    MulAtLeastImp(q, m);
  }

  /** a >> log2(m): division by a positive divisor, as a natural number. */
  function Shr(a: nat, m: nat): (r: nat)
    requires m >= 1
  {
    DivBounds(a, m);
    a / m
  }

  /** Halving a xor halves both arguments; its low bit is the sum of theirs mod 2. */
  lemma XorHalf(a: nat, b: nat)
    ensures Xor(a, b) / 2 == Xor(a / 2, b / 2)
    ensures Xor(a, b) % 2 == (a % 2 + b % 2) % 2
  {
    XorUnfold(a, b);
    DivModUnique(Xor(a, b), 2, Xor(a / 2, b / 2), (a % 2 + b % 2) % 2);
  }

  lemma ModHalf(a: nat, m: nat)
    requires m >= 1
    ensures (a % (2 * m)) % 2 == a % 2 && (a % (2 * m)) / 2 == (a / 2) % m
  {
    DivTwice(a, m);
    DivModUnique(a % (2 * m), 2, (a / 2) % m, a % 2);
  }

  /** Xor commutes with dropping the low j bits. */
  lemma {:induction false} XorSplitDiv(a: nat, b: nat, j: nat)
    ensures Xor(a, b) / Pow2(j) == Xor(Shr(a, Pow2(j)), Shr(b, Pow2(j)))
    decreases j
  {
    if j > 0 {
      var m := Pow2(j - 1);
      assert Pow2(j) == 2 * m;
      var x := Xor(a, b);
      assert x / (2 * m) == (x / 2) / m by {
        DivTwice(x, m);
      }
      assert x / 2 == Xor(a / 2, b / 2) by {
        XorHalf(a, b);
      }
      XorSplitDiv(a / 2, b / 2, j - 1);
      assert Shr(a / 2, m) == Shr(a, 2 * m) && Shr(b / 2, m) == Shr(b, 2 * m) by {
        DivTwice(a, m);
        DivTwice(b, m);
      }
      assert x / Pow2(j) == Xor(Shr(a / 2, m), Shr(b / 2, m));
    } else {
      assert Pow2(0) == 1 && Shr(a, 1) == a && Shr(b, 1) == b;
    }
  }

  /** Xor commutes with keeping the low j bits. */
  lemma {:induction false} XorSplitMod(a: nat, b: nat, j: nat)
    ensures Xor(a, b) % Pow2(j) == Xor(a % Pow2(j), b % Pow2(j))
    decreases j
  {
    if j > 0 {
      var m := Pow2(j - 1);
      XorSplitMod(a / 2, b / 2, j - 1);
      XorHalf(a, b);
      DivTwice(Xor(a, b), m);
      ModHalf(a, m);
      ModHalf(b, m);
      XorUnfold(a % (2 * m), b % (2 * m));
    }
  }

  // ---------------------------------------------------------------------
  // Byte limbs and reduce_with_powers
  // ---------------------------------------------------------------------

  function Pow256(k: nat): (r: nat)
    ensures r >= 1
  {
    if k == 0 then 1 else 256 * Pow256(k - 1)
  }

  lemma {:induction false} Pow256IsPow2(k: nat)
    ensures Pow256(k) == Pow2(8 * k)
  {
    if k > 0 {
      Pow256IsPow2(k - 1);
      Pow2Add(8, 8 * (k - 1));
    }
  }

  /** Byte k of u32::to_le_bytes. */
  function Byte(v: nat, k: nat): (r: nat)
    ensures r < 256
  {
    (v / Pow256(k)) % 256
  }

  /** u32::to_le_bytes as four limbs, least significant first. */
  function LeBytes(v: nat): (r: seq<nat>)
    ensures |r| == 4
    ensures forall k :: 0 <= k < 4 ==> r[k] == Byte(v, k)
  {
    [Byte(v, 0), Byte(v, 1), Byte(v, 2), Byte(v, 3)]
  }

  /** reduce_with_powers(terms, base): the sum of terms[i] * base^i. */
  function ReduceWithPowers(terms: seq<int>, base: int): int
  {
    if |terms| == 0 then 0 else terms[0] + base * ReduceWithPowers(terms[1..], base)
  }

  lemma DivMod256(v: nat, p: nat)
    requires p >= 1
    ensures v / p == (v / p) % 256 + 256 * (v / (256 * p))
  {
    var q := v / p;
    assert q == q % 256 + 256 * (q / 256);
    DivTwiceGeneral(v, p, 256);
  }

  lemma DivTwiceGeneral(x: nat, p: nat, m: nat)
    requires p >= 1 && m >= 1
    ensures (x / p) / m == x / (m * p)
  {
    var q := (x / p) / m;
    var r1 := x % p;
    var r2 := (x / p) % m;
    assert x / p == q * m + r2;
    assert x == q * (m * p) + (r2 * p + r1) by {
      assert x == (x / p) * p + r1;
    }
    assert r2 * p <= (m - 1) * p by {
      MulAtLeast(m - r2, p);
      assert (m - r2) * p == m * p - r2 * p;
    }
    DivModUnique(x, m * p, q, r2 * p + r1);
  }

  /** The bytes past position k reassemble v / 256^k. */
  lemma {:induction false} BytesFrom(v: nat, k: nat)
    requires v < Pow256(4)
    requires k <= 4
    ensures ReduceWithPowers(LeBytes(v)[k..], 256) == v / Pow256(k)
    decreases 4 - k
  {
    if k == 4 {
      assert LeBytes(v)[4..] == [];
    } else {
      BytesFrom(v, k + 1);
      assert LeBytes(v)[k..][1..] == LeBytes(v)[k + 1..];
      DivMod256(v, Pow256(k));
    }
  }

  /** The little-endian bytes of a u32 reduce, in base 256, to the value. */
  lemma LeBytesReduce(v: nat)
    requires v < Pow256(4)
    ensures ReduceWithPowers(LeBytes(v), 256) == v
  {
    BytesFrom(v, 0);
    assert LeBytes(v)[0..] == LeBytes(v);
  }

  predicate AllBytes(ls: seq<int>)
  {
    forall k :: 0 <= k < |ls| ==> 0 <= ls[k] < 256
  }

  /** Byte limbs reassemble a value below 256^|ls|. */
  lemma {:induction false} BytesReduceBound(ls: seq<int>)
    requires AllBytes(ls)
    ensures 0 <= ReduceWithPowers(ls, 256) < Pow256(|ls|)
  {
    if |ls| > 0 {
      BytesReduceBound(ls[1..]);
    }
  }

  /** Base-256 digits are unique: byte k of the reassembled value is limb k. */
  lemma {:induction false} ByteOfReduce(ls: seq<int>, k: nat)
    requires AllBytes(ls) && k < |ls|
    ensures ReduceWithPowers(ls, 256) >= 0 && Byte(ReduceWithPowers(ls, 256), k) == ls[k]
    decreases k
  {
    BytesReduceBound(ls);
    BytesReduceBound(ls[1..]);
    var v := ReduceWithPowers(ls, 256);
    var rest := ReduceWithPowers(ls[1..], 256);
    DivModUnique(v, 256, rest, ls[0]);
    if k > 0 {
      ByteOfReduce(ls[1..], k - 1);
      DivTwiceGeneral(v, 256, Pow256(k - 1));
      assert Pow256(k) == Pow256(k - 1) * 256;
    }
  }

  /** Four byte limbs that reassemble v are the little-endian bytes of v. */
  lemma LimbsAreLeBytes(v: nat, ls: seq<int>)
    requires |ls| == 4 && AllBytes(ls) && ReduceWithPowers(ls, 256) == v
    ensures ls == LeBytes(v)
  {
    forall k | 0 <= k < 4
      ensures ls[k] == LeBytes(v)[k]
    {
      ByteOfReduce(ls, k);
    }
  }

  /**
   * Limb-wise xor of byte limbs is the xor of the values they reassemble.
   */
  lemma XorOfLimbs(xs: seq<int>, ys: seq<int>, zs: seq<int>)
    requires |xs| == |ys| == |zs| == 4 && AllBytes(xs) && AllBytes(ys)
    requires forall k :: 0 <= k < 4 ==> xs[k] >= 0 && ys[k] >= 0 && zs[k] == Xor(xs[k], ys[k])
    ensures ReduceWithPowers(xs, 256) >= 0 && ReduceWithPowers(ys, 256) >= 0
    ensures ReduceWithPowers(zs, 256) == Xor(ReduceWithPowers(xs, 256), ReduceWithPowers(ys, 256))
  {
    BytesReduceBound(xs);
    BytesReduceBound(ys);
    var a := ReduceWithPowers(xs, 256);
    var b := ReduceWithPowers(ys, 256);
    LimbsAreLeBytes(a, xs);
    LimbsAreLeBytes(b, ys);
    Pow256IsPow2(4);
    XorBound(a, b, 32);
    forall k | 0 <= k < 4
      ensures zs[k] == LeBytes(Xor(a, b))[k]
    {
      XorByte(a, b, k);
    }
    assert zs == LeBytes(Xor(a, b));
    LeBytesReduce(Xor(a, b));
  }

  /** Byte k of a xor is the xor of the bytes. */
  lemma XorByte(a: nat, b: nat, k: nat)
    ensures Byte(Xor(a, b), k) == Xor(Byte(a, k), Byte(b, k))
  {
    var p := Pow256(k);
    calc {
      Byte(Xor(a, b), k);
      (Xor(a, b) / p) % 256;
      { Pow256IsPow2(k); XorSplitDiv(a, b, 8 * k); }
      Xor(Shr(a, p), Shr(b, p)) % 256;
      { assert Pow2(8) == 256; XorSplitMod(Shr(a, p), Shr(b, p), 8); }
      Xor(Shr(a, p) % 256, Shr(b, p) % 256);
    }
  }

  /** The integer whose binary digits (lowest first) are bs. */
  function FromBits(bs: seq<int>): int
  {
    ReduceWithPowers(bs, 2)
  }

  predicate AllBinary(bs: seq<int>)
  {
    forall k :: 0 <= k < |bs| ==> bs[k] == 0 || bs[k] == 1
  }

  /** Binary digits reassemble a value below 2^|bs|. */
  lemma {:induction false} FromBitsBound(bs: seq<int>)
    requires AllBinary(bs)
    ensures 0 <= FromBits(bs) < Pow2(|bs|)
  {
    if |bs| > 0 {
      FromBitsBound(bs[1..]);
    }
  }

  /** The lowest binary digit is the value's parity; the rest is its half. */
  lemma FromBitsHalf(bs: seq<int>)
    requires |bs| > 0 && AllBinary(bs)
    ensures FromBits(bs) % 2 == bs[0] && FromBits(bs) / 2 == FromBits(bs[1..])
  {
    var r := FromBits(bs[1..]);
    var b := bs[0];
    assert FromBits(bs) == b + 2 * r;
    assert b == 0 || b == 1;
    DigitAndHalf(b, r);
  }

  lemma DigitAndHalf(b: int, r: int)
    requires b == 0 || b == 1
    ensures (b + 2 * r) % 2 == b && (b + 2 * r) / 2 == r
  {
  }

  /**
   * The XOR table's bit identity: when every out bit is a + b - 2ab of the
   * input bits, the out value is the xor of the input values.
   */
  lemma {:induction false} XorOfBits(xs: seq<int>, ys: seq<int>, zs: seq<int>)
    requires |xs| == |ys| == |zs|
    requires AllBinary(xs) && AllBinary(ys)
    requires forall k :: 0 <= k < |zs| ==> zs[k] == xs[k] + ys[k] - 2 * xs[k] * ys[k]
    ensures FromBits(xs) >= 0 && FromBits(ys) >= 0 && FromBits(zs) == Xor(FromBits(xs), FromBits(ys))
  {
    FromBitsBound(xs);
    FromBitsBound(ys);
    if |xs| > 0 {
      XorOfBits(xs[1..], ys[1..], zs[1..]);
      FromBitsBound(xs[1..]);
      FromBitsBound(ys[1..]);
      var x := FromBits(xs);
      var y := FromBits(ys);
      FromBitsHalf(xs);
      FromBitsHalf(ys);
      assert zs[0] == (xs[0] + ys[0]) % 2 by {
        assert zs[0] == xs[0] + ys[0] - 2 * xs[0] * ys[0];
      }
      assert FromBits(zs) == zs[0] + 2 * FromBits(zs[1..]);
      XorUnfold(x, y);
    } else {
      assert FromBits(xs) == 0 && FromBits(ys) == 0 && FromBits(zs) == 0;
      assert Xor(0, 0) == 0;
    }
  }

  /** The binary digits of v, lowest first, n of them. */
  function BitsOf(v: nat, n: nat): (r: seq<int>)
    ensures |r| == n && AllBinary(r)
  {
    if n == 0 then [] else [v % 2] + BitsOf(v / 2, n - 1)
  }

  /** The n binary digits of a value below 2^n reassemble it. */
  lemma {:induction false} BitsOfReduce(v: nat, n: nat)
    requires v < Pow2(n)
    ensures FromBits(BitsOf(v, n)) == v
  {
    if n > 0 {
      BitsOfReduce(v / 2, n - 1);
      assert BitsOf(v, n)[1..] == BitsOf(v / 2, n - 1);
    }
  }
  lemma Pow2Is32()
    ensures Pow2(32) == 0x1_0000_0000
  {
    Pow2Add(16, 16);
    Pow2Add(8, 8);
  }

  /** Bit k of a xor is a_k + b_k - 2 a_k b_k of the operands' bits k. */
  lemma {:induction false} BitsOfXor(a: nat, b: nat, n: nat)
    ensures forall k :: 0 <= k < n ==>
      BitsOf(Xor(a, b), n)[k] == BitsOf(a, n)[k] + BitsOf(b, n)[k] - 2 * BitsOf(a, n)[k] * BitsOf(b, n)[k]
  {
    if n > 0 {
      BitsOfXor(a / 2, b / 2, n - 1);
      XorHalf(a, b);
      forall k | 0 <= k < n
        ensures BitsOf(Xor(a, b), n)[k] == BitsOf(a, n)[k] + BitsOf(b, n)[k] - 2 * BitsOf(a, n)[k] * BitsOf(b, n)[k]
      {
        if k > 0 {
          assert BitsOf(Xor(a, b), n)[k] == BitsOf(Xor(a / 2, b / 2), n - 1)[k - 1];
          assert BitsOf(a, n)[k] == BitsOf(a / 2, n - 1)[k - 1];
          assert BitsOf(b, n)[k] == BitsOf(b / 2, n - 1)[k - 1];
        }
      }
    }
  }

  /** Binary digits are the only ones that reassemble their value. */
  lemma {:induction false} FromBitsUnique(bs: seq<int>)
    requires AllBinary(bs)
    ensures FromBits(bs) >= 0 && bs == BitsOf(FromBits(bs), |bs|)
  {
    FromBitsBound(bs);
    if |bs| > 0 {
      FromBitsUnique(bs[1..]);
      FromBitsBound(bs[1..]);
      var v := FromBits(bs);
      DivModUnique(v, 2, FromBits(bs[1..]), bs[0]);
    }
  }
}
