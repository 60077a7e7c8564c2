// Constraint expressions, the constraint builder that collects them, their
// evaluation on packed field values, and the meaning of a yielded
// constraint for a trace (the four constraint kinds of the STARK back end).

module Expr {
  import opened Field

  /** Where a constraint applies (ConstraintType; `Always` is the default). */
  datatype ConstraintType = FirstRow | Always | Transition | LastRow

  /** Source location recorded by #[track_caller]. */
  datatype Location = Location(file: string, line: nat)

  /** A constraint term together with its kind and where it was added. */
  datatype Constraint<E> = Constraint(constraintType: ConstraintType, location: Location, term: E)

  /** Constraint::map: transform the term, keep kind and location. */
  function MapConstraint<E, E2>(c: Constraint<E>, f: E -> E2): (r: Constraint<E2>)
    ensures r.constraintType == c.constraintType && r.location == c.location
    ensures r.term == f(c.term)
  {
    Constraint(c.constraintType, c.location, f(c.term))
  }

  /** Collects constraints in the order they are added. */
  class ConstraintBuilder<E> {
    var constraints: seq<Constraint<E>>

    /** ConstraintBuilder::default: no constraints yet. */
    constructor ()
      ensures constraints == []
    {
      constraints := [];
    }

    /** From<Vec<Constraint<E>>>: wrap an existing list. */
    constructor FromVec(cs: seq<Constraint<E>>)
      ensures constraints == cs
    {
      constraints := cs;
    }

    method AddConstraint(constraintType: ConstraintType, term: E, location: Location)
      modifies this
      ensures constraints == old(constraints) + [Constraint(constraintType, location, term)]
    {
      constraints := constraints + [Constraint(constraintType, location, term)];
    }

    method FirstRow(term: E, location: Location)
      modifies this
      ensures constraints == old(constraints) + [Constraint(ConstraintType.FirstRow, location, term)]
    {
      AddConstraint(ConstraintType.FirstRow, term, location);
    }

    method LastRow(term: E, location: Location)
      modifies this
      ensures constraints == old(constraints) + [Constraint(ConstraintType.LastRow, location, term)]
    {
      AddConstraint(ConstraintType.LastRow, term, location);
    }

    method Always(term: E, location: Location)
      modifies this
      ensures constraints == old(constraints) + [Constraint(ConstraintType.Always, location, term)]
    {
      AddConstraint(ConstraintType.Always, term, location);
    }

    method Transition(term: E, location: Location)
      modifies this
      ensures constraints == old(constraints) + [Constraint(ConstraintType.Transition, location, term)]
    {
      AddConstraint(ConstraintType.Transition, term, location);
    }
  }

  // ---------------------------------------------------------------------
  // Expressions and their evaluation
  // ---------------------------------------------------------------------

  type I64 = x: int | -0x8000_0000_0000_0000 <= x < 0x8000_0000_0000_0000

  datatype BinOp = Add | Mul
  datatype UnaOp = Neg

  /** A symbolic expression over variables of type V. */
  datatype Expr<V> =
    | Lit(value: I64)
    | Var(v: V)
    | Bin(op: BinOp, left: Expr<V>, right: Expr<V>)
    | Una(unaOp: UnaOp, operand: Expr<V>)

  /** PackedFieldEvaluator: every operation is the field operation. */
  function EvalPacked(e: Expr<Felt>): Felt
  {
    match e
    case Lit(value) => Canon(value)
    case Var(v) => v
    case Bin(op, l, r) =>
      if op == Add then (EvalPacked(l) + EvalPacked(r)) % P
      else (EvalPacked(l) * EvalPacked(r)) % P
    case Una(_, x) => Canon(0 - EvalPacked(x) as int)
  }

  /** Reference meaning of an expression: its value over the integers. */
  function IntValue(e: Expr<Felt>): int
  {
    match e
    case Lit(value) => value
    case Var(v) => v
    case Bin(op, l, r) =>
      if op == Add then IntValue(l) + IntValue(r)
      else IntValue(l) * IntValue(r)
    case Una(_, x) => -IntValue(x)
  }

  lemma CanonAdd(a: int, b: int)
    ensures (Canon(a) + Canon(b)) % P == Canon(a + b)
  {
    var qa, qb := a / P, b / P;
    assert Canon(a) + Canon(b) == (a + b) - (qa + qb) * P;
  }

  lemma MulExpand(a: int, b: int, qa: int, qb: int, x: int, y: int)
    requires a == qa * P + x && b == qb * P + y
    ensures a * b == x * y + (qa * b + x * qb) * P
  {
    assert a * b == qa * P * b + x * b;
    assert x * b == x * qb * P + x * y;
  }

  lemma ModShift(v: int, k: int)
    ensures (v + k * P) % P == v % P
  {
  }

  lemma MulModCore(a: int, b: int, qa: int, qb: int, x: int, y: int)
    requires a == qa * P + x && b == qb * P + y
    ensures (x * y) % P == (a * b) % P
  {
    MulExpand(a, b, qa, qb, x, y);
    ModShift(x * y, qa * b + x * qb);
  }

  lemma CanonMul(a: int, b: int)
    ensures (Canon(a) * Canon(b)) % P == Canon(a * b)
  {
    MulModCore(a, b, a / P, b / P, a % P, b % P);
  }

  lemma CanonNeg(a: int)
    ensures Canon(0 - Canon(a) as int) == Canon(-a)
  {
    var q := a / P;
    var x: int := Canon(a);
    assert 0 - x == -a + q * P;
  }

  /**
   * Packed evaluation is the field image of the integer value: evaluating
   * a constraint expression computes the polynomial in the field.
   */
  lemma {:induction false} EvalPackedIsIntValue(e: Expr<Felt>)
    ensures EvalPacked(e) == Canon(IntValue(e))
  {
    match e
    case Lit(_) =>
    case Var(v) =>
    case Bin(op, l, r) =>
      EvalPackedIsIntValue(l);
      EvalPackedIsIntValue(r);
      if op == Add {
        CanonAdd(IntValue(l), IntValue(r));
      } else {
        CanonMul(IntValue(l), IntValue(r));
      }
    case Una(_, x) =>
      EvalPackedIsIntValue(x);
      CanonNeg(IntValue(x));
  }

  // ---------------------------------------------------------------------
  // What the constraint consumer receives, and what it enforces
  // ---------------------------------------------------------------------

  /** One call into the constraint consumer: its kind and the term's value. */
  datatype Yield = Yield(kind: ConstraintType, term: int)

  /**
   * A yielded constraint holds at a row: `Always` on every row,
   * `Transition` on every row but the last, `FirstRow` / `LastRow` only on
   * that row. On every row the "next" row of the last row is the first.
   */
  predicate HoldsAt(y: Yield, isFirst: bool, isLast: bool)
  {
    match y.kind
    case Always => IsZero(y.term)
    case Transition => isLast || IsZero(y.term)
    case FirstRow => !isFirst || IsZero(y.term)
    case LastRow => !isLast || IsZero(y.term)
  }

  predicate AllHold(ys: seq<Yield>, isFirst: bool, isLast: bool)
  {
    forall k :: 0 <= k < |ys| ==> HoldsAt(ys[k], isFirst, isLast)
  }

  /** A row pair in the middle of the trace (neither first nor last row). */
  predicate HoldsInterior(ys: seq<Yield>)
  {
    AllHold(ys, false, false)
  }

  /**
   * A trace satisfies a constraint generator when every row, paired with
   * its successor (the first row for the last), satisfies what it yields.
   */
  predicate TraceSatisfies<R>(rows: seq<R>, gen: (R, R) -> seq<Yield>)
  {
    forall k :: 0 <= k < |rows| ==>
      AllHold(gen(rows[k], NextRow(rows, k)), k == 0, k == |rows| - 1)
  }

  /** The row that follows row k; the first row follows the last. */
  function NextRow<R>(rows: seq<R>, k: nat): R
    requires k < |rows|
  {
    rows[(k + 1) % |rows|]
  }

  lemma AllHoldAppend(a: seq<Yield>, b: seq<Yield>, isFirst: bool, isLast: bool)
    ensures AllHold(a + b, isFirst, isLast) <==> AllHold(a, isFirst, isLast) && AllHold(b, isFirst, isLast)
  {
    if AllHold(a, isFirst, isLast) && AllHold(b, isFirst, isLast) {
      forall k | 0 <= k < |a + b|
        ensures HoldsAt((a + b)[k], isFirst, isLast)
      {
        if k >= |a| {
          assert (a + b)[k] == b[k - |a|];
        }
      }
    }
    if AllHold(a + b, isFirst, isLast) {
      forall k | 0 <= k < |b|
        ensures HoldsAt(b[k], isFirst, isLast)
      {
        assert (a + b)[|a| + k] == b[k];
      }
      forall k | 0 <= k < |a|
        ensures HoldsAt(a[k], isFirst, isLast)
      {
        assert (a + b)[k] == a[k];
      }
    }
  }

  /**
   * build_packed: evaluate every collected constraint and pass it, in
   * insertion order, to the consumer entry point of its kind.
   */
  method BuildPacked(cb: ConstraintBuilder<Expr<Felt>>) returns (emitted: seq<Yield>)
    ensures |emitted| == |cb.constraints|
    ensures forall k :: 0 <= k < |emitted| ==>
      emitted[k].kind == cb.constraints[k].constraintType &&
      emitted[k].term == Canon(IntValue(cb.constraints[k].term))
  {
    var evaluated: seq<Constraint<Felt>> := [];
    var i := 0;
    while i < |cb.constraints|
      invariant 0 <= i <= |cb.constraints|
      invariant |evaluated| == i
      invariant forall k :: 0 <= k < i ==>
        evaluated[k] == MapConstraint(cb.constraints[k], EvalPacked)
    {
      evaluated := evaluated + [MapConstraint(cb.constraints[i], EvalPacked)];
      i := i + 1;
    }
    emitted := [];
    for j := 0 to |evaluated|
      invariant |emitted| == j
      invariant forall k :: 0 <= k < j ==>
        emitted[k] == Yield(evaluated[k].constraintType, evaluated[k].term)
    {
      var c := evaluated[j];
      match c.constraintType
      case FirstRow => emitted := emitted + [Yield(FirstRow, c.term)];
      case Always => emitted := emitted + [Yield(Always, c.term)];
      case Transition => emitted := emitted + [Yield(Transition, c.term)];
      case LastRow => emitted := emitted + [Yield(LastRow, c.term)];
    }
    forall k | 0 <= k < |emitted|
      ensures emitted[k].term == Canon(IntValue(cb.constraints[k].term))
    {
      EvalPackedIsIntValue(cb.constraints[k].term);
    }
  }

  /**
   * What the consumer enforces for built constraints is exactly the
   * vanishing of each constraint polynomial over the integers modulo P.
   */
  lemma BuiltConstraintsHold(cs: seq<Constraint<Expr<Felt>>>, ys: seq<Yield>, isFirst: bool, isLast: bool)
    requires |ys| == |cs|
    requires forall k :: 0 <= k < |ys| ==>
      ys[k].kind == cs[k].constraintType && ys[k].term == Canon(IntValue(cs[k].term))
    ensures AllHold(ys, isFirst, isLast) <==>
      AllHold(seq(|cs|, k requires 0 <= k < |cs| => Yield(cs[k].constraintType, IntValue(cs[k].term))), isFirst, isLast)
  {
    var zs := seq(|cs|, k requires 0 <= k < |cs| => Yield(cs[k].constraintType, IntValue(cs[k].term)));
    forall k | 0 <= k < |cs|
      ensures HoldsAt(ys[k], isFirst, isLast) <==> HoldsAt(zs[k], isFirst, isLast)
    {
      var t := IntValue(cs[k].term);
      IsZeroShift(Canon(t), -((Canon(t) - t) / P));
      assert IsZero(Canon(t)) <==> IsZero(t) by {
        var q := t / P;
        assert Canon(t) == t - q * P;
        IsZeroShift(t, -q);
      }
    }
  }
}
