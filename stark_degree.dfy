// The default methods of a STARK: how many quotient polynomials its
// constraints need, from the constraint degree and the number of
// challenges.

module StarkDegree {
  import opened Wrappers
  import CpuStark
  import CpuFlat
  import XorStark
  import BitwiseStark

  /**
   * quotient_degree_factor: max(1, degree - 1). A degree of 0 underflows
   * the usize subtraction, which is reported as None.
   */
  function QuotientDegreeFactor(constraintDegree: nat): (r: Option<nat>)
    ensures r.Some? <==> constraintDegree >= 1
    ensures r.Some? ==> r.value >= 1 && r.value >= constraintDegree - 1
    ensures r.Some? && constraintDegree >= 2 ==> r.value == constraintDegree - 1
  {
    if constraintDegree == 0 then None
    else if constraintDegree - 1 >= 1 then Some(constraintDegree - 1) else Some(1)
  }

  /** num_quotient_poly: the factor times the number of challenges. */
  function NumQuotientPoly(constraintDegree: nat, numChallenges: nat): (r: Option<nat>)
    ensures r.Some? <==> constraintDegree >= 1
    ensures r.Some? ==> r.value >= numChallenges
    ensures r.Some? ==> r.value == QuotientDegreeFactor(constraintDegree).value * numChallenges
  {
    match QuotientDegreeFactor(constraintDegree)
    case None => None
    case Some(f) => Some(f * numChallenges)
  }

  /**
   * The factor is the least k >= 1 such that a degree-d constraint divided
   * by the vanishing polynomial fits in k chunks: (d - 1) <= k.
   */
  lemma QuotientDegreeFactorIsLeast(constraintDegree: nat, k: nat)
    requires constraintDegree >= 1 && k >= 1 && k >= constraintDegree - 1
    ensures QuotientDegreeFactor(constraintDegree).value <= k
  {
  }

  /**
   * The tables of this model: the degree-3 CPU, XOR and bitwise tables
   * need two quotient chunks per challenge, the degree-2 flat CPU one.
   */
  lemma TableFactors(numChallenges: nat)
    ensures QuotientDegreeFactor(CpuStark.CONSTRAINT_DEGREE) == Some(2)
    ensures QuotientDegreeFactor(XorStark.CONSTRAINT_DEGREE) == Some(2)
    ensures QuotientDegreeFactor(BitwiseStark.CONSTRAINT_DEGREE) == Some(2)
    ensures QuotientDegreeFactor(CpuFlat.CONSTRAINT_DEGREE) == Some(1)
    ensures NumQuotientPoly(CpuStark.CONSTRAINT_DEGREE, numChallenges) == Some(2 * numChallenges)
  {
  }
}
