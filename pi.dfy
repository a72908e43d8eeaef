/** The imperative side of PI.h: Pi_BSR writing its triple through out-parameters
    and bumping the shared progress counter, and Pi sequencing the precision,
    the limit check, the evaluation and the final numerator and denominator.
    The globals `iterations` and `steps` (PI.h:58-59) are the fields of an
    Evaluator object that both methods update. */
module PiProgram {
  import opened BinarySplitting
  import opened Limits
  import Series

  datatype Error = LimitExceeded

  /** What Pi hands to the division: numerator / denominator, or the error thrown. */
  datatype Outcome = Ok(numerator: int, denominator: int) | Err(error: Error)

  class Evaluator {
    /** Completed combine steps, the atomic counter `iterations` (PI.h:58). */
    var iterations: nat
    /** Combine steps the run will perform, `steps` (PI.h:59). */
    var steps: nat

    constructor ()
      ensures iterations == 0 && steps == 0
    {
      iterations := 0;
      steps := 0;
    }

    /** Binary splitting over [a, b) (PI.h:61-119). Whatever the thread budget
        tds, the triple is BSR(a, b) and the counter grows by one per combine. */
    method PiBSR(a: nat, b: nat, p: nat, tds: int) returns (P: int, Q: int, R: int)
      requires a < b <= MaxLeaf
      modifies this
      ensures Triple(P, Q, R) == BSR(a, b)
      ensures iterations == old(iterations) + CombineCount(a, b)
      ensures steps == old(steps)
      decreases b - a
    {
      if b - a == 1 {
        // P = (13591409 + 545140134 b)(2b-1)(6b-5)(6b-1) (-1)^b
        P := b * 545140134;
        P := P + 13591409;
        P := P * Wrap32(2 * b - 1);
        P := P * Wrap32(6 * b - 5);
        P := P * Wrap32(6 * b - 1);
        if b % 2 == 1 {
          P := -P;
        }
        // Q = 10939058860032000 b^3
        Q := b;
        Q := Q * Q * Q * 26726400 * 409297880;
        // R = (2b-1)(6b-5)(6b-1)
        R := Wrap32(2 * b - 1);
        R := R * Wrap32(6 * b - 5);
        R := R * Wrap32(6 * b - 1);
        assert Triple(P, Q, R) == LeafAsWritten(b);
        LeafExactBelowLimit(b);
        return;
      }

      var m := Wrap32(a + b) / 2;
      assert m == Mid(a, b);

      var P0, Q0, R0, P1, Q1, R1;
      if tds == 1 {
        P0, Q0, R0 := PiBSR(a, m, p, 1);
        P1, Q1, R1 := PiBSR(m, b, p, 1);
      } else {
        // The two halves run on their own threads in the source; they share
        // nothing but the counter, so running them in turn gives the same state.
        var shares := SplitBudget(tds);
        var tds0, tds1 := shares.0, shares.1;
        P0, Q0, R0 := PiBSR(a, m, p, tds0);
        P1, Q1, R1 := PiBSR(m, b, p, tds1);
      }

      P := P0 * Q1 + P1 * R0;
      Q := Q0 * Q1;
      R := R0 * R1;

      iterations := iterations + 1;
    }

    /** The integer part of Pi (PI.h:121-158): precision, term count, limit
        check before any evaluation, the series over [0, terms), and the
        numerator Q 13591409 + P over the denominator Q 4270934400, whose
        quotient is the Chudnovsky partial sum up to k = terms over 4270934400. */
    method Pi(digits: nat, threads: int) returns (r: Outcome)
      requires digits < Two64
      modifies this
      ensures steps == Terms(Precision(digits)) - 1
      ensures r.Err? <==> ExceedsLimit(Terms(Precision(digits)))
      ensures r.Err? ==> r.error == LimitExceeded && iterations == old(iterations)
      ensures r.Ok? ==> iterations == old(iterations) + steps
      ensures r.Ok? ==>
        var t := BSR(0, steps + 1);
        r.numerator == t.Q * 13591409 + t.P && r.denominator == t.Q * 4270934400
      ensures r.Ok? ==>
        r.denominator > 0 &&
        r.numerator as real / r.denominator as real == Series.PartialSum(steps + 1) / 4270934400.0
    {
      var p := Precision(digits);
      var terms := Terms(p);
      steps := terms - 1;

      if ExceedsLimit(terms) {
        return Err(LimitExceeded);
      }

      var P, Q, R := PiBSR(0, terms, p, threads);
      assert steps + 1 == terms;
      P := Q * 13591409 + P;
      Q := Q * 4270934400;
      Series.FinalFractionIsSeries(steps + 1, P, Q);
      return Ok(P, Q);
    }
  }
}
