/** The fixed-width integer bookkeeping around the evaluator: the size_t
    precision and term count of Pi (PI.h:124-125), the 32-bit limit check
    (PI.h:131) and the uint32_t arithmetic of Pi_BSR (PI.h:68-69, 79-81, 86). */
module Limits {
  import opened BinarySplitting

  const Two32: int := 0x1_0000_0000
  const Two64: int := 0x1_0000_0000_0000_0000

  /** The largest leaf index b whose widest uint32_t factor, 6b-1, is below 2^32. */
  const MaxLeaf: nat := 715827882

  /** Reduction to uint32_t: unsigned C arithmetic is modulo 2^32. */
  function Wrap32(x: int): (r: nat)
    ensures r < Two32
    ensures 0 <= x < Two32 ==> r == x
    ensures (x - r) % Two32 == 0
  {
    x % Two32
  }

  /** The working precision in limbs of nine decimal digits, (digits + 9) / 9
      computed in size_t (PI.h:124). Without wrap-around it is floor(digits / 9) + 1:
      the p limbs hold more than `digits` digits and one limb fewer would not. */
  function Precision(digits: nat): (p: nat)
    requires digits < Two64
    ensures digits + 9 < Two64 ==> p >= 1 && 9 * (p - 1) <= digits < 9 * p
    ensures digits + 9 >= Two64 ==> p == 0
  {
    ((digits + 9) % Two64) / 9
  }

  /** Series terms needed per limb of precision (PI.h:125). */
  const TermsPerLimb: real := 0.6346230241342037371474889163921741077188431452678

  /** The number of series terms, floor(p * TermsPerLimb) + 1 (PI.h:125),
      with the product taken exactly. */
  function Terms(p: nat): (terms: nat)
    ensures terms >= 1
    ensures (terms - 1) as real <= p as real * TermsPerLimb < terms as real
  {
    var x := p as real * TermsPerLimb;
    assert x >= 0.0;
    x.Floor + 1
  }

  /** The check `(uint32_t)terms != terms` exactly as the source writes it (PI.h:131). */
  function ExceedsLimitAsWritten(terms: nat): (exceeded: bool)
    ensures exceeded <==> terms >= Two32
  {
    Wrap32(terms) != terms
  }

  /** The leaf exactly as PI.h:64-81 computes it: the factors 2b-1, 6b-5 and
      6b-1 are uint32_t expressions and wrap modulo 2^32, while b * 545140134,
      the cube of b and the products are exact BigFloat values. */
  function LeafAsWritten(b: nat): (t: Triple)
    requires b >= 1
    ensures t.Q == LeafQ(b)
    ensures t.R >= 0
  {
    var f1, f2, f3 := Wrap32(2 * b - 1), Wrap32(6 * b - 5), Wrap32(6 * b - 1);
    var p := (b * 545140134 + 13591409) * f1 * f2 * f3;
    var cube := b * b * b;
    assert cube * 26726400 * 409297880 == QFactor * cube;
    assert f1 * f2 * f3 >= 0 by {
      ProductNonNegative(f1, f2, f3);
    }
    Triple(if b % 2 == 1 then -p else p, cube * 26726400 * 409297880, f1 * f2 * f3)
  }

  lemma ProductNonNegative(x: nat, y: nat, z: nat)
    ensures x * y * z >= 0
  {
    assert x * y >= 0;
  }

  /** The midpoint exactly as PI.h:86 computes it, with a + b in uint32_t:
      the true midpoint while a + b fits 32 bits, and half of the wrapped sum
      once it does not. */
  function MidAsWritten(a: nat, b: nat): (m: nat)
    requires a < Two32 && b < Two32
    ensures m < Two32 / 2
    ensures a + b < Two32 ==> m == (a + b) / 2
    ensures a + b >= Two32 ==> m == (a + b - Two32) / 2
  {
    Wrap32(a + b) / 2
  }

  /** Up to MaxLeaf no leaf factor wraps, and the computed leaf is the
      Chudnovsky leaf. */
  lemma LeafExactBelowLimit(b: nat)
    requires 1 <= b <= MaxLeaf
    ensures LeafAsWritten(b) == Leaf(b)
  {
    var f1, f2, f3 := 2 * b - 1, 6 * b - 5, 6 * b - 1;
    assert Wrap32(f1) == f1 && Wrap32(f2) == f2 && Wrap32(f3) == f3;
    var c := 13591409 + 545140134 * b;
    assert (b * 545140134 + 13591409) * f1 * f2 * f3 == c * (f1 * f2 * f3);
    assert LeafR(b) == f1 * f2 * f3;
    assert b * b * b * 26726400 * 409297880 == QFactor * (b * b * b);
  }

  /** The corrected limit check: reject every term count for which some leaf
      factor or midpoint sum of the recursion over [0, terms) would leave uint32_t. */
  function ExceedsLimit(terms: nat): (exceeded: bool)
    ensures !exceeded <==> 6 * terms - 1 < Two32
  {
    terms > MaxLeaf
  }

  /** What the corrected check guarantees: within [0, terms) every leaf the
      source computes is exact and every midpoint is the true midpoint. */
  lemma BelowLimitNoWrap(terms: nat)
    requires !ExceedsLimit(terms)
    ensures forall b: nat :: 1 <= b <= terms ==> LeafAsWritten(b) == Leaf(b)
    ensures forall a: nat, b: nat :: a < b <= terms ==> MidAsWritten(a, b) == (a + b) / 2
  {
    forall b: nat | 1 <= b <= terms
      ensures LeafAsWritten(b) == Leaf(b)
    {
      LeafExactBelowLimit(b);
    }
  }

  /** The check as written lets terms = MaxLeaf + 1 through, yet the last leaf
      then computes 6b-1 as 1 and gets a wrong R (and P). */
  lemma LeafWrapCounterexample()
    ensures !ExceedsLimitAsWritten(MaxLeaf + 1)
    ensures Wrap32(6 * (MaxLeaf + 1) - 1) == 1
    ensures LeafAsWritten(MaxLeaf + 1).R != Leaf(MaxLeaf + 1).R
    ensures LeafAsWritten(MaxLeaf + 1).P != Leaf(MaxLeaf + 1).P
  {
    var b := MaxLeaf + 1;
    var f1, f2 := 2 * b - 1, 6 * b - 5;
    assert Wrap32(f1) == f1 && Wrap32(f2) == f2;
    var r := f1 * f2;
    assert LeafAsWritten(b).R == r * 1;
    assert Leaf(b).R == r * (6 * b - 1);
    var c := b * 545140134 + 13591409;
    assert LeafAsWritten(b).P == -(c * r);
    assert Leaf(b).P == -(c * (r * (6 * b - 1))) by {
      LeafPSign(b);
    }
  }

  /** The check as written lets terms = 2^32 - 1 through; the right half
      [2^31 - 1, 2^32 - 1) of the first split then gets a wrapped midpoint
      below its own lower end. Further right-most splits reach [1, 2^32 - 1),
      whose wrapped midpoint 0 makes its right child the whole root range
      again, and a reversed range [x+1, x) splits into itself: the recursion
      does not terminate. */
  lemma MidpointWrapCounterexample()
    ensures !ExceedsLimitAsWritten(Two32 - 1)
    ensures MidAsWritten(0, Two32 - 1) == Two32 / 2 - 1
    ensures MidAsWritten(Two32 / 2 - 1, Two32 - 1) < Two32 / 2 - 1
    ensures MidAsWritten(1, Two32 - 1) == 0
    ensures MidAsWritten(1073741824, 1073741823) == 1073741823
  {
  }
}
