/** The closed form of the binary-splitting triple as sums and products over
    the leaf indices k = a+1 .. b, and the facts that follow from it: the
    recursion of Pi_BSR computes exactly that closed form, so its result does
    not depend on where a range is split. */
module ClosedForm {
  import opened BinarySplitting

  /** Product of LeafQ(k) for k = a+1 .. b (1 for an empty range). */
  function ProdQ(a: nat, b: nat): (q: int)
    requires a <= b
    ensures q > 0
    decreases b - a
  {
    if a == b then 1 else ProdQ(a, b - 1) * LeafQ(b)
  }

  /** Product of LeafR(k) for k = a+1 .. b (1 for an empty range). */
  function ProdR(a: nat, b: nat): (r: int)
    requires a <= b
    ensures r > 0
    decreases b - a
  {
    if a == b then 1 else ProdR(a, b - 1) * LeafR(b)
  }

  /** The k-th summand of P over [a, b): LeafP(k) times the R of every index
      before k and the Q of every index after k. */
  function Term(a: nat, k: nat, b: nat): int
    requires a < k <= b
  {
    LeafP(k) * ProdR(a, k - 1) * ProdQ(k, b)
  }

  /** Sum of Term(a, k, b) for k = a+1 .. n. */
  function SumTo(a: nat, n: nat, b: nat): int
    requires a <= n <= b
    decreases n - a
  {
    if n == a then 0 else SumTo(a, n - 1, b) + Term(a, n, b)
  }

  /** The closed-form triple of [a, b); for an empty range it is (0, 1, 1),
      the neutral element of Combine. */
  function Closed(a: nat, b: nat): Triple
    requires a <= b
  {
    Triple(SumTo(a, b, b), ProdQ(a, b), ProdR(a, b))
  }

  lemma {:induction false} ProdQSplit(a: nat, m: nat, b: nat)
    requires a <= m <= b
    ensures ProdQ(a, b) == ProdQ(a, m) * ProdQ(m, b)
    decreases b - m
  {
    if b > m {
      ProdQSplit(a, m, b - 1);
      var x, y, z := ProdQ(a, m), ProdQ(m, b - 1), LeafQ(b);
      assert ProdQ(a, b) == (x * y) * z;
      assert ProdQ(m, b) == y * z;
      MulAssoc(x, y, z);
    }
  }

  lemma {:induction false} ProdRSplit(a: nat, m: nat, b: nat)
    requires a <= m <= b
    ensures ProdR(a, b) == ProdR(a, m) * ProdR(m, b)
    decreases b - m
  {
    if b > m {
      ProdRSplit(a, m, b - 1);
      var x, y, z := ProdR(a, m), ProdR(m, b - 1), LeafR(b);
      assert ProdR(a, b) == (x * y) * z;
      assert ProdR(m, b) == y * z;
      MulAssoc(x, y, z);
    }
  }

  /** The summands for k <= m of [a, b) are those of [a, m) times the Q of (m, b]. */
  lemma {:induction false} LowPart(a: nat, n: nat, m: nat, b: nat)
    requires a <= n <= m <= b
    ensures SumTo(a, n, b) == SumTo(a, n, m) * ProdQ(m, b)
    decreases n - a
  {
    if n > a {
      LowPart(a, n - 1, m, b);
      ProdQSplit(n, m, b);
      var x, y, z := LeafP(n) * ProdR(a, n - 1), ProdQ(n, m), ProdQ(m, b);
      assert Term(a, n, b) == x * (y * z);
      assert Term(a, n, m) == x * y;
      var s0 := SumTo(a, n - 1, m);
      assert SumTo(a, n, b) == s0 * z + x * (y * z);
      assert SumTo(a, n, m) == s0 + x * y;
      Factor(s0, x, y, z);
    }
  }

  lemma Factor(s: int, x: int, y: int, z: int)
    ensures s * z + x * (y * z) == (s + x * y) * z
  {
    MulAssoc(x, y, z);
    Distrib(s, x * y, z);
  }

  /** The summands for k > m of [a, b) are those of [m, b) times the R of (a, m]. */
  lemma {:induction false} HighPart(a: nat, m: nat, n: nat, b: nat)
    requires a <= m <= n <= b
    ensures SumTo(a, n, b) == SumTo(a, m, b) + SumTo(m, n, b) * ProdR(a, m)
    decreases n - m
  {
    if n > m {
      HighPart(a, m, n - 1, b);
      ProdRSplit(a, m, n - 1);
      var x, y, z := LeafP(n), ProdR(m, n - 1), ProdQ(n, b);
      var r := ProdR(a, m);
      assert Term(a, n, b) == x * (r * y) * z;
      assert Term(m, n, b) == x * y * z;
      var s0, s1 := SumTo(a, m, b), SumTo(m, n - 1, b);
      assert SumTo(a, n, b) == s0 + s1 * r + x * (r * y) * z;
      assert SumTo(m, n, b) == s1 + x * y * z;
      Regroup(x, y, z, r, s0, s1);
    }
  }

  lemma Regroup(x: int, y: int, z: int, r: int, s0: int, s1: int)
    ensures s0 + s1 * r + x * (r * y) * z == s0 + (s1 + x * y * z) * r
  {
    MulAssoc(x, r, y);
    MulAssoc(x * r, y, z);
    MulAssoc(x, y, r);
    MulAssoc(x * y, r, z);
    MulAssoc(x * y, z, r);
    Distrib(s1, x * y * z, r);
  }

  lemma MulAssoc(x: int, y: int, z: int)
    ensures (x * y) * z == x * (y * z)
  {
  }

  lemma Distrib(x: int, y: int, z: int)
    ensures (x + y) * z == x * z + y * z
  {
  }

  /** Combining the closed forms of two adjacent ranges gives the closed form
      of their union. */
  lemma CombineClosed(a: nat, m: nat, b: nat)
    requires a <= m <= b
    ensures Combine(Closed(a, m), Closed(m, b)) == Closed(a, b)
  {
    ProdQSplit(a, m, b);
    ProdRSplit(a, m, b);
    HighPart(a, m, b, b);
    LowPart(a, m, m, b);
  }

  /** A one-index range's closed form is the leaf of Pi_BSR (PI.h:64-81). */
  lemma LeafClosed(b: nat)
    requires b >= 1
    ensures Closed(b - 1, b) == Leaf(b)
  {
    assert ProdQ(b - 1, b) == LeafQ(b) by {
      assert ProdQ(b - 1, b - 1) == 1;
    }
    assert ProdR(b - 1, b) == LeafR(b) by {
      assert ProdR(b - 1, b - 1) == 1;
    }
    assert SumTo(b - 1, b, b) == LeafP(b) by {
      assert SumTo(b - 1, b - 1, b) == 0;
      assert ProdR(b - 1, b - 1) == 1 && ProdQ(b, b) == 1;
      assert Term(b - 1, b, b) == LeafP(b) * 1 * 1;
    }
  }

  /** The recursion computes the closed form:
        Q(a,b) = prod of LeafQ(k), R(a,b) = prod of LeafR(k),
        P(a,b) = sum of LeafP(k) * prod_{j<k} LeafR(j) * prod_{j>k} LeafQ(j),
      all over k = a+1 .. b. */
  lemma {:induction false} BSRIsClosed(a: nat, b: nat)
    requires a < b
    ensures BSR(a, b) == Closed(a, b)
    decreases b - a
  {
    if b - a == 1 {
      LeafClosed(b);
    } else {
      var m := Mid(a, b);
      BSRIsClosed(a, m);
      BSRIsClosed(m, b);
      CombineClosed(a, m, b);
    }
  }

  /** Split independence: combining the results of ANY two adjacent sub-ranges
      gives the result of the whole range, whatever the split point. */
  lemma SplitIndependent(a: nat, m: nat, b: nat)
    requires a < m < b
    ensures Combine(BSR(a, m), BSR(m, b)) == BSR(a, b)
  {
    BSRIsClosed(a, m);
    BSRIsClosed(m, b);
    BSRIsClosed(a, b);
    CombineClosed(a, m, b);
  }
}
