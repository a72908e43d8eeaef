/** The value semantics of the binary-splitting recursion Pi_BSR (PI.h) for the
    Chudnovsky series, with every BigFloat replaced by an exact integer.

    For a half-open index range [a, b) the recursion produces a triple (P, Q, R).
    A range of one index is a leaf, computed directly for the index b; a longer
    range is split at its midpoint and the two halves are combined. */
module BinarySplitting {

  /** The three accumulators of one recursion node. */
  datatype Triple = Triple(P: int, Q: int, R: int)

  /** 26726400 * 409297880, the constant factor of a leaf's Q; it is 640320^3 / 24. */
  const QFactor: int := 10939058860032000

  /** (-1)^k */
  function Sign(k: nat): (s: int)
    ensures s == 1 || s == -1
    ensures (s == -1) <==> k % 2 == 1
  {
    if k % 2 == 1 then -1 else 1
  }

  /** The leaf R for index k: (2k-1)(6k-5)(6k-1). */
  function LeafR(k: nat): (r: int)
    requires k >= 1
    ensures r >= 1
  {
    var f1, f2, f3 := 2 * k - 1, 6 * k - 5, 6 * k - 1;
    assert f1 * f2 >= 1;
    f1 * f2 * f3
  }

  /** The leaf Q for index k: 10939058860032000 * k^3. */
  function LeafQ(k: nat): (q: int)
    requires k >= 1
    ensures q >= QFactor
  {
    assert k * k >= 1;
    assert k * k * k >= 1;
    QFactor * (k * k * k)
  }

  /** The leaf P for index k: (13591409 + 545140134 k) R(k) (-1)^k. */
  function LeafP(k: nat): int
    requires k >= 1
  {
    Sign(k) * ((13591409 + 545140134 * k) * LeafR(k))
  }

  /** The triple of a one-index range [b-1, b) (PI.h:64-81): Q and R are
      positive, and P is nonzero with the sign (-1)^b. */
  function Leaf(b: nat): (t: Triple)
    requires b >= 1
    ensures t.Q > 0 && t.R > 0
    ensures t.P != 0 && ((t.P < 0) <==> b % 2 == 1)
  {
    LeafPSign(b);
    Triple(LeafP(b), LeafQ(b), LeafR(b))
  }

  /** A leaf's P is never zero and is negative exactly for an odd index;
      its magnitude is (13591409 + 545140134 k) R(k). */
  lemma LeafPSign(k: nat)
    requires k >= 1
    ensures LeafP(k) != 0
    ensures (LeafP(k) < 0) <==> k % 2 == 1
    ensures LeafP(k) == Sign(k) * (13591409 + 545140134 * k) * LeafR(k)
  {
    var c := 13591409 + 545140134 * k;
    var r := LeafR(k);
    assert c * r >= 1 by {
      assert c >= 1 && r >= 1;
    }
    if k % 2 == 1 {
      assert LeafP(k) == -(c * r);
    } else {
      assert LeafP(k) == c * r;
    }
  }

  /** Joins the triples of two adjacent ranges [a, m) and [m, b) (PI.h:102-104,
      without the truncation to p limbs). */
  function Combine(left: Triple, right: Triple): (joined: Triple)
    ensures left.Q > 0 && right.Q > 0 ==> joined.Q > 0
    ensures left.R > 0 && right.R > 0 ==> joined.R > 0
    ensures left == Triple(0, 1, 1) ==> joined == right
    ensures right == Triple(0, 1, 1) ==> joined == left
  {
    Triple(left.P * right.Q + right.P * left.R, left.Q * right.Q, left.R * right.R)
  }

  /** The split point of a range of at least two indices. */
  function Mid(a: nat, b: nat): (m: nat)
    requires a + 1 < b
    ensures a < m < b
    ensures 0 <= (b - m) - (m - a) <= 1
  {
    (a + b) / 2
  }

  /** The triple that the recursion computes for [a, b), with exact products.
      Q and R of every node are positive, since each is a product of positive leaves. */
  function BSR(a: nat, b: nat): (t: Triple)
    requires a < b
    ensures t.Q > 0 && t.R > 0
    decreases b - a
  {
    if b - a == 1 then
      Leaf(b)
    else
      var m := Mid(a, b);
      Combine(BSR(a, m), BSR(m, b))
  }

  /** How many combine steps (increments of the progress counter) the
      recursion over [a, b) performs: one per internal node. */
  function CombineCount(a: nat, b: nat): (n: nat)
    requires a < b
    ensures n == b - a - 1
    decreases b - a
  {
    if b - a == 1 then 0 else CombineCount(a, Mid(a, b)) + CombineCount(Mid(a, b), b) + 1
  }

  /** C's int division by 2, which truncates toward zero. */
  function HalfTowardZero(x: int): (h: int)
    ensures x >= 0 ==> 0 <= x - 2 * h <= 1
    ensures x < 0 ==> -1 <= x - 2 * h <= 0
  {
    if x >= 0 then x / 2 else -((-x) / 2)
  }

  /** The thread budget of a parallel node, shared between its two children
      as tds0 = tds / 2 and tds1 = tds - tds0 (PI.h:94-95). */
  function SplitBudget(tds: int): (shares: (int, int))
    ensures shares.0 + shares.1 == tds
    ensures tds >= 2 ==> shares.0 >= 1 && shares.1 >= 1
    ensures tds >= 0 ==> 0 <= shares.1 - shares.0 <= 1
    ensures tds < 0 ==> -1 <= shares.1 - shares.0 <= 0
  {
    var tds0 := HalfTowardZero(tds);
    (tds0, tds - tds0)
  }
}
