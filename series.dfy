/** The Chudnovsky series, written from its own factorial definition, as an
    independent reference for what the binary-splitting triple means:

      sum over k >= 0 of (-1)^k (6k)! (13591409 + 545140134 k) / ((3k)! (k!)^3 640320^(3k))
        = 426880 sqrt(10005) / pi

    The evaluator over [0, N) and the final step of Pi (PI.h:156-158) produce a
    numerator and a denominator whose quotient is the partial sum up to k = N,
    divided by 4270934400 = 426880 * 10005. */
module Series {
  import opened BinarySplitting
  import opened ClosedForm

  function Fact(n: nat): (f: int)
    ensures f >= 1
  {
    if n == 0 then 1 else n * Fact(n - 1)
  }

  function Pow(x: int, n: nat): (r: int)
    requires x >= 1
    ensures r >= 1
  {
    if n == 0 then 1 else x * Pow(x, n - 1)
  }

  /** The denominator (3k)! (k!)^3 640320^(3k) of the k-th term. */
  function TermDen(k: nat): (d: int)
    ensures d >= 1
  {
    var f := Fact(k);
    assert f * f >= 1;
    assert f * f * f >= 1;
    assert Fact(3 * k) * (f * f * f) >= 1;
    Fact(3 * k) * (f * f * f) * Pow(640320, 3 * k)
  }

  /** The k-th term of the Chudnovsky series, as an exact rational. */
  function ChudnovskyTerm(k: nat): real
  {
    (Sign(k) * Fact(6 * k) * (13591409 + 545140134 * k)) as real / TermDen(k) as real
  }

  /** The sum of the terms for k = 0 .. n. */
  function PartialSum(n: nat): real
  {
    if n == 0 then ChudnovskyTerm(0) else PartialSum(n - 1) + ChudnovskyTerm(n)
  }

  lemma FactUnroll3(n: nat)
    requires n >= 3
    ensures Fact(n) == Fact(n - 3) * ((n - 2) * (n - 1) * n)
  {
    var f := Fact(n - 3);
    assert Fact(n - 2) == (n - 2) * f;
    assert Fact(n - 1) == (n - 1) * ((n - 2) * f);
    assert Fact(n) == n * ((n - 1) * ((n - 2) * f));
    Regroup3(f, n - 2, n - 1, n);
  }

  lemma Regroup3(f: int, x: int, y: int, z: int)
    ensures z * (y * (x * f)) == f * (x * y * z)
  {
  }

  lemma PowUnroll3(x: int, n: nat)
    requires x >= 1 && n >= 3
    ensures Pow(x, n) == Pow(x, n - 3) * (x * x * x)
  {
    var p := Pow(x, n - 3);
    assert Pow(x, n - 2) == x * p;
    assert Pow(x, n - 1) == x * (x * p);
    assert Pow(x, n) == x * (x * (x * p));
    Regroup3(p, x, x, x);
  }

  /** The polynomial identity behind one step of the term ratio:
      (6k-5)...(6k) * LeafQ(k) == (3k-2)(3k-1)(3k) k^3 640320^3 * LeafR(k). */
  lemma StepIdentity(k: nat)
    requires k >= 1
    ensures ((6 * k - 5) * (6 * k - 4) * (6 * k - 3)) * ((6 * k - 2) * (6 * k - 1) * (6 * k)) * LeafQ(k)
         == ((3 * k - 2) * (3 * k - 1) * (3 * k)) * (k * k * k) * (640320 * 640320 * 640320) * LeafR(k)
  {
    var t3 := (3 * k - 2) * (3 * k - 1) * (3 * k);
    var r := LeafR(k);
    var c := k * k * k;
    assert r == (2 * k - 1) * (6 * k - 5) * (6 * k - 1);
    assert (6 * k - 4) * (6 * k - 2) * (6 * k) == 8 * t3;
    assert ((6 * k - 5) * (6 * k - 4) * (6 * k - 3)) * ((6 * k - 2) * (6 * k - 1) * (6 * k))
        == 24 * t3 * r;
    assert LeafQ(k) == QFactor * c;
    assert 640320 * 640320 * 640320 == 24 * QFactor;
  }

  /** The ratio R/Q of the leaves 1 .. k is (6k)! / ((3k)! (k!)^3 640320^(3k)). */
  lemma {:induction false} FactorialRatio(k: nat)
    ensures Fact(6 * k) * ProdQ(0, k) == TermDen(k) * ProdR(0, k)
  {
    if k > 0 {
      FactorialRatio(k - 1);
      var f6 := ((6 * k - 5) * (6 * k - 4) * (6 * k - 3)) * ((6 * k - 2) * (6 * k - 1) * (6 * k));
      var g := ((3 * k - 2) * (3 * k - 1) * (3 * k)) * (k * k * k) * (640320 * 640320 * 640320);
      assert Fact(6 * k) == Fact(6 * (k - 1)) * f6 by {
        FactUnroll3(6 * k);
        FactUnroll3(6 * k - 3);
        Swap(Fact(6 * k - 6), 1, (6 * k - 5) * (6 * k - 4) * (6 * k - 3), (6 * k - 2) * (6 * k - 1) * (6 * k));
      }
      assert TermDen(k) == TermDen(k - 1) * g by {
        TermDenStep(k);
      }
      assert f6 * LeafQ(k) == g * LeafR(k) by {
        StepIdentity(k);
      }
      RatioStep(Fact(6 * (k - 1)), f6, ProdQ(0, k - 1), LeafQ(k), TermDen(k - 1), g, ProdR(0, k - 1), LeafR(k));
    }
  }

  lemma RatioStep(f: int, f6: int, pq: int, lq: int, d: int, g: int, pr: int, lr: int)
    requires f * pq == d * pr
    requires f6 * lq == g * lr
    ensures (f * f6) * (pq * lq) == (d * g) * (pr * lr)
  {
    Swap(f, f6, pq, lq);
    Swap(d, g, pr, lr);
  }

  /** One step of the denominator: TermDen(k) = TermDen(k-1) (3k-2)(3k-1)(3k) k^3 640320^3. */
  lemma TermDenStep(k: nat)
    requires k >= 1
    ensures TermDen(k) == TermDen(k - 1)
      * (((3 * k - 2) * (3 * k - 1) * (3 * k)) * (k * k * k) * (640320 * 640320 * 640320))
  {
    FactUnroll3(3 * k);
    PowUnroll3(640320, 3 * k);
    var f, e := Fact(k - 1), Fact(3 * (k - 1));
    var p := Pow(640320, 3 * (k - 1));
    var t3 := (3 * k - 2) * (3 * k - 1) * (3 * k);
    var c := k * k * k;
    var x3 := 640320 * 640320 * 640320;
    assert Fact(k) == k * f;
    assert TermDen(k - 1) == e * (f * f * f) * p;
    assert TermDen(k) == (e * t3) * ((k * f) * (k * f) * (k * f)) * (p * x3);
    Cubes(k, f);
    Reorder(e, t3, c, f * f * f, p, x3);
  }

  lemma Cubes(k: int, f: int)
    ensures (k * f) * (k * f) * (k * f) == (k * k * k) * (f * f * f)
  {
  }

  lemma Reorder(e: int, t: int, c: int, g: int, p: int, x: int)
    ensures (e * t) * (c * g) * (p * x) == (e * g * p) * (t * c * x)
  {
  }

  lemma Swap(a: int, b: int, c: int, d: int)
    ensures (a * b) * (c * d) == (a * c) * (b * d)
  {
  }

  /** x/u + y/(u v) == (x v + y)/(u v) over the reals, for positive u and v. */
  lemma AddFractions(x: real, y: real, u: real, v: real)
    requires u > 0.0 && v > 0.0
    ensures (x * v + y) / (u * v) == x / u + y / (u * v)
  {
  }

  /** Equal cross products give equal quotients. */
  lemma CrossDivide(a: int, b: int, c: int, d: int)
    requires b > 0 && d > 0
    requires a * d == c * b
    ensures a as real / b as real == c as real / d as real
  {
    assert (a * d) as real == (c * b) as real;
    assert a as real * d as real == c as real * b as real;
  }

  /** The closed-form P/Q over [0, n) is the sum of the terms k = 1 .. n. */
  lemma {:induction false} ClosedIsSeries(n: nat)
    ensures Closed(0, n).P as real / Closed(0, n).Q as real == PartialSum(n) - 13591409.0
  {
    if n == 0 {
      assert Closed(0, 0) == Triple(0, 1, 1);
      assert Fact(0) == 1 && TermDen(0) == 1;
      assert ChudnovskyTerm(0) == 13591409.0;
    } else {
      ClosedIsSeries(n - 1);
      CombineClosed(0, n - 1, n);
      LeafClosed(n);
      var prev := Closed(0, n - 1);
      var y := LeafP(n) * prev.R;
      assert Closed(0, n).P == prev.P * LeafQ(n) + y;
      assert Closed(0, n).Q == prev.Q * LeafQ(n);
      FractionStep(prev.P, y, prev.Q, LeafQ(n));
      LastTerm(n);
    }
  }

  /** (x v + y)/(u v) == x/u + y/(u v), for integers read as reals. */
  lemma FractionStep(x: int, y: int, u: int, v: int)
    requires u > 0 && v > 0
    ensures (x * v + y) as real / (u * v) as real == x as real / u as real + y as real / (u * v) as real
  {
    RealProduct(x, v);
    RealProduct(u, v);
    AddFractions(x as real, y as real, u as real, v as real);
  }

  lemma RealProduct(a: int, b: int)
    ensures (a * b) as real == a as real * b as real
  {
  }

  /** The summand that leaf n adds to P/Q over [0, n) is the n-th Chudnovsky term. */
  lemma LastTerm(n: nat)
    requires n >= 1
    ensures (LeafP(n) * Closed(0, n - 1).R) as real / Closed(0, n).Q as real == ChudnovskyTerm(n)
  {
    var s, c := Sign(n), 13591409 + 545140134 * n;
    var rn, qn := ProdR(0, n), ProdQ(0, n);
    var f, d := Fact(6 * n), TermDen(n);
    var x := LeafP(n) * Closed(0, n - 1).R;
    assert x == (s * c) * rn by {
      LeafPSign(n);
      assert rn == ProdR(0, n - 1) * LeafR(n);
      MulAssoc(s * c, LeafR(n), ProdR(0, n - 1));
    }
    assert x * d == (s * f * c) * qn by {
      FactorialRatio(n);
      SignedRatio(s, c, f, d, rn, qn);
    }
    CrossDivide(x, qn, s * f * c, d);
  }

  lemma SignedRatio(s: int, c: int, f: int, d: int, rn: int, qn: int)
    requires f * qn == d * rn
    ensures ((s * c) * rn) * d == (s * f * c) * qn
  {
    MulAssoc(s * c, rn, d);
    MulAssoc(s * c, f, qn);
    assert (s * f * c) == (s * c) * f;
  }

  /** The final fraction of Pi (PI.h:157-158) over the triple of [0, N):
      numerator / denominator is the partial sum up to k = N divided by 4270934400. */
  lemma FinalFractionIsSeries(n: nat, num: int, den: int)
    requires n >= 1
    requires num == BSR(0, n).Q * 13591409 + BSR(0, n).P
    requires den == BSR(0, n).Q * 4270934400
    ensures den > 0 && num as real / den as real == PartialSum(n) / 4270934400.0
  {
    var t := BSR(0, n);
    BSRQuotient(n);
    FinalFraction(t.P, t.Q, num, den, PartialSum(n));
  }

  /** P/Q of the recursion over [0, N) is the partial sum without its k = 0 term. */
  lemma BSRQuotient(n: nat)
    requires n >= 1
    ensures BSR(0, n).P as real / BSR(0, n).Q as real == PartialSum(n) - 13591409.0
  {
    BSRIsClosed(0, n);
    ClosedIsSeries(n);
  }

  /** If p/q == s - 13591409 then (13591409 q + p) / (4270934400 q) == s / 4270934400. */
  lemma FinalFraction(p: int, q: int, num: int, den: int, s: real)
    requires q > 0
    requires num == q * 13591409 + p && den == q * 4270934400
    requires p as real / q as real == s - 13591409.0
    ensures den > 0 && num as real / den as real == s / 4270934400.0
  {
    RealProduct(q, 13591409);
    RealProduct(q, 4270934400);
    QuotientShift(p as real, q as real, 13591409.0, 4270934400.0);
  }

  lemma QuotientShift(p: real, q: real, c: real, k: real)
    requires q > 0.0 && k > 0.0
    ensures (q * c + p) / (q * k) == (p / q + c) / k
  {
  }
}
