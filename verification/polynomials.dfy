/**
 * Power-basis polynomials as coefficient sequences (coefficient i belongs to
 * x^i), the in-place product by a linear factor that lagrange_interpolation
 * performs, and the Lagrange sum it accumulates, with the theorem that the
 * sum reproduces every sample at its knot.
 */
module Polynomials {
  import opened Numbers

  /** The sum of the first n terms c[i] * x^i of the polynomial with coefficients c. */
  function EvalUpTo(c: seq<real>, n: nat, x: real): real
    requires n <= |c|
  {
    if n == 0 then 0.0 else EvalUpTo(c, n - 1, x) + Mul(c[n - 1], Pow(x, n - 1))
  }

  /** The value of the polynomial with coefficients c at x. */
  function Eval(c: seq<real>, x: real): real
  {
    EvalUpTo(c, |c|, x)
  }

  /** Entrywise sum of two coefficient sequences of one length. */
  function Add(a: seq<real>, b: seq<real>): (r: seq<real>)
    requires |a| == |b|
    ensures |r| == |a|
  {
    seq(|a|, l requires 0 <= l < |a| => a[l] + b[l])
  }

  /** Every coefficient divided by d. */
  function Divided(a: seq<real>, d: real): (r: seq<real>)
    requires d != 0.0
    ensures |r| == |a|
  {
    seq(|a|, l requires 0 <= l < |a| => a[l] / d)
  }

  function Zeros(n: nat): (r: seq<real>)
    ensures |r| == n
  {
    seq(n, l => 0.0)
  }

  /**
   * Coefficients of p(x) * (x + a), as the in-place update of
   * lagrange_interpolation leaves them: entry l is p[l] * a + p[l - 1].
   */
  function MulLinear(p: seq<real>, a: real): (r: seq<real>)
    ensures |r| == |p| + 1
  {
    seq(|p| + 1, l requires 0 <= l < |p| + 1 =>
      (if l < |p| then Mul(p[l], a) else 0.0) + (if l > 0 then p[l - 1] else 0.0))
  }

  // ---------------------------------------------------------------------
  // Evaluation laws

  /** Partial sums depend only on the coefficients they include. */
  lemma {:induction false} EvalUpToAgree(a: seq<real>, b: seq<real>, n: nat, x: real)
    requires n <= |a| && n <= |b|
    requires forall l :: 0 <= l < n ==> a[l] == b[l]
    ensures EvalUpTo(a, n, x) == EvalUpTo(b, n, x)
  {
    if n > 0 {
      EvalUpToAgree(a, b, n - 1, x);
    }
  }

  lemma {:induction false} EvalUpToZeros(m: nat, n: nat, x: real)
    requires n <= m
    ensures EvalUpTo(Zeros(m), n, x) == 0.0
  {
    if n > 0 {
      EvalUpToZeros(m, n - 1, x);
    }
  }

  lemma EvalZeros(n: nat, x: real)
    ensures Eval(Zeros(n), x) == 0.0
  {
    EvalUpToZeros(n, n, x);
  }

  lemma {:induction false} EvalUpToAdd(a: seq<real>, b: seq<real>, n: nat, x: real)
    requires |a| == |b| && n <= |a|
    ensures EvalUpTo(Add(a, b), n, x) == EvalUpTo(a, n, x) + EvalUpTo(b, n, x)
  {
    if n > 0 {
      EvalUpToAdd(a, b, n - 1, x);
      MulDistributes(a[n - 1], b[n - 1], Pow(x, n - 1));
    }
  }

  lemma EvalAdd(a: seq<real>, b: seq<real>, x: real)
    requires |a| == |b|
    ensures Eval(Add(a, b), x) == Eval(a, x) + Eval(b, x)
  {
    EvalUpToAdd(a, b, |a|, x);
  }

  lemma {:induction false} EvalUpToDivided(a: seq<real>, d: real, n: nat, x: real)
    requires d != 0.0 && n <= |a|
    ensures EvalUpTo(Divided(a, d), n, x) == EvalUpTo(a, n, x) / d
  {
    if n > 0 {
      EvalUpToDivided(a, d, n - 1, x);
      var p := Pow(x, n - 1);
      assert Mul(a[n - 1] / d, p) == Mul(a[n - 1], p) / d;
    }
  }

  lemma EvalDivided(a: seq<real>, d: real, x: real)
    requires d != 0.0
    ensures Eval(Divided(a, d), x) == Eval(a, x) / d
  {
    EvalUpToDivided(a, d, |a|, x);
  }

  /** The in-place update multiplies the polynomial by (x + a). */
  lemma {:induction false} EvalMulLinear(p: seq<real>, a: real, x: real)
    ensures Eval(MulLinear(p, a), x) == Mul(Eval(p, x), x + a)
  {
    var n := |p|;
    var r := MulLinear(p, a);
    if n == 0 {
      assert r[0] == 0.0;
    } else {
      var q, c := p[..n - 1], p[n - 1];
      var rq := MulLinear(q, a);
      EvalMulLinear(q, a, x);
      assert r[n - 1] == rq[n - 1] + Mul(c, a);
      assert r[n] == c;
      EvalUpToAgree(r, rq, n - 1, x);
      EvalUpToAgree(p, q, n - 1, x);
      var u := Pow(x, n - 1);
      assert Pow(x, n) == Mul(u, x);
      assert Eval(r, x) == EvalUpTo(r, n, x) + Mul(c, Mul(u, x));
      assert EvalUpTo(r, n, x) == EvalUpTo(r, n - 1, x) + Mul(rq[n - 1] + Mul(c, a), u);
      assert Eval(rq, x) == EvalUpTo(rq, n - 1, x) + Mul(rq[n - 1], u);
      assert Eval(p, x) == Eval(q, x) + Mul(c, u);
      // Eval(r) = Eval(rq) + c a u + c u x = Eval(rq) + c u (x + a)
      MulDistributes(rq[n - 1], Mul(c, a), u);
      MulAssociates(c, a, u);
      MulCommutes(a, u);
      MulAssociates(c, u, a);
      MulAssociates(c, u, x);
      MulDistributes(Mul(c, u), x, a);
      assert Eval(r, x) == Eval(rq, x) + Mul(Mul(c, u), x + a);
      MulDistributes(Eval(q, x), Mul(c, u), x + a);
    }
  }

  // ---------------------------------------------------------------------
  // The Lagrange sum of lagrange_interpolation

  /** Knot j of the sampling grid: x0 + h * j. */
  function Knot(x0: real, h: real, j: nat): real
  {
    x0 + Mul(h, j as real)
  }

  /** How many factors of basis polynomial i precede factor j: j, less one past i. */
  function Degree(i: nat, j: nat): nat
  {
    if j > i then j - 1 else j
  }

  /**
   * temp_coefficients of basis polynomial i once factors 0 .. j-1 are taken:
   * y times the product of (x - Knot(j')) over j' < j, j' != i.
   */
  function Numerator(y: real, x0: real, h: real, i: nat, j: nat): (p: seq<real>)
    ensures |p| == Degree(i, j) + 1
  {
    if j == 0 then [y]
    else if j - 1 == i then Numerator(y, x0, h, i, j - 1)
    else MulLinear(Numerator(y, x0, h, i, j - 1), -Knot(x0, h, j - 1))
  }

  /** coefficient_denominator: h^order times the product of (i - j') over j' < j, j' != i. */
  function Denominator(h: real, order: nat, i: nat, j: nat): (d: real)
    ensures h != 0.0 ==> d != 0.0
  {
    if j == 0 then PowNonzero(h, order); Pow(h, order)
    else if j - 1 == i then Denominator(h, order, i, j - 1)
    else
      MulNonzero(Denominator(h, order, i, j - 1), (i as real) - ((j - 1) as real));
      Mul(Denominator(h, order, i, j - 1), (i as real) - ((j - 1) as real))
  }

  /** Basis polynomial i scaled by sample y, with all order + 1 factors' worth taken. */
  function Term(y: real, x0: real, h: real, order: nat, i: nat): (t: seq<real>)
    requires h != 0.0 && i <= order
    ensures |t| == order + 1
  {
    Divided(Numerator(y, x0, h, i, order + 1), Denominator(h, order, i, order + 1))
  }

  /** The coefficients after the first i terms of the Lagrange sum have been added. */
  function LagrangeSum(ys: seq<real>, x0: real, h: real, order: nat, i: nat): (c: seq<real>)
    requires h != 0.0 && i <= |ys| && i <= order + 1
    ensures |c| == order + 1
  {
    if i == 0 then Zeros(order + 1)
    else Add(LagrangeSum(ys, x0, h, order, i - 1), Term(ys[i - 1], x0, h, order, i - 1))
  }

  // ---------------------------------------------------------------------
  // The interpolation theorem

  /** The product of (x - Knot(j')) over j' < j, j' != i. */
  function NodeProduct(x: real, x0: real, h: real, i: nat, j: nat): real
  {
    if j == 0 then 1.0
    else if j - 1 == i then NodeProduct(x, x0, h, i, j - 1)
    else Mul(NodeProduct(x, x0, h, i, j - 1), x - Knot(x0, h, j - 1))
  }

  lemma {:induction false} EvalNumerator(y: real, x0: real, h: real, i: nat, j: nat, x: real)
    ensures Eval(Numerator(y, x0, h, i, j), x) == Mul(y, NodeProduct(x, x0, h, i, j))
  {
    if j == 0 {
      assert EvalUpTo([y], 1, x) == EvalUpTo([y], 0, x) + Mul(y, Pow(x, 0));
    } else if j - 1 == i {
      EvalNumerator(y, x0, h, i, j - 1, x);
    } else {
      EvalNumerator(y, x0, h, i, j - 1, x);
      EvalNumeratorStep(y, x0, h, i, j, x);
    }
  }

  /** Taking factor j - 1 multiplies the value by (x - Knot(j - 1)). */
  lemma EvalNumeratorStep(y: real, x0: real, h: real, i: nat, j: nat, x: real)
    requires 0 < j && j - 1 != i
    requires Eval(Numerator(y, x0, h, i, j - 1), x) == Mul(y, NodeProduct(x, x0, h, i, j - 1))
    ensures Eval(Numerator(y, x0, h, i, j), x) == Mul(y, NodeProduct(x, x0, h, i, j))
  {
    var p, a := Numerator(y, x0, h, i, j - 1), -Knot(x0, h, j - 1);
    assert Numerator(y, x0, h, i, j) == MulLinear(p, a);
    EvalMulLinear(p, a, x);
    assert x + a == x - Knot(x0, h, j - 1);
    MulAssociates(y, NodeProduct(x, x0, h, i, j - 1), x - Knot(x0, h, j - 1));
  }

  /** A basis polynomial vanishes at every other knot it has taken a factor for. */
  lemma {:induction false} NodeProductVanishes(x0: real, h: real, i: nat, j: nat, k: nat)
    requires k < j && k != i
    ensures NodeProduct(Knot(x0, h, k), x0, h, i, j) == 0.0
  {
    if k < j - 1 {
      NodeProductVanishes(x0, h, i, j - 1, k);
    }
  }

  /** At its own knot the product of differences is the denominator up to a power of h. */
  lemma {:induction false} NodeProductAtOwnKnot(x0: real, h: real, order: nat, i: nat, j: nat)
    ensures Mul(NodeProduct(Knot(x0, h, i), x0, h, i, j), Pow(h, order))
         == Mul(Denominator(h, order, i, j), Pow(h, Degree(i, j)))
  {
    if j == 0 {
    } else if j - 1 == i {
      NodeProductAtOwnKnot(x0, h, order, i, j - 1);
    } else {
      NodeProductAtOwnKnot(x0, h, order, i, j - 1);
      var np, den := NodeProduct(Knot(x0, h, i), x0, h, i, j - 1), Denominator(h, order, i, j - 1);
      var e := (i as real) - ((j - 1) as real);
      var ph, pd := Pow(h, order), Pow(h, Degree(i, j - 1));
      assert Degree(i, j) == Degree(i, j - 1) + 1;
      MulSubtracts(h, i as real, (j - 1) as real);
      assert Knot(x0, h, i) - Knot(x0, h, j - 1) == Mul(h, e);
      MulSwap(np, Mul(h, e), ph);
      MulShuffle(den, pd, h, e);
    }
  }

  /** Term i is sample y at knot i and zero at every other knot. */
  lemma TermAtKnot(y: real, x0: real, h: real, order: nat, i: nat, k: nat)
    requires h != 0.0 && i <= order && k <= order
    ensures Eval(Term(y, x0, h, order, i), Knot(x0, h, k)) == if k == i then y else 0.0
  {
    var x := Knot(x0, h, k);
    var den := Denominator(h, order, i, order + 1);
    EvalDivided(Numerator(y, x0, h, i, order + 1), den, x);
    EvalNumerator(y, x0, h, i, order + 1, x);
    if k == i {
      NodeProductAtOwnKnot(x0, h, order, i, order + 1);
      PowNonzero(h, order);
      var np := NodeProduct(x, x0, h, i, order + 1);
      MulCancels(np, den, Pow(h, order));
      MulDivides(y, den);
    } else {
      NodeProductVanishes(x0, h, i, order + 1, k);
      MulDivides(y, den);
    }
  }

  /** Adding term i - 1 adds its sample at its own knot and nothing at the others. */
  lemma LagrangeSumStep(ys: seq<real>, x0: real, h: real, order: nat, i: nat, k: nat)
    requires h != 0.0 && 0 < i <= |ys| && i <= order + 1 && k <= order
    ensures Eval(LagrangeSum(ys, x0, h, order, i), Knot(x0, h, k))
         == Eval(LagrangeSum(ys, x0, h, order, i - 1), Knot(x0, h, k)) + (if k == i - 1 then ys[i - 1] else 0.0)
  {
    var x := Knot(x0, h, k);
    var prev, t := LagrangeSum(ys, x0, h, order, i - 1), Term(ys[i - 1], x0, h, order, i - 1);
    assert LagrangeSum(ys, x0, h, order, i) == Add(prev, t);
    EvalAdd(prev, t, x);
    TermAtKnot(ys[i - 1], x0, h, order, i - 1, k);
  }

  lemma {:induction false} LagrangeSumAtKnot(ys: seq<real>, x0: real, h: real, order: nat, i: nat, k: nat)
    requires h != 0.0 && i <= |ys| && i <= order + 1 && k <= order && k < |ys|
    ensures Eval(LagrangeSum(ys, x0, h, order, i), Knot(x0, h, k)) == if k < i then ys[k] else 0.0
  {
    var x := Knot(x0, h, k);
    if i == 0 {
      assert LagrangeSum(ys, x0, h, order, 0) == Zeros(order + 1);
      EvalZeros(order + 1, x);
    } else {
      var now, before := Eval(LagrangeSum(ys, x0, h, order, i), x), Eval(LagrangeSum(ys, x0, h, order, i - 1), x);
      assert before == if k < i - 1 then ys[k] else 0.0 by {
        LagrangeSumAtKnot(ys, x0, h, order, i - 1, k);
      }
      assert now == before + (if k == i - 1 then ys[i - 1] else 0.0) by {
        LagrangeSumStep(ys, x0, h, order, i, k);
      }
      SumCases(ys, i, k, before, now);
    }
  }

  /** Adding sample i - 1 at its own knot extends the prefix of samples reproduced by one. */
  lemma SumCases(ys: seq<real>, i: nat, k: nat, before: real, now: real)
    requires 0 < i <= |ys| && k < |ys|
    requires before == if k < i - 1 then ys[k] else 0.0
    requires now == before + (if k == i - 1 then ys[i - 1] else 0.0)
    ensures now == if k < i then ys[k] else 0.0
  {
  }

  /**
   * The coefficients lagrange_interpolation builds from order + 1 samples
   * reproduce sample k at knot k.
   */
  lemma LagrangeInterpolates(ys: seq<real>, x0: real, h: real, order: nat, k: nat)
    requires h != 0.0 && |ys| == order + 1 && k <= order
    ensures Eval(LagrangeSum(ys, x0, h, order, order + 1), Knot(x0, h, k)) == ys[k]
  {
    LagrangeSumAtKnot(ys, x0, h, order, order + 1, k);
  }
}
