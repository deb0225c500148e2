/**
 * The sampling and evaluation utilities of utilities.c: the function record,
 * sample_values, the interpolation record with allocate_interpolation,
 * polynomial_value, piecewise_linear_value and the two sums function_error
 * accumulates.
 */
module Utilities {
  import opened Wrappers
  import opened Numbers
  import opened Polynomials

  /**
   * struct function: an evaluator f and the argument it is always called
   * with.  The printable name is not modelled.
   */
  datatype Function<!C> = Function(f: (real, C) -> real, arg: C)
  {
    /** function->f(x, function->arg) */
    function At(x: real): real
    {
      f(x, arg)
    }
  }

  /** struct sampled_function, with n_samples == |samples|. */
  datatype Sampled = Sampled(start: real, end: real, interval: real, samples: seq<real>)

  // ---------------------------------------------------------------------
  // sample_values

  /** floorl((end - start) / h) + 1, the number of samples sample_values takes. */
  function SampleCount(start: real, end: real, h: real): (n: nat)
    requires start < end && h > 0.0
    ensures n >= 1
  {
    Floor((end - start) / h) + 1
  }

  /** The values of fn at the first n knots start, start + h, ... */
  function Samples<C>(fn: Function<C>, start: real, h: real, n: nat): (s: seq<real>)
    ensures |s| == n
    ensures forall i :: 0 <= i < n ==> s[i] == fn.At(Knot(start, h, i))
  {
    seq(n, i requires 0 <= i < n => fn.At(Knot(start, h, i)))
  }

  /**
   * sample_values: nothing for an empty or reversed range; otherwise
   * SampleCount samples taken h apart from start, with the end of the grid
   * recomputed as start + n * h.
   */
  method SampleValues<C>(fn: Function<C>, start: real, end: real, h: real) returns (r: Option<Sampled>)
    requires start < end ==> h > 0.0
    ensures r.None? <==> start >= end
    ensures r.Some? ==> r.value == Sampled(start, start + Mul(SampleCount(start, end, h) as real, h), h,
                                           Samples(fn, start, h, SampleCount(start, end, h)))
  {
    if start >= end {
      return None;
    }
    var n := SampleCount(start, end, h);
    var samples := new real[n];
    for i := 0 to n
      invariant forall k :: 0 <= k < i ==> samples[k] == fn.At(Knot(start, h, k))
    {
      samples[i] := fn.f(start + Mul(h, i as real), fn.arg);
    }
    assert samples[..] == Samples(fn, start, h, n);
    r := Some(Sampled(start, start + Mul(n as real, h), h, samples[..]));
  }

  /** The recomputed end lies past the requested one, by at most one interval. */
  lemma SampleEndBounds(start: real, end: real, h: real)
    requires start < end && h > 0.0
    ensures var last := start + Mul(SampleCount(start, end, h) as real, h);
            end < last <= end + h
  {
    var q := (end - start) / h;
    FloorCeil(q);
    var f := Floor(q) as real;
    assert q == (end - start) / h;
    assert Mul(q, h) == end - start;
    MulMonotone(f, q, h);
    MulMonotone(q, f + 1.0, h);
    MulDistributes(f, 1.0, h);
  }

  /**
   * With h = (end - start) / order, as every interpolation constructor sets
   * it, exactly order + 1 samples are taken and the grid ends at end.
   */
  lemma SampleCountExact(start: real, end: real, order: nat)
    requires start < end && order >= 1
    ensures var h := (end - start) / order as real;
            h > 0.0 && SampleCount(start, end, h) == order + 1 &&
            start + Mul(SampleCount(start, end, h) as real, h) == end + h
  {
    var w, h := end - start, (end - start) / order as real;
    assert w / h == order as real;
    assert Floor(order as real) == order;
    MulDistributes(order as real, 1.0, h);
  }

  /** Multiplying by a positive interval keeps the order of two reals. */
  lemma MulMonotone(a: real, b: real, h: real)
    requires a <= b && h > 0.0
    ensures Mul(a, h) <= Mul(b, h)
    ensures a < b ==> Mul(a, h) < Mul(b, h)
  {
  }

  // ---------------------------------------------------------------------
  // struct interpolation

  /**
   * struct interpolation: the interpolated function, the range, the order
   * and order + 1 coefficients.  The constructors of the interpolation
   * module fill the coefficients and, for the piecewise kinds, the sampling
   * interval.
   */
  class Interpolation<C> {
    const target: Function<C>
    const start: real
    const end: real
    const order: nat
    const coefficients: array<real>
    var interval: real

    ghost predicate Valid()
      reads this
    {
      coefficients.Length == order + 1
    }

    /**
     * allocate_interpolation: stores the function, range and order and
     * allocates order + 1 coefficients.  The sampling interval is left unset,
     * as in the source, and so are the coefficient values.
     */
    constructor (target: Function<C>, start: real, end: real, order: nat)
      ensures Valid() && fresh(coefficients)
      ensures this.target == target && this.start == start && this.end == end && this.order == order
    {
      this.target := target;
      this.start := start;
      this.end := end;
      this.order := order;
      coefficients := new real[order + 1];
    }
  }

  // ---------------------------------------------------------------------
  // polynomial_value

  /** polynomial_value: the power-basis polynomial with the stored coefficients, at x. */
  method PolynomialValue<C>(x: real, p: Interpolation<C>) returns (y: real)
    requires p.Valid()
    ensures y == Eval(p.coefficients[..], x)
  {
    ghost var c := p.coefficients[..];
    y := p.coefficients[0];
    var xn := x;
    assert EvalUpTo(c, 1, x) == Mul(c[0], Pow(x, 0));
    for i := 1 to p.order + 1
      invariant y == EvalUpTo(c, i, x)
      invariant xn == Pow(x, i)
    {
      y := y + Mul(p.coefficients[i], xn);
      xn := Mul(xn, x);
    }
    assert c == p.coefficients[..];
  }

  // ---------------------------------------------------------------------
  // piecewise_linear_value

  /**
   * What piecewise_linear_value needs of its record: a positive interval
   * and a grid whose last knot index, rounded up, has a coefficient.
   */
  ghost predicate Gridded<C>(p: Interpolation<C>)
    reads p
  {
    p.Valid() && p.interval > 0.0 && p.start <= p.end && Ceil((p.end - p.start) / p.interval) <= p.order
  }

  /** (x - start) / interval, the position of x in units of the grid. */
  function Position<C>(x: real, p: Interpolation<C>): real
    reads p
    requires p.interval > 0.0
  {
    (x - p.start) / p.interval
  }

  /**
   * piecewise_linear_value: nothing outside [start, end]; inside, the
   * coefficients at the knots below and above x weighted by the distances
   * h (x0 + 1) - xs and h x0 - xs.
   */
  function PiecewiseLinearValue<C>(x: real, p: Interpolation<C>): (r: Option<real>)
    reads p, p.coefficients
    requires Gridded(p)
    ensures r.None? <==> x < p.start || x > p.end
  {
    if x < p.start || x > p.end then None
    else
      var h, xs := p.interval, x - p.start;
      var t := xs / h;
      KnotIndexBounds(x, p);
      var x0, x1 := Floor(t), Ceil(t);
      var a, b := Mul(h, x0 as real + 1.0) - xs, Mul(h, x0 as real) - xs;
      Some(Mul(p.coefficients[x0], a) - Mul(p.coefficients[x1], b))
  }

  /** Both bracketing indices have a coefficient for every x in the range. */
  lemma KnotIndexBounds<C>(x: real, p: Interpolation<C>)
    requires Gridded(p) && p.start <= x <= p.end
    ensures 0 <= Floor(Position(x, p)) <= Ceil(Position(x, p)) <= Floor(Position(x, p)) + 1
    ensures Ceil(Position(x, p)) < p.coefficients.Length
  {
    var t, tEnd := Position(x, p), (p.end - p.start) / p.interval;
    FloorCeil(t);
    DivMonotone(x - p.start, p.end - p.start, p.interval);
    CeilMonotone(t, tEnd);
  }

  lemma DivMonotone(a: real, b: real, h: real)
    requires 0.0 <= a <= b && h > 0.0
    ensures 0.0 <= a / h <= b / h
  {
  }

  lemma CeilMonotone(a: real, b: real)
    requires a <= b
    ensures Ceil(a) <= Ceil(b)
  {
    FloorCeil(a);
    FloorCeil(b);
  }

  /**
   * Inside the range the value is the linear blend of the two neighbouring
   * samples c[i] * h, weighted by how far x lies past the lower knot.
   */
  lemma PiecewiseLinearBlends<C>(x: real, p: Interpolation<C>)
    requires Gridded(p) && p.start <= x <= p.end
    ensures var t := Position(x, p);
            var i0, i1 := Floor(t), Ceil(t);
            var theta := t - i0 as real;
            0 <= i0 && i1 < p.coefficients.Length && 0.0 <= theta < 1.0 &&
            (i1 == i0 <==> theta == 0.0) && (i1 != i0 ==> i1 == i0 + 1) &&
            PiecewiseLinearValue(x, p)
              == Some(Mul(Mul(p.coefficients[i0], p.interval), 1.0 - theta)
                    + Mul(Mul(p.coefficients[i1], p.interval), theta))
  {
    KnotIndexBounds(x, p);
    var h, xs := p.interval, x - p.start;
    var t := xs / h;
    FloorCeil(t);
    var i0, i1 := Floor(t), Ceil(t);
    var theta := t - i0 as real;
    var c0, c1 := p.coefficients[i0], p.coefficients[i1];
    assert xs == Mul(h, t);
    BlendWeights(h, t, i0 as real, c0, c1);
  }

  /** The algebra behind PiecewiseLinearBlends. */
  lemma BlendWeights(h: real, t: real, f: real, c0: real, c1: real)
    ensures Mul(c0, Mul(h, f + 1.0) - Mul(h, t)) - Mul(c1, Mul(h, f) - Mul(h, t))
         == Mul(Mul(c0, h), 1.0 - (t - f)) + Mul(Mul(c1, h), t - f)
  {
    MulSubtracts(h, f + 1.0, t);
    MulSubtracts(h, f, t);
    assert Mul(h, f + 1.0) - Mul(h, t) == Mul(h, 1.0 - (t - f));
    assert Mul(h, f) - Mul(h, t) == -Mul(h, t - f);
    MulAssociates(c0, h, 1.0 - (t - f));
    MulAssociates(c1, h, t - f);
  }

  /** At knot k the value is c[k] * h: the sample itself for coefficients stored as sample / h. */
  lemma PiecewiseLinearAtKnot<C>(p: Interpolation<C>, k: nat)
    requires Gridded(p) && k <= p.order && Knot(p.start, p.interval, k) <= p.end
    ensures PiecewiseLinearValue(Knot(p.start, p.interval, k), p) == Some(Mul(p.coefficients[k], p.interval))
  {
    var x, h := Knot(p.start, p.interval, k), p.interval;
    assert x - p.start == Mul(h, k as real);
    MulCommutes(h, k as real);
    MulDivides(k as real, h);
    assert Position(x, p) == k as real;
    assert Floor(k as real) == k;
    PiecewiseLinearBlends(x, p);
    var ch := Mul(p.coefficients[k], h);
    assert Mul(ch, 1.0 - 0.0) + Mul(ch, 0.0) == ch;
  }

  // ---------------------------------------------------------------------
  // function_error

  /** The sum of the squares of the first n entries of s. */
  function SumOfSquares(s: seq<real>, n: nat): real
    requires n <= |s|
  {
    if n == 0 then 0.0 else SumOfSquares(s, n - 1) + Mul(s[n - 1], s[n - 1])
  }

  /** Entrywise differences over the common length of a and b. */
  function Difference(a: seq<real>, b: seq<real>): (d: seq<real>)
    ensures |d| == if |a| < |b| then |a| else |b|
    ensures forall i :: 0 <= i < |d| ==> d[i] == a[i] - b[i]
  {
    var n := if |a| < |b| then |a| else |b|;
    seq(n, i requires 0 <= i < n => a[i] - b[i])
  }

  /**
   * The two sums of function_error: the squared differences of the samples
   * of f1 and f2 and the squares of the samples of f1, over the samples both
   * have; nothing for an empty or reversed range.  The final sqrtl of their
   * quotient is not modelled.
   */
  method ErrorSums<C, D>(f1: Function<C>, f2: Function<D>, start: real, end: real, points: nat)
      returns (r: Option<(real, real)>)
    requires points >= 1
    ensures r.None? <==> end <= start
    ensures r.Some? ==>
      var h := (end - start) / points as real;
      var s1 := Samples(f1, start, h, SampleCount(start, end, h));
      var s2 := Samples(f2, start, h, SampleCount(start, end, h));
      r.value == (SumOfSquares(Difference(s1, s2), |s1|), SumOfSquares(s1, |s1|))
  {
    if end <= start {
      return None;
    }
    var h := (end - start) / points as real;
    SampleCountExact(start, end, points);
    var sampled1 := SampleValues(f1, start, end, h);
    var sampled2 := SampleValues(f2, start, end, h);
    var s1, s2 := sampled1.value.samples, sampled2.value.samples;
    var actual := if |s1| < |s2| then |s1| else |s2|;
    var difference2, norm2 := 0.0, 0.0;
    ghost var d := Difference(s1, s2);
    for i := 0 to actual
      invariant difference2 == SumOfSquares(d, i)
      invariant norm2 == SumOfSquares(s1, i)
    {
      difference2 := difference2 + Mul(s1[i] - s2[i], s1[i] - s2[i]);
      norm2 := norm2 + Mul(s1[i], s1[i]);
    }
    r := Some((difference2, norm2));
  }

  lemma {:induction false} SumOfSquaresNonnegative(s: seq<real>, n: nat)
    requires n <= |s|
    ensures SumOfSquares(s, n) >= 0.0
  {
    if n > 0 {
      SumOfSquaresNonnegative(s, n - 1);
      SquareNonnegative(s[n - 1]);
    }
  }

  lemma SquareNonnegative(a: real)
    ensures Mul(a, a) >= 0.0
    ensures Mul(a, a) == 0.0 <==> a == 0.0
  {
    if a > 0.0 {
      MulMonotone(0.0, a, a);
    } else if a < 0.0 {
      MulMonotone(0.0, -a, -a);
    }
  }

  /** A sum of squares vanishes exactly when every entry it covers does. */
  lemma {:induction false} SumOfSquaresZero(s: seq<real>, n: nat)
    requires n <= |s|
    ensures SumOfSquares(s, n) == 0.0 <==> forall i :: 0 <= i < n ==> s[i] == 0.0
  {
    if n > 0 {
      SumOfSquaresZero(s, n - 1);
      SumOfSquaresNonnegative(s, n - 1);
      SquareNonnegative(s[n - 1]);
    }
  }

  /**
   * The difference sum of function_error covers points + 1 samples of each
   * function, and it is zero exactly when the two functions agree at every
   * one of those knots.
   */
  lemma ErrorZeroIffAgree<C, D>(f1: Function<C>, f2: Function<D>, start: real, end: real, points: nat)
    requires start < end && points >= 1
    ensures var h := (end - start) / points as real;
            var s1 := Samples(f1, start, h, SampleCount(start, end, h));
            var s2 := Samples(f2, start, h, SampleCount(start, end, h));
            |s1| == |s2| == points + 1 &&
            (SumOfSquares(Difference(s1, s2), |s1|) == 0.0 <==>
               forall i :: 0 <= i <= points ==> f1.At(Knot(start, h, i)) == f2.At(Knot(start, h, i)))
  {
    var h := (end - start) / points as real;
    SampleCountExact(start, end, points);
    var s1 := Samples(f1, start, h, SampleCount(start, end, h));
    var s2 := Samples(f2, start, h, SampleCount(start, end, h));
    SumOfSquaresZero(Difference(s1, s2), |s1|);
  }
}
