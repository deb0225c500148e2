/**
 * The root finders of project1.c: bisection_method, the three Newton
 * iterations with their three-slot error register, and
 * square_root_calculator, which seeds Newton's method with a coarse
 * bisection.
 */
module RootFinding {
  import opened Wrappers
  import opened Numbers
  import opened Utilities

  /**
   * struct result.  NaN is None; a convergence rate the source leaves
   * unset, or sets from NaN, is None as well.
   */
  datatype Outcome = Outcome(value: Option<real>, error: Option<real>, iterations: nat, rate: Option<int>)

  // ---------------------------------------------------------------------
  // bisection_method

  /** The two signs multiply to at most zero: the bracket still holds a root. */
  predicate SignChange(y0: real, y1: real)
  {
    Mul(y0, y1) <= 0.0
  }

  /**
   * bisection_method: no result for a reversed interval or one without a
   * sign change; otherwise the halving loop runs until the half-width is at
   * most half the tolerance, stopping early at an endpoint that is a root.
   */
  method Bisection<C>(fn: Function<C>, x0: real, x1: real, tolerance: real) returns (r: Outcome)
    requires tolerance > 0.0
    ensures r.value.None? <==> x0 >= x1 || !SignChange(fn.At(x0), fn.At(x1))
    ensures r.value.None? ==> r == Outcome(None, None, 0, None)
    ensures r.value.Some? ==>
      (r.error.Some? && r.rate == Some(1) &&
       var v, e := r.value.value, r.error.value;
       0.0 <= e <= tolerance / 2.0 && x0 <= v - e && v + e <= x1 &&
       SignChange(fn.At(v - e), fn.At(v + e)) &&
       (e == 0.0 ==> fn.At(v) == 0.0) &&
       (e != 0.0 ==> Mul(e, Pow(2.0, r.iterations + 1)) == x1 - x0) &&
       (r.iterations == 0 <==> x1 - x0 <= tolerance) &&
       (r.iterations >= 1 ==> Mul(tolerance, Pow(2.0, r.iterations - 1)) < x1 - x0))
  {
    if x0 >= x1 {
      return Outcome(None, None, 0, None);
    }
    var lo, hi := x0, x1;
    var y0, y1 := fn.f(lo, fn.arg), fn.f(hi, fn.arg);
    var error, value := (hi - lo) / 2.0, (lo + hi) / 2.0;
    if Mul(y0, y1) > 0.0 {
      return Outcome(None, None, 0, None);
    }
    var tol := tolerance / 2.0;
    var iterations: nat := 0;
    ghost var w := x1 - x0;
    while error > tol
      invariant x0 <= lo < hi <= x1
      invariant y0 == fn.At(lo) && y1 == fn.At(hi) && SignChange(y0, y1)
      invariant value == (lo + hi) / 2.0 && error == (hi - lo) / 2.0
      invariant Mul(error, Pow(2.0, iterations + 1)) == w
      invariant iterations == 0 ==> error == w / 2.0
      invariant iterations >= 1 ==> Mul(tolerance, Pow(2.0, iterations - 1)) < w && tolerance < w
      decreases Floor(error / tol)
    {
      HalvingCounts(error, tolerance, Pow(2.0, iterations), w);
      HalvingDecreases(error, tol);
      Halving(error, Pow(2.0, iterations + 1));
      error := error / 2.0;
      iterations := iterations + 1;
      if y0 == 0.0 {
        return Outcome(Some(lo), Some(0.0), iterations, Some(1));
      } else if y1 == 0.0 {
        return Outcome(Some(hi), Some(0.0), iterations, Some(1));
      } else {
        var ym := fn.f(value, fn.arg);
        if Mul(y0, ym) < 0.0 {
          hi, y1 := value, ym;
        } else {
          SignStep(y0, y1, ym);
          lo, y0 := value, ym;
        }
        value := (lo + hi) / 2.0;
      }
    }
    r := Outcome(Some(value), Some(error), iterations, Some(1));
  }

  /** Replacing the endpoint whose sign the midpoint shares keeps a sign change. */
  lemma SignStep(y0: real, y1: real, ym: real)
    requires SignChange(y0, y1) && y0 != 0.0 && y1 != 0.0 && Mul(y0, ym) >= 0.0
    ensures SignChange(ym, y1)
  {
  }

  /** Halving the error and doubling the power of two keep their product. */
  lemma Halving(e: real, p: real)
    ensures Mul(e / 2.0, Mul(p, 2.0)) == Mul(e, p)
  {
  }

  /** An error above tol / 2 that is w / 2^(i+1) makes tol * 2^i smaller than w. */
  lemma HalvingCounts(e: real, tolerance: real, p: real, w: real)
    requires e > tolerance / 2.0 && Mul(e, Mul(p, 2.0)) == w
    requires p > 0.0
    ensures Mul(tolerance, p) < w
  {
    MulAssociates(e, p, 2.0);
    MulCommutes(e, p);
    MulAssociates(p, e, 2.0);
    assert Mul(e, 2.0) > tolerance;
    MulCommutes(p, Mul(e, 2.0));
    MulCommutes(p, tolerance);
    assert Mul(Mul(e, 2.0), p) > Mul(tolerance, p);
  }

  /** The loop measure: the number of tolerances in the error drops with every halving. */
  lemma HalvingDecreases(e: real, t: real)
    requires e > t > 0.0
    ensures 0 <= Floor((e / 2.0) / t) < Floor(e / t)
  {
    var q := e / t;
    assert (e / 2.0) / t == q / 2.0;
    FloorCeil(q);
    FloorCeil(q / 2.0);
  }

  // ---------------------------------------------------------------------
  // The Newton iterations

  /** The errors[3] buffer of the Newton loops: the three latest relative changes, oldest first. */
  datatype Register = Register(oldest: real, middle: real, newest: real)
  {
    function Shift(e: real): Register
    {
      Register(middle, newest, e)
    }
  }

  const Cleared := Register(0.0, 0.0, 0.0)

  /** a / b for a nonzero b; the runs the model admits never divide by zero. */
  function Quotient(a: real, b: real): real
  {
    if b == 0.0 then 0.0 else a / b
  }

  /** fabsl((value - x) / value): the relative change of one step. */
  function Change(x: real, v: real): real
  {
    Abs(Quotient(v - x, v))
  }

  /** The variables a Newton loop carries from one iteration to the next. */
  datatype Walk<S> = Walk(x: real, s: S, errors: Register)

  /**
   * The walk after i completed iterations: each computes the next value
   * from x and the extra state s, shifts its relative change into the
   * register, lets adjust (given the iteration index and the new register)
   * update s, and moves x to the new value.
   */
  function WalkAt<S>(next: (real, S) -> real, adjust: (nat, S, Register) -> S, start: Walk<S>, i: nat): Walk<S>
  {
    if i == 0 then start
    else
      var w := WalkAt(next, adjust, start, i - 1);
      var v := next(w.x, w.s);
      var errors := w.errors.Shift(Change(w.x, v));
      Walk(v, adjust(i - 1, w.s, errors), errors)
  }

  /** The value iteration i computes. */
  function ValueAt<S>(next: (real, S) -> real, adjust: (nat, S, Register) -> S, start: Walk<S>, i: nat): real
  {
    var w := WalkAt(next, adjust, start, i);
    next(w.x, w.s)
  }

  /** The relative change of iteration i. */
  function ChangeAt<S>(next: (real, S) -> real, adjust: (nat, S, Register) -> S, start: Walk<S>, i: nat): real
  {
    Change(WalkAt(next, adjust, start, i).x, ValueAt(next, adjust, start, i))
  }

  /** Iteration i is executed: none of the earlier changes met the tolerance. */
  ghost predicate Reached<S>(next: (real, S) -> real, adjust: (nat, S, Register) -> S, start: Walk<S>,
                             tolerance: real, i: nat)
  {
    forall j :: 0 <= j < i ==> ChangeAt(next, adjust, start, j) >= tolerance
  }

  /**
   * Every iteration the loop reaches divides by nonzero numbers: ok holds
   * of its x and s, and the value it computes is not zero.
   */
  ghost predicate Safe<S>(next: (real, S) -> real, adjust: (nat, S, Register) -> S, ok: (real, S) -> bool,
                          start: Walk<S>, max: nat, tolerance: real)
  {
    forall i :: 0 <= i < max && Reached(next, adjust, start, tolerance, i) ==>
      ok(WalkAt(next, adjust, start, i).x, WalkAt(next, adjust, start, i).s) && ValueAt(next, adjust, start, i) != 0.0
  }

  /**
   * What every Newton variant reports: at most max iterations; an
   * iteration count below max only when that iteration met the tolerance;
   * the value and half the relative change of the last computed step; and
   * a rate estimated from the register once three iterations completed.
   */
  ghost predicate Reports<S>(next: (real, S) -> real, adjust: (nat, S, Register) -> S, start: Walk<S>,
                             max: nat, tolerance: real, estimate: (real, real, real) -> int, r: Outcome)
    requires max >= 1
  {
    var last := if r.iterations < max then r.iterations else max - 1;
    var w := WalkAt(next, adjust, start, r.iterations);
    r.iterations <= max &&
    Reached(next, adjust, start, tolerance, r.iterations) &&
    (r.iterations < max ==> ChangeAt(next, adjust, start, r.iterations) < tolerance) &&
    r.value == Some(ValueAt(next, adjust, start, last)) &&
    r.error == Some(ChangeAt(next, adjust, start, last) / 2.0) &&
    r.rate == if r.iterations < 3 then None else Some(estimate(w.errors.oldest, w.errors.middle, w.errors.newest))
  }

  /** The register after i iterations holds the last three changes, zero before the first. */
  lemma {:induction false} RegisterHoldsRecent<S>(next: (real, S) -> real, adjust: (nat, S, Register) -> S,
                                                  x0: real, s0: S, i: nat)
    ensures var start := Walk(x0, s0, Cleared);
            WalkAt(next, adjust, start, i).errors
              == Register(if i >= 3 then ChangeAt(next, adjust, start, i - 3) else 0.0,
                          if i >= 2 then ChangeAt(next, adjust, start, i - 2) else 0.0,
                          if i >= 1 then ChangeAt(next, adjust, start, i - 1) else 0.0)
  {
    if i > 0 {
      RegisterHoldsRecent(next, adjust, x0, s0, i - 1);
    }
  }

  /** Every iteration starts from the value of the one before. */
  lemma WalkContinues<S>(next: (real, S) -> real, adjust: (nat, S, Register) -> S, start: Walk<S>, i: nat)
    requires i >= 1
    ensures WalkAt(next, adjust, start, i).x == ValueAt(next, adjust, start, i - 1)
  {
  }

  /**
   * What one reached iteration of a safe walk may rely on: its divisions
   * are safe, and if its change misses the tolerance the next iteration is
   * reached from the value it computed.
   */
  lemma WalkStep<S>(next: (real, S) -> real, adjust: (nat, S, Register) -> S, ok: (real, S) -> bool,
                    start: Walk<S>, max: nat, tolerance: real, i: nat)
    requires Safe(next, adjust, ok, start, max, tolerance) && i < max && Reached(next, adjust, start, tolerance, i)
    ensures var w := WalkAt(next, adjust, start, i);
            ok(w.x, w.s) && ValueAt(next, adjust, start, i) != 0.0 &&
            ChangeAt(next, adjust, start, i) == Change(w.x, next(w.x, w.s))
    ensures ChangeAt(next, adjust, start, i) >= tolerance ==> Reached(next, adjust, start, tolerance, i + 1)
    ensures var w := WalkAt(next, adjust, start, i);
            var errors := w.errors.Shift(ChangeAt(next, adjust, start, i));
            WalkAt(next, adjust, start, i + 1) == Walk(ValueAt(next, adjust, start, i), adjust(i, w.s, errors), errors)
  {
  }

  /** How a Newton loop that stopped after `iterations` iterations assembles what it reports. */
  lemma Concluded<S>(next: (real, S) -> real, adjust: (nat, S, Register) -> S, start: Walk<S>,
                     max: nat, tolerance: real, estimate: (real, real, real) -> int,
                     iterations: nat, value: real, error: real, errors: Register)
    requires max >= 1 && iterations <= max && Reached(next, adjust, start, tolerance, iterations)
    requires errors == WalkAt(next, adjust, start, iterations).errors
    requires iterations < max ==> ChangeAt(next, adjust, start, iterations) < tolerance
    requires var last := if iterations < max then iterations else max - 1;
             value == ValueAt(next, adjust, start, last) && error == ChangeAt(next, adjust, start, last)
    ensures Reports(next, adjust, start, max, tolerance, estimate,
                    Outcome(Some(value), Some(error / 2.0), iterations,
                            if iterations < 3 then None else Some(estimate(errors.oldest, errors.middle, errors.newest))))
  {
  }

  // newtons_method

  function NewtonNext<C>(fn: Function<C>, d: Function<C>): (real, ()) -> real
  {
    (x: real, s: ()) => x - Quotient(fn.At(x), d.At(x))
  }

  function NoAdjust(): (nat, (), Register) -> ()
  {
    (i: nat, s: (), errors: Register) => s
  }

  function DerivativeNonzero<C>(d: Function<C>): (real, ()) -> bool
  {
    (x: real, s: ()) => d.At(x) != 0.0
  }

  /** One step of newtons_method: the new value and its relative change. */
  method NewtonValue<C>(fn: Function<C>, d: Function<C>, x: real) returns (value: real, error: real)
    requires DerivativeNonzero(d)(x, ()) && NewtonNext(fn, d)(x, ()) != 0.0
    ensures value == NewtonNext(fn, d)(x, ()) && error == Change(x, value)
  {
    value := x - fn.f(x, fn.arg) / d.f(x, d.arg);
    error := Abs((value - x) / value);
  }

  /** newtons_method: x := x - f(x) / f'(x) until the relative change drops below the tolerance. */
  method Newton<C>(fn: Function<C>, d: Function<C>, x0: real, max: nat, tolerance: real,
                   estimate: (real, real, real) -> int) returns (r: Outcome)
    requires max >= 1
    requires Safe(NewtonNext(fn, d), NoAdjust(), DerivativeNonzero(d), Walk(x0, (), Cleared), max, tolerance)
    ensures Reports(NewtonNext(fn, d), NoAdjust(), Walk(x0, (), Cleared), max, tolerance, estimate, r)
  {
    ghost var next, adjust, start := NewtonNext(fn, d), NoAdjust(), Walk(x0, (), Cleared);
    var errors := Cleared;
    var x := x0;
    var value, error := 0.0, 0.0;
    var iterations: nat := 0;
    while iterations != max
      invariant iterations <= max && Reached(next, adjust, start, tolerance, iterations)
      invariant x == WalkAt(next, adjust, start, iterations).x
      invariant errors == WalkAt(next, adjust, start, iterations).errors
      invariant iterations >= 1 ==> value == ValueAt(next, adjust, start, iterations - 1)
      invariant iterations >= 1 ==> error == ChangeAt(next, adjust, start, iterations - 1)
      decreases max - iterations
    {
      WalkStep(next, adjust, DerivativeNonzero(d), start, max, tolerance, iterations);
      value, error := NewtonValue(fn, d, x);
      if error < tolerance {
        break;
      }
      errors := errors.Shift(error);
      x := value;
      iterations := iterations + 1;
    }
    Concluded(next, adjust, start, max, tolerance, estimate, iterations, value, error, errors);
    error := error / 2.0;
    var rate := if iterations < 3 then None else Some(estimate(errors.oldest, errors.middle, errors.newest));
    r := Outcome(Some(value), Some(error), iterations, rate);
  }

  // altered_newtons_method

  /**
   * The altered step x - f f' / (f'^2 - f f'').  As in the source, both
   * derivatives are evaluated with the argument of f, not their own.
   */
  function AlteredNext<C>(fn: Function<C>, d: Function<C>, dd: Function<C>): (real, ()) -> real
  {
    (x: real, s: ()) =>
      var f, fd, fdd := fn.At(x), d.f(x, fn.arg), dd.f(x, fn.arg);
      x - Quotient(Mul(f, fd), Mul(fd, fd) - Mul(f, fdd))
  }

  function AlteredNonzero<C>(fn: Function<C>, d: Function<C>, dd: Function<C>): (real, ()) -> bool
  {
    (x: real, s: ()) =>
      var f, fd, fdd := fn.At(x), d.f(x, fn.arg), dd.f(x, fn.arg);
      Mul(fd, fd) - Mul(f, fdd) != 0.0
  }

  /** One step of altered_newtons_method: the new value and its relative change. */
  method AlteredValue<C>(fn: Function<C>, d: Function<C>, dd: Function<C>, x: real) returns (value: real, error: real)
    requires AlteredNonzero(fn, d, dd)(x, ()) && AlteredNext(fn, d, dd)(x, ()) != 0.0
    ensures value == AlteredNext(fn, d, dd)(x, ()) && error == Change(x, value)
  {
    var f, fd, fdd := fn.f(x, fn.arg), d.f(x, fn.arg), dd.f(x, fn.arg);
    value := x - Mul(f, fd) / (Mul(fd, fd) - Mul(f, fdd));
    error := Abs((value - x) / value);
  }

  /** altered_newtons_method: Newton's loop with the altered step. */
  method AlteredNewton<C>(fn: Function<C>, d: Function<C>, dd: Function<C>, x0: real, max: nat, tolerance: real,
                          estimate: (real, real, real) -> int) returns (r: Outcome)
    requires max >= 1
    requires Safe(AlteredNext(fn, d, dd), NoAdjust(), AlteredNonzero(fn, d, dd), Walk(x0, (), Cleared), max, tolerance)
    ensures Reports(AlteredNext(fn, d, dd), NoAdjust(), Walk(x0, (), Cleared), max, tolerance, estimate, r)
  {
    ghost var next, adjust, start := AlteredNext(fn, d, dd), NoAdjust(), Walk(x0, (), Cleared);
    var errors := Cleared;
    var x := x0;
    var value, error := 0.0, 0.0;
    var iterations: nat := 0;
    while iterations != max
      invariant iterations <= max && Reached(next, adjust, start, tolerance, iterations)
      invariant x == WalkAt(next, adjust, start, iterations).x
      invariant errors == WalkAt(next, adjust, start, iterations).errors
      invariant iterations >= 1 ==> value == ValueAt(next, adjust, start, iterations - 1)
      invariant iterations >= 1 ==> error == ChangeAt(next, adjust, start, iterations - 1)
      decreases max - iterations
    {
      WalkStep(next, adjust, AlteredNonzero(fn, d, dd), start, max, tolerance, iterations);
      value, error := AlteredValue(fn, d, dd, x);
      if error < tolerance {
        break;
      }
      errors := errors.Shift(error);
      x := value;
      iterations := iterations + 1;
    }
    Concluded(next, adjust, start, max, tolerance, estimate, iterations, value, error, errors);
    error := error / 2.0;
    var rate := if iterations < 3 then None else Some(estimate(errors.oldest, errors.middle, errors.newest));
    r := Outcome(Some(value), Some(error), iterations, rate);
  }

  // adjusting_newtons_method

  /** The multiplier m of the adjusting step and whether it may still grow. */
  datatype Multiplier = Multiplier(m: real, adjusting: bool)

  const Unadjusted := Multiplier(1.0, true)

  /** The adjusting step x - m f(x) / f'(x). */
  function AdjustingNext<C>(fn: Function<C>, d: Function<C>): (real, Multiplier) -> real
  {
    (x: real, s: Multiplier) => x - Quotient(Mul(s.m, fn.At(x)), d.At(x))
  }

  /**
   * After every third iteration from the third on, while adjusting: m grows
   * by one when the estimated rate is below 2, and adjusting stops otherwise.
   */
  function Adjust(estimate: (real, real, real) -> int): (nat, Multiplier, Register) -> Multiplier
  {
    (i: nat, s: Multiplier, e: Register) =>
      if s.adjusting && i > 2 && i % 3 == 0 then
        if estimate(e.oldest, e.middle, e.newest) < 2 then Multiplier(s.m + 1.0, true) else Multiplier(s.m, false)
      else s
  }

  /** The adjustment block of adjusting_newtons_method's loop body. */
  method AdjustMultiplier(m: real, adjusting: bool, iterations: nat, e0: real, e1: real, e2: real,
                          estimate: (real, real, real) -> int) returns (m': real, adjusting': bool)
    ensures Multiplier(m', adjusting') == Adjust(estimate)(iterations, Multiplier(m, adjusting), Register(e0, e1, e2))
  {
    m', adjusting' := m, adjusting;
    if adjusting && iterations > 2 && iterations % 3 == 0 {
      if estimate(e0, e1, e2) < 2 {
        m' := m + 1.0;
      } else {
        adjusting' := false;
      }
    }
  }

  function AdjustingNonzero<C>(d: Function<C>): (real, Multiplier) -> bool
  {
    (x: real, s: Multiplier) => d.At(x) != 0.0
  }

  /** One step of adjusting_newtons_method: the new value and its relative change. */
  method AdjustingValue<C>(fn: Function<C>, d: Function<C>, s: Multiplier, x: real) returns (value: real, error: real)
    requires AdjustingNonzero(d)(x, s) && AdjustingNext(fn, d)(x, s) != 0.0
    ensures value == AdjustingNext(fn, d)(x, s) && error == Change(x, value)
  {
    value := x - Mul(s.m, fn.f(x, fn.arg)) / d.f(x, d.arg);
    error := Abs((value - x) / value);
  }

  /** adjusting_newtons_method: Newton's loop with a multiplier adjusted from the estimated rate. */
  method AdjustingNewton<C>(fn: Function<C>, d: Function<C>, x0: real, max: nat, tolerance: real,
                            estimate: (real, real, real) -> int) returns (r: Outcome)
    requires max >= 1
    requires Safe(AdjustingNext(fn, d), Adjust(estimate), AdjustingNonzero(d), Walk(x0, Unadjusted, Cleared), max, tolerance)
    ensures Reports(AdjustingNext(fn, d), Adjust(estimate), Walk(x0, Unadjusted, Cleared), max, tolerance, estimate, r)
  {
    ghost var next, adjust, start := AdjustingNext(fn, d), Adjust(estimate), Walk(x0, Unadjusted, Cleared);
    var adjusting := true;
    var errors := Cleared;
    var m := 1.0;
    var x := x0;
    var value, error := 0.0, 0.0;
    var iterations: nat := 0;
    while iterations != max
      invariant iterations <= max && Reached(next, adjust, start, tolerance, iterations)
      invariant x == WalkAt(next, adjust, start, iterations).x
      invariant Multiplier(m, adjusting) == WalkAt(next, adjust, start, iterations).s
      invariant errors == WalkAt(next, adjust, start, iterations).errors
      invariant iterations >= 1 ==> value == ValueAt(next, adjust, start, iterations - 1)
      invariant iterations >= 1 ==> error == ChangeAt(next, adjust, start, iterations - 1)
      decreases max - iterations
    {
      WalkStep(next, adjust, AdjustingNonzero(d), start, max, tolerance, iterations);
      value, error := AdjustingValue(fn, d, Multiplier(m, adjusting), x);
      if error < tolerance {
        break;
      }
      errors := errors.Shift(error);
      m, adjusting := AdjustMultiplier(m, adjusting, iterations, errors.oldest, errors.middle, errors.newest, estimate);
      x := value;
      iterations := iterations + 1;
    }
    Concluded(next, adjust, start, max, tolerance, estimate, iterations, value, error, errors);
    error := error / 2.0;
    var rate := if iterations < 3 then None else Some(estimate(errors.oldest, errors.middle, errors.newest));
    r := Outcome(Some(value), Some(error), iterations, rate);
  }

  /** The multiplier starts at 1 and never decreases. */
  lemma {:induction false} MultiplierGrows<C>(fn: Function<C>, d: Function<C>, estimate: (real, real, real) -> int,
                                              x0: real, i: nat, j: nat)
    requires i <= j
    ensures var start := Walk(x0, Unadjusted, Cleared);
            1.0 <= WalkAt(AdjustingNext(fn, d), Adjust(estimate), start, i).s.m
                <= WalkAt(AdjustingNext(fn, d), Adjust(estimate), start, j).s.m
  {
    if j > i {
      MultiplierGrows(fn, d, estimate, x0, i, j - 1);
    } else if i > 0 {
      MultiplierGrows(fn, d, estimate, x0, i - 1, i - 1);
    }
  }

  /** The multiplier state changes only at an adjusting iteration past the second that is a multiple of 3. */
  lemma MultiplierChangesAtChecks<C>(fn: Function<C>, d: Function<C>, estimate: (real, real, real) -> int,
                                     start: Walk<Multiplier>, i: nat)
    ensures var s, s' := WalkAt(AdjustingNext(fn, d), Adjust(estimate), start, i).s,
                         WalkAt(AdjustingNext(fn, d), Adjust(estimate), start, i + 1).s;
            s' != s ==> s.adjusting && i > 2 && i % 3 == 0
  {
  }

  /** Once adjusting stops it never resumes, and the multiplier is frozen. */
  lemma {:induction false} SettledStaysSettled<C>(fn: Function<C>, d: Function<C>, estimate: (real, real, real) -> int,
                                                  start: Walk<Multiplier>, i: nat, j: nat)
    requires i <= j && !WalkAt(AdjustingNext(fn, d), Adjust(estimate), start, i).s.adjusting
    ensures WalkAt(AdjustingNext(fn, d), Adjust(estimate), start, j).s
         == WalkAt(AdjustingNext(fn, d), Adjust(estimate), start, i).s
  {
    if j > i {
      SettledStaysSettled(fn, d, estimate, start, i, j - 1);
    }
  }

  // ---------------------------------------------------------------------
  // square_root_calculator

  /** square_root_helper: x^2 - k, with k as the function argument. */
  function SquareFunction(k: real): Function<real>
  {
    Function((x: real, a: real) => Mul(x, x) - a, k)
  }

  /** square_root_helper_derivative: 2 x. */
  function SquareDerivative(k: real): Function<real>
  {
    Function((x: real, a: real) => Mul(2.0, x), k)
  }

  /** SQUARE_ROOT_TOLERANCE */
  const SquareRootTolerance: real := 0.0000001

  /** The iteration limit square_root_calculator gives Newton's method. */
  const SquareRootIterations: nat := 256

  /**
   * square_root_calculator: the boundary cases directly; otherwise a
   * bisection of [0, k] to tolerance k / 16 seeds Newton's method unless it
   * hit the root exactly, and the iteration counts are added.  For
   * 0 < k < 1 the bracket has no sign change, the seed is NaN and Newton's
   * method runs its 256 iterations on NaN.
   */
  method SquareRoot(k: real, estimate: (real, real, real) -> int) returns (r: Outcome)
    ensures k < 0.0 ==> r == Outcome(None, Some(0.0), 0, Some(0))
    ensures k == 0.0 ==> r == Outcome(Some(0.0), Some(0.0), 0, Some(0))
    ensures k == 1.0 ==> r == Outcome(Some(1.0), Some(0.0), 0, Some(0))
    ensures 0.0 < k < 1.0 ==> r == Outcome(None, None, SquareRootIterations, None)
    ensures k > 1.0 ==> SquareRootFound(k, estimate, r)
  {
    if k < 0.0 {
      return Outcome(None, Some(0.0), 0, Some(0));
    } else if k == 0.0 {
      return Outcome(Some(0.0), Some(0.0), 0, Some(0));
    } else if k == 1.0 {
      return Outcome(Some(1.0), Some(0.0), 0, Some(0));
    }
    SquareRootBracket(k);
    var seed := Bisection(SquareFunction(k), 0.0, k, k / 16.0);
    if seed.error != Some(0.0) {
      if seed.value.None? {
        r := Outcome(None, None, SquareRootIterations + seed.iterations, None);
      } else {
        SeedIterations(k, seed.iterations);
        var x0 := seed.value.value;
        SquareRootSafe(k, x0, SquareRootIterations);
        var newton := Newton(SquareFunction(k), SquareDerivative(k), x0, SquareRootIterations, SquareRootTolerance, estimate);
        r := newton.(iterations := newton.iterations + seed.iterations);
        SeededAnswer(k, estimate, seed.iterations, x0, newton, r);
      }
    } else {
      SeedIterations(k, seed.iterations);
      r := seed;
      ExactSeed(k, estimate, r);
    }
  }

  /** The Newton branch of square_root_calculator: Newton's report, with the seed's iterations added. */
  lemma SeededAnswer(k: real, estimate: (real, real, real) -> int, n: nat, x0: real, newton: Outcome, r: Outcome)
    requires k > 1.0 && 1 <= n <= 4 && 0.0 < x0 < k
    requires Reports(NewtonNext(SquareFunction(k), SquareDerivative(k)), NoAdjust(), Walk(x0, (), Cleared),
                     SquareRootIterations, SquareRootTolerance, estimate, newton)
    requires r == newton.(iterations := newton.iterations + n)
    ensures SeededNewton(k, estimate, r, n, x0)
    ensures SquareRootFound(k, estimate, r)
  {
    SquareRootReport(k, x0, estimate, newton);
    assert r.(iterations := r.iterations - n) == newton;
    assert SeededNewton(k, estimate, r, n, x0);
    assert r.value == newton.value && r.error == newton.error;
  }

  /** The branch of square_root_calculator where bisection hit the root exactly. */
  lemma ExactSeed(k: real, estimate: (real, real, real) -> int, r: Outcome)
    requires k > 1.0 && r.value.Some? && r.error == Some(0.0) && 0.0 <= r.value.value
    requires r.rate == Some(1) && 1 <= r.iterations <= 4
    requires SquareFunction(k).At(r.value.value) == 0.0
    ensures r.value.value > 0.0 && Mul(r.value.value, r.value.value) == k
    ensures SquareRootFound(k, estimate, r)
  {
    var v := r.value.value;
    assert Mul(v, v) == k;
    assert Mul(2.0 * r.error.value, v) == 0.0;
  }

  /**
   * What square_root_calculator answers for k > 1: a positive v with
   * v^2 >= k (equal when the error is 0) and 0 < v - 2ev with
   * (v - 2ev)^2 <= k, so v(1 - 2e) <= sqrt(k) <= v; the answer is either the
   * bisection seed, when it hit the root exactly, or Newton's report from
   * the bisection midpoint with the 1 to 4 bisection iterations added.
   */
  ghost predicate SquareRootFound(k: real, estimate: (real, real, real) -> int, r: Outcome)
  {
    r.value.Some? && r.error.Some? && 1 <= r.iterations <= 4 + SquareRootIterations &&
    r.value.value > 0.0 && Mul(r.value.value, r.value.value) >= k &&
    (r.error == Some(0.0) ==> Mul(r.value.value, r.value.value) == k) &&
    (var lo := r.value.value - Mul(2.0 * r.error.value, r.value.value);
     0.0 < lo && Mul(lo, lo) <= k) &&
    ((r.error == Some(0.0) && r.rate == Some(1) && 1 <= r.iterations <= 4) ||
     exists n: nat, x0: real :: SeededNewton(k, estimate, r, n, x0))
  }

  /**
   * r is what Newton's method for x^2 - k reports from the seed x0 inside
   * (0, k), with the n iterations of the seeding bisection added.
   */
  ghost predicate SeededNewton(k: real, estimate: (real, real, real) -> int, r: Outcome, n: nat, x0: real)
  {
    1 <= n <= 4 && n <= r.iterations && 0.0 < x0 < k &&
    Reports(NewtonNext(SquareFunction(k), SquareDerivative(k)), NoAdjust(), Walk(x0, (), Cleared),
            SquareRootIterations, SquareRootTolerance, estimate, r.(iterations := r.iterations - n))
  }

  /** x^2 - k changes sign on [0, k] exactly when k > 1 (for positive k other than 1). */
  lemma SquareRootBracket(k: real)
    requires k > 0.0 && k != 1.0
    ensures var f := SquareFunction(k);
            SignChange(f.At(0.0), f.At(k)) <==> k > 1.0
  {
    var f := SquareFunction(k);
    assert f.At(0.0) == -k;
    assert f.At(k) == Mul(k, k) - k;
    if k > 1.0 {
      MulMonotone(1.0, k, k);
      assert Mul(-k, Mul(k, k) - k) < 0.0;
    } else {
      MulMonotone(k, 1.0, k);
      assert Mul(-k, Mul(k, k) - k) > 0.0;
    }
  }

  /** Bisection to a sixteenth of the bracket takes at most 4 halvings. */
  lemma SeedIterations(k: real, n: nat)
    requires k > 0.0
    requires n >= 1 ==> Mul(k / 16.0, Pow(2.0, n - 1)) < k
    ensures n <= 4
  {
    if n > 4 {
      PowTwoGrows(n - 1);
      MulMonotone(16.0, Pow(2.0, n - 1), k / 16.0);
      MulCommutes(16.0, k / 16.0);
    }
  }

  lemma {:induction false} PowTwoGrows(n: nat)
    requires n >= 4
    ensures Pow(2.0, n) >= 16.0
  {
    if n > 4 {
      PowTwoGrows(n - 1);
    }
  }

  /** One Newton step for x^2 - k from a positive x stays positive and does not fall below the root. */
  lemma SquareRootStep(k: real, x: real)
    requires k > 0.0 && x > 0.0
    ensures var v := NewtonNext(SquareFunction(k), SquareDerivative(k))(x, ());
            v > 0.0 && Mul(v, v) >= k && (v == x ==> Mul(x, x) == k)
  {
    var q := (Mul(x, x) - k) / Mul(2.0, x);
    var v := x - q;
    assert NewtonNext(SquareFunction(k), SquareDerivative(k))(x, ()) == v;
    assert Mul(Mul(2.0, x), q) == Mul(x, x) - k;
    assert v == (Mul(x, x) + k) / Mul(2.0, x);
    assert Mul(v, v) == k + Mul(q, q);
  }

  /**
   * The other side of the root: one Newton step from a positive x to v with
   * relative change c leaves v - c v positive and at most the root (it is
   * k / x when x is above the root, and x itself when x is below it).
   */
  lemma SquareRootStepBelow(k: real, x: real)
    requires k > 0.0 && x > 0.0
    ensures var v := NewtonNext(SquareFunction(k), SquareDerivative(k))(x, ());
            var lo := v - Mul(Change(x, v), v);
            0.0 < lo && Mul(lo, lo) <= k
  {
    var v := NewtonNext(SquareFunction(k), SquareDerivative(k))(x, ());
    SquareStepValue(k, x, v);
    ChangeTimesValue(x, v);
    if Mul(x, x) >= k {
      assert v <= x && v - (x - v) == k / x by {
        SquareStepAbove(k, x, v);
      }
      SquareBelowRoot(k, x);
    } else {
      assert v > x by {
        SquareStepBelowRoot(k, x, v);
      }
    }
  }

  /** The Newton step for x^2 - k is (x^2 + k) / 2x. */
  lemma SquareStepValue(k: real, x: real, v: real)
    requires k > 0.0 && x > 0.0 && v == NewtonNext(SquareFunction(k), SquareDerivative(k))(x, ())
    ensures v == (Mul(x, x) + k) / Mul(2.0, x) && v > 0.0
  {
    var q := (Mul(x, x) - k) / Mul(2.0, x);
    assert v == x - q;
    assert Mul(Mul(2.0, x), q) == Mul(x, x) - k;
  }

  /** The relative change times a positive value is the distance moved. */
  lemma ChangeTimesValue(x: real, v: real)
    requires v > 0.0
    ensures Mul(Change(x, v), v) == Abs(v - x)
  {
    assert Change(x, v) == Abs((v - x) / v);
    assert Mul((v - x) / v, v) == v - x;
  }

  /** From above the root the step moves down, to halfway between x and k / x. */
  lemma SquareStepAbove(k: real, x: real, v: real)
    requires k > 0.0 && x > 0.0 && Mul(x, x) >= k && v == (Mul(x, x) + k) / Mul(2.0, x)
    ensures v <= x && v - (x - v) == k / x
  {
    assert Mul(v, Mul(2.0, x)) == Mul(x, x) + k;
    assert Mul(2.0 * v - x, x) == k;
  }

  /** From below the root the step moves up. */
  lemma SquareStepBelowRoot(k: real, x: real, v: real)
    requires k > 0.0 && x > 0.0 && Mul(x, x) < k && v == (Mul(x, x) + k) / Mul(2.0, x)
    ensures v > x
  {
    assert Mul(v, Mul(2.0, x)) == Mul(x, x) + k;
  }

  /** k / x is at most the root when x is at least the root. */
  lemma SquareBelowRoot(k: real, x: real)
    requires k > 0.0 && x > 0.0 && Mul(x, x) >= k
    ensures 0.0 < k / x && Mul(k / x, k / x) <= k
  {
    var lo := k / x;
    assert Mul(lo, x) == k;
    assert Mul(Mul(lo, lo), Mul(x, x)) == Mul(k, k);
    MulMonotone(k, Mul(x, x), k);
    assert Mul(Mul(lo, lo), Mul(x, x)) <= Mul(k, Mul(x, x));
    if Mul(lo, lo) > k {
      MulMonotone(k, Mul(lo, lo), Mul(x, x));
      assert false;
    }
  }

  /** Started from a positive seed, every iterate and value of the walk is positive and at least the root. */
  lemma {:induction false} SquareRootWalk(k: real, x0: real, i: nat)
    requires k > 0.0 && x0 > 0.0
    ensures var next, start := NewtonNext(SquareFunction(k), SquareDerivative(k)), Walk(x0, (), Cleared);
            WalkAt(next, NoAdjust(), start, i).x > 0.0 &&
            ValueAt(next, NoAdjust(), start, i) > 0.0 &&
            Mul(ValueAt(next, NoAdjust(), start, i), ValueAt(next, NoAdjust(), start, i)) >= k &&
            (ChangeAt(next, NoAdjust(), start, i) == 0.0 ==>
              Mul(ValueAt(next, NoAdjust(), start, i), ValueAt(next, NoAdjust(), start, i)) == k)
  {
    var next, start := NewtonNext(SquareFunction(k), SquareDerivative(k)), Walk(x0, (), Cleared);
    if i > 0 {
      SquareRootWalk(k, x0, i - 1);
    }
    var x := WalkAt(next, NoAdjust(), start, i).x;
    SquareRootStep(k, x);
  }

  /** Newton's method for x^2 - k never divides by zero from a positive seed. */
  lemma SquareRootSafe(k: real, x0: real, max: nat)
    requires k > 0.0 && x0 > 0.0
    ensures Safe(NewtonNext(SquareFunction(k), SquareDerivative(k)), NoAdjust(), DerivativeNonzero(SquareDerivative(k)),
                 Walk(x0, (), Cleared), max, SquareRootTolerance)
  {
    var next, start := NewtonNext(SquareFunction(k), SquareDerivative(k)), Walk(x0, (), Cleared);
    forall i | 0 <= i < max
      ensures DerivativeNonzero(SquareDerivative(k))(WalkAt(next, NoAdjust(), start, i).x, ()) &&
              ValueAt(next, NoAdjust(), start, i) != 0.0
    {
      SquareRootWalk(k, x0, i);
    }
  }

  /** What the Newton phase of square_root_calculator reports about its value. */
  lemma SquareRootReport(k: real, x0: real, estimate: (real, real, real) -> int, r: Outcome)
    requires k > 0.0 && x0 > 0.0
    requires Reports(NewtonNext(SquareFunction(k), SquareDerivative(k)), NoAdjust(), Walk(x0, (), Cleared),
                     SquareRootIterations, SquareRootTolerance, estimate, r)
    ensures r.value.Some? && r.error.Some? && r.iterations <= SquareRootIterations
    ensures r.value.value > 0.0 && Mul(r.value.value, r.value.value) >= k
    ensures r.error == Some(0.0) ==> Mul(r.value.value, r.value.value) == k
    ensures var lo := r.value.value - Mul(2.0 * r.error.value, r.value.value);
            0.0 < lo && Mul(lo, lo) <= k
  {
    var next, start := NewtonNext(SquareFunction(k), SquareDerivative(k)), Walk(x0, (), Cleared);
    var last := if r.iterations < SquareRootIterations then r.iterations else SquareRootIterations - 1;
    SquareRootWalk(k, x0, last);
    SquareRootStepBelow(k, WalkAt(next, NoAdjust(), start, last).x);
    assert 2.0 * (ChangeAt(next, NoAdjust(), start, last) / 2.0) == ChangeAt(next, NoAdjust(), start, last);
  }
}
