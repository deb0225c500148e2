/** Failure-compatible wrapper: the C code signals "no result" with NaN or NULL. */
module Wrappers {
  datatype Option<+T> = None | Some(value: T)
}

/** Small facts about real numbers shared by the whole model. */
module Numbers {

  /**
   * The product of two reals.  Products in the model are written with it so
   * that the solver identifies products of equal operands without arithmetic
   * reasoning.
   */
  function Mul(a: real, b: real): real
  {
    a * b
  }

  lemma MulDistributes(a: real, b: real, c: real)
    ensures Mul(a + b, c) == Mul(a, c) + Mul(b, c)
    ensures Mul(c, a + b) == Mul(c, a) + Mul(c, b)
  {
  }

  lemma MulCommutes(a: real, b: real)
    ensures Mul(a, b) == Mul(b, a)
  {
  }

  lemma MulAssociates(a: real, b: real, c: real)
    ensures Mul(Mul(a, b), c) == Mul(a, Mul(b, c))
  {
  }

  lemma MulSubtracts(c: real, a: real, b: real)
    ensures Mul(c, a - b) == Mul(c, a) - Mul(c, b)
  {
  }

  /** Exchanging the second and third factor of a triple product. */
  lemma MulSwap(a: real, b: real, c: real)
    ensures Mul(Mul(a, b), c) == Mul(Mul(a, c), b)
  {
  }

  /** Regrouping a product of four factors. */
  lemma MulShuffle(a: real, b: real, c: real, d: real)
    ensures Mul(Mul(a, b), Mul(c, d)) == Mul(Mul(a, d), Mul(b, c))
  {
  }

  lemma MulNonzero(a: real, b: real)
    ensures a != 0.0 && b != 0.0 ==> Mul(a, b) != 0.0
  {
  }

  lemma MulCancels(a: real, b: real, c: real)
    requires c != 0.0 && Mul(a, c) == Mul(b, c)
    ensures a == b
  {
  }

  lemma MulDivides(a: real, d: real)
    requires d != 0.0
    ensures Mul(a, d) / d == a
    ensures Mul(a, 0.0) / d == 0.0
  {
  }

  /** x^n for a natural exponent (the source's powl is only used with integral powers). */
  function Pow(x: real, n: nat): real
  {
    if n == 0 then 1.0 else Mul(Pow(x, n - 1), x)
  }

  function Abs(x: real): real
  {
    if x < 0.0 then -x else x
  }

  /** floorl, over the reals. */
  function Floor(x: real): int
  {
    x.Floor
  }

  /** ceill, over the reals. */
  function Ceil(x: real): int
  {
    if x.Floor as real == x then x.Floor else x.Floor + 1
  }

  lemma FloorCeil(x: real)
    ensures Floor(x) as real <= x < Floor(x) as real + 1.0
    ensures Floor(x) <= Ceil(x) <= Floor(x) + 1
    ensures x <= Ceil(x) as real
    ensures Ceil(x) == Floor(x) <==> Floor(x) as real == x
  {
  }

  lemma {:induction false} PowNonzero(x: real, n: nat)
    ensures x != 0.0 ==> Pow(x, n) != 0.0
  {
    if n > 0 {
      PowNonzero(x, n - 1);
    }
  }

  lemma {:induction false} PowPositive(x: real, n: nat)
    requires x > 0.0
    ensures Pow(x, n) > 0.0
  {
    if n > 0 {
      PowPositive(x, n - 1);
    }
  }
}
