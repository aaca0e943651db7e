/**
  The numeric environment of the model. Floating-point numbers are modelled
  as exact reals; `math.pi` and `math.sqrt` are not computed but supplied as
  a `MathLib` value whose only known facts are those stated by `Valid`.
 */
module RealMath {

  /** `pi` stands for `math.pi`, `sqrt` for `math.sqrt` on its domain. */
  datatype MathLib = MathLib(pi: real, sqrt: real -> real) {

    /** pi is a positive constant and sqrt returns the non-negative root. */
    ghost predicate Valid() {
      && pi > 0.0
      && forall x :: x >= 0.0 ==> sqrt(x) >= 0.0 && sqrt(x) * sqrt(x) == x
    }
  }

  function Abs(x: real): (r: real)
    ensures r >= 0.0
    ensures r == x || r == -x
  {
    if x < 0.0 then -x else x
  }

  const RelativeTolerance: real := 0.00001
  const AbsoluteTolerance: real := 0.00000001

  /**
    numpy's `isclose(a, b)` with its default tolerances. The tolerance scales
    with the second argument only, so the relation is not symmetric.
   */
  predicate IsClose(a: real, b: real) {
    Abs(a - b) <= AbsoluteTolerance + RelativeTolerance * Abs(b)
  }

  /** Closeness is reflexive, so a value recomputed exactly always passes. */
  lemma IsCloseReflexive(a: real)
    ensures IsClose(a, a)
  {
  }

  /** A pair of values that is close one way round but not the other. */
  lemma IsCloseAsymmetric()
    ensures exists a: real, b: real :: IsClose(a, b) && !IsClose(b, a)
  {
    var b := (1.0 + AbsoluteTolerance) / (1.0 - RelativeTolerance);
    assert b * (1.0 - RelativeTolerance) == 1.0 + AbsoluteTolerance;
    assert IsClose(1.0, b);
    assert !IsClose(b, 1.0);
  }

  lemma ZeroProduct(a: real, b: real)
    requires a * b == 0.0
    ensures a == 0.0 || b == 0.0
  {
  }

  lemma MulNonNegative(a: real, b: real)
    requires a >= 0.0 && b >= 0.0
    ensures a * b >= 0.0
  {
  }

  lemma MulPositive(a: real, b: real)
    requires a > 0.0 && b > 0.0
    ensures a * b > 0.0
  {
  }

  lemma SquareNonNegative(a: real)
    ensures a * a >= 0.0
  {
    if a < 0.0 {
      MulPositive(-a, -a);
    } else {
      MulNonNegative(a, a);
    }
  }

  /** Two non-negative reals with equal squares are equal. */
  lemma SquareInjective(s: real, x: real)
    requires s >= 0.0 && x >= 0.0
    requires s * s == x * x
    ensures s == x
  {
    assert (s - x) * (s + x) == 0.0;
    ZeroProduct(s - x, s + x);
  }

  /** x squared, as a named term so that equal arguments give equal squares. */
  function Square(x: real): real {
    x * x
  }

  /** The root is unique: a non-negative x is the root of its square. */
  lemma SqrtOfSquare(m: MathLib, x: real)
    requires m.Valid()
    requires x >= 0.0
    ensures m.sqrt(Square(x)) == x
  {
    SquareNonNegative(x);
    var s := m.sqrt(Square(x));
    assert s >= 0.0 && s * s == x * x;
    SquareInjective(s, x);
  }

  /** The root of a non-negative x is non-negative and squares back to x. */
  lemma RootSquared(m: MathLib, x: real)
    requires m.Valid()
    requires x >= 0.0
    ensures m.sqrt(x) >= 0.0 && Square(m.sqrt(x)) == x
  {
  }

  /** A root is zero exactly when its argument is. */
  lemma SqrtZero(m: MathLib, x: real)
    requires m.Valid()
    requires x >= 0.0
    ensures m.sqrt(x) == 0.0 <==> x == 0.0
  {
    var s := m.sqrt(x);
    assert s * s == x;
    if x == 0.0 {
      ZeroProduct(s, s);
    }
  }

  /**
    Python 2's `round(x, 6)`: the nearest multiple of one millionth, halves
    rounded away from zero.
   */
  function Round6(x: real): (r: real)
    ensures Abs(r - x) <= 0.0000005
    ensures (r * 1000000.0).Floor as real == r * 1000000.0
    ensures Abs(r - x) == 0.0000005 ==> Abs(r) > Abs(x)
  {
    var n := if x >= 0.0 then Millionths(x) else -Millionths(x);
    RoundError(x, n);
    n as real / 1000000.0
  }

  /** n millionths, with n the rounded count signed like x, lie within half a millionth of x. */
  lemma RoundError(x: real, n: int)
    requires n == (if x >= 0.0 then Millionths(x) else -Millionths(x))
    ensures Abs(n as real / 1000000.0 - x) <= 0.0000005
    ensures (n as real / 1000000.0 * 1000000.0).Floor == n
    ensures Abs(n as real / 1000000.0 - x) == 0.0000005 ==> Abs(n as real / 1000000.0) > Abs(x)
  {
    assert n as real / 1000000.0 * 1000000.0 == n as real;
  }

  /** The number of millionths in |x|, rounded half up. */
  function Millionths(x: real): (k: int)
    ensures k as real <= Abs(x) * 1000000.0 + 0.5 < k as real + 1.0
  {
    (Abs(x) * 1000000.0 + 0.5).Floor
  }
}
