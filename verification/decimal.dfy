/**
  The arbitrary-precision decimal layer the complex type is built on.
  A BigDecimal is modelled by its exact value, a `real`.  The operations
  the decimal library implements itself (NthRoot, Round) are not modelled:
  the callers receive them as function parameters, and the properties
  proved about the complex layer assume the idealised contracts below.
*/
module DecimalExtensions {

  /** `BigDecimal.NthRoot(x, 2, precision)`, supplied by the caller. */
  type RootFn = (real, int) -> real

  /** `BigDecimal.Round(x, precision)`, supplied by the caller. */
  type RoundFn = (real, int) -> real

  /** The idealised square root: exact, and non-negative.  The real library
      stops after `precision` digits, so this is an idealisation. */
  ghost predicate IdealRoot(root: RootFn) {
    forall x: real, p: int :: x >= 0.0 ==> root(x, p) >= 0.0 && root(x, p) * root(x, p) == x
  }

  /** Rounding to `p >= 0` decimal places leaves whole numbers alone. */
  ghost predicate KeepsWholeNumbers(round: RoundFn) {
    forall x: real, p: int :: p >= 0 && x == x.Floor as real ==> round(x, p) == x
  }

  /** `BigDecimal.Abs`. */
  function Abs(x: real): (r: real)
    ensures r >= 0.0
    ensures r == x || r == -x
  {
    if x < 0.0 then -x else x
  }

  /** `BigDecimal.Sign`: -1, 0 or 1 according to the sign of the value. */
  function Sign(x: real): (r: int)
    ensures -1 <= r <= 1
    ensures r == 0 <==> x == 0.0
    ensures r > 0 <==> x > 0.0
  {
    if x < 0.0 then -1 else if x > 0.0 then 1 else 0
  }

  /** `BigDecimalExtensionMethods.Square`: the number times itself. */
  function Square(x: real): (r: real)
    ensures r >= 0.0
    ensures r == Abs(x) * Abs(x)
  {
    x * x
  }

  /** Squaring forgets the sign. */
  lemma SquareNegate(x: real)
    ensures Square(-x) == Square(x)
  {
  }

  // ---------------------------------------------------------------------
  // Facts about real products.  Each names the product as a parameter, so
  // that callers can hand the solver the product as a single term.

  lemma MulPositive(x: real, y: real, p: real)
    requires x > 0.0 && y > 0.0 && p == x * y
    ensures p > 0.0
  {
  }

  lemma MulNonNegative(x: real, y: real, p: real)
    requires x >= 0.0 && y >= 0.0 && p == x * y
    ensures p >= 0.0
  {
  }

  lemma SquarePositive(c: real, s: real)
    requires c != 0.0 && s == c * c
    ensures s > 0.0
  {
    if c > 0.0 {
      MulPositive(c, c, s);
    } else {
      MulPositive(-c, -c, s);
    }
  }

  lemma SquareNonNegative(c: real, s: real)
    requires s == c * c
    ensures s >= 0.0
  {
  }

  /** A nonzero pair has a positive sum of squares. */
  lemma SumOfSquaresPositive(c: real, d: real, n: real)
    requires c != 0.0 || d != 0.0
    requires n == c * c + d * d
    ensures n > 0.0
  {
    var s := c * c;
    var t := d * d;
    if c != 0.0 {
      SquarePositive(c, s);
      SquareNonNegative(d, t);
    } else {
      SquarePositive(d, t);
      SquareNonNegative(c, s);
    }
  }

  lemma SumOfSquaresNonNegative(c: real, d: real, n: real)
    requires n == c * c + d * d
    ensures n >= 0.0
  {
    var s := c * c;
    var t := d * d;
    SquareNonNegative(c, s);
    SquareNonNegative(d, t);
  }

  /** Multiplying equals by the same factor gives equals. */
  lemma MulEqual(k: real, a: real, b: real)
    requires a == b
    ensures k * a == k * b
  {
  }

  /** Only a zero factor makes a product with a positive number zero. */
  lemma ZeroFactor(x: real, n: real)
    requires n > 0.0 && x * n == 0.0
    ensures x == 0.0
  {
  }

  /** Two non-negative numbers with equal squares are equal: the idealised
      root of a value is therefore determined by the value. */
  lemma {:induction false} NonNegativeSquareUnique(a: real, b: real)
    requires a >= 0.0 && b >= 0.0
    requires a * a == b * b
    ensures a == b
  {
    var sum := a + b;
    assert (a - b) * sum == 0.0;
    if sum != 0.0 {
      assert a - b == (a - b) * sum / sum;
    }
  }

  /** Under the idealised contract the root of `k * k` is `|k|`. */
  lemma {:induction false} RootOfSquare(root: RootFn, k: real, p: int)
    requires IdealRoot(root)
    ensures root(k * k, p) == Abs(k)
  {
    assert k * k >= 0.0;
    var s := root(k * k, p);
    assert s >= 0.0 && s * s == k * k;
    NonNegativeSquareUnique(s, Abs(k));
  }

  /** Squaring keeps the order of non-negative numbers, in both
      directions. */
  lemma {:induction false} SquareOrder(x: real, y: real, px: real, py: real)
    requires x >= 0.0 && y >= 0.0
    requires px == x * x && py == y * y
    ensures x < y <==> px < py
    ensures x == y <==> px == py
  {
    if x < y {
      var p := (y - x) * (y + x);
      MulPositive(y - x, y + x, p);
    } else if y < x {
      var p := (x - y) * (x + y);
      MulPositive(x - y, x + y, p);
    }
  }
}
