/**
  `BigComplex.Abs` (also exposed as `Magnitude` and `Norm`): the magnitude
  computed by factoring out the larger part, so that the decimal library
  never squares the larger part.
*/
module ComplexMagnitude {
  import D = DecimalExtensions
  import opened ComplexArithmetic

  /** `Abs`: with `c = |re|` and `d = |im|`,
      - `c == 0`: `NthRoot(c*c + d*d)`;
      - `c > d`: `c * NthRoot(1 + (d/c)^2)`;
      - `d == 0`: `c` (never taken, see `AbsZeroImaginaryBranchUnreachable`);
      - otherwise `d * NthRoot(1 + (c/d)^2)`. */
  function Abs(z: Complex, root: D.RootFn, precision: int): real {
    var c := D.Abs(z.re);
    var d := D.Abs(z.im);
    if c == 0.0 then
      PlainRoot(c, d, root, precision)
    else if c > d then
      FactoredRoot(c, d, root, precision)
    else if d == 0.0 then
      c
    else
      FactoredRoot(d, c, root, precision)
  }

  /** `NthRoot(c*c + d*d)`, the branch for a zero real part. */
  function PlainRoot(c: real, d: real, root: D.RootFn, precision: int): real {
    root(c * c + d * d, precision)
  }

  /** `c * NthRoot(1 + (d/c)^2)`, the branch that factors out `c`. */
  function FactoredRoot(c: real, d: real, root: D.RootFn, precision: int): real
    requires c != 0.0
  {
    var r := d / c;
    c * root(1.0 + r * r, precision)
  }

  /** The `Magnitude` property. */
  function Magnitude(z: Complex, root: D.RootFn, precision: int): real {
    Abs(z, root, precision)
  }

  /** `Norm`, which the GCD loop compares. */
  function Norm(z: Complex, root: D.RootFn, precision: int): real {
    Abs(z, root, precision)
  }

  /** The third branch of `Abs` is dead: once `|re| != 0` and `|re| > |im|`
      fails, `|im| >= |re| > 0`. */
  lemma AbsZeroImaginaryBranchUnreachable(z: Complex)
    ensures var c, d := D.Abs(z.re), D.Abs(z.im);
            !(c != 0.0 && !(c > d) && d == 0.0)
  {
  }

  /** Factoring out the larger part `c`: `c * sqrt(1 + (d/c)^2)` squares to
      `c^2 + d^2`. */
  lemma {:induction false} FactoredRootSquares(c: real, d: real, s: real, m: real)
    requires c != 0.0
    requires s * s == 1.0 + (d / c) * (d / c)
    requires m == c * s
    ensures m * m == c * c + d * d
  {
    var r := d / c;
    assert c * r == d;
    calc {
      m * m;
      (c * c) * (s * s);
      { D.MulEqual(c * c, s * s, 1.0 + r * r); }
      (c * c) * (1.0 + r * r);
      c * c + (c * r) * (c * r);
      { D.MulEqual(c * r, c * r, d); D.MulEqual(d, c * r, d); }
      c * c + d * d;
    }
  }

  /** The branch that factors out the part `c`, under the idealised root. */
  lemma {:induction false} FactoredBranch(c: real, d: real, root: D.RootFn, precision: int)
    requires D.IdealRoot(root)
    requires c > 0.0
    ensures FactoredRoot(c, d, root, precision) >= 0.0
    ensures var m := FactoredRoot(c, d, root, precision);
            m * m == c * c + d * d
  {
    var r := d / c;
    var x := 1.0 + r * r;
    D.SumOfSquaresNonNegative(1.0, r, x);
    var s := root(x, precision);
    var m := c * s;
    assert FactoredRoot(c, d, root, precision) == m;
    D.MulNonNegative(c, s, m);
    FactoredRootSquares(c, d, s, m);
  }

  /** The branch for a zero real part, under the idealised root. */
  lemma {:induction false} PlainBranch(c: real, d: real, root: D.RootFn, precision: int)
    requires D.IdealRoot(root)
    ensures PlainRoot(c, d, root, precision) >= 0.0
    ensures var m := PlainRoot(c, d, root, precision);
            m * m == c * c + d * d
  {
    var n := c * c + d * d;
    D.SumOfSquaresNonNegative(c, d, n);
  }

  /** The squares of the magnitudes of the parts sum to `NormSquared`. */
  lemma NormSquaredOfParts(z: Complex, c: real, d: real)
    requires c == D.Abs(z.re) && d == D.Abs(z.im)
    ensures c * c + d * d == NormSquared(z)
  {
    D.SquareNegate(z.re);
    D.SquareNegate(z.im);
  }

  /** The value of `Abs` in the three live branches, with `c = |re|` and
      `d = |im|`. */
  function LiveBranches(c: real, d: real, root: D.RootFn, precision: int): real
    requires c >= 0.0 && d >= 0.0
  {
    if c == 0.0 then PlainRoot(c, d, root, precision)
    else if c > d then FactoredRoot(c, d, root, precision)
    else FactoredRoot(d, c, root, precision)
  }

  /** `Abs` takes one of its three live branches. */
  lemma AbsIsLiveBranch(z: Complex, root: D.RootFn, precision: int)
    ensures Abs(z, root, precision) == LiveBranches(D.Abs(z.re), D.Abs(z.im), root, precision)
  {
    AbsZeroImaginaryBranchUnreachable(z);
  }

  /** Under the idealised root each live branch is a non-negative square
      root of `c^2 + d^2`. */
  lemma {:induction false} LiveBranchesHypot(c: real, d: real, root: D.RootFn, precision: int)
    requires D.IdealRoot(root)
    requires c >= 0.0 && d >= 0.0
    ensures LiveBranches(c, d, root, precision) >= 0.0
    ensures var m := LiveBranches(c, d, root, precision);
            m * m == c * c + d * d
  {
    var m := LiveBranches(c, d, root, precision);
    if c == 0.0 {
      assert m == PlainRoot(c, d, root, precision);
      PlainBranch(c, d, root, precision);
    } else if c > d {
      assert m == FactoredRoot(c, d, root, precision);
      FactoredBranch(c, d, root, precision);
    } else {
      assert m == FactoredRoot(d, c, root, precision);
      FactoredBranch(d, c, root, precision);
    }
  }

  /** Under the idealised root, `Abs` is the non-negative square root of
      `re^2 + im^2`, in every branch. */
  lemma {:induction false} AbsIsHypot(z: Complex, root: D.RootFn, precision: int)
    requires D.IdealRoot(root)
    ensures Abs(z, root, precision) >= 0.0
    ensures Abs(z, root, precision) * Abs(z, root, precision) == NormSquared(z)
  {
    var c := D.Abs(z.re);
    var d := D.Abs(z.im);
    AbsIsLiveBranch(z, root, precision);
    LiveBranchesHypot(c, d, root, precision);
    NormSquaredOfParts(z, c, d);
  }

  /** `Norm`, named `n`, is the non-negative square root of `re^2 + im^2`
      under the idealised root. */
  lemma NormIsHypot(z: Complex, root: D.RootFn, precision: int, n: real)
    requires D.IdealRoot(root)
    requires n == Norm(z, root, precision)
    ensures n >= 0.0 && n * n == NormSquared(z)
  {
    AbsIsHypot(z, root, precision);
  }

  /** Abs(4+3i) = 5 and Abs(4+0i) = 4 under the idealised root. */
  lemma AbsExamples(root: D.RootFn, precision: int)
    requires D.IdealRoot(root)
    ensures Abs(Complex(4.0, 3.0), root, precision) == 5.0
    ensures Abs(Complex(4.0, 0.0), root, precision) == 4.0
  {
    var s := root(1.5625, precision);
    D.NonNegativeSquareUnique(s, 1.25);
    var t := root(1.0, precision);
    D.NonNegativeSquareUnique(t, 1.0);
  }
}
