/**
  `BigComplex.Sqrt6`, the algebraic square root: with `s = |z|`, the root is
  `sqrt((s + re)/2) + i * sgn(im) * sqrt((s - re)/2)`, each part then rounded
  to the requested precision.
*/
module ComplexRoots {
  import D = DecimalExtensions
  import opened ComplexArithmetic

  /** The sign `Sqrt6` gives the imaginary part of the root: the sign of the
      input's imaginary part, with 0 counted as positive. */
  function RootSign(y: real): (g: real)
    ensures g == 1.0 || g == -1.0
    ensures g * y == D.Abs(y)
  {
    (if D.Sign(y) == 0 then 1 else D.Sign(y)) as real
  }

  /** A zero imaginary part counts as positive: its root sign is 1. */
  lemma RootSignOfNonNegative(y: real)
    requires y >= 0.0
    ensures RootSign(y) == 1.0
  {
  }

  /** `Sqrt6` before its final rounding step. */
  function Sqrt6Exact(z: Complex, root: D.RootFn, precision: int): Complex {
    var two := 2.0;
    var sqrXY := root(D.Square(z.re) + D.Square(z.im), precision);
    var sgn := FromReal(RootSign(z.im));
    var a := (sqrXY + z.re) / two;
    var b1 := sqrXY - z.re;
    var b := b1 / two;
    var left := FromReal(root(D.Abs(a), precision));
    var right := FromReal(root(D.Abs(b), precision));
    var rhs := Multiply(Multiply(ImaginaryOne, sgn), right);
    Add(left, rhs)
  }

  /** `Sqrt6`: both parts of the exact value rounded with `BigDecimal.Round`
      to `precision` digits. */
  function Sqrt6(z: Complex, root: D.RootFn, round: D.RoundFn, precision: int): Complex {
    var result := Sqrt6Exact(z, root, precision);
    Complex(round(result.re, precision), round(result.im, precision))
  }

  // ---------------------------------------------------------------------
  // Real-number steps of the proof

  /** A non-negative `s` with `s^2 = x^2 + t`, `t >= 0`, is at least `|x|`,
      so `(s + x)/2` and `(s - x)/2` are non-negative. */
  lemma {:induction false} RootDominates(s: real, x: real, t: real)
    requires s >= 0.0 && t >= 0.0
    requires s * s == x * x + t
    ensures s >= D.Abs(x)
  {
    var u := D.Abs(x);
    if s < u {
      var p := (u - s) * (u + s);
      D.MulPositive(u - s, u + s, p);
    }
  }

  /** With `a^2 = (s + x)/2` and `b^2 = (s - x)/2` where `s^2 = x^2 + y^2`,
      `a*b` is `|y|/2`. */
  lemma {:induction false} HalfProduct(s: real, x: real, y: real, a: real, b: real)
    requires s * s == x * x + y * y
    requires a >= 0.0 && b >= 0.0
    requires a * a == (s + x) / 2.0 && b * b == (s - x) / 2.0
    ensures a * b == D.Abs(y) / 2.0
  {
    var ab := a * b;
    D.MulNonNegative(a, b, ab);
    calc {
      ab * ab;
      (a * a) * (b * b);
      { D.MulEqual(a * a, b * b, (s - x) / 2.0); }
      (a * a) * ((s - x) / 2.0);
      { D.MulEqual((s - x) / 2.0, a * a, (s + x) / 2.0); }
      ((s + x) / 2.0) * ((s - x) / 2.0);
      (s * s - x * x) / 4.0;
      { D.MulEqual(0.25, s * s - x * x, y * y); }
      (y * y) / 4.0;
    }
    var h := D.Abs(y) / 2.0;
    assert h * h == (y * y) / 4.0;
    D.NonNegativeSquareUnique(ab, h);
  }

  /** The exact root in terms of the two idealised square roots. */
  lemma Sqrt6ExactShape(z: Complex, root: D.RootFn, precision: int, s: real, a: real, b: real)
    requires s == root(D.Square(z.re) + D.Square(z.im), precision)
    requires a == root(D.Abs((s + z.re) / 2.0), precision)
    requires b == root(D.Abs((s - z.re) / 2.0), precision)
    ensures Sqrt6Exact(z, root, precision) == Complex(a, RootSign(z.im) * b)
  {
    var g := RootSign(z.im);
    ImaginaryRotation(g, b);
    assert Add(FromReal(a), Complex(0.0, g * b)) == Complex(a, g * b);
  }

  /** `(i * g) * b = (g b) i` for reals `g` and `b`. */
  lemma ImaginaryRotation(g: real, b: real)
    ensures Multiply(Multiply(ImaginaryOne, FromReal(g)), FromReal(b)) == Complex(0.0, g * b)
  {
    assert Multiply(ImaginaryOne, FromReal(g)) == Complex(0.0, g);
  }

  /** `(a + gb i)^2 = (a^2 - b^2) + 2g(ab) i` for `g = +1` or `-1`. */
  lemma {:induction false} SquareOfRootShape(a: real, b: real, g: real)
    requires g == 1.0 || g == -1.0
    ensures Multiply(Complex(a, g * b), Complex(a, g * b))
            == Complex(a * a - b * b, 2.0 * g * (a * b))
  {
    assert g * g == 1.0;
    assert (g * b) * (g * b) == (g * g) * (b * b);
  }

  /** The algebra behind `Sqrt6`, over plain reals: with `s = sqrt(x^2 + y^2)`,
      `a = sqrt((s + x)/2)`, `b = sqrt((s - x)/2)` and `g` the root sign of
      `y`, `(a + g b i)^2 = x + y i`. */
  lemma {:induction false} RootPairSquares(x: real, y: real, s: real, a: real, b: real, w: Complex)
    requires s * s == x * x + y * y
    requires a >= 0.0 && b >= 0.0
    requires a * a == (s + x) / 2.0 && b * b == (s - x) / 2.0
    requires w == Complex(a, RootSign(y) * b)
    ensures Multiply(w, w) == Complex(x, y)
  {
    var g := RootSign(y);
    HalfProduct(s, x, y, a, b);
    SquareOfRootShape(a, b, g);
    assert a * a - b * b == x;
    assert 2.0 * g * (a * b) == g * D.Abs(y);
  }

  /** The imaginary part `g * b` carries the root sign of `y`. */
  lemma SignedPart(y: real, b: real)
    requires b >= 0.0
    ensures y >= 0.0 ==> RootSign(y) * b >= 0.0
    ensures y < 0.0 ==> RootSign(y) * b <= 0.0
  {
    if y >= 0.0 {
      assert RootSign(y) == 1.0;
    } else {
      assert RootSign(y) == -1.0;
    }
  }

  /** The facts the idealised root gives about one of its values. */
  lemma RootFacts(root: D.RootFn, x: real, precision: int)
    requires D.IdealRoot(root)
    requires x >= 0.0
    ensures root(x, precision) >= 0.0
    ensures root(x, precision) * root(x, precision) == x
  {
  }

  /** The quantities `Sqrt6` takes roots of are non-negative: `|z|^2`,
      and `(|z| + re)/2`, `(|z| - re)/2` for the idealised `|z|`. */
  lemma {:induction false} Sqrt6Radicands(z: Complex, root: D.RootFn, precision: int)
    requires D.IdealRoot(root)
    ensures var s := root(D.Square(z.re) + D.Square(z.im), precision);
            s >= 0.0 && s * s == z.re * z.re + z.im * z.im
            && (s + z.re) / 2.0 >= 0.0 && (s - z.re) / 2.0 >= 0.0
  {
    var x, y := z.re, z.im;
    var n := D.Square(x) + D.Square(y);
    D.SumOfSquaresNonNegative(x, y, n);
    RootFacts(root, n, precision);
    var s := root(n, precision);
    var t := y * y;
    D.SquareNonNegative(y, t);
    RootDominates(s, x, t);
  }

  /** The two idealised roots `Sqrt6` combines square back to the input. */
  lemma {:induction false} RootPiecesSquare(z: Complex, root: D.RootFn, precision: int)
    requires D.IdealRoot(root)
    ensures var s := root(D.Square(z.re) + D.Square(z.im), precision);
            var a := root(D.Abs((s + z.re) / 2.0), precision);
            var b := root(D.Abs((s - z.re) / 2.0), precision);
            var w := Complex(a, RootSign(z.im) * b);
            Multiply(w, w) == z
  {
    Sqrt6Radicands(z, root, precision);
    var s := root(D.Square(z.re) + D.Square(z.im), precision);
    var hA := D.Abs((s + z.re) / 2.0);
    var hB := D.Abs((s - z.re) / 2.0);
    RootFacts(root, hA, precision);
    RootFacts(root, hB, precision);
    var a := root(hA, precision);
    var b := root(hB, precision);
    RootPairSquares(z.re, z.im, s, a, b, Complex(a, RootSign(z.im) * b));
  }

  /** Under the idealised root, the exact `Sqrt6` value squares back to
      its input. */
  lemma {:induction false} Sqrt6ExactSquares(z: Complex, root: D.RootFn, precision: int)
    requires D.IdealRoot(root)
    ensures Multiply(Sqrt6Exact(z, root, precision), Sqrt6Exact(z, root, precision)) == z
  {
    RootPiecesSquare(z, root, precision);
    var s := root(D.Square(z.re) + D.Square(z.im), precision);
    var a := root(D.Abs((s + z.re) / 2.0), precision);
    var b := root(D.Abs((s - z.re) / 2.0), precision);
    Sqrt6ExactShape(z, root, precision, s, a, b);
  }

  /** Under the idealised root, the exact `Sqrt6` value has a non-negative
      real part, and an imaginary part with the sign of the input's
      imaginary part (0 counted as positive). */
  lemma {:induction false} Sqrt6ExactSigns(z: Complex, root: D.RootFn, precision: int)
    requires D.IdealRoot(root)
    ensures Sqrt6Exact(z, root, precision).re >= 0.0
    ensures z.im >= 0.0 ==> Sqrt6Exact(z, root, precision).im >= 0.0
    ensures z.im < 0.0 ==> Sqrt6Exact(z, root, precision).im <= 0.0
  {
    Sqrt6Radicands(z, root, precision);
    var s := root(D.Square(z.re) + D.Square(z.im), precision);
    var hA := (s + z.re) / 2.0;
    var hB := (s - z.re) / 2.0;
    RootFacts(root, hA, precision);
    RootFacts(root, hB, precision);
    Sqrt6ExactShape(z, root, precision, s, root(D.Abs(hA), precision), root(D.Abs(hB), precision));
    SignedPart(z.im, root(hB, precision));
  }

  /** Under the idealised root, the exact `Sqrt6` value is a square root of
      its input, in the half-plane the code chooses. */
  lemma Sqrt6ExactIsSquareRoot(z: Complex, root: D.RootFn, precision: int)
    requires D.IdealRoot(root)
    ensures var w := Sqrt6Exact(z, root, precision);
            && Multiply(w, w) == z
            && w.re >= 0.0
            && (z.im >= 0.0 ==> w.im >= 0.0)
            && (z.im < 0.0 ==> w.im <= 0.0)
  {
    Sqrt6ExactSquares(z, root, precision);
    Sqrt6ExactSigns(z, root, precision);
  }

  /** Under the idealised root, `Sqrt6` of `-(k^2)` is `k i` before
      rounding. */
  lemma {:induction false} Sqrt6ExactOfNegativeSquare(k: real, root: D.RootFn, precision: int)
    requires D.IdealRoot(root)
    requires k >= 0.0
    ensures Sqrt6Exact(FromReal(-(k * k)), root, precision) == Complex(0.0, k)
  {
    var kk := k * k;
    D.SquareNonNegative(k, kk);
    var z := FromReal(-kk);
    var n := D.Square(z.re) + D.Square(z.im);
    assert n == kk * kk;
    D.RootOfSquare(root, kk, precision);
    var s := root(n, precision);
    assert s == kk;
    var hA := D.Abs((s + z.re) / 2.0);
    var hB := D.Abs((s - z.re) / 2.0);
    assert hA == 0.0 * 0.0 && hB == k * k;
    D.RootOfSquare(root, 0.0, precision);
    D.RootOfSquare(root, k, precision);
    Sqrt6ExactShape(z, root, precision, s, root(hA, precision), root(hB, precision));
  }

  /** Under the idealised root, `Sqrt6` of `k^2` is `k` before rounding. */
  lemma {:induction false} Sqrt6ExactOfSquare(k: real, root: D.RootFn, precision: int)
    requires D.IdealRoot(root)
    requires k >= 0.0
    ensures Sqrt6Exact(FromReal(k * k), root, precision) == FromReal(k)
  {
    var kk := k * k;
    D.SquareNonNegative(k, kk);
    var z := FromReal(kk);
    var n := D.Square(z.re) + D.Square(z.im);
    assert n == kk * kk;
    D.RootOfSquare(root, kk, precision);
    var s := root(n, precision);
    assert s == kk;
    var hA := D.Abs((s + z.re) / 2.0);
    var hB := D.Abs((s - z.re) / 2.0);
    assert hA == k * k && hB == 0.0 * 0.0;
    D.RootOfSquare(root, 0.0, precision);
    D.RootOfSquare(root, k, precision);
    Sqrt6ExactShape(z, root, precision, s, root(hA, precision), root(hB, precision));
  }

  /** Rounding that keeps whole numbers leaves a root with whole parts
      unchanged. */
  lemma Sqrt6OfWholeRoot(z: Complex, w: Complex, root: D.RootFn, round: D.RoundFn, precision: int)
    requires D.KeepsWholeNumbers(round)
    requires precision >= 0
    requires w.re == w.re.Floor as real && w.im == w.im.Floor as real
    requires Sqrt6Exact(z, root, precision) == w
    ensures Sqrt6(z, root, round, precision) == w
  {
    assert round(w.re, precision) == w.re;
    assert round(w.im, precision) == w.im;
  }

  /** `Sqrt6` of `z = -k^2`, for a whole `k >= 0`, is `k*i`. */
  lemma Sqrt6OfNegativeSquare(z: Complex, k: real, root: D.RootFn, round: D.RoundFn, precision: int)
    requires D.IdealRoot(root) && D.KeepsWholeNumbers(round)
    requires precision >= 0
    requires k >= 0.0 && k == k.Floor as real
    requires z == FromReal(-(k * k))
    ensures Sqrt6(z, root, round, precision) == Complex(0.0, k)
  {
    Sqrt6ExactOfNegativeSquare(k, root, precision);
    Sqrt6OfWholeRoot(z, Complex(0.0, k), root, round, precision);
  }

  /** `Sqrt6` of `z = k^2`, for a whole `k >= 0`, is `k`. */
  lemma Sqrt6OfSquare(z: Complex, k: real, root: D.RootFn, round: D.RoundFn, precision: int)
    requires D.IdealRoot(root) && D.KeepsWholeNumbers(round)
    requires precision >= 0
    requires k >= 0.0 && k == k.Floor as real
    requires z == FromReal(k * k)
    ensures Sqrt6(z, root, round, precision) == FromReal(k)
  {
    Sqrt6ExactOfSquare(k, root, precision);
    Sqrt6OfWholeRoot(z, FromReal(k), root, round, precision);
  }

  /** The values of the test suite: sqrt(-25) = 5i, sqrt(-9) = 3i,
      sqrt(-81) = 9i and sqrt(9) = 3, rounding whole numbers unchanged. */
  lemma Sqrt6Examples(root: D.RootFn, round: D.RoundFn, precision: int)
    requires D.IdealRoot(root) && D.KeepsWholeNumbers(round)
    requires precision >= 0
    ensures Sqrt6(FromReal(-25.0), root, round, precision) == Complex(0.0, 5.0)
    ensures Sqrt6(FromReal(-9.0), root, round, precision) == Complex(0.0, 3.0)
    ensures Sqrt6(FromReal(-81.0), root, round, precision) == Complex(0.0, 9.0)
    ensures Sqrt6(FromReal(9.0), root, round, precision) == Complex(3.0, 0.0)
  {
    Sqrt6OfNegativeSquare(FromReal(-25.0), 5.0, root, round, precision);
    Sqrt6OfNegativeSquare(FromReal(-9.0), 3.0, root, round, precision);
    Sqrt6OfNegativeSquare(FromReal(-81.0), 9.0, root, round, precision);
    Sqrt6OfSquare(FromReal(9.0), 3.0, root, round, precision);
  }
}
