/**
  The `BigComplex` value: a pair of exact decimals, its constants, the
  rectangular arithmetic (negate, add, subtract, multiply, Smith's-method
  divide), conjugate, reciprocal, modulo, component equality and `Sign`.
*/
module ComplexArithmetic {
  import D = DecimalExtensions

  /** A complex number in rectangular form; both parts are exact decimals. */
  datatype Complex = Complex(re: real, im: real)

  const Zero: Complex := Complex(0.0, 0.0)
  const One: Complex := Complex(1.0, 0.0)
  const ImaginaryOne: Complex := Complex(0.0, 1.0)

  /** The complex number with real part `x` and imaginary part 0. */
  function FromReal(x: real): Complex {
    Complex(x, 0.0)
  }

  /** `Sign`: the sign of the real part, or of the imaginary part when the
      real part is 0. */
  function Sign(z: Complex): (r: int)
    ensures -1 <= r <= 1
    ensures r == 0 <==> z == Zero
    ensures r > 0 <==> z.re > 0.0 || (z.re == 0.0 && z.im > 0.0)
  {
    if z.re == 0.0 then D.Sign(z.im) else D.Sign(z.re)
  }

  // ---------------------------------------------------------------------
  // Equality

  /** `operator ==`: both parts are equal. */
  function Equals(a: Complex, b: Complex): (r: bool)
    ensures r <==> a == b
  {
    a.re == b.re && a.im == b.im
  }

  /** `operator !=`: some part differs. */
  function NotEquals(a: Complex, b: Complex): (r: bool)
    ensures r <==> !Equals(a, b)
  {
    a.re != b.re || a.im != b.im
  }

  // ---------------------------------------------------------------------
  // Rectangular arithmetic

  /** Unary minus (`Negate`). */
  function Negate(z: Complex): (r: Complex)
    ensures Add(z, r) == Zero
  {
    Complex(-z.re, -z.im)
  }

  /** `operator +` (`Add`). */
  function Add(a: Complex, b: Complex): Complex {
    Complex(a.re + b.re, a.im + b.im)
  }

  /** Binary `operator -` (`Subtract`). */
  function Subtract(a: Complex, b: Complex): (r: Complex)
    ensures Add(r, b) == a
  {
    Complex(a.re - b.re, a.im - b.im)
  }

  /** `operator *` (`Multiply`): (a + bi)(c + di) = (ac - bd) + (bc + ad)i. */
  function Multiply(a: Complex, b: Complex): Complex {
    Complex(a.re * b.re - a.im * b.im, a.im * b.re + a.re * b.im)
  }

  /** `Conjugate`: the imaginary part changes sign. */
  function Conjugate(z: Complex): (r: Complex)
    ensures Multiply(z, r) == FromReal(NormSquared(z))
    ensures Add(z, r) == FromReal(2.0 * z.re)
  {
    Complex(z.re, -z.im)
  }

  /** Private `Scale`: both parts multiplied by a real factor. */
  function Scale(z: Complex, factor: real): (r: Complex)
    ensures r == Multiply(FromReal(factor), z)
  {
    Complex(factor * z.re, factor * z.im)
  }

  /** Private `Swap`: exchanges two values. */
  function Swap(a: Complex, b: Complex): (Complex, Complex) {
    (b, a)
  }

  /** Which of Smith's two branches `Divide` takes for divisor `y`. */
  predicate SmithRealBranch(y: Complex) {
    D.Abs(y.im) < D.Abs(y.re)
  }

  /** `c + d * (d / c)` is `(c^2 + d^2) / c`, and is nonzero when `c` is. */
  lemma SmithDenominatorIdentity(c: real, d: real)
    requires c != 0.0
    ensures c + d * (d / c) == (c * c + d * d) / c
    ensures c + d * (d / c) != 0.0
  {
    var t := d / c;
    assert t * c == d;
    var den := c + d * t;
    assert den * c == c * c + d * d by {
      assert den * c == c * c + d * (t * c);
    }
    D.SumOfSquaresPositive(c, d, c * c + d * d);
  }

  /** `re^2 + im^2`, the square of the magnitude. */
  function NormSquared(z: Complex): real {
    z.re * z.re + z.im * z.im
  }

  lemma NormSquaredPositive(z: Complex)
    requires z != Zero
    ensures NormSquared(z) > 0.0
  {
    D.SumOfSquaresPositive(z.re, z.im, NormSquared(z));
  }

  /** For a nonzero divisor, the part Smith's chosen branch divides by is
      nonzero. */
  lemma SmithBranchPartNonZero(y: Complex)
    requires y != Zero
    ensures SmithRealBranch(y) ==> y.re != 0.0
    ensures !SmithRealBranch(y) ==> y.im != 0.0
  {
  }

  /** For a nonzero divisor the chosen branch divides by a nonzero part,
      and its denominator `c + d*(d/c)` (or `d + c*(c/d)`) is nonzero. */
  lemma SmithDenominatorNonZero(y: Complex)
    requires y != Zero
    ensures SmithRealBranch(y) ==> y.re != 0.0 && y.re + y.im * (y.im / y.re) != 0.0
    ensures !SmithRealBranch(y) ==> y.im != 0.0 && y.im + y.re * (y.re / y.im) != 0.0
  {
    SmithBranchPartNonZero(y);
    if SmithRealBranch(y) {
      SmithDenominatorIdentity(y.re, y.im);
    } else {
      SmithDenominatorIdentity(y.im, y.re);
    }
  }

  /** `operator /` (`Divide`), Smith's formula: divide through by the larger
      part of the divisor.  A zero divisor reaches a division by zero in the
      decimal library, which throws; the model requires a nonzero divisor. */
  function Divide(x: Complex, y: Complex): (r: Complex)
    requires y != Zero
    ensures Multiply(r, y) == x
  {
    SmithDenominatorNonZero(y);
    var a, b, c, d := x.re, x.im, y.re, y.im;
    if D.Abs(d) < D.Abs(c) then
      var dc := d / c;
      var den := c + d * dc;
      var r := Complex((a + b * dc) / den, (b - a * dc) / den);
      SmithRealBranchInverse(a, b, c, d, dc, den);
      r
    else
      var cd := c / d;
      var den := d + c * cd;
      var r := Complex((b + a * cd) / den, (-a + b * cd) / den);
      SmithImaginaryBranchInverse(a, b, c, d, cd, den);
      r
  }

  /** The quotient of the branch of Smith's method that divides by the real
      part, times the divisor, is the dividend. */
  lemma SmithRealBranchInverse(a: real, b: real, c: real, d: real, dc: real, den: real)
    requires c != 0.0 && dc == d / c && den == c + d * dc && den != 0.0
    ensures Multiply(Complex((a + b * dc) / den, (b - a * dc) / den), Complex(c, d)) == Complex(a, b)
  {
    var u, v := (a + b * dc) / den, (b - a * dc) / den;
    assert dc * c == d;
    assert u * den == a + b * dc;
    assert v * den == b - a * dc;
    SmithRealAlgebra(a, b, c, d, dc, den, u, v);
  }

  /** The quotient of the other branch of Smith's method, times the divisor,
      is the dividend. */
  lemma SmithImaginaryBranchInverse(a: real, b: real, c: real, d: real, cd: real, den: real)
    requires d != 0.0 && cd == c / d && den == d + c * cd && den != 0.0
    ensures Multiply(Complex((b + a * cd) / den, (-a + b * cd) / den), Complex(c, d)) == Complex(a, b)
  {
    var u, v := (b + a * cd) / den, (-a + b * cd) / den;
    assert cd * d == c;
    assert u * den == b + a * cd;
    assert v * den == -a + b * cd;
    SmithImaginaryAlgebra(a, b, c, d, cd, den, u, v);
  }

  /** The algebra of the real branch: with `t = d / c` and
      `den = c + d * t`, the scaled quotient parts multiply back. */
  lemma {:induction false} SmithRealAlgebra(a: real, b: real, c: real, d: real, t: real, den: real, u: real, v: real)
    requires t * c == d && den == c + d * t && den != 0.0
    requires u * den == a + b * t && v * den == b - a * t
    ensures u * c - v * d == a && v * c + u * d == b
  {
    var x, y := u * c - v * d, v * c + u * d;
    assert x * den == (u * den) * c - (v * den) * d;
    assert (a + b * t) * c - (b - a * t) * d == a * c + b * (t * c) - b * d + a * t * d;
    assert x * den == a * den;
    assert y * den == (v * den) * c + (u * den) * d;
    assert (b - a * t) * c + (a + b * t) * d == b * c - a * (t * c) + a * d + b * t * d;
    assert y * den == b * den;
    CancelFactor(x, a, den);
    CancelFactor(y, b, den);
  }

  /** The algebra of the imaginary branch: with `s = c / d` and
      `den = d + c * s`, the scaled quotient parts multiply back. */
  lemma {:induction false} SmithImaginaryAlgebra(a: real, b: real, c: real, d: real, s: real, den: real, u: real, v: real)
    requires s * d == c && den == d + c * s && den != 0.0
    requires u * den == b + a * s && v * den == -a + b * s
    ensures u * c - v * d == a && v * c + u * d == b
  {
    var x, y := u * c - v * d, v * c + u * d;
    assert x * den == (u * den) * c - (v * den) * d;
    assert (b + a * s) * c - (-a + b * s) * d == b * c + a * s * c + a * d - b * (s * d);
    assert x * den == a * den;
    assert y * den == (v * den) * c + (u * den) * d;
    assert (-a + b * s) * c + (b + a * s) * d == -a * c + b * s * c + b * d + a * (s * d);
    assert y * den == b * den;
    CancelFactor(x, a, den);
    CancelFactor(y, b, den);
  }

  /** A non-zero factor cancels from both sides of an equation. */
  lemma CancelFactor(x: real, a: real, den: real)
    requires den != 0.0 && x * den == a * den
    ensures x == a
  {
    assert (x - a) * den == 0.0;
  }


  /** `Reciprocal`: `One / z`, except that Zero maps to Zero by an explicit
      special case. */
  function Reciprocal(z: Complex): (r: Complex)
    ensures z == Zero ==> r == Zero
    ensures z != Zero ==> Multiply(r, z) == One
  {
    if z.re == 0.0 && z.im == 0.0 then Zero
    else Divide(One, z)
  }

  /** `Mod`: `x + m * (-(x / m))`.  Division is exact and there is no
      rounding of the quotient, so the remainder is always Zero. */
  function Mod(x: Complex, m: Complex): (r: Complex)
    requires m != Zero
    ensures r == Zero
  {
    var negQuot := Negate(Divide(x, m));
    MultiplyCommutative(m, negQuot);
    MultiplyNegate(Divide(x, m), m);
    Add(x, Multiply(m, negQuot))
  }

  // ---------------------------------------------------------------------
  // Algebraic laws of the operators

  lemma SubtractIsAddNegate(a: Complex, b: Complex)
    ensures Subtract(a, b) == Add(a, Negate(b))
  {
  }

  lemma AddZero(a: Complex)
    ensures Add(a, Zero) == a && Add(Zero, a) == a
  {
  }

  lemma AddNegateIsZero(a: Complex)
    ensures Add(a, Negate(a)) == Zero
  {
  }

  lemma NegateInvolutive(a: Complex)
    ensures Negate(Negate(a)) == a
  {
  }

  lemma AddCommutative(a: Complex, b: Complex)
    ensures Add(a, b) == Add(b, a)
  {
  }

  lemma SubtractUndoesAdd(a: Complex, b: Complex)
    ensures Subtract(Add(a, b), b) == a
  {
  }

  lemma MultiplyCommutative(a: Complex, b: Complex)
    ensures Multiply(a, b) == Multiply(b, a)
  {
  }

  lemma MultiplyOne(a: Complex)
    ensures Multiply(a, One) == a && Multiply(One, a) == a
  {
  }

  lemma MultiplyNegate(a: Complex, b: Complex)
    ensures Multiply(Negate(a), b) == Negate(Multiply(a, b))
  {
  }

  lemma ImaginaryOneSquared()
    ensures Multiply(ImaginaryOne, ImaginaryOne) == Negate(One)
  {
  }

  /** z times its conjugate is the real number re^2 + im^2. */
  lemma MultiplyConjugate(z: Complex)
    ensures Multiply(z, Conjugate(z)) == FromReal(D.Square(z.re) + D.Square(z.im))
  {
  }

  lemma ConjugateInvolutive(z: Complex)
    ensures Conjugate(Conjugate(z)) == z
  {
  }

  /** Scaling is multiplication by the real number `factor`. */
  lemma ScaleIsRealMultiply(z: Complex, factor: real)
    ensures Scale(z, factor) == Multiply(FromReal(factor), z)
  {
  }

  lemma SwapInvolutive(a: Complex, b: Complex)
    ensures var (x, y) := Swap(a, b); Swap(x, y) == (a, b)
  {
  }

  lemma SignNegate(z: Complex)
    ensures Sign(Negate(z)) == -Sign(z)
  {
  }

  /** If `(p + qi) * (c + di)` is zero then `p * (c^2 + d^2)` is zero. */
  lemma ZeroProductRealPart(p: real, q: real, c: real, d: real)
    requires p * c - q * d == 0.0 && q * c + p * d == 0.0
    ensures p * (c * c + d * d) == 0.0
  {
    assert p * (c * c + d * d) == (p * c - q * d) * c + (q * c + p * d) * d;
  }

  /** Over the reals: a zero product with a nonzero `c + di` has a zero
      other factor. */
  lemma ZeroProductParts(p: real, q: real, c: real, d: real, n: real)
    requires n == c * c + d * d && n > 0.0
    requires p * c - q * d == 0.0 && q * c + p * d == 0.0
    ensures p == 0.0 && q == 0.0
  {
    ZeroProductRealPart(p, q, c, d);
    ZeroProductRealPart(q, -p, c, d);
    D.ZeroFactor(p, n);
    D.ZeroFactor(q, n);
  }

  /** A nonzero factor leaves only the zero product zero. */
  lemma ZeroProduct(a: Complex, y: Complex)
    requires y != Zero
    requires Multiply(a, y) == Zero
    ensures a == Zero
  {
    NormSquaredPositive(y);
    ZeroProductParts(a.re, a.im, y.re, y.im, NormSquared(y));
  }

  lemma MultiplySubtract(a: Complex, b: Complex, y: Complex)
    ensures Multiply(Subtract(a, b), y) == Subtract(Multiply(a, y), Multiply(b, y))
  {
  }

  /** The quotient is the only number that gives back the dividend. */
  lemma DivideUnique(x: Complex, y: Complex, q: Complex)
    requires y != Zero
    requires Multiply(q, y) == x
    ensures q == Divide(x, y)
  {
    var r := Divide(x, y);
    MultiplySubtract(q, r, y);
    ZeroProduct(Subtract(q, r), y);
  }

  // ---------------------------------------------------------------------
  // Values from the test suite

  /** (7+5i) + (3+13i), (7+5i) - (3+13i), (7+5i) * (3+13i). */
  lemma ArithmeticExamples()
    ensures Add(Complex(7.0, 5.0), Complex(3.0, 13.0)) == Complex(10.0, 18.0)
    ensures Subtract(Complex(7.0, 5.0), Complex(3.0, 13.0)) == Complex(4.0, -8.0)
    ensures Multiply(Complex(7.0, 5.0), Complex(3.0, 13.0)) == Complex(-44.0, 106.0)
  {
  }

  /** (6+4i) / (3+2i) = 2. */
  lemma DivideExample()
    ensures Divide(Complex(6.0, 4.0), Complex(3.0, 2.0)) == Complex(2.0, 0.0)
  {
    DivideUnique(Complex(6.0, 4.0), Complex(3.0, 2.0), Complex(2.0, 0.0));
  }

  /** The conjugate of 4+3i. */
  lemma ConjugateExample()
    ensures Conjugate(Complex(4.0, 3.0)) == Complex(4.0, -3.0)
  {
  }

  /** 1 / i = -i. */
  lemma ReciprocalExample()
    ensures Reciprocal(ImaginaryOne) == Complex(0.0, -1.0)
  {
    DivideUnique(One, ImaginaryOne, Complex(0.0, -1.0));
  }
}
