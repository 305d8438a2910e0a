/**
  `BigComplex.GCD`: after swapping so that the second argument has the
  smaller `Norm`, the Euclidean loop divides, takes the remainder
  `a - (a / b) * b` and shifts. With exact division every remainder is
  zero, so the loop stops after one pass with the smaller argument.
*/
module ComplexGcd {
  import D = DecimalExtensions
  import opened Results
  import opened ComplexArithmetic
  import opened ComplexMagnitude

  /** The divisor of the first pass: `b`, or `a` when `Norm(b) > Norm(a)`
      made `GCD` swap them. */
  function FirstDivisor(a: Complex, b: Complex, root: D.RootFn, precision: int): (d: Complex)
    ensures d == a || d == b
    ensures d == b <== Norm(b, root, precision) <= Norm(a, root, precision)
    ensures d == a <== Norm(b, root, precision) > Norm(a, root, precision)
  {
    var pair := if Norm(b, root, precision) > Norm(a, root, precision) then Swap(a, b) else (a, b);
    pair.1
  }

  /** Under the idealised root the first divisor is an argument of least
      modulus. */
  lemma {:induction false} FirstDivisorLeastModulus(a: Complex, b: Complex, root: D.RootFn, precision: int)
    requires D.IdealRoot(root)
    ensures var d := FirstDivisor(a, b, root, precision);
            && (d == a || d == b)
            && NormSquared(d) <= NormSquared(a)
            && NormSquared(d) <= NormSquared(b)
  {
    var na, nb := Norm(a, root, precision), Norm(b, root, precision);
    var sa, sb := NormSquared(a), NormSquared(b);
    NormIsHypot(a, root, precision, na);
    NormIsHypot(b, root, precision, nb);
    D.SquareOrder(na, nb, sa, sb);
    if nb > na {
      assert FirstDivisor(a, b, root, precision) == a;
    } else {
      assert FirstDivisor(a, b, root, precision) == b;
    }
  }

  /** `GCD(3, 2)` is `2` although `3 / 2` is not a whole number: the exact
      quotient is never rounded to a Gaussian integer, so the result need not
      divide both arguments. */
  lemma FirstDivisorOfThreeAndTwo(three: Complex, two: Complex, root: D.RootFn, precision: int)
    requires D.IdealRoot(root)
    requires three == FromReal(3.0) && two == FromReal(2.0)
    ensures FirstDivisor(three, two, root, precision) == two
    ensures Divide(three, two) == FromReal(1.5) && (1.5).Floor as real != 1.5
  {
    FirstDivisorLeastModulus(three, two, root, precision);
    assert NormSquared(three) == 9.0 && NormSquared(two) == 4.0;
    assert Multiply(FromReal(1.5), two) == three;
    DivideUnique(three, two, FromReal(1.5));
  }

  /** With exact division the Euclidean remainder is always zero. */
  lemma RemainderIsZero(a: Complex, b: Complex)
    requires b != Zero
    ensures Subtract(a, Multiply(Divide(a, b), b)) == Zero
  {
  }

  /** `GCD`. Dividing by a zero divisor throws in the decimal library; that
      outcome is `None`. Otherwise the result is the first divisor. */
  method Gcd(a: Complex, b: Complex, root: D.RootFn, precision: int) returns (g: Option<Complex>)
    ensures g.None? <==> FirstDivisor(a, b, root, precision) == Zero
    ensures g.Some? ==> g.value == FirstDivisor(a, b, root, precision)
  {
    var x, y := a, b;
    if Norm(y, root, precision) > Norm(x, root, precision) {
      var swapped := Swap(x, y);
      x, y := swapped.0, swapped.1;
    }
    var result := Zero;
    var q := Zero;
    var r := One;
    while r != Zero
      invariant || (r == One && y == FirstDivisor(a, b, root, precision))
                || (r == Zero && result != Zero && result == FirstDivisor(a, b, root, precision))
      decreases if r == Zero then 0 else 1
    {
      if y == Zero {
        return None;
      }
      q := Divide(x, y);
      r := Subtract(x, Multiply(q, y));
      RemainderIsZero(x, y);
      x := y;
      result := y;
      y := r;
    }
    return Some(result);
  }
}
