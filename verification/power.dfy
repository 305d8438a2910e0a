/**
  The exact part of `BigComplex.Pow(value, power)`: the two guard cases
  before the routine converts to `double` and uses polar form. The
  floating-point path is outside the model and shows as `None`.
*/
module ComplexPower {
  import opened Results
  import opened ComplexArithmetic

  /** `Pow`'s guards: any number to the power `Zero` is `One`, `Zero`
      included; `Zero` to any other power is `Zero`. */
  function Pow(value: Complex, power: Complex): (r: Option<Complex>)
    ensures r.Some? <==> power == Zero || value == Zero
    ensures r.Some? ==> r.value == One || r.value == Zero
    ensures r == Some(One) <==> power == Zero
  {
    if Equals(power, Zero) then Some(One)
    else if Equals(value, Zero) then Some(Zero)
    else None
  }

  /** The guards agree with the algebra they stand for: the zeroth power is
      the neutral element of `Multiply`, and a power of `Zero` absorbs any
      factor. */
  lemma PowGuardsAlgebra(z: Complex, w: Complex, k: Complex)
    ensures Pow(z, Zero).Some? && Multiply(Pow(z, Zero).value, k) == k
    ensures w != Zero ==> Pow(Zero, w).Some? && Multiply(Pow(Zero, w).value, k) == Zero
  {
    MultiplyCommutative(One, k);
    MultiplyOne(k);
  }
}
