/**
  `BigIntegerExtensionMethods`: the integer square root by binary search and
  the squaring helper.  BigInteger is modelled by `int`.
*/
module IntegerExtensions {

  /** `BigInteger.Abs`. */
  function AbsInt(n: int): (r: nat)
    ensures r == n || r == -n
  {
    if n < 0 then -n else n
  }

  /** `BigIntegerExtensionMethods.Square`: the number times itself. */
  function Square(n: int): (r: int)
    ensures r >= 0
    ensures r == AbsInt(n) * AbsInt(n)
  {
    n * n
  }

  /** Reference definition: the largest `r` with `r * r <= m`, found by
      counting upwards one value of `m` at a time. */
  ghost function FloorSqrt(m: nat): nat
    decreases m
  {
    if m == 0 then 0
    else
      var r := FloorSqrt(m - 1);
      if (r + 1) * (r + 1) <= m then r + 1 else r
  }

  /** The reference definition is the floor square root. */
  lemma {:induction false} FloorSqrtBounds(m: nat)
    ensures FloorSqrt(m) * FloorSqrt(m) <= m < (FloorSqrt(m) + 1) * (FloorSqrt(m) + 1)
    decreases m
  {
    if m > 0 {
      FloorSqrtBounds(m - 1);
      var r := FloorSqrt(m - 1);
      if (r + 1) * (r + 1) <= m {
        assert (r + 1) * (r + 1) < (r + 2) * (r + 2);
      }
    }
  }

  lemma SquareMonotone(a: nat, b: nat)
    requires a <= b
    ensures a * a <= b * b
  {
    assert a * a <= a * b <= b * b;
  }

  /** Any `r` between the squares is the floor square root. */
  lemma FloorSqrtUnique(m: nat, r: nat)
    requires r * r <= m < (r + 1) * (r + 1)
    ensures r == FloorSqrt(m)
  {
    var s := FloorSqrt(m);
    FloorSqrtBounds(m);
    if r < s {
      SquareMonotone(r + 1, s);
    } else if s < r {
      SquareMonotone(s + 1, r);
    }
  }

  /** A perfect square has its root as floor square root. */
  lemma FloorSqrtOfSquare(k: nat)
    ensures FloorSqrt(k * k) == k
  {
    assert k * k < (k + 1) * (k + 1);
    FloorSqrtUnique(k * k, k);
  }

  lemma ExactRootIsFloorSqrt(m: nat, n: nat)
    requires n * n == m
    ensures n == FloorSqrt(m)
  {
    FloorSqrtOfSquare(n);
  }

  /** Where the binary search stops: either the last midpoint `n` squares
      to `m`, or `low` and `high` are adjacent with `m` between their
      squares.  Either way the value returned is the floor square root. */
  lemma {:induction false} SearchEnds(m: nat, low: nat, high: nat, n: int, p: int)
    requires low * low <= m < high * high
    requires high <= low + 1 || p == m
    requires p == n * n && n >= 0
    ensures var r := if m == p then n else low;
            r == FloorSqrt(m) && r * r <= m < (r + 1) * (r + 1)
  {
    if m == p {
      ExactRootIsFloorSqrt(m, n);
    } else {
      if high < low + 1 {
        SquareMonotone(high, low);
      }
      FloorSqrtUnique(m, low);
    }
  }

  /** What `SquareRoot` returns for a magnitude `m`: the floor square root,
      except that 1 maps to 0 because the search loop never runs for it. */
  ghost function SquareRootOfMagnitude(m: nat): nat {
    if m == 1 then 0 else FloorSqrt(m)
  }

  /** `BigIntegerExtensionMethods.SquareRoot`: binary search between `low`
      and `high`, stopping early when a midpoint squares to the input.  The
      sign of the argument is discarded. */
  method SquareRoot(number: int) returns (r: int)
    ensures r >= 0
    ensures r == SquareRootOfMagnitude(AbsInt(number))
    ensures AbsInt(number) != 1 ==> r * r <= AbsInt(number) < (r + 1) * (r + 1)
  {
    var input := number;
    if input == 0 {
      return 0;
    }
    if input < 0 {
      input := -input;
    }
    var n := 0;
    var p := 0;
    var low := 0;
    var high := input;
    while high > low + 1
      invariant input == AbsInt(number)
      invariant 0 <= low < high <= input && 0 <= n
      invariant low * low <= input
      invariant input == 1 || input < high * high
      invariant p == n * n && p != input
      decreases high - low
    {
      n := (high + low) / 2;
      p := n * n;
      if input < p {
        high := n;
      } else if input > p {
        low := n;
      } else {
        break;
      }
    }
    r := if input == p then n else low;
    if input != 1 {
      SearchEnds(input, low, high, n, p);
    }
  }

  /** The magnitude 1 is where `SquareRoot` parts from the floor square
      root: the loop guard `high > low + 1` fails at once and `low = 0` is
      returned. */
  lemma SquareRootOfOneDiffers()
    ensures SquareRootOfMagnitude(1) == 0
    ensures FloorSqrt(1) == 1
  {
    FloorSqrtOfSquare(1);
  }

  /** `SquareRoot` with the search interval opened to `[0, |number| + 1)`,
      so that every magnitude, 1 included, gets its floor square root. */
  method FloorSquareRoot(number: int) returns (r: int)
    ensures r >= 0
    ensures r == FloorSqrt(AbsInt(number))
    ensures r * r <= AbsInt(number) < (r + 1) * (r + 1)
  {
    var input := number;
    if input == 0 {
      FloorSqrtOfSquare(0);
      return 0;
    }
    if input < 0 {
      input := -input;
    }
    var n := 0;
    var p := 0;
    var low := 0;
    var high := input + 1;
    while high > low + 1
      invariant input == AbsInt(number)
      invariant 0 <= low < high <= input + 1 && 0 <= n
      invariant low * low <= input < high * high
      invariant p == n * n && p != input
      decreases high - low
    {
      n := (high + low) / 2;
      p := n * n;
      if input < p {
        high := n;
      } else if input > p {
        low := n;
      } else {
        break;
      }
    }
    r := if input == p then n else low;
    SearchEnds(input, low, high, n, p);
  }
}
