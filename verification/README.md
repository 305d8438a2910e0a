# BigComplex in Dafny

A model of the `BigComplex` value type of the BigComplex library. A
`BigComplex` is a pair of arbitrary-precision decimals (`BigDecimal`): the
real part `re` and the imaginary part `im`. The model has these parts:

- `BigDecimal` is a Dafny `real`. All decimal arithmetic is therefore exact.
- `BigDecimal.NthRoot(x, 2, precision)`, `BigDecimal.Round`,
  `BigDecimal.Parse` and `BigDecimal.ToString` belong to the decimal library
  and are not part of this model. Each operation that uses one takes it as a
  function parameter:
  - `root: (real, int) -> real`;
  - `round: (real, int) -> real`;
  - `parseDecimal: string -> Option<real>`;
  - `fmt: real -> string`, the current culture's decimal printer used by
    `ToString()`;
  - `provider: real -> string`, the decimal printer that the format provider
    of `ToString(IFormatProvider)` stands for.
- The global static `Precision` is an explicit `precision: int` argument.
- Properties of `Abs`, `Sqrt6` and `GCD` assume the *idealised* square root
  `DecimalExtensions.IdealRoot`: for `x >= 0`, `root(x, p) >= 0` and
  `root(x, p)^2 = x`. The library's `NthRoot` actually rounds to `precision`
  digits, so these properties describe the exact value that the library
  approximates.
- `Sqrt6`'s examples also assume `DecimalExtensions.KeepsWholeNumbers`:
  `Round` leaves whole numbers unchanged at every `precision >= 0`.

Modules, one file each:

| file | module | models |
|---|---|---|
| `results.dfy` | `Results` | `Option` and `Result` for error outcomes |
| `decimal.dfy` | `DecimalExtensions` | `BigDecimalExtensionMethods.Square`, decimal `Abs`/`Sign`, the root contract, real-arithmetic helper facts |
| `big_integer.dfy` | `IntegerExtensions` | `BigIntegerExtensionMethods.SquareRoot` (binary search) and `Square` |
| `complex.dfy` | `ComplexArithmetic` | the datatype, constants, `Sign`, `==`/`!=`, negate, add, subtract, multiply, Smith division, conjugate, reciprocal, `Mod`, `Scale`, `Swap` |
| `magnitude.dfy` | `ComplexMagnitude` | `Abs`, `Magnitude`, `Norm` |
| `roots.dfy` | `ComplexRoots` | `Sqrt6` |
| `power.dfy` | `ComplexPower` | the exact guards of `Pow` |
| `gcd.dfy` | `ComplexGcd` | `GCD` |
| `text.dfy` | `ComplexText` | `Parse`, `ToString()`, `ToString(IFormatProvider)` |

Behaviour in this model follows the code:

- Division uses Smith's two-branch formula, chosen by `|im| < |re|` of the
  divisor. It is not the conjugate formula.
- A zero divisor makes the decimal library throw, so `Divide` and `Mod`
  require a nonzero divisor.
- `Reciprocal` handles `Zero` itself and returns `Zero`.
- `Mod(x, m)` is `x + m * -(x / m)` with no rounding step. Under exact
  division it is always `Zero`.
- `Sqrt6` is the algebraic root `sqrt((|z| + re)/2) + i sgn(im) sqrt((|z| - re)/2)`,
  with `sgn(0) = 1`, followed by rounding both parts. It is not a polar-form
  root.
- `Parse` removes every white-space character that .NET's
  `char.IsWhiteSpace` accepts. It then splits on `(`, `)` and `,`, drops
  empty pieces, and reads one or two pieces with the decimal parser. A
  sum-notation string such as `3 + 4i` therefore reaches the decimal parser
  as the single piece `3+4i`.
- `ToString()` prints the real part, then ` +<im> i` only when `im > 0`.
  `ToString(IFormatProvider)` always prints `<re> +<im> i`, with both parts
  printed by the provider.
- Several expected strings in the library's tests predate this format, for
  example `"(4, -3)"` and `"3 + 4i"`. The model uses those tests only for the
  numbers they encode.
- `GCD` swaps its arguments when `Norm(b) > Norm(a)`, then runs the
  Euclidean loop. Under exact division the first remainder
  `a - (a / b) * b` is `Zero`. The loop therefore ends after one pass and
  returns the argument of smaller norm, which is `b` on a tie. A zero
  divisor, which makes the library throw, is `None`.
- Because `a / b` is never rounded to a Gaussian integer, the result of
  `GCD` is in general not a common divisor. For example, `GCD(3, 2)` is `2`,
  which does not divide `3` in the Gaussian integers.

## Model

| member | source | states |
|---|---|---|
| DecimalExtensions.Square | BigComplex/BigDecimalExtensionMethods.cs:12-15 | the square of a decimal is non-negative and equals the square of its absolute value |
| DecimalExtensions.SquareNegate | BigComplex/BigDecimalExtensionMethods.cs:12-15 | squaring ignores the sign: `Square(-x) == Square(x)` |
| IntegerExtensions.Square | BigComplex/BigIntegerExtensionMethods.cs:49-52 | the square of an integer is non-negative and equals the square of its magnitude |
| IntegerExtensions.SquareRoot | BigComplex/BigIntegerExtensionMethods.cs:12-47 | the result depends only on `abs(number)`, so the sign is discarded. It is 0 for 0. For every magnitude except 1 it is the floor square root `r` with `r^2 <= abs(n) < (r+1)^2`, whether the loop ends by narrowing or by an exact midpoint. For magnitude 1 it is 0 |
| IntegerExtensions.SearchEnds | BigComplex/BigIntegerExtensionMethods.cs:27-46 | wherever the search stops, whether at an exact midpoint or with `low` and `high` adjacent and `m` between their squares, `input == p ? n : low` is the floor square root |
| IntegerExtensions.SquareRootOfOneDiffers | BigComplex/BigIntegerExtensionMethods.cs:27-46 | for magnitude 1 the result 0 differs from the floor square root 1 |
| IntegerExtensions.FloorSquareRoot | BigComplex/BigIntegerExtensionMethods.cs:12-47 | with the search interval opened to `abs(n) + 1`, the loop returns the floor square root for every input, 1 included |
| ComplexArithmetic.Sign | BigComplex/BigComplex.cs:55-61 | the sign is in -1..1. It is 0 exactly for `Zero`. It is positive exactly when `re > 0`, or when `re = 0` and `im > 0` |
| ComplexArithmetic.SignNegate | BigComplex/BigComplex.cs:55-61 | negating a number negates its sign |
| ComplexArithmetic.Equals | BigComplex/BigComplex.cs:279-283 | `==` holds exactly when both parts agree, i.e. value equality |
| ComplexArithmetic.NotEquals | BigComplex/BigComplex.cs:285-289 | the separately written `!=` is exactly the negation of `==` |
| ComplexArithmetic.Negate | BigComplex/BigComplex.cs:170-174 | the negation is the additive inverse: `z + (-z) == Zero`. `NegateInvolutive` and `MultiplyNegate` state the rest |
| ComplexArithmetic.Add | BigComplex/BigComplex.cs:176-180 | computes the componentwise sum. `AddCommutative`, `AddZero`, `AddNegateIsZero` and `SubtractUndoesAdd` state its properties |
| ComplexArithmetic.Subtract | BigComplex/BigComplex.cs:182-185 | subtraction undoes addition: `(a - b) + b == a` |
| ComplexArithmetic.Multiply | BigComplex/BigComplex.cs:187-193 | computes `(ac - bd) + (bc + ad)i`. `MultiplyCommutative`, `MultiplyOne`, `ImaginaryOneSquared`, `MultiplySubtract` and `ZeroProduct` state its properties |
| ComplexArithmetic.Conjugate | BigComplex/BigComplex.cs:252-257 | `z * Conjugate(z)` is the real number `re^2 + im^2`, and `z + Conjugate(z)` is the real number `2 re`. Together these fix the result on every input, zero included |
| ComplexArithmetic.Scale | BigComplex/BigComplex.cs:775-780 | scaling by a factor is multiplying by that real number |
| ComplexArithmetic.Swap | BigComplex/BigComplex.cs:782-787 | computes the exchanged pair. `SwapInvolutive` states that swapping twice restores it |
| ComplexArithmetic.SubtractIsAddNegate | BigComplex/BigComplex.cs:170-185 | `a - b == a + (-b)` |
| ComplexArithmetic.AddZero | BigComplex/BigComplex.cs:176-180 | `Zero` is neutral for `+` on both sides |
| ComplexArithmetic.AddNegateIsZero | BigComplex/BigComplex.cs:170-180 | `a + (-a) == Zero` |
| ComplexArithmetic.NegateInvolutive | BigComplex/BigComplex.cs:170-174 | `-(-a) == a` |
| ComplexArithmetic.AddCommutative | BigComplex/BigComplex.cs:176-180 | `+` is commutative |
| ComplexArithmetic.SubtractUndoesAdd | BigComplex/BigComplex.cs:176-185 | `(a + b) - b == a` |
| ComplexArithmetic.ArithmeticExamples | TestBigComplex/TestOperations.cs:19-65 | (7+5i)+(3+13i) = 10+18i, (7+5i)-(3+13i) = 4-8i, (7+5i)(3+13i) = -44+106i |
| ComplexArithmetic.MultiplyCommutative | BigComplex/BigComplex.cs:187-193 | `*` is commutative |
| ComplexArithmetic.MultiplyOne | BigComplex/BigComplex.cs:187-193 | `One` is neutral for `*` on both sides |
| ComplexArithmetic.MultiplyNegate | BigComplex/BigComplex.cs:170-193 | `(-a) * b == -(a * b)` |
| ComplexArithmetic.ImaginaryOneSquared | BigComplex/BigComplex.cs:187-193 | `ImaginaryOne * ImaginaryOne == -One` |
| ComplexArithmetic.MultiplySubtract | BigComplex/BigComplex.cs:182-193 | `*` distributes over `-` |
| ComplexArithmetic.MultiplyConjugate | BigComplex/BigComplex.cs:252-257 | `z * Conjugate(z)` is the real number `re^2 + im^2` |
| ComplexArithmetic.ConjugateInvolutive | BigComplex/BigComplex.cs:252-257 | conjugating twice gives the number back |
| ComplexArithmetic.ConjugateExample | TestBigComplex/TestOperations.cs:115-128 | the conjugate of 4+3i is 4-3i |
| ComplexArithmetic.ZeroProduct | BigComplex/BigComplex.cs:187-193 | a product with a nonzero factor is `Zero` only when the other factor is `Zero` |
| ComplexArithmetic.SmithDenominatorIdentity | BigComplex/BigComplex.cs:204-206 | `c + d*(d/c) = (c^2 + d^2)/c`, which is never 0 for `c != 0` |
| ComplexArithmetic.SmithDenominatorNonZero | BigComplex/BigComplex.cs:195-213 | for a nonzero divisor, the part the chosen branch divides by is nonzero, and so is that branch's denominator |
| ComplexArithmetic.SmithRealBranchInverse | BigComplex/BigComplex.cs:203-207 | the quotient from the `abs(d) < abs(c)` branch times the divisor is the dividend |
| ComplexArithmetic.SmithImaginaryBranchInverse | BigComplex/BigComplex.cs:208-212 | the quotient from the other branch times the divisor is the dividend |
| ComplexArithmetic.Divide | BigComplex/BigComplex.cs:195-213 | for a nonzero divisor, `(x / y) * y == x` in both branches |
| ComplexArithmetic.DivideUnique | BigComplex/BigComplex.cs:195-213 | the quotient is the only `q` with `q * y == x` |
| ComplexArithmetic.DivideExample | TestBigComplex/TestOperations.cs:67-81 | (6+4i)/(3+2i) = 2 |
| ComplexArithmetic.Reciprocal | BigComplex/BigComplex.cs:258-267 | the reciprocal of `Zero` is `Zero`. For any other `z`, `Reciprocal(z) * z == One` |
| ComplexArithmetic.ReciprocalExample | TestBigComplex/TestOperations.cs:131-144 | 1/i = -i |
| ComplexArithmetic.Mod | BigComplex/BigComplex.cs:269-273 | with exact division, `x + m * -(x/m)` is `Zero` for every nonzero modulus |
| ComplexArithmetic.ScaleIsRealMultiply | BigComplex/BigComplex.cs:775-780 | scaling by a factor is multiplying by that real number |
| ComplexArithmetic.SwapInvolutive | BigComplex/BigComplex.cs:782-787 | swapping twice restores the pair |
| ComplexMagnitude.Abs | BigComplex/BigComplex.cs:219-251 | computes the four branches as written. `AbsIsLiveBranch`, `AbsIsHypot` and `AbsExamples` state what it returns |
| ComplexMagnitude.Magnitude | BigComplex/BigComplex.cs:39-45 | is `Abs`, so `AbsIsHypot` applies |
| ComplexMagnitude.Norm | BigComplex/BigComplex.cs:739-742 | is `Abs`. `NormIsHypot` states its value under the idealised root |
| ComplexMagnitude.AbsZeroImaginaryBranchUnreachable | BigComplex/BigComplex.cs:230-250 | the `d.IsZero` branch is dead: `c != 0` and `!(c > d)` force `d > 0` |
| ComplexMagnitude.FactoredBranch | BigComplex/BigComplex.cs:236-240 | under the idealised root, `c * sqrt(1 + (d/c)^2)` is non-negative and squares to `c^2 + d^2` |
| ComplexMagnitude.AbsIsLiveBranch | BigComplex/BigComplex.cs:219-251 | `Abs` always takes one of the three live branches, chosen by `c == 0` and `c > d` |
| ComplexMagnitude.LiveBranchesHypot | BigComplex/BigComplex.cs:230-250 | under the idealised root, each live branch is non-negative and squares to `c^2 + d^2` |
| ComplexMagnitude.AbsIsHypot | BigComplex/BigComplex.cs:219-251 | under the idealised root, `Abs` is non-negative and `Abs(z)^2 = re^2 + im^2` in every branch |
| ComplexMagnitude.NormIsHypot | BigComplex/BigComplex.cs:739-742 | under the idealised root, `Norm` is non-negative and squares to `re^2 + im^2` |
| ComplexMagnitude.AbsExamples | TestBigComplex/TestOperations.cs:84-112 | Abs(4+3i) = 5 and Abs(4+0i) = 4 under the idealised root |
| ComplexRoots.Sqrt6Exact | BigComplex/BigComplex.cs:672-688 | computes the unrounded root step by step as written. `Sqrt6ExactIsSquareRoot` states that it is the principal square root |
| ComplexRoots.Sqrt6 | BigComplex/BigComplex.cs:672-694 | rounds both parts of `Sqrt6Exact`. `Sqrt6OfWholeRoot`, `Sqrt6OfNegativeSquare`, `Sqrt6OfSquare` and `Sqrt6Examples` state its values |
| ComplexRoots.RootSign | BigComplex/BigComplex.cs:677 | the factor applied to the imaginary part is +1 or -1, and multiplying by it takes `im` to `abs(im)`. `RootSignOfNonNegative` states that 0 counts as positive |
| ComplexRoots.RootSignOfNonNegative | BigComplex/BigComplex.cs:677 | a zero or positive imaginary part gets the sign +1 |
| ComplexRoots.Sqrt6Radicands | BigComplex/BigComplex.cs:675-681 | under the idealised root, `sqrXY = abs(z)` and both `A` and `B` are non-negative, so the `Abs` before each root changes nothing |
| ComplexRoots.Sqrt6ExactShape | BigComplex/BigComplex.cs:672-688 | the unrounded result is `sqrt(A) + i * sgn * sqrt(B)` |
| ComplexRoots.RootPiecesSquare | BigComplex/BigComplex.cs:672-688 | under the idealised root, `sqrt(A) + i * sgn * sqrt(B)` squared is the input |
| ComplexRoots.Sqrt6ExactSquares | BigComplex/BigComplex.cs:672-688 | under the idealised root, the unrounded result squared is the input |
| ComplexRoots.Sqrt6ExactSigns | BigComplex/BigComplex.cs:672-688 | under the idealised root, the real part is `>= 0`. The imaginary part is `>= 0` when `im >= 0` and `<= 0` when `im < 0` |
| ComplexRoots.Sqrt6ExactIsSquareRoot | BigComplex/BigComplex.cs:672-694 | the unrounded result is the principal square root: it squares to the input and has the signs above |
| ComplexRoots.Sqrt6ExactOfNegativeSquare | BigComplex/BigComplex.cs:672-688 | for `k >= 0`, the root of `-(k^2)` is `k i` |
| ComplexRoots.Sqrt6ExactOfSquare | BigComplex/BigComplex.cs:672-688 | for `k >= 0`, the root of `k^2` is `k` |
| ComplexRoots.Sqrt6OfWholeRoot | BigComplex/BigComplex.cs:690-694 | when the unrounded root has whole parts, the final rounding leaves it unchanged |
| ComplexRoots.Sqrt6OfNegativeSquare | BigComplex/BigComplex.cs:672-694 | for a whole `k >= 0`, the rounded root of `-(k^2)` is `k i` |
| ComplexRoots.Sqrt6OfSquare | BigComplex/BigComplex.cs:672-694 | for a whole `k >= 0`, the rounded root of `k^2` is `k` |
| ComplexRoots.Sqrt6Examples | TestBigComplex/TestBigComplex.cs:125-212 | after rounding, sqrt(-25) = 5i, sqrt(-9) = 3i, sqrt(-81) = 9i and sqrt(9) = 3 |
| ComplexPower.Pow | BigComplex/BigComplex.cs:706-716 | the exact guards: the power `Zero` gives `One` for every base, `Zero` included. The base `Zero` with any other power gives `Zero`. Every other case leaves the exact part |
| ComplexPower.PowGuardsAlgebra | BigComplex/BigComplex.cs:706-716 | the zeroth power is the identity of `*`, and a power of `Zero` with a nonzero exponent annihilates every factor |
| ComplexGcd.FirstDivisor | BigComplex/BigComplex.cs:746-752 | for any root function, the divisor after the optional swap is `a` when `Norm(b) > Norm(a)` and `b` otherwise |
| ComplexGcd.FirstDivisorLeastModulus | BigComplex/BigComplex.cs:744-753 | under the idealised root, the divisor chosen after the swap is an argument, and its modulus is no larger than either argument's |
| ComplexGcd.FirstDivisorOfThreeAndTwo | BigComplex/BigComplex.cs:744-769 | under the idealised root, `GCD(3, 2)` returns `2` while the exact quotient `3 / 2` is `1.5`, not a whole number, so the result need not divide both arguments |
| ComplexGcd.Gcd | BigComplex/BigComplex.cs:744-769 | the loop returns the divisor chosen after the swap. It fails exactly when that divisor is `Zero` |
| ComplexText.RemoveWhiteSpace | BigComplex/BigComplex.cs:118 | the filtered text has no white space and is no longer than the input |
| ComplexText.RemoveWhiteSpaceEmpty | BigComplex/BigComplex.cs:113-118 | filtering leaves nothing exactly when the text is blank, which is the case `IsNullOrWhiteSpace` rejects |
| ComplexText.RemoveWhiteSpaceClean | BigComplex/BigComplex.cs:118 | text without white space passes unchanged |
| ComplexText.RemoveWhiteSpaceAppend | BigComplex/BigComplex.cs:118 | filtering distributes over concatenation |
| ComplexText.RemoveWhiteSpaceIdempotent | BigComplex/BigComplex.cs:118 | filtering twice is filtering once |
| ComplexText.Split | BigComplex/BigComplex.cs:119 | every piece is non-empty and free of `( ) ,`, and the pieces concatenate to the input with the separators removed |
| ComplexText.SplitToken | BigComplex/BigComplex.cs:119 | a non-empty separator-free text is one piece |
| ComplexText.SplitAtDelimiter | BigComplex/BigComplex.cs:119 | a separator cuts: `Split(a + d + b) == Split(a) + Split(b)`, so empty pieces vanish |
| ComplexText.Parse | BigComplex/BigComplex.cs:111-135 | `ArgumentError` exactly for blank text. `FormatError` exactly for non-blank text with 0 or more than 2 pieces. With 1 or 2 pieces it succeeds exactly when the decimal parser reads every piece, and fails with `DecimalParseError` otherwise. On success the real part is the first piece's value, and the imaginary part is the second piece's value or 0 |
| ComplexText.PairTextPieces | BigComplex/BigComplex.cs:118-119 | after white space is removed, the pair notation `(x, y)` of two decimal texts splits into exactly `x` and `y` |
| ComplexText.ParsePairText | BigComplex/BigComplex.cs:111-135 | when both parts print as plain pieces that the decimal parser reads back, `Parse("(" + re + ", " + im + ")")` gives the number back |
| ComplexText.ParsePairExample | TestBigComplex/TestParse.cs:23-28 | `"(3, 4)"` parses to 3+4i whenever the decimal parser reads `"3"` and `"4"` |
| ComplexText.ParseRealText | BigComplex/BigComplex.cs:111-135 | a decimal printed as a plain piece that the parser reads back parses to that real number with imaginary part 0 |
| ComplexText.ParseBlankExamples | BigComplex/BigComplex.cs:113-116 | `""` and `" \t"` are argument errors |
| ComplexText.SplitSeparatorsOnly | BigComplex/BigComplex.cs:119 | text made only of `( ) ,` splits into no piece at all |
| ComplexText.SeparatorsSurviveFilter | BigComplex/BigComplex.cs:118 | removing white space from text of separators and white space leaves only separators |
| ComplexText.ParseSeparatorsOnly | BigComplex/BigComplex.cs:113-124 | non-blank text of separators and white space only, such as `"(,)"`, is a format error, never an argument error |
| ComplexText.SplitPair | BigComplex/BigComplex.cs:119 | the pieces of `(x,y)` are exactly `x` and `y` |
| ComplexText.SplitTriple | BigComplex/BigComplex.cs:119 | the pieces of `(x,y,w)` are exactly `x`, `y` and `w` |
| ComplexText.ParseThreePieces | BigComplex/BigComplex.cs:118-124 | any `(x,y,w)` of three decimal texts, such as `"(1,2,3)"`, is a format error |
| ComplexText.ParseSumNotation | BigComplex/BigComplex.cs:118-131 | a sum notation `x + yi`, such as `"3 + 4i"`, reaches the decimal parser as the single piece `x+yi`. A parser failure is a decimal parse error, and a value becomes the real part with imaginary part 0 |
| ComplexText.ToString | BigComplex/BigComplex.cs:363-374 | a positive imaginary part gives the `<re> +<im> i` format with the current culture's printer, and any other gives the real part alone |
| ComplexText.ToStringWith | BigComplex/BigComplex.cs:376-379 | computes `<re> +<im> i` with the provider's printer. `ToStringWithPieces` states how the parts are recovered from it |
| ComplexText.ToStringWithPieces | BigComplex/BigComplex.cs:376-379 | when the real part prints without white space, it runs up to the first space, and the imaginary part lies between ` +` and ` i` |
| ComplexText.ToStringAgreesWithProvider | BigComplex/BigComplex.cs:363-379 | when neither printer puts white space in the real part, the two overloads print the same text exactly when `im > 0` and the provider prints both parts as the current culture does |
| ComplexText.ParseToStringReal | BigComplex/BigComplex.cs:363-374 | when `im <= 0` and the real part prints back, parsing `ToString()` gives only the real part |
| ComplexText.ParseToStringPositive | BigComplex/BigComplex.cs:111-135 | when `im > 0`, parsing `ToString()` hands the single piece `<re>+<im>i` to the decimal parser. The result is a decimal parse error or a real number, and never the printed number |
| ComplexText.ToStringDropsNegativeImaginary | BigComplex/BigComplex.cs:363-374 | 4-3i prints as the same text as 4 |
| ComplexText.ToStringNonZero | BigComplex/BigComplex.cs:363-374 | computes `ToString()` with the imaginary part printed whenever it is nonzero. `ToStringNonZeroInjective` states what that gains |
| ComplexText.ToStringNonZeroPieces | BigComplex/BigComplex.cs:363-379 | in the text printed with every nonzero imaginary part, the real part runs up to the first space, a space occurs exactly when `im != 0`, and then the imaginary part lies between ` +` and ` i` |
| ComplexText.ToStringNonZeroInjective | BigComplex/BigComplex.cs:363-379 | printing the imaginary part whenever it is nonzero tells apart every two numbers whose parts the decimal printer and parser read back |
| ComplexText.Sqrt6PrintExamples | TestBigComplex/TestBigComplex.cs:125-212 | the printed roots are `0 +5 i`, `0 +3 i`, `0 +9 i` and `3` |

## Left out

- Floating-point routines are not modelled. They run on `double` through
  `System.Math`, which has no exact counterpart here:
  - `Phase`;
  - `FromPolarCoordinates`;
  - `Sin`, `Cos`, `Tan`, `Sinh`, `Cosh`, `Tanh`;
  - `Sqrt`, `Sqrt2`, `Sqrt3`;
  - `DegreeToRadian` and `RadianToDegree`;
  - the polar part of `Pow` after its guards, shown as `None`.
- The commented-out `Asin`, `Acos`, `Atan`, `Atan2`, `Log`, `Exp`, `Log10`
  and the `Pow(BigComplex, Double)` overload are not modelled: they are not
  compiled.
- Implicit and explicit conversions from .NET numeric types and from
  `System.Numerics.Complex` are not modelled: they are conversions inside
  another library. The constructors become the datatype constructor.
- `GetHashCode` and `Equals(object)` are not modelled: they depend on
  `BigDecimal`'s hash and on boxing. `Equals(BigComplex)` is `==`.
- `Sqrt4` and `Sqrt5` are not modelled: they are square-root variants whose
  tests are disabled.
- `ComplexExtensionMethods.cs` is not part of this model: it is
  `System.Numerics.Complex` double arithmetic.
- `BigInteger.Clone` is not modelled: it round-trips through a byte array of
  another library's type.
- `BigDecimal.Clone` and `BigComplex.Clone` are not modelled: they rebuild
  the same value, and a value datatype has no identity to copy.
- Null strings are not modelled: Dafny strings are never null, so `Parse`'s
  null case is not represented. Its empty and white-space cases are.
- `BigDecimal` division, `NthRoot`, `Round`, `Parse` and `ToString` are the
  decimal library's. `Divide` is exact here, with no rounding to
  `Precision`.
- ComplexMagnitude.AbsIsHypot: holds for the idealised root. The library's
  `NthRoot` rounds to `Precision` digits, so `Abs(z)^2` is only close to
  `re^2 + im^2`.
- ComplexMagnitude.LiveBranchesHypot: same idealised-root assumption as
  `AbsIsHypot`.
- ComplexMagnitude.NormIsHypot: same idealised-root assumption as
  `AbsIsHypot`.
- ComplexRoots.RootPiecesSquare: holds for the idealised root only.
- ComplexRoots.Sqrt6ExactSquares: holds for the idealised root and before
  the final `Round`. The library's result squares to the input only up to
  rounding.
- ComplexRoots.Sqrt6ExactSigns: same idealised-root assumption as above.
- ComplexRoots.Sqrt6Examples: assumes `Round` keeps whole numbers.
- ComplexRoots.Sqrt6OfNegativeSquare: assumes the idealised root and that
  `Round` keeps whole numbers.
- ComplexRoots.Sqrt6OfSquare: same assumptions as `Sqrt6OfNegativeSquare`.
- ComplexText.ToStringAgreesWithProvider: a format provider is modelled as
  the decimal printer it stands for. How `String.Format` consults a
  provider's `ICustomFormatter` or culture is not modelled, and the lemma is
  stated for printers that put no white space in the real part.
- ComplexText.ParsePairText: stated for numbers whose parts the decimal
  printer and parser read back; `BigDecimal.ToString` and `Parse` are not
  part of this model, so which values those are is left open.
- ComplexGcd.FirstDivisorLeastModulus: compares moduli under the idealised
  root. With the rounding root, two nearly equal norms may compare the other
  way.
- ComplexGcd.Gcd: with exact division the loop always stops after one pass.
  The rounding remainders that could keep the library's loop running are not
  modelled.

## Findings

| source | as written | input that shows it | evidently intended | confidence | as-written member | corrected member |
|---|---|---|---|---|---|---|
| BigComplex/BigIntegerExtensionMethods.cs:27-46 | the search starts at `high = abs(n)`, so for `abs(n) = 1` the loop guard `high > low + 1` fails at once and `low = 0` is returned | `SquareRoot(1)` and `SquareRoot(-1)` give 0 | the floor square root, 1 | high, not executed | IntegerExtensions.SquareRootOfOneDiffers | IntegerExtensions.FloorSquareRoot |
| BigComplex/BigComplex.cs:363-374 | the imaginary part is printed only when it is positive | `4-3i`, the conjugate of `4+3i`, prints as the same text as `4` | print the imaginary part whenever it is nonzero | medium, not executed | ComplexText.ToStringDropsNegativeImaginary | ComplexText.ToStringNonZeroInjective |
| BigComplex/BigComplex.cs:111-135 | `Parse` removes all white space and reads at most two pieces separated by `(`, `)` and `,`, while `ToString()` prints `<re> +<im> i` when `im > 0` | `3+4i` prints as `3 +4 i`, which `Parse` hands to the decimal parser as the one piece `3+4i` | `ToString()` prints the pair notation `(re, im)`, which `Parse` reads back and TestOperations.cs expects, for example `"(10, 18)"` | medium, not executed | ComplexText.ParseToStringPositive | ComplexText.ParsePairText |
