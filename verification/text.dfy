/**
  Text conversions of `BigComplex`: `Parse`, which strips white space,
  splits on `(`, `)` and `,` dropping empty pieces and reads one or two
  decimals, and the two `ToString` overloads. Reading and printing a single
  `BigDecimal` are not part of this model; they arrive as the parameters
  `parseDecimal` and `fmt`.
*/
module ComplexText {
  import D = DecimalExtensions
  import opened Results
  import opened ComplexArithmetic
  import ComplexRoots

  type DecimalParser = string -> Option<real>
  type DecimalFormatter = real -> string

  // ---------------------------------------------------------------------
  // White space

  /** The characters .NET's `char.IsWhiteSpace` accepts: the Unicode space
      separators (U+0020, U+00A0, U+1680, U+2000 to U+200A, U+202F, U+205F,
      U+3000), the line and paragraph separators, and the control
      characters tab to carriage return and U+0085. */
  predicate IsWhiteSpace(c: char) {
    || c == ' '
    || ('\t' <= c <= '\r')
    || c == '\U{0085}'
    || c == '\U{00A0}'
    || c == '\U{1680}'
    || ('\U{2000}' <= c <= '\U{200A}')
    || c == '\U{2028}'
    || c == '\U{2029}'
    || c == '\U{202F}'
    || c == '\U{205F}'
    || c == '\U{3000}'
  }

  /** `string.IsNullOrWhiteSpace` for a non-null string: empty, or white
      space only. */
  predicate IsBlank(s: string) {
    forall i :: 0 <= i < |s| ==> IsWhiteSpace(s[i])
  }

  /** No character of `s` is white space. */
  predicate NoWhiteSpace(s: string) {
    forall i :: 0 <= i < |s| ==> !IsWhiteSpace(s[i])
  }

  /** The string of the non-white-space characters of `s`, in order. */
  function RemoveWhiteSpace(s: string): (r: string)
    ensures NoWhiteSpace(r)
    ensures |r| <= |s|
  {
    if s == [] then []
    else if IsWhiteSpace(s[0]) then RemoveWhiteSpace(s[1..])
    else [s[0]] + RemoveWhiteSpace(s[1..])
  }

  /** Removing white space distributes over concatenation. */
  lemma {:induction false} RemoveWhiteSpaceAppend(a: string, b: string)
    ensures RemoveWhiteSpace(a + b) == RemoveWhiteSpace(a) + RemoveWhiteSpace(b)
    decreases |a|
  {
    if a == [] {
      assert a + b == b;
    } else {
      assert (a + b)[0] == a[0];
      assert (a + b)[1..] == a[1..] + b;
      RemoveWhiteSpaceAppend(a[1..], b);
      if !IsWhiteSpace(a[0]) {
        assert [a[0]] + (RemoveWhiteSpace(a[1..]) + RemoveWhiteSpace(b))
            == ([a[0]] + RemoveWhiteSpace(a[1..])) + RemoveWhiteSpace(b);
      }
    }
  }

  /** Only blank text loses every character. */
  lemma {:induction false} RemoveWhiteSpaceEmpty(s: string)
    ensures RemoveWhiteSpace(s) == [] <==> IsBlank(s)
    decreases |s|
  {
    if s != [] {
      RemoveWhiteSpaceEmpty(s[1..]);
      if IsBlank(s[1..]) && IsWhiteSpace(s[0]) {
        forall i | 0 <= i < |s|
          ensures IsWhiteSpace(s[i])
        {
          if i > 0 {
            assert s[i] == s[1..][i - 1];
          }
        }
      }
      if IsBlank(s) {
        assert IsWhiteSpace(s[0]);
        forall i | 0 <= i < |s| - 1
          ensures IsWhiteSpace(s[1..][i])
        {
          assert s[1..][i] == s[i + 1];
        }
      }
    }
  }

  /** Text without white space is left as it is. */
  lemma {:induction false} RemoveWhiteSpaceClean(s: string)
    requires NoWhiteSpace(s)
    ensures RemoveWhiteSpace(s) == s
    decreases |s|
  {
    if s != [] {
      assert !IsWhiteSpace(s[0]);
      RemoveWhiteSpaceClean(s[1..]);
    }
  }

  /** Removing white space twice is removing it once. */
  lemma RemoveWhiteSpaceIdempotent(s: string)
    ensures RemoveWhiteSpace(RemoveWhiteSpace(s)) == RemoveWhiteSpace(s)
  {
    RemoveWhiteSpaceClean(RemoveWhiteSpace(s));
  }

  // ---------------------------------------------------------------------
  // Splitting with `StringSplitOptions.RemoveEmptyEntries`

  /** The separators `Parse` splits on. */
  predicate IsDelimiter(c: char) {
    c == '(' || c == ')' || c == ','
  }

  /** No character of `s` is a separator. */
  predicate NoDelimiter(s: string) {
    forall i :: 0 <= i < |s| ==> !IsDelimiter(s[i])
  }

  /** A piece `Split` can return: non-empty and free of separators. */
  predicate IsToken(t: string) {
    |t| > 0 && NoDelimiter(t)
  }

  /** The length of the longest separator-free prefix of `s`. */
  function TokenLength(s: string): (n: nat)
    ensures n <= |s|
    ensures NoDelimiter(s[..n])
    ensures n < |s| ==> IsDelimiter(s[n])
  {
    if s == [] || IsDelimiter(s[0]) then 0
    else
      var m := TokenLength(s[1..]);
      assert s[..m + 1] == [s[0]] + s[1..][..m];
      m + 1
  }

  /** The characters of `s` that are not separators, in order. */
  function RemoveDelimiters(s: string): (r: string)
    ensures NoDelimiter(r)
  {
    if s == [] then []
    else if IsDelimiter(s[0]) then RemoveDelimiters(s[1..])
    else [s[0]] + RemoveDelimiters(s[1..])
  }

  /** The concatenation of a sequence of strings. */
  function Concat(parts: seq<string>): string {
    if parts == [] then [] else parts[0] + Concat(parts[1..])
  }

  /** `s.Split(new char[] { '(', ')', ',' }, RemoveEmptyEntries)`: the
      maximal separator-free pieces of `s`, empty pieces dropped. */
  function Split(s: string): (parts: seq<string>)
    ensures forall k :: 0 <= k < |parts| ==> IsToken(parts[k])
    ensures Concat(parts) == RemoveDelimiters(s)
    decreases |s|
  {
    if s == [] then []
    else if IsDelimiter(s[0]) then Split(s[1..])
    else
      var n := TokenLength(s);
      var rest := Split(s[n..]);
      TokenRemoveDelimiters(s, n);
      [s[..n]] + rest
  }

  /** Removing separators from a string whose first `n` characters are a
      token keeps that token as a prefix. */
  lemma {:induction false} TokenRemoveDelimiters(s: string, n: nat)
    requires n <= |s| && NoDelimiter(s[..n])
    ensures RemoveDelimiters(s) == s[..n] + RemoveDelimiters(s[n..])
    decreases n
  {
    if n > 0 {
      assert !IsDelimiter(s[..n][0]);
      assert s[1..][..n - 1] == s[..n][1..];
      TokenRemoveDelimiters(s[1..], n - 1);
      assert s[1..][n - 1..] == s[n..];
      assert s[..n] == [s[0]] + s[1..][..n - 1];
    }
  }

  /** A token splits into itself. */
  lemma SplitToken(t: string)
    requires IsToken(t)
    ensures Split(t) == [t]
  {
    assert !IsDelimiter(t[0]);
    var n := TokenLength(t);
    assert n == |t|;
    assert t[..n] == t;
    assert t[n..] == [];
  }

  /** Every separator cuts: the pieces of `a + [d] + b` are the pieces of
      `a` followed by those of `b`. Together with `SplitToken` this fixes
      `Split` completely. */
  lemma {:induction false} SplitAtDelimiter(a: string, d: char, b: string)
    requires IsDelimiter(d)
    ensures Split(a + [d] + b) == Split(a) + Split(b)
    decreases |a|
  {
    var s := a + [d] + b;
    if a == [] {
      assert s[1..] == b;
    } else if IsDelimiter(a[0]) {
      assert s[1..] == a[1..] + [d] + b;
      SplitAtDelimiter(a[1..], d, b);
    } else {
      var n := TokenLength(a);
      TokenLengthExtends(a, d, b);
      assert s[..n] == a[..n];
      assert s[n..] == a[n..] + [d] + b;
      SplitAtDelimiter(a[n..], d, b);
    }
  }

  /** A separator after `a` does not change where the first token of `a`
      ends. */
  lemma {:induction false} TokenLengthExtends(a: string, d: char, b: string)
    requires IsDelimiter(d)
    ensures TokenLength(a + [d] + b) == TokenLength(a)
    decreases |a|
  {
    var s := a + [d] + b;
    if a != [] && !IsDelimiter(a[0]) {
      assert s[1..] == a[1..] + [d] + b;
      TokenLengthExtends(a[1..], d, b);
    }
  }

  // ---------------------------------------------------------------------
  // Parse

  /** The exceptions `Parse` can throw: `ArgumentException` for a blank
      argument, `FormatException` for a wrong number of pieces, and the
      failure of `BigDecimal.Parse` on a piece. */
  datatype ParseError = ArgumentError | FormatError | DecimalParseError

  /** `BigComplex.Parse`. */
  function Parse(s: string, parseDecimal: DecimalParser): (r: Result<Complex, ParseError>)
    ensures r == Failure(ArgumentError) <==> IsBlank(s)
    ensures r == Failure(FormatError) <==>
              !IsBlank(s) && !(1 <= |Split(RemoveWhiteSpace(s))| <= 2)
    ensures var parts := Split(RemoveWhiteSpace(s));
            !IsBlank(s) && 1 <= |parts| <= 2 ==>
              (r.Success? <==>
                 parseDecimal(parts[0]).Some? && (|parts| == 2 ==> parseDecimal(parts[1]).Some?))
    ensures r.Success? ==>
              var parts := Split(RemoveWhiteSpace(s));
              && parseDecimal(parts[0]) == Some(r.value.re)
              && (|parts| == 1 ==> r.value.im == 0.0)
              && (|parts| == 2 ==> parseDecimal(parts[1]) == Some(r.value.im))
  {
    if IsBlank(s) then Failure(ArgumentError)
    else
      var parts := Split(RemoveWhiteSpace(s));
      if |parts| <= 0 || |parts| > 2 then Failure(FormatError)
      else
        match parseDecimal(parts[0])
        case None => Failure(DecimalParseError)
        case Some(re) =>
          if |parts| == 2 then
            match parseDecimal(parts[1])
            case None => Failure(DecimalParseError)
            case Some(im) => Success(Complex(re, im))
          else
            Success(Complex(re, 0.0))
  }

  /** The text a decimal printer may produce for `Parse` to read it back as
      one piece: non-empty, without white space and without separators. */
  predicate IsPlainDecimalText(t: string) {
    IsToken(t) && NoWhiteSpace(t)
  }

  /** `fmt` prints the value `x` as a plain piece that `parseDecimal` reads
      back as `x`. */
  predicate PrintsBack(fmt: DecimalFormatter, parseDecimal: DecimalParser, x: real) {
    IsPlainDecimalText(fmt(x)) && parseDecimal(fmt(x)) == Some(x)
  }

  /** The pair notation `(re, im)` that `Parse` documents. */
  function PairText(z: Complex, fmt: DecimalFormatter): string {
    "(" + fmt(z.re) + ", " + fmt(z.im) + ")"
  }

  /** Text without white space stays so under concatenation. */
  lemma NoWhiteSpaceAppend(a: string, b: string)
    requires NoWhiteSpace(a) && NoWhiteSpace(b)
    ensures NoWhiteSpace(a + b)
  {
    forall i | 0 <= i < |a + b|
      ensures !IsWhiteSpace((a + b)[i])
    {
      if i < |a| {
        assert (a + b)[i] == a[i];
      } else {
        assert (a + b)[i] == b[i - |a|];
      }
    }
  }

  /** The pieces of `(x,y)` are `x` and `y`. */
  lemma SplitPair(x: string, y: string)
    requires IsToken(x) && IsToken(y)
    ensures Split("(" + x + "," + y + ")") == [x, y]
  {
    var e := "(" + x;
    var c := e + "," + y;
    SplitToken(x);
    SplitToken(y);
    assert Split(e) == [x] by {
      assert e == [] + ['('] + x;
      SplitAtDelimiter([], '(', x);
    }
    assert Split(c) == [x, y] by {
      SplitAtDelimiter(e, ',', y);
    }
    assert c + ")" == c + [')'] + [];
    SplitAtDelimiter(c, ')', []);
  }


  /** The pieces of the pair notation are the two printed parts. */
  lemma PairTextPieces(x: string, y: string)
    requires IsPlainDecimalText(x) && IsPlainDecimalText(y)
    ensures Split(RemoveWhiteSpace("(" + x + ", " + y + ")")) == [x, y]
  {
    RemoveWhiteSpaceAppend("(" + x + ", " + y, ")");
    RemoveWhiteSpaceAppend("(" + x + ", ", y);
    RemoveWhiteSpaceAppend("(" + x, ", ");
    RemoveWhiteSpaceAppend("(", x);
    RemoveWhiteSpaceClean(x);
    RemoveWhiteSpaceClean(y);
    RemoveWhiteSpaceClean("(");
    RemoveWhiteSpaceClean(")");
    assert RemoveWhiteSpace(", ") == ",";
    assert RemoveWhiteSpace("(" + x + ", " + y + ")") == "(" + x + "," + y + ")";
    SplitPair(x, y);
  }

  /** Parsing the pair notation of `z` gives `z` back. */
  lemma ParsePairText(z: Complex, fmt: DecimalFormatter, parseDecimal: DecimalParser)
    requires PrintsBack(fmt, parseDecimal, z.re) && PrintsBack(fmt, parseDecimal, z.im)
    ensures Parse(PairText(z, fmt), parseDecimal) == Success(z)
  {
    var s := PairText(z, fmt);
    assert s[0] == '(' && !IsWhiteSpace(s[0]);
    PairTextPieces(fmt(z.re), fmt(z.im));
  }

  /** `"(3, 4)"` of the test suite is `3 + 4i` whenever the decimal parser
      reads `"3"` and `"4"`. */
  lemma ParsePairExample(parseDecimal: DecimalParser)
    requires parseDecimal("3") == Some(3.0) && parseDecimal("4") == Some(4.0)
    ensures Parse("(3, 4)", parseDecimal) == Success(Complex(3.0, 4.0))
  {
    var x, y := "3", "4";
    assert IsPlainDecimalText(x) && IsPlainDecimalText(y);
    PairTextPieces(x, y);
    assert "(" + x + ", " + y + ")" == "(3, 4)";
    assert !IsWhiteSpace("(3, 4)"[0]);
  }

  /** A lone printed decimal parses as a real number. */
  lemma ParseRealText(x: real, fmt: DecimalFormatter, parseDecimal: DecimalParser)
    requires PrintsBack(fmt, parseDecimal, x)
    ensures Parse(fmt(x), parseDecimal) == Success(FromReal(x))
  {
    var t := fmt(x);
    assert IsPlainDecimalText(t);
    assert !IsWhiteSpace(t[0]);
    RemoveWhiteSpaceClean(t);
    SplitToken(t);
  }

  /** Blank text is an argument error. */
  lemma ParseBlankExamples(parseDecimal: DecimalParser)
    ensures Parse("", parseDecimal) == Failure(ArgumentError)
    ensures Parse(" \t", parseDecimal) == Failure(ArgumentError)
  {
    assert IsBlank(" \t");
  }

  /** Every character of `s` is a separator. */
  predicate AllDelimiters(s: string) {
    forall i :: 0 <= i < |s| ==> IsDelimiter(s[i])
  }

  /** Text made of separators only has no pieces. */
  lemma {:induction false} SplitSeparatorsOnly(s: string)
    requires AllDelimiters(s)
    ensures Split(s) == []
    decreases |s|
  {
    if s != [] {
      assert IsDelimiter(s[0]);
      SplitSeparatorsOnly(s[1..]);
    }
  }

  /** Non-blank text whose characters are all separators or white space,
      such as `(,)` or `( )`, is a format error. */
  lemma ParseSeparatorsOnly(s: string, parseDecimal: DecimalParser)
    requires forall i :: 0 <= i < |s| ==> IsDelimiter(s[i]) || IsWhiteSpace(s[i])
    requires !IsBlank(s)
    ensures Parse(s, parseDecimal) == Failure(FormatError)
  {
    var t := RemoveWhiteSpace(s);
    SeparatorsSurviveFilter(s);
    SplitSeparatorsOnly(t);
  }

  /** Removing white space from separators and white space leaves
      separators. */
  lemma {:induction false} SeparatorsSurviveFilter(s: string)
    requires forall i :: 0 <= i < |s| ==> IsDelimiter(s[i]) || IsWhiteSpace(s[i])
    ensures AllDelimiters(RemoveWhiteSpace(s))
    decreases |s|
  {
    if s != [] {
      assert IsDelimiter(s[0]) || IsWhiteSpace(s[0]);
      SeparatorsSurviveFilter(s[1..]);
      var rest := RemoveWhiteSpace(s[1..]);
      assert AllDelimiters(rest);
      if !IsWhiteSpace(s[0]) {
        var t := [s[0]] + rest;
        assert RemoveWhiteSpace(s) == t;
        assert IsDelimiter(s[0]);
        forall i | 0 <= i < |t|
          ensures IsDelimiter(t[i])
        {
          if i == 0 {
            assert t[i] == s[0];
          } else {
            assert t[i] == rest[i - 1];
          }
        }
      }
    }
  }

  /** The pieces of `(x,y,w)` are `x`, `y` and `w`. */
  lemma SplitTriple(x: string, y: string, w: string)
    requires IsToken(x) && IsToken(y) && IsToken(w)
    ensures Split("(" + x + "," + y + "," + w + ")") == [x, y, w]
  {
    var e := "(" + x;
    var c := e + "," + y;
    var a := c + "," + w;
    SplitToken(x);
    SplitToken(y);
    SplitToken(w);
    assert Split(e) == [x] by {
      assert e == [] + ['('] + x;
      SplitAtDelimiter([], '(', x);
    }
    assert Split(c) == [x, y] by {
      SplitAtDelimiter(e, ',', y);
    }
    assert Split(a) == [x, y, w] by {
      SplitAtDelimiter(c, ',', w);
    }
    assert a + ")" == a + [')'] + [];
    SplitAtDelimiter(a, ')', []);
  }


  /** Three printed decimals in parentheses, such as `(1,2,3)`, are a
      format error. */
  lemma ParseThreePieces(x: string, y: string, w: string, parseDecimal: DecimalParser)
    requires IsPlainDecimalText(x) && IsPlainDecimalText(y) && IsPlainDecimalText(w)
    ensures Parse("(" + x + "," + y + "," + w + ")", parseDecimal) == Failure(FormatError)
  {
    var t := "(" + x + "," + y + "," + w + ")";
    NoWhiteSpaceAppend("(", x);
    NoWhiteSpaceAppend("(" + x, ",");
    NoWhiteSpaceAppend("(" + x + ",", y);
    NoWhiteSpaceAppend("(" + x + "," + y, ",");
    NoWhiteSpaceAppend("(" + x + "," + y + ",", w);
    NoWhiteSpaceAppend("(" + x + "," + y + "," + w, ")");
    RemoveWhiteSpaceClean(t);
    assert !IsWhiteSpace(t[0]);
    SplitTriple(x, y, w);
  }

  /** White space is removed before splitting, so the sum notation
      `x + yi`, as in `3 + 4i`, reaches the decimal parser as the single
      piece `x+yi`, whose value, if any, becomes the real part. */
  lemma ParseSumNotation(x: string, y: string, parseDecimal: DecimalParser)
    requires IsPlainDecimalText(x) && IsPlainDecimalText(y)
    ensures var piece := x + "+" + y + "i";
            Parse(x + " + " + y + "i", parseDecimal) ==
              match parseDecimal(piece)
              case None => Failure(DecimalParseError)
              case Some(v) => Success(FromReal(v))
  {
    var s := x + " + " + y + "i";
    var piece := x + "+" + y + "i";
    RemoveWhiteSpaceAppend(x + " + " + y, "i");
    RemoveWhiteSpaceAppend(x + " + ", y);
    RemoveWhiteSpaceAppend(x, " + ");
    RemoveWhiteSpaceClean(x);
    RemoveWhiteSpaceClean(y);
    RemoveWhiteSpaceClean("i");
    assert RemoveWhiteSpace(" + ") == "+";
    assert RemoveWhiteSpace(s) == piece;
    assert s[0] == x[0] && !IsWhiteSpace(s[0]);
    NoDelimiterAppend(x, "+");
    NoDelimiterAppend(x + "+", y);
    NoDelimiterAppend(x + "+" + y, "i");
    SplitToken(piece);
  }

  /** Separator-free text stays so under concatenation. */
  lemma NoDelimiterAppend(a: string, b: string)
    requires NoDelimiter(a) && NoDelimiter(b)
    ensures NoDelimiter(a + b)
  {
    forall i | 0 <= i < |a + b|
      ensures !IsDelimiter((a + b)[i])
    {
      if i < |a| {
        assert (a + b)[i] == a[i];
      } else {
        assert (a + b)[i] == b[i - |a|];
      }
    }
  }

  // ---------------------------------------------------------------------
  // ToString

  /** `ToString()`: the real part, then ` +<im> i` only when the imaginary
      part is positive.  Both parts go through `fmt`, the current culture's
      decimal printer. */
  function ToString(z: Complex, fmt: DecimalFormatter): (r: string)
    ensures z.im > 0.0 ==> r == ToStringWith(z, fmt)
    ensures z.im <= 0.0 ==> r == fmt(z.re)
  {
    var i := if z.im > 0.0 then " +" + fmt(z.im) + " i" else "";
    fmt(z.re) + i
  }

  /** `ToString(IFormatProvider)`: always `<re> +<im> i`, both parts printed
      by `provider`, the decimal printer the format provider stands for. */
  function ToStringWith(z: Complex, provider: DecimalFormatter): string {
    provider(z.re) + " +" + provider(z.im) + " i"
  }

  /** Where the parts sit in the provider format: the real part runs up to
      the first space, and the imaginary part lies between ` +` and ` i`. */
  lemma ToStringWithPieces(z: Complex, provider: DecimalFormatter)
    requires NoWhiteSpace(provider(z.re))
    ensures var a := ToStringWith(z, provider);
      var n := FirstSpace(a);
      && n == |provider(z.re)|
      && a[..n] == provider(z.re)
      && n + 4 <= |a|
      && a[n + 2..|a| - 2] == provider(z.im)
  {
    var a := ToStringWith(z, provider);
    var t := " +" + provider(z.im) + " i";
    assert a == provider(z.re) + t;
    FirstSpaceAfter(provider(z.re), t);
    assert a[|provider(z.re)|..] == t;
    assert t[2..|t| - 2] == provider(z.im);
  }

  /** The two overloads print the same text exactly when the imaginary part
      is positive and the provider prints both parts as the current culture
      does. */
  lemma ToStringAgreesWithProvider(z: Complex, fmt: DecimalFormatter, provider: DecimalFormatter)
    requires NoWhiteSpace(fmt(z.re)) && NoWhiteSpace(provider(z.re))
    ensures ToString(z, fmt) == ToStringWith(z, provider) <==>
              z.im > 0.0 && fmt(z.re) == provider(z.re) && fmt(z.im) == provider(z.im)
  {
    var a, b := ToString(z, fmt), ToStringWith(z, provider);
    ToStringWithPieces(z, provider);
    if z.im > 0.0 {
      ToStringWithPieces(z, fmt);
    } else {
      assert FirstSpace(a) == |a|;
    }
  }

  /** A number without positive imaginary part prints as its real part and
      reads back as that real number. */
  lemma ParseToStringReal(z: Complex, fmt: DecimalFormatter, parseDecimal: DecimalParser)
    requires PrintsBack(fmt, parseDecimal, z.re)
    requires z.im <= 0.0
    ensures Parse(ToString(z, fmt), parseDecimal) == Success(FromReal(z.re))
  {
    ParseRealText(z.re, fmt, parseDecimal);
  }

  /** With a positive imaginary part, `Parse` does not read `ToString()`
      back: once the white space is gone, `<re> +<im> i` is the single piece
      `<re>+<im>i`, whose value, if any, becomes a real number. */
  lemma ParseToStringPositive(z: Complex, fmt: DecimalFormatter, parseDecimal: DecimalParser)
    requires z.im > 0.0
    requires IsPlainDecimalText(fmt(z.re)) && IsPlainDecimalText(fmt(z.im))
    ensures var piece := fmt(z.re) + "+" + fmt(z.im) + "i";
            Parse(ToString(z, fmt), parseDecimal) ==
              match parseDecimal(piece)
              case None => Failure(DecimalParseError)
              case Some(v) => Success(FromReal(v))
    ensures Parse(ToString(z, fmt), parseDecimal) != Success(z)
  {
    var x, y := fmt(z.re), fmt(z.im);
    var s := ToString(z, fmt);
    assert s == x + " +" + y + " i";
    var piece := x + "+" + y + "i";
    RemoveWhiteSpaceAppend(x + " +" + y, " i");
    RemoveWhiteSpaceAppend(x + " +", y);
    RemoveWhiteSpaceAppend(x, " +");
    RemoveWhiteSpaceClean(x);
    RemoveWhiteSpaceClean(y);
    assert RemoveWhiteSpace(" +") == "+";
    assert RemoveWhiteSpace(" i") == "i";
    assert RemoveWhiteSpace(s) == piece;
    assert s[0] == x[0] && !IsWhiteSpace(s[0]);
    NoDelimiterAppend(x, "+");
    NoDelimiterAppend(x + "+", y);
    NoDelimiterAppend(x + "+" + y, "i");
    SplitToken(piece);
  }

  /** `ToString()` of `4-3i`, the conjugate of `4+3i`, is the text of the
      real number `4`: the negative imaginary part is not printed. */
  lemma ToStringDropsNegativeImaginary(fmt: DecimalFormatter)
    ensures ToString(Complex(4.0, -3.0), fmt) == ToString(FromReal(4.0), fmt)
    ensures Complex(4.0, -3.0) != FromReal(4.0)
  {
  }

  /** `ToString()` with the imaginary part printed whenever it is not zero. */
  function ToStringNonZero(z: Complex, fmt: DecimalFormatter): string {
    if z.im != 0.0 then ToStringWith(z, fmt) else fmt(z.re)
  }

  /** The position of the first space of `s`, or `|s|`. */
  function FirstSpace(s: string): (n: nat)
    ensures n <= |s|
    ensures forall i :: 0 <= i < n ==> s[i] != ' '
    ensures n < |s| ==> s[n] == ' '
  {
    if s == [] || s[0] == ' ' then 0 else FirstSpace(s[1..]) + 1
  }

  /** The first space of `t + u` where `t` has none is at `|t|`. */
  lemma {:induction false} FirstSpaceAfter(t: string, u: string)
    requires NoWhiteSpace(t)
    requires |u| > 0 && u[0] == ' '
    ensures FirstSpace(t + u) == |t|
    decreases |t|
  {
    if t == [] {
      assert t + u == u;
    } else {
      assert (t + u)[0] == t[0] && !IsWhiteSpace(t[0]);
      assert (t + u)[1..] == t[1..] + u;
      FirstSpaceAfter(t[1..], u);
    }
  }

  /** Where the pieces of `ToStringNonZero` sit in its text: the real part
      runs up to the first space, and the imaginary part, when printed, lies
      between ` +` and ` i`. */
  lemma ToStringNonZeroPieces(z: Complex, fmt: DecimalFormatter)
    requires NoWhiteSpace(fmt(z.re))
    ensures var a := ToStringNonZero(z, fmt);
      var n := FirstSpace(a);
      && n == |fmt(z.re)|
      && a[..n] == fmt(z.re)
      && (z.im != 0.0 <==> n < |a|)
      && (z.im != 0.0 ==> n + 4 <= |a| && a[n + 2..|a| - 2] == fmt(z.im))
  {
    var a := ToStringNonZero(z, fmt);
    if z.im != 0.0 {
      ToStringWithPieces(z, fmt);
    } else {
      assert FirstSpace(a) == |a|;
    }
  }

  /** When the decimal printer reads back on the parts of `z` and `w`,
      `ToStringNonZero` tells the two numbers apart. */
  lemma ToStringNonZeroInjective(z: Complex, w: Complex, fmt: DecimalFormatter, parseDecimal: DecimalParser)
    requires PrintsBack(fmt, parseDecimal, z.re) && PrintsBack(fmt, parseDecimal, z.im)
    requires PrintsBack(fmt, parseDecimal, w.re) && PrintsBack(fmt, parseDecimal, w.im)
    requires ToStringNonZero(z, fmt) == ToStringNonZero(w, fmt)
    ensures z == w
  {
    ToStringNonZeroPieces(z, fmt);
    ToStringNonZeroPieces(w, fmt);
    assert parseDecimal(fmt(z.re)) == Some(z.re);
    assert parseDecimal(fmt(w.re)) == Some(w.re);
    if z.im != 0.0 {
      assert parseDecimal(fmt(z.im)) == Some(z.im);
      assert parseDecimal(fmt(w.im)) == Some(w.im);
    }
  }

  /** The printed square roots of the test suite: `0 +5 i`, `0 +3 i`,
      `0 +9 i` and `3`. */
  lemma Sqrt6PrintExamples(root: D.RootFn, round: D.RoundFn, precision: int, fmt: DecimalFormatter)
    requires D.IdealRoot(root) && D.KeepsWholeNumbers(round)
    requires precision >= 0
    requires fmt(0.0) == "0" && fmt(3.0) == "3" && fmt(5.0) == "5" && fmt(9.0) == "9"
    ensures ToString(ComplexRoots.Sqrt6(FromReal(-25.0), root, round, precision), fmt) == "0 +5 i"
    ensures ToString(ComplexRoots.Sqrt6(FromReal(-9.0), root, round, precision), fmt) == "0 +3 i"
    ensures ToString(ComplexRoots.Sqrt6(FromReal(-81.0), root, round, precision), fmt) == "0 +9 i"
    ensures ToString(ComplexRoots.Sqrt6(FromReal(9.0), root, round, precision), fmt) == "3"
  {
    ComplexRoots.Sqrt6Examples(root, round, precision);
  }
}
