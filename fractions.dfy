/** The fraction utility of the worksheet (`model.fractions` in script.js).
    A fraction is never stored as a structure: every operation takes the text
    `"n/d"`, splits it on `/` and parses the pieces again. */
module Fractions {
  import opened Wrappers
  import opened JsText

  // ---------------------------------------------------------------- parsing

  /** What `parseInt` makes of the two pieces of a fraction text. */
  datatype Pieces = Pieces(num: Option<nat>, den: Option<nat>)

  /** The step every operation starts with: `fraction.split('/')`, giving up
      unless there are exactly two pieces, then `parseInt` of each piece. */
  function SplitFraction(fraction: string): (r: Option<Pieces>)
    ensures r.None? <==> |Split(fraction, '/')| != 2
  {
    var parts := Split(fraction, '/');
    if |parts| != 2 then None else Some(Pieces(ParseInt(parts[0]), ParseInt(parts[1])))
  }

  /** Numerator and denominator, when both pieces are numbers (not NaN). */
  function NumberPair(fraction: string): Option<(nat, nat)> {
    match SplitFraction(fraction)
    case Some(Pieces(Some(n), Some(d))) => Some((n, d))
    case _ => None
  }

  /** The template literal `${n}/${d}`. */
  function FormatFraction(n: nat, d: nat): string {
    NatToString(n) + "/" + NatToString(d)
  }

  /** `^\d+\/\d+$`: one or more ASCII digits, a slash, one or more ASCII
      digits, and nothing before or after. */
  predicate IsValidFormat(input: string) {
    exists i :: 0 < i < |input| - 1 && input[i] == '/' && AllDigits(input[..i]) && AllDigits(input[i + 1..])
  }

  lemma DigitsHaveNoSlash(s: string)
    requires AllDigits(s)
    ensures '/' !in s
  {
  }

  /** Both pieces are spelled as `${n}` spells a number: no leading zero. */
  predicate CanonicalPieces(fraction: string) {
    var p := Split(fraction, '/');
    |p| == 2 && (|p[0]| > 1 ==> p[0][0] != '0') && (|p[1]| > 1 ==> p[1][0] != '0')
  }

  /** Rendering a fraction and reading it back gives the same two numbers, in
      the accepted format. */
  lemma {:induction false} FormatFractionRoundTrip(n: nat, d: nat)
    ensures Split(FormatFraction(n, d), '/') == [NatToString(n), NatToString(d)]
    ensures NumberPair(FormatFraction(n, d)) == Some((n, d))
    ensures IsValidFormat(FormatFraction(n, d))
    ensures CanonicalPieces(FormatFraction(n, d))
  {
    var a, b := NatToString(n), NatToString(d);
    DigitsHaveNoSlash(a);
    DigitsHaveNoSlash(b);
    assert Join([a, b], '/') == FormatFraction(n, d);
    SplitJoin([a, b], '/');
    var s := FormatFraction(n, d);
    assert s[..|a|] == a && s[|a| + 1..] == b && s[|a|] == '/';
  }

  /** Text in the accepted format splits into its two runs of digits. */
  lemma ValidFormatSplits(input: string, i: nat)
    requires 0 < i < |input| - 1 && input[i] == '/' && AllDigits(input[..i]) && AllDigits(input[i + 1..])
    ensures Split(input, '/') == [input[..i], input[i + 1..]]
  {
    var a, b := input[..i], input[i + 1..];
    DigitsHaveNoSlash(a);
    DigitsHaveNoSlash(b);
    assert input == Join([a, b], '/');
    SplitJoin([a, b], '/');
  }

  /** Two pieces from `split` are the text either side of its one `/`. */
  lemma TwoPiecesJoin(input: string)
    requires |Split(input, '/')| == 2
    ensures var p := Split(input, '/');
      input == p[0] + ['/'] + p[1] && input[..|p[0]|] == p[0] && input[|p[0]| + 1..] == p[1]
  {
    var p := Split(input, '/');
    assert p[1..] == [p[1]];
    assert Join(p, '/') == p[0] + ['/'] + Join(p[1..], '/');
  }

  /** The accepted format is exactly "two pieces around `/`, both non-empty
      runs of digits", which is what the later `split`/`parseInt` steps see. */
  lemma ValidFormatPieces(input: string)
    ensures IsValidFormat(input) <==>
      var p := Split(input, '/');
      |p| == 2 && p[0] != [] && p[1] != [] && AllDigits(p[0]) && AllDigits(p[1])
  {
    var p := Split(input, '/');
    if IsValidFormat(input) {
      var i :| 0 < i < |input| - 1 && input[i] == '/' && AllDigits(input[..i]) && AllDigits(input[i + 1..]);
      ValidFormatSplits(input, i);
    }
    if |p| == 2 && p[0] != [] && p[1] != [] && AllDigits(p[0]) && AllDigits(p[1]) {
      TwoPiecesJoin(input);
      var i := |p[0]|;
      assert input[i] == '/';
    }
  }

  /** A well-formed text with canonical pieces is determined by its two
      numbers: it is the one rendering `"${n}/${d}"`. */
  lemma CanonicalFractionUnique(fraction: string, n: nat, d: nat)
    requires IsValidFormat(fraction) && CanonicalPieces(fraction)
    requires NumberPair(fraction) == Some((n, d))
    ensures fraction == FormatFraction(n, d)
  {
    ValidFormatPieces(fraction);
    var p := Split(fraction, '/');
    TwoPiecesJoin(fraction);
    NatToStringCanonical(p[0]);
    NatToStringCanonical(p[1]);
  }

  /** A text in the accepted format always yields two numbers. */
  lemma ValidFormatNumbers(input: string)
    requires IsValidFormat(input)
    ensures NumberPair(input).Some?
  {
    ValidFormatPieces(input);
  }

  /** The examples the format check is meant to accept and reject. */
  lemma IsValidFormatExamples()
    ensures IsValidFormat("1/2") && IsValidFormat("10/25")
    ensures !IsValidFormat("") && !IsValidFormat("1/") && !IsValidFormat("/2")
    ensures !IsValidFormat("1.5/2") && !IsValidFormat(" 1/2 ") && !IsValidFormat("1/2/3")
  {
    assert "1/2"[1] == '/' && "1/2"[..1] == "1" && "1/2"[2..] == "2";
    assert "10/25"[2] == '/' && "10/25"[..2] == "10" && "10/25"[3..] == "25";
    assert !IsValidFormat("1.5/2") by {
      assert "1.5/2"[..3][1] == '.';
    }
    assert !IsValidFormat(" 1/2 ") by {
      assert " 1/2 "[..2][0] == ' ';
    }
    assert !IsValidFormat("1/2/3") by {
      assert "1/2/3"[2..][1] == '/';
      assert "1/2/3"[..3][1] == '/';
    }
  }

  // ---------------------------------------------------------------- gcd

  /** `d` divides `n`; only zero is divisible by zero. */
  predicate Divides(d: nat, n: nat) {
    if d == 0 then n == 0 else n % d == 0
  }

  /** Euclid's algorithm as the script writes it: `gcd(a, 0) = a`,
      `gcd(a, b) = gcd(b, a % b)`. */
  function Gcd(a: nat, b: nat): (g: nat)
    ensures g == 0 <==> a == 0 && b == 0
    decreases b
  {
    if b == 0 then a else Gcd(b, a % b)
  }

  lemma {:induction false} MulAtLeast(d: int, t: int)
    requires d > 0 && t >= 1
    ensures d * t >= d
    decreases t
  {
    if t > 1 {
      MulAtLeast(d, t - 1);
      assert d * t == d * (t - 1) + d;
    }
  }

  lemma DivModUnique(y: int, d: int, q: int, r: int)
    requires d > 0 && 0 <= r < d && y == d * q + r
    ensures y / d == q && y % d == r
  {
    var q', r' := y / d, y % d;
    var t := q - q';
    assert d * t == r' - r by {
      assert y == d * q' + r';
      assert d * q - d * q' == d * t;
    }
    if t >= 1 {
      MulAtLeast(d, t);
    }
  }

  lemma DividesProduct(d: nat, k: nat)
    ensures Divides(d, d * k)
  {
    if d > 0 {
      DivModUnique(d * k, d, k, 0);
    }
  }

  /** For `b > 0`, the common divisors of `a` and `b` are those of `b` and `a % b`. */
  lemma DividesEuclidStep(c: nat, a: nat, b: nat)
    requires b > 0 && Divides(c, b)
    ensures Divides(c, a) <==> Divides(c, a % b)
  {
    var q, r := a / b, a % b;
    var kb := b / c;
    assert b == c * kb;
    assert a == c * (q * kb) + r;
    var kr, rr := r / c, r % c;
    assert r == c * kr + rr;
    assert a == c * (q * kb + kr) + rr;
    DivModUnique(a, c, q * kb + kr, rr);
  }

  lemma {:induction false} GcdDividesBoth(a: nat, b: nat)
    ensures Divides(Gcd(a, b), a) && Divides(Gcd(a, b), b)
    decreases b
  {
    if b == 0 {
      DividesProduct(a, 1);
    } else {
      GcdDividesBoth(b, a % b);
      DividesEuclidStep(Gcd(a, b), a, b);
    }
  }

  lemma {:induction false} GcdIsGreatest(a: nat, b: nat, c: nat)
    requires Divides(c, a) && Divides(c, b)
    ensures Divides(c, Gcd(a, b))
    decreases b
  {
    if b != 0 {
      DividesEuclidStep(c, a, b);
      GcdIsGreatest(b, a % b, c);
    }
  }

  lemma DividesBounded(d: nat, n: nat)
    requires Divides(d, n) && n > 0
    ensures 0 < d <= n
  {
    var k := n / d;
    assert n == d * k;
    assert k >= 1;
    assert d * k >= d * 1;
  }

  /** `Gcd` is the greatest common divisor: it divides both arguments, and
      every common divisor divides it and (arguments not both zero) is no larger. */
  lemma GcdIsGcd(a: nat, b: nat)
    ensures Divides(Gcd(a, b), a) && Divides(Gcd(a, b), b)
    ensures forall c: nat :: Divides(c, a) && Divides(c, b) ==> Divides(c, Gcd(a, b))
    ensures forall c: nat :: Divides(c, a) && Divides(c, b) && (a > 0 || b > 0) ==> c <= Gcd(a, b)
  {
    GcdDividesBoth(a, b);
    forall c: nat | Divides(c, a) && Divides(c, b) ensures Divides(c, Gcd(a, b)) {
      GcdIsGreatest(a, b, c);
    }
    forall c: nat | Divides(c, a) && Divides(c, b) && (a > 0 || b > 0) ensures c <= Gcd(a, b) {
      GcdIsGreatest(a, b, c);
      DividesBounded(c, Gcd(a, b));
    }
  }

  // ---------------------------------------------------------------- lowest terms

  /** `x /= g` for a divisor `g` of `x`: the division is exact. */
  function DivExact(x: nat, g: nat): (q: nat)
    requires g > 0 && Divides(g, x)
    ensures x == g * q
  {
    x / g
  }

  lemma MulRearrange(g: nat, h: nat, k: nat)
    ensures g * (h * k) == (h * g) * k
  {
  }

  lemma CrossMultiply(g: nat, p: nat, q: nat)
    ensures p * (g * q) == q * (g * p)
  {
  }

  lemma MulBelow(h: nat, g: nat)
    requires g > 0 && h * g <= g
    ensures h <= 1
  {
    if h > 1 {
      MulAtLeast(g, h);
      assert h * g == g * h;
      assert g * h == g * (h - 1) + g;
      MulAtLeast(g, h - 1);
    }
  }

  /** Dividing both terms by their gcd keeps the value and leaves terms whose
      gcd is 1. */
  lemma LowestTerms(n: nat, d: nat)
    requires n > 0 || d > 0
    ensures Gcd(n, d) > 0
    ensures Divides(Gcd(n, d), n) && Divides(Gcd(n, d), d)
    ensures var g := Gcd(n, d);
      DivExact(n, g) * d == DivExact(d, g) * n && Gcd(DivExact(n, g), DivExact(d, g)) == 1
  {
    var g := Gcd(n, d);
    GcdDividesBoth(n, d);
    var p, q := DivExact(n, g), DivExact(d, g);
    CrossMultiply(g, p, q);
    var h := Gcd(p, q);
    assert h > 0 by { assert p > 0 || q > 0; }
    GcdDividesBoth(p, q);
    var kp, kq := DivExact(p, h), DivExact(q, h);
    MulRearrange(g, h, kp);
    MulRearrange(g, h, kq);
    DividesProduct(h * g, kp);
    DividesProduct(h * g, kq);
    GcdIsGreatest(n, d, h * g);
    DividesBounded(h * g, g);
    MulBelow(h, g);
  }

  // ---------------------------------------------------------------- simplify

  /** `simplify` returns a text: with two pieces, the denominator must be a
      number, and so must the numerator unless the denominator is 0. With a
      NaN denominator, or a NaN numerator over a non-zero denominator, `gcd`
      recurses on NaN until the call stack overflows, and `simplify` throws a
      RangeError instead. */
  predicate SimplifyTerminates(fraction: string) {
    match SplitFraction(fraction)
    case None => true
    case Some(Pieces(num, den)) => den.Some? && (num.Some? || den.value == 0)
  }

  /** `simplify`: both pieces divided by their gcd and joined again; the text
      unchanged when it does not have two pieces. `0/0` (and NaN over 0) makes
      JavaScript divide by a zero or NaN gcd, which renders as "NaN/NaN". */
  function Simplify(fraction: string): (r: string)
    requires SimplifyTerminates(fraction)
    ensures |Split(fraction, '/')| != 2 ==> r == fraction
    ensures |Split(fraction, '/')| == 2 ==> r == "NaN/NaN" || IsValidFormat(r)
  {
    match SplitFraction(fraction)
    case None => fraction
    case Some(Pieces(num, den)) =>
      if num.None? then "NaN/NaN"
      else
        var n, d := num.value, den.value;
        var g := Gcd(n, d);
        if g == 0 then "NaN/NaN"
        else
          GcdDividesBoth(n, d);
          var p, q := DivExact(n, g), DivExact(d, g);
          FormatFractionRoundTrip(p, q);
          FormatFraction(p, q)
  }

  /** A non-number over 0 returns: `gcd` hands back its NaN first argument at
      once, and both divisions render as NaN. */
  lemma SimplifyNaNOverZero()
    ensures SimplifyTerminates("x/0") && Simplify("x/0") == "NaN/NaN"
  {
    assert Split("x/0", '/') == ["x", "0"] by {
      SplitAfterPiece("x", '/', "0");
      SplitNoSeparator("0", '/');
      assert "x" + ['/'] + "0" == "x/0";
    }
  }

  /** For numbers `n/d` not both zero, `simplify` gives `p/q` in the accepted
      format with the same value (`p*d == q*n`) and `gcd(p, q) == 1`. */
  lemma SimplifyLowestTerms(fraction: string, n: nat, d: nat)
    requires NumberPair(fraction) == Some((n, d)) && (n > 0 || d > 0)
    ensures SimplifyTerminates(fraction)
    ensures IsValidFormat(Simplify(fraction))
    ensures var pq := NumberPair(Simplify(fraction));
      pq.Some? && pq.value.0 * d == pq.value.1 * n && Gcd(pq.value.0, pq.value.1) == 1
    ensures CanonicalPieces(Simplify(fraction))
  {
    LowestTerms(n, d);
    var g := Gcd(n, d);
    var p, q := DivExact(n, g), DivExact(d, g);
    FormatFractionRoundTrip(p, q);
    assert Simplify(fraction) == FormatFraction(p, q);
  }

  lemma DivExactByOne(x: nat)
    ensures Divides(1, x) && DivExact(x, 1) == x
  {
  }

  /** `simplify` applied to its own output changes nothing. */
  lemma SimplifyIdempotent(fraction: string)
    requires |Split(fraction, '/')| != 2 || (NumberPair(fraction).Some? && NumberPair(fraction) != Some((0, 0)))
    ensures SimplifyTerminates(fraction)
    ensures SimplifyTerminates(Simplify(fraction))
    ensures Simplify(Simplify(fraction)) == Simplify(fraction)
  {
    if |Split(fraction, '/')| == 2 {
      var (n, d) := NumberPair(fraction).value;
      LowestTerms(n, d);
      var g := Gcd(n, d);
      var p, q := DivExact(n, g), DivExact(d, g);
      FormatFractionRoundTrip(p, q);
      var s := FormatFraction(p, q);
      assert Simplify(fraction) == s;
      DivExactByOne(p);
      DivExactByOne(q);
      assert Simplify(s) == FormatFraction(DivExact(p, 1), DivExact(q, 1));
    }
  }

  // ---------------------------------------------------------------- decimal value and comparison

  /** The outcome of `toDecimal`: `null`, NaN, or the quotient `num / den`
      (kept as an exact ratio; `den > 0`). */
  datatype Decimal = Null | NaN | Quotient(num: nat, den: nat)

  /** `toDecimal`: `null` when the text does not split into two pieces or the
      denominator parses to 0; NaN when a piece is not a number. */
  function ToDecimal(fraction: string): (r: Decimal)
    ensures r.Null? <==> |Split(fraction, '/')| != 2 || ParseInt(Split(fraction, '/')[1]) == Some(0)
    ensures r.Quotient? <==> NumberPair(fraction).Some? && NumberPair(fraction).value.1 != 0
    ensures r.Quotient? ==> r.den > 0 && NumberPair(fraction) == Some((r.num, r.den))
  {
    match SplitFraction(fraction)
    case None => Null
    case Some(Pieces(num, den)) =>
      if den == Some(0) then Null
      else if num.None? || den.None? then NaN
      else Quotient(num.value, den.value)
  }

  /** JavaScript's `x > y` on two `toDecimal` results that are not null: false
      whenever a side is NaN. */
  predicate Greater(x: Decimal, y: Decimal) {
    x.Quotient? && y.Quotient? && x.num * y.den > y.num * x.den
  }

  /** `compare`: `null` when either side is null, otherwise `'>'`, `'<'` or,
      when neither holds (equal values, or a NaN side), `'='`. */
  function Compare(fraction1: string, fraction2: string): (r: Option<char>)
    ensures r.None? <==> ToDecimal(fraction1).Null? || ToDecimal(fraction2).Null?
    ensures r.Some? ==> r.value in "<=>"
  {
    var x, y := ToDecimal(fraction1), ToDecimal(fraction2);
    if x.Null? || y.Null? then None
    else if Greater(x, y) then Some('>')
    else if Greater(y, x) then Some('<')
    else Some('=')
  }

  /** Swapping the arguments of `compare` swaps `'<'` and `'>'`. */
  lemma CompareSwap(fraction1: string, fraction2: string)
    ensures Compare(fraction1, fraction2) == Some('<') <==> Compare(fraction2, fraction1) == Some('>')
    ensures Compare(fraction1, fraction2) == Some('=') <==> Compare(fraction2, fraction1) == Some('=')
  {
  }

  /** On well-formed fractions with non-zero denominators, `compare` answers
      `'='` exactly when the two values are equal, and `'<'` exactly when the
      first is smaller. */
  lemma CompareValues(a: nat, b: nat, c: nat, d: nat)
    requires b > 0 && d > 0
    ensures Compare(FormatFraction(a, b), FormatFraction(c, d)) == Some('=') <==> a * d == c * b
    ensures Compare(FormatFraction(a, b), FormatFraction(c, d)) == Some('<') <==> a * d < c * b
  {
    FormatFractionRoundTrip(a, b);
    FormatFractionRoundTrip(c, d);
  }

  lemma ZeroProduct(p: nat, d: nat)
    requires d > 0 && p * d == 0
    ensures p == 0
  {
  }

  lemma SameValueCompareEqual(f1: string, f2: string, n1: nat, d1: nat, n2: nat, d2: nat)
    requires NumberPair(f1) == Some((n1, d1)) && NumberPair(f2) == Some((n2, d2))
    requires d1 > 0 && d2 > 0 && n1 * d2 == n2 * d1
    ensures Compare(f1, f2) == Some('=')
  {
    assert ToDecimal(f1) == Quotient(n1, d1) && ToDecimal(f2) == Quotient(n2, d2);
  }

  lemma SimplifiedValue(f1: string, f2: string, n: nat, d: nat, p: nat, q: nat)
    requires NumberPair(f1) == Some((n, d)) && NumberPair(f2) == Some((p, q))
    requires d > 0 && p * d == q * n && Gcd(p, q) == 1
    ensures Compare(f1, f2) == Some('=')
  {
    if q == 0 {
      ZeroProduct(p, d);
    }
    SameValueCompareEqual(f1, f2, n, d, p, q);
  }

  /** A fraction and its simplified form compare equal. */
  lemma CompareSimplified(fraction: string, n: nat, d: nat)
    requires NumberPair(fraction) == Some((n, d)) && d > 0
    ensures SimplifyTerminates(fraction)
    ensures Compare(fraction, Simplify(fraction)) == Some('=')
  {
    SimplifyLowestTerms(fraction, n, d);
    var s := Simplify(fraction);
    var pq := NumberPair(s);
    SimplifiedValue(fraction, s, n, d, pq.value.0, pq.value.1);
  }

  lemma ToDecimalExamples()
    ensures ToDecimal("0/1") == Quotient(0, 1)
    ensures ToDecimal("7/0") == Null
    ensures ToDecimal("bad") == Null
  {
    FormatFractionRoundTrip(0, 1);
    FormatFractionRoundTrip(7, 0);
    assert FormatFraction(0, 1) == "0/1";
    assert FormatFraction(7, 0) == "7/0";
    SplitNoSeparator("bad", '/');
  }

  lemma CompareExamples()
    ensures Compare("1/4", "1/2") == Some('<')
    ensures Compare("2/4", "1/2") == Some('=')
    ensures Compare("abc", "1/2") == None
  {
    CompareValues(1, 4, 1, 2);
    CompareValues(2, 4, 1, 2);
    assert FormatFraction(1, 4) == "1/4";
    assert FormatFraction(1, 2) == "1/2";
    assert FormatFraction(2, 4) == "2/4";
    SplitNoSeparator("abc", '/');
  }
}
