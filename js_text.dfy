/** The JavaScript string and number built-ins the worksheet script relies on:
    `String.prototype.split` on a one-character separator, `parseInt` on
    decimal text, `String.prototype.trim`, and the rendering of a
    non-negative integer inside a template literal. */
module JsText {
  import opened Wrappers

  // ---------------------------------------------------------------- digits

  predicate IsDigit(c: char) {
    '0' <= c <= '9'
  }

  predicate AllDigits(s: string) {
    forall i :: 0 <= i < |s| ==> IsDigit(s[i])
  }

  function DigitValue(c: char): (v: nat)
    requires IsDigit(c)
    ensures v < 10
  {
    c as int - '0' as int
  }

  function DigitChar(v: nat): (c: char)
    requires v < 10
    ensures IsDigit(c) && DigitValue(c) == v
  {
    ('0' as int + v) as char
  }

  /** The number a string of decimal digits denotes, most significant digit first. */
  function DigitsValue(s: string): nat
    requires AllDigits(s)
  {
    if s == [] then 0 else DigitsValue(s[..|s| - 1]) * 10 + DigitValue(s[|s| - 1])
  }

  /** Length of the longest prefix of `s` made of decimal digits. */
  function DigitPrefixLength(s: string): (n: nat)
    ensures n <= |s| && AllDigits(s[..n])
    ensures n < |s| ==> !IsDigit(s[n])
  {
    if s == [] || !IsDigit(s[0]) then 0
    else
      var n := 1 + DigitPrefixLength(s[1..]);
      assert s[..n] == [s[0]] + s[1..][..n - 1];
      n
  }

  /** `parseInt(s)` on text that starts with a decimal digit: the value of the
      leading run of digits, whatever follows it. `None` stands for NaN, the
      result when no digit starts the text. */
  function ParseInt(s: string): (r: Option<nat>)
    ensures r.None? <==> s == [] || !IsDigit(s[0])
    ensures s != [] && AllDigits(s) ==> r == Some(DigitsValue(s))
  {
    var n := DigitPrefixLength(s);
    if n == 0 then None
    else
      assert AllDigits(s) ==> n == |s| && s[..n] == s;
      Some(DigitsValue(s[..n]))
  }

  /** How a template literal `${n}` renders a non-negative integer: its decimal
      digits without leading zeros. */
  function NatToString(n: nat): (s: string)
    ensures s != [] && AllDigits(s)
    ensures DigitsValue(s) == n
    ensures |s| > 1 ==> s[0] != '0'
  {
    if n < 10 then [DigitChar(n)]
    else
      var prefix := NatToString(n / 10);
      var s := prefix + [DigitChar(n % 10)];
      assert s[..|s| - 1] == prefix;
      s
  }

  /** Two digit strings without leading zeros denote the same number only when
      they are the same string, so `NatToString` is the one spelling of each number. */
  lemma {:induction false} NatToStringCanonical(s: string)
    requires s != [] && AllDigits(s)
    requires |s| > 1 ==> s[0] != '0'
    ensures NatToString(DigitsValue(s)) == s
    decreases |s|
  {
    var init := s[..|s| - 1];
    var last := s[|s| - 1];
    if |s| == 1 {
      assert DigitsValue(s) == DigitValue(last);
      assert [DigitChar(DigitValue(last))] == [last];
    } else {
      assert init != [] && AllDigits(init);
      assert |init| > 1 ==> init[0] != '0' by { assert init[0] == s[0]; }
      NatToStringCanonical(init);
      LeadingDigitPositive(init);
      var v := DigitsValue(s);
      assert v == DigitsValue(init) * 10 + DigitValue(last);
      assert v / 10 == DigitsValue(init) && v % 10 == DigitValue(last);
      assert v >= 10;
      assert DigitChar(DigitValue(last)) == last;
      assert s == init + [last];
    }
  }

  lemma {:induction false} LeadingDigitPositive(s: string)
    requires s != [] && AllDigits(s) && s[0] != '0'
    ensures DigitsValue(s) > 0
    decreases |s|
  {
    if |s| > 1 {
      var init := s[..|s| - 1];
      assert init[0] == s[0];
      LeadingDigitPositive(init);
    }
  }

  // ---------------------------------------------------------------- split

  /** `s.split(sep)` for a one-character separator: the pieces between the
      occurrences of `sep`, in order, including empty ones. */
  function Split(s: string, sep: char): (parts: seq<string>)
    ensures |parts| >= 1
    ensures forall i :: 0 <= i < |parts| ==> sep !in parts[i]
    ensures Join(parts, sep) == s
    decreases |s|
  {
    if s == [] then [[]]
    else
      var rest := Split(s[1..], sep);
      if s[0] == sep then
        var parts := [[]] + rest;
        assert parts[1..] == rest;
        parts
      else
        var parts := [[s[0]] + rest[0]] + rest[1..];
        assert |rest| > 1 ==> Join(rest, sep) == rest[0] + [sep] + Join(rest[1..], sep);
        assert s == [s[0]] + s[1..];
        parts
  }

  /** The inverse of `Split`: the pieces glued back with the separator between them. */
  function Join(parts: seq<string>, sep: char): string
    requires |parts| >= 1
    decreases |parts|
  {
    if |parts| == 1 then parts[0] else parts[0] + [sep] + Join(parts[1..], sep)
  }

  lemma {:induction false} SplitNoSeparator(s: string, sep: char)
    requires sep !in s
    ensures Split(s, sep) == [s]
    decreases |s|
  {
    if s != [] {
      SplitNoSeparator(s[1..], sep);
      assert [s[0]] + s[1..] == s;
    }
  }

  lemma {:induction false} SplitAfterPiece(a: string, sep: char, t: string)
    requires sep !in a
    ensures Split(a + [sep] + t, sep) == [a] + Split(t, sep)
    decreases |a|
  {
    if a == [] {
      assert ([] + [sep] + t)[1..] == t;
    } else {
      assert (a + [sep] + t)[1..] == a[1..] + [sep] + t;
      SplitAfterPiece(a[1..], sep, t);
      assert [a[0]] + a[1..] == a;
    }
  }

  /** Splitting a join of separator-free pieces gives the pieces back. */
  lemma {:induction false} SplitJoin(parts: seq<string>, sep: char)
    requires |parts| >= 1
    requires forall i :: 0 <= i < |parts| ==> sep !in parts[i]
    ensures Split(Join(parts, sep), sep) == parts
    decreases |parts|
  {
    if |parts| == 1 {
      SplitNoSeparator(parts[0], sep);
    } else {
      SplitJoin(parts[1..], sep);
      SplitAfterPiece(parts[0], sep, Join(parts[1..], sep));
      assert [parts[0]] + parts[1..] == parts;
    }
  }

  // ---------------------------------------------------------------- trim

  /** The characters `String.prototype.trim` strips: the ECMAScript WhiteSpace
      and LineTerminator code points. */
  predicate IsSpace(c: char) {
    var k := c as int;
    || k == 0x09 || k == 0x0A || k == 0x0B || k == 0x0C || k == 0x0D || k == 0x20
    || k == 0xA0 || k == 0x1680 || 0x2000 <= k <= 0x200A || k == 0x2028 || k == 0x2029
    || k == 0x202F || k == 0x205F || k == 0x3000 || k == 0xFEFF
  }

  predicate AllSpace(s: string) {
    forall i :: 0 <= i < |s| ==> IsSpace(s[i])
  }

  /** Number of white-space characters at the start of `s`. */
  function LeadingSpaces(s: string): (n: nat)
    ensures n <= |s| && AllSpace(s[..n])
    ensures n < |s| ==> !IsSpace(s[n])
  {
    if s == [] || !IsSpace(s[0]) then 0
    else
      var n := 1 + LeadingSpaces(s[1..]);
      assert s[..n] == [s[0]] + s[1..][..n - 1];
      n
  }

  /** Number of white-space characters at the end of `s`. */
  function TrailingSpaces(s: string): (n: nat)
    ensures n <= |s| && AllSpace(s[|s| - n..])
    ensures n < |s| ==> !IsSpace(s[|s| - 1 - n])
  {
    if s == [] || !IsSpace(s[|s| - 1]) then 0
    else
      var init := s[..|s| - 1];
      var n := 1 + TrailingSpaces(init);
      assert s[|s| - n..] == init[|init| - (n - 1)..] + [s[|s| - 1]];
      n
  }

  /** `s.trim()`: `s` without its leading and trailing white space. */
  function Trim(s: string): (r: string)
    ensures r == [] <==> AllSpace(s)
    ensures r != [] ==> !IsSpace(r[0]) && !IsSpace(r[|r| - 1])
    ensures LeadingSpaces(s) + |r| <= |s|
    ensures s == s[..LeadingSpaces(s)] + r + s[LeadingSpaces(s) + |r|..]
    ensures AllSpace(s[LeadingSpaces(s) + |r|..])
  {
    var i := LeadingSpaces(s);
    if i == |s| then
      assert s[..i] == s;
      []
    else
      var j := |s| - TrailingSpaces(s);
      assert !IsSpace(s[i]);
      assert s == s[..i] + s[i..j] + s[j..];
      s[i..j]
  }

  lemma {:induction false} LeadingSpacesOfPadded(before: string, rest: string)
    requires AllSpace(before)
    requires rest != [] && !IsSpace(rest[0])
    ensures LeadingSpaces(before + rest) == |before|
    decreases |before|
  {
    if before != [] {
      assert (before + rest)[1..] == before[1..] + rest;
      LeadingSpacesOfPadded(before[1..], rest);
    }
  }

  lemma {:induction false} TrailingSpacesOfPadded(rest: string, after: string)
    requires AllSpace(after)
    requires rest != [] && !IsSpace(rest[|rest| - 1])
    ensures TrailingSpaces(rest + after) == |after|
    decreases |after|
  {
    if after != [] {
      var s := rest + after;
      assert s[..|s| - 1] == rest + after[..|after| - 1];
      TrailingSpacesOfPadded(rest, after[..|after| - 1]);
    }
  }

  /** Trimming a string padded with white space gives back the padded text
      whenever that text neither starts nor ends with white space. */
  lemma {:induction false} TrimPadded(before: string, t: string, after: string)
    requires AllSpace(before) && AllSpace(after)
    requires t != [] ==> !IsSpace(t[0]) && !IsSpace(t[|t| - 1])
    ensures Trim(before + t + after) == t
  {
    var s := before + t + after;
    if t == [] {
      assert AllSpace(s) by {
        forall k | 0 <= k < |s| ensures IsSpace(s[k]) {
          if k < |before| { assert s[k] == before[k]; } else { assert s[k] == after[k - |before|]; }
        }
      }
    } else {
      assert s == before + (t + after);
      LeadingSpacesOfPadded(before, t + after);
      assert s == (before + t) + after;
      TrailingSpacesOfPadded(before + t, after);
      assert s[|before|..|s| - |after|] == t;
    }
  }
}
