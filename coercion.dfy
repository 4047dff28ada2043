/** The numeric coercions the task manager applies to user input and stored
    records: `parseInt(x, 10)`, the `|| 0` fallback after it, and the
    conversion of an integer Number to its decimal text. */
module Coercion {

  import opened Wrappers

  /** JavaScript's WhiteSpace and LineTerminator characters, which
      `parseInt` skips at the front of its argument. */
  predicate IsJsWhitespace(c: char) {
    c == ' ' || c == '\t' || c == '\n' || c == '\r' || c == '\U{000B}' || c == '\U{000C}'
    || c == '\U{00A0}' || c == '\U{FEFF}' || c == '\U{1680}' || ('\U{2000}' <= c <= '\U{200A}')
    || c == '\U{2028}' || c == '\U{2029}' || c == '\U{202F}' || c == '\U{205F}' || c == '\U{3000}'
  }

  predicate IsDigit(c: char) {
    '0' <= c <= '9'
  }

  predicate AllDigits(s: string) {
    forall i :: 0 <= i < |s| ==> IsDigit(s[i])
  }

  function DigitValue(c: char): (d: nat)
    requires IsDigit(c)
    ensures d < 10
  {
    c as int - '0' as int
  }

  function DigitChar(d: nat): (c: char)
    requires d < 10
    ensures IsDigit(c) && DigitValue(c) == d
  {
    ('0' as int + d) as char
  }

  /** The argument without its leading whitespace. */
  function TrimStart(s: string): (r: string)
    ensures r == [] || !IsJsWhitespace(r[0])
    ensures |r| <= |s|
  {
    if s != [] && IsJsWhitespace(s[0]) then TrimStart(s[1..]) else s
  }

  /** What `TrimStart` removes is a run of whitespace at the front, and what
      it keeps is the rest of the argument. */
  lemma {:induction false} TrimStartSplits(s: string)
    ensures var r := TrimStart(s);
            r == s[|s| - |r|..] && forall i :: 0 <= i < |s| - |r| ==> IsJsWhitespace(s[i])
  {
    if s != [] && IsJsWhitespace(s[0]) {
      TrimStartSplits(s[1..]);
    }
  }

  /** The length of the longest prefix made of decimal digits. */
  function LeadingDigits(s: string): (k: nat)
    ensures k <= |s| && AllDigits(s[..k])
    ensures k < |s| ==> !IsDigit(s[k])
  {
    if s != [] && IsDigit(s[0]) then
      var k := 1 + LeadingDigits(s[1..]);
      assert s[..k] == [s[0]] + s[1..][..k - 1];
      k
    else 0
  }

  /** The value of a string of decimal digits, most significant first. */
  function DigitsValue(s: string): nat
    requires AllDigits(s)
  {
    if s == [] then 0 else 10 * DigitsValue(s[..|s| - 1]) + DigitValue(s[|s| - 1])
  }

  /** `parseInt(s, 10)`: skip leading whitespace, take an optional sign, then
      the longest run of digits; `NaN` (here `None`) when that run is empty.
      Rounding to the nearest double is not modelled. */
  function ParseInt(s: string): Option<int> {
    ParseSigned(TrimStart(s))
  }

  /** `parseInt` after the whitespace: an optional sign, then digits. */
  function ParseSigned(t: string): Option<int> {
    var negative := t != [] && t[0] == '-';
    var u := if t != [] && (t[0] == '-' || t[0] == '+') then t[1..] else t;
    var k := LeadingDigits(u);
    var magnitude: int := if k == 0 then 0 else DigitsValue(u[..k]);
    if k == 0 then None
    else if negative then Some(-magnitude)
    else Some(magnitude)
  }

  /** `parseInt(s, 10) || 0`: `NaN` and `-0` are falsy, so both give 0. */
  function ParseIntOrZero(s: string): int {
    ParseInt(s).GetOr(0)
  }

  /** The decimal digits of a natural number, without leading zeros. */
  function Digits(n: nat): (s: string)
    ensures |s| >= 1 && AllDigits(s)
    ensures n < 10 <==> |s| == 1
  {
    if n < 10 then [DigitChar(n)] else Digits(n / 10) + [DigitChar(n % 10)]
  }

  /** `Number.prototype.toString()` for an integer. */
  function Decimal(n: int): string {
    if n < 0 then "-" + Digits(-n) else Digits(n)
  }

  lemma {:induction false} DigitsValueOfDigits(n: nat)
    ensures DigitsValue(Digits(n)) == n
  {
    if n >= 10 {
      var s := Digits(n);
      assert s[..|s| - 1] == Digits(n / 10);
      DigitsValueOfDigits(n / 10);
    }
  }

  lemma {:induction false} LeadingDigitsOfDigitRun(d: string, tail: string)
    requires AllDigits(d)
    requires tail == [] || !IsDigit(tail[0])
    ensures LeadingDigits(d + tail) == |d|
  {
    if d != [] {
      assert (d + tail)[1..] == d[1..] + tail;
      LeadingDigitsOfDigitRun(d[1..], tail);
    }
  }

  /** A leading '0' does not change the value of a digit string. */
  lemma {:induction false} DigitsValueLeadingZero(s: string)
    requires AllDigits(s)
    ensures AllDigits("0" + s) && DigitsValue("0" + s) == DigitsValue(s)
  {
    if s != [] {
      assert ("0" + s)[..|"0" + s| - 1] == "0" + s[..|s| - 1];
      DigitsValueLeadingZero(s[..|s| - 1]);
    }
  }

  /** Parsing the decimal text of an integer, followed by anything that does
      not start with a digit ("1.5", "2e3", "7px"), gives back the integer. */
  lemma ParseDecimalPrefix(n: int, tail: string)
    requires tail == [] || !IsDigit(tail[0])
    ensures ParseInt(Decimal(n) + tail) == Some(n)
    ensures ParseIntOrZero(Decimal(n) + tail) == n
  {
    var m := if n < 0 then -n else n;
    var d := Digits(m);
    var u := d + tail;
    LeadingDigitsOfDigitRun(d, tail);
    assert u[..|d|] == d;
    DigitsValueOfDigits(m);
    ParseRun(u);
    assert DigitsValue(u[..LeadingDigits(u)]) == m;
    if n < 0 {
      assert Decimal(n) == "-" + d;
      Associative("-", d, tail);
    } else {
      assert Decimal(n) + tail == u;
    }
  }

  /** Solver aid: regrouping a concatenation, stated once so that the
      proofs using it stay cheap. */
  lemma Associative(a: string, b: string, c: string)
    ensures (a + b) + c == a + (b + c)
  {
  }

  /** `parseInt` reads the run of digits at the very front, or right after
      a minus sign there. */
  lemma ParseRun(u: string)
    requires u != [] && IsDigit(u[0])
    ensures LeadingDigits(u) > 0
    ensures ParseInt(u) == Some(DigitsValue(u[..LeadingDigits(u)]) as int)
    ensures ParseInt("-" + u) == Some(-(DigitsValue(u[..LeadingDigits(u)]) as int))
  {
    ParseUnsignedRun(u);
    ParseNegativeRun(u);
  }

  lemma ParseUnsignedRun(u: string)
    requires u != [] && IsDigit(u[0])
    ensures LeadingDigits(u) > 0
    ensures ParseInt(u) == Some(DigitsValue(u[..LeadingDigits(u)]) as int)
  {
    assert !IsJsWhitespace(u[0]);
    assert TrimStart(u) == u;
  }

  lemma ParseNegativeRun(u: string)
    requires u != [] && IsDigit(u[0])
    ensures LeadingDigits(u) > 0
    ensures ParseInt("-" + u) == Some(-(DigitsValue(u[..LeadingDigits(u)]) as int))
  {
    var s := "-" + u;
    assert s[0] == '-';
    assert TrimStart(s) == s;
    NegativeSigned(u);
  }

  lemma NegativeSigned(u: string)
    requires u != [] && IsDigit(u[0])
    ensures ParseSigned("-" + u) == Some(-(DigitsValue(u[..LeadingDigits(u)]) as int))
  {
    var s := "-" + u;
    assert s[0] == '-';
    DropSign(u);
  }

  /** Solver aid: dropping the sign gives back the digits. */
  lemma DropSign(u: string)
    ensures ("-" + u)[1..] == u
  {
  }

  /** The coercion inverts the decimal text of every integer. */
  lemma ParseDecimal(n: int)
    ensures ParseInt(Decimal(n)) == Some(n)
    ensures ParseIntOrZero(Decimal(n)) == n
  {
    ParseDecimalPrefix(n, "");
    assert Decimal(n) + "" == Decimal(n);
  }

  /** Input that has no digit right after its leading whitespace and
      optional sign coerces to 0, whatever follows. */
  lemma {:induction false} NoDigitsIsZero(s: string)
    requires var t := TrimStart(s);
             var u := if t != [] && (t[0] == '-' || t[0] == '+') then t[1..] else t;
             u == [] || !IsDigit(u[0])
    ensures ParseInt(s) == None && ParseIntOrZero(s) == 0
  {
  }

  /** Empty and non-numeric input fields coerce to 0. */
  lemma NonNumericIsZero()
    ensures ParseIntOrZero("") == 0
    ensures ParseIntOrZero("abc") == 0
    ensures ParseIntOrZero("-") == 0
    ensures ParseIntOrZero(" abc") == 0
  {
    assert TrimStart("") == "";
    NoDigitsIsZero("");
    assert TrimStart("abc") == "abc";
    NoDigitsIsZero("abc");
    assert TrimStart("-") == "-";
    NoDigitsIsZero("-");
    assert TrimStart(" abc") == "abc" by {
      assert " abc"[1..] == "abc";
    }
    NoDigitsIsZero(" abc");
  }

  /** A negative number passes the coercion unchanged, and a fractional or
      exponent form keeps only its integer prefix. */
  lemma NumericInputExamples()
    ensures ParseIntOrZero("-2") == -2
    ensures ParseIntOrZero("1.5") == 1
    ensures ParseIntOrZero("3e2") == 3
  {
    ExampleTexts();
    ParseDecimalPrefix(-2, "");
    ParseDecimalPrefix(1, ".5");
    ParseDecimalPrefix(3, "e2");
  }

  lemma ExampleTexts()
    ensures "-2" == Decimal(-2) + ""
    ensures "1.5" == Decimal(1) + ".5"
    ensures "3e2" == Decimal(3) + "e2"
  {
    assert Digits(2) == "2" && Digits(1) == "1" && Digits(3) == "3";
  }
}
