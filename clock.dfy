/** The `HH:MM:SS` text a task shows for its remaining seconds
    (`updateDisplay`), with JavaScript's arithmetic: `Math.floor` of a
    quotient and the truncating `%` operator. */
module Clock {

  import opened Wrappers
  import opened Coercion

  /** JavaScript's `a % b` for a positive divisor: the remainder takes the
      sign of the dividend, and is what is left after the quotient truncated
      toward zero. */
  function JsRem(a: int, b: int): (r: int)
    requires b > 0
    ensures -b < r < b
    ensures a >= 0 ==> r == a % b
    ensures a < 0 ==> r <= 0 && a == -((-a) / b) * b + r
  {
    if a >= 0 then a % b else -((-a) % b)
  }

  /** `Math.floor(r / 3600)`; Dafny's `/` by a positive divisor rounds down. */
  function Hours(r: int): int {
    r / 3600
  }

  /** `Math.floor((r % 3600) / 60)`. */
  function Minutes(r: int): int {
    JsRem(r, 3600) / 60
  }

  /** `r % 60`. */
  function Seconds(r: int): int {
    JsRem(r, 60)
  }

  /** `s.padStart(2, '0')`. */
  function Pad2(s: string): (p: string)
    ensures |p| == if |s| >= 2 then |s| else 2
    ensures p == seq(|p| - |s|, _ => '0') + s
  {
    if |s| >= 2 then s else seq(2 - |s|, _ => '0') + s
  }

  /** The timer text of a task with `r` seconds remaining. */
  function Format(r: int): string {
    Join(Hours(r), Minutes(r), Seconds(r))
  }

  /** The three fields, each padded to two characters, separated by ':'. */
  function Join(hours: int, minutes: int, seconds: int): string {
    Pad2(Decimal(hours)) + ":" + Pad2(Decimal(minutes)) + ":" + Pad2(Decimal(seconds))
  }

  /** For a non-negative count the three fields are a mixed-radix reading of
      it: minutes and seconds lie in 0..59 and recombine to `r`. */
  lemma FieldsRecompose(r: int)
    requires r >= 0
    ensures Hours(r) >= 0
    ensures 0 <= Minutes(r) < 60 && 0 <= Seconds(r) < 60
    ensures Hours(r) * 3600 + Minutes(r) * 60 + Seconds(r) == r
  {
    var q, m := r / 3600, r % 3600;
    assert r == q * 3600 + m;
    assert m == (m / 60) * 60 + m % 60;
    assert r % 60 == m % 60 by {
      assert r == (q * 60 + m / 60) * 60 + m % 60;
    }
  }

  /** The pieces of a text between the ':' separators, so that the display
      can be read back. */
  function Fields(s: string): (f: seq<string>)
    ensures |f| >= 1
  {
    if s == [] then [[]]
    else
      var rest := Fields(s[1..]);
      if s[0] == ':' then [[]] + rest else [[s[0]] + rest[0]] + rest[1..]
  }

  /** The number of seconds a `H:MM:SS` text denotes, if it has that shape. */
  function ReadClock(s: string): Option<int> {
    ReadFields(Fields(s))
  }

  function ReadFields(f: seq<string>): Option<int> {
    if |f| != 3 then None
    else
      var h, m, x := ParseInt(f[0]), ParseInt(f[1]), ParseInt(f[2]);
      if h.Some? && m.Some? && x.Some? then Some(h.value * 3600 + m.value * 60 + x.value) else None
  }

  lemma {:induction false} FieldsWithoutColon(a: string)
    requires ':' !in a
    ensures Fields(a) == [a]
  {
    if a != [] {
      FieldsWithoutColon(a[1..]);
      assert [a[0]] + a[1..] == a;
    }
  }

  lemma {:induction false} FieldsAfterField(a: string, rest: string)
    requires ':' !in a
    ensures Fields(a + ":" + rest) == [a] + Fields(rest)
  {
    if a == [] {
      assert a + ":" + rest == [':'] + rest;
      assert (a + ":" + rest)[1..] == rest;
    } else {
      assert (a + ":" + rest)[1..] == a[1..] + ":" + rest;
      FieldsAfterField(a[1..], rest);
      assert [a[0]] + a[1..] == a;
    }
  }

  /** A padded field of a non-negative count has no separator in it and
      parses back to the count. */
  lemma PaddedFieldParses(n: nat)
    ensures ':' !in Pad2(Decimal(n))
    ensures ParseInt(Pad2(Decimal(n))) == Some(n)
  {
    var d := Digits(n);
    var p := Pad2(Decimal(n));
    DigitsValueOfDigits(n);
    if |d| >= 2 {
      assert p == d;
    } else {
      assert p == "0" + d;
      DigitsValueLeadingZero(d);
    }
    assert AllDigits(p) && DigitsValue(p) == n;
    LeadingDigitsOfDigitRun(p, "");
    assert p + "" == p && p[..|p|] == p;
    ParseRun(p);
  }

  lemma ThreeFields(h: string, m: string, x: string)
    requires ':' !in h && ':' !in m && ':' !in x
    ensures Fields(h + ":" + m + ":" + x) == [h, m, x]
  {
    assert h + ":" + m + ":" + x == h + ":" + (m + ":" + x);
    FieldsAfterField(h, m + ":" + x);
    FieldsAfterField(m, x);
    FieldsWithoutColon(x);
  }

  /** Three separator-free fields that parse read as their mixed-radix
      value. */
  lemma ReadJoined(h: string, m: string, x: string, a: int, b: int, c: int)
    requires ':' !in h && ':' !in m && ':' !in x
    requires ParseInt(h) == Some(a) && ParseInt(m) == Some(b) && ParseInt(x) == Some(c)
    ensures ReadClock(h + ":" + m + ":" + x) == Some(a * 3600 + b * 60 + c)
  {
    ThreeFields(h, m, x);
    ReadThree(h, m, x, a, b, c);
  }

  lemma ReadThree(h: string, m: string, x: string, a: int, b: int, c: int)
    requires ParseInt(h) == Some(a) && ParseInt(m) == Some(b) && ParseInt(x) == Some(c)
    ensures ReadFields([h, m, x]) == Some(a * 3600 + b * 60 + c)
  {
    var f := [h, m, x];
    assert f[0] == h && f[1] == m && f[2] == x;
  }

  /** Three padded non-negative fields read back as their mixed-radix
      value. */
  lemma ReadJoinedFields(hours: nat, minutes: nat, seconds: nat)
    ensures ReadClock(Join(hours, minutes, seconds)) == Some(hours * 3600 + minutes * 60 + seconds)
  {
    PaddedFieldParses(hours);
    PaddedFieldParses(minutes);
    PaddedFieldParses(seconds);
    ReadJoined(Pad2(Decimal(hours)), Pad2(Decimal(minutes)), Pad2(Decimal(seconds)),
               hours, minutes, seconds);
  }

  /** Reading the display of a non-negative count gives the count back. */
  lemma ClockRoundTrip(r: int)
    requires r >= 0
    ensures ReadClock(Format(r)) == Some(r)
  {
    FieldsRecompose(r);
    var h, m, x := Hours(r), Minutes(r), Seconds(r);
    ReadJoinedFields(h, m, x);
    var v := ReadClock(Format(r));
    assert v == Some(h * 3600 + m * 60 + x);
    assert v.value == r;
  }

  /** A negative count, which the source does not rule out, shows every
      field negative: -1 second reads "-1:-1:-1". */
  lemma NegativeDisplay()
    ensures Format(-1) == "-1:-1:-1"
    ensures ReadClock(Format(-1)) == Some(-3661)
  {
    var t := "-1" + ":" + "-1" + ":" + "-1";
    NegativeFields();
    NegativeText();
    ParseMinusOne();
    ReadJoined("-1", "-1", "-1", -1, -1, -1);
    var v := ReadClock(t);
    assert v.value == -3661;
  }

  lemma ParseMinusOne()
    ensures ParseInt("-1") == Some(-1)
  {
    NegativeFields();
    ParseDecimal(-1);
  }

  lemma NegativeFields()
    ensures Decimal(-1) == "-1"
    ensures Format(-1) == "-1" + ":" + "-1" + ":" + "-1"
  {
    assert Hours(-1) == -1 && Minutes(-1) == -1 && Seconds(-1) == -1;
    assert Digits(1) == "1";
    assert Pad2("-1") == "-1";
  }

  /** Solver aid: the joined text of three "-1" fields, character by
      character. */
  lemma NegativeText()
    ensures "-1" + ":" + "-1" + ":" + "-1" == "-1:-1:-1"
  {
    var t := "-1" + ":" + "-1" + ":" + "-1";
    assert |t| == 8;
    assert t[0] == '-' && t[1] == '1' && t[2] == ':' && t[3] == '-';
    assert t[4] == '1' && t[5] == ':' && t[6] == '-' && t[7] == '1';
  }
}
