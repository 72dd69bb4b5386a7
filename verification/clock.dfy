/**
 The `tiempo` formatter: a count of seconds rendered as `HH:MM:SS`, written
 with the JavaScript operations it is built from (`Math.floor` of a quotient,
 the truncating `%`, `Number#toString` on integers and `String#padStart`),
 and a reader that turns such a text back into seconds.
 */
module Clock {
  import opened Wrappers

  /** JavaScript's `%` on integers: the remainder takes the sign of the dividend. */
  function JsRem(a: int, b: int): (r: int)
    requires b > 0
    ensures a >= 0 ==> 0 <= r < b
    ensures a < 0 ==> -b < r <= 0
    ensures (a - r) % b == 0
  {
    var r := if a >= 0 then a % b else -((-a) % b);
    assert (a - r) % b == 0 by {
      var q := if a >= 0 then a / b else -((-a) / b);
      assert a - r == q * b;
      MultipleRem(q, b);
    }
    r
  }

  /** A multiple of `b` leaves no remainder. */
  lemma MultipleRem(q: int, b: int)
    requires b > 0
    ensures (q * b) % b == 0
  {
    var x := q * b;
    var k := q - x / b;
    assert k * b == x % b;
  }

  /** `Math.floor(a / b)`; for a positive divisor Dafny's `/` already floors. */
  function FloorDiv(a: int, b: int): (q: int)
    requires b > 0
    ensures q * b <= a < q * b + b
  {
    a / b
  }

  /** The three fields `tiempo` computes before printing them. */
  function Hours(s: int): (h: int) { FloorDiv(s, 3600) }
  function Minutes(s: int): (m: int) { FloorDiv(JsRem(s, 3600), 60) }
  function Seconds(s: int): (x: int) { JsRem(s, 60) }

  /** For a non-negative count the fields split it exactly, minutes and seconds below 60. */
  lemma Decompose(s: int)
    requires s >= 0
    ensures Hours(s) >= 0
    ensures 0 <= Minutes(s) < 60
    ensures 0 <= Seconds(s) < 60
    ensures Hours(s) * 3600 + Minutes(s) * 60 + Seconds(s) == s
  {
  }

  /** Conversely, any split with minutes and seconds below 60 is the one `tiempo` prints. */
  lemma DecomposeUnique(s: int, h: int, m: int, x: int)
    requires 0 <= m < 60 && 0 <= x < 60
    requires h * 3600 + m * 60 + x == s
    requires s >= 0
    ensures h == Hours(s) && m == Minutes(s) && x == Seconds(s)
  {
  }

  predicate IsDigit(c: char) { '0' <= c <= '9' }

  predicate AllDigits(t: string) { forall i :: 0 <= i < |t| ==> IsDigit(t[i]) }

  function DigitChar(d: int): (c: char)
    requires 0 <= d < 10
    ensures IsDigit(c)
  {
    ('0' as int + d) as char
  }

  function DigitValue(c: char): (d: int)
    requires IsDigit(c)
    ensures 0 <= d < 10
  {
    c as int - '0' as int
  }

  /** The decimal value of a digit string, read from its last digit. */
  function ValueOf(t: string): (v: nat)
    requires AllDigits(t)
  {
    if |t| == 0 then 0 else ValueOf(t[..|t| - 1]) * 10 + DigitValue(t[|t| - 1])
  }

  /**
   `Number#toString` on a non-negative integer: decimal digits, no leading
   zero. JavaScript prints this form below 10^21 only; larger numbers are
   not modelled.
   */
  function NatToString(n: nat): (t: string)
    ensures |t| >= 1 && AllDigits(t)
    ensures n > 0 ==> t[0] != '0'
    ensures n < 10 ==> |t| == 1
    ensures n < 100 ==> |t| <= 2
    ensures n >= 10 ==> |t| >= 2
    decreases n
  {
    if n < 10 then [DigitChar(n)] else NatToString(n / 10) + [DigitChar(n % 10)]
  }

  lemma {:induction false} NatToStringValue(n: nat)
    ensures ValueOf(NatToString(n)) == n
    decreases n
  {
    if n >= 10 {
      var t := NatToString(n);
      NatToStringValue(n / 10);
      assert t[..|t| - 1] == NatToString(n / 10);
    }
  }

  /** `Number#toString` on any integer: a minus sign before the digits of a negative one. */
  function IntToString(n: int): (t: string)
    ensures |t| >= 1
    ensures n >= 0 ==> AllDigits(t) && ValueOf(t) == n
    ensures 0 <= n < 10 ==> |t| == 1
    ensures 0 <= n < 100 ==> |t| <= 2
    ensures n < 0 ==> |t| >= 2 && t[0] == '-' && AllDigits(t[1..]) && ValueOf(t[1..]) == -n
    ensures n > 0 ==> t[0] != '0'
    ensures n >= 10 ==> |t| >= 2
    ensures n < 0 ==> t[1] != '0'
  {
    NatToStringValue(if n < 0 then -n else n);
    if n < 0 then
      var t := "-" + NatToString(-n);
      assert t[1..] == NatToString(-n);
      t
    else NatToString(n)
  }

  /** `String#padStart(width, fill)`: prefix copies of `fill` up to `width` characters. */
  function PadStart(t: string, width: nat, fill: char): (r: string)
    ensures |r| == if |t| >= width then |t| else width
    ensures r[|r| - |t|..] == t
    ensures forall i :: 0 <= i < |r| - |t| ==> r[i] == fill
  {
    if |t| >= width then t else seq(width - |t|, _ => fill) + t
  }

  /**
   One field of the clock text: `n.toString().padStart(2, '0')`. A field of a
   non-negative value is its digits, with one leading zero below 10 and none
   from 10 on; a negative value is printed unpadded with its minus sign.
   */
  function Field(n: int): (t: string)
    ensures |t| >= 2
    ensures n >= 0 ==> AllDigits(t) && ValueOf(t) == n
    ensures 0 <= n < 100 ==> |t| == 2
    ensures n < 0 ==> t[0] == '-' && AllDigits(t[1..]) && ValueOf(t[1..]) == -n
    ensures 0 <= n < 10 ==> t[0] == '0'
    ensures n >= 10 ==> t[0] != '0'
    ensures n < 0 ==> t[1] != '0'
  {
    var d := IntToString(n);
    PadTwo(d);
    PadStart(d, 2, '0')
  }

  /** Padding to width 2 with `'0'`: a wide text is kept, a one-character text gets one zero, and digits keep their value. */
  lemma PadTwo(d: string)
    ensures |d| >= 2 ==> PadStart(d, 2, '0') == d
    ensures |d| == 1 ==> PadStart(d, 2, '0') == ['0'] + d
    ensures AllDigits(d) ==> AllDigits(PadStart(d, 2, '0')) && ValueOf(PadStart(d, 2, '0')) == ValueOf(d)
  {
    var t := PadStart(d, 2, '0');
    if AllDigits(d) {
      var z := t[..|t| - |d|];
      assert t == z + d;
      LeadingZeros(z, d);
    }
  }

  /** `tiempo(segundos)`. Hours are not wrapped at 24. */
  function FormatTime(s: int): (r: string)
    ensures |r| >= 8
  {
    Field(Hours(s)) + ":" + Field(Minutes(s)) + ":" + Field(Seconds(s))
  }

  /** The digit string as a number, or `None` when it is empty or holds a non-digit. */
  function ParseNat(t: string): (r: Option<nat>)
    ensures r.Some? <==> |t| > 0 && AllDigits(t)
  {
    if |t| > 0 && AllDigits(t) then Some(ValueOf(t)) else None
  }

  /** Combines the three read fields; `None` when one is missing or out of range. */
  function CombineFields(h: Option<nat>, m: Option<nat>, x: Option<nat>): (r: Option<int>)
    ensures r.Some? ==> r.value >= 0
  {
    if h.Some? && m.Some? && x.Some? && m.value < 60 && x.value < 60
    then Some(h.value * 3600 + m.value * 60 + x.value)
    else None
  }

  /** Reads `H…H:MM:SS` back into seconds; `None` for any other shape. */
  function ParseClock(t: string): (r: Option<int>)
    ensures r.Some? ==> r.value >= 0
  {
    var n := |t|;
    if n < 7 || t[n - 6] != ':' || t[n - 3] != ':' then None
    else CombineFields(ParseNat(t[..n - 6]), ParseNat(t[n - 5..n - 3]), ParseNat(t[n - 2..]))
  }

  lemma {:induction false} ZerosValue(z: string)
    requires forall i :: 0 <= i < |z| ==> z[i] == '0'
    ensures AllDigits(z) && ValueOf(z) == 0
  {
    if |z| > 0 {
      ZerosValue(z[..|z| - 1]);
    }
  }

  /** Leading zeros do not change a digit string's value. */
  lemma {:induction false} LeadingZeros(z: string, t: string)
    requires forall i :: 0 <= i < |z| ==> z[i] == '0'
    requires AllDigits(t)
    ensures AllDigits(z + t) && ValueOf(z + t) == ValueOf(t)
    decreases |t|
  {
    if |t| == 0 {
      assert z + t == z;
      ZerosValue(z);
    } else {
      var u := t[..|t| - 1];
      LeadingZeros(z, u);
      assert (z + t)[..|z + t| - 1] == z + u;
    }
  }

  /** A text of the shape `H…H:MM:SS` whose minutes and seconds are below 60 reads back as their total. */
  lemma ParseClockShape(h: string, m: string, x: string)
    requires |h| >= 1 && |m| == 2 && |x| == 2
    requires AllDigits(h) && AllDigits(m) && AllDigits(x)
    requires ValueOf(m) < 60 && ValueOf(x) < 60
    ensures var r := ParseClock(h + ":" + m + ":" + x);
      r.Some? && r.value == ValueOf(h) * 3600 + ValueOf(m) * 60 + ValueOf(x)
  {
    ParseClockSplits(h, m, x);
    var vh, vm, vx := ValueOf(h), ValueOf(m), ValueOf(x);
    CombineDigits(vh, vm, vx);
  }

  lemma CombineDigits(h: nat, m: nat, x: nat)
    requires m < 60 && x < 60
    ensures CombineFields(Some(h), Some(m), Some(x)) == Some(h * 3600 + m * 60 + x)
  {
  }

  lemma ParseClockSplits(h: string, m: string, x: string)
    requires |h| >= 1 && |m| == 2 && |x| == 2
    requires AllDigits(h) && AllDigits(m) && AllDigits(x)
    ensures ParseClock(h + ":" + m + ":" + x) == CombineFields(Some(ValueOf(h)), Some(ValueOf(m)), Some(ValueOf(x)))
  {
    ClockSlices(h, m, x);
  }

  lemma ClockSlices(h: string, m: string, x: string)
    requires |h| >= 1 && |m| == 2 && |x| == 2
    ensures var t, n := h + ":" + m + ":" + x, |h| + 6;
      |t| == n && t[n - 6] == ':' && t[n - 3] == ':' &&
      t[..n - 6] == h && t[n - 5..n - 3] == m && t[n - 2..] == x
  {
    var t, n := h + ":" + m + ":" + x, |h| + 6;
    assert t[..n - 6] == h;
    assert t[n - 5..n - 3] == m;
    assert t[n - 2..] == x;
  }

  /** Parsing what `tiempo` prints recovers the seconds. */
  lemma FormatTimeRoundTrip(s: int)
    requires s >= 0
    ensures ParseClock(FormatTime(s)).Some? && ParseClock(FormatTime(s)).value == s
  {
    FieldsReadBack(s);
  }

  /** The three printed fields, joined with ':', read back as s. */
  lemma FieldsReadBack(s: int)
    requires s >= 0
    ensures var r := ParseClock(Field(Hours(s)) + ":" + Field(Minutes(s)) + ":" + Field(Seconds(s)));
      r.Some? && r.value == s
  {
    ClockFields(s);
    ParseClockShape(Field(Hours(s)), Field(Minutes(s)), Field(Seconds(s)));
  }

  /** For s ≥ 0 the three printed fields have the shape `ParseClock` reads and add back to s. */
  lemma ClockFields(s: int)
    requires s >= 0
    ensures var h, m, x := Field(Hours(s)), Field(Minutes(s)), Field(Seconds(s));
      && |h| >= 1 && |m| == 2 && |x| == 2
      && AllDigits(h) && AllDigits(m) && AllDigits(x)
      && ValueOf(m) < 60 && ValueOf(x) < 60
      && ValueOf(h) * 3600 + ValueOf(m) * 60 + ValueOf(x) == s
  {
    Decompose(s);
  }

  /** Two non-negative counts print the same text only if they are equal. */
  lemma FormatTimeInjective(s: int, s': int)
    requires s >= 0 && s' >= 0
    ensures FormatTime(s) == FormatTime(s') ==> s == s'
  {
    FormatTimeRoundTrip(s);
    FormatTimeRoundTrip(s');
  }

  lemma FieldOneDigit(d: int)
    requires 0 <= d < 10
    ensures Field(d) == ['0', DigitChar(d)]
  {
    assert IntToString(d) == [DigitChar(d)];
    var f := Field(d);
    assert |f| == 2 && f[0] == '0' && f[1] == DigitChar(d);
  }

  lemma FieldTwoDigits(n: int)
    requires 10 <= n < 100
    ensures Field(n) == [DigitChar(n / 10), DigitChar(n % 10)]
  {
    assert NatToString(n / 10) == [DigitChar(n / 10)];
    assert IntToString(n) == [DigitChar(n / 10), DigitChar(n % 10)];
  }

  lemma FormatTimeExampleOneHour()
    ensures FormatTime(3661) == "01:01:01"
  {
    assert Hours(3661) == 1 && Minutes(3661) == 1 && Seconds(3661) == 1;
    FieldOneDigit(1);
  }

  lemma FormatTimeExampleUnwrapped()
    ensures FormatTime(90000) == "25:00:00"
  {
    assert Hours(90000) == 25 && Minutes(90000) == 0 && Seconds(90000) == 0;
    FieldOneDigit(0);
    FieldTwoDigits(25);
    assert DigitChar(2) == '2' && DigitChar(5) == '5' && DigitChar(0) == '0';
  }

  /** Hours of three digits are printed as they are, without a leading zero. */
  lemma FormatTimeExampleHundredHours()
    ensures FormatTime(360000) == "100:00:00"
  {
    assert Hours(360000) == 100 && Minutes(360000) == 0 && Seconds(360000) == 0;
    FieldOneDigit(0);
    assert NatToString(1) == ['1'];
    assert NatToString(10) == ['1', '0'];
    assert NatToString(100) == ['1', '0', '0'];
    PadTwo(IntToString(100));
  }
}
