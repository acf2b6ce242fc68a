/** `Integer.parseInt` and `Integer.toString` on 32-bit Java ints. Digits are
  * those of `Character.digit`: the ASCII ones and every other decimal digit of
  * the Basic Multilingual Plane. */
module JavaIntegers {
  import opened Wrappers

  const MinInt: int := -0x8000_0000
  const MaxInt: int := 0x7FFF_FFFF

  /** `n` is one of the ten code points of the digit run starting at `zero`. */
  predicate InRun(n: int, zero: int)
  {
    zero <= n < zero + 10
  }

  /** The zero digit of the decimal-digit run (general category Nd, Unicode 15)
    * of the Basic Multilingual Plane after ASCII that holds `c`, or -1 when
    * there is none. A Java `char` beyond this plane is half of a surrogate
    * pair and never a digit. */
  function OtherRunZero(c: char): (zero: int)
    ensures zero >= 0 ==> 0x0660 <= zero && InRun(c as int, zero)
  {
    var n := c as int;
    if n < 0x0660 then -1
    else if InRun(n, 0x0660) then 0x0660
    else if InRun(n, 0x06F0) then 0x06F0
    else if InRun(n, 0x07C0) then 0x07C0
    else if InRun(n, 0x0966) then 0x0966
    else if InRun(n, 0x09E6) then 0x09E6
    else if InRun(n, 0x0A66) then 0x0A66
    else if InRun(n, 0x0AE6) then 0x0AE6
    else if InRun(n, 0x0B66) then 0x0B66
    else if InRun(n, 0x0BE6) then 0x0BE6
    else if InRun(n, 0x0C66) then 0x0C66
    else if InRun(n, 0x0CE6) then 0x0CE6
    else if InRun(n, 0x0D66) then 0x0D66
    else if InRun(n, 0x0DE6) then 0x0DE6
    else if InRun(n, 0x0E50) then 0x0E50
    else if InRun(n, 0x0ED0) then 0x0ED0
    else if InRun(n, 0x0F20) then 0x0F20
    else if InRun(n, 0x1040) then 0x1040
    else if InRun(n, 0x1090) then 0x1090
    else if InRun(n, 0x17E0) then 0x17E0
    else if InRun(n, 0x1810) then 0x1810
    else if InRun(n, 0x1946) then 0x1946
    else if InRun(n, 0x19D0) then 0x19D0
    else if InRun(n, 0x1A80) then 0x1A80
    else if InRun(n, 0x1A90) then 0x1A90
    else if InRun(n, 0x1B50) then 0x1B50
    else if InRun(n, 0x1BB0) then 0x1BB0
    else if InRun(n, 0x1C40) then 0x1C40
    else if InRun(n, 0x1C50) then 0x1C50
    else if InRun(n, 0xA620) then 0xA620
    else if InRun(n, 0xA8D0) then 0xA8D0
    else if InRun(n, 0xA900) then 0xA900
    else if InRun(n, 0xA9D0) then 0xA9D0
    else if InRun(n, 0xA9F0) then 0xA9F0
    else if InRun(n, 0xAA50) then 0xAA50
    else if InRun(n, 0xABF0) then 0xABF0
    else if InRun(n, 0xFF10) then 0xFF10
    else -1
  }

  /** `Character.digit(c, 10)`: the ASCII digits and the other decimal digits
    * of the plane, each worth its distance from the zero of its run. */
  function DecimalDigit(c: char): (r: Option<nat>)
    ensures r.Some? ==> r.value < 10 && c >= '0'
    ensures '0' <= c <= '9' ==> r == Some(c as int - '0' as int)
    ensures !('0' <= c <= '9') && c as int < 0x0660 ==> r.None?
  {
    if '0' <= c <= '9' then Some(c as int - '0' as int)
    else
      var zero := OtherRunZero(c);
      if zero < 0 then None else Some(c as int - zero)
  }

  predicate IsDigit(c: char)
  {
    DecimalDigit(c).Some?
  }

  predicate IsAsciiDigit(c: char)
  {
    '0' <= c <= '9'
  }

  /** The ASCII digits are the first run of decimal digits. */
  lemma AsciiDigitsAreDigits(s: string)
    requires forall i :: 0 <= i < |s| ==> IsAsciiDigit(s[i])
    ensures AllDigits(s)
  {
  }

  predicate AllDigits(s: string)
  {
    forall i :: 0 <= i < |s| ==> IsDigit(s[i])
  }

  function DigitValue(c: char): (d: nat)
    requires IsDigit(c)
    ensures d < 10
  {
    DecimalDigit(c).value
  }

  function DigitChar(d: nat): (c: char)
    requires d < 10
    ensures IsAsciiDigit(c) && DecimalDigit(c) == Some(d)
  {
    ('0' as int + d) as char
  }

  /** The value of a string of decimal digits, most significant digit first. */
  function DigitsValue(s: string): nat
    requires AllDigits(s)
    decreases |s|
  {
    if s == [] then 0 else DigitsValue(s[..|s| - 1]) * 10 + DigitValue(s[|s| - 1])
  }

  /** `Integer.parseInt(s)`: an optional `-` or `+`, then at least one digit,
    * and a value inside the int range; `None` stands for the
    * `NumberFormatException` thrown otherwise. */
  function ParseInt(s: string): (r: Option<int>)
    ensures r.Some? ==> MinInt <= r.value <= MaxInt
    ensures r.Some? ==> s != [] && (s[0] == '-' || s[0] == '+' || IsDigit(s[0]))
    ensures r.Some? && s[0] != '-' ==> r.value >= 0
  {
    if s == [] then None
    else
      var digits := if s[0] == '-' || s[0] == '+' then s[1..] else s;
      if digits == [] || !AllDigits(digits) then None
      else
        var magnitude: int := DigitsValue(digits);
        var v := if s[0] == '-' then -magnitude else magnitude;
        if MinInt <= v <= MaxInt then Some(v) else None
  }

  /** Digits alone, of any script, parse to the number they spell. */
  lemma ParseIntDigits(digits: string)
    requires digits != [] && AllDigits(digits) && DigitsValue(digits) <= MaxInt
    ensures ParseInt(digits) == Some(DigitsValue(digits))
  {
    assert digits[0] >= '0';
  }

  /** Digits of other scripts: ARABIC-INDIC DIGIT ONE, and FULLWIDTH DIGIT
    * FOUR followed by FULLWIDTH DIGIT TWO. */
  lemma OtherScriptDigits()
    ensures ParseInt("\U{0661}") == Some(1)
    ensures ParseInt("\U{FF14}\U{FF12}") == Some(42)
    ensures ParseInt("-\U{0967}\U{0966}") == Some(-10)
  {
    var s := "\U{FF14}\U{FF12}";
    assert AllDigits(s) && s[..1] == "\U{FF14}" && DigitsValue(s) == 42;
    var d := "-\U{0967}\U{0966}"[1..];
    assert d == "\U{0967}\U{0966}";
    assert AllDigits(d) && d[..1] == "\U{0967}" && DigitsValue(d) == 10;
  }

  /** `"" + n` for a non-negative int: its decimal digits, without leading
    * zeros. */
  function NatToString(n: nat): (r: string)
    ensures r != [] && forall i :: 0 <= i < |r| ==> IsAsciiDigit(r[i])
    ensures |r| > 1 ==> r[0] != '0'
    decreases n
  {
    if n < 10 then [DigitChar(n)] else NatToString(n / 10) + [DigitChar(n % 10)]
  }

  /** The digits written by `NatToString` read back as the same number. */
  lemma {:induction false} DigitsOfNatToString(n: nat)
    ensures AllDigits(NatToString(n))
    ensures DigitsValue(NatToString(n)) == n
    decreases n
  {
    var r := NatToString(n);
    AsciiDigitsAreDigits(r);
    if n >= 10 {
      DigitsOfNatToString(n / 10);
      assert r[..|r| - 1] == NatToString(n / 10);
    }
  }

  /** A length written with `"" + n` is parsed back by `Integer.parseInt`. */
  lemma ParseIntNatToString(n: nat)
    requires n <= MaxInt
    ensures ParseInt(NatToString(n)) == Some(n)
  {
    DigitsOfNatToString(n);
  }
}
