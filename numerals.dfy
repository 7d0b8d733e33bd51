/** Decimal integer literals as strconv.Atoi reads the id path parameter: an
    optional sign followed by one or more ASCII digits, within the signed
    64-bit range. The join reuses this reading for SQLite's integer affinity,
    which also accepts texts Atoi refuses; see Queries.Joins. */
module Numerals {
  import opened Types

  const MinInt64: int := -0x8000_0000_0000_0000
  const MaxInt64: int := 0x7FFF_FFFF_FFFF_FFFF

  predicate IsDigit(c: char) {
    '0' <= c <= '9'
  }

  predicate AllDigits(s: string) {
    forall k :: 0 <= k < |s| ==> IsDigit(s[k])
  }

  /** The value of a string of digits, most significant first. */
  function DigitsValue(s: string): nat
    requires AllDigits(s)
  {
    if s == [] then 0
    else 10 * DigitsValue(s[..|s| - 1]) + (s[|s| - 1] as int - '0' as int)
  }

  /** An optional sign followed by at least one digit. */
  predicate IsIntegerLiteral(s: string) {
    && |s| > 0
    && (IsDigit(s[0]) || ((s[0] == '+' || s[0] == '-') && |s| > 1))
    && forall k :: 1 <= k < |s| ==> IsDigit(s[k])
  }

  /** The unbounded value of `[+-]?[0-9]+`, or None for any other string. */
  function ParseDecimal(s: string): (r: Option<int>)
    ensures r.Some? <==> IsIntegerLiteral(s)
  {
    var signed := |s| > 0 && (s[0] == '+' || s[0] == '-');
    var body := if signed then s[1..] else s;
    if body == [] || !AllDigits(body) then None
    else
      var magnitude: int := DigitsValue(body);
      Some(if signed && s[0] == '-' then -magnitude else magnitude)
  }

  /** strconv.Atoi on a 64-bit platform: base 10, no underscores, no prefix,
      an error when the value does not fit in an int. */
  function ParseInt64(s: string): (r: Option<int>)
    ensures r.Some? ==> MinInt64 <= r.value <= MaxInt64 && ParseDecimal(s) == r
    ensures ParseDecimal(s).Some? && MinInt64 <= ParseDecimal(s).value <= MaxInt64 ==> r == ParseDecimal(s)
  {
    match ParseDecimal(s)
    case None => None
    case Some(n) => if MinInt64 <= n <= MaxInt64 then Some(n) else None
  }

  /** The shortest decimal digits of `n`. */
  function Digits(n: nat): (s: string)
    ensures s != [] && AllDigits(s) && DigitsValue(s) == n
  {
    if n < 10 then [('0' as int + n) as char]
    else
      var s := Digits(n / 10) + [('0' as int + n % 10) as char];
      assert s[..|s| - 1] == Digits(n / 10);
      s
  }

  /** The decimal rendering of `n`, as strconv.Itoa writes it. */
  function Decimal(n: int): string {
    if n < 0 then "-" + Digits(-n) else Digits(n)
  }

  /** Parsing a rendered integer gives the integer back. */
  lemma DecimalRoundTrip(n: int)
    ensures ParseDecimal(Decimal(n)) == Some(n)
  {
    var s := Decimal(n);
    if n < 0 {
      assert s[0] == '-' && s[1..] == Digits(-n);
    } else {
      assert IsDigit(s[0]);
    }
  }

  /** Every int64 written in decimal is read back by strconv.Atoi. */
  lemma ParseInt64Decimal(n: int)
    requires MinInt64 <= n <= MaxInt64
    ensures ParseInt64(Decimal(n)) == Some(n)
  {
    DecimalRoundTrip(n);
  }

  /** A leading zero does not change the value of a digit string. */
  lemma {:induction false} DigitsValueLeadingZero(t: string)
    requires AllDigits(t)
    ensures AllDigits("0" + t) && DigitsValue("0" + t) == DigitsValue(t)
    decreases |t|
  {
    if t != [] {
      var z := "0" + t;
      assert z[..|z| - 1] == "0" + t[..|t| - 1];
      DigitsValueLeadingZero(t[..|t| - 1]);
    }
  }

  /** A digit string reads as its digits' value. */
  lemma DigitsParse(t: string)
    requires t != [] && AllDigits(t)
    ensures ParseDecimal(t) == Some(DigitsValue(t))
  {
    assert IsDigit(t[0]);
  }

  /** A '+' sign does not change the value. */
  lemma PlusSign(t: string)
    requires t != [] && AllDigits(t)
    ensures ParseDecimal("+" + t) == ParseDecimal(t)
  {
    assert ("+" + t)[1..] == t;
    DigitsParse(t);
  }

  /** A '-' sign negates the value. */
  lemma MinusSign(t: string)
    requires t != [] && AllDigits(t)
    ensures ParseDecimal("-" + t) == Some(-ParseDecimal(t).value)
  {
    assert ("-" + t)[1..] == t;
    DigitsParse(t);
  }

  /** Leading zeros do not change the value: with the signs above and
      DecimalRoundTrip this fixes the value of every literal (`+5`, `007`,
      `-0`). */
  lemma LeadingZero(t: string)
    requires t != [] && AllDigits(t)
    ensures ParseDecimal("0" + t) == ParseDecimal(t)
  {
    DigitsValueLeadingZero(t);
    DigitsParse(t);
    DigitsParse("0" + t);
  }
}
