/**
 * The decimal conversions the speechlet relies on: `Integer.parseInt` (a slot's
 * text to an `int`) and `Integer.toString` (an answer to the text that is
 * spoken), following their documented rules for radix 10.
 */
module JavaDecimal {
  import opened Outcomes
  import opened JavaInt

  predicate IsDigit(c: char) {
    '0' <= c <= '9'
  }

  predicate AllDigits(s: string) {
    forall i :: 0 <= i < |s| ==> IsDigit(s[i])
  }

  function DigitValue(c: char): (d: nat)
    requires IsDigit(c)
    ensures d < 10
  {
    (c as int) - ('0' as int)
  }

  function DigitChar(d: nat): (c: char)
    requires d < 10
    ensures IsDigit(c) && DigitValue(c) == d
  {
    (('0' as int) + d) as char
  }

  /** The number a run of decimal digits denotes, most significant digit first. */
  function DigitsValue(s: string): nat
    requires AllDigits(s)
  {
    if s == [] then 0 else DigitsValue(s[..|s| - 1]) * 10 + DigitValue(s[|s| - 1])
  }

  /** The shortest decimal digits of n: "0" for zero, otherwise no leading zero. */
  function Digits(n: nat): (s: string)
    ensures |s| > 0 && AllDigits(s)
    ensures n == 0 ==> s == "0"
    ensures n > 0 ==> s[0] != '0'
  {
    if n < 10 then [DigitChar(n)] else Digits(n / 10) + [DigitChar(n % 10)]
  }

  /** The optional leading sign of a slot's text. */
  predicate HasSign(t: string) {
    |t| > 0 && (t[0] == '-' || t[0] == '+')
  }

  /** The text after the optional sign. */
  function Unsigned(t: string): string {
    if HasSign(t) then t[1..] else t
  }

  /** What `Integer.parseInt` accepts before its range check: a sign or none, then at least one digit. */
  predicate IsDecimalLiteral(t: string) {
    |Unsigned(t)| > 0 && AllDigits(Unsigned(t))
  }

  /** The text `Integer.toString` produces: no '+', no leading zero, no "-0". */
  predicate IsCanonical(t: string) {
    IsDecimalLiteral(t) && (|t| > 0 && t[0] != '+')
    && (Unsigned(t)[0] != '0' || Unsigned(t) == "0") && t != "-0"
  }

  /**
   * `Integer.parseInt(s)`: NumberFormatException for null, for the empty text, for a
   * lone sign, for any non-digit after the sign, and for a value outside `int`.
   */
  function ParseInt(s: Option<string>): (r: Result<Int32>)
    ensures r.Failure? ==> r.error == NumberFormatException
    ensures r.Success? ==> s.Some? && IsDecimalLiteral(s.value)
    ensures r.Success? ==> (r.value < 0 ==> s.value[0] == '-')
  {
    match s
    case None => Failure(NumberFormatException)
    case Some(t) =>
      if !IsDecimalLiteral(t) then Failure(NumberFormatException)
      else
        var magnitude: int := DigitsValue(Unsigned(t));
        var v := if t[0] == '-' then -magnitude else magnitude;
        if InRange(v) then Success(v) else Failure(NumberFormatException)
  }

  /** `Integer.toString(x)`: a minus sign for a negative value, then the shortest digits of its magnitude. */
  function ToString(x: Int32): (s: string)
    ensures IsCanonical(s)
    ensures (s[0] == '-') <==> x < 0
  {
    if x < 0 then "-" + Digits(-(x as int)) else Digits(x)
  }

  lemma {:induction false} DigitsValueOfDigits(n: nat)
    ensures DigitsValue(Digits(n)) == n
  {
    if n >= 10 {
      var s := Digits(n);
      assert s[..|s| - 1] == Digits(n / 10);
      DigitsValueOfDigits(n / 10);
    }
  }

  /** A digit run without a leading zero denotes a positive number. */
  lemma {:induction false} DigitsValuePositive(s: string)
    requires |s| > 0 && AllDigits(s) && s[0] != '0'
    ensures DigitsValue(s) > 0
  {
    if |s| > 1 {
      DigitsValuePositive(s[..|s| - 1]);
    }
  }

  lemma {:induction false} DigitsOfDigitsValue(s: string)
    requires |s| > 0 && AllDigits(s) && (s[0] != '0' || s == "0")
    ensures Digits(DigitsValue(s)) == s
  {
    var p, c := s[..|s| - 1], s[|s| - 1];
    if p != [] {
      DigitsValuePositive(p);
      DigitsOfDigitsValue(p);
      assert s == p + [c];
    }
  }

  /** Parsing the text of any `int` gives that `int` back. */
  lemma ParseToString(x: Int32)
    ensures ParseInt(Some(ToString(x))) == Success(x)
  {
    var s := ToString(x);
    if x < 0 {
      assert Unsigned(s) == Digits(-(x as int));
      DigitsValueOfDigits(-(x as int));
    } else {
      assert Unsigned(s) == Digits(x);
      DigitsValueOfDigits(x);
    }
  }

  /** Conversely, a canonical text that parses is the text of the value it parses to. */
  lemma ToStringParse(t: string, x: Int32)
    requires IsCanonical(t) && ParseInt(Some(t)) == Success(x)
    ensures ToString(x) == t
  {
    var u := Unsigned(t);
    DigitsOfDigitsValue(u);
    if t[0] == '-' {
      DigitsValuePositive(u);
      assert t == "-" + u;
    }
  }

  /** The signed value a decimal literal denotes, before any range check. */
  function LiteralValue(t: string): int
    requires IsDecimalLiteral(t)
  {
    (if t[0] == '-' then -1 else 1) * DigitsValue(Unsigned(t))
  }

  /** Every literal whose value fits an `int` parses to that value, whatever its sign or leading zeros. */
  lemma ParseAcceptsInRange(t: string)
    requires IsDecimalLiteral(t) && InRange(LiteralValue(t))
    ensures ParseInt(Some(t)) == Success(LiteralValue(t))
  {
  }

  /** Every literal whose value does not fit an `int` raises NumberFormatException. */
  lemma ParseRejectsOutOfRange(t: string)
    requires IsDecimalLiteral(t) && !InRange(LiteralValue(t))
    ensures ParseInt(Some(t)) == Failure(NumberFormatException)
  {
  }

  /** Different `int`s are spoken differently. */
  lemma ToStringInjective(x: Int32, y: Int32)
    requires ToString(x) == ToString(y)
    ensures x == y
  {
    ParseToString(x);
    ParseToString(y);
  }

  lemma ParseExamples()
    ensures ParseInt(Some("42")) == Success(42)
    ensures ParseInt(Some("+7")) == Success(7)
    ensures ParseInt(Some("-007")) == Success(-7)
    ensures ParseInt(Some("notanumber")) == Failure(NumberFormatException)
    ensures ParseInt(Some("-")) == Failure(NumberFormatException)
    ensures ParseInt(Some("")) == Failure(NumberFormatException)
    ensures ParseInt(Some("1.5")) == Failure(NumberFormatException)
    ensures ParseInt(None) == Failure(NumberFormatException)
  {
    assert DigitsValue("42") == 42 by {
      assert "42"[..1] == "4";
    }
    assert Unsigned("-007") == "007";
    assert DigitsValue("007") == 7 by {
      assert "007"[..2] == "00" && "00"[..1] == "0";
    }
  }

  /** The range check sits exactly at the `int` bounds. */
  lemma ParseRangeExamples()
    ensures ParseInt(Some("2147483648")) == Failure(NumberFormatException)
    ensures ParseInt(Some("-2147483648")) == Success(MinValue)
  {
    assert DigitsValue("2") == 2;
    assert "21"[..1] == "2";
    assert DigitsValue("21") == 21;
    assert "214"[..2] == "21";
    assert DigitsValue("214") == 214;
    assert "2147"[..3] == "214";
    assert DigitsValue("2147") == 2147;
    assert "21474"[..4] == "2147";
    assert DigitsValue("21474") == 21474;
    assert "214748"[..5] == "21474";
    assert DigitsValue("214748") == 214748;
    assert "2147483"[..6] == "214748";
    assert DigitsValue("2147483") == 2147483;
    assert "21474836"[..7] == "2147483";
    assert DigitsValue("21474836") == 21474836;
    assert "214748364"[..8] == "21474836";
    assert DigitsValue("214748364") == 214748364;
    assert "2147483648"[..9] == "214748364";
    assert DigitsValue("2147483648") == 2147483648;
    ParseRejectsOutOfRange("2147483648");
    assert Unsigned("-2147483648") == "2147483648";
    ParseAcceptsInRange("-2147483648");
  }
}
