/** DateUtils.kt: conversions between the three-string `BirthDate` and a `LocalDate`. */
module DateUtils {
  import opened Wrappers
  import opened Text
  import opened Dates
  import opened Records

  /**
   * `BirthDate.toLocalDate()`: `LocalDate.of(year.toInt(), month.toInt(), day.toInt())`;
   * `None` where either `toInt` or `LocalDate.of` throws.
   */
  function ToLocalDate(b: BirthDate): (r: Option<LocalDate>)
    ensures r.Some? <==> ToIntOrNull(b.year).Some? && ToIntOrNull(b.month).Some? && ToIntOrNull(b.day).Some?
                         && IsValid(Date(ToIntOrNull(b.year).value, ToIntOrNull(b.month).value, ToIntOrNull(b.day).value))
    ensures r.Some? ==> r.value == Date(ToIntOrNull(b.year).value, ToIntOrNull(b.month).value, ToIntOrNull(b.day).value)
  {
    var year := ToIntOrNull(b.year);
    var month := ToIntOrNull(b.month);
    var day := ToIntOrNull(b.day);
    if year.None? || month.None? || day.None? then None
    else Of(year.value, month.value, day.value)
  }

  /**
   * `LocalDate.toBirthDate()`: day and month as decimal numbers left-padded with '0' to
   * two characters, the year as `Int.toString` writes it.
   */
  function ToBirthDate(d: LocalDate): (b: BirthDate)
    ensures |b.day| == 2 && AllDigits(b.day) && DigitsValue(b.day) == d.day
    ensures |b.month| == 2 && AllDigits(b.month) && DigitsValue(b.month) == d.month
    ensures 1000 <= d.year <= 9999 ==> |b.year| == 4 && AllDigits(b.year) && DigitsValue(b.year) == d.year
  {
    var b := BirthDate(PadStart(IntToString(d.day), 2, '0'), PadStart(IntToString(d.month), 2, '0'), IntToString(d.year));
    TwoDigitRendering(d.day);
    TwoDigitRendering(d.month);
    FourDigitYear(d.year);
    b
  }

  /** Padding a number from 1 to 31 gives its two-digit form. */
  lemma TwoDigitRendering(n: int)
    requires 1 <= n <= 31
    ensures var s := PadStart(IntToString(n), 2, '0');
            |s| == 2 && AllDigits(s) && DigitsValue(s) == n
  {
    var s := PadStart(IntToString(n), 2, '0');
    assert IntToString(n) == Decimal(n);
    DigitsValueOfDecimal(n);
    if n < 10 {
      assert s == ['0', DigitChar(n)];
      assert s[..1] == ['0'];
    } else {
      assert n / 10 < 10;
      assert Decimal(n) == [DigitChar(n / 10), DigitChar(n % 10)];
    }
  }

  /** A year from 1000 to 9999 renders as four digits. */
  lemma FourDigitYear(n: int)
    ensures 1000 <= n <= 9999 ==> var s := IntToString(n); |s| == 4 && AllDigits(s) && DigitsValue(s) == n
  {
    if 1000 <= n <= 9999 {
      DigitsValueOfDecimal(n);
      FourDigits(n);
    }
  }

  lemma FourDigits(n: int)
    requires 1000 <= n <= 9999
    ensures |Decimal(n)| == 4
  {
    assert Decimal(n) == Decimal(n / 10) + [DigitChar(n % 10)];
    assert Decimal(n / 10) == Decimal(n / 100) + [DigitChar((n / 10) % 10)];
    assert Decimal(n / 100) == Decimal(n / 1000) + [DigitChar((n / 100) % 10)];
  }

  /** Rendering a date and reading it back gives the same date. */
  lemma {:induction false} LocalDateRoundTrip(d: Date)
    requires IsValid(d)
    ensures ToLocalDate(ToBirthDate(d)) == Some(d)
  {
    var b := ToBirthDate(d);
    assert ToIntOrNull(b.year) == Some(d.year) by {
      IntToStringRoundTrip(d.year);
    }
    assert ToIntOrNull(b.month) == Some(d.month);
    assert ToIntOrNull(b.day) == Some(d.day);
    ReadsParts(b, d);
  }

  lemma ReadsParts(b: BirthDate, d: Date)
    requires IsValid(d)
    requires ToIntOrNull(b.year) == Some(d.year) && ToIntOrNull(b.month) == Some(d.month) && ToIntOrNull(b.day) == Some(d.day)
    ensures ToLocalDate(b) == Some(d)
  {
  }

  /** The texts `BirthDateRoundTrip` accepts: 2, 2 and 4 ASCII digits. */
  predicate IsDigitForm(b: BirthDate) {
    |b.day| == 2 && AllDigits(b.day) && |b.month| == 2 && AllDigits(b.month) && |b.year| == 4 && AllDigits(b.year)
  }

  /** The date a digit-form `BirthDate` denotes. */
  function DigitDate(b: BirthDate): Date
    requires IsDigitForm(b)
  {
    Date(DigitsValue(b.year), DigitsValue(b.month), DigitsValue(b.day))
  }

  /**
   * Reading a birth date written as 2, 2 and 4 ASCII digits, with a year of at least 1000
   * and naming a real date, and writing it back gives the same three strings.
   */
  lemma {:induction false} BirthDateRoundTrip(b: BirthDate)
    requires IsDigitForm(b) && DigitsValue(b.year) >= 1000 && IsValid(DigitDate(b))
    ensures ToLocalDate(b) == Some(DigitDate(b))
    ensures ToBirthDate(ToLocalDate(b).value) == b
  {
    ReadsDigitForm(b);
    var back := ToBirthDate(DigitDate(b));
    TwoDigitFieldRendered(b.day);
    TwoDigitFieldRendered(b.month);
    YearRendered(b.year);
    assert back == BirthDate(b.day, b.month, b.year);
  }

  lemma ReadsDigitForm(b: BirthDate)
    requires IsDigitForm(b) && IsValid(DigitDate(b))
    ensures ToLocalDate(b) == Some(DigitDate(b))
  {
    var d := DigitDate(b);
    assert ToIntOrNull(b.year) == Some(d.year) by {
      DigitsValueBound(b.year);
    }
    assert ToIntOrNull(b.month) == Some(d.month) by {
      DigitsValueBound(b.month);
    }
    assert ToIntOrNull(b.day) == Some(d.day) by {
      DigitsValueBound(b.day);
    }
    ReadsParts(b, d);
  }

  /** Four digits denoting at least 1000 are their own `toString` rendering. */
  lemma YearRendered(s: string)
    requires |s| == 4 && AllDigits(s) && DigitsValue(s) >= 1000
    ensures IntToString(DigitsValue(s)) == s
  {
    assert s[0] != '0' by {
      if s[0] == '0' {
        DigitsValueBound(s[1..]);
        assert Pow10(3) == 1000;
        LeadingZero(s);
      }
    }
    DecimalOfDigitsValue(s);
  }

  /** A two-digit field with a value from 1 to 31 is its own padded rendering. */
  lemma TwoDigitFieldRendered(s: string)
    requires |s| == 2 && AllDigits(s) && 1 <= DigitsValue(s) <= 31
    ensures PadStart(IntToString(DigitsValue(s)), 2, '0') == s
  {
    var n := DigitsValue(s);
    assert IntToString(n) == Decimal(n);
    if s[0] == '0' {
      PaddedDigit(s);
    } else {
      DecimalOfDigitsValue(s);
      assert PadStart(s, 2, '0') == s;
    }
  }

  /** A field "0d" is the padded rendering of the digit d. */
  lemma PaddedDigit(s: string)
    requires |s| == 2 && AllDigits(s) && s[0] == '0'
    ensures PadStart(Decimal(DigitsValue(s)), 2, '0') == s
  {
    assert DigitsValue(s[..1]) == 0 by { assert s[..1][..0] == []; }
    var n := DigitsValue(s);
    assert n == DigitValue(s[1]) < 10;
    assert DigitChar(n) == s[1];
    assert Decimal(n) == [s[1]];
    var padded := PadStart([s[1]], 2, '0');
    assert padded[1..] == [s[1]];
    assert |padded| == 2 && padded[0] == s[0] && padded[1] == s[1];
  }

  lemma {:induction false} LeadingZero(s: string)
    requires |s| >= 1 && AllDigits(s) && s[0] == '0'
    ensures DigitsValue(s) == DigitsValue(s[1..])
  {
    if |s| > 1 {
      var p := s[..|s| - 1];
      assert p[0] == '0';
      LeadingZero(p);
      assert p[1..] == s[1..][..|s| - 2];
    }
  }
}
