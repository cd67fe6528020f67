/**
 * The input rules of EmployeeServiceImpl.kt: `isValidPassword` and `isValidDate`.
 * `Year.now()` is the parameter `currentYear`. Digits and upper-case letters are the
 * ASCII ones.
 */
module Validation {
  import opened Wrappers
  import opened Text
  import opened Dates
  import opened Records
  import opened DateUtils

  predicate HasDigit(s: string) {
    exists i :: 0 <= i < |s| && IsDigit(s[i])
  }

  predicate HasUpperCase(s: string) {
    exists i :: 0 <= i < |s| && IsUpperCase(s[i])
  }

  /** `isValidPassword`: present, at least three characters, a digit and an upper-case letter. */
  predicate IsValidPassword(password: Option<string>) {
    password.Some? && |password.value| >= 3 && HasDigit(password.value) && HasUpperCase(password.value)
  }

  lemma PasswordExamples()
    ensures IsValidPassword(Some("Ab1"))
    ensures !IsValidPassword(Some("ab1"))   // no upper-case letter
    ensures !IsValidPassword(Some("Abc"))   // no digit
    ensures !IsValidPassword(Some("A1"))    // too short
    ensures !IsValidPassword(None)
  {
    assert IsDigit("Ab1"[2]) && IsUpperCase("Ab1"[0]);
    assert forall i :: 0 <= i < 3 ==> !IsUpperCase("ab1"[i]);
    assert forall i :: 0 <= i < 3 ==> !IsDigit("Abc"[i]);
  }

  /** One of the fixed-width checks: exactly `width` characters that `toIntOrNull` reads as a value in `lo..hi`. */
  predicate FieldInRange(s: string, width: nat, lo: int, hi: int) {
    |s| == width && ToIntOrNull(s).Some? && lo <= ToIntOrNull(s).value <= hi
  }

  /** Lines 188-195: day 1..31 in two characters, month 1..12 in two, year 1900..currentYear in four. */
  predicate PassesFieldChecks(b: BirthDate, currentYear: int) {
    && FieldInRange(b.day, 2, 1, 31)
    && FieldInRange(b.month, 2, 1, 12)
    && FieldInRange(b.year, 4, 1900, currentYear)
  }

  /**
   * The calendar check as intended: "yyyy-MM-dd" read strictly, so the text must be all
   * digits and name a day the month has (31/02/2023 fails, 29/02/2024 passes).
   */
  predicate ParsesAsCalendarDate(b: BirthDate) {
    IsDigitForm(b) && IsCalendarDate(DigitsValue(b.year), DigitsValue(b.month), DigitsValue(b.day))
  }

  /**
   * `isValidDate`, with the calendar check as the comment on line 197 intends it. Because
   * the service uses this predicate, every date it accepts converts with `toLocalDate`
   * (see `ValidDateConverts`). The code as compiled behaves as `IsValidDateAsWritten`.
   */
  predicate IsValidDate(birthdate: Option<BirthDate>, currentYear: int) {
    birthdate.Some? && PassesFieldChecks(birthdate.value, currentYear) && ParsesAsCalendarDate(birthdate.value)
  }

  /**
   * `isValidDate` as compiled. `DateTimeFormatter.ofPattern` resolves in SMART mode, which
   * clamps a day the month lacks to the month's last day instead of failing, so the
   * `LocalDate.parse` on lines 199-204 rejects only the texts the field checks let through
   * with a sign ("+1"): once those pass, it fails exactly when some character is not a digit.
   */
  predicate IsValidDateAsWritten(birthdate: Option<BirthDate>, currentYear: int) {
    birthdate.Some? && PassesFieldChecks(birthdate.value, currentYear) && IsDigitForm(birthdate.value)
  }

  /**
   * What `isValidDate` accepts, in both directions: 2, 2 and 4 ASCII digits naming a real
   * date whose year lies between 1900 and the current year.
   */
  lemma {:induction false} ValidDateCharacterization(b: BirthDate, currentYear: int)
    ensures IsValidDate(Some(b), currentYear) <==>
            IsDigitForm(b) && 1900 <= DigitsValue(b.year) <= currentYear && IsValid(DigitDate(b))
  {
    if IsDigitForm(b) {
      DigitFormFields(b);
    }
  }

  /** On digit-form texts `toIntOrNull` reads the plain digit values. */
  lemma DigitFormFields(b: BirthDate)
    requires IsDigitForm(b)
    ensures ToIntOrNull(b.day) == Some(DigitsValue(b.day))
    ensures ToIntOrNull(b.month) == Some(DigitsValue(b.month))
    ensures ToIntOrNull(b.year) == Some(DigitsValue(b.year))
    ensures DigitsValue(b.day) == 10 * DigitValue(b.day[0]) + DigitValue(b.day[1])
    ensures DigitsValue(b.month) == 10 * DigitValue(b.month[0]) + DigitValue(b.month[1])
    ensures DigitsValue(b.year) == 1000 * DigitValue(b.year[0]) + 100 * DigitValue(b.year[1])
                                   + 10 * DigitValue(b.year[2]) + DigitValue(b.year[3])
  {
    var y := b.year;
    assert y[..3][..2] == y[..2] && y[..2][..1] == y[..1] && y[..1][..0] == [];
    assert DigitsValue(y[..1]) == DigitValue(y[0]);
    assert DigitsValue(y[..2]) == 10 * DigitValue(y[0]) + DigitValue(y[1]);
    assert DigitsValue(y[..3]) == 100 * DigitValue(y[0]) + 10 * DigitValue(y[1]) + DigitValue(y[2]);
    assert b.day[..1][..0] == [] && b.month[..1][..0] == [];
    DigitsValueBound(b.day);
    DigitsValueBound(b.month);
    DigitsValueBound(b.year);
  }

  /**
   * Every birth date `isValidDate` accepts converts with `toLocalDate` to a date in the
   * accepted year range, and converts back to the same three strings.
   */
  lemma {:induction false} ValidDateConverts(b: BirthDate, currentYear: int)
    requires IsValidDate(Some(b), currentYear)
    ensures ToLocalDate(b).Some?
    ensures 1900 <= ToLocalDate(b).value.year <= currentYear
    ensures ToBirthDate(ToLocalDate(b).value) == b
  {
    ValidDateCharacterization(b, currentYear);
    BirthDateRoundTrip(b);
  }

  /** Range checks alone would accept these; the calendar check rejects them. */
  lemma RejectsNonexistentDates(currentYear: int)
    requires currentYear >= 2023
    ensures !IsValidDate(Some(BirthDate("31", "02", "2023")), currentYear)
    ensures !IsValidDate(Some(BirthDate("29", "02", "2023")), currentYear)
    ensures !IsValidDate(Some(BirthDate("31", "04", "2023")), currentYear)
  {
    DigitFormFields(BirthDate("31", "02", "2023"));
    DigitFormFields(BirthDate("29", "02", "2023"));
    DigitFormFields(BirthDate("31", "04", "2023"));
  }

  lemma AcceptsLeapDay(currentYear: int)
    requires currentYear >= 2024
    ensures IsValidDate(Some(BirthDate("29", "02", "2024")), currentYear)
  {
    var leapDay := BirthDate("29", "02", "2024");
    DigitFormFields(leapDay);
    assert DigitDate(leapDay) == Date(2024, 2, 29);
    ValidDateCharacterization(leapDay, currentYear);
  }

  lemma RejectsOutOfRangeFields(currentYear: int)
    requires currentYear >= 2000
    ensures !IsValidDate(Some(BirthDate("15", "13", "2000")), currentYear)
    ensures !IsValidDate(Some(BirthDate("00", "01", "2000")), currentYear)
    ensures !IsValidDate(Some(BirthDate("01", "01", "1899")), currentYear)
    ensures !IsValidDate(Some(BirthDate("01", "01", "2000")), 1999)
    ensures !IsValidDate(None, currentYear)
  {
    DigitFormFields(BirthDate("15", "13", "2000"));
    DigitFormFields(BirthDate("00", "01", "2000"));
    DigitFormFields(BirthDate("01", "01", "1899"));
    DigitFormFields(BirthDate("01", "01", "2000"));
  }

  /** Day and month must be written with two characters: "01" passes where "1" and "+1" fail. */
  lemma FixedWidthFields(currentYear: int)
    requires currentYear >= 2000
    ensures IsValidDate(Some(BirthDate("01", "01", "2000")), currentYear)
    ensures !IsValidDate(Some(BirthDate("1", "01", "2000")), currentYear)
    ensures !IsValidDate(Some(BirthDate("01", "1", "2000")), currentYear)
    ensures !IsValidDate(Some(BirthDate("+1", "01", "2000")), currentYear)
    ensures !IsValidDate(Some(BirthDate("01", "01", "02000")), currentYear)
  {
    var newYear := BirthDate("01", "01", "2000");
    DigitFormFields(newYear);
    assert DigitDate(newYear) == Date(2000, 1, 1);
    ValidDateCharacterization(newYear, currentYear);
    assert !IsDigit("+1"[0]);
  }

  /**
   * The check as compiled accepts 31/02/2023, the very date the comment on line 197 says
   * must fail, and `toLocalDate` then throws on it.
   */
  lemma AsWrittenAcceptsNonexistentDate(currentYear: int)
    requires currentYear >= 2023
    ensures IsValidDateAsWritten(Some(BirthDate("31", "02", "2023")), currentYear)
    ensures !IsValidDate(Some(BirthDate("31", "02", "2023")), currentYear)
    ensures ToLocalDate(BirthDate("31", "02", "2023")).None?
  {
    var b := BirthDate("31", "02", "2023");
    DigitFormFields(b);
    ValidDateCharacterization(b, currentYear);
  }

  /** The two checks differ only on texts that name no real date. */
  lemma {:induction false} AsWrittenDiffersOnlyOnNonexistentDates(birthdate: Option<BirthDate>, currentYear: int)
    ensures IsValidDate(birthdate, currentYear) ==> IsValidDateAsWritten(birthdate, currentYear)
    ensures IsValidDateAsWritten(birthdate, currentYear) && !IsValidDate(birthdate, currentYear) ==>
            ToLocalDate(birthdate.value).None?
  {
    if IsValidDateAsWritten(birthdate, currentYear) {
      DigitFormFields(birthdate.value);
    }
  }
}
