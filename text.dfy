/**
 * The pieces of Kotlin's String and Char library the core relies on: digit and upper-case
 * tests, `isBlank`, `toIntOrNull`/`toInt`, `Int.toString`, `padStart`, `endsWith`, and the
 * lexicographic order used to sort by email.
 */
module Text {
  import opened Wrappers

  /** Bounds of Kotlin's 32-bit `Int`. */
  const IntMin: int := -0x8000_0000
  const IntMax: int := 0x7fff_ffff

  predicate IsDigit(c: char) {
    '0' <= c <= '9'
  }

  predicate IsUpperCase(c: char) {
    'A' <= c <= 'Z'
  }

  /**
   * Kotlin's `Char.isWhitespace` on the JVM: the ASCII controls that Java's
   * `Character.isWhitespace` accepts, plus every space, line and paragraph separator.
   */
  predicate IsWhitespace(c: char) {
    || '\t' <= c <= '\r'
    || '\U{1C}' <= c <= '\U{1F}'
    || c == ' ' || c == '\U{A0}' || c == '\U{1680}'
    || '\U{2000}' <= c <= '\U{200A}'
    || c == '\U{2028}' || c == '\U{2029}' || c == '\U{202F}' || c == '\U{205F}' || c == '\U{3000}'
  }

  /** `isBlank`: empty, or whitespace only. */
  predicate IsBlank(s: string) {
    forall i :: 0 <= i < |s| ==> IsWhitespace(s[i])
  }

  /** `isNullOrBlank` */
  predicate IsNullOrBlank(s: Option<string>) {
    s.None? || IsBlank(s.value)
  }

  predicate AllDigits(s: string) {
    forall i :: 0 <= i < |s| ==> IsDigit(s[i])
  }

  function DigitValue(c: char): (d: nat)
    requires IsDigit(c)
    ensures d < 10
  {
    (c as int) - ('0' as int)
  }

  function DigitChar(d: nat): (c: char)
    requires d < 10
    ensures IsDigit(c) && DigitValue(c) == d
  {
    (('0' as int) + d) as char
  }

  /** The number a string of decimal digits denotes (leading zeros allowed). */
  function DigitsValue(s: string): nat
    requires AllDigits(s)
  {
    if |s| == 0 then 0 else DigitsValue(s[..|s| - 1]) * 10 + DigitValue(s[|s| - 1])
  }

  /** The shortest decimal rendering of `n`, as `Int.toString` writes a non-negative value. */
  function Decimal(n: nat): (s: string)
    ensures |s| >= 1 && AllDigits(s)
    ensures n >= 10 ==> s[0] != '0'
  {
    if n < 10 then [DigitChar(n)] else Decimal(n / 10) + [DigitChar(n % 10)]
  }

  /** `Int.toString()`: a minus sign, then the digits of the magnitude; the text denotes `n`. */
  function IntToString(n: int): (s: string)
    ensures IsSignedDecimal(s) && SignedValue(s) == n
    ensures s[0] == '-' <==> n < 0
  {
    if n < 0 then
      var s := "-" + Decimal(-n);
      DigitsValueOfDecimal(-n);
      assert s[1..] == Decimal(-n);
      s
    else
      DigitsValueOfDecimal(n);
      Decimal(n)
  }

  /** How many sign characters lead `s`: one for a leading '+' or '-', else none. */
  function SignLength(s: string): nat {
    if |s| > 0 && (s[0] == '-' || s[0] == '+') then 1 else 0
  }

  /** The texts that denote an integer in radix 10: an optional sign, then one or more digits. */
  predicate IsSignedDecimal(s: string) {
    SignLength(s) < |s| && AllDigits(s[SignLength(s)..])
  }

  /** The integer such a text denotes, of any size. */
  function SignedValue(s: string): int
    requires IsSignedDecimal(s)
  {
    var magnitude: int := DigitsValue(s[SignLength(s)..]);
    if s[0] == '-' then -magnitude else magnitude
  }

  /**
   * Kotlin's `String.toIntOrNull()` (radix 10): an optional leading '+' or '-', then at
   * least one digit; `None` when the text is malformed or the value does not fit an `Int`.
   * `String.toInt()` accepts exactly the same texts and throws where this gives `None`.
   */
  function ToIntOrNull(s: string): (r: Option<int>)
    ensures r.Some? ==> IntMin <= r.value <= IntMax
    ensures r.Some? ==> exists i :: 0 <= i < |s| && IsDigit(s[i])
    ensures |s| > 0 && AllDigits(s) && DigitsValue(s) <= IntMax ==> r == Some(DigitsValue(s))
    ensures |s| > 0 && !IsDigit(s[0]) && s[0] != '-' && s[0] != '+' ==> r.None?
  {
    if |s| == 0 then None
    else if s[0] < '0' then
      if |s| == 1 then None
      else if s[0] == '-' && AllDigits(s[1..]) && DigitsValue(s[1..]) <= -IntMin then
        assert IsDigit(s[1..][0]) && s[1..][0] == s[1];
        Some(-(DigitsValue(s[1..]) as int))
      else if s[0] == '+' && AllDigits(s[1..]) && DigitsValue(s[1..]) <= IntMax then
        assert IsDigit(s[1..][0]) && s[1..][0] == s[1];
        Some(DigitsValue(s[1..]))
      else None
    else if AllDigits(s) && DigitsValue(s) <= IntMax then
      assert IsDigit(s[0]);
      Some(DigitsValue(s))
    else None
  }

  /**
   * `toIntOrNull` reads exactly the texts that denote an integer in radix 10 (an optional
   * sign, then one or more digits) whose value fits an `Int`, and reads them as that value.
   */
  lemma ToIntOrNullReadsSignedDecimals(s: string)
    ensures ToIntOrNull(s).Some? <==> IsSignedDecimal(s) && IntMin <= SignedValue(s) <= IntMax
    ensures ToIntOrNull(s).Some? ==> ToIntOrNull(s).value == SignedValue(s)
  {
    if |s| > 0 && SignLength(s) == 0 {
      assert s[SignLength(s)..] == s;
    }
  }

  /** `padStart(length, c)`: prefix `c` until the string is `length` long. */
  function PadStart(s: string, length: nat, c: char): (r: string)
    ensures |r| == if |s| < length then length else |s|
    ensures r[|r| - |s|..] == s
    ensures forall i :: 0 <= i < |r| - |s| ==> r[i] == c
  {
    if length <= |s| then s else seq(length - |s|, _ => c) + s
  }

  /** `endsWith(suffix)` */
  predicate EndsWith(s: string, suffix: string) {
    |suffix| <= |s| && s[|s| - |suffix|..] == suffix
  }

  // ---------------------------------------------------------------------------------
  // Decimal rendering and parsing are inverse to each other.

  lemma {:induction false} DigitsValueOfDecimal(n: nat)
    ensures DigitsValue(Decimal(n)) == n
  {
    if n >= 10 {
      DigitsValueOfDecimal(n / 10);
      var s := Decimal(n);
      assert s[..|s| - 1] == Decimal(n / 10);
    }
  }

  /** A digit string with no leading zero is exactly the rendering of its value. */
  lemma {:induction false} DecimalOfDigitsValue(s: string)
    requires |s| >= 1 && AllDigits(s) && s[0] != '0'
    ensures Decimal(DigitsValue(s)) == s
  {
    if |s| > 1 {
      var p := s[..|s| - 1];
      assert p[0] == s[0];
      DigitsValuePositive(p);
      DecimalOfDigitsValue(p);
      assert s == p + [s[|s| - 1]];
    }
  }

  lemma {:induction false} DigitsValuePositive(s: string)
    requires |s| >= 1 && AllDigits(s) && s[0] != '0'
    ensures DigitsValue(s) >= 1
  {
    if |s| > 1 {
      var p := s[..|s| - 1];
      assert p[0] == s[0];
      DigitsValuePositive(p);
    }
  }

  /** A string of `n` digits denotes a number below 10^n; used to bound 2- and 4-digit fields. */
  lemma {:induction false} DigitsValueBound(s: string)
    requires AllDigits(s) && |s| <= 4
    ensures DigitsValue(s) < Pow10(|s|)
  {
    if |s| > 0 {
      DigitsValueBound(s[..|s| - 1]);
    }
  }

  function Pow10(n: nat): nat {
    if n == 0 then 1 else 10 * Pow10(n - 1)
  }

  /** `toIntOrNull` reads back every `Int` that `toString` renders. */
  lemma IntToStringRoundTrip(n: int)
    requires IntMin <= n <= IntMax
    ensures ToIntOrNull(IntToString(n)) == Some(n)
  {
    ToIntOrNullReadsSignedDecimals(IntToString(n));
  }

  /** Signed readings, and leading zeros. */
  lemma ToIntOrNullReadsSigns()
    ensures ToIntOrNull("-5") == Some(-5) && ToIntOrNull("+5") == Some(5) && ToIntOrNull("007") == Some(7)
  {
    assert "-5"[1..] == "5" && "+5"[1..] == "5";
    assert DigitsValue("007") == 7 by { assert "007"[..2] == "00" && "00"[..1] == "0"; }
  }

  /** The texts `toIntOrNull` refuses: trailing or leading junk, a lone sign, nothing at all. */
  lemma ToIntOrNullRefusesMalformed()
    ensures ToIntOrNull("12a") == None && ToIntOrNull("-") == None && ToIntOrNull("+") == None
    ensures ToIntOrNull("") == None && ToIntOrNull(" 5") == None && ToIntOrNull("5-") == None
  {
    assert !AllDigits("12a") by { assert !IsDigit("12a"[2]); }
    assert !AllDigits("5-") by { assert !IsDigit("5-"[1]); }
  }

  /** The ends of the `Int` range are read. */
  lemma ToIntOrNullReadsIntMax()
    ensures ToIntOrNull("2147483647") == Some(IntMax)
  {
    BoundaryDigits();
  }

  lemma ToIntOrNullReadsIntMin()
    ensures ToIntOrNull("-2147483648") == Some(IntMin)
  {
    BoundaryDigits();
    assert "-2147483648"[1..] == "2147483648";
  }

  /** One past either end of the `Int` range is refused. */
  lemma ToIntOrNullRefusesOverflow()
    ensures ToIntOrNull("2147483648") == None && ToIntOrNull("-2147483649") == None
  {
    BoundaryDigits();
    assert "-2147483649"[1..] == "2147483649";
  }

  /** The values of the ten-digit texts at the edge of the `Int` range. */
  lemma BoundaryDigits()
    ensures DigitsValue("2147483647") == IntMax
    ensures DigitsValue("2147483648") == -IntMin
    ensures DigitsValue("2147483649") == -IntMin + 1
  {
    BoundaryPrefix();
    assert "2147483647"[..9] == "214748364";
    assert "2147483648"[..9] == "214748364";
    assert "2147483649"[..9] == "214748364";
  }

  /** Their common first nine digits, one digit at a time. */
  lemma BoundaryPrefix()
    ensures DigitsValue("214748364") == 214748364
  {
    assert DigitsValue("2") == 2;
    assert DigitsValue("21") == 21 by { assert "21"[..1] == "2"; }
    assert DigitsValue("214") == 214 by { assert "214"[..2] == "21"; }
    assert DigitsValue("2147") == 2147 by { assert "2147"[..3] == "214"; }
    assert DigitsValue("21474") == 21474 by { assert "21474"[..4] == "2147"; }
    assert DigitsValue("214748") == 214748 by { assert "214748"[..5] == "21474"; }
    assert DigitsValue("2147483") == 2147483 by { assert "2147483"[..6] == "214748"; }
    assert DigitsValue("21474836") == 21474836 by { assert "21474836"[..7] == "2147483"; }
    assert DigitsValue("214748364") == 214748364 by { assert "214748364"[..8] == "21474836"; }
  }

  // ---------------------------------------------------------------------------------
  // Lexicographic order on strings, by character code (`ORDER BY email ASC`).

  predicate LexLeq(a: string, b: string)
    decreases |a|
  {
    |a| == 0 || (|b| > 0 && (a[0] < b[0] || (a[0] == b[0] && LexLeq(a[1..], b[1..]))))
  }

  predicate LexLess(a: string, b: string) {
    LexLeq(a, b) && a != b
  }

  lemma {:induction false} LexLeqReflexive(a: string)
    ensures LexLeq(a, a)
  {
    if |a| > 0 {
      LexLeqReflexive(a[1..]);
    }
  }

  lemma {:induction false} LexLeqTotal(a: string, b: string)
    ensures LexLeq(a, b) || LexLeq(b, a)
    decreases |a|
  {
    if |a| > 0 && |b| > 0 && a[0] == b[0] {
      LexLeqTotal(a[1..], b[1..]);
    }
  }

  lemma {:induction false} LexLeqAntisymmetric(a: string, b: string)
    requires LexLeq(a, b) && LexLeq(b, a)
    ensures a == b
    decreases |a|
  {
    if |a| > 0 {
      LexLeqAntisymmetric(a[1..], b[1..]);
      assert a == [a[0]] + a[1..] && b == [b[0]] + b[1..];
    }
  }

  lemma {:induction false} LexLeqTransitive(a: string, b: string, c: string)
    requires LexLeq(a, b) && LexLeq(b, c)
    ensures LexLeq(a, c)
    decreases |a|
  {
    if |a| > 0 && a[0] == b[0] && b[0] == c[0] {
      LexLeqTransitive(a[1..], b[1..], c[1..]);
    }
  }

  lemma LexLeqAntisymmetry()
    ensures forall a, b {:trigger LexLeq(a, b), LexLeq(b, a)} :: LexLeq(a, b) && LexLeq(b, a) ==> a == b
  {
    forall a, b | LexLeq(a, b) && LexLeq(b, a) ensures a == b {
      LexLeqAntisymmetric(a, b);
    }
  }
}
