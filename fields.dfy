/**
 * The validated fields of a contact: `Name`, `Phone` and `Birthday`. Each
 * constructor takes the raw string and either keeps it unchanged or fails.
 * A birthday is text in the form that `datetime.strptime(value, "%d.%m.%Y")`
 * accepts: a day of one or two digits, a dot, a month of one or two digits,
 * a dot and a year of exactly four digits, naming a real Gregorian date.
 */
module Fields {
  import opened Wrappers
  import opened Calendar

  /** The ways the contact operations fail; the source raises `ValueError` for each. */
  datatype ContactError = InvalidName | InvalidPhone | InvalidDate | PhoneNotFound

  // ---------------------------------------------------------------------
  // Decimal digits (ASCII only)

  predicate IsDigit(c: char) {
    '0' <= c <= '9'
  }

  predicate AllDigits(s: string) {
    forall i | 0 <= i < |s| :: IsDigit(s[i])
  }

  function Pow10(w: nat): (p: nat)
    ensures p >= 1
  {
    if w == 0 then 1 else 10 * Pow10(w - 1)
  }

  /** The value of a string of decimal digits, most significant first. */
  function DigitsValue(s: string): (n: nat)
    requires AllDigits(s)
    ensures n < Pow10(|s|)
    decreases |s|
  {
    if s == [] then 0
    else DigitsValue(s[..|s| - 1]) * 10 + (s[|s| - 1] as int - '0' as int)
  }

  function DigitChar(k: int): (c: char)
    requires 0 <= k < 10
    ensures IsDigit(c)
  {
    ('0' as int + k) as char
  }

  /** The last `w` decimal digits of `n`, zero-padded on the left. */
  function Numeral(n: nat, w: nat): (s: string)
    ensures |s| == w && AllDigits(s)
  {
    if w == 0 then "" else Numeral(n / 10, w - 1) + [DigitChar(n % 10)]
  }

  /** A numeral wide enough for its number reads back as that number. */
  lemma {:induction false} ValueOfNumeral(n: nat, w: nat)
    requires n < Pow10(w)
    ensures DigitsValue(Numeral(n, w)) == n
  {
    if w > 0 {
      var s := Numeral(n, w);
      assert s[..|s| - 1] == Numeral(n / 10, w - 1);
      assert n / 10 < Pow10(w - 1);
      ValueOfNumeral(n / 10, w - 1);
    }
  }

  /** A string of digits is the numeral of its own value at its own width. */
  lemma {:induction false} NumeralOfValue(s: string)
    requires AllDigits(s)
    ensures Numeral(DigitsValue(s), |s|) == s
    decreases |s|
  {
    if s != [] {
      var init := s[..|s| - 1];
      var v := DigitsValue(s);
      var d := s[|s| - 1] as int - '0' as int;
      assert v / 10 == DigitsValue(init) && v % 10 == d;
      NumeralOfValue(init);
      assert s == init + [s[|s| - 1]];
    }
  }

  // ---------------------------------------------------------------------
  // Name and Phone

  /** `Name(value)` rejects exactly the empty string. */
  predicate ValidName(s: string) {
    s != ""
  }

  /** `Phone(value)`: non-empty, decimal digits only, exactly ten of them. */
  predicate ValidPhone(s: string) {
    s != "" && AllDigits(s) && |s| == 10
  }

  function MakeName(s: string): (r: Result<string, ContactError>)
    ensures r.Success? <==> s != ""
    ensures r.Success? ==> r.value == s
    ensures r.Failure? ==> r.error == InvalidName
  {
    if ValidName(s) then Success(s) else Failure(InvalidName)
  }

  function MakePhone(s: string): (r: Result<string, ContactError>)
    ensures r.Success? <==> |s| == 10 && forall i | 0 <= i < |s| :: '0' <= s[i] <= '9'
    ensures r.Success? ==> r.value == s
    ensures r.Failure? ==> r.error == InvalidPhone
  {
    if ValidPhone(s) then Success(s) else Failure(InvalidPhone)
  }

  // ---------------------------------------------------------------------
  // Birthday: parsing "%d.%m.%Y"

  /**
   * Reads `s` as a day of `dw` digits, a dot, a month of `mw` digits, a dot
   * and four year digits, and keeps the date only if it is a real one.
   */
  function ParseWith(s: string, dw: nat, mw: nat): (r: Option<Date>)
    requires 1 <= dw <= 2 && 1 <= mw <= 2
    ensures r.Some? ==> ValidDate(r.value)
  {
    if |s| == dw + mw + 6 && s[dw] == '.' && s[dw + mw + 1] == '.'
       && AllDigits(s[..dw]) && AllDigits(s[dw + 1..dw + 1 + mw]) && AllDigits(s[dw + mw + 2..])
    then
      var d := Date(DigitsValue(s[dw + mw + 2..]), DigitsValue(s[dw + 1..dw + 1 + mw]), DigitsValue(s[..dw]));
      if ValidDate(d) then Some(d) else None
    else None
  }

  /** `datetime.strptime(s, "%d.%m.%Y").date()`, or `None` where it raises. */
  function ParseDate(s: string): (r: Option<Date>)
    ensures r.Some? ==> ValidDate(r.value)
  {
    if ParseWith(s, 2, 2).Some? then ParseWith(s, 2, 2)
    else if ParseWith(s, 2, 1).Some? then ParseWith(s, 2, 1)
    else if ParseWith(s, 1, 2).Some? then ParseWith(s, 1, 2)
    else ParseWith(s, 1, 1)
  }

  /** `Birthday(value)` accepts exactly the strings `strptime` can read. */
  predicate ValidBirthday(s: string) {
    ParseDate(s).Some?
  }

  function MakeBirthday(s: string): (r: Result<string, ContactError>)
    ensures r.Success? <==> ParseDate(s).Some?
    ensures r.Success? ==> r.value == s
    ensures r.Failure? ==> r.error == InvalidDate
  {
    if ValidBirthday(s) then Success(s) else Failure(InvalidDate)
  }

  // ---------------------------------------------------------------------
  // Birthday: writing dates

  /** The date written with a day of `dw` digits and a month of `mw` digits. */
  function Spell(d: Date, dw: nat, mw: nat): string
    requires ValidDate(d)
  {
    Numeral(d.day, dw) + "." + Numeral(d.month, mw) + "." + Numeral(d.year, 4)
  }

  /** `date.strftime("%d.%m.%Y")`: day and month zero-padded to two digits. */
  function Render(d: Date): (s: string)
    requires ValidDate(d)
    ensures |s| == 10 && s[2] == '.' && s[5] == '.'
  {
    Spell(d, 2, 2)
  }

  /** The ways of writing `d` that `strptime(_, "%d.%m.%Y")` reads back as `d`. */
  predicate IsSpelling(s: string, d: Date)
    requires ValidDate(d)
  {
    s == Spell(d, 2, 2)
    || (d.day < 10 && s == Spell(d, 1, 2))
    || (d.month < 10 && s == Spell(d, 2, 1))
    || (d.day < 10 && d.month < 10 && s == Spell(d, 1, 1))
  }

  // ---------------------------------------------------------------------
  // Birthday: the parser and the spellings agree

  /** Two layouts cannot both read the same string: the first dot fixes the day width. */
  lemma ParseWithUnique(s: string, a: nat, b: nat, c: nat, e: nat)
    requires 1 <= a <= 2 && 1 <= b <= 2 && 1 <= c <= 2 && 1 <= e <= 2
    requires ParseWith(s, a, b).Some? && ParseWith(s, c, e).Some?
    ensures a == c && b == e
  {
  }

  /** What a layout reads, it reads from one of the date's spellings. */
  lemma ParseWithSound(s: string, dw: nat, mw: nat)
    requires 1 <= dw <= 2 && 1 <= mw <= 2
    requires ParseWith(s, dw, mw).Some?
    ensures var d := ParseWith(s, dw, mw).value;
      ValidDate(d) && d.day < Pow10(dw) && d.month < Pow10(mw) && s == Spell(d, dw, mw)
  {
    var dayText, monthText, yearText := s[..dw], s[dw + 1..dw + 1 + mw], s[dw + mw + 2..];
    var d := ParseWith(s, dw, mw).value;
    assert d == Date(DigitsValue(yearText), DigitsValue(monthText), DigitsValue(dayText));
    NumeralOfValue(dayText);
    NumeralOfValue(monthText);
    NumeralOfValue(yearText);
    assert Spell(d, dw, mw) == dayText + "." + monthText + "." + yearText;
    Split(s, dw, mw);
  }

  /** A string with dots at `dw` and `dw + mw + 1` is its three parts joined by dots. */
  lemma Split(s: string, dw: nat, mw: nat)
    requires dw + mw + 2 <= |s| && s[dw] == '.' && s[dw + mw + 1] == '.'
    ensures s == s[..dw] + "." + s[dw + 1..dw + 1 + mw] + "." + s[dw + mw + 2..]
  {
  }

  /** Every spelling of a real date is read back by its layout. */
  lemma ParseWithComplete(d: Date, dw: nat, mw: nat)
    requires 1 <= dw <= 2 && 1 <= mw <= 2
    requires ValidDate(d) && d.day < Pow10(dw) && d.month < Pow10(mw)
    ensures ParseWith(Spell(d, dw, mw), dw, mw) == Some(d)
  {
    var s := Spell(d, dw, mw);
    var dayText, monthText, yearText := Numeral(d.day, dw), Numeral(d.month, mw), Numeral(d.year, 4);
    assert s[..dw] == dayText;
    assert s[dw + 1..dw + 1 + mw] == monthText;
    assert s[dw + mw + 2..] == yearText;
    ValueOfNumeral(d.day, dw);
    ValueOfNumeral(d.month, mw);
    ValueOfNumeral(d.year, 4);
  }

  /**
   * `Birthday` reads a string as the real date `d` exactly when the string is
   * one of the day.month.year spellings of `d`.
   */
  lemma ParseDateSpellings(s: string, d: Date)
    requires ValidDate(d)
    ensures ParseDate(s) == Some(d) <==> IsSpelling(s, d)
  {
    if ParseDate(s) == Some(d) {
      if ParseWith(s, 2, 2).Some? {
        ParseWithSound(s, 2, 2);
      } else if ParseWith(s, 2, 1).Some? {
        ParseWithSound(s, 2, 1);
      } else if ParseWith(s, 1, 2).Some? {
        ParseWithSound(s, 1, 2);
      } else {
        ParseWithSound(s, 1, 1);
      }
    }
    if IsSpelling(s, d) {
      var dw, mw;
      if s == Spell(d, 2, 2) {
        dw, mw := 2, 2;
      } else if d.day < 10 && s == Spell(d, 1, 2) {
        dw, mw := 1, 2;
      } else if d.month < 10 && s == Spell(d, 2, 1) {
        dw, mw := 2, 1;
      } else {
        dw, mw := 1, 1;
      }
      ParseWithComplete(d, dw, mw);
      if ParseWith(s, 2, 2).Some? { ParseWithUnique(s, 2, 2, dw, mw); }
      if ParseWith(s, 2, 1).Some? { ParseWithUnique(s, 2, 1, dw, mw); }
      if ParseWith(s, 1, 2).Some? { ParseWithUnique(s, 1, 2, dw, mw); }
    }
  }

  /** A birthday string is valid exactly when it spells some real date. */
  lemma ValidBirthdayIff(s: string)
    ensures ValidBirthday(s) <==> exists d: Date :: ValidDate(d) && IsSpelling(s, d)
  {
    if ValidBirthday(s) {
      var d := ParseDate(s).value;
      ParseDateSpellings(s, d);
    }
    if exists d: Date :: ValidDate(d) && IsSpelling(s, d) {
      var d: Date :| ValidDate(d) && IsSpelling(s, d);
      ParseDateSpellings(s, d);
    }
  }

  /** What `strftime("%d.%m.%Y")` writes, `strptime` with the same format reads back. */
  lemma RenderRoundTrip(d: Date)
    requires ValidDate(d)
    ensures ParseDate(Render(d)) == Some(d)
    ensures ValidBirthday(Render(d))
  {
    ParseDateSpellings(Render(d), d);
  }
}
