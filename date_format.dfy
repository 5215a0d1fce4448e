/**
 * Today's date as the scripts format it: `getMonth() + 1` and `getDate()`
 * padded to two digits, then the full year, joined with "/" (MM/DD/YYYY).
 * The clock is a parameter: a date is given by its year, its zero-based
 * month (as `getMonth()` returns it) and its day of the month.
 */
module DateFormat {
  import opened Text

  /** A calendar date as the JavaScript `Date` getters report it. */
  datatype LocalDate = LocalDate(year: nat, month0: nat, day: nat)

  /** The ranges the getters return, for a four-digit year. */
  predicate Valid(d: LocalDate) {
    1000 <= d.year < 10000 && d.month0 < 12 && 1 <= d.day <= 31
  }

  /** `${mm}/${dd}/${yyyy}`. */
  function MMDDYYYY(d: LocalDate): string
  {
    Pad2(d.month0 + 1) + "/" + Pad2(d.day) + "/" + NatToString(d.year)
  }

  /** For a four-digit year the text is ten characters long with "/" at positions 2 and 5 and digits elsewhere. */
  lemma Shape(d: LocalDate)
    requires Valid(d)
    ensures var r := MMDDYYYY(d);
      |r| == 10 && r[2] == '/' && r[5] == '/' &&
      forall i :: 0 <= i < 10 && i != 2 && i != 5 ==> IsDigit(r[i])
  {
    Pad2Exact(d.month0 + 1);
    Pad2Exact(d.day);
    NatToStringFourDigits(d.year);
  }

  /** The three numbers read back from the digit groups of a formatted date are the date's own. */
  lemma {:induction false} FieldsRoundTrip(d: LocalDate)
    requires Valid(d)
    ensures var r := MMDDYYYY(d);
      |r| == 10 && AllDigits(r[0..2]) && AllDigits(r[3..5]) && AllDigits(r[6..10]) &&
      DigitsValue(r[0..2]) == d.month0 + 1 && DigitsValue(r[3..5]) == d.day && DigitsValue(r[6..10]) == d.year
  {
    var mm, dd, yyyy := Pad2(d.month0 + 1), Pad2(d.day), NatToString(d.year);
    Pad2Exact(d.month0 + 1);
    Pad2Exact(d.day);
    NatToStringFourDigits(d.year);
    DigitsOfNat(d.year);
    var r := mm + "/" + dd + "/" + yyyy;
    assert r[0..2] == mm;
    assert r[3..5] == dd;
    assert r[6..10] == yyyy;
  }

  /** Different dates are formatted differently, so comparing the texts compares the dates. */
  lemma FormatInjective(a: LocalDate, b: LocalDate)
    requires Valid(a) && Valid(b) && MMDDYYYY(a) == MMDDYYYY(b)
    ensures a == b
  {
    FieldsRoundTrip(a);
    FieldsRoundTrip(b);
  }

  /** A formatted date has no white space, so trimming it changes nothing. */
  lemma FormattedIsTrimmed(d: LocalDate)
    requires Valid(d)
    ensures Trim(MMDDYYYY(d)) == MMDDYYYY(d)
  {
    var r := MMDDYYYY(d);
    Shape(d);
    assert !IsSpace(r[0]) && !IsSpace(r[9]);
    TrimOfTrimmed(r);
  }

  /** A text has the MM/DD/YYYY shape and its digit groups denote a date's month, day and year. */
  predicate Denotes(t: string, d: LocalDate) {
    |t| == 10 && t[2] == '/' && t[5] == '/' &&
    AllDigits(t[0..2]) && AllDigits(t[3..5]) && AllDigits(t[6..10]) &&
    DigitsValue(t[0..2]) == d.month0 + 1 && DigitsValue(t[3..5]) == d.day && DigitsValue(t[6..10]) == d.year
  }

  /** A text equals the formatted date exactly when it is in MM/DD/YYYY shape and names that date. */
  lemma FormatIff(t: string, d: LocalDate)
    requires Valid(d)
    ensures t == MMDDYYYY(d) <==> Denotes(t, d)
  {
    var r := MMDDYYYY(d);
    Shape(d);
    FieldsRoundTrip(d);
    if Denotes(t, d) {
      DigitsValueInjective(t[0..2], r[0..2]);
      DigitsValueInjective(t[3..5], r[3..5]);
      DigitsValueInjective(t[6..10], r[6..10]);
      assert t == t[0..2] + [t[2]] + t[3..5] + [t[5]] + t[6..10];
      assert r == r[0..2] + [r[2]] + r[3..5] + [r[5]] + r[6..10];
    }
  }
}
