/**
 * Outbound staged date check (tests/verify_outbound_date.spec.js): the
 * "Outbound Staged Date" shown for the first record must be today's date in
 * MM/DD/YYYY form.
 */
module OutboundDate {
  import opened Wrappers
  import opened Text
  import opened DateFormat

  /** PASS when the date read equals today's formatted date exactly; FAIL otherwise (only logged). */
  predicate Passes(raw: Option<string>, today: LocalDate) {
    ReadTrimmed(raw) == MMDDYYYY(today)
  }

  /**
   * The check passes exactly when the trimmed UI text is in MM/DD/YYYY shape
   * and names today: its month is `getMonth() + 1`, its day and year today's.
   */
  lemma PassesIffToday(raw: Option<string>, today: LocalDate)
    requires Valid(today)
    ensures Passes(raw, today) <==> Denotes(ReadTrimmed(raw), today)
  {
    FormatIff(ReadTrimmed(raw), today);
  }

  /** White space around the value the UI shows does not affect the verdict. */
  lemma PaddingIgnored(v: string, today: LocalDate)
    ensures Passes(Some(v), today) <==> Passes(Some(Trim(v)), today)
  {
    TrimIdempotent(v);
  }

  /** A missing value never passes: today's date is never empty. */
  lemma MissingFails(today: LocalDate)
    requires Valid(today)
    ensures !Passes(None, today)
  {
    Shape(today);
  }

  /** The verdict for one day never passes on another day. */
  lemma OnlyOneDayPasses(raw: Option<string>, d1: LocalDate, d2: LocalDate)
    requires Valid(d1) && Valid(d2) && d1 != d2
    ensures !(Passes(raw, d1) && Passes(raw, d2))
  {
    if Passes(raw, d1) && Passes(raw, d2) {
      FormatInjective(d1, d2);
    }
  }
}
