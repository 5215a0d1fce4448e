/**
 * Product-group business rule (tests/china-Business-rule.spec.js): with the
 * PM Override Flag set to "Yes", a Future Product Group equal to the System
 * Recommended Product Group is not valid. The test reads both groups and
 * fails when they are equal.
 */
module BusinessRule {
  import opened Wrappers
  import opened Text

  /** The Future Product Group: "" unless its dropdown is visible, then the selected text. */
  function FutureGroup(dropdownVisible: bool, read: Option<string>): (r: string)
    ensures !dropdownVisible ==> r == []
    ensures dropdownVisible ==> r == ReadTrimmed(read)
  {
    if dropdownVisible then ReadTrimmed(read) else []
  }

  /** What the test sees on the record. */
  datatype Screen = Screen(
    pmFlagRead: Option<string>,
    dropdownVisible: bool,
    futureRead: Option<string>,
    systemValue: string)

  /**
   * The PM Override Flag as read. Step 3 selects "Yes" before reading it;
   * the test logs it and never compares it.
   */
  function PmFlag(s: Screen): string {
    ReadTrimmed(s.pmFlagRead)
  }

  /** The test as written: it fails exactly when the two trimmed groups are equal, empty ones included. */
  predicate FailsAsWritten(s: Screen) {
    FutureGroup(s.dropdownVisible, s.futureRead) == Trim(s.systemValue)
  }

  /** The verdict does not depend on the PM Override Flag. */
  lemma PmFlagIgnored(s: Screen, flag: Option<string>)
    ensures FailsAsWritten(s) <==> FailsAsWritten(s.(pmFlagRead := flag))
  {
  }

  /**
   * With no visible dropdown and an empty system value the test fails,
   * although the rule it logs applies only to a Future Product Group that
   * is not null.
   */
  lemma EmptyGroupsFailAsWritten(s: Screen)
    requires !s.dropdownVisible && IsBlank(s.systemValue)
    ensures FailsAsWritten(s) && !Fails(s)
  {
    TrimEmptyIffBlank(s.systemValue);
  }

  /**
   * The rule as its message states it: with the PM Override Flag equal to
   * "Yes", a non-null Future Product Group equal to the system
   * recommendation is invalid.
   */
  predicate Fails(s: Screen) {
    var future := FutureGroup(s.dropdownVisible, s.futureRead);
    PmFlag(s) == "Yes" && future != [] && future == Trim(s.systemValue)
  }

  /**
   * The rule fails exactly when the flag reads "Yes" once trimmed and the
   * visible, non-blank selection's trimmed text is the trimmed system value.
   */
  lemma FailsIff(s: Screen)
    ensures Fails(s) <==>
      s.pmFlagRead.Some? && Trim(s.pmFlagRead.value) == "Yes" &&
      s.dropdownVisible && s.futureRead.Some? && !IsBlank(s.futureRead.value) &&
      Trim(s.futureRead.value) == Trim(s.systemValue)
  {
    if s.futureRead.Some? {
      TrimEmptyIffBlank(s.futureRead.value);
    }
  }

  /**
   * With the flag at "Yes", as step 3 sets it, the rule and the test as
   * written differ only when the Future Product Group is null.
   */
  lemma AgreeWhenFuturePresent(s: Screen)
    requires PmFlag(s) == "Yes"
    requires FutureGroup(s.dropdownVisible, s.futureRead) != []
    ensures Fails(s) <==> FailsAsWritten(s)
  {
  }
}
