/**
 * China approval workflow (tests/china-approval.spec.js): which list-pricing
 * records are eligible for approval processing, how the Pricing Manager
 * Approval status is moved, which status Approver 1 and Approver 2 are
 * expected to show, and how an expected status is compared with the one on
 * screen.
 */
module ChinaApproval {
  import opened Wrappers
  import opened Text
  import opened JsNumber

  // ---------------------------------------------------------------------
  // Presence predicates
  // ---------------------------------------------------------------------

  /** A numeric field's text as the script reads it: commas removed, then trimmed. */
  function FieldText(raw: string): (v: string)
    ensures ',' !in v
    ensures v == [] || (!IsSpace(v[0]) && !IsSpace(v[|v| - 1]))
  {
    TrimEnds(StripCommas(raw));
    Trim(StripCommas(raw))
  }

  /** A future price counts as present when its field text is non-empty and `Number` reads it. */
  predicate PricePresent(raw: string) {
    var v := FieldText(raw);
    v != [] && !IsNaNText(v)
  }

  /** The effective date counts as present when its trimmed text is non-empty. */
  predicate DatePresent(raw: string) {
    Trim(raw) != []
  }

  /** The LP Override Flag counts as set when its trimmed text is exactly "Yes". */
  predicate OverrideYes(selected: string) {
    Trim(selected) == "Yes"
  }

  /** Some pricing action (China, DN or PVC) mentions "Emergency", case-sensitively. */
  predicate EmergencyPresent(china: string, dn: string, pvc: string) {
    exists a :: a in [china, dn, pvc] && Contains(a, "Emergency")
  }

  /** A present price is one that `parseFloat` also reads as a number, and with the same value. */
  lemma PresentPriceParses(raw: string)
    ensures PricePresent(raw) ==> ParseFloat(FieldText(raw)).Num?
    ensures PricePresent(raw) ==> ParseFloat(FieldText(raw)) == NumberOf(FieldText(raw))
  {
    var v := FieldText(raw);
    if v != [] {
      NumberAgreesOnTrimmed(v);
    }
  }

  /** Emergency is present exactly when one of the three actions contains "Emergency". */
  lemma EmergencyIff(china: string, dn: string, pvc: string)
    ensures EmergencyPresent(china, dn, pvc)
            <==> Contains(china, "Emergency") || Contains(dn, "Emergency") || Contains(pvc, "Emergency")
  {
    var l := [china, dn, pvc];
    assert l[0] == china && l[1] == dn && l[2] == pvc;
  }

  /** An action whose text is "Emergency ..." makes the emergency condition hold whatever the others say. */
  lemma EmergencyPrefixSuffices(rest: string, dn: string, pvc: string)
    ensures EmergencyPresent("Emergency" + rest, dn, pvc)
  {
    ContainsInfix([], "Emergency", rest);
    assert [] + "Emergency" + rest == "Emergency" + rest;
    assert "Emergency" + rest in ["Emergency" + rest, dn, pvc];
  }

  // ---------------------------------------------------------------------
  // Calculated Local Currency seeding and eligibility
  // ---------------------------------------------------------------------

  /**
   * The Calculated Local Currency value after seeding: an empty or non-numeric
   * field is filled with 100; the value then read back must be greater than 0,
   * otherwise the expectation fails (`None`), which aborts the region.
   */
  function CalcLocalFinal(raw: string): (r: Option<real>)
    ensures r.Some? ==> r.value > 0.0
    ensures (FieldText(raw) == [] || IsNaNText(FieldText(raw))) ==> r == Some(100.0)
    ensures r.None? <==> (FieldText(raw) != [] && NumberOf(FieldText(raw)).Num? && NumberOf(FieldText(raw)).v <= 0.0)
    ensures r.Some? && PricePresent(raw) ==> Num(r.value) == NumberOf(FieldText(raw))
  {
    var v := FieldText(raw);
    var text := if v == [] || IsNaNText(v) then "100" else v;
    ReadLiterals();
    PresentPriceParses(raw);
    var final := ParseFloat(text);
    if final.Num? && final.v > 0.0 then Some(final.v) else None
  }

  /** Condition i: a future price is present together with the LP Override Flag. */
  predicate ConditionI(futureUsd: string, futureLocal: string, date: string, selected: string) {
    (PricePresent(futureUsd) || (PricePresent(futureLocal) && DatePresent(date))) && OverrideYes(selected)
  }

  /** Condition ii: an emergency action together with a future local price and its date. */
  predicate ConditionII(futureLocal: string, date: string, china: string, dn: string, pvc: string) {
    EmergencyPresent(china, dn, pvc) && PricePresent(futureLocal) && DatePresent(date)
  }

  /** The values of one record that the eligibility check reads. */
  datatype Record = Record(
    calcLocal: string,
    futureUsd: string,
    futureLocal: string,
    date: string,
    overrideFlag: string,
    china: string,
    dn: string,
    pvc: string)

  /** A record is processed when its Calculated Local is non-zero and condition i or ii holds. */
  predicate Eligible(finalValue: real, rec: Record) {
    finalValue != 0.0
    && (ConditionI(rec.futureUsd, rec.futureLocal, rec.date, rec.overrideFlag)
        || ConditionII(rec.futureLocal, rec.date, rec.china, rec.dn, rec.pvc))
  }

  /** A Calculated Local of zero always makes the record ineligible. */
  lemma ZeroCalcLocalIneligible(rec: Record)
    ensures !Eligible(0.0, rec)
  {
  }

  /** Without a present future local price, only the override route can make a record eligible. */
  lemma NoFutureLocalNeedsOverride(finalValue: real, rec: Record)
    requires !PricePresent(rec.futureLocal)
    ensures Eligible(finalValue, rec) <==> finalValue != 0.0 && PricePresent(rec.futureUsd) && OverrideYes(rec.overrideFlag)
  {
  }

  // ---------------------------------------------------------------------
  // Pricing Manager Approval
  // ---------------------------------------------------------------------

  /** The status after the script's update: empty becomes "Ready for Review", YES/NO in any case is cleared, anything else stays. */
  function PmApprovalAfter(current: string): (r: string)
    ensures current == [] ==> r == "Ready for Review"
    ensures current != [] && (ToUpper(current) == "YES" || ToUpper(current) == "NO") ==> r == []
    ensures current != [] && ToUpper(current) != "YES" && ToUpper(current) != "NO" ==> r == current
  {
    if current == [] then "Ready for Review"
    else if ToUpper(current) == "YES" || ToUpper(current) == "NO" then []
    else current
  }

  /** "Ready for Review" is neither YES nor NO in any case. */
  lemma ReadyForReviewIsNotYesNo()
    ensures ToUpper("Ready for Review") != "YES" && ToUpper("Ready for Review") != "NO"
  {
    assert |ToUpper("Ready for Review")| == 16;
  }

  /** Two updates reach a status that further updates leave alone. */
  lemma PmApprovalSettles(current: string)
    ensures PmApprovalAfter(PmApprovalAfter(PmApprovalAfter(current))) == PmApprovalAfter(PmApprovalAfter(current))
  {
    ReadyForReviewIsNotYesNo();
  }

  /** After one update the status is never YES or NO. */
  lemma PmApprovalNeverYesNo(current: string)
    ensures ToUpper(PmApprovalAfter(current)) != "YES" && ToUpper(PmApprovalAfter(current)) != "NO"
  {
    ReadyForReviewIsNotYesNo();
    assert ToUpper([]) == [];
  }

  // ---------------------------------------------------------------------
  // Percentage change and thresholds
  // ---------------------------------------------------------------------

  /** `parseFloat(raw) || 0`: the price fields read for the percentage change. */
  function PriceOrZero(raw: string): (r: real)
    ensures r != 0.0 ==> ParseFloat(raw) == Num(r)
    ensures ParseFloat(raw).Truthy() ==> ParseFloat(raw) == Num(r)
  {
    Or(ParseFloat(raw), Num(0.0)).v
  }

  /** Change from `current` to `future` in percent of `current`; 0 when `current` is 0. */
  function PctChange(current: real, future: real): (r: real)
    ensures current == 0.0 ==> r == 0.0
    ensures current != 0.0 ==> r * current == (future - current) * 100.0
  {
    if current != 0.0 then (future - current) / current * 100.0 else 0.0
  }

  /** For a positive current price, reaching a threshold of `t` percent means rising to at least current × (1 + t/100). */
  lemma PctAtLeastIff(current: real, future: real, t: real)
    requires current > 0.0
    ensures PctChange(current, future) >= t <==> future >= current + current * t / 100.0
  {
    var p := PctChange(current, future);
    assert p * current == (future - current) * 100.0;
    if p >= t {
      assert p * current >= t * current;
    } else {
      assert p * current < t * current;
    }
  }

  /** The threshold as read: commas removed and trimmed, "0" when that leaves nothing, then `parseFloat` (NaN possible). */
  function Threshold(raw: string): (r: Number)
    ensures FieldText(raw) == [] ==> r == Num(0.0)
    ensures FieldText(raw) != [] ==> r == ParseFloat(FieldText(raw))
  {
    var t := FieldText(raw);
    if t == [] then
      ReadLiterals();
      ParseFloat("0")
    else ParseFloat(t)
  }

  /** A threshold field showing the digits of a whole number reads as that number. */
  lemma ThresholdOfNat(n: nat)
    ensures Threshold(NatToString(n)) == Num(n as real)
  {
    var s := NatToString(n);
    assert forall i :: 0 <= i < |s| ==> (c => c != ',')(s[i]);
    FilterKeepsAll(s, c => c != ',');
    TrimOfTrimmed(s);
    ParseFloatOfNat(n);
  }

  /** Thousands separators and padding do not change the threshold: the cleaned text reads the same. */
  lemma ThresholdOfCleaned(raw: string)
    ensures Threshold(FieldText(raw)) == Threshold(raw)
    ensures Threshold(StripCommas(raw)) == Threshold(raw)
  {
    var t := FieldText(raw);
    assert forall i :: 0 <= i < |t| ==> (c => c != ',')(t[i]);
    FilterKeepsAll(t, c => c != ',');
    TrimOfTrimmed(t);
    FilterIdempotent(raw, c => c != ',');
  }

  // ---------------------------------------------------------------------
  // Approver 1 and Approver 2
  // ---------------------------------------------------------------------

  /** An expected approver status; `NullStatus` is JavaScript's `null`. */
  datatype Expected = NullStatus | Status(s: string)

  /** Which approver the rule is applied for. */
  datatype Level = First | Second

  /** The current status is Yes or No in any letter case. */
  predicate IsYesNo(current: string) {
    ToUpper(current) == "YES" || ToUpper(current) == "NO"
  }

  /**
   * The approver rule, first match wins: a Yes/No status is retained by
   * Approver 1 and expected null for Approver 2; otherwise an override of
   * "No" or "" (compared untrimmed) with an emergency gives "Auto"; otherwise
   * a local or USD change at or above the threshold gives "Ready for Review";
   * otherwise "Auto".
   */
  function ExpectedApprover(level: Level, current: string, selected: string, emergency: bool,
                            localPct: real, usdPct: real, threshold: Number): (r: Expected)
    ensures IsYesNo(current) ==> r == (if level == First then Status(current) else NullStatus)
    ensures !IsYesNo(current) ==> r.Status? && r.s in {"Auto", "Ready for Review"}
    ensures !IsYesNo(current) && (selected == "No" || selected == []) && emergency ==> r == Status("Auto")
    ensures r == Status("Ready for Review")
            <==> !IsYesNo(current) && !((selected == "No" || selected == []) && emergency)
                 && (AtLeast(Num(localPct), threshold) || AtLeast(Num(usdPct), threshold))
  {
    if IsYesNo(current) then
      assert current != "Ready for Review" by { ReadyForReviewIsNotYesNo(); }
      if level == First then Status(current) else NullStatus
    else if (selected == "No" || selected == []) && emergency then Status("Auto")
    else if AtLeast(Num(localPct), threshold) || AtLeast(Num(usdPct), threshold) then Status("Ready for Review")
    else Status("Auto")
  }

  /** An expected null matches a blank status only; otherwise trimmed, case-insensitive equality. */
  predicate Matches(expected: Expected, current: string) {
    match expected
    case NullStatus => Trim(current) == []
    case Status(e) => ToUpper(Trim(current)) == ToUpper(Trim(e))
  }

  /** The Approver 1 retain branch always matches the status it retained. */
  lemma RetainAlwaysMatches(current: string, selected: string, emergency: bool, localPct: real, usdPct: real, threshold: Number)
    requires IsYesNo(current)
    ensures Matches(ExpectedApprover(First, current, selected, emergency, localPct, usdPct, threshold), current)
  {
  }

  /** A Yes/No status never matches Approver 2's expected null, so it is always reported as a mismatch. */
  lemma SecondYesNoNeverMatches(current: string, selected: string, emergency: bool, localPct: real, usdPct: real, threshold: Number)
    ensures IsYesNo(current) ==> !Matches(ExpectedApprover(Second, current, selected, emergency, localPct, usdPct, threshold), current)
  {
    if IsYesNo(current) {
      assert current != [];
      CaseKeepsSpaces(current[0]);
      assert UpperChar(current[0]) == ToUpper(current)[0];
      assert !IsSpace(current[0]);
      TrimEmptyIffBlank(current);
    }
  }

  /** Both approvers expect the same status unless the current one is Yes/No. */
  lemma ApproversAgreeOutsideRetain(current: string, selected: string, emergency: bool, localPct: real, usdPct: real, threshold: Number)
    requires !IsYesNo(current)
    ensures ExpectedApprover(First, current, selected, emergency, localPct, usdPct, threshold)
         == ExpectedApprover(Second, current, selected, emergency, localPct, usdPct, threshold)
  {
  }

  /** A change exactly equal to the threshold escalates: the boundary counts. */
  lemma ThresholdBoundaryEscalates(level: Level, current: string, selected: string, localPct: real, usdPct: real)
    requires !IsYesNo(current) && selected == "Yes"
    ensures ExpectedApprover(level, current, selected, true, localPct, usdPct, Num(localPct)) == Status("Ready for Review")
  {
  }

  /** Lowering the threshold never takes a record out of review. */
  lemma LowerThresholdKeepsReview(level: Level, current: string, selected: string, emergency: bool,
                                  localPct: real, usdPct: real, t: real, t2: real)
    requires t2 <= t
    requires ExpectedApprover(level, current, selected, emergency, localPct, usdPct, Num(t)) == Status("Ready for Review")
    ensures ExpectedApprover(level, current, selected, emergency, localPct, usdPct, Num(t2)) == Status("Ready for Review")
  {
  }

  /** A threshold that is not a number never escalates. */
  lemma NaNThresholdNeverReviews(level: Level, current: string, selected: string, emergency: bool, localPct: real, usdPct: real)
    ensures ExpectedApprover(level, current, selected, emergency, localPct, usdPct, NaN) != Status("Ready for Review")
  {
  }

  /** A 10% rise from 100 to 110 against a threshold of 10 escalates; a rise to 109.9 does not. */
  lemma TenPercentExample()
    ensures ExpectedApprover(First, "", "Yes", false, PctChange(100.0, 110.0), 0.0, Num(10.0)) == Status("Ready for Review")
    ensures ExpectedApprover(First, "", "Yes", false, PctChange(100.0, 109.9), 0.0, Num(10.0)) == Status("Auto")
  {
    PctAtLeastIff(100.0, 110.0, 10.0);
    PctAtLeastIff(100.0, 109.9, 10.0);
  }

  // ---------------------------------------------------------------------
  // One region and the region loop
  // ---------------------------------------------------------------------

  /** Everything read for one region, as text; statuses are already trimmed, failed reads are "". */
  datatype RegionReading = RegionReading(
    rec: Record,
    pmApproval: string,
    threshold1: string,
    threshold2: string,
    approver1: string,
    approver2: string,
    currentLocal: string,
    currentUsd: string)

  /** What happened to one region. */
  datatype RegionOutcome =
    | Aborted                 // the Calculated Local expectation failed; the region's try/catch logged it
    | NotEligible             // skipped with `continue`
    | Processed(calcLocal: real, pmApproval: string,
                expected1: Expected, match1: bool,
                expected2: Expected, match2: bool,
                approver3: string, approver4: string)

  /** The approver status the script expects for `level`, from the region's readings. */
  function ExpectedFor(level: Level, g: RegionReading): Expected
  {
    var emergency := EmergencyPresent(g.rec.china, g.rec.dn, g.rec.pvc);
    var localPct := PctChange(PriceOrZero(g.currentLocal), PriceOrZero(g.rec.futureLocal));
    var usdPct := PctChange(PriceOrZero(g.currentUsd), PriceOrZero(g.rec.futureUsd));
    var current := if level == First then g.approver1 else g.approver2;
    var threshold := Threshold(if level == First then g.threshold1 else g.threshold2);
    ExpectedApprover(level, current, g.rec.overrideFlag, emergency, localPct, usdPct, threshold)
  }

  /** For a region's own readings, Approver 1's retain branch matches and Approver 2's null never matches a Yes/No. */
  lemma ExpectedForMatches(g: RegionReading)
    ensures IsYesNo(g.approver1) ==> Matches(ExpectedFor(First, g), g.approver1)
    ensures IsYesNo(g.approver2) ==> !Matches(ExpectedFor(Second, g), g.approver2)
  {
    var emergency := EmergencyPresent(g.rec.china, g.rec.dn, g.rec.pvc);
    var localPct := PctChange(PriceOrZero(g.currentLocal), PriceOrZero(g.rec.futureLocal));
    var usdPct := PctChange(PriceOrZero(g.currentUsd), PriceOrZero(g.rec.futureUsd));
    var threshold := Threshold(g.threshold2);
    assert ExpectedFor(Second, g) == ExpectedApprover(Second, g.approver2, g.rec.overrideFlag, emergency, localPct, usdPct, threshold);
    SecondYesNoNeverMatches(g.approver2, g.rec.overrideFlag, emergency, localPct, usdPct, threshold);
  }

  /** One pass of the region loop's body. */
  function ProcessRegion(g: RegionReading): (r: RegionOutcome)
    ensures r == Aborted <==> CalcLocalFinal(g.rec.calcLocal).None?
    ensures r == NotEligible <==> CalcLocalFinal(g.rec.calcLocal).Some? && !Eligible(CalcLocalFinal(g.rec.calcLocal).value, g.rec)
    ensures r.Processed? ==> r.calcLocal > 0.0 && Eligible(r.calcLocal, g.rec)
    ensures r.Processed? ==> r.approver3 == "Auto" && r.approver4 == "Auto"
  {
    match CalcLocalFinal(g.rec.calcLocal)
    case None => Aborted
    case Some(finalValue) =>
      if !Eligible(finalValue, g.rec) then NotEligible
      else
        var e1 := ExpectedFor(First, g);
        var e2 := ExpectedFor(Second, g);
        Processed(finalValue, PmApprovalAfter(g.pmApproval),
                  e1, Matches(e1, g.approver1), e2, Matches(e2, g.approver2), "Auto", "Auto")
  }

  /** In a processed region a Yes/No Approver 1 is reported as a match and a Yes/No Approver 2 as a mismatch. */
  lemma ProcessedMatches(g: RegionReading)
    requires ProcessRegion(g).Processed?
    ensures IsYesNo(g.approver1) ==> ProcessRegion(g).match1
    ensures IsYesNo(g.approver2) ==> !ProcessRegion(g).match2
  {
    ExpectedForMatches(g);
  }

  /** A processed region had a positive Calculated Local and passed the eligibility check. */
  lemma ProcessedIsEligible(g: RegionReading)
    ensures ProcessRegion(g).Processed? ==> ProcessRegion(g).calcLocal > 0.0 && Eligible(ProcessRegion(g).calcLocal, g.rec)
  {
  }

  /** A region whose Calculated Local reads as zero is aborted by the expectation, never merely skipped. */
  lemma ZeroCalcLocalAborts(g: RegionReading)
    requires FieldText(g.rec.calcLocal) == "0"
    ensures ProcessRegion(g) == Aborted
  {
    ReadLiterals();
  }

  /** The test loops over the configured regions; each region's outcome is independent of the others. */
  method RunRegions(regions: seq<RegionReading>) returns (outcomes: seq<RegionOutcome>)
    ensures |outcomes| == |regions|
    ensures forall i :: 0 <= i < |regions| ==> outcomes[i] == ProcessRegion(regions[i])
    ensures forall i :: 0 <= i < |regions| && outcomes[i].Processed? ==> outcomes[i].calcLocal > 0.0
  {
    outcomes := [];
    var i := 0;
    while i < |regions|
      invariant 0 <= i <= |regions|
      invariant |outcomes| == i
      invariant forall j :: 0 <= j < i ==> outcomes[j] == ProcessRegion(regions[j])
    {
      var outcome := ProcessRegion(regions[i]);
      outcomes := outcomes + [outcome];
      i := i + 1;
    }
    forall i | 0 <= i < |regions| && outcomes[i].Processed?
      ensures outcomes[i].calcLocal > 0.0
    {
      ProcessedIsEligible(regions[i]);
    }
  }
}
