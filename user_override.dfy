/**
 * LP override checks (tests/china-user-override.spec.js): whether a record
 * is eligible for a list-price update and for the daily pricing action, and
 * which Future USD List Price follows from the local prices and the
 * calculated USD price.
 */
module UserOverride {
  import opened Wrappers
  import opened Text
  import opened JsNumber

  /** The record's field texts as read from the form (an input's value is always a string). */
  datatype Record = Record(
    lpFlag: string,
    futureLocal: string,
    calculatedLocal: string,
    calculatedUsd: string,
    futureUsd: string,
    dnAction: string,
    pvcAction: string,
    currentLocal: string,
    region: string)

  // ---------------------------------------------------------------------
  // Eligibility
  // ---------------------------------------------------------------------

  /** `v && v.trim() !== ''`: the field holds something other than white space. */
  predicate Filled(v: string) {
    v != [] && Trim(v) != []
  }

  /** A field is filled exactly when it is not blank. */
  lemma FilledIffNotBlank(v: string)
    ensures Filled(v) <==> !IsBlank(v)
  {
    TrimEmptyIffBlank(v);
  }

  /** LP Override Flag "Yes" (trimmed), Future Local and Calculated USD both filled. */
  predicate EligibleForLpUpdate(r: Record) {
    Trim(r.lpFlag) == "Yes" && Filled(r.futureLocal) && Filled(r.calculatedUsd)
  }

  /** `!val || val.trim().toLowerCase() === 'none'`. */
  predicate NullOrNone(v: string) {
    v == [] || ToLower(Trim(v)) == "none"
  }

  /** The three fields the script lists as pricing actions: DN, PVC and Current Local (not the China action). */
  function PricingActions(r: Record): (l: seq<string>)
    ensures |l| == 3 && l[0] == r.dnAction && l[1] == r.pvcAction && l[2] == r.currentLocal
  {
    [r.dnAction, r.pvcAction, r.currentLocal]
  }

  /** `pricingActions.every(NullOrNone)`. */
  predicate PricingActionsNullOrNone(r: Record) {
    forall v :: v in PricingActions(r) ==> NullOrNone(v)
  }

  /** Future USD blank, every listed pricing action null or "None", and a region other than CHINA. */
  predicate EligibleForDailyPricing(r: Record) {
    !Filled(r.futureUsd) && PricingActionsNullOrNone(r) && ToUpper(Trim(r.region)) != "CHINA"
  }

  /** The `every` check is the conjunction of the three fields' checks. */
  lemma PricingActionsIff(r: Record)
    ensures PricingActionsNullOrNone(r)
            <==> NullOrNone(r.dnAction) && NullOrNone(r.pvcAction) && NullOrNone(r.currentLocal)
  {
    var l := PricingActions(r);
    if NullOrNone(r.dnAction) && NullOrNone(r.pvcAction) && NullOrNone(r.currentLocal) {
      forall v | v in l ensures NullOrNone(v) {
        var k :| 0 <= k < 3 && l[k] == v;
      }
    }
  }

  /** "none" in any case and with surrounding white space counts as no action. */
  lemma NoneInAnyCase(pre: string, post: string)
    requires IsBlank(pre) && IsBlank(post)
    ensures NullOrNone(pre + "NoNe" + post)
  {
    var t := ['N', 'o', 'N', 'e'];
    var s := pre + t + post;
    assert s[|pre|..|pre| + 4] == t;
    assert s[|pre|] == 'N' && s[|pre| + 3] == 'e';
    assert s[..|pre|] == pre;
    assert s[|pre| + 4..] == post;
    TrimOfPadded(s, |pre|, |pre| + 4);
    assert ToLower(t) == "none";
  }

  /** Text whose visible part `s[i..j]` starts and ends with a visible character trims to that part. */
  lemma TrimOfPadded(s: string, i: nat, j: nat)
    requires i < j <= |s|
    requires IsBlank(s[..i]) && IsBlank(s[j..])
    requires !IsSpace(s[i]) && !IsSpace(s[j - 1])
    ensures Trim(s) == s[i..j]
  {
    assert SkipSpaces(s, 0) == i by {
      SkipSpacesOverBlank(s, 0, i);
    }
    TrimAt(s);
    TrimIsInfix(s);
  }

  /** Skipping white space from `n` over a blank stretch up to a visible character stops there. */
  lemma {:induction false} SkipSpacesOverBlank(s: string, n: nat, i: nat)
    requires n <= i < |s|
    requires IsBlank(s[..i]) && !IsSpace(s[i])
    ensures SkipSpaces(s, n) == i
    decreases i - n
  {
    if n < i {
      assert IsSpace(s[n]) by { assert s[n] == s[..i][n]; }
      SkipSpacesOverBlank(s, n + 1, i);
    }
  }

  /** A record of the CHINA region, in any case and padding, is never eligible for daily pricing. */
  lemma ChinaNeverDaily(r: Record)
    requires ToUpper(Trim(r.region)) == "CHINA"
    ensures !EligibleForDailyPricing(r)
  {
  }

  /** LP-update eligibility reads neither the region nor the pricing actions. */
  lemma LpUpdateIgnoresRegion(r: Record, region: string, dn: string, pvc: string)
    ensures EligibleForLpUpdate(r) == EligibleForLpUpdate(r.(region := region, dnAction := dn, pvcAction := pvc))
  {
  }

  // ---------------------------------------------------------------------
  // Future USD List Price
  // ---------------------------------------------------------------------

  /** `parseFloat(v) || 0`: an unreadable or zero field reads as 0. */
  function NumberOrZero(v: string): (x: real)
    ensures ParseFloat(v).Truthy() ==> Num(x) == ParseFloat(v)
    ensures !ParseFloat(v).Truthy() ==> x == 0.0
  {
    match Or(ParseFloat(v), Num(0.0))
    case Num(x) => x
    case NaN => 0.0
  }

  /** `parseFloat(v) || null`: a reading other than 0 and NaN, or null. */
  function NumberOrNull(v: string): (r: Option<real>)
    ensures r.Some? <==> ParseFloat(v).Truthy()
    ensures r.Some? ==> r.value != 0.0 && Num(r.value) == ParseFloat(v)
  {
    var n := Or(ParseFloat(v), NaN);
    if n.Num? then Some(n.v) else None
  }

  /** Which of the three branches of the Future USD rule applies. */
  datatype UsdCase = NoCalculatedUsd | Recalculate | LocalUnchanged

  /**
   * The branch taken, from the parsed readings: no truthy Calculated USD
   * first; then a recalculation when Future Local differs from Calculated
   * Local and Calculated Local is not 0; otherwise the existing value stays.
   */
  function UsdCaseOf(futureLocal: real, calculatedLocal: real, calculatedUsd: Number): (c: UsdCase)
    ensures c == NoCalculatedUsd <==> !calculatedUsd.Truthy()
    ensures c == Recalculate <==> calculatedUsd.Truthy() && futureLocal != calculatedLocal && calculatedLocal != 0.0
  {
    if !calculatedUsd.Truthy() then NoCalculatedUsd
    else if futureLocal != calculatedLocal && calculatedLocal != 0.0 then Recalculate
    else LocalUnchanged
  }

  /** The Future USD List Price from the parsed readings; `None` is null. */
  function FutureUsdOf(futureLocal: real, calculatedLocal: real, calculatedUsd: Number, existing: Option<real>): (u: Option<real>)
    ensures UsdCaseOf(futureLocal, calculatedLocal, calculatedUsd) != Recalculate ==> u == existing
    ensures UsdCaseOf(futureLocal, calculatedLocal, calculatedUsd) == Recalculate
            ==> u.Some? && u.value * calculatedLocal == futureLocal * calculatedUsd.v
  {
    match UsdCaseOf(futureLocal, calculatedLocal, calculatedUsd)
    case Recalculate =>
      ScaledRatio(futureLocal, calculatedLocal, calculatedUsd.v);
      Some(futureLocal / calculatedLocal * calculatedUsd.v)
    case _ => existing
  }

  /** The branch the script takes for a record. */
  function FutureUsdCase(r: Record): (c: UsdCase)
    ensures c == NoCalculatedUsd <==> !ParseFloat(r.calculatedUsd).Truthy()
    ensures c == Recalculate ==> NumberOrZero(r.calculatedLocal) != 0.0
  {
    UsdCaseOf(NumberOrZero(r.futureLocal), NumberOrZero(r.calculatedLocal), ParseFloat(r.calculatedUsd))
  }

  /** The Future USD List Price the script writes for a record; `None` is null. */
  function FutureUsd(r: Record): (u: Option<real>)
    ensures FutureUsdCase(r) != Recalculate ==> u == NumberOrNull(r.futureUsd)
    ensures FutureUsdCase(r) == Recalculate ==> u.Some?
  {
    FutureUsdOf(NumberOrZero(r.futureLocal), NumberOrZero(r.calculatedLocal), ParseFloat(r.calculatedUsd), NumberOrNull(r.futureUsd))
  }

  lemma ScaledRatio(a: real, b: real, c: real)
    requires b != 0.0
    ensures a / b * c * b == a * c
  {
    calc {
      a / b * c * b;
      == a / b * b * c;
      == a * c;
    }
  }

  /** When the two local prices read alike the existing Future USD is kept, whatever Calculated USD says. */
  lemma EqualLocalsKeepExisting(r: Record)
    requires NumberOrZero(r.futureLocal) == NumberOrZero(r.calculatedLocal)
    ensures FutureUsd(r) == NumberOrNull(r.futureUsd)
  {
  }

  /** An unreadable or zero Calculated Local never triggers a recalculation (no division by 0). */
  lemma ZeroCalculatedLocalKeepsExisting(r: Record)
    requires !ParseFloat(r.calculatedLocal).Truthy()
    ensures FutureUsd(r) == NumberOrNull(r.futureUsd)
  {
  }

  /** An existing Future USD of 0 or unreadable text is kept as null, never as 0. */
  lemma ExistingZeroBecomesNull(r: Record)
    requires !ParseFloat(r.futureUsd).Truthy()
    requires FutureUsdCase(r) != Recalculate
    ensures FutureUsd(r) == None
  {
  }

  /**
   * A Future Local that reads as 0 (unreadable text included) against a
   * non-zero Calculated Local recalculates the Future USD to 0.
   */
  lemma ZeroFutureLocalGivesZero(calculatedLocal: real, calculatedUsd: Number, existing: Option<real>)
    requires calculatedUsd.Truthy() && calculatedLocal != 0.0
    ensures FutureUsdOf(0.0, calculatedLocal, calculatedUsd, existing) == Some(0.0)
  {
    assert UsdCaseOf(0.0, calculatedLocal, calculatedUsd) == Recalculate;
    assert 0.0 / calculatedLocal * calculatedUsd.v == 0.0;
  }
}
