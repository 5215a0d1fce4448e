/**
 * Markup-factor comparison (core-temp.js): the "Markup Factor for Local
 * Currency List Price" of a list-pricing record and the "Current CM Markup
 * Factor" of its markup record are parsed and must agree to within 0.001;
 * a mismatch ends the script with exit code 1.
 */
module CoreTemp {
  import opened Text
  import opened JsNumber

  /** An input's raw value: empty text reads as 0; otherwise commas are removed, the text trimmed and `parseFloat` applied. */
  function ParseFactor(raw: string): (r: Number)
    ensures raw == [] ==> r == Num(0.0)
    ensures raw != [] ==> r == ParseFloat(Trim(StripCommas(raw)))
  {
    if raw == [] then Num(0.0) else ParseFloat(Trim(StripCommas(raw)))
  }

  /** Thousands separators do not change the reading. */
  lemma CommasIgnored(raw: string)
    requires raw != [] && StripCommas(raw) != []
    ensures ParseFactor(StripCommas(raw)) == ParseFactor(raw)
  {
    FilterIdempotent(raw, c => c != ',');
  }

  /** `Math.abs(lp - cm) < 0.001`; a NaN on either side never matches. */
  predicate FactorsMatch(lp: Number, cm: Number) {
    Within(lp, cm, 0.001)
  }

  /** The comparison does not depend on which factor is which. */
  lemma MatchSymmetric(lp: Number, cm: Number)
    ensures FactorsMatch(lp, cm) <==> FactorsMatch(cm, lp)
  {
    WithinSymmetric(lp, cm, 0.001);
  }

  /** The tolerance is strict: a difference of 0.001 is a mismatch, one of 0.0009 a match. */
  lemma MatchBoundary(x: real)
    ensures !FactorsMatch(Num(x + 0.001), Num(x))
    ensures FactorsMatch(Num(x + 0.0009), Num(x))
    ensures !FactorsMatch(NaN, Num(x))
  {
  }

  /** How the script ends. */
  datatype Outcome = Pass | Exit(code: int)

  /** The comparison of the two raw factor texts: PASS, or FAIL with exit code 1. */
  function Compare(lpRaw: string, cmRaw: string): (r: Outcome)
    ensures r == Pass <==> FactorsMatch(ParseFactor(lpRaw), ParseFactor(cmRaw))
    ensures r != Pass ==> r == Exit(1)
  {
    if FactorsMatch(ParseFactor(lpRaw), ParseFactor(cmRaw)) then Pass else Exit(1)
  }

  /** Two empty factors both read as 0 and match. */
  lemma BothEmptyMatch()
    ensures Compare("", "") == Pass
  {
  }

  /** Text without a digit is NaN to `parseFloat`. */
  lemma NoDigitIsNaN(s: string)
    requires forall k :: 0 <= k < |s| ==> !IsDigit(s[k])
    ensures ParseFloat(s) == NaN
  {
  }

  /** A non-empty factor text without a digit reads as NaN. */
  lemma NoDigitFactorIsNaN(raw: string)
    requires raw != [] && forall k :: 0 <= k < |raw| ==> !IsDigit(raw[k])
    ensures ParseFactor(raw) == NaN
  {
    var sc := StripCommas(raw);
    FilterFromInput(raw, c => c != ',');
    assert forall k :: 0 <= k < |sc| ==> !IsDigit(sc[k]) by {
      forall k | 0 <= k < |sc| ensures !IsDigit(sc[k]) {
        assert sc[k] in raw;
        var m :| 0 <= m < |raw| && raw[m] == sc[k];
      }
    }
    NoDigitTrimmed(sc);
  }

  /** Trimming text without a digit leaves text without a digit, which `parseFloat` reads as NaN. */
  lemma NoDigitTrimmed(sc: string)
    requires forall k :: 0 <= k < |sc| ==> !IsDigit(sc[k])
    ensures ParseFloat(Trim(sc)) == NaN
  {
    TrimKeepsDigitFree(sc);
    NoDigitIsNaN(Trim(sc));
  }

  /** An empty factor against a factor whose text has no digit fails: 0 against NaN. */
  lemma EmptyAgainstUnreadableFails(cmRaw: string)
    requires cmRaw != [] && forall k :: 0 <= k < |cmRaw| ==> !IsDigit(cmRaw[k])
    ensures Compare("", cmRaw) == Exit(1)
  {
    NoDigitFactorIsNaN(cmRaw);
  }
}
