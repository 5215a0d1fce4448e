/**
 * China pricing-action check (tests/china-pricing-action.spec.js): for each
 * configured region the test seeds a missing Current Base Price, writes the
 * expected USD price into Future and Calculated USD, writes the expected
 * local price into Calculated and Future Local, and classifies what the UI
 * then shows.
 */
module ChinaPricingAction {
  import opened Wrappers
  import opened Text
  import opened JsNumber
  import opened Regions
  import opened ListPricing
  import Grid

  // ---------------------------------------------------------------------
  // Reading numeric fields
  // ---------------------------------------------------------------------

  /**
   * A numeric field read: `None` when the read failed or the field was
   * empty, otherwise `parseFloat` of the text without commas (possibly NaN).
   */
  function ReadNumeric(raw: Option<string>): (r: Option<Number>)
    ensures r.None? <==> raw.None? || raw.value == []
    ensures r.Some? ==> r.value == ParseFloat(StripCommas(raw.value))
  {
    match raw
    case None => None
    case Some(v) => if v == [] then None else Some(ParseFloat(StripCommas(v)))
  }

  /** `!currentBasePrice || currentBasePrice === 0`: a missing, NaN or zero base price is replaced by 100. */
  function SeedCurrentBase(current: Option<Number>): (r: Number)
    ensures r.Truthy()
    ensures current.Some? && current.value.Truthy() ==> r == current.value
    ensures current.None? || !current.value.Truthy() ==> r == Num(100.0)
  {
    SeedBase(current.GetOr(NaN))
  }

  /** JavaScript `a ?? b`: `a` unless it is null. NaN and 0 are kept. */
  function Coalesce(a: Option<Number>, b: Number): (r: Number)
    ensures a.Some? ==> r == a.value
    ensures a.None? ==> r == b
  {
    a.GetOr(b)
  }

  /** `future ?? publish ?? current ?? 0`: the base price of the local calculation. */
  function LocalBase(future: Option<Number>, publish: Option<Number>, current: Option<Number>): (r: Number)
  {
    Coalesce(future, Coalesce(publish, Coalesce(current, Num(0.0))))
  }

  /** The first non-null of future, publish and current is used, even when it is 0 or NaN. */
  lemma LocalBasePrecedence(future: Option<Number>, publish: Option<Number>, current: Option<Number>)
    ensures future.Some? ==> LocalBase(future, publish, current) == future.value
    ensures future.None? && publish.Some? ==> LocalBase(future, publish, current) == publish.value
    ensures future.None? && publish.None? && current.Some? ==> LocalBase(future, publish, current) == current.value
    ensures future.None? && publish.None? && current.None? ==> LocalBase(future, publish, current) == Num(0.0)
  {
  }

  /** Because the current price has been seeded, the final `?? 0` is never reached: the base is one of the three prices. */
  lemma SeededBaseNeverDefaults(future: Option<Number>, publish: Option<Number>, current: Option<Number>)
    ensures var b := LocalBase(future, publish, Some(SeedCurrentBase(current)));
            (future.Some? && b == future.value) || (publish.Some? && b == publish.value) || b.Truthy()
  {
  }

  // ---------------------------------------------------------------------
  // Verdicts
  // ---------------------------------------------------------------------

  /** JavaScript `===` between a field read and a computed number: null and NaN are never equal to anything. */
  predicate StrictEquals(a: Option<Number>, b: Number) {
    a.Some? && a.value.Num? && b.Num? && a.value.v == b.v
  }

  /** The USD check passes only when both Calculated and Future USD are exactly the expected value. */
  predicate UsdPass(actualCalc: Option<Number>, actualFuture: Option<Number>, expected: Number) {
    StrictEquals(actualCalc, expected) && StrictEquals(actualFuture, expected)
  }

  /** An expected USD that is NaN (a factor that did not parse) can never pass. */
  lemma NaNExpectedNeverPasses(actualCalc: Option<Number>, actualFuture: Option<Number>)
    ensures !UsdPass(actualCalc, actualFuture, NaN)
  {
  }

  /** When both fields show the value the test wrote, a numeric expectation passes and the two fields agree. */
  lemma UsdPassIff(actualCalc: Option<Number>, actualFuture: Option<Number>, expected: Number)
    ensures UsdPass(actualCalc, actualFuture, expected)
            <==> expected.Num? && actualCalc == Some(expected) && actualFuture == Some(expected)
  {
  }

  /** The three outcomes of the local-currency check. */
  datatype LocalVerdict = Warning | Pass | Fail

  /**
   * A missing or NaN UI value (Calculated or Future Local) gives a warning;
   * otherwise the Calculated Local must be within 0.01 of the expected value.
   */
  function CheckLocal(uiCalc: Option<Number>, uiFuture: Option<Number>, expected: Number): (r: LocalVerdict)
    ensures r == Warning <==> uiCalc.None? || uiFuture.None? || uiCalc.value.NaN? || uiFuture.value.NaN?
    ensures r == Pass <==> r != Warning && Within(uiCalc.value, expected, 0.01)
    ensures r == Pass ==> expected.Num?
  {
    if uiCalc.None? || uiFuture.None? || uiCalc.value.NaN? || uiFuture.value.NaN? then Warning
    else if Within(uiCalc.value, expected, 0.01) then Pass
    else Fail
  }

  /** The Future Local value only matters for the warning: once both are numbers it does not affect the verdict. */
  lemma FutureLocalNotCompared(uiCalc: Option<Number>, x: real, y: real, expected: Number)
    ensures CheckLocal(uiCalc, Some(Num(x)), expected) == CheckLocal(uiCalc, Some(Num(y)), expected)
  {
  }

  /** The 0.01 tolerance is strict: a difference of exactly 0.01 fails. */
  lemma LocalToleranceBoundary(e: real)
    ensures CheckLocal(Some(Num(e + 0.01)), Some(Num(e)), Num(e)) == Fail
    ensures CheckLocal(Some(Num(e + 0.009)), Some(Num(e)), Num(e)) == Pass
  {
  }

  // ---------------------------------------------------------------------
  // One region, and the region loop
  // ---------------------------------------------------------------------

  /** One entry of the region configuration. */
  datatype RegionConfig = RegionConfig(region: string, productCode: string)

  /** A region's factors, read once before the loop with `parseFloat` (no comma removal). */
  datatype Factors = Factors(usd: Number, local: Number)

  /** The field reads of one region, as raw texts (`None` for a read that failed). */
  datatype RegionReads = RegionReads(
    futureBase: Option<string>,
    publishBase: Option<string>,
    currentBase: Option<string>,
    calcUsdAfter: Option<string>,
    futureUsdAfter: Option<string>,
    calcLocalAfter: Option<string>,
    futureLocalAfter: Option<string>)

  /** What the test computes and concludes for one region. */
  datatype RegionCheck = RegionCheck(
    currentBase: Number,      // after seeding; this is written back when it was seeded
    seeded: bool,
    expectedUsd: Number,      // written into Future USD and Calculated USD
    usdPass: bool,
    expectedLocal: Number,    // written into Calculated Local and Future Local
    localVerdict: LocalVerdict)

  /** The body of the region loop for a known region, with its factors and exchange rate. */
  function CheckKnown(f: Factors, rate: Number, ui: RegionReads): (r: RegionCheck)
    ensures r.currentBase.Truthy()
    ensures r.seeded <==> !(ReadNumeric(ui.currentBase).Some? && ReadNumeric(ui.currentBase).value.Truthy())
    ensures r.seeded ==> r.currentBase == Num(100.0)
    ensures !r.seeded ==> r.currentBase == ReadNumeric(ui.currentBase).value
    ensures r.expectedUsd == UsdPrice(r.currentBase, f.usd)
    ensures r.usdPass == UsdPass(ReadNumeric(ui.calcUsdAfter), ReadNumeric(ui.futureUsdAfter), r.expectedUsd)
    ensures r.usdPass ==> r.expectedUsd.Num?
    ensures r.expectedLocal == LocalPrice(LocalBase(ReadNumeric(ui.futureBase), ReadNumeric(ui.publishBase), Some(r.currentBase)), f.local, rate)
    ensures r.localVerdict == CheckLocal(ReadNumeric(ui.calcLocalAfter), ReadNumeric(ui.futureLocalAfter), r.expectedLocal)
  {
    var current := ReadNumeric(ui.currentBase);
    var base := SeedCurrentBase(current);
    var expectedUsd := UsdPrice(base, f.usd);
    var usdPass := UsdPass(ReadNumeric(ui.calcUsdAfter), ReadNumeric(ui.futureUsdAfter), expectedUsd);
    var localBase := LocalBase(ReadNumeric(ui.futureBase), ReadNumeric(ui.publishBase), Some(base));
    var expectedLocal := LocalPrice(localBase, f.local, rate);
    var verdict := CheckLocal(ReadNumeric(ui.calcLocalAfter), ReadNumeric(ui.futureLocalAfter), expectedLocal);
    RegionCheck(base, !(current.Some? && current.value.Truthy()), expectedUsd, usdPass, expectedLocal, verdict)
  }

  /**
   * When the UI reads back exactly what the test wrote, both checks pass:
   * a numeric USD expectation in both USD fields, and a numeric local
   * expectation in Calculated Local with a number in Future Local.
   */
  lemma WrittenValuesPass(f: Factors, rate: Number, ui: RegionReads)
    ensures var r := CheckKnown(f, rate, ui);
      (r.expectedUsd.Num? && ReadNumeric(ui.calcUsdAfter) == Some(r.expectedUsd) &&
       ReadNumeric(ui.futureUsdAfter) == Some(r.expectedUsd)) ==> r.usdPass
    ensures var r := CheckKnown(f, rate, ui);
      (r.expectedLocal.Num? && ReadNumeric(ui.calcLocalAfter) == Some(r.expectedLocal) &&
       ReadNumeric(ui.futureLocalAfter).Some? && ReadNumeric(ui.futureLocalAfter).value.Num?) ==> r.localVerdict == Pass
  {
  }

  /** The body of the region loop; an unknown region name throws a TypeError (`Err`). */
  function CheckRegion(cfg: RegionConfig, factors: Table<Factors>, rates: Table<Number>, ui: RegionReads): (r: Result<RegionCheck, string>)
    ensures r.Err? <==> FromName(cfg.region).None?
    ensures r.Ok? ==> r.value == CheckKnown(factors.Get(FromName(cfg.region).value), rates.Get(FromName(cfg.region).value), ui)
  {
    match FromName(cfg.region)
    case None => Err("TypeError: cannot read properties of undefined")
    case Some(g) => Ok(CheckKnown(factors.Get(g), rates.Get(g), ui))
  }

  /** A region with no Current Base Price is priced from 100: its expected USD is 100 × the USD factor. */
  lemma MissingBaseUsesHundred(cfg: RegionConfig, factors: Table<Factors>, rates: Table<Number>, ui: RegionReads, g: Region)
    requires FromName(cfg.region) == Some(g)
    requires ui.currentBase.None? || ui.currentBase == Some([])
    ensures CheckRegion(cfg, factors, rates, ui).Ok?
    ensures CheckRegion(cfg, factors, rates, ui).value.seeded
    ensures CheckRegion(cfg, factors, rates, ui).value.expectedUsd == UsdPrice(Num(100.0), factors.Get(g).usd)
  {
  }

  /** The outcome of the loop body for every configured region, in order. */
  function Steps(configs: seq<RegionConfig>, factors: Table<Factors>, rates: Table<Number>, ui: seq<RegionReads>): (r: seq<Result<RegionCheck, string>>)
    requires |ui| == |configs|
    ensures |r| == |configs|
    ensures forall j :: 0 <= j < |r| ==> r[j] == CheckRegion(configs[j], factors, rates, ui[j])
  {
    seq(|configs|, j requires 0 <= j < |configs| => CheckRegion(configs[j], factors, rates, ui[j]))
  }

  /**
   * The region loop. The first pass also switches the grid to List Pricing;
   * a thrown error ends the whole test, so later regions are not visited.
   */
  method RunRegions(configs: seq<RegionConfig>, factors: Table<Factors>, rates: Table<Number>, ui: seq<RegionReads>)
    returns (checks: seq<RegionCheck>, selectedAt: seq<bool>, error: Option<string>)
    requires |ui| == |configs|
    ensures |selectedAt| == |checks| <= |configs|
    ensures forall i :: 0 <= i < |selectedAt| ==> selectedAt[i] == (i == 0)
    ensures error.None? ==> FirstN(Steps(configs, factors, rates, ui), |configs|) == Ok(checks)
    ensures error.Some? ==> FirstN(Steps(configs, factors, rates, ui), |configs|) == Err(error.value)
  {
    checks, selectedAt, error := [], [], None;
    var isListPricingSelected := false;
    ghost var steps := Steps(configs, factors, rates, ui);
    var i := 0;
    while i < |configs|
      invariant 0 <= i <= |configs|
      invariant |checks| == i && |selectedAt| == i
      invariant isListPricingSelected <==> i > 0
      invariant FirstN(steps, i) == Ok(checks)
      invariant forall j :: 0 <= j < i ==> selectedAt[j] == (j == 0)
    {
      var selectsNow := !isListPricingSelected;
      isListPricingSelected := true;
      var r := CheckRegion(configs[i], factors, rates, ui[i]);
      if r.Err? {
        error := Some(r.error);
        assert steps[i] == r;
        FirstNErrorPersists(steps, i + 1, |configs|);
        return;
      }
      checks := checks + [r.value];
      selectedAt := selectedAt + [selectsNow];
      i := i + 1;
    }
  }

  /** The grid's header scan for "Current Base Price": the first header carrying that title. */
  method FindBasePriceColumn(titles: seq<string>) returns (columnIndex: int)
    ensures columnIndex == Grid.FirstColumn(titles, "Current Base Price")
  {
    columnIndex := Grid.FindFirstColumn(titles, "Current Base Price");
  }
}
