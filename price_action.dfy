/**
 * Price-action update (tests/price-action.spec.js): factors and exchange
 * rates are read per region, then for each configured region the Current
 * Base Price is seeded when falsy, the China Pricing Action is set for
 * CHINA only, and the USD and local prices are written into both their
 * Future and Calculated fields unless a factor is falsy.
 */
module PriceAction {
  import opened Wrappers
  import opened Text
  import opened JsNumber
  import opened Regions
  import opened ListPricing

  /**
   * `getSpNumericValue`: a field that is not visible, whose read fails
   * (`None`) or that is empty reads as 0; otherwise `parseFloat` of the text
   * without commas, which may be NaN.
   */
  function ReadSpNumeric(raw: Option<string>): (r: Number)
    ensures raw.None? || raw.value == [] ==> r == Num(0.0)
    ensures raw.Some? && raw.value != [] ==> r == ParseFloat(StripCommas(raw.value))
  {
    match raw
    case None => Num(0.0)
    case Some(v) => if v == [] then Num(0.0) else ParseFloat(StripCommas(v))
  }

  /** A field showing the digits of a whole number reads back as that number. */
  lemma ReadSpNumericOfNat(n: nat)
    ensures ReadSpNumeric(Some(NatToString(n))) == Num(n as real)
  {
    var s := NatToString(n);
    assert forall i :: 0 <= i < |s| ==> (c => c != ',')(s[i]);
    FilterKeepsAll(s, c => c != ',');
    ParseFloatOfNat(n);
  }

  /** A region's factors as `extractFactors` returns them. */
  datatype Factors = Factors(usd: Number, local: Number)

  /** Both factors read with `getSpNumericValue`, so a missing factor is 0. */
  function ExtractFactors(usdRaw: Option<string>, localRaw: Option<string>): (r: Factors)
    ensures r.usd == ReadSpNumeric(usdRaw) && r.local == ReadSpNumeric(localRaw)
    ensures usdRaw.None? ==> !r.usd.Truthy()
  {
    Factors(ReadSpNumeric(usdRaw), ReadSpNumeric(localRaw))
  }

  /** The two prices a region's update writes, each into its Future and its Calculated field. */
  datatype Prices = Prices(usd: Number, local: Number)

  /** What the loop body does for one known region. */
  datatype RegionUpdate = RegionUpdate(
    setsChinaAction: bool,   // "Emergency Change-China" selected in China Pricing Action
    base: Number,            // Current Base Price after seeding
    seeded: bool,            // 100 written into Current Base Price
    written: Option<Prices>) // None when the calculation is skipped

  /** The loop body; an unknown region has no factors, and reading `factors.USD` throws (`Err`). */
  function UpdateRegion(region: string, factors: Table<Factors>, rates: Table<Number>, currentRaw: Option<string>): (r: Result<RegionUpdate, string>)
    ensures r.Err? <==> FromName(region).None?
    ensures r.Ok? ==> r.value.base.Truthy()
    ensures r.Ok? ==> (r.value.seeded <==> !ReadSpNumeric(currentRaw).Truthy())
  {
    match FromName(region)
    case None => Err("TypeError: cannot read properties of undefined")
    case Some(g) =>
      var f := factors.Get(g);
      var rate := rates.Get(g);
      var current := ReadSpNumeric(currentRaw);
      var base := SeedBase(current);
      var written :=
        if !f.usd.Truthy() || !f.local.Truthy() then None
        else Some(Prices(UsdPrice(base, f.usd), LocalPrice(base, f.local, rate)));
      Ok(RegionUpdate(region == "CHINA", base, !current.Truthy(), written))
  }

  /** The China Pricing Action is changed in the CHINA region and in no other. */
  lemma ChinaActionOnlyForChina(region: string, factors: Table<Factors>, rates: Table<Number>, currentRaw: Option<string>)
    requires FromName(region).Some?
    ensures UpdateRegion(region, factors, rates, currentRaw).value.setsChinaAction <==> FromName(region) == Some(China)
  {
    FromNameOfName(China);
  }

  /** Prices are written exactly when both factors of the region are truthy (non-zero numbers). */
  lemma WrittenIffFactorsTruthy(g: Region, factors: Table<Factors>, rates: Table<Number>, currentRaw: Option<string>)
    ensures var r := UpdateRegion(Name(g), factors, rates, currentRaw);
            r.Ok? && (r.value.written.Some? <==> factors.Get(g).usd.Truthy() && factors.Get(g).local.Truthy())
  {
    FromNameOfName(g);
  }

  /**
   * The written prices come from the seeded Current Base Price alone (no
   * future/publish fallback): USD = base × USD factor and local = base ×
   * local factor × rate, so the local price is the USD price at the rate
   * whenever the two factors are equal.
   */
  lemma WrittenPrices(g: Region, factors: Table<Factors>, rates: Table<Number>, currentRaw: Option<string>)
    ensures var r := UpdateRegion(Name(g), factors, rates, currentRaw);
            r.Ok? && (r.value.written.Some? ==>
              r.value.written.value.usd == UsdPrice(SeedBase(ReadSpNumeric(currentRaw)), factors.Get(g).usd) &&
              r.value.written.value.local == LocalPrice(SeedBase(ReadSpNumeric(currentRaw)), factors.Get(g).local, rates.Get(g)) &&
              r.value.written.value.usd.Num?)
  {
    FromNameOfName(g);
  }

  /** An empty or unreadable Current Base Price is seeded with 100, and the USD price is then 100 × the USD factor. */
  lemma EmptyBaseIsHundred(g: Region, factors: Table<Factors>, rates: Table<Number>)
    ensures var r := UpdateRegion(Name(g), factors, rates, None);
            r.Ok? && r.value.seeded && r.value.base == Num(100.0) &&
            (r.value.written.Some? ==> r.value.written.value.usd == Num(100.0 * factors.Get(g).usd.v))
  {
    FromNameOfName(g);
  }

  /** The loop body for every configured region, in order. */
  function Steps(regions: seq<string>, factors: Table<Factors>, rates: Table<Number>, currentRaws: seq<Option<string>>): (r: seq<Result<RegionUpdate, string>>)
    requires |currentRaws| == |regions|
    ensures |r| == |regions|
    ensures forall j :: 0 <= j < |r| ==> r[j] == UpdateRegion(regions[j], factors, rates, currentRaws[j])
  {
    seq(|regions|, j requires 0 <= j < |regions| => UpdateRegion(regions[j], factors, rates, currentRaws[j]))
  }

  /**
   * The region loop: List Pricing is selected in the grid on the first pass
   * only, and an error thrown for one region ends the test.
   */
  method RunRegions(regions: seq<string>, factors: Table<Factors>, rates: Table<Number>, currentRaws: seq<Option<string>>)
    returns (updates: seq<RegionUpdate>, selectedAt: seq<bool>, error: Option<string>)
    requires |currentRaws| == |regions|
    ensures |selectedAt| == |updates| <= |regions|
    ensures forall i :: 0 <= i < |selectedAt| ==> selectedAt[i] == (i == 0)
    ensures error.None? ==> FirstN(Steps(regions, factors, rates, currentRaws), |regions|) == Ok(updates)
    ensures error.Some? ==> FirstN(Steps(regions, factors, rates, currentRaws), |regions|) == Err(error.value)
  {
    updates, selectedAt, error := [], [], None;
    var isListPricingSelected := false;
    ghost var steps := Steps(regions, factors, rates, currentRaws);
    var i := 0;
    while i < |regions|
      invariant 0 <= i <= |regions|
      invariant |updates| == i && |selectedAt| == i
      invariant isListPricingSelected <==> i > 0
      invariant FirstN(steps, i) == Ok(updates)
      invariant forall j :: 0 <= j < i ==> selectedAt[j] == (j == 0)
    {
      var selectsNow := !isListPricingSelected;
      isListPricingSelected := true;
      var r := UpdateRegion(regions[i], factors, rates, currentRaws[i]);
      if r.Err? {
        error := Some(r.error);
        assert steps[i] == r;
        FirstNErrorPersists(steps, i + 1, |regions|);
        return;
      }
      updates := updates + [r.value];
      selectedAt := selectedAt + [selectsNow];
      i := i + 1;
    }
  }
}
