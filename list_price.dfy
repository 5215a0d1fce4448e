/**
 * List-price check (tests/list-price.spec.js): a (list pricing, markup) code
 * pair is found in the mapping table, the list-pricing code's region prefix
 * is replaced by each region in turn, and for every region the grid's
 * Current Base Price is multiplied by the region's USD factor and compared,
 * with an absolute tolerance of 0.01, against what the UI shows.
 */
module ListPrice {
  import opened Wrappers
  import opened Text
  import opened JsNumber
  import opened Regions
  import opened ListPricing
  import CodePairs
  import Grid

  // ---------------------------------------------------------------------
  // Codes
  // ---------------------------------------------------------------------

  /**
   * The base part number: with a "-" in the code, the first "-"-separated
   * piece is dropped and the rest re-joined with "-"; otherwise the code as
   * it is. This is exactly the text after the first "-".
   */
  function BasePartNumber(code: string): (r: string)
    ensures '-' !in code ==> r == code
    ensures '-' in code ==> exists i :: 0 <= i < |code| && code[i] == '-' && '-' !in code[..i] && r == code[i + 1..]
  {
    match FirstIndex(code, '-')
    case None => code
    case Some(i) =>
      AfterFirstSeparator(code, '-', i);
      Join(Split(code, '-')[1..], '-')
  }

  /** `${region}-${basePartNumber}`: the filter code of one region. */
  function RegionCode(region: string, base: string): (r: string)
    ensures |r| == |region| + 1 + |base|
  {
    region + "-" + base
  }

  /** Rewriting a region code gives its base part back, whatever the base contains, when the region name has no "-". */
  lemma BasePartOfRegionCode(region: string, base: string)
    requires '-' !in region
    ensures BasePartNumber(RegionCode(region, base)) == base
  {
    var code := RegionCode(region, base);
    assert code[|region|] == '-';
    assert code[..|region|] == region;
    var i := FirstIndex(code, '-').value;
    assert i == |region|;
    assert code[i + 1..] == base;
  }

  /** No region name contains "-", so every region's filter code rewrites back to the base part number. */
  lemma RegionCodeRoundTrip(g: Region, base: string)
    ensures BasePartNumber(RegionCode(Name(g), base)) == base
  {
    assert '-' !in Name(g) by {
      match g
      case China =>
      case Taiwan =>
      case Mongolia =>
      case HongKong =>
    }
    BasePartOfRegionCode(Name(g), base);
  }

  /** Re-prefixing a code that starts with a region name and "-" with another region is the same as replacing that region name. */
  lemma SwapRegionPrefix(g: Region, h: Region, base: string)
    ensures RegionCode(Name(h), BasePartNumber(RegionCode(Name(g), base))) == RegionCode(Name(h), base)
  {
    RegionCodeRoundTrip(g, base);
  }

  /** The order in which the regions are visited. */
  const LoopRegions: seq<Region> := [China, HongKong, Mongolia, Taiwan]

  /** The filter codes of the four regions, in loop order, from the list-pricing code found in the mapping table. */
  function FilterCodes(listPricingCode: string): (r: seq<string>)
    ensures |r| == |LoopRegions|
    ensures forall k :: 0 <= k < |r| ==> BasePartNumber(r[k]) == BasePartNumber(listPricingCode)
  {
    var base := BasePartNumber(listPricingCode);
    var codes := seq(|LoopRegions|, k requires 0 <= k < |LoopRegions| => RegionCode(Name(LoopRegions[k]), base));
    assert forall k :: 0 <= k < |codes| ==> BasePartNumber(codes[k]) == base by {
      forall k | 0 <= k < |codes| ensures BasePartNumber(codes[k]) == base {
        RegionCodeRoundTrip(LoopRegions[k], base);
      }
    }
    codes
  }

  /** `getDynamicCodes` and the rewrite: the filter codes, or the failure that ends the test. */
  function CodesFromMapping(rows: seq<CodePairs.MappingRow>): (r: Result<seq<string>, CodePairs.Failure>)
    ensures r.Err? <==> CodePairs.SearchOutcome(rows).Err?
    ensures r.Ok? ==> r.value == FilterCodes(CodePairs.SearchOutcome(rows).value.listPricingCode)
  {
    match CodePairs.SearchOutcome(rows)
    case Err(e) => Err(e)
    case Ok(p) => Ok(FilterCodes(p.listPricingCode))
  }

  // ---------------------------------------------------------------------
  // Factors, rates and field reads
  // ---------------------------------------------------------------------

  datatype Factors = Factors(usd: Number, local: Number)

  /**
   * `extractFactor`: when both inputs are visible each factor is
   * `parseFloat(text) || 1`, so 0 and NaN become 1; otherwise both are 1.
   * Either way both factors are truthy.
   */
  function ExtractFactors(visible: bool, usdText: string, localText: string): (r: Factors)
    ensures r.usd.Truthy() && r.local.Truthy()
    ensures !visible ==> r == Factors(Num(1.0), Num(1.0))
    ensures visible && ParseFloat(usdText).Truthy() ==> r.usd == ParseFloat(usdText)
    ensures visible && ParseFloat(localText).Truthy() ==> r.local == ParseFloat(localText)
    ensures visible && !ParseFloat(usdText).Truthy() ==> r.usd == Num(1.0)
    ensures visible && !ParseFloat(localText).Truthy() ==> r.local == Num(1.0)
  {
    if visible then Factors(Or(ParseFloat(usdText), Num(1.0)), Or(ParseFloat(localText), Num(1.0)))
    else Factors(Num(1.0), Num(1.0))
  }

  /** `getExchangeRate`: `parseFloat` of the rate (NaN included); a read that fails gives 1. */
  function ExchangeRate(read: Option<string>): (r: Number)
    ensures read.None? ==> r == Num(1.0)
    ensures read.Some? ==> r == ParseFloat(read.value)
  {
    match read
    case None => Num(1.0)
    case Some(v) => ParseFloat(v)
  }

  /** The factors of a region: its table entry, or `{ USD: 0, Local: 0 }` for a region the if-chain does not know. */
  function FactorsFor(region: string, table: Table<Factors>): (r: Factors)
    ensures FromName(region).Some? ==> r == table.Get(FromName(region).value)
    ensures FromName(region).None? ==> r == Factors(Num(0.0), Num(0.0))
  {
    table.Lookup(region).GetOr(Factors(Num(0.0), Num(0.0)))
  }

  /** `getLocalCurrencyValue`: an invisible, unreadable or empty field is NaN; otherwise `parseFloat` without commas. */
  function ReadValue(raw: Option<string>): (r: Number)
    ensures raw.None? || raw.value == [] ==> r == NaN
    ensures raw.Some? && raw.value != [] ==> r == ParseFloat(StripCommas(raw.value))
  {
    match raw
    case None => NaN
    case Some(v) => if v == [] then NaN else ParseFloat(StripCommas(v))
  }

  /** `!isNaN(actual) && Math.abs(actual - expected) < 0.01`. */
  predicate Close(actual: Number, expected: Number) {
    actual.Num? && Within(actual, expected, 0.01)
  }

  /** The tolerance test is symmetric, fails whenever either side is NaN, and accepts equal numbers. */
  lemma CloseProperties(a: Number, b: Number)
    ensures Close(a, b) <==> Close(b, a)
    ensures a.NaN? || b.NaN? ==> !Close(a, b)
    ensures a.Num? && a == b ==> Close(a, b)
  {
    WithinSymmetric(a, b, 0.01);
  }

  // ---------------------------------------------------------------------
  // One region
  // ---------------------------------------------------------------------

  /** What the page shows for one region's filter code. */
  datatype RegionPage = RegionPage(
    sectionVisible: bool,           // some row matched the filter code
    titles: seq<string>,            // header titles, in order
    firstRow: seq<string>,          // the first row's cell texts
    calculatedUsd: Option<string>,
    futureUsd: Option<string>,
    futureLocal: Option<string>,
    calculatedLocal: Option<string>)

  /** The three verdicts of a region whose base price could be read. */
  datatype Verdicts = Verdicts(basePrice: Number, expectedUsd: Number, usdPass: bool, futureUsdPass: bool, localPass: bool)

  datatype RegionOutcome =
    | NoData                 // nothing matched the filter code
    | NoColumn               // no "Current Base Price" header
    | Failed                 // an error inside the region's try block, logged and skipped
    | Checked(verdicts: Verdicts)

  /** The checks of one region once the "Current Base Price" column is known (`columnIndex`, or -1). */
  function CheckAtColumn(region: string, factors: Table<Factors>, rate: Number, page: RegionPage, columnIndex: int): (r: RegionOutcome)
    ensures r == NoData <==> !page.sectionVisible
    ensures r == NoColumn <==> page.sectionVisible && columnIndex == -1
  {
    if !page.sectionVisible then NoData
    else if columnIndex == -1 then NoColumn
    else if columnIndex < 0 || columnIndex >= |page.firstRow| then Failed
    else
      var base := ParseFloat(StripCommas(page.firstRow[columnIndex]));
      var f := FactorsFor(region, factors);
      var expectedUsd := UsdPrice(base, f.usd);
      var calcUsd := ReadValue(page.calculatedUsd);
      var futureUsd := ReadValue(page.futureUsd);
      var futureLocal := ReadValue(page.futureLocal);
      var calcLocal := ReadValue(page.calculatedLocal);
      Checked(Verdicts(base, expectedUsd, Close(calcUsd, expectedUsd), Close(futureUsd, expectedUsd), Close(futureLocal, calcLocal)))
  }

  /** One region: the header scan for "Current Base Price", then the checks. */
  function CheckRegion(region: string, factors: Table<Factors>, rate: Number, page: RegionPage): (r: RegionOutcome)
  {
    CheckAtColumn(region, factors, rate, page, Grid.FirstColumn(page.titles, "Current Base Price"))
  }

  /**
   * The verdicts of a checked region: Calculated and Future USD are each
   * compared with base × USD factor, and Future Local with Calculated Local
   * (so the exchange rate plays no part in any verdict).
   */
  lemma CheckedVerdicts(region: string, factors: Table<Factors>, rate: Number, page: RegionPage)
    ensures var r := CheckRegion(region, factors, rate, page);
            r.Checked? ==>
              var k := Grid.FirstColumn(page.titles, "Current Base Price");
              0 <= k < |page.firstRow| && page.titles[k] == "Current Base Price" &&
              r.verdicts.basePrice == ParseFloat(StripCommas(page.firstRow[k])) &&
              r.verdicts.expectedUsd == UsdPrice(r.verdicts.basePrice, FactorsFor(region, factors).usd) &&
              r.verdicts.usdPass == Close(ReadValue(page.calculatedUsd), r.verdicts.expectedUsd) &&
              r.verdicts.futureUsdPass == Close(ReadValue(page.futureUsd), r.verdicts.expectedUsd) &&
              r.verdicts.localPass == Close(ReadValue(page.futureLocal), ReadValue(page.calculatedLocal))
  {
  }

  /** The exchange rate does not affect a region's outcome. */
  lemma RateIrrelevant(region: string, factors: Table<Factors>, rate1: Number, rate2: Number, page: RegionPage)
    ensures CheckRegion(region, factors, rate1, page) == CheckRegion(region, factors, rate2, page)
  {
  }

  /** An empty Calculated USD field never passes, and neither does a base price cell that does not parse. */
  lemma MissingValuesFail(region: string, factors: Table<Factors>, rate: Number, page: RegionPage)
    requires page.calculatedUsd.None? || page.calculatedUsd == Some([])
    ensures var r := CheckRegion(region, factors, rate, page);
            r.Checked? ==> !r.verdicts.usdPass
  {
  }

  /** The outcome of every region, in loop order. */
  function Outcomes(factors: Table<Factors>, rates: Table<Number>, pages: seq<RegionPage>): (r: seq<RegionOutcome>)
    requires |pages| == |LoopRegions|
    ensures |r| == |LoopRegions|
  {
    seq(|LoopRegions|, k requires 0 <= k < |LoopRegions| =>
      CheckRegion(Name(LoopRegions[k]), factors, rates.Get(LoopRegions[k]), pages[k]))
  }

  /**
   * The region loop. Each pass scans the headers for "Current Base Price"
   * and checks the region; an error in one region is caught and the loop
   * goes on with the next.
   */
  method RunRegions(factors: Table<Factors>, rates: Table<Number>, pages: seq<RegionPage>) returns (outcomes: seq<RegionOutcome>)
    requires |pages| == |LoopRegions|
    ensures outcomes == Outcomes(factors, rates, pages)
  {
    ghost var spec := Outcomes(factors, rates, pages);
    outcomes := [];
    var i := 0;
    while i < |LoopRegions|
      invariant 0 <= i <= |LoopRegions|
      invariant outcomes == spec[..i]
    {
      var region := LoopRegions[i];
      var columnIndex := Grid.FindFirstColumn(pages[i].titles, "Current Base Price");
      var outcome := CheckAtColumn(Name(region), factors, rates.Get(region), pages[i], columnIndex);
      outcomes := outcomes + [outcome];
      i := i + 1;
    }
  }
}
