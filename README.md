# Pricing rules of the China CDBU test suite, in Dafny

This project models the decision logic of a browser-test suite for a
pricing application (CDBU, with its China, Taiwan, Mongolia and Hong Kong
regions). The suite's scripts read field values off the pricing screens,
the Data Explorer grid and the database. They compute the values those
fields ought to hold, and they decide whether a record passes. A small
Python runner then classifies each run and each log as PASS or FAIL.

The model keeps those decisions and leaves out the browser. Every screen
read becomes a parameter holding the text or number that was read. Every
rule becomes a function, or a method with its loop where the script loops.
The properties the scripts rely on are proved as contracts and lemmas.

- `Wrappers`, `Text`, `JsNumber`: optional values and results; trimming,
  ASCII case mapping, substring search and replacement (JavaScript replaces
  the first occurrence, Python every one); JavaScript numbers with NaN,
  `parseFloat`, `Number`, `||` and absolute tolerances.
- `Regions`, `ListPricing`, `Grid`, `CodePairs`, `DateFormat`: the four
  regions and their factor tables; the USD and local list-price formulas;
  the grid header scans; the search for a (list pricing, markup) code pair
  in the mapping table; today's date as MM/DD/YYYY.
- One module per script: `ChinaApproval`, `ChinaPricingAction`,
  `ListPrice`, `PriceAction`, `Reports`, `UserOverride`, `Stocking`,
  `CoreMarkup`, `CoreTemp`, `OutboundDate`, `SysCountry`, `DbPoll`,
  `BusinessRule`; and `Runner` for the runner's verdicts and counts.

## Model

| member | source | states |
|---|---|---|
| JsNumber.Or | tests/list-price.spec.js:227-228 | JavaScript `or` on numbers is truthy exactly when one side is, and is `a` whenever `a` is truthy |
| JsNumber.Mul | tests/china-pricing-action.spec.js:593 | a product is a number exactly when both factors are; NaN spreads |
| JsNumber.WithinSymmetric | core-temp.js:125 | an absolute-tolerance test does not depend on the order of its operands |
| JsNumber.ParseFloat | core-temp.js:83 | on the decimal texts modelled, `parseFloat` yields a number only when the text holds a digit |
| JsNumber.NumberOf | tests/china-approval.spec.js:87 | `Number` reads blank text as 0 |
| JsNumber.NumberAgreesWithParseFloat | tests/china-approval.spec.js:87-96 | wherever `Number` reads a non-empty text as a number, `parseFloat` reads the same value |
| JsNumber.NumberAgreesOnTrimmed | tests/china-approval.spec.js:108-110 | on text without white space at either end, wherever `Number` reads a number `parseFloat` agrees |
| JsNumber.ParseFloatOfNat | tests/china-pricing-action.spec.js:586 | the decimal text of a whole number reads back as that number with both `parseFloat` and `Number` |
| JsNumber.ReadLiterals | tests/china-approval.spec.js:89-96 | the literals "0", "1" and "100" that the scripts write or default to read back as 0, 1 and 100 |
| JsNumber.EmptyTextIsNaN | tests/china-approval.spec.js:87-96 | on empty text the readings differ: `parseFloat` gives NaN and `Number` gives 0 |
| Regions.Name | tests/china-pricing-action.spec.js:555-560 | every region has a non-empty name |
| Regions.FromName | tests/china-pricing-action.spec.js:569-571 | a region found under a name has exactly that name |
| Regions.FromNameOfName | tests/china-pricing-action.spec.js:555-567 | every region is found again under its own name |
| Regions.NamesDistinct | tests/china-pricing-action.spec.js:555-560 | distinct regions have distinct names, so a table keyed by name has one entry per region |
| Regions.Table.Lookup | tests/china-pricing-action.spec.js:569-571 | `table[name]` is defined exactly for the four region names, and is then that region's entry |
| Regions.LookupByName | tests/price-action.spec.js:161-162 | looking a table up by a region's own name gives that region's entry |
| ListPricing.UsdPrice | tests/china-pricing-action.spec.js:593 | the USD price is a number exactly when base and USD factor are, and then equals base × factor |
| ListPricing.LocalPrice | tests/china-pricing-action.spec.js:639 | the local price is a number exactly when base, local factor and rate are, and then equals base × factor × rate |
| ListPricing.LocalIsConvertedUsd | tests/price-action.spec.js:291-296 | with equal factors the local price is the USD price times the rate |
| ListPricing.UnitRate | tests/price-action.spec.js:296 | a rate of 1 leaves the local price equal to base × local factor |
| ListPricing.SeedBase | tests/price-action.spec.js:280-285 | a falsy base (0 or NaN) becomes 100, any other is kept; the result is always truthy |
| ListPricing.SeedBaseIdempotent | tests/price-action.spec.js:280-285 | seeding twice is seeding once |
| ChinaApproval.FieldText | tests/china-approval.spec.js:108-119 | a numeric field's text, as read, holds no comma and has no white space at either end |
| ChinaApproval.PresentPriceParses | tests/china-approval.spec.js:110-121 | a future price that counts as present (non-empty text that `Number` reads) is also read by `parseFloat`, to the same value |
| ChinaApproval.EmergencyIff | tests/china-approval.spec.js:200 | an emergency is present exactly when the China, DN or PVC action contains "Emergency", case-sensitively |
| ChinaApproval.EmergencyPrefixSuffices | tests/china-approval.spec.js:200 | one action starting with "Emergency" makes the emergency condition hold whatever the other two say |
| ChinaApproval.CalcLocalFinal | tests/china-approval.spec.js:85-97 | an empty or non-numeric Calculated Local is seeded with 100; the value read back is positive, or the expectation fails exactly when the field holds a number ≤ 0; a present value is kept as `Number` reads it |
| ChinaApproval.ZeroCalcLocalIneligible | tests/china-approval.spec.js:187-209 | a Calculated Local of 0 makes every record ineligible |
| ChinaApproval.NoFutureLocalNeedsOverride | tests/china-approval.spec.js:191-209 | without a present future local price, a record is eligible exactly when Calculated Local ≠ 0, the future USD price is present and the override is "Yes" |
| ChinaApproval.PmApprovalAfter | tests/china-approval.spec.js:246-257 | an empty status becomes "Ready for Review"; "YES"/"NO" in any case is cleared; any other status is kept |
| ChinaApproval.ReadyForReviewIsNotYesNo | tests/china-approval.spec.js:246-251 | "Ready for Review" is neither YES nor NO in any letter case |
| ChinaApproval.PmApprovalSettles | tests/china-approval.spec.js:246-257 | after two updates, further updates leave the status unchanged |
| ChinaApproval.PmApprovalNeverYesNo | tests/china-approval.spec.js:246-257 | after one update the status is never YES or NO in any case |
| ChinaApproval.PriceOrZero | tests/china-approval.spec.js:357-372 | a price read with `parseFloat` and falsy readings replaced by 0: a non-zero result is the `parseFloat` reading, and a truthy reading is returned as is |
| ChinaApproval.PctChange | tests/china-approval.spec.js:377-379 | the change is 0 when the current price is 0, and otherwise satisfies change × current = (future − current) × 100 |
| ChinaApproval.PctAtLeastIff | tests/china-approval.spec.js:377-392 | for a positive current price, a change of at least t percent means future ≥ current × (1 + t/100) |
| ChinaApproval.Threshold | tests/china-approval.spec.js:288-290 | a threshold field that is empty after comma stripping and trimming reads as 0; any other reads as `parseFloat` of that cleaned text |
| ChinaApproval.ThresholdOfNat | tests/china-approval.spec.js:288-290 | a field showing the digits of a whole number reads as that number |
| ChinaApproval.ThresholdOfCleaned | tests/china-approval.spec.js:289 | thousands separators and surrounding white space do not change the threshold: the comma-stripped text and the cleaned text read as the raw field does |
| ChinaApproval.ExpectedApprover | tests/china-approval.spec.js:382-530 | first match wins: Yes/No is retained (Approver 1) or expected null (Approver 2); otherwise an untrimmed "No" or "" override with an emergency gives "Auto"; "Ready for Review" iff neither applies and a change reaches the threshold; otherwise "Auto" |
| ChinaApproval.RetainAlwaysMatches | tests/china-approval.spec.js:384-402 | Approver 1's retained Yes/No status always matches the status on screen |
| ChinaApproval.SecondYesNoNeverMatches | tests/china-approval.spec.js:522-537 | a Yes/No Approver 2 status never matches the expected null |
| ChinaApproval.ApproversAgreeOutsideRetain | tests/china-approval.spec.js:384-530 | unless the status is Yes/No, both approvers expect the same status |
| ChinaApproval.ThresholdBoundaryEscalates | tests/china-approval.spec.js:388-389 | a change exactly equal to the threshold gives "Ready for Review" (the boundary counts) |
| ChinaApproval.LowerThresholdKeepsReview | tests/china-approval.spec.js:388-389 | lowering the threshold never takes a record out of "Ready for Review" |
| ChinaApproval.NaNThresholdNeverReviews | tests/china-approval.spec.js:288-391 | a threshold that reads as NaN never gives "Ready for Review" |
| ChinaApproval.TenPercentExample | tests/china-approval.spec.js:377-392 | a rise from 100 to 110 against a threshold of 10 escalates; a rise to 109.9 gives "Auto" |
| ChinaApproval.ExpectedForMatches | tests/china-approval.spec.js:382-540 | for a region's own readings, a Yes/No Approver 1 matches and a Yes/No Approver 2 never does |
| ChinaApproval.ProcessRegion | tests/china-approval.spec.js:85-570 | a region is aborted exactly when the Calculated Local expectation fails and skipped exactly when it is not eligible; a processed region is eligible with a positive Calculated Local, and Approvers 3 and 4 are set to "Auto" |
| ChinaApproval.ProcessedMatches | tests/china-approval.spec.js:395-540 | in a processed region, a Yes/No Approver 1 is reported as a match and a Yes/No Approver 2 as a mismatch |
| ChinaApproval.ProcessedIsEligible | tests/china-approval.spec.js:97-218 | a processed region had a positive Calculated Local and passed the eligibility check |
| ChinaApproval.ZeroCalcLocalAborts | tests/china-approval.spec.js:96-97 | a Calculated Local field reading "0" fails the expectation and aborts the region |
| ChinaApproval.RunRegions | tests/china-approval.spec.js:21-579 | the loop gives one outcome per region, in order, each that region's own outcome; every processed region had a positive Calculated Local |
| ChinaPricingAction.ReadNumeric | tests/china-pricing-action.spec.js:112-122 | a numeric read is null exactly when it failed or the field was empty; otherwise it is `parseFloat` of the text with every comma removed |
| ChinaPricingAction.SeedCurrentBase | tests/china-pricing-action.spec.js:578-590 | a null, NaN or zero Current Base Price becomes 100; any other value is kept; the result is always truthy |
| ChinaPricingAction.Coalesce | tests/china-pricing-action.spec.js:636 | `a ?? b` is `a` whenever `a` is not null, and `b` otherwise |
| ChinaPricingAction.LocalBasePrecedence | tests/china-pricing-action.spec.js:636 | the local base is the first non-null of future, publish and current, even when that is 0 or NaN, and 0 when all are null |
| ChinaPricingAction.SeededBaseNeverDefaults | tests/china-pricing-action.spec.js:578-636 | after seeding, the local base is the future or publish price, or a truthy current price; the final `?? 0` is never reached |
| ChinaPricingAction.NaNExpectedNeverPasses | tests/china-pricing-action.spec.js:593-633 | an expected USD price that is NaN can never pass the strict-equality check |
| ChinaPricingAction.UsdPassIff | tests/china-pricing-action.spec.js:629-633 | the USD check passes exactly when the expected value is a number and both Calculated and Future USD read exactly that value |
| ChinaPricingAction.CheckLocal | tests/china-pricing-action.spec.js:700-706 | a warning exactly when a UI value is missing or NaN; otherwise PASS exactly when Calculated Local is strictly within 0.01 of the expected value, FAIL otherwise |
| ChinaPricingAction.FutureLocalNotCompared | tests/china-pricing-action.spec.js:700-706 | once both UI values are numbers, the Future Local value does not affect the verdict |
| ChinaPricingAction.LocalToleranceBoundary | tests/china-pricing-action.spec.js:702 | a difference of exactly 0.01 fails and one of 0.009 passes |
| ChinaPricingAction.CheckKnown | tests/china-pricing-action.spec.js:569-706 | for a known region: the base is seeded exactly when the Current Base Price read is missing, NaN or 0, and is then 100, otherwise the value read; the expected USD price is that base times the USD factor and passes exactly under UsdPass of the two USD reads; the expected local price is LocalBase (future, publish, seeded current) times the local factor times the rate, and the local verdict is CheckLocal of the two local reads against it |
| ChinaPricingAction.WrittenValuesPass | tests/china-pricing-action.spec.js:593-706 | when the fields read back exactly the numeric values the test wrote, the USD check passes and the local check is PASS |
| ChinaPricingAction.CheckRegion | tests/china-pricing-action.spec.js:555-571 | an unknown region name fails the step (the factor lookup throws); a known one is checked with that region's factors and exchange rate |
| ChinaPricingAction.MissingBaseUsesHundred | tests/china-pricing-action.spec.js:576-593 | for a known region with no Current Base Price, the base is seeded and the expected USD price is 100 × the USD factor |
| ChinaPricingAction.Steps | tests/china-pricing-action.spec.js:399-728 | one step outcome per configured region, in order, each the check of that region |
| ChinaPricingAction.RunRegions | tests/china-pricing-action.spec.js:397-728 | the loop's results are those of the steps until the first that throws, whose error ends the run; List Pricing is selected on the first pass only |
| ChinaPricingAction.FindBasePriceColumn | tests/china-pricing-action.spec.js:646-655 | the header scan returns the first column titled "Current Base Price", or -1 |
| Grid.FirstColumn | tests/list-price.spec.js:347-353 | the column found by a scan that stops at the first match: -1 exactly when no header has the title, otherwise a header with that title and none before it |
| Grid.LastColumn | tests/stocking.spec.js:143-148 | the column found by a scan that keeps overwriting its index: -1 exactly when no header has the title, otherwise a header with that title and none after it |
| Grid.FirstBeforeLast | tests/stocking.spec.js:143-148 | both scans agree on whether the column exists, and the first match never comes after the last |
| Grid.UniqueTitle | tests/stocking.spec.js:143-148 | when a title occurs exactly once, both scans find that column |
| Grid.FindFirstColumn | tests/list-price.spec.js:347-353 | the header loop with `break` returns the first-match column |
| Grid.LastColumnUnique | tests/stocking.spec.js:143-148 | any index meeting the last-match description is the last-match column |
| ListPrice.BasePartNumber | tests/list-price.spec.js:272-278 | a code without "-" is kept; with one, the result is exactly the text after the first "-" |
| ListPrice.RegionCode | tests/list-price.spec.js:286 | the filter code is the region, "-" and the base part number, one character longer than the two together |
| ListPrice.BasePartOfRegionCode | tests/list-price.spec.js:273-286 | for a region name without "-", rewriting a region code gives back its base part number, whatever that contains |
| ListPrice.RegionCodeRoundTrip | tests/list-price.spec.js:270-286 | for each of the four regions, rewriting its filter code gives back the base part number |
| ListPrice.SwapRegionPrefix | tests/list-price.spec.js:270-286 | re-prefixing a region's code with another region is the same as building that region's code from the base part number |
| ListPrice.FilterCodes | tests/list-price.spec.js:270-287 | four filter codes, one per region in loop order, each rewriting to the same base part number as the list-pricing code |
| ListPrice.CodesFromMapping | tests/list-price.spec.js:70-85 | the test fails exactly when the pair search fails; otherwise the filter codes come from the list-pricing code of the pair found |
| ListPrice.ExtractFactors | tests/list-price.spec.js:221-232 | both factors are truthy: with both inputs visible each is its `parseFloat` reading when that is truthy, otherwise 1; with an input not visible both are 1 |
| ListPrice.ExchangeRate | tests/list-price.spec.js:119-130 | a failed rate read gives 1; otherwise the rate is `parseFloat` of the text, NaN included |
| ListPrice.FactorsFor | tests/list-price.spec.js:364-369 | a known region gets its own factors; any other name gets USD 0 and Local 0 |
| ListPrice.ReadValue | tests/list-price.spec.js:87-103 | an invisible, unreadable or empty field is NaN; otherwise `parseFloat` of the text without commas |
| ListPrice.CloseProperties | tests/list-price.spec.js:384-399 | the 0.01 tolerance test is symmetric, fails whenever either side is NaN, and accepts two equal numbers |
| ListPrice.CheckAtColumn | tests/list-price.spec.js:340-405 | a region has no data exactly when its section is not visible, and no column exactly when the section is visible but the header scan found nothing |
| ListPrice.CheckedVerdicts | tests/list-price.spec.js:357-400 | a checked region's base price is the first row's "Current Base Price" cell read without commas; Calculated and Future USD are compared with base × USD factor, Future Local with Calculated Local, each within 0.01 and not NaN |
| ListPrice.RateIrrelevant | tests/list-price.spec.js:371-400 | the exchange rate read for a region plays no part in its outcome |
| ListPrice.MissingValuesFail | tests/list-price.spec.js:375-388 | an empty or missing Calculated USD field never passes |
| ListPrice.Outcomes | tests/list-price.spec.js:280-411 | one outcome per region, in loop order |
| ListPrice.RunRegions | tests/list-price.spec.js:280-411 | the loop's outcomes are, in order, those of each region checked on its own; an error in one region does not stop the others |
| CodePairs.FirstValidFrom | tests/core-markup.py:133-156 | the first mapping row at or after a position whose two lookups both returned a code; every row skipped before it lacks a code |
| CodePairs.SearchOutcomeSpec | tests/core-markup.py:125-166 | the search fails with "no mapping rows" exactly when there are none; it succeeds exactly when some row has both codes, and then returns the codes of the first such row |
| CodePairs.LaterRowsIgnored | tests/list-price.spec.js:76-82 | rows after the first usable one do not affect the outcome (the loop returns early) |
| CodePairs.FindPair | tests/core-markup.py:125-166 | the loop with its flag and `break` returns exactly the search outcome, the fatal cases included |
| CoreMarkup.StripRegionPrefix | tests/core-markup.py:175-186 | an empty code or "NOT_FOUND" gives "NOT_FOUND"; a code without "-" is kept; otherwise the result is the text after the first "-", later dashes kept |
| CoreMarkup.AgreesWithBasePartNumber | tests/core-markup.py:177-186 | for any non-empty code other than "NOT_FOUND", splitting once on "-" gives the same result as the split/slice(1)/join rewrite of the list-price test |
| CoreMarkup.KeepsLaterDashes | tests/core-markup.py:172-182 | "CHINA-0110-3825" becomes "0110-3825" |
| CoreMarkup.Run | tests/core-markup.py:123-188 | the script exits with status 1 exactly when the pair search fails; otherwise it keeps the markup code and cleans the list-pricing code of the pair found |
| CoreTemp.ParseFactor | core-temp.js:83 | an empty raw factor reads as 0; otherwise commas are removed, the text trimmed, and `parseFloat` applied |
| CoreTemp.CommasIgnored | core-temp.js:119 | thousands separators do not change a factor's reading |
| CoreTemp.MatchSymmetric | core-temp.js:125 | the 0.001 comparison does not depend on which factor is which |
| CoreTemp.MatchBoundary | core-temp.js:125 | a difference of exactly 0.001 is a mismatch, one of 0.0009 a match, and NaN never matches |
| CoreTemp.Compare | core-temp.js:125-130 | PASS exactly when the two parsed factors are within 0.001; otherwise the script exits with code 1 |
| CoreTemp.BothEmptyMatch | core-temp.js:83-125 | two empty factors both read as 0 and match |
| CoreTemp.NoDigitIsNaN | core-temp.js:119 | text without a digit reads as NaN with `parseFloat` |
| CoreTemp.NoDigitFactorIsNaN | core-temp.js:119 | a non-empty factor text without a digit reads as NaN |
| CoreTemp.NoDigitTrimmed | core-temp.js:119 | trimmed text without a digit still reads as NaN |
| CoreTemp.EmptyAgainstUnreadableFails | core-temp.js:83-130 | an empty factor against a non-empty one without digits (0 against NaN) exits with code 1 |
| PriceAction.ReadSpNumeric | tests/price-action.spec.js:15-30 | an invisible, unreadable or empty field reads as 0; otherwise `parseFloat` of the text without commas, NaN possible |
| PriceAction.ReadSpNumericOfNat | tests/price-action.spec.js:24 | a field showing the digits of a whole number reads back as that number |
| PriceAction.ExtractFactors | tests/price-action.spec.js:33-57 | both factors are read like any numeric field, so a factor that cannot be read is 0 and falsy |
| PriceAction.UpdateRegion | tests/price-action.spec.js:276-301 | an unknown region throws; for a known one the base is truthy after seeding, and it was seeded exactly when the Current Base Price read falsy |
| PriceAction.ChinaActionOnlyForChina | tests/price-action.spec.js:220 | the China Pricing Action is changed for the CHINA region and for no other |
| PriceAction.WrittenIffFactorsTruthy | tests/price-action.spec.js:287-301 | prices are written exactly when both the USD and the local factor are truthy |
| PriceAction.WrittenPrices | tests/price-action.spec.js:280-298 | written prices come from the seeded Current Base Price alone: USD = base × USD factor, local = base × local factor × rate, and the USD price is a number |
| PriceAction.EmptyBaseIsHundred | tests/price-action.spec.js:280-293 | an unreadable Current Base Price is seeded with 100, and the USD price written is 100 × the USD factor |
| PriceAction.Steps | tests/price-action.spec.js:166-318 | one step outcome per configured region, in order, each that region's update |
| PriceAction.RunRegions | tests/price-action.spec.js:164-318 | the loop's updates are those of the steps until the first that throws, whose error ends the run; List Pricing is selected on the first pass only |
| Reports.PriceSource | tests/Reports.spec.js:28-38 | the publish price is used exactly when it is truthy and its date has been reached; the current price exactly when that fails and the current price is truthy with its date reached; a blank date stands for 9999-12-31 |
| Reports.CalculateListPrice | tests/Reports.spec.js:28-39 | the result is always a number: the publish or the current price following that precedence, and 0 exactly when neither applies |
| Reports.BlankDateNeverApplies | tests/Reports.spec.js:29-34 | before 9999-12-31 a publish price without a date is never used: the result is as if the publish price were 0 |
| Reports.PublishTakesPrecedence | tests/Reports.spec.js:32-34 | a non-zero publish price whose date has been reached is the result, whatever the current price and date |
| Reports.LaterDayKeepsPublish | tests/Reports.spec.js:28-38 | once the publish price applies on a day, it applies on every later day; once the current price applies, every later day has a price, the current one unless the publish price takes over |
| Reports.BasePriceChanged | tests/Reports.spec.js:41-52 | "Publish Base Price Changed" exactly when the publish date is set and reached; "Current Base Price changed" exactly when that fails and the current date is set and reached; "" otherwise |
| Reports.LabelFollowsPublish | tests/Reports.spec.js:28-52 | when the price comes from a dated publish price, the label names the publish price |
| Reports.LabelCanDisagree | tests/Reports.spec.js:32-48 | with a publish price of 0 and both dates reached, the price comes from the current price while the label names the publish price |
| Reports.ParseCurrency | tests/Reports.spec.js:54-57 | null or empty text reads as 0 |
| Reports.NoDigitsIsNaN | tests/Reports.spec.js:54-57 | non-empty text without any digit reads as NaN, not 0 |
| Reports.ParseCurrencyOfCleaned | tests/Reports.spec.js:56 | text already stripped to digits, "." and "-" reads the same as the original |
| Reports.ParseCurrencyOfNat | tests/Reports.spec.js:56 | the digits of a whole amount read back as that amount |
| Reports.CleanPartNumber | tests/Reports.spec.js:243-245 | the cleaned part number holds no " {" and is no longer than the cell text |
| Reports.NoInfixInPiece | tests/Reports.spec.js:245 | a piece of a text without " {" holds no " {" either |
| Reports.BeforeFirstBrace | tests/Reports.spec.js:245 | when the part before the first " {" holds no " {" itself, splitting at " {" gives exactly that part |
| Reports.CleanPartNumberOfDescribed | tests/Reports.spec.js:245 | a part number followed by " {" and a description cleans to the trimmed part number, whatever the description holds |
| Reports.CleanPartNumberOfPlain | tests/Reports.spec.js:245 | a cell text without " {" cleans to its trimmed self |
| Reports.CleanPartNumberIdempotent | tests/Reports.spec.js:245 | cleaning a part number twice is cleaning it once |
| Reports.CollapseFromSpec | tests/Reports.spec.js:202 | collapsing white space leaves single " " characters as the only white space, is empty only for empty input, and starts with white space exactly when the input does |
| Reports.CollapseFixed | tests/Reports.spec.js:202 | text whose only white space is single spaces is unchanged by collapsing |
| Reports.TrimKeepsSingleSpaced | tests/Reports.spec.js:202 | trimming single-spaced text keeps it single-spaced |
| Reports.CleanHeaderSpec | tests/Reports.spec.js:202 | a cleaned header has no white space at either end and only single spaces inside |
| Reports.CleanHeaderIdempotent | tests/Reports.spec.js:202 | a cleaned header cleans to itself |
| Reports.IndexMap | tests/Reports.spec.js:197-204 | every key of the header map points at a header with that name |
| Reports.IndexMapSpec | tests/Reports.spec.js:197-204 | a name is a key exactly when some header has it, and it maps to its last occurrence |
| Reports.MapSeq | tests/Reports.spec.js:199-203 | one cleaned name per header, in order |
| Reports.IndexCleaned | tests/Reports.spec.js:197-204 | the header loop builds exactly the map from each cleaned name to its last position |
| Reports.BuildColumnIndex | tests/Reports.spec.js:195-204 | the report's header map sends each cleaned header text to the position where it occurs last |
| Reports.FirstContaining | tests/Reports.spec.js:214 | the first name, in order, that contains the column name ignoring case; none before it does |
| Reports.UIValue | tests/Reports.spec.js:213-224 | no value exactly when no header name contains the column name ignoring case |
| Reports.UIValueReadsLastDuplicate | tests/Reports.spec.js:213-224 | the cell read is that of the last column carrying the first matching name, which need not be the first match's own column |
| Reports.SourceValue | tests/Reports.spec.js:131-146 | no value exactly when no grid header, trimmed, equals the name; a row with a cell under every header never fails |
| Reports.DateFieldOf | tests/Reports.spec.js:28-30 | an empty date text is blank; any other is unreadable exactly when the date reading fails, and otherwise holds the day read |
| Reports.LookupStepCases | tests/Reports.spec.js:149-163 | a lookup fails without its header only when its value is trimmed; on a row with a cell under every header it fails exactly when it is trimmed and its header is missing, and a price lookup without its header gives null; a trimmed lookup that succeeds holds the trimmed cell under its header |
| Reports.ExtractOkIffStepsOk | tests/Reports.spec.js:149-163 | the extraction succeeds exactly when each of its eleven lookups, run in order, succeeds |
| Reports.StepsOnFullRow | tests/Reports.spec.js:149-163 | on a row with a cell under every header, each lookup fails exactly when it is trimmed and its header is missing |
| Reports.AllStepsOkIff | tests/Reports.spec.js:149-163 | all eleven lookups succeed exactly when the seven trimmed ones find their headers |
| Reports.ExtractSourceFullRow | tests/Reports.spec.js:149-163 | on a row with a cell under every header the extraction succeeds exactly when the part number, name, item group and the four effective-date headers are all present; a missing price header never throws |
| Reports.StepValues | tests/Reports.spec.js:149-163 | a successful extraction is built from the values of its eleven lookups, each the value that lookup gives |
| Reports.PickedStep | tests/Reports.spec.js:131-163 | a successful trimmed lookup holds the trimmed cell under its header; a price lookup holds what the header search gives |
| Reports.ExtractedTexts | tests/Reports.spec.js:149-151 | a successful extraction holds the trimmed cells under the part number, name and item group headers |
| Reports.ExtractedLocalPrices | tests/Reports.spec.js:153-157 | a successful extraction holds the currency reading of the two local price cells, 0 when such a header is missing, and the readings of the two trimmed local date cells |
| Reports.MisspeltDateHeaderThrows | tests/Reports.spec.js:163 | on a full row whose headers are all spelt "Effective", the extraction as written throws at its last lookup while the corrected one succeeds |
| Reports.ZeroIsExact | tests/Reports.spec.js:271-276 | near 0 the check is stricter: 0.001 passes against 0.002 but fails against 0 |
| Reports.CloseTo2Boundary | tests/Reports.spec.js:271-272 | against a non-zero expectation a difference of 0.005 fails, one of 0.004 passes, and NaN fails |
| Reports.ReportDataOf | tests/Reports.spec.js:228-234 | the report is read exactly when each of the five column reads, made in order, does not time out |
| Reports.ReportDataOnFullRow | tests/Reports.spec.js:212-234 | on a row with a cell under every header the report is always read; a text field is null exactly when no header contains its column name ignoring case, and a missing price column reads as 0 |
| Reports.UIValueOnFullRow | tests/Reports.spec.js:212-223 | a column read never times out on a row with a cell under every header |
| Reports.MissingPartNumberColumnFails | tests/Reports.spec.js:229-250 | a report without a part-number column fails the part-number expectation, whatever the source holds |
| Reports.Validate | tests/Reports.spec.js:243-276 | the test passes exactly when part number (cleaned), name and item group match and the reported price passes against the expected list price; a part-number mismatch is reported first |
| UserOverride.FilledIffNotBlank | tests/china-user-override.spec.js:126-128 | a field counts as filled exactly when it is not blank |
| UserOverride.PricingActions | tests/china-user-override.spec.js:130 | the list checked as pricing actions is DN, PVC and Current Local, in that order (not the China action) |
| UserOverride.PricingActionsIff | tests/china-user-override.spec.js:130-133 | the `every` check holds exactly when each of DN, PVC and Current Local is empty or "none" after trimming and lower-casing |
| UserOverride.NoneInAnyCase | tests/china-user-override.spec.js:132 | "NoNe" with white space around it counts as no action |
| UserOverride.TrimOfPadded | tests/china-user-override.spec.js:132 | text made of a visible part between blank stretches trims to that part |
| UserOverride.SkipSpacesOverBlank | tests/china-user-override.spec.js:132 | skipping white space over a blank stretch stops at the first visible character |
| UserOverride.ChinaNeverDaily | tests/china-user-override.spec.js:135-148 | a CHINA record, in any case and padding, is never eligible for daily pricing |
| UserOverride.LpUpdateIgnoresRegion | tests/china-user-override.spec.js:125-146 | LP-update eligibility reads neither the region nor the pricing actions |
| UserOverride.NumberOrZero | tests/china-user-override.spec.js:156-157 | a truthy `parseFloat` reading is kept; 0 and NaN become 0 |
| UserOverride.NumberOrNull | tests/china-user-override.spec.js:159 | a value exactly when `parseFloat` reads a truthy number, and then that non-zero number; otherwise null |
| UserOverride.UsdCaseOf | tests/china-user-override.spec.js:167-180 | the first branch exactly when Calculated USD is falsy; the recalculation exactly when it is truthy, Future Local ≠ Calculated Local and Calculated Local ≠ 0 |
| UserOverride.FutureUsdOf | tests/china-user-override.spec.js:167-180 | outside the recalculation the existing value is kept; the recalculated value satisfies u × Calculated Local = Future Local × Calculated USD |
| UserOverride.FutureUsdCase | tests/china-user-override.spec.js:156-171 | the first branch exactly when Calculated USD reads falsy; a recalculation only with a non-zero Calculated Local |
| UserOverride.FutureUsd | tests/china-user-override.spec.js:156-180 | the existing Future USD (null when falsy) unless the record recalculates, which always yields a value |
| UserOverride.ScaledRatio | tests/china-user-override.spec.js:173 | (a / b) × c × b = a × c for b ≠ 0 |
| UserOverride.EqualLocalsKeepExisting | tests/china-user-override.spec.js:171-180 | local prices that read alike keep the existing Future USD, whatever Calculated USD says |
| UserOverride.ZeroCalculatedLocalKeepsExisting | tests/china-user-override.spec.js:157-180 | an unreadable or zero Calculated Local never triggers the recalculation |
| UserOverride.ExistingZeroBecomesNull | tests/china-user-override.spec.js:159-178 | an existing Future USD of 0 or unreadable text is kept as null, never as 0 |
| UserOverride.ZeroFutureLocalGivesZero | tests/china-user-override.spec.js:156-173 | a Future Local reading as 0 against a non-zero Calculated Local recalculates Future USD to 0 |
| Stocking.ExpectedSegment | tests/stocking.spec.js:199-201 | "D" exactly when the certification is empty and the volume is empty or exactly "0"; "A" exactly otherwise |
| Stocking.SegmentExamples | tests/stocking.spec.js:196-201 | both missing gives "D" (a volume of "0" counts as missing); a certification, a volume of "500" or of "0.0" gives "A" |
| Stocking.CertificationDecides | tests/stocking.spec.js:199-201 | a present certification alone gives "A", whatever the volume |
| Stocking.OnlyAOrDPass | tests/stocking.spec.js:205-210 | an observed segment other than "A" and "D" never passes |
| Stocking.FindColumns | tests/stocking.spec.js:139-152 | an error exactly when one of the three titles is missing; otherwise each index is the last column carrying its title |
| Stocking.SelectRow | tests/stocking.spec.js:154-174 | an error exactly when every trimmed code ends in "H"; otherwise the first row whose trimmed code does not, with that trimmed code |
| Stocking.SkippedIff | tests/stocking.spec.js:161 | a row is skipped exactly when its trimmed code is non-empty and ends in an upper-case "H" |
| Stocking.VerdictIgnoresPadding | tests/stocking.spec.js:183-205 | white space around the three cell texts does not change the verdict |
| DateFormat.Shape | tests/verify_outbound_date.spec.js:78-82 | for a four-digit year the text is ten characters, "/" at positions 2 and 5 and digits elsewhere |
| DateFormat.FieldsRoundTrip | tests/syscountry.spec.js:32-36 | the month, day and year read back from the formatted text are the date's own |
| DateFormat.FormatInjective | tests/verify_outbound_date.spec.js:78-85 | different dates format differently, so comparing texts compares dates |
| DateFormat.FormattedIsTrimmed | tests/verify_outbound_date.spec.js:82 | a formatted date has no white space to trim |
| DateFormat.FormatIff | tests/syscountry.spec.js:32-36 | a text equals the formatted date exactly when it has the MM/DD/YYYY shape and its digit groups name that date |
| Text.ReadTrimmed | tests/verify_outbound_date.spec.js:75 | a missing value reads as ""; any other is trimmed and has no white space at either end; the Business Rule test reads its dropdowns the same way (tests/china-Business-rule.spec.js:60-61, 74-75) |
| OutboundDate.PassesIffToday | tests/verify_outbound_date.spec.js:75-89 | PASS exactly when the date read has the MM/DD/YYYY shape and names today |
| OutboundDate.PaddingIgnored | tests/verify_outbound_date.spec.js:75 | white space around the UI value does not affect the verdict |
| OutboundDate.MissingFails | tests/verify_outbound_date.spec.js:75-89 | a missing value never passes |
| OutboundDate.OnlyOneDayPasses | tests/verify_outbound_date.spec.js:78-89 | no value passes on two different days |
| SysCountry.FutureValueShape | tests/syscountry.spec.js:30 | whatever digits are drawn, the value is six characters: three digits, ".", two digits, with nothing to trim |
| SysCountry.EffectiveDateToSet | tests/syscountry.spec.js:32-36 | for a valid date the text written is in MM/DD/YYYY shape and names that date |
| SysCountry.TriggerOutcome | tests/syscountry.spec.js:134-157 | the trigger resolves exactly when the process closed with code 0 and its trimmed output contains "200", and then resolves to true; every other ending rejects |
| SysCountry.FirstMatchFrom | tests/syscountry.spec.js:198-204 | a position found by the fallback search lies in the searched range |
| SysCountry.FirstMatchFound | tests/syscountry.spec.js:198-204 | a search that finds a position finds the first one at or after its start whose key is the target |
| SysCountry.FirstMatchNone | tests/syscountry.spec.js:198-204 | a search finds nothing only when no key from its start on is the target |
| SysCountry.TrimmedValues | tests/syscountry.spec.js:199-201 | one trimmed value per numeric input, in page order |
| SysCountry.CurrentReadCases | tests/syscountry.spec.js:191-206 | the current input's value is read when the input exists; otherwise a numeric input whose trimmed value is the value set is taken when there is one; otherwise the previous attempt's value stays |
| SysCountry.PolledStep | tests/syscountry.spec.js:177-218 | an attempt after a failed one is that attempt's own reading and success test |
| SysCountry.SuccessIsFinal | tests/syscountry.spec.js:213-217 | once an attempt has succeeded, later reloads change nothing |
| SysCountry.Poll | tests/syscountry.spec.js:173-218 | the loop makes at most three attempts, stops at the first success, and leaves success, future and current values as the attempts define them |
| SysCountry.ReadCurrent | tests/syscountry.spec.js:191-206 | one reload's read of the current value: its own input, else the fallback search, else the previous value |
| SysCountry.SearchNumericInputs | tests/syscountry.spec.js:196-205 | the fallback loop stops at the first numeric input whose trimmed value is the value set, or finds none |
| SysCountry.FinalAssertionsIffSuccess | tests/syscountry.spec.js:220-227 | the three final expectations hold exactly when the polling succeeded |
| SysCountry.StaleCurrentCanSucceed | tests/syscountry.spec.js:191-213 | with the current input missing and no numeric input showing the value set, a success can rest on the current value read one reload earlier |
| DbPoll.NrpUrlAt | tests/china-dbpoll.spec.js:73 | only the first "cdbu" of the address is replaced by "nrp", the rest kept |
| DbPoll.NrpUrlWithoutCdbu | tests/china-dbpoll.spec.js:73 | an address without "cdbu" is used unchanged |
| DbPoll.FirstDigitFrom | tests/china-dbpoll.spec.js:191 | the first position from a start that holds a digit; none before it does |
| DbPoll.CodePart | tests/china-dbpoll.spec.js:191 | undefined exactly when the model name has no digit; otherwise a non-empty run of digits, with no digit before it and none right after it |
| DbPoll.LeadingDigitCode | tests/china-dbpoll.spec.js:191 | a name starting with one digit followed by a non-digit has that digit as its code |
| DbPoll.SelectedModelCode | tests/china-dbpoll.spec.js:24-25 | the code of "6T {CTT-6T}" is "6" |
| DbPoll.MissingValueIncorrect | tests/china-dbpoll.spec.js:186-194 | a field without text is never correct |
| DbPoll.DigitFreeModelNeverCorrect | tests/china-dbpoll.spec.js:191-194 | for a model name without digits no value is ever correct |
| DbPoll.CorrectIffHoldsSix | tests/china-dbpoll.spec.js:186-198 | for the selected model a value is correct exactly when its trimmed text contains "6" |
| BusinessRule.FutureGroup | tests/china-Business-rule.spec.js:63-78 | "" when the dropdown is not visible; otherwise the trimmed selected text |
| BusinessRule.PmFlagIgnored | tests/china-Business-rule.spec.js:53-97 | the verdict of the test as written does not depend on the PM Override Flag |
| BusinessRule.EmptyGroupsFailAsWritten | tests/china-Business-rule.spec.js:91-97 | with no visible dropdown and a blank system value the test fails, although the rule it states does not apply |
| BusinessRule.FailsIff | tests/china-Business-rule.spec.js:55-97 | the stated rule fails exactly when the PM Override Flag reads "Yes" once trimmed and a visible, non-blank selection's trimmed text is the trimmed system value |
| BusinessRule.AgreeWhenFuturePresent | tests/china-Business-rule.spec.js:54-97 | with the PM Override Flag at "Yes", as step 3 sets it, the test as written and the stated rule agree whenever the Future Product Group is not empty |
| Runner.ToLowerConcat | china-cdbu-test.py:282 | lower-casing distributes over concatenation |
| Runner.ToLowerOfUpper | china-cdbu-test.py:396-398 | lower-casing after upper-casing is plain lower-casing |
| Runner.PlaywrightStatus | china-cdbu-test.py:282 | a Playwright file is PASS exactly when its lower-cased output contains "passed" |
| Runner.PassedAnywhereIsPass | china-cdbu-test.py:282 | "passed" in any case, anywhere in the output, makes the file PASS whatever else the output says |
| Runner.PlaywrightIgnoresCase | china-cdbu-test.py:282 | an upper-cased output gets the same status |
| Runner.SpecLogNameOfSpec | china-cdbu-test.py:285 | a spec file stem + ".spec.js" without other dots logs to stem + ".log" |
| Runner.ScriptOutput | china-cdbu-test.py:355-357 | the standard output alone when the error output is empty; otherwise followed by the STDERR marker and the error output |
| Runner.ScriptStatus | china-cdbu-test.py:346-373 | FAIL when launching raised or the return code is non-zero; with return code 0, FAIL exactly when the combined output contains "FAIL" or "Error:" |
| Runner.StderrCanFail | china-cdbu-test.py:355-365 | "FAIL" written only to the error output still fails a script that exited with 0 |
| Runner.ScriptLogNameOfScript | china-cdbu-test.py:376-377 | a script stem + ".py" without other dots logs to stem + ".log" |
| Runner.ScriptLogNameWithoutDot | china-cdbu-test.py:376-377 | a name without "." is kept and ".log" appended |
| Runner.WordIndexFrom | china-cdbu-test.py:396 | a found position is a whole-word occurrence at or after the start; none found means no whole-word occurrence from there on |
| Runner.CheckLogFile | china-cdbu-test.py:391-400 | a missing log is FAIL; an existing log is FAIL exactly when one of the five failure patterns matches it ignoring case |
| Runner.CheckIgnoresCase | china-cdbu-test.py:396-398 | an upper-cased log gets the same verdict |
| Runner.FailHeaderFailsLog | china-cdbu-test.py:286-291 | a log written for a FAIL run is found FAIL again by the analysis, through its "[FAIL]" header |
| Runner.LowerCaseFailRunPasses | china-cdbu-test.py:361-368 | a script exiting with 0 and printing " fail " is PASS when it runs |
| Runner.WordFailShowsFailure | china-cdbu-test.py:396 | "fail" in any case between two non-word characters matches the word pattern |
| Runner.LowerCaseFailLogFails | china-cdbu-test.py:376-400 | the log of that PASS script run is FAIL when analysed: run and analysis disagree |
| Runner.Results | china-cdbu-test.py:413-426 | at most one entry per file of the listing |
| Runner.ResultsExact | china-cdbu-test.py:413-426 | every analysed log has its entry and every entry comes from an analysed log |
| Runner.ProjectStatus | china-cdbu-test.py:411-416 | the project is FAIL exactly when some entry is FAIL |
| Runner.ProjectStatusAppend | china-cdbu-test.py:415-416 | one more entry makes the project FAIL when it is FAIL and leaves the status otherwise |
| Runner.ProcessLogs | china-cdbu-test.py:402-429 | a missing directory gives FAIL with no entries; otherwise the entries of the analysed logs in listing order and the status they determine |
| Runner.CombinedLogsIgnored | china-cdbu-test.py:414 | a log whose name mentions "combined" in any case changes nothing |
| Runner.PassedCount | china-cdbu-test.py:461 | the number passed never exceeds the number of entries |
| Runner.CountsAgree | china-cdbu-test.py:461-463 | passed count plus the length of the failed list is the number of entries |
| Runner.FailedListExact | china-cdbu-test.py:463 | the failed list holds the file and log of every FAIL entry and nothing else |
| Runner.ProjectPassIffAllPassed | china-cdbu-test.py:411-461 | the project is PASS exactly when every entry passed |
| Runner.TargetUrl | china-cdbu-test.py:445-450 | a known key gives its own address; an unknown key gives the development address |
| Runner.ReplaceCharAll | china-cdbu-test.py:446 | replacing one character by another keeps the length and maps each position on its own |
| Runner.PlatformLabelShape | china-cdbu-test.py:446 | the label has the key's length, and each position is the upper-cased key character, or a space where the key has "_" |
| Runner.HistoryTime | china-cdbu-test.py:180 | a prefix of at most five characters; the whole time when it has five or fewer |
| Runner.HistoryTimeIdempotent | china-cdbu-test.py:180 | a shown time is shown unchanged again |

## Left out

- Browser interaction: logins, locators, clicks, waits, accordions and save buttons. The model starts from the values the scripts read.
- SSH tunnels, remote scheduler triggers, SFTP uploads and database queries (tests/inbound.py, tests/inbound-sales.py, tests/Outbound.py, tests/alerts.py, tests/mail-alerts.py, tests/db_query.py, tests/db_validation.py, tests/check_path.py, utils/db.js). `SysCountry.TriggerOutcome` keeps only the verdict on the process's exit code and output.
- The local express servers and retry loops of tests/china-dbpoll.spec.js and tests/china-syscountry-attribute-movement.spec.js. That second file's only check needs the live screen.
- The runner's Flask routes, sqlite history, subprocess launching and file writes in china-cdbu-test.py. Their observable results (outputs, return codes, directory listings, file contents) are parameters of `Runner`.
- Configuration-only files (env.config.js, tests/env_config.py, tests/projectConfig.js), tests/get_coords.py, and the recorded click scripts tests/recorded.spec.js and tests/test.spec.js, which hold no decisions.
- IEEE floating point: amounts are exact `real`s. Products and comparisons are exact, so an equality that rounding would break in JavaScript holds here.
- `new Date` parsing in tests/Reports.spec.js: a date is a day number, a blank field or an unreadable one (`Reports.DateField`). The reading of a date text is the `parseDate` parameter of `Reports.ExtractSource`.
- JsNumber.ParseFloat: reads only an optional sign, digits and one decimal point. The exponent form ("1e3") and "Infinity" are not read, and such texts give NaN or the digits before the "e" where JavaScript gives another number.
- JsNumber.NumberOf: reads only decimal text. The exponent form, the "0x", "0b" and "0o" literals and "Infinity" are not read. `JsNumber.NumberAgreesWithParseFloat` and `ChinaApproval.PresentPriceParses` therefore hold only for decimal readings.
- Text.IsSpace: knows only the ASCII white space characters and U+00A0. JavaScript's `trim` and `\s` also strip U+FEFF, U+1680, U+2000 to U+200A, U+2028, U+2029, U+202F, U+205F and U+3000, so texts padded with those trim differently here.
- The clock and `Math.random`: today's date and the five random digits of tests/syscountry.spec.js:30 are parameters.
- tests/stocking.spec.js:187 reads a column index that is never defined, which would raise when run. `Stocking` takes the annual volume as an input instead.
- Case mapping and `\b` are ASCII only: no Unicode case folding and no Unicode word characters.
- Approvers 3 and 4 of tests/china-approval.spec.js are modelled only as being set to "Auto".
- The waits between polling attempts in tests/syscountry.spec.js: the reloads are given in the order the loop makes them.
- Logging. A verdict that is only logged, such as the engine-model check of tests/china-dbpoll.spec.js, is modelled as a predicate.

## Findings

| source | as written | input that shows it | evidently intended | confidence | as-written member | corrected member |
|---|---|---|---|---|---|---|
| tests/Reports.spec.js:163 | the last lookup asks for the header "Current USD LP Effectve Date" and trims the result, so a grid without that exact header makes `.trim()` throw on null | a Data Explorer grid whose headers spell all four effective-date columns "Effective" | ask for "Current USD LP Effective Date", as the three other date lookups spell it | not executed | Reports.MisspeltDateHeaderThrows | Reports.ExtractSourceFullRow |
| tests/china-Business-rule.spec.js:92 | the test fails whenever the Future Product Group equals the System Recommended Product Group, including when both are empty | the Future Product Group dropdown is not visible and the system value is blank | fail only when, with the PM Override Flag at "Yes", a non-null Future Product Group equals the system recommendation, as the rule the test logs says | not executed | BusinessRule.EmptyGroupsFailAsWritten | BusinessRule.FailsIff |
