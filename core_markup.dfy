/**
 * Core markup script (tests/core-markup.py): the code pair is found with the
 * shared mapping-row search, and the list-pricing code's region prefix is
 * stripped by splitting once on "-".
 */
module CoreMarkup {
  import opened Wrappers
  import opened Text
  import CodePairs
  import ListPrice

  const NotFound: string := "NOT_FOUND"

  /**
   * The cleaned list-pricing code: "NOT_FOUND" for an empty code or for
   * "NOT_FOUND" itself; the second piece of `split('-', 1)` when the code
   * has a "-" (later dashes kept); the code unchanged otherwise.
   */
  function StripRegionPrefix(code: string): (r: string)
    ensures code == [] || code == NotFound ==> r == NotFound
    ensures code != [] && code != NotFound && '-' !in code ==> r == code
    ensures code != [] && code != NotFound && '-' in code ==>
      exists i :: 0 <= i < |code| && code[i] == '-' && '-' !in code[..i] && r == code[i + 1..]
  {
    if code == [] || code == NotFound then NotFound
    else
      var parts := SplitOnce(code, '-');
      if '-' in code then parts[1] else code
  }

  /** For any real code, splitting once on "-" and the split/slice(1)/join rewrite of the list-price test agree. */
  lemma AgreesWithBasePartNumber(code: string)
    requires code != [] && code != NotFound
    ensures StripRegionPrefix(code) == ListPrice.BasePartNumber(code)
  {
    match FirstIndex(code, '-')
    case None =>
    case Some(i) =>
      AfterFirstSeparator(code, '-', i);
  }

  /** Only the first "-" is cut: "CHINA-0110-3825" becomes "0110-3825". */
  lemma KeepsLaterDashes()
    ensures StripRegionPrefix("CHINA-0110-3825") == "0110-3825"
  {
    var code := "CHINA-0110-3825";
    assert code != NotFound by { assert code[0] != NotFound[0]; }
    assert code[5] == '-' && '-' !in code[..5];
    assert FirstIndex(code, '-') == Some(5);
    assert code[6..] == "0110-3825";
  }

  /** The script's result: the codes of the first usable pair with the list-pricing code cleaned, or the fatal exit (code 1). */
  datatype Outcome = Exit(status: int) | Codes(listPricingNumeric: string, markupCode: string)

  function Run(rows: seq<CodePairs.MappingRow>): (r: Outcome)
    ensures r.Exit? <==> CodePairs.SearchOutcome(rows).Err?
    ensures r.Exit? ==> r.status == 1
    ensures r.Codes? ==> r.markupCode == CodePairs.SearchOutcome(rows).value.markupCode
    ensures r.Codes? ==> r.listPricingNumeric == StripRegionPrefix(CodePairs.SearchOutcome(rows).value.listPricingCode)
  {
    match CodePairs.SearchOutcome(rows)
    case Err(_) => Exit(1)
    case Ok(p) => Codes(StripRegionPrefix(p.listPricingCode), p.markupCode)
  }
}
