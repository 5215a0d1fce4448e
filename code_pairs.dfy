/**
 * The search for a (list pricing, markup) code pair: the mapping table's
 * rows are visited in order, each row's two ids are looked up, and the
 * first row for which both lookups return a code supplies the pair. No
 * mapping rows at all, or no row with both codes, is fatal.
 */
module CodePairs {
  import opened Wrappers

  /** One mapping row after its two lookups: the code found for each id, or `None` when the lookup returned no row. */
  datatype MappingRow = MappingRow(listPricingCode: Option<string>, markupCode: Option<string>)

  /** A row is usable when both lookups returned a row. */
  predicate Valid(row: MappingRow) {
    row.listPricingCode.Some? && row.markupCode.Some?
  }

  datatype Pair = Pair(listPricingCode: string, markupCode: string)

  /** Why the search is fatal. */
  datatype Failure = NoMappingRows | NoValidPair

  /** The first usable row at or after `i`. */
  function FirstValidFrom(rows: seq<MappingRow>, i: nat): (r: Option<nat>)
    requires i <= |rows|
    ensures r.Some? ==> i <= r.value < |rows| && Valid(rows[r.value])
    ensures forall j :: i <= j < |rows| && (r.None? || j < r.value) ==> !Valid(rows[j])
    decreases |rows| - i
  {
    if i == |rows| then None
    else if Valid(rows[i]) then Some(i)
    else FirstValidFrom(rows, i + 1)
  }

  /** The outcome of the search: the codes of the first usable row, or the reason it is fatal. */
  function SearchOutcome(rows: seq<MappingRow>): (r: Result<Pair, Failure>)
  {
    if |rows| == 0 then Err(NoMappingRows)
    else match FirstValidFrom(rows, 0)
      case None => Err(NoValidPair)
      case Some(k) => Ok(Pair(rows[k].listPricingCode.value, rows[k].markupCode.value))
  }

  /**
   * The search succeeds exactly when some row is usable; it then returns
   * that row's codes, and every earlier row lacks at least one code. It
   * fails with `NoMappingRows` exactly when there are no rows.
   */
  lemma SearchOutcomeSpec(rows: seq<MappingRow>)
    ensures SearchOutcome(rows).Ok? <==> exists k :: 0 <= k < |rows| && Valid(rows[k])
    ensures SearchOutcome(rows) == Err(NoMappingRows) <==> |rows| == 0
    ensures SearchOutcome(rows).Ok? ==>
      exists k :: 0 <= k < |rows| && Valid(rows[k]) && (forall j :: 0 <= j < k ==> !Valid(rows[j])) &&
        SearchOutcome(rows).value == Pair(rows[k].listPricingCode.value, rows[k].markupCode.value)
  {
    if |rows| > 0 {
      var f := FirstValidFrom(rows, 0);
      if f.Some? {
        var k := f.value;
        assert Valid(rows[k]) && forall j :: 0 <= j < k ==> !Valid(rows[j]);
      }
    }
  }

  /** Rows after the first usable one do not affect the outcome. */
  lemma LaterRowsIgnored(rows: seq<MappingRow>, more: seq<MappingRow>)
    requires exists k :: 0 <= k < |rows| && Valid(rows[k])
    ensures SearchOutcome(rows + more) == SearchOutcome(rows)
  {
    var k :| 0 <= k < |rows| && Valid(rows[k]);
    var a := FirstValidFrom(rows, 0);
    var b := FirstValidFrom(rows + more, 0);
    assert (rows + more)[k] == rows[k];
    assert a.Some? && b.Some?;
    assert (rows + more)[a.value] == rows[a.value];
    assert b.value <= a.value;
    assert (rows + more)[b.value] == rows[b.value];
  }

  /**
   * The search loop: it stops at the first row whose two lookups both
   * return a code (an early `return` in one script, a flag and `break` in
   * the other).
   */
  method FindPair(rows: seq<MappingRow>) returns (r: Result<Pair, Failure>)
    ensures r == SearchOutcome(rows)
  {
    if |rows| == 0 {
      return Err(NoMappingRows);
    }
    var found := false;
    var pair := Pair("", "");
    var i := 0;
    while i < |rows|
      invariant 0 <= i <= |rows|
      invariant !found
      invariant FirstValidFrom(rows, 0) == FirstValidFrom(rows, i)
    {
      var row := rows[i];
      if row.listPricingCode.Some? && row.markupCode.Some? {
        pair := Pair(row.listPricingCode.value, row.markupCode.value);
        found := true;
        break;
      }
      i := i + 1;
    }
    if !found {
      return Err(NoValidPair);
    }
    r := Ok(pair);
  }
}
