/**
 * Pricing-report check (tests/Reports.spec.js): values read from the Data
 * Explorer grid give the expected mainland list price (publish price, else
 * current price, each only once its effective date has been reached), and
 * the pricing report's row for the same part must show the same part
 * number, name, item group and price.
 */
module Reports {
  import opened Wrappers
  import opened Text
  import opened JsNumber
  import Grid

  // ---------------------------------------------------------------------
  // Dates and the effective list price
  // ---------------------------------------------------------------------

  /** `new Date('9999-12-31')` as a day number counted from 1970-01-01. */
  const MaxDay: int := 2932896

  /** An effective-date cell: empty, text `new Date` cannot read (an Invalid Date), or a day. */
  datatype DateField = Blank | Unreadable | Day(day: int)

  /** A date used by `calculateListPrice`: a blank date stands for 9999-12-31; an Invalid Date never compares `<=`. */
  predicate EffectiveBy(d: DateField, inputDay: int) {
    match d
    case Blank => MaxDay <= inputDay
    case Unreadable => false
    case Day(x) => x <= inputDay
  }

  /** Where the expected list price came from. */
  datatype Source = FromPublish | FromCurrent | NoPrice

  /** The branch `calculateListPrice` takes: publish first, then current; a price of 0 or NaN counts as absent. */
  function PriceSource(publishPrice: Number, publishDate: DateField, currentPrice: Number, currentDate: DateField, inputDay: int): (r: Source)
    ensures r == FromPublish <==> publishPrice.Truthy() && EffectiveBy(publishDate, inputDay)
    ensures r == FromCurrent <==> !(publishPrice.Truthy() && EffectiveBy(publishDate, inputDay)) && currentPrice.Truthy() && EffectiveBy(currentDate, inputDay)
  {
    if publishPrice.Truthy() && EffectiveBy(publishDate, inputDay) then FromPublish
    else if currentPrice.Truthy() && EffectiveBy(currentDate, inputDay) then FromCurrent
    else NoPrice
  }

  /** `calculateListPrice`: the applicable price, or 0 when neither applies. */
  function CalculateListPrice(publishPrice: Number, publishDate: DateField, currentPrice: Number, currentDate: DateField, inputDay: int): (r: Number)
    ensures r.Num?
    ensures r == Num(0.0) <==> PriceSource(publishPrice, publishDate, currentPrice, currentDate, inputDay) == NoPrice
    ensures PriceSource(publishPrice, publishDate, currentPrice, currentDate, inputDay) == FromPublish ==> r == publishPrice
    ensures PriceSource(publishPrice, publishDate, currentPrice, currentDate, inputDay) == FromCurrent ==> r == currentPrice
  {
    match PriceSource(publishPrice, publishDate, currentPrice, currentDate, inputDay)
    case FromPublish => publishPrice
    case FromCurrent => currentPrice
    case NoPrice => Num(0.0)
  }

  /** A missing effective date makes its price inapplicable for every date before 9999-12-31. */
  lemma BlankDateNeverApplies(publishPrice: Number, currentPrice: Number, currentDate: DateField, inputDay: int)
    requires inputDay < MaxDay
    ensures CalculateListPrice(publishPrice, Blank, currentPrice, currentDate, inputDay) ==
            CalculateListPrice(Num(0.0), Blank, currentPrice, currentDate, inputDay)
  {
  }

  /** Once both dates have been reached and the publish price is set, the current price is irrelevant. */
  lemma PublishTakesPrecedence(publishPrice: real, publishDay: int, currentPrice: Number, currentDate: DateField, inputDay: int)
    requires publishPrice != 0.0 && publishDay <= inputDay
    ensures CalculateListPrice(Num(publishPrice), Day(publishDay), currentPrice, currentDate, inputDay) == Num(publishPrice)
  {
  }

  /** The result only ever moves forward in time: a price that applies on one day still applies on every later day, unless the publish price takes over. */
  lemma LaterDayKeepsPublish(publishPrice: Number, publishDate: DateField, currentPrice: Number, currentDate: DateField, day1: int, day2: int)
    requires day1 <= day2
    ensures PriceSource(publishPrice, publishDate, currentPrice, currentDate, day1) == FromPublish ==>
      PriceSource(publishPrice, publishDate, currentPrice, currentDate, day2) == FromPublish
    ensures PriceSource(publishPrice, publishDate, currentPrice, currentDate, day1) == FromCurrent ==>
      PriceSource(publishPrice, publishDate, currentPrice, currentDate, day2) != NoPrice
  {
  }

  /** A label of the report. */
  const PublishChanged: string := "Publish Base Price Changed"
  const CurrentChanged: string := "Current Base Price changed"

  /** `calculateBasePriceChanged`: the same date precedence, but a blank date is absent (not 9999-12-31) and prices are ignored. */
  function BasePriceChanged(publishDate: DateField, currentDate: DateField, inputDay: int): (r: string)
    ensures r == PublishChanged <==> publishDate.Day? && publishDate.day <= inputDay
    ensures r == CurrentChanged <==> !(publishDate.Day? && publishDate.day <= inputDay) && currentDate.Day? && currentDate.day <= inputDay
    ensures r == [] <==> !(publishDate.Day? && publishDate.day <= inputDay) && !(currentDate.Day? && currentDate.day <= inputDay)
  {
    assert PublishChanged[0] != CurrentChanged[0];
    if publishDate.Day? && publishDate.day <= inputDay then PublishChanged
    else if currentDate.Day? && currentDate.day <= inputDay then CurrentChanged
    else ""
  }

  /** Whenever the price comes from the publish price and its date is set, the label names the publish price. */
  lemma LabelFollowsPublish(publishPrice: Number, publishDate: DateField, currentPrice: Number, currentDate: DateField, inputDay: int)
    requires publishDate != Blank
    requires PriceSource(publishPrice, publishDate, currentPrice, currentDate, inputDay) == FromPublish
    ensures BasePriceChanged(publishDate, currentDate, inputDay) == PublishChanged
  {
  }

  /** Because the label ignores prices, it can name the publish price while the price comes from the current one. */
  lemma LabelCanDisagree(currentPrice: real, day: int)
    requires currentPrice != 0.0
    ensures PriceSource(Num(0.0), Day(day), Num(currentPrice), Day(day), day) == FromCurrent
    ensures BasePriceChanged(Day(day), Day(day), day) == PublishChanged
  {
  }

  // ---------------------------------------------------------------------
  // Currency and part-number text
  // ---------------------------------------------------------------------

  /** The characters `parseCurrency` keeps: digits, "." and "-". */
  predicate CurrencyChar(c: char) {
    IsDigit(c) || c == '.' || c == '-'
  }

  /** `parseCurrency`: null or "" is 0; otherwise every other character is removed before `parseFloat`. */
  function ParseCurrency(text: Option<string>): (r: Number)
    ensures text.None? || text.value == [] ==> r == Num(0.0)
  {
    match text
    case None => Num(0.0)
    case Some(s) => if s == [] then Num(0.0) else ParseFloat(Filter(s, CurrencyChar))
  }

  /** Text that holds no digit at all (but is not empty) reads as NaN, not 0. */
  lemma NoDigitsIsNaN(s: string)
    requires s != [] && forall i :: 0 <= i < |s| ==> !IsDigit(s[i])
    ensures ParseCurrency(Some(s)) == NaN
  {
    FilterFromInput(s, CurrencyChar);
  }

  /** Cleaning is stable: the text already stripped to digits, "." and "-" reads the same. */
  lemma ParseCurrencyOfCleaned(s: string)
    requires Filter(s, CurrencyChar) != []
    ensures ParseCurrency(Some(Filter(s, CurrencyChar))) == ParseCurrency(Some(s))
  {
    FilterIdempotent(s, CurrencyChar);
  }

  /** Whole amounts written with the digits alone read back as themselves. */
  lemma ParseCurrencyOfNat(n: nat)
    ensures ParseCurrency(Some(NatToString(n))) == Num(n as real)
  {
    var s := NatToString(n);
    FilterKeepsAll(s, CurrencyChar);
    ParseFloatOfNat(n);
  }

  /** The part number of a grid cell such as "A077S591 {KIT,HARDWARE}": the text before the first " {", trimmed. */
  function CleanPartNumber(s: string): (r: string)
    ensures !Contains(r, " {")
    ensures |r| <= |s|
  {
    var before := BeforeFirst(s, " {");
    TrimAt(before);
    NoInfixInPiece(before, SkipSpaces(before, 0), |Trim(before)|, " {");
    Trim(before)
  }

  /** A piece of a string that does not contain `t` does not contain it either. */
  lemma NoInfixInPiece(s: string, i: nat, n: nat, t: string)
    requires !Contains(s, t)
    requires i + n <= |s|
    ensures !Contains(s[i..i + n], t)
  {
    var piece := s[i..i + n];
    if Contains(piece, t) {
      var j := IndexOf(piece, t).value;
      assert piece[j..j + |t|] == s[i + j..i + j + |t|];
      assert MatchesAt(s, t, i + j);
    }
  }

  /** The text before the first " {" of `p + " {" + q` is `p`, when `p` holds no " {". */
  lemma {:induction false} BeforeFirstBrace(p: string, q: string)
    requires !Contains(p, " {")
    ensures BeforeFirst(p + " {" + q, " {") == p
  {
    var s := p + " {" + q;
    assert s[|p|..|p| + 2] == " {";
    assert MatchesAt(s, " {", |p|);
    forall j | 0 <= j < |p|
      ensures !MatchesAt(s, " {", j)
    {
      if j + 2 <= |p| {
        assert s[j..j + 2] == p[j..j + 2];
        assert !MatchesAt(p, " {", j);
      } else {
        assert s[j + 1] == ' ';
        assert s[j..j + 2][1] == ' ';
      }
    }
    assert s[..|p|] == p;
  }

  /** A cell with a bracketed description keeps the trimmed text before the first " {". */
  lemma CleanPartNumberOfDescribed(p: string, q: string)
    requires !Contains(p, " {")
    ensures CleanPartNumber(p + " {" + q) == Trim(p)
  {
    BeforeFirstBrace(p, q);
  }

  /** A cell without " {" is only trimmed. */
  lemma CleanPartNumberOfPlain(s: string)
    requires !Contains(s, " {")
    ensures CleanPartNumber(s) == Trim(s)
  {
  }

  /** Cleaning a part number twice is cleaning it once. */
  lemma CleanPartNumberIdempotent(s: string)
    ensures CleanPartNumber(CleanPartNumber(s)) == CleanPartNumber(s)
  {
    var r := CleanPartNumber(s);
    assert BeforeFirst(r, " {") == r;
    TrimIdempotent(BeforeFirst(s, " {"));
  }

  // ---------------------------------------------------------------------
  // Report headers
  // ---------------------------------------------------------------------

  /** Positions `k` and `k + 1` of `s` both hold white space. */
  predicate SpacePair(s: string, k: nat)
    requires k + 1 < |s|
  {
    IsSpace(s[k]) && IsSpace(s[k + 1])
  }

  /** The only white space in `s` is single " " characters. */
  predicate SingleSpaced(s: string) {
    (forall k :: 0 <= k < |s| && IsSpace(s[k]) ==> s[k] == ' ') &&
    (forall k :: 0 <= k < |s| - 1 ==> !SpacePair(s, k))
  }

  /** `s[i..]` with `\s+` replaced by a single space: every run of white space becomes one " ". */
  function CollapseFrom(s: string, i: nat): (r: string)
    requires i <= |s|
    decreases |s| - i
  {
    if i == |s| then []
    else if IsSpace(s[i]) then [' '] + CollapseFrom(s, SkipSpaces(s, i))
    else [s[i]] + CollapseFrom(s, i + 1)
  }

  /** Collapsing leaves single " " characters as the only white space, and starts with white space exactly when the input does. */
  lemma {:induction false} CollapseFromSpec(s: string, i: nat)
    requires i <= |s|
    ensures |CollapseFrom(s, i)| == 0 <==> i == |s|
    ensures CollapseFrom(s, i) != [] ==> (IsSpace(CollapseFrom(s, i)[0]) <==> IsSpace(s[i]))
    ensures SingleSpaced(CollapseFrom(s, i))
    decreases |s| - i
  {
    if i < |s| {
      var j := if IsSpace(s[i]) then SkipSpaces(s, i) else i + 1;
      CollapseFromSpec(s, j);
      var rest := CollapseFrom(s, j);
      var r := CollapseFrom(s, i);
      assert r == [r[0]] + rest;
      forall k | 0 <= k < |r| - 1 ensures !SpacePair(r, k) {
        if k == 0 {
          assert IsSpace(r[0]) ==> j == |s| || !IsSpace(s[j]);
        } else {
          assert !SpacePair(rest, k - 1);
        }
      }
    }
  }

  /** `s.replace(/\s+/g, ' ')`. */
  function CollapseSpaces(s: string): string
  {
    CollapseFrom(s, 0)
  }

  /** Text whose only white space is single " " characters is unchanged by collapsing. */
  lemma {:induction false} CollapseFixed(s: string, i: nat)
    requires i <= |s|
    requires SingleSpaced(s)
    ensures CollapseFrom(s, i) == s[i..]
    decreases |s| - i
  {
    if i < |s| {
      if IsSpace(s[i]) {
        assert SkipSpaces(s, i) == i + 1 by {
          if i + 1 < |s| {
            assert !SpacePair(s, i);
          }
        }
      }
      CollapseFixed(s, i + 1);
      assert s[i..] == [s[i]] + s[i + 1..];
    }
  }

  /** Trimming keeps text single-spaced: the trimmed text is a piece of the input. */
  lemma TrimKeepsSingleSpaced(c: string)
    requires SingleSpaced(c)
    ensures SingleSpaced(Trim(c))
  {
    TrimAt(c);
    var t := Trim(c);
    var k := SkipSpaces(c, 0);
    assert forall m :: 0 <= m < |t| ==> t[m] == c[k + m];
    forall m | 0 <= m < |t| - 1 ensures !SpacePair(t, m) {
      assert !SpacePair(c, k + m);
    }
  }

  /** A header's text with line breaks and runs of white space turned into single spaces, trimmed. */
  function CleanHeader(raw: string): string
  {
    Trim(CollapseSpaces(raw))
  }

  /** A cleaned header has no white space at either end and only single " " characters inside. */
  lemma CleanHeaderSpec(raw: string)
    ensures var r := CleanHeader(raw);
      (r == [] || (!IsSpace(r[0]) && !IsSpace(r[|r| - 1]))) && SingleSpaced(r)
  {
    var c := CollapseSpaces(raw);
    CollapseFromSpec(raw, 0);
    TrimEnds(c);
    TrimKeepsSingleSpaced(c);
  }

  /** A cleaned header cleans to itself. */
  lemma CleanHeaderIdempotent(raw: string)
    ensures CleanHeader(CleanHeader(raw)) == CleanHeader(raw)
  {
    var r := CleanHeader(raw);
    CleanHeaderSpec(raw);
    CollapseFixed(r, 0);
    TrimOfTrimmed(r);
  }

  /** The map built from names in order: each name maps to the position where it occurs last. */
  function IndexMap(names: seq<string>, n: nat): (m: map<string, nat>)
    requires n <= |names|
    ensures forall k :: k in m ==> m[k] < n && names[m[k]] == k
    decreases n
  {
    if n == 0 then map[] else IndexMap(names, n - 1)[names[n - 1] := n - 1]
  }

  /** A name is a key exactly when it occurs, and its index is its last occurrence. */
  lemma {:induction false} IndexMapSpec(names: seq<string>, n: nat, key: string)
    requires n <= |names|
    ensures key in IndexMap(names, n) <==> exists i :: 0 <= i < n && names[i] == key
    ensures key in IndexMap(names, n) ==> forall j :: IndexMap(names, n)[key] < j < n ==> names[j] != key
  {
    if n > 0 {
      IndexMapSpec(names, n - 1, key);
    }
  }

  /** `f` applied to every element, in order. */
  function MapSeq(raw: seq<string>, f: string -> string): (r: seq<string>)
    ensures |r| == |raw| && forall i :: 0 <= i < |raw| ==> r[i] == f(raw[i])
  {
    seq(|raw|, i requires 0 <= i < |raw| => f(raw[i]))
  }

  /** The cleaned header texts, in order. */
  function CleanHeaders(raw: seq<string>): seq<string>
  {
    MapSeq(raw, CleanHeader)
  }

  /** The header-mapping loop over any cleaning: `columnIndexMap[clean(raw[i])] = i` for every header in order. */
  method IndexCleaned(raw: seq<string>, clean: string -> string) returns (columnIndexMap: map<string, nat>)
    ensures columnIndexMap == IndexMap(MapSeq(raw, clean), |raw|)
  {
    ghost var names := MapSeq(raw, clean);
    columnIndexMap := map[];
    var i := 0;
    while i < |raw|
      invariant 0 <= i <= |raw|
      invariant columnIndexMap == IndexMap(names, i)
    {
      var cleanName := clean(raw[i]);
      columnIndexMap := columnIndexMap[cleanName := i];
      i := i + 1;
    }
  }

  /**
   * The report's header-mapping loop: each cleaned header text maps to the
   * position where it occurs last, a later duplicate overwriting an earlier one.
   */
  method BuildColumnIndex(raw: seq<string>) returns (columnIndexMap: map<string, nat>)
    ensures columnIndexMap == IndexMap(CleanHeaders(raw), |raw|)
  {
    columnIndexMap := IndexCleaned(raw, CleanHeader);
  }

  /** The first position (in header order) whose name contains `column`, ignoring case. */
  function FirstContaining(names: seq<string>, column: string, i: nat): (r: Option<nat>)
    requires i <= |names|
    ensures r.Some? ==> i <= r.value < |names| && Contains(ToLower(names[r.value]), ToLower(column))
    ensures forall j :: i <= j < |names| && (r.None? || j < r.value) ==> !Contains(ToLower(names[j]), ToLower(column))
    decreases |names| - i
  {
    if i == |names| then None
    else if Contains(ToLower(names[i]), ToLower(column)) then Some(i)
    else FirstContaining(names, column, i + 1)
  }

  /**
   * `getUIValue`: the first key (for headers that are not array indices
   * such as "17", keys are in order of first appearance) that contains the column name ignoring case, then the cell at that
   * key's index, trimmed. `Ok(None)` when no key matches; `Err` when the row
   * has no cell at that index (the read times out).
   */
  function UIValue(names: seq<string>, cells: seq<string>, column: string): (r: Result<Option<string>, string>)
    ensures r == Ok(None) <==> FirstContaining(names, column, 0).None?
  {
    match FirstContaining(names, column, 0)
    case None => Ok(None)
    case Some(k) =>
      IndexMapSpec(names, |names|, names[k]);
      var index := IndexMap(names, |names|)[names[k]];
      if index < |cells| then Ok(Some(Trim(cells[index]))) else Err("timeout")
  }

  /** The cell read is the LAST column carrying the first matching name, which need not be the first match's own column. */
  lemma UIValueReadsLastDuplicate(names: seq<string>, cells: seq<string>, column: string)
    requires FirstContaining(names, column, 0).Some?
    ensures var key := names[FirstContaining(names, column, 0).value];
            key in IndexMap(names, |names|) &&
            var index := IndexMap(names, |names|)[key];
            names[index] == key && Contains(ToLower(names[index]), ToLower(column)) &&
            (forall j :: index < j < |names| ==> names[j] != key) &&
            (index < |cells| ==> UIValue(names, cells, column) == Ok(Some(Trim(cells[index]))))
  {
    var key := names[FirstContaining(names, column, 0).value];
    IndexMapSpec(names, |names|, key);
  }

  /**
   * `getSourceValue`: the first grid header whose trimmed text equals the
   * name, then that column's cell text as it is; `Ok(None)` without such a
   * header and `Err` when the row has no cell there.
   */
  function SourceValue(headers: seq<string>, cells: seq<string>, name: string): (r: Result<Option<string>, string>)
    ensures r == Ok(None) <==> name !in TrimmedHeaders(headers)
    ensures |headers| <= |cells| ==> r.Ok?
  {
    var index := Grid.FirstColumn(TrimmedHeaders(headers), name);
    if index == -1 then Ok(None)
    else if index < |cells| then Ok(Some(cells[index]))
    else Err("timeout")
  }

  /** The grid headers' texts, trimmed as `getSourceValue` compares them. */
  function TrimmedHeaders(headers: seq<string>): seq<string> {
    seq(|headers|, i requires 0 <= i < |headers| => Trim(headers[i]))
  }

  // ---------------------------------------------------------------------
  // The values extracted from the grid
  // ---------------------------------------------------------------------

  const PartNumberHeader: string := "Part Number"
  const NameHeader: string := "Name"
  const ItemGroupHeader: string := "Item Group"
  const PublishLocalPriceHeader: string := "Publish Local Currency List Price"
  const PublishLocalDateHeader: string := "Publish Local Currency LP Effective Date"
  const CurrentLocalPriceHeader: string := "Current Local Currency List Price"
  const CurrentLocalDateHeader: string := "Current Local Currency LP Effective Date"
  const PublishUsdPriceHeader: string := "Publish USD List Price"
  const PublishUsdDateHeader: string := "Publish USD LP Effective Date"
  const CurrentUsdPriceHeader: string := "Current USD List Price"
  /** The name the test asks for, with "Effective" misspelt. */
  const CurrentUsdDateHeaderAsWritten: string := "Current USD LP Effectve Date"
  /** The name spelt as the other three effective-date headers are. */
  const CurrentUsdDateHeader: string := "Current USD LP Effective Date"

  /** One lookup of the Data Explorer row: the header asked for, and whether the test trims the value. */
  datatype Lookup = Lookup(header: string, trimmed: bool)

  /**
   * `(await getSourceValue(name)).trim()` for a trimmed lookup: a header
   * that is not found gives null, and `.trim()` on null throws. A price
   * lookup keeps the raw cell, null included, for `parseCurrency`.
   */
  function LookupStep(headers: seq<string>, cells: seq<string>, l: Lookup): (r: Result<Option<string>, string>)
  {
    match SourceValue(headers, cells, l.header)
    case Err(e) => Err(e)
    case Ok(None) => if l.trimmed then Err("TypeError: Cannot read properties of null (reading 'trim')") else Ok(None)
    case Ok(Some(t)) => Ok(Some(if l.trimmed then Trim(t) else t))
  }

  /** The eleven lookups in the test's order; the header of the last one is a parameter. */
  function Lookups(currentUsdDateHeader: string): seq<Lookup> {
    [Lookup(PartNumberHeader, true), Lookup(NameHeader, true), Lookup(ItemGroupHeader, true),
     Lookup(PublishLocalPriceHeader, false), Lookup(PublishLocalDateHeader, true),
     Lookup(CurrentLocalPriceHeader, false), Lookup(CurrentLocalDateHeader, true),
     Lookup(PublishUsdPriceHeader, false), Lookup(PublishUsdDateHeader, true),
     Lookup(CurrentUsdPriceHeader, false), Lookup(currentUsdDateHeader, true)]
  }

  /** The outcome of every lookup. */
  function SourceSteps(headers: seq<string>, cells: seq<string>, currentUsdDateHeader: string): (r: seq<Result<Option<string>, string>>)
    ensures |r| == 11
  {
    seq(11, k requires 0 <= k < 11 => LookupStep(headers, cells, Lookups(currentUsdDateHeader)[k]))
  }

  /**
   * An effective-date cell's trimmed text as `calculateListPrice` reads it:
   * "" is falsy and stands for 9999-12-31; any other text goes to
   * `new Date`, whose reading (a day, or an Invalid Date) is `parseDate`.
   */
  function DateFieldOf(text: string, parseDate: string -> Option<int>): (d: DateField)
    ensures d.Blank? <==> text == []
    ensures text != [] ==> (d.Unreadable? <==> parseDate(text).None?)
    ensures d.Day? ==> parseDate(text) == Some(d.day)
  {
    if text == [] then Blank
    else match parseDate(text)
      case None => Unreadable
      case Some(x) => Day(x)
  }

  /**
   * The lookups run in order and the first that throws ends the test. The
   * USD prices and dates are looked up but never used afterwards.
   */
  function ExtractSourceWith(headers: seq<string>, cells: seq<string>, parseDate: string -> Option<int>, currentUsdDateHeader: string)
    : Result<SourceData, string>
  {
    match FirstN(SourceSteps(headers, cells, currentUsdDateHeader), 11)
    case Err(e) => Err(e)
    case Ok(v) =>
      Ok(SourceData(v[0].GetOr([]), v[1].GetOr([]), v[2].GetOr([]),
                    ParseCurrency(v[3]), DateFieldOf(v[4].GetOr([]), parseDate),
                    ParseCurrency(v[5]), DateFieldOf(v[6].GetOr([]), parseDate)))
  }

  /** The seven headers whose value is trimmed are all present: a missing one among them throws. */
  predicate TrimmedHeadersPresent(headers: seq<string>, currentUsdDateHeader: string) {
    var t := TrimmedHeaders(headers);
    PartNumberHeader in t && NameHeader in t && ItemGroupHeader in t && PublishLocalDateHeader in t &&
    CurrentLocalDateHeader in t && PublishUsdDateHeader in t && currentUsdDateHeader in t
  }

  /**
   * A lookup fails only for a trimmed value without a header or for a row
   * too short; on a row with a cell under every header it fails exactly
   * when it is trimmed and its header is missing.
   */
  lemma LookupStepCases(headers: seq<string>, cells: seq<string>, l: Lookup)
    ensures LookupStep(headers, cells, l).Err? && l.header !in TrimmedHeaders(headers) ==> l.trimmed
    ensures |headers| <= |cells| ==> (LookupStep(headers, cells, l).Err? <==> l.trimmed && l.header !in TrimmedHeaders(headers))
    ensures LookupStep(headers, cells, l) == Ok(None) <==> !l.trimmed && l.header !in TrimmedHeaders(headers)
    ensures LookupStep(headers, cells, l).Ok? && l.trimmed && l.header in TrimmedHeaders(headers) ==>
      var k := Grid.FirstColumn(TrimmedHeaders(headers), l.header);
      0 <= k < |cells| && LookupStep(headers, cells, l) == Ok(Some(Trim(cells[k])))
  {
  }

  /** The extraction succeeds exactly when every lookup does, and then holds the lookups' values. */
  lemma ExtractOkIffStepsOk(headers: seq<string>, cells: seq<string>, parseDate: string -> Option<int>, h: string)
    ensures ExtractSourceWith(headers, cells, parseDate, h).Ok? <==> FirstN(SourceSteps(headers, cells, h), 11).Ok?
    ensures var steps := SourceSteps(headers, cells, h);
      ExtractSourceWith(headers, cells, parseDate, h).Ok? ==>
        var v := FirstN(steps, 11).value;
        ExtractSourceWith(headers, cells, parseDate, h).value ==
          SourceData(v[0].GetOr([]), v[1].GetOr([]), v[2].GetOr([]),
                     ParseCurrency(v[3]), DateFieldOf(v[4].GetOr([]), parseDate),
                     ParseCurrency(v[5]), DateFieldOf(v[6].GetOr([]), parseDate))
  {
  }

  /** On a row with a cell under every header, a lookup fails exactly when it is trimmed and its header is missing. */
  lemma StepsOnFullRow(headers: seq<string>, cells: seq<string>, h: string)
    requires |headers| <= |cells|
    ensures forall k :: 0 <= k < 11 ==>
      (SourceSteps(headers, cells, h)[k].Err? <==> Lookups(h)[k].trimmed && Lookups(h)[k].header !in TrimmedHeaders(headers))
  {
    var steps := SourceSteps(headers, cells, h);
    var ls := Lookups(h);
    forall k | 0 <= k < 11
      ensures steps[k].Err? <==> ls[k].trimmed && ls[k].header !in TrimmedHeaders(headers)
    {
      LookupStepCases(headers, cells, ls[k]);
    }
  }

  /** Every lookup succeeds exactly when the seven trimmed lookups find their headers. */
  lemma AllStepsOkIff(steps: seq<Result<Option<string>, string>>, t: seq<string>, h: string)
    requires |steps| == 11
    requires forall k :: 0 <= k < 11 ==> (steps[k].Err? <==> Lookups(h)[k].trimmed && Lookups(h)[k].header !in t)
    ensures (forall k :: 0 <= k < 11 ==> steps[k].Ok?) <==>
      PartNumberHeader in t && NameHeader in t && ItemGroupHeader in t && PublishLocalDateHeader in t &&
      CurrentLocalDateHeader in t && PublishUsdDateHeader in t && h in t
  {
    var ls := Lookups(h);
    if PartNumberHeader in t && NameHeader in t && ItemGroupHeader in t && PublishLocalDateHeader in t &&
       CurrentLocalDateHeader in t && PublishUsdDateHeader in t && h in t {
      forall k | 0 <= k < 11 ensures steps[k].Ok? {
        assert !ls[k].trimmed || ls[k].header in t;
      }
    } else {
      if PartNumberHeader !in t { assert steps[0].Err?; }
      else if NameHeader !in t { assert steps[1].Err?; }
      else if ItemGroupHeader !in t { assert steps[2].Err?; }
      else if PublishLocalDateHeader !in t { assert steps[4].Err?; }
      else if CurrentLocalDateHeader !in t { assert steps[6].Err?; }
      else if PublishUsdDateHeader !in t { assert steps[8].Err?; }
      else { assert steps[10].Err?; }
    }
  }

  /**
   * On a row with a cell under every header, the extraction throws exactly
   * when one of the seven trimmed lookups finds no header; a missing price
   * header never throws.
   */
  lemma ExtractSourceFullRow(headers: seq<string>, cells: seq<string>, parseDate: string -> Option<int>, currentUsdDateHeader: string)
    requires |headers| <= |cells|
    ensures ExtractSourceWith(headers, cells, parseDate, currentUsdDateHeader).Ok? <==> TrimmedHeadersPresent(headers, currentUsdDateHeader)
  {
    ExtractOkIffStepsOk(headers, cells, parseDate, currentUsdDateHeader);
    StepsOnFullRow(headers, cells, currentUsdDateHeader);
    FirstNOk(SourceSteps(headers, cells, currentUsdDateHeader), 11);
    AllStepsOkIff(SourceSteps(headers, cells, currentUsdDateHeader), TrimmedHeaders(headers), currentUsdDateHeader);
  }

  /**
   * A successful extraction holds the trimmed cells under the part number,
   * name and item group headers.
   */
  lemma ExtractedTexts(headers: seq<string>, cells: seq<string>, parseDate: string -> Option<int>, h: string)
    requires ExtractSourceWith(headers, cells, parseDate, h).Ok?
    ensures var i := Grid.FirstColumn(TrimmedHeaders(headers), PartNumberHeader);
      0 <= i < |cells| && ExtractSourceWith(headers, cells, parseDate, h).value.partNumber == Trim(cells[i])
    ensures var i := Grid.FirstColumn(TrimmedHeaders(headers), NameHeader);
      0 <= i < |cells| && ExtractSourceWith(headers, cells, parseDate, h).value.name == Trim(cells[i])
    ensures var i := Grid.FirstColumn(TrimmedHeaders(headers), ItemGroupHeader);
      0 <= i < |cells| && ExtractSourceWith(headers, cells, parseDate, h).value.itemGroup == Trim(cells[i])
  {
    var v := StepValues(headers, cells, parseDate, h);
    PickedStep(headers, cells, Lookups(h)[0], Ok(v[0]));
    PickedStep(headers, cells, Lookups(h)[1], Ok(v[1]));
    PickedStep(headers, cells, Lookups(h)[2], Ok(v[2]));
  }

  /**
   * A successful extraction holds the currency reading of the local price
   * cells, 0 when such a header is missing, and the reading of the trimmed
   * local date cells.
   */
  lemma ExtractedLocalPrices(headers: seq<string>, cells: seq<string>, parseDate: string -> Option<int>, h: string)
    requires ExtractSourceWith(headers, cells, parseDate, h).Ok?
    ensures var src := ExtractSourceWith(headers, cells, parseDate, h).value;
      SourceValue(headers, cells, PublishLocalPriceHeader).Ok? &&
      src.publishLocalPrice == ParseCurrency(SourceValue(headers, cells, PublishLocalPriceHeader).value) &&
      (PublishLocalPriceHeader !in TrimmedHeaders(headers) ==> src.publishLocalPrice == Num(0.0))
    ensures var src := ExtractSourceWith(headers, cells, parseDate, h).value;
      SourceValue(headers, cells, CurrentLocalPriceHeader).Ok? &&
      src.currentLocalPrice == ParseCurrency(SourceValue(headers, cells, CurrentLocalPriceHeader).value) &&
      (CurrentLocalPriceHeader !in TrimmedHeaders(headers) ==> src.currentLocalPrice == Num(0.0))
    ensures var i := Grid.FirstColumn(TrimmedHeaders(headers), PublishLocalDateHeader);
      0 <= i < |cells| &&
      ExtractSourceWith(headers, cells, parseDate, h).value.publishLocalDate == DateFieldOf(Trim(cells[i]), parseDate)
    ensures var i := Grid.FirstColumn(TrimmedHeaders(headers), CurrentLocalDateHeader);
      0 <= i < |cells| &&
      ExtractSourceWith(headers, cells, parseDate, h).value.currentLocalDate == DateFieldOf(Trim(cells[i]), parseDate)
  {
    var v := StepValues(headers, cells, parseDate, h);
    PickedStep(headers, cells, Lookups(h)[3], Ok(v[3]));
    PickedStep(headers, cells, Lookups(h)[4], Ok(v[4]));
    PickedStep(headers, cells, Lookups(h)[5], Ok(v[5]));
    PickedStep(headers, cells, Lookups(h)[6], Ok(v[6]));
  }

  /** The values of the eleven lookups behind a successful extraction. */
  lemma StepValues(headers: seq<string>, cells: seq<string>, parseDate: string -> Option<int>, h: string)
    returns (v: seq<Option<string>>)
    requires ExtractSourceWith(headers, cells, parseDate, h).Ok?
    ensures |v| == 11
    ensures forall k :: 0 <= k < 11 ==> LookupStep(headers, cells, Lookups(h)[k]) == Ok(v[k])
    ensures ExtractSourceWith(headers, cells, parseDate, h).value ==
      SourceData(v[0].GetOr([]), v[1].GetOr([]), v[2].GetOr([]),
                 ParseCurrency(v[3]), DateFieldOf(v[4].GetOr([]), parseDate),
                 ParseCurrency(v[5]), DateFieldOf(v[6].GetOr([]), parseDate))
  {
    var steps := SourceSteps(headers, cells, h);
    ExtractOkIffStepsOk(headers, cells, parseDate, h);
    FirstNOk(steps, 11);
    v := FirstN(steps, 11).value;
  }

  /** A lookup that succeeds: the trimmed cell under its header, or for a price the raw cell, null when the header is missing. */
  lemma PickedStep(headers: seq<string>, cells: seq<string>, l: Lookup, step: Result<Option<string>, string>)
    requires step == LookupStep(headers, cells, l) && step.Ok?
    ensures var i := Grid.FirstColumn(TrimmedHeaders(headers), l.header);
      l.trimmed ==> 0 <= i < |cells| && step.value == Some(Trim(cells[i]))
    ensures !l.trimmed ==> SourceValue(headers, cells, l.header) == step
  {
  }

  /**
   * A grid that spells all the headers as "Effective" makes the extraction
   * as written throw at its last lookup, while the corrected one succeeds.
   */
  lemma MisspeltDateHeaderThrows(headers: seq<string>, cells: seq<string>, parseDate: string -> Option<int>)
    requires |headers| <= |cells|
    requires TrimmedHeadersPresent(headers, CurrentUsdDateHeader)
    requires CurrentUsdDateHeaderAsWritten !in TrimmedHeaders(headers)
    ensures ExtractSourceAsWritten(headers, cells, parseDate).Err?
    ensures ExtractSource(headers, cells, parseDate).Ok?
  {
    ExtractSourceFullRow(headers, cells, parseDate, CurrentUsdDateHeaderAsWritten);
    ExtractSourceFullRow(headers, cells, parseDate, CurrentUsdDateHeader);
  }

  /** The extraction as written, asking for "Current USD LP Effectve Date". */
  function ExtractSourceAsWritten(headers: seq<string>, cells: seq<string>, parseDate: string -> Option<int>): Result<SourceData, string> {
    ExtractSourceWith(headers, cells, parseDate, CurrentUsdDateHeaderAsWritten)
  }

  /** The extraction with the header name spelt as the grid's other effective-date headers are. */
  function ExtractSource(headers: seq<string>, cells: seq<string>, parseDate: string -> Option<int>): Result<SourceData, string> {
    ExtractSourceWith(headers, cells, parseDate, CurrentUsdDateHeader)
  }

  // ---------------------------------------------------------------------
  // Verdicts
  // ---------------------------------------------------------------------

  /** Jest's `toBeCloseTo(expected, 2)`: the difference is below 0.005 (NaN never is). */
  predicate CloseTo2(received: Number, expected: Number) {
    Within(received, expected, 0.005)
  }

  /** The price check: an expected 0 demands exactly 0; otherwise closeness to two decimals. */
  predicate PricePasses(reported: Number, expected: Number) {
    if expected != Num(0.0) then CloseTo2(reported, expected) else reported == Num(0.0)
  }

  /** Near 0 the check is stricter: a report of 0.001 passes against 0.002 but fails against 0. */
  lemma ZeroIsExact()
    ensures PricePasses(Num(0.001), Num(0.002))
    ensures !PricePasses(Num(0.001), Num(0.0))
  {
  }

  /** The boundary of two-decimal closeness is strict. */
  lemma CloseTo2Boundary(e: real)
    requires e != 0.0
    ensures !PricePasses(Num(e + 0.005), Num(e))
    ensures PricePasses(Num(e + 0.004), Num(e))
    ensures !PricePasses(NaN, Num(e))
  {
  }

  /** The values the test extracts from the Data Explorer grid, with dates already read. */
  datatype SourceData = SourceData(
    partNumber: string, name: string, itemGroup: string,
    publishLocalPrice: Number, publishLocalDate: DateField,
    currentLocalPrice: Number, currentLocalDate: DateField)

  /** The values extracted from the report row (`None` where no header matched). */
  datatype ReportData = ReportData(partNumber: Option<string>, name: Option<string>, itemGroup: Option<string>, mainlandPrice: Number)

  /** The report columns the test asks for, matched ignoring case as parts of a header. */
  const PartNumberColumn: string := "Part number"
  const NameColumn: string := "Name"
  const ItemGroupColumn: string := "Item group"
  const MainlandPriceColumn: string := "Mainland db list price (rmb, no vat)"
  const MainlandBaseChangedColumn: string := "Mainland db base price changed"

  /**
   * The five `getUIValue` calls in order: the texts are kept as read (null
   * where no header contains the column name), the price goes through
   * `parseCurrency`, and the base-price label is read and never used. The
   * first read that times out ends the test.
   */
  function ReportDataOf(names: seq<string>, cells: seq<string>): (r: Result<ReportData, string>)
    ensures r.Ok? <==>
      UIValue(names, cells, PartNumberColumn).Ok? && UIValue(names, cells, NameColumn).Ok? &&
      UIValue(names, cells, ItemGroupColumn).Ok? && UIValue(names, cells, MainlandPriceColumn).Ok? &&
      UIValue(names, cells, MainlandBaseChangedColumn).Ok?
  {
    var partNumber :- UIValue(names, cells, PartNumberColumn);
    var name :- UIValue(names, cells, NameColumn);
    var itemGroup :- UIValue(names, cells, ItemGroupColumn);
    var price :- UIValue(names, cells, MainlandPriceColumn);
    var _ :- UIValue(names, cells, MainlandBaseChangedColumn);
    Ok(ReportData(partNumber, name, itemGroup, ParseCurrency(price)))
  }

  /**
   * On a row with a cell under every header the report is always read; a
   * field is null exactly when no header contains its column name, and a
   * missing price column reads as 0.
   */
  lemma ReportDataOnFullRow(names: seq<string>, cells: seq<string>)
    requires |names| <= |cells|
    ensures ReportDataOf(names, cells).Ok?
    ensures ReportDataOf(names, cells).value.partNumber.None? <==> FirstContaining(names, PartNumberColumn, 0).None?
    ensures ReportDataOf(names, cells).value.name.None? <==> FirstContaining(names, NameColumn, 0).None?
    ensures ReportDataOf(names, cells).value.itemGroup.None? <==> FirstContaining(names, ItemGroupColumn, 0).None?
    ensures FirstContaining(names, MainlandPriceColumn, 0).None? ==> ReportDataOf(names, cells).value.mainlandPrice == Num(0.0)
  {
    UIValueOnFullRow(names, cells, PartNumberColumn);
    UIValueOnFullRow(names, cells, NameColumn);
    UIValueOnFullRow(names, cells, ItemGroupColumn);
    UIValueOnFullRow(names, cells, MainlandPriceColumn);
    UIValueOnFullRow(names, cells, MainlandBaseChangedColumn);
  }

  /** A report read never times out on a row with a cell under every header. */
  lemma UIValueOnFullRow(names: seq<string>, cells: seq<string>, column: string)
    requires |names| <= |cells|
    ensures UIValue(names, cells, column).Ok?
  {
    if FirstContaining(names, column, 0).Some? {
      IndexMapSpec(names, |names|, names[FirstContaining(names, column, 0).value]);
    }
  }

  /** A report without a part-number column fails the first expectation, whatever the source holds. */
  lemma MissingPartNumberColumnFails(names: seq<string>, cells: seq<string>, src: SourceData, inputDay: int)
    requires ReportDataOf(names, cells).Ok?
    requires FirstContaining(names, PartNumberColumn, 0).None?
    ensures Validate(src, ReportDataOf(names, cells).value, inputDay) == PartNumberMismatch
  {
  }

  /** The first expectation that fails, or `Pass`. */
  datatype Verdict = Pass | PartNumberMismatch | NameMismatch | ItemGroupMismatch | PriceMismatch

  /** The expectations in the order the test makes them; the first failure ends the test. */
  function Validate(src: SourceData, rep: ReportData, inputDay: int): (r: Verdict)
    ensures r == Pass <==>
      rep.partNumber == Some(CleanPartNumber(src.partNumber)) && rep.name == Some(src.name) && rep.itemGroup == Some(src.itemGroup) &&
      PricePasses(rep.mainlandPrice, CalculateListPrice(src.publishLocalPrice, src.publishLocalDate, src.currentLocalPrice, src.currentLocalDate, inputDay))
    ensures r == PartNumberMismatch <==> rep.partNumber != Some(CleanPartNumber(src.partNumber))
  {
    if rep.partNumber != Some(CleanPartNumber(src.partNumber)) then PartNumberMismatch
    else if rep.name != Some(src.name) then NameMismatch
    else if rep.itemGroup != Some(src.itemGroup) then ItemGroupMismatch
    else if !PricePasses(rep.mainlandPrice, CalculateListPrice(src.publishLocalPrice, src.publishLocalDate, src.currentLocalPrice, src.currentLocalDate, inputDay)) then PriceMismatch
    else Pass
  }
}
