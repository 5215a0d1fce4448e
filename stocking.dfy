/**
 * Stocking-segment check (tests/stocking.spec.js): the grid's Code,
 * Certification Level and Suggested Stocking Segment columns are found by
 * header title, the first row whose code does not end in "H" is selected,
 * and its suggested segment must be "D" when both the certification level
 * and the annual volume are missing, "A" otherwise.
 */
module Stocking {
  import opened Wrappers
  import opened Text
  import Grid

  // ---------------------------------------------------------------------
  // The segment rule
  // ---------------------------------------------------------------------

  /** A certification level counts as null when its (trimmed) text is empty. */
  predicate CertIsNull(cert: string) {
    cert == []
  }

  /** An annual volume counts as null when its text is empty or exactly "0"; "0.0" counts as present. */
  predicate VolumeIsNull(volume: string) {
    volume == [] || volume == "0"
  }

  /** The segment the grid is expected to suggest. */
  function ExpectedSegment(cert: string, volume: string): (r: string)
    ensures r == "D" <==> CertIsNull(cert) && VolumeIsNull(volume)
    ensures r == "A" <==> !(CertIsNull(cert) && VolumeIsNull(volume))
  {
    if CertIsNull(cert) && VolumeIsNull(volume) then "D" else "A"
  }

  /** The spelled-out cases: both missing gives "D"; either one present gives "A". */
  lemma SegmentExamples()
    ensures ExpectedSegment("", "") == "D"
    ensures ExpectedSegment("", "0") == "D"
    ensures ExpectedSegment("II", "") == "A"
    ensures ExpectedSegment("", "500") == "A"
    ensures ExpectedSegment("", "0.0") == "A"
  {
    assert "0.0" != "0";
    assert "500" != "0";
  }

  /** A present certification level decides the segment alone: the volume is not looked at. */
  lemma CertificationDecides(cert: string, v1: string, v2: string)
    requires !CertIsNull(cert)
    ensures ExpectedSegment(cert, v1) == ExpectedSegment(cert, v2) == "A"
  {
  }

  /** The verdict: the observed segment must equal the expected one exactly. */
  predicate SegmentPasses(observed: string, cert: string, volume: string) {
    observed == ExpectedSegment(cert, volume)
  }

  /** A segment other than "A" and "D" (an empty cell, say) never passes. */
  lemma OnlyAOrDPass(observed: string, cert: string, volume: string)
    requires observed != "A" && observed != "D"
    ensures !SegmentPasses(observed, cert, volume)
  {
  }

  // ---------------------------------------------------------------------
  // Columns
  // ---------------------------------------------------------------------

  /** The three column indexes the test needs. */
  datatype Columns = Columns(code: nat, cert: nat, segment: nat)

  /**
   * The header loop: every header is compared with all three titles and a
   * match overwrites the index, so a repeated title resolves to its last
   * column. A missing title raises an error.
   */
  method FindColumns(titles: seq<string>) returns (r: Result<Columns, string>)
    ensures r.Err? <==> "Code" !in titles || "Certification Level" !in titles || "Suggested Stocking Segment" !in titles
    ensures r.Ok? ==> r.value.code as int == Grid.LastColumn(titles, "Code")
    ensures r.Ok? ==> r.value.cert as int == Grid.LastColumn(titles, "Certification Level")
    ensures r.Ok? ==> r.value.segment as int == Grid.LastColumn(titles, "Suggested Stocking Segment")
  {
    var codeColIndex, certColIndex, segmentColIndex := -1, -1, -1;
    var i := 0;
    while i < |titles|
      invariant 0 <= i <= |titles|
      invariant Grid.LastUpTo(titles, "Code", codeColIndex, i)
      invariant Grid.LastUpTo(titles, "Certification Level", certColIndex, i)
      invariant Grid.LastUpTo(titles, "Suggested Stocking Segment", segmentColIndex, i)
    {
      var title := titles[i];
      Grid.LastUpToStep(titles, "Code", codeColIndex, i);
      Grid.LastUpToStep(titles, "Certification Level", certColIndex, i);
      Grid.LastUpToStep(titles, "Suggested Stocking Segment", segmentColIndex, i);
      if title == "Code" { codeColIndex := i; }
      if title == "Certification Level" { certColIndex := i; }
      if title == "Suggested Stocking Segment" { segmentColIndex := i; }
      i := i + 1;
    }
    Grid.LastColumnUnique(titles, "Code", codeColIndex);
    Grid.LastColumnUnique(titles, "Certification Level", certColIndex);
    Grid.LastColumnUnique(titles, "Suggested Stocking Segment", segmentColIndex);
    if codeColIndex == -1 || certColIndex == -1 || segmentColIndex == -1 {
      return Err("Could not find required columns (Code, Certification Level, Suggested Stocking Segment).");
    }
    r := Ok(Columns(codeColIndex, certColIndex, segmentColIndex));
  }

  // ---------------------------------------------------------------------
  // Row selection
  // ---------------------------------------------------------------------

  /** A row is skipped when its trimmed code ends in "H". */
  predicate Skipped(code: string) {
    EndsWith(Trim(code), "H")
  }

  /** The selected row and its trimmed code. */
  datatype Target = Target(row: nat, code: string)

  /**
   * The row scan: rows whose code ends in "H" are skipped with `continue`,
   * the first other row is taken with `break`; without one an error is raised.
   */
  method SelectRow(codes: seq<string>) returns (r: Result<Target, string>)
    ensures r.Err? <==> forall j :: 0 <= j < |codes| ==> Skipped(codes[j])
    ensures r.Ok? ==> r.value.row < |codes| && r.value.code == Trim(codes[r.value.row])
    ensures r.Ok? ==> !Skipped(codes[r.value.row]) && forall j :: 0 <= j < r.value.row ==> Skipped(codes[j])
  {
    var targetRowIndex := -1;
    var targetCode := "";
    var i := 0;
    while i < |codes|
      invariant 0 <= i <= |codes|
      invariant targetRowIndex == -1
      invariant forall j :: 0 <= j < i ==> Skipped(codes[j])
    {
      var codeText := Trim(codes[i]);
      if EndsWith(codeText, "H") {
        i := i + 1;
        continue;
      }
      targetRowIndex := i;
      targetCode := codeText;
      break;
    }
    if targetRowIndex == -1 {
      return Err("No valid code (not ending in H) found in the first page of results.");
    }
    r := Ok(Target(targetRowIndex, targetCode));
  }

  /** A code is skipped exactly when its last visible character is an upper-case "H" (a trailing "h" is kept). */
  lemma SkippedIff(code: string)
    ensures Skipped(code) <==> Trim(code) != [] && Trim(code)[|Trim(code)| - 1] == 'H'
  {
    var t := Trim(code);
    if t != [] && t[|t| - 1] == 'H' {
      assert t[|t| - 1..] == "H";
    }
  }

  // ---------------------------------------------------------------------
  // The whole check
  // ---------------------------------------------------------------------

  /** The verdict of a run whose columns and row were found: the selected row's cells, trimmed. */
  predicate RowPasses(certText: string, volumeText: string, segmentText: string) {
    SegmentPasses(Trim(segmentText), Trim(certText), Trim(volumeText))
  }

  /** Padding around the cell texts does not change the verdict. */
  lemma VerdictIgnoresPadding(cert: string, volume: string, segment: string)
    ensures RowPasses(cert, volume, segment) == RowPasses(Trim(cert), Trim(volume), Trim(segment))
  {
    TrimIdempotent(cert);
    TrimIdempotent(volume);
    TrimIdempotent(segment);
  }
}
