/**
 * Column discovery in the data grid: the scripts walk the header cells in
 * order and remember the index of the one whose title matches.
 */
module Grid {

  /** The first index at or after `i` whose title is `name`, or -1. */
  function FirstFrom(titles: seq<string>, name: string, i: nat): (r: int)
    requires i <= |titles|
    ensures r == -1 || i <= r < |titles|
    ensures r >= 0 ==> titles[r] == name
    ensures forall j :: i <= j < |titles| && (r == -1 || j < r) ==> titles[j] != name
    decreases |titles| - i
  {
    if i == |titles| then -1
    else if titles[i] == name then i
    else FirstFrom(titles, name, i + 1)
  }

  /** The index of the first header titled `name`, or -1 when there is none. */
  function FirstColumn(titles: seq<string>, name: string): (r: int)
    ensures -1 <= r < |titles|
    ensures r >= 0 ==> titles[r] == name && forall j :: 0 <= j < r ==> titles[j] != name
    ensures r == -1 <==> name !in titles
  {
    FirstFrom(titles, name, 0)
  }

  /** The index of the last header titled `name`, or -1 when there is none. */
  function LastColumn(titles: seq<string>, name: string): (r: int)
    ensures -1 <= r < |titles|
    ensures r >= 0 ==> titles[r] == name && forall j :: r < j < |titles| ==> titles[j] != name
    ensures r == -1 <==> name !in titles
  {
    if |titles| == 0 then -1
    else if titles[|titles| - 1] == name then |titles| - 1
    else LastColumn(titles[..|titles| - 1], name)
  }

  /** Both scans agree on whether the column exists, and the first match never comes after the last. */
  lemma FirstBeforeLast(titles: seq<string>, name: string)
    ensures (FirstColumn(titles, name) == -1) == (LastColumn(titles, name) == -1)
    ensures FirstColumn(titles, name) <= LastColumn(titles, name)
  {
  }

  /** When the title occurs once, the first and the last match are the same column. */
  lemma UniqueTitle(titles: seq<string>, name: string, k: nat)
    requires k < |titles| && titles[k] == name
    requires forall j :: 0 <= j < |titles| && j != k ==> titles[j] != name
    ensures FirstColumn(titles, name) == k && LastColumn(titles, name) == k
  {
  }

  /** The header loop that stops at the first match (`break`). */
  method FindFirstColumn(titles: seq<string>, name: string) returns (index: int)
    ensures index == FirstColumn(titles, name)
  {
    index := -1;
    var i := 0;
    while i < |titles|
      invariant 0 <= i <= |titles|
      invariant index == -1
      invariant forall j :: 0 <= j < i ==> titles[j] != name
    {
      if titles[i] == name {
        index := i;
        break;
      }
      i := i + 1;
    }
  }

  /** `LastColumn` is the only index satisfying its own contract. */
  lemma LastColumnUnique(titles: seq<string>, name: string, k: int)
    requires -1 <= k < |titles|
    requires k >= 0 ==> titles[k] == name
    requires forall j :: k < j < |titles| ==> titles[j] != name
    ensures k == LastColumn(titles, name)
  {
  }
  /** Among the first `i` headers, `k` is the last one titled `name` (-1 when none is). */
  predicate LastUpTo(titles: seq<string>, name: string, k: int, i: nat) {
    -1 <= k < i <= |titles| && (k >= 0 ==> titles[k] == name) &&
    forall j :: k < j < i ==> titles[j] != name
  }

  /** Looking at one more header keeps the last match up to date. */
  lemma LastUpToStep(titles: seq<string>, name: string, k: int, i: nat)
    requires LastUpTo(titles, name, k, i) && i < |titles|
    ensures LastUpTo(titles, name, if titles[i] == name then i else k, i + 1)
  {
  }

}
