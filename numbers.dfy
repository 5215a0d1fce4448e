/**
 * JavaScript numbers as the test scripts see them: a finite amount or NaN,
 * produced from text by `parseFloat` (longest decimal prefix) or `Number`
 * (the whole trimmed text), and combined with `||`, comparisons and an
 * absolute tolerance.
 */
module JsNumber {
  import opened Wrappers
  import opened Text

  /** A JavaScript number: NaN or a finite value. */
  datatype Number = NaN | Num(v: real) {
    /** JavaScript truthiness: 0 and NaN are falsy. */
    predicate Truthy() {
      Num? && v != 0.0
    }
  }

  /** `a || b` on numbers: `a` when it is truthy, else `b`. */
  function Or(a: Number, b: Number): (r: Number)
    ensures r.Truthy() <==> a.Truthy() || b.Truthy()
    ensures a.Truthy() ==> r == a
  {
    if a.Truthy() then a else b
  }

  /** `a * b`: NaN spreads. */
  function Mul(a: Number, b: Number): (r: Number)
    ensures r.Num? <==> a.Num? && b.Num?
  {
    if a.Num? && b.Num? then Num(a.v * b.v) else NaN
  }

  function Abs(x: real): (r: real)
    ensures r >= 0.0 && (r == x || r == -x)
  {
    if x < 0.0 then -x else x
  }

  /** `Math.abs(a - b) < tol`: false as soon as either side is NaN. */
  predicate Within(a: Number, b: Number, tol: real) {
    a.Num? && b.Num? && Abs(a.v - b.v) < tol
  }

  /** The tolerance test does not depend on the order of its operands. */
  lemma WithinSymmetric(a: Number, b: Number, tol: real)
    ensures Within(a, b, tol) <==> Within(b, a, tol)
  {
  }

  /** `a >= b`: false as soon as either side is NaN. */
  predicate AtLeast(a: Number, b: Number) {
    a.Num? && b.Num? && a.v >= b.v
  }

  // ---------------------------------------------------------------------
  // Reading numbers from text
  // ---------------------------------------------------------------------

  function Pow10(n: nat): (r: real)
    ensures r >= 1.0
  {
    if n == 0 then 1.0 else 10.0 * Pow10(n - 1)
  }

  /** The end of the run of decimal digits that starts at position `i` of `s`. */
  function RunEnd(s: string, i: nat): (j: nat)
    requires i <= |s|
    ensures i <= j <= |s|
    ensures forall m :: i <= m < j ==> IsDigit(s[m])
    ensures j == |s| || !IsDigit(s[j])
    decreases |s| - i
  {
    if i < |s| && IsDigit(s[i]) then RunEnd(s, i + 1) else i
  }

  /** The number denoted by the digits `s[i..j]`. */
  function DigitsIn(s: string, i: nat, j: nat): nat
    requires i <= j <= |s|
    requires forall m :: i <= m < j ==> IsDigit(s[m])
    decreases j
  {
    if j == i then 0 else DigitsIn(s, i, j - 1) * 10 + DigitValue(s[j - 1])
  }

  /** A digit run ends at the same place in `t` and in `t + w` when it stops inside `t` or `w` starts with a non-digit. */
  lemma {:induction false} RunEndAppend(t: string, w: string, i: nat)
    requires i <= |t|
    requires RunEnd(t, i) < |t| || w == [] || !IsDigit(w[0])
    ensures RunEnd(t + w, i) == RunEnd(t, i)
    decreases |t| - i
  {
    var s := t + w;
    if i < |t| {
      assert s[i] == t[i];
      if IsDigit(t[i]) {
        RunEndAppend(t, w, i + 1);
      }
    } else if w != [] {
      assert s[i] == w[0];
    }
  }

  /** The value of a digit run only depends on the digits themselves. */
  lemma {:induction false} DigitsInAppend(t: string, w: string, i: nat, j: nat)
    requires i <= j <= |t|
    requires forall m :: i <= m < j ==> IsDigit(t[m])
    ensures DigitsIn(t + w, i, j) == DigitsIn(t, i, j)
    decreases j
  {
    if j > i {
      assert (t + w)[j - 1] == t[j - 1];
      DigitsInAppend(t, w, i, j - 1);
    }
  }

  /** Read from position 0, `DigitsIn` is the `DigitsValue` of the prefix. */
  lemma {:induction false} DigitsInPrefix(s: string, j: nat)
    requires j <= |s| && AllDigits(s[..j])
    ensures DigitsIn(s, 0, j) == DigitsValue(s[..j])
  {
    if j > 0 {
      assert s[..j][..j - 1] == s[..j - 1];
      assert s[..j][j - 1] == s[j - 1];
      DigitsInPrefix(s, j - 1);
    }
  }

  /** A decimal number read from the start of a text: its value and how many characters it used. */
  datatype Scan = Scan(value: real, len: nat)

  /** The length of an optional leading sign. */
  function SignLen(s: string): (r: nat)
    ensures r <= |s|
  {
    if s != [] && (s[0] == '+' || s[0] == '-') then 1 else 0
  }

  /**
   * The longest prefix of `s` of the form [sign] digits [`.` digits] with at
   * least one digit, as JavaScript's decimal literal grammar reads it; `None`
   * when `s` does not start with one.
   */
  function DecimalPrefix(s: string): (r: Option<Scan>)
    ensures r.Some? ==> 0 < r.value.len <= |s|
    ensures r.Some? ==> exists i :: 0 <= i < r.value.len && IsDigit(s[i])
    ensures r.Some? ==> r.value.len == |s| || !IsDigit(s[r.value.len])
  {
    var k := SignLen(s);
    var e1 := RunEnd(s, k);
    var hasDot := e1 < |s| && s[e1] == '.';
    var e2 := if hasDot then RunEnd(s, e1 + 1) else e1;
    if e1 == k && (!hasDot || e2 == e1 + 1) then None
    else
      var whole := DigitsIn(s, k, e1) as real;
      var frac := if hasDot then DigitsIn(s, e1 + 1, e2) as real / Pow10(e2 - e1 - 1) else 0.0;
      var mag := whole + frac;
      assert IsDigit(s[if e1 > k then k else e1 + 1]);
      Some(Scan(if k == 1 && s[0] == '-' then -mag else mag, e2))
  }

  /** `parseFloat(s)`: leading white space skipped, then the longest decimal prefix; NaN if there is none. */
  function ParseFloat(s: string): (r: Number)
    ensures r.Num? ==> exists i :: 0 <= i < |s| && IsDigit(s[i])
  {
    var t := TrimStart(s);
    match DecimalPrefix(t)
    case None => NaN
    case Some(sc) => Num(sc.value)
  }

  /** `Number(s)`: "" and blank text give 0, otherwise the whole trimmed text must be a decimal number. */
  function NumberOf(s: string): (r: Number)
    ensures IsBlank(s) ==> r == Num(0.0)
  {
    var t := Trim(s);
    TrimEmptyIffBlank(s);
    if t == [] then Num(0.0)
    else match DecimalPrefix(t)
      case Some(sc) => if sc.len == |t| then Num(sc.value) else NaN
      case None => NaN
  }

  /** `isNaN(Number(s))`. */
  predicate IsNaNText(s: string) {
    NumberOf(s).NaN?
  }

  /** Text that is completely a decimal number keeps its reading when followed by white space. */
  lemma DecimalPrefixBeforeSpace(t: string, w: string, sc: Scan)
    requires DecimalPrefix(t) == Some(sc) && sc.len == |t|
    requires w == [] || IsSpace(w[0])
    ensures DecimalPrefix(t + w) == Some(sc)
  {
    var s := t + w;
    var k := SignLen(t);
    assert SignLen(s) == k by {
      assert s[0] == t[0];
    }
    var e1 := RunEnd(t, k);
    RunEndAppend(t, w, k);
    DigitsInAppend(t, w, k, e1);
    var hasDot := e1 < |t| && t[e1] == '.';
    if hasDot {
      DotCase(t, w, k, e1);
    } else {
      assert e1 == |t|;
      assert !(e1 < |s| && s[e1] == '.');
    }
  }

  /** The fractional digits after a '.' are read the same in `t` and `t + w`. */
  lemma DotCase(t: string, w: string, k: nat, e1: nat)
    requires k <= e1 < |t| && t[e1] == '.' && RunEnd(t, e1 + 1) == |t|
    requires w == [] || IsSpace(w[0])
    ensures (t + w)[e1] == '.'
    ensures RunEnd(t + w, e1 + 1) == |t|
    ensures DigitsIn(t + w, e1 + 1, |t|) == DigitsIn(t, e1 + 1, |t|)
  {
    RunEndAppend(t, w, e1 + 1);
    DigitsInAppend(t, w, e1 + 1, |t|);
  }

  /**
   * Wherever `Number` reads a non-empty text as a number, `parseFloat` reads
   * the same value from it.
   */
  lemma NumberAgreesWithParseFloat(s: string)
    requires !IsBlank(s) && NumberOf(s).Num?
    ensures ParseFloat(s) == NumberOf(s)
  {
    TrimEmptyIffBlank(s);
    var u := TrimStart(s);
    var t := TrimEnd(u);
    var sc := DecimalPrefix(t).value;
    assert u == t + u[|t|..];
    DecimalPrefixBeforeSpace(t, u[|t|..], sc);
  }

  /** On text with no white space at either end, wherever `Number` reads a number `parseFloat` agrees. */
  lemma NumberAgreesOnTrimmed(v: string)
    requires v != [] && !IsSpace(v[0]) && !IsSpace(v[|v| - 1])
    ensures NumberOf(v).Num? ==> ParseFloat(v) == NumberOf(v)
  {
    if NumberOf(v).Num? {
      assert !IsBlank(v);
      NumberAgreesWithParseFloat(v);
    }
  }

  /** `parseFloat(String(n))` and `Number(String(n))` give back the natural number `n`. */
  lemma ParseFloatOfNat(n: nat)
    ensures ParseFloat(NatToString(n)) == Num(n as real)
    ensures NumberOf(NatToString(n)) == Num(n as real)
  {
    var s := NatToString(n);
    TrimOfTrimmed(s);
    assert TrimStart(s) == s;
    assert SignLen(s) == 0;
    assert RunEnd(s, 0) == |s|;
    assert s[..|s|] == s;
    DigitsInPrefix(s, |s|);
    DigitsOfNat(n);
  }

  /** The literal amounts the scripts write into fields or use as defaults read back as themselves. */
  lemma ReadLiterals()
    ensures ParseFloat("0") == Num(0.0) && NumberOf("0") == Num(0.0)
    ensures ParseFloat("1") == Num(1.0) && NumberOf("1") == Num(1.0)
    ensures ParseFloat("100") == Num(100.0) && NumberOf("100") == Num(100.0)
  {
    assert NatToString(0) == "0";
    assert NatToString(1) == "1";
    assert NatToString(10) == "10";
    assert NatToString(100) == "100";
    ParseFloatOfNat(0);
    ParseFloatOfNat(1);
    ParseFloatOfNat(100);
  }

  /** On empty text the two readings differ: `parseFloat` gives NaN and `Number` gives 0. */
  lemma EmptyTextIsNaN()
    ensures ParseFloat("") == NaN
    ensures NumberOf("") == Num(0.0)
  {
  }
}
