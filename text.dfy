/**
 * String operations the test scripts use on text read from the UI, the
 * database and subprocess output: trimming, ASCII case mapping, substring
 * search, replacement, splitting and joining, and decimal digits.
 */
module Text {
  import opened Wrappers

  // ---------------------------------------------------------------------
  // Whitespace and trimming (String.prototype.trim / str.strip)
  // ---------------------------------------------------------------------

  /** The white-space characters `trim()` removes (ASCII ones plus no-break space). */
  predicate IsSpace(c: char) {
    c == ' ' || c == '\t' || c == '\n' || c == '\r' || c == '\U{000B}' || c == '\U{000C}' || c == '\U{00A0}'
  }

  /** True when every character of `s` is white space (the empty string included). */
  predicate IsBlank(s: string) {
    forall i :: 0 <= i < |s| ==> IsSpace(s[i])
  }

  /** The first position at or after `n` that does not hold white space (or `|s|`). */
  function SkipSpaces(s: string, n: nat): (m: nat)
    requires n <= |s|
    ensures n <= m <= |s| && IsBlank(s[n..m])
    ensures m == |s| || !IsSpace(s[m])
    decreases |s| - n
  {
    if n < |s| && IsSpace(s[n]) then
      var m := SkipSpaces(s, n + 1);
      assert s[n..m][0] == s[n] && s[n..m][1..] == s[n + 1..m];
      m
    else n
  }

  /** The end of `s[..n]` once its trailing white space is dropped. */
  function BackOverSpaces(s: string, n: nat): (m: nat)
    requires n <= |s|
    ensures m <= n && IsBlank(s[m..n])
    ensures m == 0 || !IsSpace(s[m - 1])
  {
    if n > 0 && IsSpace(s[n - 1]) then
      var m := BackOverSpaces(s, n - 1);
      assert s[m..n] == s[m..n - 1] + [s[n - 1]];
      m
    else n
  }

  /** Drops the leading white space: the result is a suffix of `s` that does not start with a space. */
  function TrimStart(s: string): (r: string)
    ensures |r| <= |s| && r == s[|s| - |r|..]
    ensures r == [] || !IsSpace(r[0])
    ensures IsBlank(s[..|s| - |r|])
  {
    var m := SkipSpaces(s, 0);
    assert s[0..m] == s[..m];
    s[m..]
  }

  /** Drops the trailing white space: the result is a prefix of `s` that does not end with a space. */
  function TrimEnd(s: string): (r: string)
    ensures |r| <= |s| && r == s[..|r|]
    ensures r == [] || !IsSpace(r[|r| - 1])
    ensures IsBlank(s[|r|..])
  {
    var m := BackOverSpaces(s, |s|);
    assert s[m..|s|] == s[m..];
    s[..m]
  }

  /** `s.trim()`: `s` without its leading and trailing white space. */
  function Trim(s: string): (r: string)
  {
    TrimEnd(TrimStart(s))
  }

  /** The trimmed text is a contiguous piece of the input, framed by white space only. */
  lemma TrimIsInfix(s: string)
    ensures exists i :: (0 <= i <= i + |Trim(s)| <= |s| && Trim(s) == s[i..i + |Trim(s)|]
                         && IsBlank(s[..i]) && IsBlank(s[i + |Trim(s)|..]))
  {
    var t := TrimStart(s);
    var i := |s| - |t|;
    var r := TrimEnd(t);
    assert t == s[i..];
    assert r == s[i..i + |r|];
    assert IsBlank(s[..i]);
    assert s[i + |r|..] == t[|r|..];
  }

  /** The trimmed text starts where the leading white space ends. */
  lemma TrimAt(s: string)
    ensures SkipSpaces(s, 0) + |Trim(s)| <= |s|
    ensures Trim(s) == s[SkipSpaces(s, 0)..SkipSpaces(s, 0) + |Trim(s)|]
  {
    var m := SkipSpaces(s, 0);
    var t := TrimStart(s);
    assert t == s[m..];
    assert Trim(s) == t[..|Trim(s)|];
  }

  /** A trimmed string neither starts nor ends with white space. */
  lemma TrimEnds(s: string)
    ensures Trim(s) == [] || (!IsSpace(Trim(s)[0]) && !IsSpace(Trim(s)[|Trim(s)| - 1]))
  {
    var t := TrimStart(s);
    var r := TrimEnd(t);
    if r != [] {
      assert r[0] == t[0];
    }
  }

  /**
   * A text read from the page that may be missing (a read that throws and
   * is caught, or an optional value): "" when missing, otherwise trimmed.
   */
  function ReadTrimmed(read: Option<string>): (r: string)
    ensures read.None? ==> r == []
    ensures read.Some? ==> r == Trim(read.value)
    ensures r == [] || (!IsSpace(r[0]) && !IsSpace(r[|r| - 1]))
  {
    match read
    case None => []
    case Some(v) =>
      TrimEnds(v);
      Trim(v)
  }

  /** Trimming twice is trimming once. */
  lemma TrimIdempotent(s: string)
    ensures Trim(Trim(s)) == Trim(s)
  {
    var r := Trim(s);
    TrimEnds(s);
    assert TrimStart(r) == r;
    assert TrimEnd(r) == r;
  }

  /** A string is blank exactly when it trims to the empty string. */
  lemma TrimEmptyIffBlank(s: string)
    ensures Trim(s) == [] <==> IsBlank(s)
  {
    var t := TrimStart(s);
    if Trim(s) == [] {
      assert t == [];
      assert s[..|s|] == s;
    } else {
      TrimIsInfix(s);
      TrimEnds(s);
      var i :| 0 <= i <= i + |Trim(s)| <= |s| && Trim(s) == s[i..i + |Trim(s)|];
      assert s[i] == Trim(s)[0];
    }
  }

  /** A string without white space at either end is its own trim. */
  lemma TrimOfTrimmed(s: string)
    requires s == [] || (!IsSpace(s[0]) && !IsSpace(s[|s| - 1]))
    ensures Trim(s) == s
  {
  }

  // ---------------------------------------------------------------------
  // ASCII case mapping (toUpperCase / toLowerCase / str.lower)
  // ---------------------------------------------------------------------

  function UpperChar(c: char): char {
    if 'a' <= c <= 'z' then (c as int - 32) as char else c
  }

  function LowerChar(c: char): char {
    if 'A' <= c <= 'Z' then (c as int + 32) as char else c
  }

  function ToUpper(s: string): (r: string)
    ensures |r| == |s| && forall i :: 0 <= i < |s| ==> r[i] == UpperChar(s[i])
  {
    seq(|s|, i requires 0 <= i < |s| => UpperChar(s[i]))
  }

  function ToLower(s: string): (r: string)
    ensures |r| == |s| && forall i :: 0 <= i < |s| ==> r[i] == LowerChar(s[i])
  {
    seq(|s|, i requires 0 <= i < |s| => LowerChar(s[i]))
  }

  /** Case mapping never turns a visible character into white space or back. */
  lemma CaseKeepsSpaces(c: char)
    ensures IsSpace(UpperChar(c)) <==> IsSpace(c)
    ensures IsSpace(LowerChar(c)) <==> IsSpace(c)
  {
  }

  /** Case-insensitive equality of ASCII text, as `a.toUpperCase() === b.toUpperCase()`. */
  predicate EqualsIgnoreCase(a: string, b: string) {
    ToUpper(a) == ToUpper(b)
  }

  // ---------------------------------------------------------------------
  // Substring search (includes / indexOf / `in`)
  // ---------------------------------------------------------------------

  /** `t` occurs in `s` starting at position `i`. */
  predicate MatchesAt(s: string, t: string, i: nat) {
    i + |t| <= |s| && s[i..i + |t|] == t
  }

  /** The first position at or after `from` where `t` occurs in `s`. */
  function IndexOfFrom(s: string, t: string, from: nat): (r: Option<nat>)
    ensures r.Some? ==> from <= r.value && MatchesAt(s, t, r.value)
    ensures r.Some? ==> forall j :: from <= j < r.value ==> !MatchesAt(s, t, j)
    ensures r.None? ==> forall j :: from <= j ==> !MatchesAt(s, t, j)
    decreases |s| - from
  {
    if from + |t| > |s| then None
    else if MatchesAt(s, t, from) then Some(from)
    else IndexOfFrom(s, t, from + 1)
  }

  /** `s.indexOf(t)`: the first position where `t` occurs in `s`, if any. */
  function IndexOf(s: string, t: string): (r: Option<nat>)
    ensures r.Some? ==> MatchesAt(s, t, r.value) && forall j :: 0 <= j < r.value ==> !MatchesAt(s, t, j)
    ensures r.None? ==> forall j :: !MatchesAt(s, t, j)
  {
    IndexOfFrom(s, t, 0)
  }

  /** `s.includes(t)` / Python's `t in s`. */
  predicate Contains(s: string, t: string) {
    IndexOf(s, t).Some?
  }

  /** `Contains` holds exactly when some position matches. */
  lemma ContainsIff(s: string, t: string)
    ensures Contains(s, t) <==> exists i :: MatchesAt(s, t, i)
  {
  }

  /** A piece placed inside a string is found by `Contains`. */
  lemma ContainsInfix(p: string, t: string, q: string)
    ensures Contains(p + t + q, t)
  {
    var s := p + t + q;
    assert s[|p|..|p| + |t|] == t;
    assert MatchesAt(s, t, |p|);
  }

  /** Every string contains itself. */
  lemma ContainsSelf(s: string)
    ensures Contains(s, s)
  {
    assert MatchesAt(s, s, 0);
  }

  /** A pattern whose first character does not occur in `s` is not found in it. */
  lemma AbsentFirstChar(s: string, t: string)
    requires |t| > 0 && t[0] !in s
    ensures !Contains(s, t)
  {
  }

  /** `s.endsWith(t)`. */
  predicate EndsWith(s: string, t: string) {
    |t| <= |s| && s[|s| - |t|..] == t
  }

  /** `s.startsWith(t)`. */
  predicate StartsWith(s: string, t: string) {
    |t| <= |s| && s[..|t|] == t
  }

  // ---------------------------------------------------------------------
  // Replacement
  // ---------------------------------------------------------------------

  /** JavaScript `s.replace(t, u)` with a string pattern: only the first occurrence is replaced. */
  function ReplaceFirst(s: string, t: string, u: string): (r: string)
  {
    match IndexOf(s, t)
    case None => s
    case Some(i) => s[..i] + u + s[i + |t|..]
  }

  /** Python `s.replace(t, u)`: every non-overlapping occurrence, scanning left to right. */
  function ReplaceAll(s: string, t: string, u: string): (r: string)
    requires |t| > 0
    decreases |s|
  {
    if |s| < |t| then s
    else if s[..|t|] == t then u + ReplaceAll(s[|t|..], t, u)
    else [s[0]] + ReplaceAll(s[1..], t, u)
  }

  /** A text in which the pattern's first character never occurs is left as it is. */
  lemma {:induction false} ReplaceAllAbsent(s: string, t: string, u: string)
    requires |t| > 0 && t[0] !in s
    ensures ReplaceAll(s, t, u) == s
    decreases |s|
  {
    if |s| >= |t| {
      assert s[..|t|][0] == s[0];
      ReplaceAllAbsent(s[1..], t, u);
    }
  }

  /**
   * Replacing in `stem + t`, where the pattern's first character does not occur
   * in `stem`, rewrites exactly the final occurrence.
   */
  lemma {:induction false} ReplaceAllSuffix(stem: string, t: string, u: string)
    requires |t| > 0 && t[0] !in stem
    ensures ReplaceAll(stem + t, t, u) == stem + u
    decreases |stem|
  {
    var s := stem + t;
    if stem == [] {
      assert s == t && s[..|t|] == t && s[|t|..] == [];
    } else {
      assert s[..|t|][0] == stem[0];
      ReplaceAllSkip(s, t, u);
      assert s[1..] == stem[1..] + t;
      ReplaceAllSuffix(stem[1..], t, u);
      assert stem == [stem[0]] + stem[1..];
    }
  }

  /** A text that does not start with the pattern keeps its first character. */
  lemma ReplaceAllSkip(s: string, t: string, u: string)
    requires |t| > 0 && |s| >= |t| && s[..|t|] != t
    ensures ReplaceAll(s, t, u) == [s[0]] + ReplaceAll(s[1..], t, u)
  {
  }

  // ---------------------------------------------------------------------
  // Splitting and joining on a one-character separator
  // ---------------------------------------------------------------------

  /** The first position of character `c` in `s`. */
  function FirstIndex(s: string, c: char): (r: Option<nat>)
    ensures r.Some? ==> r.value < |s| && s[r.value] == c && c !in s[..r.value]
    ensures r.None? ==> c !in s
  {
    if s == [] then None
    else if s[0] == c then Some(0)
    else match FirstIndex(s[1..], c)
      case None => None
      case Some(k) =>
        assert s[..k + 1] == [s[0]] + s[1..][..k];
        Some(k + 1)
  }

  /** `s.split(c)` in JavaScript (and Python's unbounded `split`) for a one-character separator. */
  function Split(s: string, c: char): (parts: seq<string>)
    ensures |parts| >= 1
    ensures forall k :: 0 <= k < |parts| ==> c !in parts[k]
    decreases |s|
  {
    match FirstIndex(s, c)
    case None => [s]
    case Some(i) => [s[..i]] + Split(s[i + 1..], c)
  }

  /** `parts.join(c)`. */
  function Join(parts: seq<string>, c: char): string
  {
    if |parts| == 0 then ""
    else if |parts| == 1 then parts[0]
    else parts[0] + [c] + Join(parts[1..], c)
  }

  /** Joining the pieces of a split puts the text back together. */
  lemma {:induction false} JoinSplit(s: string, c: char)
    ensures Join(Split(s, c), c) == s
    decreases |s|
  {
    var fi := FirstIndex(s, c);
    if fi.Some? {
      var i := fi.value;
      var rest := s[i + 1..];
      var tail := Split(rest, c);
      JoinSplit(rest, c);
      var parts := Split(s, c);
      assert parts == [s[..i]] + tail;
      assert parts[1..] == tail;
      assert Join(parts, c) == s[..i] + [c] + Join(tail, c);
      assert s == s[..i] + [c] + rest;
    }
  }

  /** Dropping the first piece of a split and re-joining keeps everything after the first separator. */
  lemma AfterFirstSeparator(s: string, c: char, i: nat)
    requires FirstIndex(s, c) == Some(i)
    ensures Join(Split(s, c)[1..], c) == s[i + 1..]
  {
    JoinSplit(s[i + 1..], c);
    assert Split(s, c)[1..] == Split(s[i + 1..], c);
  }

  /** Python `s.split(c, 1)`: at most two pieces, cut at the first separator. */
  function SplitOnce(s: string, c: char): (parts: seq<string>)
    ensures 1 <= |parts| <= 2
    ensures |parts| == 2 <==> c in s
  {
    match FirstIndex(s, c)
    case None => [s]
    case Some(i) => [s[..i], s[i + 1..]]
  }

  /** `s.split(t)[0]`: the text before the first occurrence of `t`, or all of it. */
  function BeforeFirst(s: string, t: string): (r: string)
    ensures |r| <= |s| && r == s[..|r|]
    ensures !Contains(r, t) || t == []
  {
    match IndexOf(s, t)
    case None => s
    case Some(i) =>
      assert t != [] ==> forall j: nat :: !MatchesAt(s[..i], t, j) by {
        forall j: nat | t != [] && MatchesAt(s[..i], t, j) ensures false {
          assert s[..i][j..j + |t|] == s[j..j + |t|];
          assert MatchesAt(s, t, j) && j < i;
        }
      }
      s[..i]
  }

  // ---------------------------------------------------------------------
  // Character filters
  // ---------------------------------------------------------------------

  /** The characters of `s` that satisfy `keep`, in order (a `replace(/[^…]/g, '')`). */
  function Filter(s: string, keep: char -> bool): (r: string)
    ensures |r| <= |s|
    ensures forall i :: 0 <= i < |r| ==> keep(r[i])
  {
    if s == [] then ""
    else (if keep(s[0]) then [s[0]] else "") + Filter(s[1..], keep)
  }

  /** Filtering twice with the same test is filtering once. */
  lemma {:induction false} FilterIdempotent(s: string, keep: char -> bool)
    ensures Filter(Filter(s, keep), keep) == Filter(s, keep)
  {
    var r := Filter(s, keep);
    FilterKeepsAll(r, keep);
  }

  /** A string whose characters all pass is unchanged by the filter. */
  lemma {:induction false} FilterKeepsAll(s: string, keep: char -> bool)
    requires forall i :: 0 <= i < |s| ==> keep(s[i])
    ensures Filter(s, keep) == s
  {
    if s != [] {
      FilterKeepsAll(s[1..], keep);
    }
  }

  /** Every character the filter keeps comes from the input. */
  lemma {:induction false} FilterFromInput(s: string, keep: char -> bool)
    ensures forall i :: 0 <= i < |Filter(s, keep)| ==> Filter(s, keep)[i] in s
  {
    if s != [] {
      FilterFromInput(s[1..], keep);
      var rest := Filter(s[1..], keep);
      assert forall c :: c in rest ==> c in s[1..];
      assert forall c :: c in s[1..] ==> c in s;
    }
  }

  /** `s.replace(/,/g, '')`: the thousands separators removed. */
  function StripCommas(s: string): (r: string)
    ensures ',' !in r
  {
    Filter(s, c => c != ',')
  }

  // ---------------------------------------------------------------------
  // Decimal digits
  // ---------------------------------------------------------------------

  predicate IsDigit(c: char) {
    '0' <= c <= '9'
  }

  predicate AllDigits(s: string) {
    forall i :: 0 <= i < |s| ==> IsDigit(s[i])
  }

  /** Trimming text without a digit leaves text without a digit. */
  lemma TrimKeepsDigitFree(s: string)
    requires forall k :: 0 <= k < |s| ==> !IsDigit(s[k])
    ensures forall k :: 0 <= k < |Trim(s)| ==> !IsDigit(Trim(s)[k])
  {
    var u := TrimStart(s);
    var d := |s| - |u|;
    assert forall k :: 0 <= k < |u| ==> u[k] == s[d + k];
    var t := TrimEnd(u);
    assert forall k :: 0 <= k < |t| ==> t[k] == u[k];
  }

  function DigitChar(d: nat): char
    requires d < 10
  {
    ('0' as int + d) as char
  }

  function DigitValue(c: char): nat
    requires IsDigit(c)
  {
    c as int - '0' as int
  }

  /** The number a string of decimal digits denotes. */
  function DigitsValue(s: string): nat
    requires AllDigits(s)
  {
    if s == [] then 0 else DigitsValue(s[..|s| - 1]) * 10 + DigitValue(s[|s| - 1])
  }

  /** A number written as `x * 10 + d` with a last digit `d` determines both `x` and `d`. */
  lemma LastDigitDecides(x: nat, d: nat, y: nat, e: nat)
    requires d < 10 && e < 10 && x * 10 + d == y * 10 + e
    ensures x == y && d == e
  {
  }

  /** Two digit strings of the same length that denote the same number are the same string. */
  lemma {:induction false} DigitsValueInjective(a: string, b: string)
    requires |a| == |b| && AllDigits(a) && AllDigits(b)
    requires DigitsValue(a) == DigitsValue(b)
    ensures a == b
  {
    if a != [] {
      var n := |a|;
      var pa, pb := a[..n - 1], b[..n - 1];
      assert DigitsValue(a) == DigitsValue(pa) * 10 + DigitValue(a[n - 1]);
      assert DigitsValue(b) == DigitsValue(pb) * 10 + DigitValue(b[n - 1]);
      LastDigitDecides(DigitsValue(pa), DigitValue(a[n - 1]), DigitsValue(pb), DigitValue(b[n - 1]));
      assert a[n - 1] == b[n - 1];
      DigitsValueInjective(pa, pb);
      assert a == pa + [a[n - 1]] && b == pb + [b[n - 1]];
    }
  }

  /** `String(n)` for a natural number: its decimal digits without leading zeros. */
  function NatToString(n: nat): (r: string)
    ensures |r| >= 1 && AllDigits(r)
    ensures n < 10 <==> |r| == 1
    ensures n >= 10 ==> r[0] != '0'
  {
    if n < 10 then [DigitChar(n)] else NatToString(n / 10) + [DigitChar(n % 10)]
  }

  /** Reading back the digits of `NatToString(n)` gives `n`. */
  lemma {:induction false} DigitsOfNat(n: nat)
    ensures DigitsValue(NatToString(n)) == n
  {
    var s := NatToString(n);
    if n >= 10 {
      DigitsOfNat(n / 10);
      assert s[..|s| - 1] == NatToString(n / 10);
    }
  }

  /** `NatToString(n)` has two digits exactly when 10 <= n < 100. */
  lemma NatToStringTwoDigits(n: nat)
    requires 10 <= n < 100
    ensures |NatToString(n)| == 2
  {
  }

  /** `NatToString(n)` has four digits exactly when 1000 <= n < 10000. */
  lemma NatToStringFourDigits(n: nat)
    requires 1000 <= n < 10000
    ensures |NatToString(n)| == 4
  {
    assert |NatToString(n / 10)| == 3 by {
      assert |NatToString(n / 100)| == 2;
    }
  }

  /** `String(n).padStart(2, '0')`. */
  function Pad2(n: nat): (r: string)
    ensures AllDigits(r)
  {
    var s := NatToString(n);
    if |s| >= 2 then s else "0" + s
  }

  /** Below 100 the padded form has exactly two digits and denotes `n`. */
  lemma Pad2Exact(n: nat)
    requires n < 100
    ensures |Pad2(n)| == 2 && DigitsValue(Pad2(n)) == n
  {
    DigitsOfNat(n);
    var s := NatToString(n);
    if n < 10 {
      assert Pad2(n) == ['0', s[0]];
      assert Pad2(n)[..1] == "0";
    }
  }
}
