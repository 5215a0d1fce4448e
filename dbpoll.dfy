/**
 * Engine-model propagation check (tests/china-dbpoll.spec.js): the NRP
 * application's address is derived from the CDBU one, an engine model is
 * selected there, and afterwards the China record's Engine Model must
 * contain the numeric code of the selected model.
 */
module DbPoll {
  import opened Wrappers
  import opened Text
  import JsNumber

  // ---------------------------------------------------------------------
  // The NRP address
  // ---------------------------------------------------------------------

  /** `BASE_URL.replace('cdbu', 'nrp')`: the first "cdbu" only. */
  function NrpUrl(baseUrl: string): string {
    ReplaceFirst(baseUrl, "cdbu", "nrp")
  }

  /** An address with "cdbu" first at the end of `p` has that occurrence, and only that one, rewritten. */
  lemma NrpUrlAt(p: string, q: string)
    requires forall j :: 0 <= j < |p| ==> !MatchesAt(p + "cdbu" + q, "cdbu", j)
    ensures NrpUrl(p + "cdbu" + q) == p + "nrp" + q
  {
    var s := p + "cdbu" + q;
    assert MatchesAt(s, "cdbu", |p|) by {
      assert s[|p|..|p| + 4] == "cdbu";
    }
    assert s[..|p|] == p;
    assert s[|p| + 4..] == q;
  }

  /** An address without "cdbu" is used unchanged. */
  lemma NrpUrlWithoutCdbu(baseUrl: string)
    requires !Contains(baseUrl, "cdbu")
    ensures NrpUrl(baseUrl) == baseUrl
  {
  }

  // ---------------------------------------------------------------------
  // The numeric code of the selected model
  // ---------------------------------------------------------------------

  /** The first position at or after `i` that holds a digit. */
  function FirstDigitFrom(s: string, i: nat): (r: Option<nat>)
    requires i <= |s|
    ensures r.Some? ==> i <= r.value < |s| && IsDigit(s[r.value])
    ensures forall k :: i <= k < |s| && (r.None? || k < r.value) ==> !IsDigit(s[k])
    decreases |s| - i
  {
    if i == |s| then None
    else if IsDigit(s[i]) then Some(i)
    else FirstDigitFrom(s, i + 1)
  }

  /** `s.match(/\d+/)?.[0]`: the first maximal run of digits, or undefined. */
  function CodePart(s: string): (r: Option<string>)
    ensures r.None? <==> forall k :: 0 <= k < |s| ==> !IsDigit(s[k])
    ensures r.Some? ==> r.value != [] && AllDigits(r.value)
    ensures r.Some? ==> exists i :: CodeRunAt(s, i, r.value)
  {
    match FirstDigitFrom(s, 0)
    case None => None
    case Some(i) =>
      var j := JsNumber.RunEnd(s, i);
      assert CodeRunAt(s, i, s[i..j]);
      Some(s[i..j])
  }

  /**
   * `code` is the run of digits starting at `i`: no digit comes before it,
   * and it is not followed by another digit.
   */
  predicate CodeRunAt(s: string, i: nat, code: string) {
    i + |code| <= |s| && s[i..i + |code|] == code &&
    (forall k :: 0 <= k < i ==> !IsDigit(s[k])) &&
    (i + |code| == |s| || !IsDigit(s[i + |code|]))
  }

  /** A model name that starts with one digit followed by a non-digit, such as "6T {CTT-6T}", has that digit as its code. */
  lemma LeadingDigitCode(d: char, rest: string)
    requires IsDigit(d) && rest != [] && !IsDigit(rest[0])
    ensures CodePart([d] + rest) == Some([d])
  {
    var s := [d] + rest;
    assert s[1] == rest[0];
  }

  /** The model selected in NRP. */
  const EngineModelToSelect: string := "6T {CTT-6T}"

  /** Its numeric code is "6": the later "6" inside the braces is never looked at. */
  lemma SelectedModelCode()
    ensures CodePart(EngineModelToSelect) == Some("6")
  {
    assert EngineModelToSelect == ['6'] + "T {CTT-6T}";
    LeadingDigitCode('6', "T {CTT-6T}");
  }

  // ---------------------------------------------------------------------
  // The verdict
  // ---------------------------------------------------------------------

  /**
   * The value shown is correct when its trimmed text is non-empty (the
   * field may have no text at all), the model has a code and the text
   * contains it. The verdict is only logged; it never fails the test.
   */
  predicate EngineModelCorrect(currentValue: Option<string>, model: string) {
    currentValue.Some? && Trim(currentValue.value) != [] &&
    CodePart(model).Some? && Contains(Trim(currentValue.value), CodePart(model).value)
  }

  /** A field without text is never correct. */
  lemma MissingValueIncorrect(model: string)
    ensures !EngineModelCorrect(None, model)
  {
  }

  /** A model without a digit has no code, so no value is ever correct. */
  lemma DigitFreeModelNeverCorrect(currentValue: Option<string>, model: string)
    requires forall k :: 0 <= k < |model| ==> !IsDigit(model[k])
    ensures !EngineModelCorrect(currentValue, model)
  {
  }

  /**
   * For the selected model the check only asks for a "6" somewhere in the
   * trimmed value: any model whose text holds a "6" passes.
   */
  lemma CorrectIffHoldsSix(v: string)
    ensures EngineModelCorrect(Some(v), EngineModelToSelect) <==> '6' in Trim(v)
  {
    SelectedModelCode();
    var t := Trim(v);
    if '6' in t {
      var k :| 0 <= k < |t| && t[k] == '6';
      assert MatchesAt(t, "6", k) by {
        assert t[k..k + 1] == "6";
      }
    }
    if Contains(t, "6") {
      var k := IndexOf(t, "6").value;
      assert t[k] == t[k..k + 1][0];
    }
  }
}
