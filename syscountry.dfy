/**
 * Country factor transfer (tests/syscountry.spec.js): a random factor of the
 * form ddd.dd is written into Future Country Factor USD with today's date,
 * a remote scheduler is triggered, and the page is polled up to three times
 * until the future field is empty and the current field shows the value
 * that was set.
 */
module SysCountry {
  import opened Wrappers
  import opened Text
  import opened DateFormat

  // ---------------------------------------------------------------------
  // The value written and the date
  // ---------------------------------------------------------------------

  /**
   * The future factor written: three random digits, ".", two random digits.
   * The random source is a parameter: the five draws of `Math.floor(Math.random() * 10)`.
   */
  function FutureValueToSet(d0: nat, d1: nat, d2: nat, d3: nat, d4: nat): (r: string)
    requires d0 < 10 && d1 < 10 && d2 < 10 && d3 < 10 && d4 < 10
  {
    NatToString(d0) + NatToString(d1) + NatToString(d2) + "." + NatToString(d3) + NatToString(d4)
  }

  /** Whatever is drawn, the value is six characters: three digits, ".", two digits; it has no white space to trim. */
  lemma FutureValueShape(d0: nat, d1: nat, d2: nat, d3: nat, d4: nat)
    requires d0 < 10 && d1 < 10 && d2 < 10 && d3 < 10 && d4 < 10
    ensures var r := FutureValueToSet(d0, d1, d2, d3, d4);
      |r| == 6 && r[3] == '.' && AllDigits(r[..3]) && AllDigits(r[4..]) && Trim(r) == r
  {
    var r := FutureValueToSet(d0, d1, d2, d3, d4);
    assert r == [DigitChar(d0), DigitChar(d1), DigitChar(d2), '.', DigitChar(d3), DigitChar(d4)];
    TrimOfTrimmed(r);
  }

  /** The effective date written next to it. */
  function EffectiveDateToSet(today: LocalDate): (r: string)
    ensures Valid(today) ==> Denotes(r, today)
  {
    var r := MMDDYYYY(today);
    if Valid(today) then FormatIff(r, today); r
    else r
  }

  // ---------------------------------------------------------------------
  // Triggering the scheduler
  // ---------------------------------------------------------------------

  /** How the remote trigger ended: the SSH process closed with an exit code and its output, or could not be spawned. */
  datatype ProcessEnd = Closed(code: int, stdout: string) | SpawnFailed(message: string)

  /** The trigger resolves only on exit code 0 with "200" in the trimmed output; anything else rejects and ends the test. */
  function TriggerOutcome(p: ProcessEnd): (r: Result<bool, string>)
    ensures r.Ok? <==> p.Closed? && p.code == 0 && Contains(Trim(p.stdout), "200")
    ensures r.Ok? ==> r.value
  {
    match p
    case SpawnFailed(m) => Err(m)
    case Closed(code, stdout) =>
      var output := Trim(stdout);
      if code == 0 then
        if Contains(output, "200") then Ok(true)
        else Err("Scheduler API returned unexpected output: " + output)
      else Err("SSH process exited with code")
  }

  // ---------------------------------------------------------------------
  // Polling
  // ---------------------------------------------------------------------

  /** The number of reload attempts the loop makes (its log text says "/5"). */
  const MaxAttempts: nat := 3

  /**
   * What one reload shows: the future input's value, the current input's
   * value when that input exists (`None` when it does not), and the values of
   * all numeric inputs, in page order, for the fallback search.
   */
  datatype Reload = Reload(future: string, current: Option<string>, numericInputs: seq<string>)

  /** The first position at or after `i` whose key is `target`. */
  function FirstMatchFrom(keys: seq<string>, target: string, i: nat): (r: Option<nat>)
    requires i <= |keys|
    ensures r.Some? ==> i <= r.value < |keys|
    decreases |keys| - i
  {
    if i == |keys| then None
    else if keys[i] == target then Some(i)
    else FirstMatchFrom(keys, target, i + 1)
  }

  /** A search that finds a key finds the first one at or after `i`. */
  lemma {:induction false} FirstMatchFound(keys: seq<string>, target: string, i: nat)
    requires i <= |keys| && FirstMatchFrom(keys, target, i).Some?
    ensures var k := FirstMatchFrom(keys, target, i).value;
      i <= k < |keys| && keys[k] == target && forall j :: i <= j < k ==> keys[j] != target
    decreases |keys| - i
  {
    if keys[i] != target {
      FirstMatchFound(keys, target, i + 1);
    }
  }

  /** A search finds nothing only when no key at or after `i` is `target`. */
  lemma {:induction false} FirstMatchNone(keys: seq<string>, target: string, i: nat)
    requires i <= |keys| && FirstMatchFrom(keys, target, i).None?
    ensures forall j :: i <= j < |keys| ==> keys[j] != target
    decreases |keys| - i
  {
    if i < |keys| {
      FirstMatchNone(keys, target, i + 1);
    }
  }

  /** The trimmed values of the numeric inputs. */
  function TrimmedValues(inputs: seq<string>): (r: seq<string>)
    ensures |r| == |inputs| && forall j :: 0 <= j < |inputs| ==> r[j] == Trim(inputs[j])
  {
    seq(|inputs|, j requires 0 <= j < |inputs| => Trim(inputs[j]))
  }

  /** The fallback search: the first numeric input whose trimmed value is the value that was set. */
  function FallbackCurrent(inputs: seq<string>, target: string): Option<nat> {
    FirstMatchFrom(TrimmedValues(inputs), target, 0)
  }

  /** The loop's variables after some attempts. */
  datatype PollState = PollState(success: bool, futureAfter: string, currentAfter: string)

  /**
   * The current value an attempt reads: its own input when that exists, else
   * the first numeric input showing the value that was set, else the value of
   * the previous attempt.
   */
  function CurrentRead(previous: string, r: Reload, target: string): (v: string)
  {
    match r.current
    case Some(v) => v
    case None =>
      match FallbackCurrent(r.numericInputs, target)
      case Some(k) => r.numericInputs[k]
      case None => previous
  }

  /**
   * The read prefers the current input; without it, a numeric input showing
   * the value that was set is taken; when none does, the previous value stays.
   */
  lemma CurrentReadCases(previous: string, r: Reload, target: string)
    ensures r.current.Some? ==> CurrentRead(previous, r, target) == r.current.value
    ensures r.current.None? && (exists j :: 0 <= j < |r.numericInputs| && Trim(r.numericInputs[j]) == target) ==>
      Trim(CurrentRead(previous, r, target)) == target
    ensures r.current.None? && (forall j :: 0 <= j < |r.numericInputs| ==> Trim(r.numericInputs[j]) != target) ==>
      CurrentRead(previous, r, target) == previous
  {
    if r.current.None? {
      var keys := TrimmedValues(r.numericInputs);
      if FallbackCurrent(r.numericInputs, target).Some? {
        FirstMatchFound(keys, target, 0);
      } else {
        FirstMatchNone(keys, target, 0);
      }
    }
  }

  /** One attempt: it succeeds when the future value is empty and the trimmed current value is the value that was set. */
  function Attempt(prev: PollState, r: Reload, target: string): (s: PollState)
  {
    var current := CurrentRead(prev.currentAfter, r, target);
    PollState(r.future == [] && Trim(current) == target, r.future, current)
  }

  /** The state after the first `n` attempts, stopping at the first success. */
  function Polled(reloads: seq<Reload>, target: string, n: nat): (s: PollState)
    requires n <= |reloads|
  {
    if n == 0 then PollState(false, "", "")
    else
      var prev := Polled(reloads, target, n - 1);
      if prev.success then prev else Attempt(prev, reloads[n - 1], target)
  }

  /** An attempt after a failed one is that attempt. */
  lemma PolledStep(reloads: seq<Reload>, target: string, n: nat)
    requires 0 < n <= |reloads| && !Polled(reloads, target, n - 1).success
    ensures Polled(reloads, target, n) == Attempt(Polled(reloads, target, n - 1), reloads[n - 1], target)
  {
  }

  /** Once an attempt has succeeded, later reloads change nothing. */
  lemma {:induction false} SuccessIsFinal(reloads: seq<Reload>, target: string, n: nat, m: nat)
    requires n <= m <= |reloads|
    requires Polled(reloads, target, n).success
    ensures Polled(reloads, target, m) == Polled(reloads, target, n)
    decreases m - n
  {
    if n < m {
      SuccessIsFinal(reloads, target, n, m - 1);
    }
  }

  /**
   * The polling loop: at most three reloads, stopping at the first success.
   * The reloads are given in the order the loop would make them.
   */
  method Poll(reloads: seq<Reload>, target: string) returns (success: bool, futureValueAfter: string, currentValueAfter: string)
    requires |reloads| == MaxAttempts
    ensures PollState(success, futureValueAfter, currentValueAfter) == Polled(reloads, target, |reloads|)
  {
    success := false;
    futureValueAfter := "";
    currentValueAfter := "";
    var attempt := 1;
    while attempt <= MaxAttempts
      invariant 1 <= attempt <= |reloads| + 1
      invariant !success
      invariant PollState(success, futureValueAfter, currentValueAfter) == Polled(reloads, target, attempt - 1)
    {
      var r := reloads[attempt - 1];
      futureValueAfter := r.future;
      currentValueAfter := ReadCurrent(currentValueAfter, r, target);
      PolledStep(reloads, target, attempt);
      ghost var next := Polled(reloads, target, attempt);
      assert next == PollState(futureValueAfter == [] && Trim(currentValueAfter) == target, futureValueAfter, currentValueAfter);
      if futureValueAfter == [] && Trim(currentValueAfter) == target {
        success := true;
        SuccessIsFinal(reloads, target, attempt, |reloads|);
        break;
      }
      attempt := attempt + 1;
    }
  }

  /** One reload's read of the current value: its own input, else the fallback search, else the previous value. */
  method ReadCurrent(previous: string, r: Reload, target: string) returns (v: string)
    ensures v == CurrentRead(previous, r, target)
  {
    v := previous;
    if r.current.Some? {
      v := r.current.value;
    } else {
      var found := SearchNumericInputs(r.numericInputs, target);
      if found.Some? {
        v := r.numericInputs[found.value];
      }
    }
  }

  /** The fallback loop over the numeric inputs, leaving at the first whose trimmed value is the value that was set. */
  method SearchNumericInputs(inputs: seq<string>, target: string) returns (found: Option<nat>)
    ensures found == FallbackCurrent(inputs, target)
  {
    var i := 0;
    while i < |inputs|
      invariant 0 <= i <= |inputs|
      invariant FirstMatchFrom(TrimmedValues(inputs), target, i) == FallbackCurrent(inputs, target)
    {
      if Trim(inputs[i]) == target {
        return Some(i);
      }
      i := i + 1;
    }
    return None;
  }


  /** The final expectations: success, a falsy future value and the set value as current. */
  predicate FinalAssertionsHold(s: PollState, target: string) {
    s.success && s.futureAfter == [] && Trim(s.currentAfter) == target
  }

  /** The final expectations hold exactly when the polling succeeded. */
  lemma {:induction false} FinalAssertionsIffSuccess(reloads: seq<Reload>, target: string, n: nat)
    requires n <= |reloads|
    ensures FinalAssertionsHold(Polled(reloads, target, n), target) <==> Polled(reloads, target, n).success
  {
    if n > 0 {
      FinalAssertionsIffSuccess(reloads, target, n - 1);
    }
  }

  /**
   * When the current input is missing and no numeric input shows the set
   * value, the current value of the previous attempt is kept: a success can
   * then rest on a value read one reload earlier.
   */
  lemma StaleCurrentCanSucceed(target: string, inputs: seq<string>)
    requires forall j :: 0 <= j < |inputs| ==> Trim(inputs[j]) != target
    requires Trim(target) == target
    ensures var first := Reload("1", Some(target), []);
            var second := Reload("", None, inputs);
            var reloads := [first, second, second];
            !Polled(reloads, target, 1).success && Polled(reloads, target, 2).success
  {
    var second := Reload("", None, inputs);
    var reloads := [Reload("1", Some(target), []), second, second];
    assert Polled(reloads, target, 1).currentAfter == target;
    CurrentReadCases(target, second, target);
  }
}
