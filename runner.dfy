/**
 * The test runner's verdicts (china-cdbu-test.py): how a Playwright run and a
 * Python script run are classified PASS or FAIL, how their log files are
 * named, how the log directory is analysed into a project status, and how
 * the passed and failed counts are derived. Processes, files and the
 * database are not modelled: their observable results are parameters.
 */
module Runner {
  import opened Wrappers
  import opened Text

  /** A test's or a project's verdict. */
  datatype Status = Pass | Fail

  /** The word written into log headers. */
  function StatusText(s: Status): string {
    match s
    case Pass => "PASS"
    case Fail => "FAIL"
  }

  // ---------------------------------------------------------------------
  // Case mapping facts used by the classifiers
  // ---------------------------------------------------------------------

  /** Lower-casing distributes over concatenation. */
  lemma ToLowerConcat(a: string, b: string)
    ensures ToLower(a + b) == ToLower(a) + ToLower(b)
  {
  }

  /** Lower-casing forgets any earlier upper-casing. */
  lemma ToLowerOfUpper(s: string)
    ensures ToLower(ToUpper(s)) == ToLower(s)
  {
  }

  // ---------------------------------------------------------------------
  // Playwright runs
  // ---------------------------------------------------------------------

  /** A Playwright file is PASS when its lower-cased output mentions "passed" anywhere, FAIL otherwise. */
  function PlaywrightStatus(stdout: string): (r: Status)
    ensures r == Pass <==> Contains(ToLower(stdout), "passed")
  {
    if Contains(ToLower(stdout), "passed") then Pass else Fail
  }

  /** The word "passed" in any case and anywhere in the output is enough, whatever else the output reports. */
  lemma PassedAnywhereIsPass(before: string, word: string, after: string)
    requires ToLower(word) == "passed"
    ensures PlaywrightStatus(before + word + after) == Pass
  {
    ToLowerConcat(before + word, after);
    ToLowerConcat(before, word);
    ContainsInfix(ToLower(before), "passed", ToLower(after));
  }

  /** The case of the output does not matter. */
  lemma PlaywrightIgnoresCase(stdout: string)
    ensures PlaywrightStatus(ToUpper(stdout)) == PlaywrightStatus(stdout)
  {
    ToLowerOfUpper(stdout);
  }

  /** `test_file.replace(".spec.js", ".log")`. */
  function SpecLogName(testFile: string): string {
    ReplaceAll(testFile, ".spec.js", ".log")
  }

  /** A spec file whose stem has no "." gets the log name stem + ".log". */
  lemma SpecLogNameOfSpec(stem: string)
    requires '.' !in stem
    ensures SpecLogName(stem + ".spec.js") == stem + ".log"
  {
    ReplaceAllSuffix(stem, ".spec.js", ".log");
  }

  /** The text of a written log: a header with the file and its status, the environment line, then the output. */
  function LogText(file: string, status: Status, envUrl: string, output: string): string {
    LogHeader(file, status, envUrl) + output
  }

  /** The two header lines of a log and the blank line after them. */
  function LogHeader(file: string, status: Status, envUrl: string): string {
    "--- " + file + " [" + StatusText(status) + "] ---\n--- ENV: " + envUrl + " ---\n\n"
  }

  /** The log a Python script writes: the same two header lines with no blank line after them, then its combined output. */
  function ScriptLogText(file: string, status: Status, envUrl: string, output: string): string {
    "--- " + file + " [" + StatusText(status) + "] ---\n--- ENV: " + envUrl + " ---\n" + output
  }

  // ---------------------------------------------------------------------
  // Python scripts
  // ---------------------------------------------------------------------

  /** How running a script ended: the process completed with a return code and its outputs, or launching it raised. */
  datatype ScriptRun = Completed(returnCode: int, stdout: string, stderr: string) | Raised

  /** The standard output, followed by the standard error under a marker when there is any. */
  function ScriptOutput(stdout: string, stderr: string): (r: string)
    ensures stderr == [] ==> r == stdout
    ensures stderr != [] ==> r == stdout + "\n--- STDERR ---\n" + stderr
  {
    if stderr != [] then stdout + "\n--- STDERR ---\n" + stderr else stdout
  }

  /**
   * A script is FAIL when launching it raised, when its return code is not
   * 0, or when its combined output contains "FAIL" or "Error:" (case
   * sensitive); otherwise PASS.
   */
  function ScriptStatus(run: ScriptRun): (r: Status)
    ensures run.Raised? ==> r == Fail
    ensures run.Completed? && run.returnCode != 0 ==> r == Fail
    ensures run.Completed? && run.returnCode == 0 ==>
      (r == Fail <==> Contains(ScriptOutput(run.stdout, run.stderr), "FAIL") ||
                      Contains(ScriptOutput(run.stdout, run.stderr), "Error:"))
  {
    match run
    case Raised => Fail
    case Completed(code, stdout, stderr) =>
      var output := ScriptOutput(stdout, stderr);
      if code != 0 then Fail
      else if Contains(output, "FAIL") || Contains(output, "Error:") then Fail
      else Pass
  }

  /** "FAIL" written to the standard error fails a script that exited with 0 and printed nothing suspicious. */
  lemma StderrCanFail(stdout: string, before: string, after: string)
    ensures ScriptStatus(Completed(0, stdout, before + "FAIL" + after)) == Fail
  {
    var stderr := before + "FAIL" + after;
    assert stdout + "\n--- STDERR ---\n" + stderr == (stdout + "\n--- STDERR ---\n" + before) + "FAIL" + after;
    ContainsInfix(stdout + "\n--- STDERR ---\n" + before, "FAIL", after);
  }

  /** The script's log name: every ".py" becomes ".log", and ".log" is appended when nothing changed. */
  function ScriptLogName(baseName: string): (r: string)
  {
    var replaced := ReplaceAll(baseName, ".py", ".log");
    if replaced == baseName then replaced + ".log" else replaced
  }

  /** A script whose stem has no "." logs to stem + ".log". */
  lemma ScriptLogNameOfScript(stem: string)
    requires '.' !in stem
    ensures ScriptLogName(stem + ".py") == stem + ".log"
  {
    ReplaceAllSuffix(stem, ".py", ".log");
    assert (stem + ".log")[|stem| + 1] == 'l';
    assert (stem + ".py")[|stem| + 1] == 'p';
  }

  /** A name without a "." is kept and ".log" appended to it. */
  lemma ScriptLogNameWithoutDot(baseName: string)
    requires '.' !in baseName
    ensures ScriptLogName(baseName) == baseName + ".log"
  {
    ReplaceAllAbsent(baseName, ".py", ".log");
  }

  // ---------------------------------------------------------------------
  // Log analysis
  // ---------------------------------------------------------------------

  /** A character that `\b` treats as part of a word (ASCII letters, digits and "_"). */
  predicate IsWordChar(c: char) {
    'a' <= c <= 'z' || 'A' <= c <= 'Z' || '0' <= c <= '9' || c == '_'
  }

  /** `w` occurs at `i` as a whole word: no word character right before or right after it. */
  predicate WordAt(s: string, w: string, i: nat) {
    MatchesAt(s, w, i) &&
    (i == 0 || !IsWordChar(s[i - 1])) &&
    (i + |w| == |s| || !IsWordChar(s[i + |w|]))
  }

  /** The first whole-word occurrence of `w` at or after `from`. */
  function WordIndexFrom(s: string, w: string, from: nat): (r: Option<nat>)
    ensures r.Some? ==> from <= r.value && WordAt(s, w, r.value)
    ensures r.None? ==> forall i :: from <= i ==> !WordAt(s, w, i)
    decreases |s| - from
  {
    if from + |w| > |s| then None
    else if WordAt(s, w, from) then Some(from)
    else WordIndexFrom(s, w, from + 1)
  }

  /** One of the failure patterns matches the lower-cased log: `\bfail\b`, "error:", "test timeout", "assertionerror" or "traceback". */
  predicate ShowsFailure(lower: string) {
    WordIndexFrom(lower, "fail", 0).Some? ||
    Contains(lower, "error:") || Contains(lower, "test timeout") ||
    Contains(lower, "assertionerror") || Contains(lower, "traceback")
  }

  /** A log is FAIL when it is missing or a failure pattern matches it case-insensitively; otherwise PASS. */
  function CheckLogFile(content: Option<string>): (r: Status)
    ensures content.None? ==> r == Fail
    ensures content.Some? ==> (r == Fail <==> ShowsFailure(ToLower(content.value)))
  {
    match content
    case None => Fail
    case Some(c) => if ShowsFailure(ToLower(c)) then Fail else Pass
  }

  /** The case of a log does not change its verdict. */
  lemma CheckIgnoresCase(content: string)
    ensures CheckLogFile(Some(ToUpper(content))) == CheckLogFile(Some(content))
  {
    ToLowerOfUpper(content);
  }

  /** A log written for a FAIL run carries "[FAIL]" in its header, so the analysis finds it FAIL again. */
  lemma FailHeaderFailsLog(file: string, envUrl: string, output: string)
    ensures CheckLogFile(Some(LogText(file, Fail, envUrl, output))) == Fail
  {
    var p := "--- " + file + " [";
    var q := "] ---\n--- ENV: " + envUrl + " ---\n\n" + output;
    assert LogText(file, Fail, envUrl, output) == p + "FAIL" + q;
    assert ToLower("FAIL") == "fail";
    WordFailShowsFailure(p, "FAIL", q);
  }

  /**
   * A script that exits with 0 and prints "fail" in lower case is PASS when
   * it runs: the run's check is case sensitive.
   */
  lemma LowerCaseFailRunPasses()
    ensures ScriptStatus(Completed(0, " fail ", "")) == Pass
  {
    var out := [' ', 'f', 'a', 'i', 'l', ' '];
    assert out == " fail ";
    AbsentFirstChar(out, "FAIL");
    AbsentFirstChar(out, "Error:");
  }

  /** "fail", in any case, between two characters that are not word characters is found by the analysis. */
  lemma WordFailShowsFailure(p: string, w: string, q: string)
    requires ToLower(w) == "fail"
    requires p != [] && !IsWordChar(LowerChar(p[|p| - 1]))
    requires q != [] && !IsWordChar(LowerChar(q[0]))
    ensures ShowsFailure(ToLower(p + w + q))
  {
    ToLowerConcat(p + w, q);
    ToLowerConcat(p, w);
    var l := ToLower(p + w + q);
    var i := |p|;
    assert l == ToLower(p) + "fail" + ToLower(q);
    assert l[i..i + 4] == "fail";
    assert WordAt(l, "fail", i);
  }

  /** The log of that same PASS run is FAIL: the analysis matches "fail" as a word in any case. */
  lemma LowerCaseFailLogFails(file: string, envUrl: string)
    ensures CheckLogFile(Some(ScriptLogText(file, Pass, envUrl, ScriptOutput(" fail ", "")))) == Fail
  {
    var h := "--- " + file + " [PASS] ---\n--- ENV: " + envUrl + " ---\n";
    assert ScriptLogText(file, Pass, envUrl, ScriptOutput(" fail ", "")) == (h + " ") + "fail" + " ";
    assert ToLower("fail") == "fail";
    WordFailShowsFailure(h + " ", "fail", " ");
  }

  /** One file of the log directory, with whether a Python script of the same stem exists under tests/. */
  datatype LogFile = LogFile(name: string, content: Option<string>, scriptExists: bool)

  /** One entry of the analysis. */
  datatype TestResult = TestResult(file: string, status: Status, logFile: string)

  /** Only ".log" files whose lower-cased name does not mention "combined" are analysed. */
  predicate Analysed(name: string) {
    EndsWith(name, ".log") && !Contains(ToLower(name), "combined")
  }

  /** The name shown for a log: its Python script when one exists, else its spec file. */
  function DisplayName(f: LogFile): string {
    if f.scriptExists then ReplaceAll(f.name, ".log", ".py") else ReplaceAll(f.name, ".log", ".spec.js")
  }

  /** The entry recorded for an analysed log. */
  function ResultOf(project: string, f: LogFile): TestResult {
    TestResult(DisplayName(f), CheckLogFile(f.content), "/logs/" + project + "/" + f.name)
  }

  /** The entries for a directory listing, in listing order. */
  function Results(project: string, files: seq<LogFile>): (r: seq<TestResult>)
    ensures |r| <= |files|
  {
    if files == [] then []
    else
      var last := files[|files| - 1];
      Results(project, files[..|files| - 1]) + (if Analysed(last.name) then [ResultOf(project, last)] else [])
  }

  /** Every analysed file has its entry, and every entry comes from an analysed file. */
  lemma {:induction false} ResultsExact(project: string, files: seq<LogFile>)
    ensures forall f :: f in files && Analysed(f.name) ==> ResultOf(project, f) in Results(project, files)
    ensures forall t :: t in Results(project, files) ==> exists f :: f in files && Analysed(f.name) && t == ResultOf(project, f)
  {
    if files != [] {
      var init := files[..|files| - 1];
      ResultsExact(project, init);
      assert files == init + [files[|files| - 1]];
    }
  }

  /** The project is FAIL when some entry is FAIL. */
  function ProjectStatus(tests: seq<TestResult>): (r: Status)
    ensures r == Fail <==> exists i :: 0 <= i < |tests| && tests[i].status == Fail
  {
    if exists i :: 0 <= i < |tests| && tests[i].status == Fail then Fail else Pass
  }

  /** Appending an entry turns the status FAIL when the entry is FAIL and keeps it otherwise. */
  lemma ProjectStatusAppend(tests: seq<TestResult>, t: TestResult)
    ensures ProjectStatus(tests + [t]) == if t.status == Fail then Fail else ProjectStatus(tests)
  {
    var all := tests + [t];
    assert all[|tests|] == t;
    assert forall i :: 0 <= i < |tests| ==> all[i] == tests[i];
  }

  /** The analysis of a project's logs. */
  datatype Analysis = Analysis(projectStatus: Status, tests: seq<TestResult>)

  /**
   * The directory loop: every analysed log is checked and appended, and the
   * project status turns FAIL at the first FAIL entry. A missing directory
   * is FAIL with no entries.
   */
  method ProcessLogs(project: string, dir: Option<seq<LogFile>>) returns (a: Analysis)
    ensures dir.None? ==> a == Analysis(Fail, [])
    ensures dir.Some? ==> a.tests == Results(project, dir.value)
    ensures dir.Some? ==> a.projectStatus == ProjectStatus(a.tests)
  {
    if dir.None? {
      return Analysis(Fail, []);
    }
    var files := dir.value;
    var testResults: seq<TestResult> := [];
    var projectStatus := Pass;
    var k := 0;
    while k < |files|
      invariant 0 <= k <= |files|
      invariant testResults == Results(project, files[..k])
      invariant projectStatus == ProjectStatus(testResults)
    {
      var f := files[k];
      assert files[..k + 1][..k] == files[..k];
      if Analysed(f.name) {
        var status := CheckLogFile(f.content);
        if status == Fail {
          projectStatus := Fail;
        }
        var displayName := ReplaceAll(f.name, ".log", ".spec.js");
        if f.scriptExists {
          displayName := ReplaceAll(f.name, ".log", ".py");
        }
        ProjectStatusAppend(testResults, TestResult(displayName, status, "/logs/" + project + "/" + f.name));
        testResults := testResults + [TestResult(displayName, status, "/logs/" + project + "/" + f.name)];
      }
      k := k + 1;
    }
    assert files[..k] == files;
    a := Analysis(projectStatus, testResults);
  }

  /** A log whose name mentions "combined" in any case never affects the analysis. */
  lemma CombinedLogsIgnored(project: string, files: seq<LogFile>, f: LogFile)
    requires Contains(ToLower(f.name), "combined")
    ensures Results(project, files + [f]) == Results(project, files)
  {
    assert (files + [f])[..|files|] == files;
  }

  // ---------------------------------------------------------------------
  // Counts
  // ---------------------------------------------------------------------

  /** The number of PASS entries. */
  function PassedCount(tests: seq<TestResult>): (n: nat)
    ensures n <= |tests|
  {
    if tests == [] then 0
    else PassedCount(tests[..|tests| - 1]) + (if tests[|tests| - 1].status == Pass then 1 else 0)
  }

  /** The file and log of every FAIL entry, in order. */
  function FailedList(tests: seq<TestResult>): seq<(string, string)> {
    if tests == [] then []
    else
      var t := tests[|tests| - 1];
      FailedList(tests[..|tests| - 1]) + (if t.status == Fail then [(t.file, t.logFile)] else [])
  }

  /** `failed = len(tests) - passed` is exactly the length of the failed list. */
  lemma {:induction false} CountsAgree(tests: seq<TestResult>)
    ensures PassedCount(tests) + |FailedList(tests)| == |tests|
  {
    if tests != [] {
      CountsAgree(tests[..|tests| - 1]);
    }
  }

  /** The failed list holds the file and log of each FAIL entry and nothing else. */
  lemma {:induction false} FailedListExact(tests: seq<TestResult>)
    ensures forall i :: 0 <= i < |tests| && tests[i].status == Fail ==> (tests[i].file, tests[i].logFile) in FailedList(tests)
    ensures forall p :: p in FailedList(tests) ==> exists i :: 0 <= i < |tests| && tests[i].status == Fail && p == (tests[i].file, tests[i].logFile)
  {
    if tests != [] {
      var init := tests[..|tests| - 1];
      FailedListExact(init);
      assert forall i :: 0 <= i < |init| ==> init[i] == tests[i];
    }
  }

  /** The project is PASS exactly when every entry passed. */
  lemma {:induction false} ProjectPassIffAllPassed(tests: seq<TestResult>)
    ensures ProjectStatus(tests) == Pass <==> PassedCount(tests) == |tests|
  {
    if tests != [] {
      var init := tests[..|tests| - 1];
      ProjectPassIffAllPassed(init);
      assert forall i :: 0 <= i < |init| ==> init[i] == tests[i];
    }
  }

  // ---------------------------------------------------------------------
  // Environment and history
  // ---------------------------------------------------------------------

  /** The known environments and their application addresses. */
  const EnvUrls: map<string, string> := map[
    "cdbu_dev" := "https://dev-spriced-cdbu.alpha.simadvisory.com/",
    "cdbu_qa" := "https://qa-spriced-cdbu.alpha.simadvisory.com/",
    "nrp_dev" := "https://dev-spriced-nrp.alpha.simadvisory.com/"]

  /** The address a run targets: the key's own address, or the development address for an unknown key. */
  function TargetUrl(envKey: string): (r: string)
    ensures envKey in EnvUrls ==> r == EnvUrls[envKey]
    ensures envKey !in EnvUrls ==> r == EnvUrls["cdbu_dev"]
  {
    var url := if envKey in EnvUrls then EnvUrls[envKey] else "UNKNOWN_ENV";
    if url == "UNKNOWN_ENV" then EnvUrls["cdbu_dev"] else url
  }

  /** `env_key.upper().replace('_', ' ')`. */
  function PlatformLabel(envKey: string): string {
    ReplaceAll(ToUpper(envKey), "_", " ")
  }

  /** Replacing a one-character pattern maps each character on its own. */
  lemma {:induction false} ReplaceCharAll(s: string, c: char, d: char)
    ensures |ReplaceAll(s, [c], [d])| == |s|
    ensures forall i :: 0 <= i < |s| ==> ReplaceAll(s, [c], [d])[i] == if s[i] == c then d else s[i]
    decreases |s|
  {
    if s != [] {
      ReplaceCharAll(s[1..], c, d);
    }
  }

  /** The label is the key in capitals with every "_" turned into a space. */
  lemma PlatformLabelShape(envKey: string)
    ensures |PlatformLabel(envKey)| == |envKey|
    ensures forall i :: 0 <= i < |envKey| ==>
      PlatformLabel(envKey)[i] == if envKey[i] == '_' then ' ' else UpperChar(envKey[i])
  {
    ReplaceCharAll(ToUpper(envKey), '_', ' ');
  }

  /** The time shown in the history: the first five characters (HH:MM) of a longer time. */
  function HistoryTime(t: string): (r: string)
    ensures |r| <= 5 && |r| <= |t| && r == t[..|r|]
    ensures |t| <= 5 ==> r == t
  {
    if |t| > 5 then t[..5] else t
  }

  /** A shown time is shown unchanged again. */
  lemma HistoryTimeIdempotent(t: string)
    ensures HistoryTime(HistoryTime(t)) == HistoryTime(t)
  {
  }
}
