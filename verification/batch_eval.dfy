/**
 The batch runner: it runs the pipeline on each paper URL, reads the pipeline's
 combined log back (the last step reached, the last error line, an error
 category and the cloned repository's name), runs the generated demo when the
 pipeline succeeded, merges both into one row per URL, and aggregates the rows
 into the summary's counts.

 Process runs, the log file write and the demo's presence are parameters;
 durations, percentages and the report, CSV and JSON text are not modelled.
 */
module BatchEval {
  import opened Outcomes
  import opened Text
  import opened Constants
  import VenvCreate

  // ---------------------------------------------------------------------------
  // run_subprocess
  // ---------------------------------------------------------------------------

  /** The `CompletedProcess` the program reads: return code and captured text. */
  datatype Completed = Completed(rc: int, stdout: string, stderr: string)

  /** `f"{timeout}"` for the optional timeout. */
  function TimeoutText(timeout: Option<nat>): string {
    match timeout
    case None => "None"
    case Some(t) => NatToString(t)
  }

  /** Whether the exception carried output: `if e.stdout` is false for no bytes and for empty bytes alike. */
  predicate Captured(p: Option<string>) {
    p.Some? && p.value != ""
  }

  /** A timeout whose captured output cannot be decoded: `.decode()` raises in the handler. */
  predicate DecodeFails(o: ProcOutcome) {
    o.TimedOut? && !o.decodes && (Captured(o.partialStdout) || Captured(o.partialStderr))
  }

  /**
   `run_subprocess`: a finished process as it is; a timeout becomes return code
   -1 with the partial output kept and `TIMEOUT after <t>s` put in front of the
   partial error output, unless decoding captured output raises, which leaves
   the function like any other exception of the run.
   */
  function RunSubprocess(timeout: Option<nat>, o: ProcOutcome): (r: Result<Completed, ErrKind>)
    ensures o.Exited? ==> r == Ok(Completed(o.code, o.stdout, o.stderr))
    ensures o.TimedOut? ==> (r.Err? <==> DecodeFails(o))
    ensures DecodeFails(o) ==> r == Err(NonOSErr)
    ensures o.TimedOut? && r.Ok? ==> r.value.rc == -1
    ensures o.TimedOut? && r.Ok? ==> r.value.stdout == (if Captured(o.partialStdout) then o.partialStdout.value else "")
    ensures o.TimedOut? && r.Ok? ==>
      r.value.stderr == "TIMEOUT after " + TimeoutText(timeout) + "s\n" + (if Captured(o.partialStderr) then o.partialStderr.value else "")
    ensures o.ExeNotFound? ==> r == Err(NotFoundErr)
    ensures o.Crashed? ==> r == Err(o.kind)
  {
    match o
    case Exited(code, out, err) => Ok(Completed(code, out, err))
    case TimedOut(out, err, decodes) =>
      // `.decode()` of captured output is where the timeout branch itself can raise.
      if DecodeFails(o) then Err(NonOSErr)
      else
        var prefix := "TIMEOUT after " + TimeoutText(timeout) + "s\n";
        Ok(Completed(-1, if Captured(out) then out.value else "", prefix + (if Captured(err) then err.value else "")))
    case ExeNotFound => Err(NotFoundErr)
    case Crashed(k) => Err(k)
  }

  /** A timed-out run's error output holds the word `TIMEOUT`, and so does its lower-cased form `timeout`. */
  lemma TimeoutMarked(timeout: Option<nat>, o: ProcOutcome)
    requires o.TimedOut? && RunSubprocess(timeout, o).Ok?
    ensures Contains(RunSubprocess(timeout, o).value.stderr, "TIMEOUT")
    ensures Contains(Lower(RunSubprocess(timeout, o).value.stderr), "timeout")
  {
    var err := RunSubprocess(timeout, o).value.stderr;
    var p := "TIMEOUT after " + TimeoutText(timeout) + "s\n";
    assert err[..|p|] == p;
    assert p[..7] == "TIMEOUT";
    assert err[..7] == p[..7];
    StartsWithContains(err, "TIMEOUT");
    ContainsLower(err, "TIMEOUT");
    LowerTimeout();
  }

  lemma LowerTimeout()
    ensures Lower("TIMEOUT") == "timeout"
  {
  }

  // ---------------------------------------------------------------------------
  // detect_last_step
  // ---------------------------------------------------------------------------

  /** The loop of `detect_last_step` from step `k` on, `last` being the value so far. */
  function StepScan(log: string, k: nat, last: nat): (r: nat)
    requires 1 <= k <= 8
    ensures r >= last
    ensures r <= 7 || r == last
    ensures r == last || (k <= r <= 7 && Contains(log, STEP_MARKERS[r]))
    ensures forall j :: k <= j <= 7 && Contains(log, STEP_MARKERS[j]) ==> j <= r
    decreases 8 - k
  {
    if k == 8 then last
    else StepScan(log, k + 1, if Contains(log, STEP_MARKERS[k]) && k > last then k else last)
  }

  /** `detect_last_step`: the largest step whose marker occurs in the log, 0 when none does. */
  function DetectLastStep(log: string): (r: nat)
    ensures r <= 7 && r in STEP_NAMES
    ensures r == 0 || Contains(log, STEP_MARKERS[r])
    ensures forall j :: 1 <= j <= 7 && Contains(log, STEP_MARKERS[j]) ==> j <= r
  {
    StepScan(log, 1, 0)
  }

  /**
   The step found is exactly the largest one whose marker occurs: the value is
   determined by which markers the log contains.
   */
  lemma DetectLastStepIsMax(log: string, k: nat)
    requires 1 <= k <= 7 && Contains(log, STEP_MARKERS[k])
    requires forall j :: k < j <= 7 ==> !Contains(log, STEP_MARKERS[j])
    ensures DetectLastStep(log) == k
  {
  }

  /** Adding text around a log never lowers the step detected. */
  lemma DetectLastStepMonotone(a: string, log: string, b: string)
    ensures DetectLastStep(log) <= DetectLastStep(a + log + b)
  {
    var r := DetectLastStep(log);
    if r != 0 {
      ContainsExtend(a, log, b, STEP_MARKERS[r]);
    }
  }

  // ---------------------------------------------------------------------------
  // extract_last_error_line
  // ---------------------------------------------------------------------------

  /** A line that reports an error: it holds `[ERROR]` or `[FATAL]`. */
  predicate IsErrorLine(line: string) {
    Contains(line, "[ERROR]") || Contains(line, "[FATAL]")
  }

  /** The index of the last error line among `lines[..n]`, searching backwards as `reversed` does. */
  function LastErrorIndex(lines: seq<string>, n: nat): (r: Option<nat>)
    requires n <= |lines|
    ensures r.None? <==> forall i :: 0 <= i < n ==> !IsErrorLine(lines[i])
    ensures r.Some? ==> r.value < n && IsErrorLine(lines[r.value])
    ensures r.Some? ==> forall i :: r.value < i < n ==> !IsErrorLine(lines[i])
  {
    if n == 0 then None
    else if IsErrorLine(lines[n - 1]) then Some(n - 1)
    else LastErrorIndex(lines, n - 1)
  }

  /** An error line keeps its marker once stripped, so its stripped form is never empty. */
  lemma StrippedErrorLine(line: string)
    requires IsErrorLine(line)
    ensures IsErrorLine(Strip(line)) && Strip(line) != ""
  {
    if Contains(line, "[ERROR]") {
      StripKeepsContained(line, "[ERROR]");
    } else {
      StripKeepsContained(line, "[FATAL]");
    }
  }

  /** `extract_last_error_line`: the last error line of the log, stripped, or `""`. */
  function ExtractLastErrorLine(log: string): (r: string)
    ensures r == "" <==> forall i :: 0 <= i < |SplitLines(log)| ==> !IsErrorLine(SplitLines(log)[i])
    ensures r != "" ==> IsErrorLine(r) && Trimmed(r)
    ensures r != "" ==> exists i :: (0 <= i < |SplitLines(log)| && r == Strip(SplitLines(log)[i])
      && forall j :: i < j < |SplitLines(log)| ==> !IsErrorLine(SplitLines(log)[j]))
  {
    var lines := SplitLines(log);
    match LastErrorIndex(lines, |lines|)
    case None => ""
    case Some(i) =>
      StrippedErrorLine(lines[i]);
      Strip(lines[i])
  }

  // ---------------------------------------------------------------------------
  // categorize_error
  // ---------------------------------------------------------------------------

  /** The values of `error_category`. */
  datatype ErrorCategory =
    | Timeout | NoGithubLink | CloneFailed | ParserTypeError | MissingDependency
    | InstallFailed | VenvFailed | DemoGenFailed | NetworkError | OtherError | Unknown
    | BatchRunnerError

  /** The outcome of each test of `categorize_error`, on the lower-cased log and error line. */
  datatype Signals = Signals(
    timeout: bool, noLink: bool, cloneFailed: bool, typeError: bool, missingModule: bool,
    pipInstall: bool, venv: bool, demoGen: bool, network: bool, hasErrorLine: bool)

  function SignalsOf(log: string, errorLine: string): Signals {
    var logLower := Lower(log);
    var errorLower := Lower(errorLine);
    Signals(
      Contains(logLower, "timeout") || Contains(errorLower, "timeout"),
      Contains(logLower, "no github link found"),
      Contains(logLower, "git clone failed"),
      Contains(logLower, "typeerror") && Contains(logLower, "list"),
      Contains(logLower, "modulenotfounderror") || Contains(logLower, "importerror"),
      Contains(errorLower, "pip install"),
      Contains(errorLower, "virtual environment"),
      Contains(logLower, "demo generation failed"),
      Contains(errorLower, "network") || Contains(errorLower, "connection"),
      errorLine != "")
  }

  /** The chain of `categorize_error` over the outcomes of its tests. */
  function Decide(s: Signals): ErrorCategory {
    if s.timeout then Timeout
    else if s.noLink then NoGithubLink
    else if s.cloneFailed then CloneFailed
    else if s.typeError then ParserTypeError
    else if s.missingModule then MissingDependency
    else if s.pipInstall then InstallFailed
    else if s.venv then VenvFailed
    else if s.demoGen then DemoGenFailed
    else if s.network then NetworkError
    else if s.hasErrorLine then OtherError
    else Unknown
  }

  /** `categorize_error`. */
  function CategorizeError(log: string, errorLine: string): ErrorCategory {
    Decide(SignalsOf(log, errorLine))
  }

  /** The test that selects a category, when no earlier test held. */
  predicate Fires(c: ErrorCategory, s: Signals) {
    match c
    case Timeout => s.timeout
    case NoGithubLink => s.noLink
    case CloneFailed => s.cloneFailed
    case ParserTypeError => s.typeError
    case MissingDependency => s.missingModule
    case InstallFailed => s.pipInstall
    case VenvFailed => s.venv
    case DemoGenFailed => s.demoGen
    case NetworkError => s.network
    case OtherError => s.hasErrorLine
    case Unknown => true
    case BatchRunnerError => false
  }

  /** The categories in the order the chain checks them. */
  const PRIORITY: seq<ErrorCategory> := [Timeout, NoGithubLink, CloneFailed, ParserTypeError,
    MissingDependency, InstallFailed, VenvFailed, DemoGenFailed, NetworkError, OtherError, Unknown]

  /** The first category of `cats` whose test holds. */
  function FirstFiring(cats: seq<ErrorCategory>, s: Signals): (r: Option<nat>)
    ensures r.Some? ==> r.value < |cats| && Fires(cats[r.value], s)
    ensures r.Some? ==> forall i :: 0 <= i < r.value ==> !Fires(cats[i], s)
    ensures r.None? <==> forall i :: 0 <= i < |cats| ==> !Fires(cats[i], s)
  {
    if |cats| == 0 then None
    else if Fires(cats[0], s) then Some(0)
    else
      assert forall i :: 1 <= i < |cats| ==> cats[i] == cats[1..][i - 1];
      match FirstFiring(cats[1..], s)
      case None => None
      case Some(i) => Some(i + 1)
  }

  /**
   The chain is the first-match rule over the priority list: a category is
   chosen exactly when its test holds and no earlier test does.
   */
  lemma CategorizeIsFirstMatch(s: Signals)
    ensures FirstFiring(PRIORITY, s).Some?
    ensures PRIORITY[FirstFiring(PRIORITY, s).value] == Decide(s)
  {
    var r := FirstFiring(PRIORITY, s);
    assert PRIORITY[0] == Timeout && PRIORITY[1] == NoGithubLink && PRIORITY[2] == CloneFailed
      && PRIORITY[3] == ParserTypeError && PRIORITY[4] == MissingDependency && PRIORITY[5] == InstallFailed
      && PRIORITY[6] == VenvFailed && PRIORITY[7] == DemoGenFailed && PRIORITY[8] == NetworkError
      && PRIORITY[9] == OtherError && PRIORITY[10] == Unknown;
    assert Fires(PRIORITY[10], s);
    var k := r.value;
    assert forall i :: 0 <= i < k ==> !Fires(PRIORITY[i], s);
    assert Fires(PRIORITY[k], s);
  }

  /** `timeout` anywhere in the lower-cased log or error line decides the category, whatever else they hold. */
  lemma TimeoutDominates(log: string, errorLine: string)
    requires Contains(Lower(log), "timeout") || Contains(Lower(errorLine), "timeout")
    ensures CategorizeError(log, errorLine) == Timeout
  {
  }

  /** The result is `UNKNOWN` exactly when none of the ten tests before it held, the error line being empty. */
  lemma UnknownIff(s: Signals)
    ensures Decide(s) == Unknown <==> forall i :: 0 <= i < 10 ==> !Fires(PRIORITY[i], s)
    ensures Decide(s) == Unknown ==> !s.hasErrorLine
  {
    assert PRIORITY[0] == Timeout && PRIORITY[1] == NoGithubLink && PRIORITY[2] == CloneFailed
      && PRIORITY[3] == ParserTypeError && PRIORITY[4] == MissingDependency && PRIORITY[5] == InstallFailed
      && PRIORITY[6] == VenvFailed && PRIORITY[7] == DemoGenFailed && PRIORITY[8] == NetworkError
      && PRIORITY[9] == OtherError && PRIORITY[10] == Unknown;
  }

  /** Only the lower-cased error line, not its case, feeds the three error-line tests. */
  lemma ErrorLineCaseIgnored(log: string, e1: string, e2: string)
    requires Lower(e1) == Lower(e2) && (e1 == "" <==> e2 == "")
    ensures CategorizeError(log, e1) == CategorizeError(log, e2)
  {
  }

  /** The install, venv and network tests read only the error line: a log mentioning `pip install` does not make `INSTALL_FAILED`. */
  lemma InstallFailedNeedsErrorLine(log: string)
    ensures CategorizeError(log, "") != InstallFailed
    ensures CategorizeError(log, "") != VenvFailed
    ensures CategorizeError(log, "") != NetworkError
    ensures CategorizeError(log, "") != OtherError
  {
    assert Lower("") == "";
  }

  /** A run of the pipeline never gets the category reserved for rows whose run crashed the runner. */
  lemma NeverBatchRunnerError(log: string, errorLine: string)
    ensures CategorizeError(log, errorLine) != BatchRunnerError
  {
  }

  // ---------------------------------------------------------------------------
  // get_venv_python
  // ---------------------------------------------------------------------------

  /** `get_venv_python`: the interpreter inside `tmp/.venv_repro` under the project root. */
  function GetVenvPython(root: Path, platform: string): (r: Path)
    ensures r == VenvCreate.VenvPythonExecutable(VenvDir(root), platform)
    ensures r[..|root| + 2] == VenvDir(root)
  {
    if StartsWith(platform, "win") then VenvDir(root) + ["Scripts", "python.exe"]
    else VenvDir(root) + ["bin", "python"]
  }

  // ---------------------------------------------------------------------------
  // extract_repo_name
  // ---------------------------------------------------------------------------

  /** The literal text the search pattern starts with. */
  const CLONED_PHRASE: string := "Repository successfully cloned into: "

  /** The largest `k` with `1 <= k < n` and `seg[k]` whitespace: where the greedy group backs off to. */
  function LastSpaceBefore(seg: string, n: nat): (r: Option<nat>)
    requires n <= |seg|
    ensures r.None? <==> forall k :: 1 <= k < n ==> !IsSpace(seg[k])
    ensures r.Some? ==> 1 <= r.value < n && IsSpace(seg[r.value])
    ensures r.Some? ==> forall k :: r.value < k < n ==> !IsSpace(seg[k])
  {
    if n <= 1 then None
    else if IsSpace(seg[n - 1]) then Some(n - 1)
    else LastSpaceBefore(seg, n - 1)
  }

  /**
   `([^/\n]+)(?:\s|$)` matched at the start of `seg`, the rest of a line after a
   slash: the longest run of characters other than `/` (and newline) that ends
   at the end of the line or right before a whitespace character.
   */
  function GroupAfter(seg: string): (r: Option<string>)
    requires '\n' !in seg
    ensures r.Some? ==> r.value != [] && StartsWith(seg, r.value) && '/' !in r.value
    ensures r.Some? ==> |r.value| == |seg| || IsSpace(seg[|r.value|])
    ensures r.Some? ==> forall m :: |r.value| < m <= Span(NoSlash, seg) ==> m < |seg| && !IsSpace(seg[m])
    ensures r.None? <==> (Span(NoSlash, seg) == 0
      || (Span(NoSlash, seg) < |seg| && forall k :: 1 <= k < Span(NoSlash, seg) ==> !IsSpace(seg[k])))
  {
    var n := Span(NoSlash, seg);
    if n == 0 then None
    else if n == |seg| then
      assert forall k :: 0 <= k < |seg| ==> seg[k] != '/';
      Some(seg)
    else match LastSpaceBefore(seg, n)
      case None => None
      case Some(k) =>
        assert forall j :: 0 <= j < k ==> seg[..k][j] == seg[j];
        Some(seg[..k])
  }

  /** Whether the group matches right after a slash at position `i` of the line. */
  predicate SlashMatchesAt(line: string, i: int)
    requires '\n' !in line
  {
    0 <= i < |line| && line[i] == '/' && GroupAfter(line[i + 1..]).Some?
  }

  /** Position `i` holds the first slash of the line after which the group matches. */
  predicate FirstSlashMatch(line: string, i: int)
    requires '\n' !in line
  {
    SlashMatchesAt(line, i) && forall j :: 0 <= j < i ==> !SlashMatchesAt(line, j)
  }

  /**
   `.*?/` followed by the group: the lazy `.*?` stops at the first slash of the
   line after which the group matches, and that slash's group is the match.
   */
  function MatchInLine(line: string): (r: Option<string>)
    requires '\n' !in line
    ensures r.Some? ==> r.value != [] && '/' !in r.value
    ensures r.None? <==> forall i :: 0 <= i < |line| ==> !SlashMatchesAt(line, i)
    ensures r.Some? ==> exists i {:trigger FirstSlashMatch(line, i)} ::
      FirstSlashMatch(line, i) && r == GroupAfter(line[i + 1..])
    decreases |line|
  {
    if |line| == 0 then None
    else if line[0] == '/' && GroupAfter(line[1..]).Some? then
      assert FirstSlashMatch(line, 0);
      GroupAfter(line[1..])
    else
      var r := MatchInLine(line[1..]);
      assert !SlashMatchesAt(line, 0);
      ShiftSlashMatches(line);
      assert r.None? ==> forall i :: 0 <= i < |line| ==> !SlashMatchesAt(line, i) by {
        if r.None? {
          forall i | 0 <= i < |line| ensures !SlashMatchesAt(line, i) {
            if i > 0 { assert !SlashMatchesAt(line[1..], i - 1); }
          }
        }
      }
      assert r.Some? ==> exists i {:trigger FirstSlashMatch(line, i)} ::
        FirstSlashMatch(line, i) && r == GroupAfter(line[i + 1..]) by {
        if r.Some? {
          var i :| FirstSlashMatch(line[1..], i) && r == GroupAfter(line[1..][i + 1..]);
          FirstSlashShift(line, i);
        }
      }
      r
  }

  /** When the line does not match at its first character, its tail's first matching slash is the line's, one position later. */
  lemma FirstSlashShift(line: string, i: int)
    requires '\n' !in line && |line| > 0 && !SlashMatchesAt(line, 0)
    requires FirstSlashMatch(line[1..], i)
    ensures FirstSlashMatch(line, i + 1) && line[1..][i + 1..] == line[i + 2..]
  {
    ShiftSlashMatches(line);
    forall j | 0 <= j < i + 1 ensures !SlashMatchesAt(line, j) {
      if j > 0 { assert !SlashMatchesAt(line[1..], j - 1); }
    }
    assert line[1..][i + 1..] == line[i + 2..];
  }

  /** Past the first character, the slashes of a line are those of its tail, one position later. */
  lemma ShiftSlashMatches(line: string)
    requires '\n' !in line && |line| > 0
    ensures forall i :: 0 <= i < |line| - 1 ==> (SlashMatchesAt(line, i + 1) <==> SlashMatchesAt(line[1..], i))
  {
    forall i | 0 <= i < |line| - 1
      ensures SlashMatchesAt(line, i + 1) <==> SlashMatchesAt(line[1..], i)
    {
      assert line[1..][i + 1..] == line[i + 2..];
    }
  }

  /** The rest of the line `s` starts: everything before the first newline. */
  function LineOf(s: string): (r: string)
    ensures '\n' !in r && StartsWith(s, r)
  {
    match IndexOf(s, '\n')
    case None => s
    case Some(i) => s[..i]
  }

  /** The group the pattern captures when the search tries position `p`, if the pattern matches there. */
  function MatchAt(log: string, p: nat): Option<string>
    requires p <= |log|
  {
    if StartsWith(log[p..], CLONED_PHRASE) then MatchInLine(LineOf(log[p + |CLONED_PHRASE|..])) else None
  }

  /** Position `p` is the leftmost position of the log at which the pattern matches. */
  predicate LeftmostMatch(log: string, p: int) {
    0 <= p < |log| && MatchAt(log, p).Some? && forall q :: 0 <= q < p ==> MatchAt(log, q).None?
  }

  /**
   `re.search`: the positions of the log are tried from the left, and the first
   one at which the pattern matches supplies the group.
   */
  function SearchClone(log: string): (r: Option<string>)
    ensures r.None? <==> forall p :: 0 <= p < |log| ==> MatchAt(log, p).None?
    ensures r.Some? ==> exists p {:trigger LeftmostMatch(log, p)} :: LeftmostMatch(log, p) && MatchAt(log, p) == r
    decreases |log|
  {
    if |log| == 0 then None
    else if StartsWith(log, CLONED_PHRASE) && MatchInLine(LineOf(log[|CLONED_PHRASE|..])).Some? then
      assert log[0..] == log;
      assert LeftmostMatch(log, 0);
      MatchInLine(LineOf(log[|CLONED_PHRASE|..]))
    else
      var r := SearchClone(log[1..]);
      assert log[0..] == log;
      assert MatchAt(log, 0).None?;
      assert r.None? ==> forall p :: 0 <= p < |log| ==> MatchAt(log, p).None? by {
        if r.None? {
          forall p | 0 <= p < |log| ensures MatchAt(log, p).None? {
            if p > 0 {
              ShiftMatchAt(log, p - 1);
              assert MatchAt(log[1..], p - 1).None?;
            }
          }
        }
      }
      assert r.Some? ==> exists p {:trigger LeftmostMatch(log, p)} :: LeftmostMatch(log, p) && MatchAt(log, p) == r by {
        if r.Some? {
          var p :| LeftmostMatch(log[1..], p) && MatchAt(log[1..], p) == r;
          LeftmostShift(log, p);
        }
      }
      r
  }

  /** When the pattern does not match at the first position, the tail's leftmost match is the log's, one position later. */
  lemma LeftmostShift(log: string, p: int)
    requires |log| > 0 && MatchAt(log, 0).None?
    requires LeftmostMatch(log[1..], p)
    ensures LeftmostMatch(log, p + 1) && MatchAt(log, p + 1) == MatchAt(log[1..], p)
  {
    forall q | 0 <= q < p + 1 ensures MatchAt(log, q).None? {
      if q > 0 {
        ShiftMatchAt(log, q - 1);
        assert MatchAt(log[1..], q - 1).None?;
      }
    }
    ShiftMatchAt(log, p);
  }

  /** Past the first position, the search positions of a log are those of its tail, one position later. */
  lemma ShiftMatchAt(log: string, p: nat)
    requires p < |log| - 1
    ensures MatchAt(log, p + 1) == MatchAt(log[1..], p)
  {
    assert log[1..][p..] == log[p + 1..];
    if StartsWith(log[p + 1..], CLONED_PHRASE) {
      assert log[1..][p + |CLONED_PHRASE|..] == log[p + 1 + |CLONED_PHRASE|..];
    }
  }

  /** `extract_repo_name`: the stripped group, unless it is `repo` or holds `---`. */
  function ExtractRepoName(log: string): (r: Option<string>)
    ensures r.Some? ==> r.value != "repo" && !Contains(r.value, "---") && Trimmed(r.value)
    ensures r.Some? <==> (SearchClone(log).Some? && Strip(SearchClone(log).value) != "repo"
      && !Contains(Strip(SearchClone(log).value), "---"))
    ensures r.Some? ==> r.value == Strip(SearchClone(log).value)
  {
    match SearchClone(log)
    case None => None
    case Some(g) =>
      var name := Strip(g);
      if name != "repo" && !Contains(name, "---") then Some(name) else None
  }

  /** A clean path component: non-empty, without slash, newline or whitespace. */
  predicate CleanPart(p: string) {
    p != [] && forall i :: 0 <= i < |p| ==> p[i] != '/' && p[i] != '\n' && !IsSpace(p[i])
  }

  /** Text without a slash is passed over by the lazy `.*?`. */
  lemma {:induction false} MatchSkipsSlashFree(a: string, s: string)
    requires '/' !in a && '\n' !in a && '\n' !in s
    ensures MatchInLine(a + s) == MatchInLine(s)
    decreases |a|
  {
    if |a| > 0 {
      assert (a + s)[0] == a[0] && (a + s)[1..] == a[1..] + s;
      MatchSkipsSlashFree(a[1..], s);
    } else {
      assert a + s == s;
    }
  }

  /** A clean part followed by a slash cannot be the group: nothing to back off to. */
  lemma GroupRejectsInnerPart(p: string, rest: string)
    requires CleanPart(p) && '\n' !in rest
    ensures GroupAfter(p + "/" + rest).None?
  {
    var seg := p + "/" + rest;
    assert seg == p + ("/" + rest);
    SpanExact(NoSlash, p, "/" + rest);
    assert forall k :: 1 <= k < |p| ==> seg[k] == p[k];
  }

  /** For a path of clean parts, the match is the last part. */
  lemma {:induction false} LastSegment(parts: seq<string>)
    requires |parts| >= 1 && forall i :: 0 <= i < |parts| ==> CleanPart(parts[i])
    ensures '\n' !in "/" + Join(parts, '/')
    ensures MatchInLine("/" + Join(parts, '/')) == Some(parts[|parts| - 1])
    decreases |parts|
  {
    JoinClean(parts);
    if |parts| == 1 {
      MatchSinglePart(parts[0]);
    } else {
      var tail := parts[1..];
      assert tail[|tail| - 1] == parts[|parts| - 1];
      var j := Join(tail, '/');
      assert forall i :: 0 <= i < |tail| ==> CleanPart(tail[i]) by {
        forall i | 0 <= i < |tail| ensures CleanPart(tail[i]) {
          assert tail[i] == parts[i + 1];
        }
      }
      JoinClean(tail);
      assert "/" + Join(parts, '/') == "/" + (parts[0] + "/" + j);
      MatchPassesPart(parts[0], j);
      LastSegment(tail);
    }
  }

  /** A single clean part after a slash is the group. */
  lemma MatchSinglePart(p: string)
    requires CleanPart(p)
    ensures MatchInLine("/" + p) == Some(p)
  {
    assert ("/" + p)[1..] == p;
    SpanExact(NoSlash, p, []);
    assert p + [] == p;
  }

  /** The match passes over a clean part and the slash after it. */
  lemma MatchPassesPart(p: string, j: string)
    requires CleanPart(p) && '\n' !in j
    ensures '\n' !in "/" + (p + "/" + j)
    ensures MatchInLine("/" + (p + "/" + j)) == MatchInLine("/" + j)
  {
    var line := "/" + (p + "/" + j);
    assert line[1..] == p + "/" + j;
    GroupRejectsInnerPart(p, j);
    assert p + "/" + j == p + ("/" + j);
    MatchSkipsSlashFree(p, "/" + j);
  }

  /** Joining clean parts gives a line without newline. */
  lemma {:induction false} JoinClean(parts: seq<string>)
    requires forall i :: 0 <= i < |parts| ==> CleanPart(parts[i])
    ensures '\n' !in Join(parts, '/')
    decreases |parts|
  {
    if |parts| > 1 {
      JoinClean(parts[1..]);
    }
  }

  /** The search passes over text in which the phrase does not start. */
  lemma {:induction false} SearchSkips(pre: string, s: string)
    requires forall i :: 0 <= i < |pre| ==> !StartsWith((pre + s)[i..], CLONED_PHRASE)
    ensures SearchClone(pre + s) == SearchClone(s)
    decreases |pre|
  {
    if |pre| > 0 {
      var t := pre + s;
      assert !StartsWith(t[0..], CLONED_PHRASE) && t[0..] == t;
      assert t[1..] == pre[1..] + s;
      forall i | 0 <= i < |pre[1..]| ensures !StartsWith((pre[1..] + s)[i..], CLONED_PHRASE) {
        assert (pre[1..] + s)[i..] == t[i + 1..];
      }
      SearchSkips(pre[1..], s);
    } else {
      assert pre + s == s;
    }
  }

  /** At the phrase, a line that matches gives its group at once. */
  lemma SearchAtPhrase(line: string, tail: string)
    requires '\n' !in line && MatchInLine(line).Some?
    ensures SearchClone(CLONED_PHRASE + line + "\n" + tail) == MatchInLine(line)
  {
    PhraseThenLine(CLONED_PHRASE, line, tail);
  }

  /** Text made of a phrase, a line and a newline starts with the phrase, and the line follows it. */
  lemma PhraseThenLine(phrase: string, line: string, tail: string)
    requires '\n' !in line
    ensures StartsWith(phrase + line + "\n" + tail, phrase)
    ensures LineOf((phrase + line + "\n" + tail)[|phrase|..]) == line
  {
    var s := phrase + line + "\n" + tail;
    assert s[..|phrase|] == phrase;
    var after := s[|phrase|..];
    assert after == line + ("\n" + tail);
    assert after[|line|] == '\n' && after[..|line|] == line;
    assert IndexOf(after, '\n') == Some(|line|);
  }

  lemma CleanRepo()
    ensures CleanPart("repo")
  {
    assert forall i :: 0 <= i < 4 ==> "repo"[i] in "repo";
  }

  lemma StripRepo()
    ensures Strip("repo") == "repo"
  {
    assert [] + "repo" + [] == "repo";
    StripOfPadded([], "repo", []);
  }

  /** The clone directory's line matches with the group `repo`. */
  lemma RepoLine(dirs: seq<string>)
    requires forall i :: 0 <= i < |dirs| ==> CleanPart(dirs[i])
    ensures '\n' !in "/" + Join(dirs + ["repo"], '/')
    ensures MatchInLine("/" + Join(dirs + ["repo"], '/')) == Some("repo")
  {
    var parts := dirs + ["repo"];
    CleanRepo();
    assert forall i :: 0 <= i < |parts| ==> parts[i] == if i < |dirs| then dirs[i] else "repo";
    LastSegment(parts);
    assert parts[|parts| - 1] == "repo";
  }

  /**
   The pipeline's own success line names the clone directory, which always ends
   in `repo`: when that line holds the first occurrence of the phrase and the
   directory path is made of clean parts, no repository name is extracted.
   */
  lemma ClonedIntoRepoGivesNone(pre: string, dirs: seq<string>, tail: string)
    requires forall i :: 0 <= i < |dirs| ==> CleanPart(dirs[i])
    requires forall i :: 0 <= i < |pre| ==> !StartsWith((pre + (CLONED_PHRASE + ("/" + Join(dirs + ["repo"], '/')) + "\n" + tail))[i..], CLONED_PHRASE)
    ensures ExtractRepoName(pre + (CLONED_PHRASE + ("/" + Join(dirs + ["repo"], '/')) + "\n" + tail)) == None
  {
    var line := "/" + Join(dirs + ["repo"], '/');
    RepoLine(dirs);
    SearchSkips(pre, CLONED_PHRASE + line + "\n" + tail);
    SearchAtPhrase(line, tail);
    StripRepo();
  }

  // ---------------------------------------------------------------------------
  // run_generated_demo
  // ---------------------------------------------------------------------------

  /** The values of `demo_error_type`; `NoType` is the empty string of a demo that did not fail. */
  datatype DemoErrorType = NoType | MissingModule | ImportErr | DemoTimeout | RuntimeErr | DemoUnknown

  /** The failure text the demo is judged on: its stripped error output, or else its stripped output. */
  function DemoSummary(c: Completed): (r: string)
    ensures Trimmed(r)
    ensures Strip(c.stderr) != "" ==> r == Strip(c.stderr)
    ensures Strip(c.stderr) == "" ==> r == Strip(c.stdout)
  {
    var err := Strip(c.stderr);
    if err != "" then err else Strip(c.stdout)
  }

  /** The classification chain of a failed demo's summary. */
  function ClassifyDemoError(summary: string): (r: DemoErrorType)
    ensures r != NoType
    ensures r == MissingModule <==> Contains(summary, "ModuleNotFoundError")
    ensures r == ImportErr <==> !Contains(summary, "ModuleNotFoundError") && Contains(summary, "ImportError")
    ensures r == DemoTimeout <==>
      !Contains(summary, "ModuleNotFoundError") && !Contains(summary, "ImportError") && Contains(summary, "TIMEOUT")
    ensures r == DemoUnknown <==> summary == ""
  {
    if Contains(summary, "ModuleNotFoundError") then MissingModule
    else if Contains(summary, "ImportError") then ImportErr
    else if Contains(summary, "TIMEOUT") then DemoTimeout
    else if summary != "" then RuntimeErr
    else DemoUnknown
  }

  const TRUNCATION_MARK: string := "... [truncated]"

  /** A summary longer than 500 characters keeps its first 500 and gets the truncation mark. */
  function Truncate(summary: string): (r: string)
    ensures |summary| <= 500 ==> r == summary
    ensures |summary| > 500 ==> (|r| == 500 + |TRUNCATION_MARK| && r[..500] == summary[..500]
      && r[500..] == TRUNCATION_MARK)
    ensures |r| <= 500 + |TRUNCATION_MARK|
  {
    if |summary| > 500 then summary[..500] + TRUNCATION_MARK else summary
  }

  /** The `demo_*` fields of a row. */
  datatype DemoRecord = DemoRecord(
    exists_: bool, venvPythonExists: bool, rc: Option<int>, ok: bool, timedOut: bool,
    summary: string, errorType: DemoErrorType)

  /** The demo fields of a row whose pipeline failed or crashed: nothing was looked at or run. */
  const NO_DEMO: DemoRecord := DemoRecord(false, false, None, false, false, "", NoType)

  /**
   `run_generated_demo`: nothing is run unless both the demo file and the venv
   interpreter exist; a run that does not exit 0 gets a classified, truncated
   summary.  An exception from the run leaves the function.
   */
  function RunGeneratedDemo(demoExists: bool, venvPythonExists: bool, o: ProcOutcome): (r: Result<DemoRecord, ErrKind>)
    ensures !demoExists ==> r == Ok(DemoRecord(false, venvPythonExists, None, false, false, "", NoType))
    ensures demoExists && !venvPythonExists ==> r == Ok(DemoRecord(true, false, None, false, false, "", NoType))
    ensures demoExists && venvPythonExists ==> (r.Err? <==> o.ExeNotFound? || o.Crashed? || DecodeFails(o))
    ensures r.Ok? ==> r.value.exists_ == demoExists && r.value.venvPythonExists == venvPythonExists
    ensures r.Ok? && r.value.rc.Some? ==> (r.value.ok <==> r.value.rc.value == 0)
    ensures r.Ok? && r.value.rc.Some? ==> (r.value.timedOut <==> r.value.rc.value == -1)
    ensures r.Ok? && r.value.ok ==> demoExists && venvPythonExists && o.Exited? && o.code == 0
    ensures r.Ok? && r.value.ok ==> r.value.errorType == NoType && r.value.summary == ""
    ensures r.Ok? && r.value.rc.Some? && !r.value.ok ==> r.value.errorType != NoType
    ensures r.Ok? ==> |r.value.summary| <= 500 + |TRUNCATION_MARK|
    ensures demoExists && venvPythonExists && RunSubprocess(Some(DEMO_TIMEOUT), o).Err? ==>
      r == Err(RunSubprocess(Some(DEMO_TIMEOUT), o).error)
    ensures demoExists && venvPythonExists && RunSubprocess(Some(DEMO_TIMEOUT), o).Ok? ==>
      var c := RunSubprocess(Some(DEMO_TIMEOUT), o).value;
      && r.Ok? && r.value.rc == Some(c.rc)
      && (c.rc != 0 ==> (r.value.errorType == ClassifyDemoError(DemoSummary(c))
                         && r.value.summary == Truncate(DemoSummary(c))))
  {
    if !demoExists then Ok(DemoRecord(false, venvPythonExists, None, false, false, "", NoType))
    else if !venvPythonExists then Ok(DemoRecord(true, false, None, false, false, "", NoType))
    else match RunSubprocess(Some(DEMO_TIMEOUT), o)
      case Err(k) => Err(k)
      case Ok(c) =>
        if c.rc == 0 then Ok(DemoRecord(true, true, Some(0), true, false, "", NoType))
        else
          var summary := DemoSummary(c);
          Ok(DemoRecord(true, true, Some(c.rc), false, c.rc == -1, Truncate(summary), ClassifyDemoError(summary)))
  }

  /** The word `TIMEOUT` at the start of the error output survives stripping and makes that the summary. */
  lemma TimedOutSummary(o: ProcOutcome)
    requires o.TimedOut? && RunSubprocess(Some(DEMO_TIMEOUT), o).Ok?
    ensures Contains(DemoSummary(RunSubprocess(Some(DEMO_TIMEOUT), o).value), "TIMEOUT")
  {
    var c := RunSubprocess(Some(DEMO_TIMEOUT), o).value;
    TimeoutMarked(Some(DEMO_TIMEOUT), o);
    assert Trimmed("TIMEOUT");
    StripKeepsContained(c.stderr, "TIMEOUT");
  }

  /**
   A timed-out demo whose captured output decodes is a failed demo marked as
   timed out, of type missing module, import error or timeout; one whose
   captured output does not decode makes `run_generated_demo` raise.
   */
  lemma DemoTimeoutClassified(o: ProcOutcome)
    requires o.TimedOut?
    ensures var r := RunGeneratedDemo(true, true, o);
      !DecodeFails(o) ==>
        (r.Ok? && !r.value.ok && r.value.timedOut && r.value.rc == Some(-1)
         && r.value.errorType in {MissingModule, ImportErr, DemoTimeout})
    ensures DecodeFails(o) ==> RunGeneratedDemo(true, true, o) == Err(NonOSErr)
  {
    if !DecodeFails(o) {
      TimedOutSummary(o);
    }
  }

  // ---------------------------------------------------------------------------
  // run_main_for_url
  // ---------------------------------------------------------------------------

  /** The `pipeline_*` and log-derived fields of a row. */
  datatype MainRecord = MainRecord(
    url: string, index: nat, rc: int, ok: bool, timedOut: bool, lastStep: nat,
    lastStepName: string, error: string, category: ErrorCategory, repoName: string)

  /** The log file holds the pipeline's output, a newline, and its error output. */
  function CombinedLog(c: Completed): string {
    c.stdout + "\n" + c.stderr
  }

  /**
   `run_main_for_url`: runs the pipeline with the pipeline timeout, writes the
   combined log (`logWritten` is false when that write raises) and reads the
   row's fields back from it.
   */
  function RunMainForUrl(url: string, index: nat, o: ProcOutcome, logWritten: bool): (r: Result<MainRecord, ErrKind>)
    ensures r.Err? <==> o.ExeNotFound? || o.Crashed? || DecodeFails(o) || !logWritten
    ensures r.Ok? ==> r.value.url == url && r.value.index == index
    ensures r.Ok? ==> r.value.lastStep <= 7 && r.value.lastStepName == STEP_NAMES[r.value.lastStep]
    ensures r.Ok? ==> (r.value.ok <==> o.Exited? && o.code == 0)
    ensures r.Ok? ==> r.value.category != BatchRunnerError
    ensures r.Ok? && r.value.error != "" ==> IsErrorLine(r.value.error)
    ensures r.Ok? ==> RunSubprocess(Some(PIPELINE_TIMEOUT), o).Ok?
    ensures r.Ok? && RunSubprocess(Some(PIPELINE_TIMEOUT), o).Ok? ==>
      var log := CombinedLog(RunSubprocess(Some(PIPELINE_TIMEOUT), o).value);
      && r.value.rc == RunSubprocess(Some(PIPELINE_TIMEOUT), o).value.rc
      && r.value.lastStep == DetectLastStep(log)
      && r.value.error == ExtractLastErrorLine(log)
      && r.value.category == CategorizeError(log, r.value.error)
      && r.value.timedOut == Contains(log, "TIMEOUT")
      && r.value.repoName == (if ExtractRepoName(log).Some? then ExtractRepoName(log).value else "")
  {
    match RunSubprocess(Some(PIPELINE_TIMEOUT), o)
    case Err(k) => Err(k)
    case Ok(c) =>
      if !logWritten then Err(OtherOSErr)
      else
        var log := CombinedLog(c);
        var step := DetectLastStep(log);
        var errorLine := ExtractLastErrorLine(log);
        var name := ExtractRepoName(log);
        NeverBatchRunnerError(log, errorLine);
        Ok(MainRecord(url, index, c.rc, c.rc == 0, Contains(log, "TIMEOUT"), step, STEP_NAMES[step],
          errorLine, CategorizeError(log, errorLine), if name.Some? then name.value else ""))
  }

  /**
   A pipeline killed by the timeout has return code -1, fails, is marked timed
   out and is categorised `TIMEOUT`, provided its captured output decodes;
   otherwise `run_subprocess` raises and no row is read from the log.
   */
  lemma PipelineTimeoutRow(url: string, index: nat, o: ProcOutcome)
    requires o.TimedOut?
    ensures var r := RunMainForUrl(url, index, o, true);
      !DecodeFails(o) ==> r.Ok? && r.value.rc == -1 && !r.value.ok && r.value.timedOut && r.value.category == Timeout
    ensures DecodeFails(o) ==> RunMainForUrl(url, index, o, true) == Err(NonOSErr)
  {
    if RunSubprocess(Some(PIPELINE_TIMEOUT), o).Err? {
      return;
    }
    var c := RunSubprocess(Some(PIPELINE_TIMEOUT), o).value;
    TimeoutMarked(Some(PIPELINE_TIMEOUT), o);
    ContainsExtend(c.stdout + "\n", c.stderr, "", "TIMEOUT");
    assert c.stdout + "\n" + c.stderr + "" == CombinedLog(c);
    ContainsLower(CombinedLog(c), "TIMEOUT");
    LowerTimeout();
  }

  // ---------------------------------------------------------------------------
  // The batch loop of main
  // ---------------------------------------------------------------------------

  /** One row of the results: the pipeline's fields merged with the demo's. */
  datatype Row = Row(main: MainRecord, demo: DemoRecord)

  /** The row recorded when processing a URL raised: return code -999, step 0, `CRASH`. */
  function CrashRow(url: string, index: nat, message: string): Row {
    Row(MainRecord(url, index, -999, false, false, 0, "CRASH", message, BatchRunnerError, ""), NO_DEMO)
  }

  /** `CRASH` is no step's name, so the crash row is recognisable by its step name. */
  lemma CrashIsNoStepName()
    ensures forall k :: k in STEP_NAMES ==> STEP_NAMES[k] != "CRASH"
  {
    StepNamesDomain();
    forall k | k in STEP_NAMES ensures STEP_NAMES[k] != "CRASH" {
      assert |STEP_NAMES[k]| > |"CRASH"|;
    }
  }

  /** What the outside world does while one URL is processed. */
  datatype UrlWorld = UrlWorld(
    pipeline: ProcOutcome, logWritten: bool,
    demoExists: bool, venvPythonExists: bool, demo: ProcOutcome,
    crashMessage: string)

  /** A demo only runs for a pipeline that succeeded, and only succeeds where it exists. */
  predicate Consistent(row: Row) {
    && (row.demo.ok ==> row.demo.exists_ && row.demo.venvPythonExists)
    && (row.demo.exists_ ==> row.main.ok)
    && (row.main.category == BatchRunnerError ==> !row.main.ok && row.main.rc == -999)
    && row.main.lastStep <= 7
  }

  /** The body of the loop for one URL (1-based `index`), exceptions turned into the crash row. */
  function ProcessUrl(url: string, index: nat, w: UrlWorld): (row: Row)
    ensures Consistent(row)
    ensures row.main.url == url && row.main.index == index
    ensures row.main.ok <==> (w.pipeline.Exited? && w.pipeline.code == 0 && w.logWritten
      && RunGeneratedDemo(w.demoExists, w.venvPythonExists, w.demo).Ok?)
    ensures !row.main.ok ==> row.demo == NO_DEMO
    ensures row.main.category == BatchRunnerError <==> row.main.rc == -999 && row.main.lastStepName == "CRASH"
    ensures RunMainForUrl(url, index, w.pipeline, w.logWritten).Err? ==> row == CrashRow(url, index, w.crashMessage)
    ensures RunMainForUrl(url, index, w.pipeline, w.logWritten).Ok? ==>
      var m := RunMainForUrl(url, index, w.pipeline, w.logWritten).value;
      var d := RunGeneratedDemo(w.demoExists, w.venvPythonExists, w.demo);
      && (!m.ok ==> row == Row(m, NO_DEMO))
      && (m.ok && d.Ok? ==> row == Row(m, d.value))
      && (m.ok && d.Err? ==> row == CrashRow(url, index, w.crashMessage))
  {
    match RunMainForUrl(url, index, w.pipeline, w.logWritten)
    case Err(_) => CrashRow(url, index, w.crashMessage)
    case Ok(m) =>
      CrashIsNoStepName();
      StepNamesDomain();
      assert m.lastStepName != "CRASH";
      if !m.ok then Row(m, NO_DEMO)
      else match RunGeneratedDemo(w.demoExists, w.venvPythonExists, w.demo)
        case Err(_) => CrashRow(url, index, w.crashMessage)
        case Ok(d) => Row(m, d)
  }

  /**
   The crash row is recorded exactly when something raised: the pipeline's run
   or its log write, or the demo's run after a successful pipeline.  Otherwise
   the row is the pipeline's record merged with the demo's.
   */
  lemma CrashRowIffRaised(url: string, index: nat, w: UrlWorld)
    ensures ProcessUrl(url, index, w).main.category == BatchRunnerError <==>
      || RunMainForUrl(url, index, w.pipeline, w.logWritten).Err?
      || (RunMainForUrl(url, index, w.pipeline, w.logWritten).value.ok
          && RunGeneratedDemo(w.demoExists, w.venvPythonExists, w.demo).Err?)
    ensures ProcessUrl(url, index, w).main.category != BatchRunnerError ==>
      ProcessUrl(url, index, w).main == RunMainForUrl(url, index, w.pipeline, w.logWritten).value
  {
  }

  /**
   A pipeline that times out with output that cannot be decoded makes the
   timeout handler itself raise; the loop's handler turns that into the crash row.
   */
  lemma UndecodableTimeoutCrashes(url: string, index: nat, w: UrlWorld)
    requires DecodeFails(w.pipeline)
    ensures ProcessUrl(url, index, w) == CrashRow(url, index, w.crashMessage)
  {
    assert RunSubprocess(Some(PIPELINE_TIMEOUT), w.pipeline) == Err(NonOSErr);
  }

  /**
   `main`'s loop over the URLs, `interruptAt` being the URL during which a
   keyboard interrupt arrives (it ends the loop; the rows so far are still
   reported).  Gives the rows and whether the run was interrupted.
   */
  method BatchMain(urls: seq<string>, worlds: seq<UrlWorld>, interruptAt: Option<nat>)
    returns (rows: seq<Row>, interrupted: bool)
    requires |worlds| == |urls|
    ensures interrupted <==> interruptAt.Some? && interruptAt.value < |urls|
    ensures |rows| == if interrupted then interruptAt.value else |urls|
    ensures forall i :: 0 <= i < |rows| ==> rows[i].main.url == urls[i] && rows[i].main.index == i + 1
    ensures forall i :: 0 <= i < |rows| ==> Consistent(rows[i])
    ensures forall i :: 0 <= i < |rows| ==> rows[i] == ProcessUrl(urls[i], i + 1, worlds[i])
  {
    rows := [];
    var i := 0;
    while i < |urls|
      invariant 0 <= i <= |urls| && |rows| == i
      invariant interruptAt.Some? ==> i <= interruptAt.value
      invariant forall j :: 0 <= j < i ==> rows[j] == ProcessUrl(urls[j], j + 1, worlds[j])
    {
      if interruptAt == Some(i) {
        return rows, true;
      }
      var row := ProcessUrl(urls[i], i + 1, worlds[i]);
      assert forall j :: 0 <= j < i ==> (rows + [row])[j] == rows[j];
      rows := rows + [row];
      i := i + 1;
    }
    return rows, false;
  }

  // ---------------------------------------------------------------------------
  // write_summary_report: the counts
  // ---------------------------------------------------------------------------

  /** A Python dict built by `d[k] = d.get(k, 0) + 1`: keys in first-insertion order with their counts. */
  type Counts<K> = seq<(K, nat)>

  function Lookup<K(==)>(t: Counts<K>, k: K): nat {
    if |t| == 0 then 0 else if t[0].0 == k then t[0].1 else Lookup(t[1..], k)
  }

  predicate DistinctKeys<K(==)>(t: Counts<K>) {
    forall i, j :: 0 <= i < j < |t| ==> t[i].0 != t[j].0
  }

  function Total<K>(t: Counts<K>): nat {
    if |t| == 0 then 0 else t[0].1 + Total(t[1..])
  }

  /** `d[k] = d.get(k, 0) + 1`. */
  function Bump<K(==,!new)>(t: Counts<K>, k: K): (r: Counts<K>)
    ensures Total(r) == Total(t) + 1
    ensures forall j :: Lookup(r, j) == Lookup(t, j) + (if j == k then 1 else 0)
    ensures DistinctKeys(t) ==> DistinctKeys(r)
    ensures forall x :: x in r ==> x.0 == k || x.0 in KeysOf(t)
  {
    if |t| == 0 then [(k, 1)]
    else if t[0].0 == k then
      var r := [(k, t[0].1 + 1)] + t[1..];
      assert KeysOf(t) == [t[0].0] + KeysOf(t[1..]);
      assert r[1..] == t[1..];
      assert DistinctKeys(t) ==> DistinctKeys(r) by {
        if DistinctKeys(t) {
          HeadKeyNotInTail(t);
          DistinctTail(t);
          DistinctCons(r[0], t[1..]);
        }
      }
      r
    else
      var rest := Bump(t[1..], k);
      var r := [t[0]] + rest;
      assert KeysOf(t) == [t[0].0] + KeysOf(t[1..]);
      assert r[1..] == rest;
      assert DistinctKeys(t) ==> DistinctKeys(r) by {
        if DistinctKeys(t) {
          HeadKeyNotInTail(t);
          DistinctTail(t);
          assert forall x :: x in rest ==> x.0 != t[0].0;
          DistinctCons(t[0], rest);
        }
      }
      r
  }

  lemma DistinctTail<K>(t: Counts<K>)
    requires |t| > 0 && DistinctKeys(t)
    ensures DistinctKeys(t[1..])
  {
    assert forall i :: 0 <= i < |t| - 1 ==> t[1..][i] == t[i + 1];
  }

  /** In a dict with distinct keys, the first key does not come back. */
  lemma HeadKeyNotInTail<K>(t: Counts<K>)
    requires |t| > 0 && DistinctKeys(t)
    ensures forall x :: x in t[1..] ==> x.0 != t[0].0
    ensures t[0].0 !in KeysOf(t[1..])
  {
    forall x | x in t[1..] ensures x.0 != t[0].0 {
      var j :| 0 <= j < |t[1..]| && t[1..][j] == x;
      assert t[j + 1] == x;
    }
  }

  lemma DistinctCons<K>(h: (K, nat), rest: Counts<K>)
    requires DistinctKeys(rest) && forall x :: x in rest ==> x.0 != h.0
    ensures DistinctKeys([h] + rest)
  {
    var r := [h] + rest;
    forall i, j | 0 <= i < j < |r| ensures r[i].0 != r[j].0 {
      assert r[j] == rest[j - 1];
      if i > 0 {
        assert r[i] == rest[i - 1];
      } else {
        assert rest[j - 1] in rest;
      }
    }
  }

  function KeysOf<K>(t: Counts<K>): (r: seq<K>)
    ensures |r| == |t| && forall i :: 0 <= i < |t| ==> r[i] == t[i].0
  {
    if |t| == 0 then [] else [t[0].0] + KeysOf(t[1..])
  }

  /** The dict the counting loop builds over `keys`, in order. */
  function Tally<K(==,!new)>(keys: seq<K>): (t: Counts<K>)
    ensures DistinctKeys(t)
    ensures Total(t) == |keys|
    ensures forall k :: Lookup(t, k) == multiset(keys)[k]
    ensures forall x :: x in t ==> x.0 in keys
  {
    if |keys| == 0 then []
    else
      var front := keys[..|keys| - 1];
      assert keys == front + [keys[|keys| - 1]];
      Bump(Tally(front), keys[|keys| - 1])
  }

  /** The three success counts of the report. */
  datatype Selector = PipelineOk | DemoExists | DemoOk

  predicate Holds(sel: Selector, row: Row) {
    match sel
    case PipelineOk => row.main.ok
    case DemoExists => row.demo.exists_
    case DemoOk => row.demo.ok
  }

  /** `sum(1 for r in rows if ...)`. */
  function CountWhere(rows: seq<Row>, sel: Selector): (n: nat)
    ensures n <= |rows|
  {
    if |rows| == 0 then 0 else (if Holds(sel, rows[0]) then 1 else 0) + CountWhere(rows[1..], sel)
  }

  /** The rows can be cut anywhere: a count over a concatenation is the sum of the counts of its parts. */
  lemma {:induction false} CountWhereAppend(a: seq<Row>, b: seq<Row>, sel: Selector)
    ensures CountWhere(a + b, sel) == CountWhere(a, sel) + CountWhere(b, sel)
    decreases |a|
  {
    if |a| == 0 {
      assert a + b == b;
    } else {
      assert (a + b)[0] == a[0];
      assert (a + b)[1..] == a[1..] + b;
      CountWhereAppend(a[1..], b, sel);
    }
  }

  /** Every row adds one to a count exactly when it has the counted property, wherever it stands. */
  lemma CountWhereSplit(a: seq<Row>, row: Row, b: seq<Row>, sel: Selector)
    ensures CountWhere(a + [row] + b, sel) == CountWhere(a, sel) + (if Holds(sel, row) then 1 else 0) + CountWhere(b, sel)
  {
    CountWhereAppend(a + [row], b, sel);
    CountWhereAppend(a, [row], sel);
    assert [row][1..] == [];
  }

  /** The `last_step` of every row, in order. */
  function Steps(rows: seq<Row>): (r: seq<nat>)
    ensures |r| == |rows| && forall i :: 0 <= i < |rows| ==> r[i] == rows[i].main.lastStep
  {
    if |rows| == 0 then [] else [rows[0].main.lastStep] + Steps(rows[1..])
  }

  /** The `error_category` of every row whose pipeline failed, in order. */
  function FailedCategories(rows: seq<Row>): (r: seq<ErrorCategory>)
    ensures |r| + CountWhere(rows, PipelineOk) == |rows|
    ensures forall c :: c in r ==> exists i :: 0 <= i < |rows| && !rows[i].main.ok && rows[i].main.category == c
  {
    if |rows| == 0 then []
    else
      var rest := FailedCategories(rows[1..]);
      assert forall i :: 1 <= i < |rows| ==> rows[i] == rows[1..][i - 1];
      if rows[0].main.ok then rest else [rows[0].main.category] + rest
  }

  /** The `demo_error_type` of every row whose demo failed with a type, in order. */
  function DemoErrors(rows: seq<Row>): (r: seq<DemoErrorType>)
    ensures |r| <= |rows| && NoType !in r
  {
    if |rows| == 0 then []
    else if !rows[0].demo.ok && rows[0].demo.errorType != NoType then [rows[0].demo.errorType] + DemoErrors(rows[1..])
    else DemoErrors(rows[1..])
  }

  /** The rows can be cut anywhere: the failed categories of a concatenation are those of each part, in order. */
  lemma {:induction false} FailedCategoriesAppend(a: seq<Row>, b: seq<Row>)
    ensures FailedCategories(a + b) == FailedCategories(a) + FailedCategories(b)
    decreases |a|
  {
    if |a| == 0 {
      assert a + b == b;
    } else {
      assert (a + b)[0] == a[0];
      assert (a + b)[1..] == a[1..] + b;
      FailedCategoriesAppend(a[1..], b);
    }
  }

  /**
   Exactly the failed rows contribute, in order: a row adds its category when
   its pipeline failed and nothing otherwise, wherever it stands.
   */
  lemma FailedCategoriesSplit(a: seq<Row>, row: Row, b: seq<Row>)
    ensures FailedCategories(a + [row] + b) == FailedCategories(a)
      + (if row.main.ok then [] else [row.main.category]) + FailedCategories(b)
  {
    FailedCategoriesAppend(a + [row], b);
    FailedCategoriesAppend(a, [row]);
    assert [row][1..] == [];
  }

  /** The rows can be cut anywhere: the demo error types of a concatenation are those of each part, in order. */
  lemma {:induction false} DemoErrorsAppend(a: seq<Row>, b: seq<Row>)
    ensures DemoErrors(a + b) == DemoErrors(a) + DemoErrors(b)
    decreases |a|
  {
    if |a| == 0 {
      assert a + b == b;
    } else {
      assert (a + b)[0] == a[0];
      assert (a + b)[1..] == a[1..] + b;
      DemoErrorsAppend(a[1..], b);
    }
  }

  /**
   Exactly the rows whose demo failed with a type contribute, in order, each
   with its type, wherever it stands.
   */
  lemma DemoErrorsSplit(a: seq<Row>, row: Row, b: seq<Row>)
    ensures DemoErrors(a + [row] + b) == DemoErrors(a)
      + (if !row.demo.ok && row.demo.errorType != NoType then [row.demo.errorType] else []) + DemoErrors(b)
  {
    DemoErrorsAppend(a + [row], b);
    DemoErrorsAppend(a, [row]);
    assert [row][1..] == [];
  }

  /** The counts `write_summary_report` computes. */
  datatype Summary = Summary(
    total: nat, pipelineSuccess: nat, demoGenerated: nat, demoSuccess: nat,
    stepCounts: Counts<nat>, errorCounts: Counts<ErrorCategory>, demoErrorCounts: Counts<DemoErrorType>)

  /**
   The counts of the summary report.  The report then divides by the number of
   rows, so with no rows it raises `ZeroDivisionError` instead.
   */
  function SummaryCounts(rows: seq<Row>): (r: Result<Summary, string>)
    ensures r.Err? <==> |rows| == 0
    ensures r.Ok? ==> r.value.total == |rows|
    ensures r.Ok? ==> (r.value.pipelineSuccess <= r.value.total && r.value.demoGenerated <= r.value.total
      && r.value.demoSuccess <= r.value.total)
    ensures r.Ok? ==> (r.value.pipelineSuccess == CountWhere(rows, PipelineOk)
      && r.value.demoGenerated == CountWhere(rows, DemoExists)
      && r.value.demoSuccess == CountWhere(rows, DemoOk))
    ensures r.Ok? ==> Total(r.value.stepCounts) == r.value.total && DistinctKeys(r.value.stepCounts)
    ensures r.Ok? ==> forall k :: Lookup(r.value.stepCounts, k) == multiset(Steps(rows))[k]
    ensures r.Ok? ==> Total(r.value.errorCounts) == r.value.total - r.value.pipelineSuccess
    ensures r.Ok? ==> DistinctKeys(r.value.errorCounts)
    ensures r.Ok? ==> forall c :: Lookup(r.value.errorCounts, c) == multiset(FailedCategories(rows))[c]
    ensures r.Ok? ==> (Lookup(r.value.demoErrorCounts, NoType) == 0
      && Total(r.value.demoErrorCounts) == |DemoErrors(rows)|)
    ensures r.Ok? ==> DistinctKeys(r.value.demoErrorCounts)
    ensures r.Ok? ==> forall t :: Lookup(r.value.demoErrorCounts, t) == multiset(DemoErrors(rows))[t]
  {
    var s := Summary(|rows|, CountWhere(rows, PipelineOk), CountWhere(rows, DemoExists), CountWhere(rows, DemoOk),
      Tally(Steps(rows)), Tally(FailedCategories(rows)), Tally(DemoErrors(rows)));
    if |rows| == 0 then Err("ZeroDivisionError") else Ok(s)
  }

  /** With consistent rows, successful demos never outnumber generated ones, nor these successful pipelines. */
  lemma {:induction false} CountsOrdered(rows: seq<Row>)
    requires forall i :: 0 <= i < |rows| ==> Consistent(rows[i])
    ensures CountWhere(rows, DemoOk) <= CountWhere(rows, DemoExists) <= CountWhere(rows, PipelineOk)
  {
    if |rows| > 0 {
      assert Consistent(rows[0]);
      assert forall i :: 0 <= i < |rows| - 1 ==> rows[1..][i] == rows[i + 1];
      CountsOrdered(rows[1..]);
    }
  }

  lemma StepsBounded(rows: seq<Row>)
    requires forall i :: 0 <= i < |rows| ==> Consistent(rows[i])
    ensures forall x :: x in Tally(Steps(rows)) ==> x.0 <= 7
  {
    var steps := Steps(rows);
    assert forall i :: 0 <= i < |steps| ==> steps[i] <= 7;
    assert forall x :: x in Tally(steps) ==> x.0 in steps;
  }

  /** Every step in the stage distribution has a name, for rows the loop produced. */
  lemma StepKeysNamed(rows: seq<Row>)
    requires forall i :: 0 <= i < |rows| ==> Consistent(rows[i])
    ensures forall x :: x in Tally(Steps(rows)) ==> x.0 in STEP_NAMES
  {
    StepsBounded(rows);
    StepNamesDomain();
  }

  /** The batch loop's rows satisfy the report's ordering of counts. */
  method BatchSummary(urls: seq<string>, worlds: seq<UrlWorld>, interruptAt: Option<nat>)
    returns (rows: seq<Row>, summary: Result<Summary, string>)
    requires |worlds| == |urls|
    ensures summary.Err? <==> rows == []
    ensures summary.Ok? ==> summary.value.demoSuccess <= summary.value.demoGenerated <= summary.value.pipelineSuccess
    ensures summary.Ok? ==> forall x :: x in summary.value.stepCounts ==> x.0 in STEP_NAMES
  {
    var interrupted;
    rows, interrupted := BatchMain(urls, worlds, interruptAt);
    CountsOrdered(rows);
    StepKeysNamed(rows);
    summary := SummaryCounts(rows);
  }
}
