/**
 The pipeline's entry point: it resolves the paper (download or local file),
 finds the repository link (given or parsed), clones it, notes the
 dependencies, provisions the venv, generates the demo and optionally runs it,
 printing a `--- STEP k:` marker as it enters each step, and maps the
 exception that ends it to an exit code.

 Every collaborator is a parameter: the downloader, the paper parser, the
 dependency analysis, the venv set-up and the demo generator are calls with an
 outcome; the clone uses the model of `clone_repository`.  The demo run of step
 7 is recorded but its result is ignored, as `main` ignores it.  A keyboard
 interrupt is not an `Exception`, so neither `clone_repository` nor `run_demo`
 catches one: whether one arrives while git or the demo runs is an input too.
 */
module Pipeline {
  import opened Outcomes
  import opened Text
  import opened Constants
  import Utils
  import BatchEval

  /** The command line, as `argparse` leaves it (`--python` and `--no-cleanup` play no part here). */
  datatype Args = Args(input: string, github: Option<string>, tmp: bool, autoRun: bool, skipDemo: bool)

  /** What the collaborators and the filesystem do during one run. */
  datatype World = World(
    makedirs: Option<ErrKind>,         // what creating the working directory raises, if anything
    download: Call<bool>,              // Downloader.download_pdf
    localExists: bool,                 // os.path.exists(input) for a local input
    links: Call<seq<string>>,          // PaperParser.extract_github_link
    repoExists: bool,                  // the clone target exists before the clone
    repoRemoval: Option<ErrKind>,      // what removing it raises, if anything
    git: ProcOutcome,                  // the shallow git clone
    cloneInterrupted: bool,            // a keyboard interrupt arrives while git runs
    deps: Call<seq<string>>,           // the dependency analysis of step 4
    pyprojectExists: bool,             // repo/pyproject.toml exists
    venv: Call<(bool, string)>,        // setup_venv_and_install: success and interpreter
    demo: Call<Option<string>>,        // DemoCreator.generate_demo
    demoResultExists: bool,            // the returned path exists
    demoPathExists: bool,              // the demo path exists when step 7 looks
    demoRunInterrupted: bool)          // a keyboard interrupt arrives while the demo runs

  // ---------------------------------------------------------------------------
  // Inputs and paths
  // ---------------------------------------------------------------------------

  /** `input_path.startswith(('http://', 'https://'))`. */
  predicate IsUrl(input: string) {
    StartsWith(input, "http://") || StartsWith(input, "https://")
  }

  /** The working directory: `tmp/` with `--tmp`, `workspace/` otherwise, under the project root. */
  function WorkDir(root: Path, tmp: bool): (r: Path)
    ensures |r| == |root| + 1 && r[..|root|] == root
    ensures r[|root|] == (if tmp then "tmp" else "workspace")
  {
    if tmp then TmpDir(root) else WorkspaceDir(root)
  }

  /** `repo_dir` and `venv_dir`: `repo` and `.venv_repro` inside the working directory. */
  function RepoPath(root: Path, tmp: bool): Path { WorkDir(root, tmp) + ["repo"] }
  function VenvPath(root: Path, tmp: bool): Path { WorkDir(root, tmp) + [".venv_repro"] }

  /** Under `--tmp` the pipeline uses the same directories as the configuration's `REPO_DIR` and `VENV_DIR`. */
  lemma TmpPathsAgree(root: Path)
    ensures RepoPath(root, true) == RepoDir(root)
    ensures VenvPath(root, true) == VenvDir(root)
    ensures RepoPath(root, false) != RepoDir(root)
  {
    assert RepoPath(root, false)[|root|] == "workspace" != "tmp" == RepoDir(root)[|root|];
  }

  /** The exit code for the exception that ends the run. */
  function ExitCode(e: Raised): (code: int)
    ensures code == 130 <==> e == Interrupt
    ensures code != 130 ==> code == 1
  {
    if e == Interrupt then 130 else 1
  }

  /** A failure of `rmtree` before the clone arrives as the matching Python exception. */
  function RaisedOf(k: ErrKind): Raised {
    if k == NotFoundErr then FileNotFound else Other
  }

  // ---------------------------------------------------------------------------
  // Step 4's report
  // ---------------------------------------------------------------------------

  /** What step 4 reports about the dependencies. */
  datatype DepsNote =
    | NoDeps                         // an empty list: nothing printed
    | UsePyproject                   // the pyproject sentinel came first
    | UseSetuptools                  // the setuptools sentinel came first
    | Found(n: nat)                  // that many dependencies
    | AnalysisFailed(pyproject: bool)  // the analysis raised; whether pyproject.toml exists

  /** The report of a successful analysis: only the first entry is looked at for a sentinel. */
  function NoteOf(deps: seq<string>): (r: DepsNote)
    ensures deps == [] <==> r == NoDeps
    ensures r.Found? ==> r.n == |deps| && deps[0] != "__USE_PYPROJECT__" && deps[0] != "__USE_SETUPTOOLS__"
    ensures deps != [] && deps[0] == "__USE_PYPROJECT__" <==> r == UsePyproject
    ensures deps != [] && deps[0] == "__USE_SETUPTOOLS__" <==> r == UseSetuptools
  {
    if deps == [] then NoDeps
    else if deps[0] == "__USE_PYPROJECT__" then UsePyproject
    else if deps[0] == "__USE_SETUPTOOLS__" then UseSetuptools
    else Found(|deps|)
  }

  /** A sentinel anywhere but first is counted as a dependency like any other name. */
  lemma SentinelOnlyFirst(name: string)
    requires name != "__USE_PYPROJECT__" && name != "__USE_SETUPTOOLS__"
    ensures NoteOf([name, "__USE_PYPROJECT__"]) == Found(2)
    ensures NoteOf([name, "__USE_SETUPTOOLS__"]) == Found(2)
  {
  }

  // ---------------------------------------------------------------------------
  // main
  // ---------------------------------------------------------------------------

  /**
   How a run ended: the exit code, the last step whose marker was printed (the
   markers of steps 1 to `reached` are printed in that order), step 4's report
   (if it was reached), and whether a demo was generated and run.
   */
  datatype Run = Run(exitCode: int, reached: nat, deps: Option<DepsNote>, demoGenerated: bool, demoRan: bool)

  /** The run that ends with exception `e` during step `reached`. */
  function Fail(e: Raised, reached: nat, deps: Option<DepsNote>): Run {
    Run(ExitCode(e), reached, deps, false, false)
  }

  /** Step 1: downloading the paper or checking the local file. */
  function ResolveInput(args: Args, w: World): Option<Raised> {
    if IsUrl(args.input) then
      match w.download
      case Raises(e) => Some(e)
      case Returns(ok) => if ok then None else Some(Runtime)
    else if w.localExists then None
    else Some(FileNotFound)
  }

  /** Step 2: the repository link, given with `--github` (when non-empty) or the first one parsed from the paper. */
  function FindLink(args: Args, w: World): Result<string, Raised> {
    if args.github.Some? && args.github.value != "" then Ok(args.github.value)
    else match w.links
      case Raises(e) => Err(e)
      case Returns(links) => if links == [] then Err(Runtime) else Ok(links[0])
  }

  /**
   Step 3: the clone into the repository directory; a `False` result becomes a
   RuntimeError, and an interrupt while git runs leaves `clone_repository`.
   */
  function Clone(link: string, target: string, w: World): Option<Raised> {
    var c := Utils.CloneRepository(link, target, w.repoExists, w.repoRemoval, w.git);
    match c.result
    case Err(k) => Some(RaisedOf(k))
    case Ok(ok) => if w.cloneInterrupted then Some(Interrupt) else if ok then None else Some(Runtime)
  }

  /** Step 4: every exception of the analysis is absorbed except a keyboard interrupt. */
  function AnalyzeDeps(w: World): Result<DepsNote, Raised> {
    match w.deps
    case Raises(e) => if e == Interrupt then Err(Interrupt) else Ok(AnalysisFailed(w.pyprojectExists))
    case Returns(deps) => Ok(NoteOf(deps))
  }

  /** Step 6: whether a demo was generated; every exception but an interrupt counts as "not generated". */
  function GenerateDemo(args: Args, w: World): (r: Result<bool, Raised>)
    ensures r == Ok(true) <==> !args.skipDemo && GeneratorMadeDemo(w)
    ensures r.Err? <==> !args.skipDemo && w.demo == Raises(Interrupt)
    ensures r.Err? ==> r.error == Interrupt
  {
    if args.skipDemo then Ok(false)
    else match w.demo
      case Raises(e) => if e == Interrupt then Err(Interrupt) else Ok(false)
      case Returns(p) => Ok(p.Some? && p.value != "" && w.demoResultExists)
  }

  /** The generator returned a path that is not empty and exists. */
  predicate GeneratorMadeDemo(w: World) {
    w.demo.Returns? && w.demo.value.Some? && w.demo.value.value != "" && w.demoResultExists
  }

  /**
   A keyboard interrupt arrives during step `step`: while the paper downloads,
   the paper is parsed, git clones (the target's removal having succeeded), the
   dependencies are analysed, the venv is set up, the demo is generated or the
   demo runs.
   */
  predicate StepInterrupted(args: Args, w: World, step: nat) {
    match step
    case 1 => IsUrl(args.input) && w.download == Raises(Interrupt)
    case 2 => w.links == Raises(Interrupt)
    case 3 => w.cloneInterrupted && !(w.repoExists && w.repoRemoval.Some?)
    case 4 => w.deps == Raises(Interrupt)
    case 5 => w.venv == Raises(Interrupt)
    case 6 => w.demo == Raises(Interrupt)
    case 7 => w.demoRunInterrupted
    case _ => false
  }

  /**
   Step `step` of steps 5 to 7 fails: the venv set-up raises or reports
   failure, the generator is interrupted, or the demo run started under
   `--auto-run` is interrupted.
   */
  predicate LateStepFails(args: Args, w: World, step: nat) {
    match step
    case 5 => !(w.venv.Returns? && w.venv.value.0)
    case 6 => GenerateDemo(args, w).Err?
    case 7 => args.autoRun && GenerateDemo(args, w) == Ok(true) && w.demoPathExists && w.demoRunInterrupted
    case _ => false
  }

  /**
   Steps 5 to 7, after the dependency report `note`: the venv, the demo, and the
   optional demo run, which only an interrupt can make fail.
   */
  function Finish(args: Args, w: World, note: DepsNote): (r: Run)
    ensures r.exitCode in {0, 1, 130} && 5 <= r.reached <= 7 && r.deps == Some(note)
    ensures r.exitCode == 0 ==> r.reached == (if args.autoRun then 7 else 6)
    ensures r.exitCode == 1 ==> r.reached <= 6 && !r.demoRan
    ensures r.exitCode != 0 && r.demoRan <==> r.demoRan && w.demoRunInterrupted
    ensures r.exitCode != 0 && r.demoRan ==> r.exitCode == 130 && r.reached == 7
    ensures r.demoRan ==> r.demoGenerated && args.autoRun && w.demoPathExists
    ensures r.exitCode == 130 <==> r.exitCode != 0 && StepInterrupted(args, w, r.reached)
    ensures r.exitCode != 0 ==> LateStepFails(args, w, r.reached)
    ensures forall k :: 5 <= k < r.reached ==> !LateStepFails(args, w, k)
  {
    match w.venv
    case Raises(e) => Fail(e, 5, Some(note))
    case Returns(v) =>
      if !v.0 then Fail(Runtime, 5, Some(note))
      else match GenerateDemo(args, w)
        case Err(e) => Fail(e, 6, Some(note))
        case Ok(generated) =>
          // `run_demo`'s result is not looked at: the run succeeds whatever the demo does.
          var ran := args.autoRun && generated && w.demoPathExists;
          if ran && w.demoRunInterrupted then Run(ExitCode(Interrupt), 7, Some(note), generated, ran)
          else Run(0, if args.autoRun then 7 else 6, Some(note), generated, ran)
  }

  /**
   Step `step` fails, each step's outcome taken as if the run got there: the
   paper cannot be obtained, no link is found, the clone raises or reports
   failure, the analysis is interrupted, or one of steps 5 to 7 fails.
   */
  predicate StepFails(root: Path, windows: bool, args: Args, w: World, step: nat) {
    match step
    case 1 => ResolveInput(args, w).Some?
    case 2 => FindLink(args, w).Err?
    case 3 => FindLink(args, w).Ok? && Clone(FindLink(args, w).value, PathStr(RepoPath(root, args.tmp), windows), w).Some?
    case 4 => AnalyzeDeps(w).Err?
    case _ => LateStepFails(args, w, step)
  }

  /**
   Steps 1 to 4: the dependency report when all four get through, otherwise
   the exception that ends the run and the step it leaves.
   */
  function EarlySteps(root: Path, windows: bool, args: Args, w: World): (r: Result<DepsNote, (Raised, nat)>)
    ensures r.Err? ==> 1 <= r.error.1 <= 4 && StepFails(root, windows, args, w, r.error.1)
    ensures r.Err? ==> (r.error.0 == Interrupt <==> StepInterrupted(args, w, r.error.1))
    ensures forall k :: 1 <= k <= 4 && (r.Ok? || k < r.error.1) ==> !StepFails(root, windows, args, w, k)
  {
    match ResolveInput(args, w)
    case Some(e) => Err((e, 1))
    case None =>
      match FindLink(args, w)
      case Err(e) => Err((e, 2))
      case Ok(link) =>
        match Clone(link, PathStr(RepoPath(root, args.tmp), windows), w)
        case Some(e) => Err((e, 3))
        case None =>
          match AnalyzeDeps(w)
          case Err(e) => Err((e, 4))
          case Ok(note) => Ok(note)
  }

  /**
   `main`, the clone target being rendered with the platform's separator.  The
   working directory is created before the `try`, so a failure there leaves
   `main` before any marker is printed and the interpreter exits with 1.
   */
  function Main(root: Path, windows: bool, args: Args, w: World): (r: Run)
    ensures r.exitCode in {0, 1, 130}
    ensures r.reached <= 7
    ensures r.reached == 0 <==> w.makedirs.Some?
    ensures r.reached == 0 ==> r.exitCode == 1
    ensures r.exitCode == 0 ==> r.reached == (if args.autoRun then 7 else 6)
    ensures r.exitCode == 1 ==> r.reached <= 6 && !r.demoRan
    ensures r.exitCode != 0 && r.demoRan ==> r.exitCode == 130 && r.reached == 7 && w.demoRunInterrupted
    ensures r.demoRan ==> r.demoGenerated && args.autoRun && w.demoPathExists
    ensures r.deps.Some? <==> r.reached >= 5
    ensures r.exitCode == 130 <==> r.exitCode != 0 && StepInterrupted(args, w, r.reached)
    ensures r.exitCode != 0 && r.reached >= 1 ==> StepFails(root, windows, args, w, r.reached)
    ensures forall k :: 1 <= k < r.reached ==> !StepFails(root, windows, args, w, k)
  {
    if w.makedirs.Some? then Run(1, 0, None, false, false)
    else match EarlySteps(root, windows, args, w)
      case Err((e, step)) => Fail(e, step, None)
      case Ok(note) => Finish(args, w, note)
  }

  // ---------------------------------------------------------------------------
  // Properties of main
  // ---------------------------------------------------------------------------

  /**
   A run succeeds exactly when the working directory is created, the paper, the
   link, the clone and the venv are all obtained, and nobody interrupts the
   clone, the analysis, the generation or the demo run.
   */
  lemma SuccessIff(root: Path, windows: bool, args: Args, w: World)
    ensures Main(root, windows, args, w).exitCode == 0 <==>
      && w.makedirs.None?
      && ResolveInput(args, w).None?
      && FindLink(args, w).Ok?
      && Clone(FindLink(args, w).value, PathStr(RepoPath(root, args.tmp), windows), w).None?
      && AnalyzeDeps(w).Ok?
      && w.venv.Returns? && w.venv.value.0
      && GenerateDemo(args, w).Ok?
      && !(args.autoRun && GenerateDemo(args, w).value && w.demoPathExists && w.demoRunInterrupted)
  {
  }

  /** A keyboard interrupt while git clones ends the run at step 3 with exit code 130. */
  lemma CloneInterruptExits(root: Path, windows: bool, args: Args, w: World)
    requires w.makedirs.None? && ResolveInput(args, w).None? && FindLink(args, w).Ok?
    requires !(w.repoExists && w.repoRemoval.Some?) && w.cloneInterrupted
    ensures Main(root, windows, args, w).exitCode == 130
    ensures Main(root, windows, args, w).reached == 3
  {
  }

  /** A keyboard interrupt while the generated demo runs ends the run at step 7 with exit code 130. */
  lemma DemoRunInterruptExits(root: Path, windows: bool, args: Args, w: World)
    requires Main(root, windows, args, w.(demoRunInterrupted := false)).demoRan
    ensures Main(root, windows, args, w.(demoRunInterrupted := true)).exitCode == 130
    ensures Main(root, windows, args, w.(demoRunInterrupted := true)).reached == 7
  {
  }

  /** A download that reports failure raises a RuntimeError: the run ends at step 1 with exit code 1. */
  lemma DownloadFailureFatal(root: Path, windows: bool, args: Args, w: World)
    requires w.makedirs.None? && IsUrl(args.input) && w.download == Returns(false)
    ensures Main(root, windows, args, w).exitCode == 1
    ensures Main(root, windows, args, w).reached == 1
  {
  }

  /**
   A clone that reports failure, with nobody interrupting git, raises a
   RuntimeError: the run ends at step 3 with exit code 1.
   */
  lemma CloneFailureFatal(root: Path, windows: bool, args: Args, w: World)
    requires w.makedirs.None? && ResolveInput(args, w).None? && FindLink(args, w).Ok?
    requires !(w.repoExists && w.repoRemoval.Some?) && !w.cloneInterrupted
    requires !(w.git.Exited? && w.git.code == 0)
    ensures Main(root, windows, args, w).exitCode == 1
    ensures Main(root, windows, args, w).reached == 3
  {
  }

  /**
   A demo counts as generated exactly when the run got past the venv into step
   6 and the generator returned a non-empty path that exists.
   */
  lemma DemoGeneratedIff(root: Path, windows: bool, args: Args, w: World)
    ensures Main(root, windows, args, w).demoGenerated <==>
      Main(root, windows, args, w).reached >= 6 && !args.skipDemo && GeneratorMadeDemo(w)
  {
  }

  /** A local input that does not exist ends the run at step 1 with exit code 1. */
  lemma MissingLocalFile(root: Path, windows: bool, args: Args, w: World)
    requires w.makedirs.None? && !IsUrl(args.input) && !w.localExists
    ensures Main(root, windows, args, w).exitCode == 1
    ensures Main(root, windows, args, w).reached == 1
  {
  }

  /** With a non-empty `--github` the paper is never parsed: the parser's outcome does not matter. */
  lemma GithubSkipsParsing(root: Path, windows: bool, args: Args, w: World, links: Call<seq<string>>)
    requires args.github.Some? && args.github.value != ""
    ensures Main(root, windows, args, w) == Main(root, windows, args, w.(links := links))
  {
    var w' := w.(links := links);
    assert ResolveInput(args, w') == ResolveInput(args, w);
    assert FindLink(args, w') == FindLink(args, w) == Ok(args.github.value);
    var target := PathStr(RepoPath(root, args.tmp), windows);
    assert Clone(args.github.value, target, w') == Clone(args.github.value, target, w);
    assert AnalyzeDeps(w') == AnalyzeDeps(w);
    assert GenerateDemo(args, w') == GenerateDemo(args, w);
  }

  /** Without `--github`, a paper with no link ends the run at step 2 with exit code 1. */
  lemma NoLinkFails(root: Path, windows: bool, args: Args, w: World)
    requires args.github.None? || args.github.value == ""
    requires w.makedirs.None? && ResolveInput(args, w).None? && w.links == Returns([])
    ensures Main(root, windows, args, w).exitCode == 1
    ensures Main(root, windows, args, w).reached == 2
  {
  }

  /** Whatever the dependency analysis raises, short of an interrupt, the run goes on exactly as after an empty analysis, except for the report. */
  lemma DepsNeverAbort(root: Path, windows: bool, args: Args, w: World, e: Raised)
    requires e != Interrupt
    ensures Main(root, windows, args, w.(deps := Raises(e))).exitCode
         == Main(root, windows, args, w.(deps := Returns([]))).exitCode
    ensures Main(root, windows, args, w.(deps := Raises(e))).reached
         == Main(root, windows, args, w.(deps := Returns([]))).reached
  {
    var w1 := w.(deps := Raises(e));
    var w2 := w.(deps := Returns([]));
    assert ResolveInput(args, w1) == ResolveInput(args, w2);
    assert FindLink(args, w1) == FindLink(args, w2);
    var target := PathStr(RepoPath(root, args.tmp), windows);
    assert forall link :: Clone(link, target, w1) == Clone(link, target, w2);
    FinishIgnoresNote(args, w1, w2, AnalysisFailed(w.pyprojectExists), NoDeps);
  }

  /** Steps 5 to 7 do not look at the dependency report or at the analysis outcome. */
  lemma FinishIgnoresNote(args: Args, w1: World, w2: World, n1: DepsNote, n2: DepsNote)
    requires w1.venv == w2.venv && w1.demo == w2.demo
    requires w1.demoResultExists == w2.demoResultExists && w1.demoPathExists == w2.demoPathExists
    requires w1.demoRunInterrupted == w2.demoRunInterrupted
    ensures Finish(args, w1, n1).exitCode == Finish(args, w2, n2).exitCode
    ensures Finish(args, w1, n1).reached == Finish(args, w2, n2).reached
  {
    assert GenerateDemo(args, w1) == GenerateDemo(args, w2);
  }

  /** A failed venv set-up ends the run at step 5 with exit code 1. */
  lemma VenvFailureFatal(root: Path, windows: bool, args: Args, w: World, python: string)
    requires w.makedirs.None? && ResolveInput(args, w).None? && FindLink(args, w).Ok?
    requires Clone(FindLink(args, w).value, PathStr(RepoPath(root, args.tmp), windows), w).None?
    requires AnalyzeDeps(w).Ok? && w.venv == Returns((false, python))
    ensures Main(root, windows, args, w).exitCode == 1
    ensures Main(root, windows, args, w).reached == 5
  {
  }

  /** A keyboard interrupt during dependency analysis or demo generation is not absorbed: it ends the run with 130. */
  lemma InterruptNotAbsorbed(root: Path, windows: bool, args: Args, w: World)
    requires w.makedirs.None? && ResolveInput(args, w).None? && FindLink(args, w).Ok?
    requires Clone(FindLink(args, w).value, PathStr(RepoPath(root, args.tmp), windows), w).None?
    ensures w.deps == Raises(Interrupt) ==> Main(root, windows, args, w).exitCode == 130
    ensures (!args.skipDemo && w.demo == Raises(Interrupt) && AnalyzeDeps(w).Ok?
      && w.venv.Returns? && w.venv.value.0) ==> Main(root, windows, args, w).exitCode == 130
  {
  }

  /** The demo runs exactly under `--auto-run`, with a generated demo whose path exists, in a successful run. */
  lemma AutoRunGate(root: Path, windows: bool, args: Args, w: World)
    requires Main(root, windows, args, w).exitCode == 0
    ensures Main(root, windows, args, w).demoRan <==>
      args.autoRun && Main(root, windows, args, w).demoGenerated && w.demoPathExists
  {
  }

  /** `--skip-demo` means no demo is generated and none runs. */
  lemma SkipDemoNoDemo(root: Path, windows: bool, args: Args, w: World)
    requires args.skipDemo
    ensures !Main(root, windows, args, w).demoGenerated && !Main(root, windows, args, w).demoRan
  {
  }

  // ---------------------------------------------------------------------------
  // The step markers of a run, as the batch runner reads them back
  // ---------------------------------------------------------------------------

  /** The marker `main` prints at the start of the line announcing step k, with `c` the digit of k. */
  function Marker(c: char): string {
    "--- STEP " + [c] + ":"
  }

  /** Text that holds no `--- STEP ` prefix, so it cannot be read as a step marker. */
  predicate Quiet(t: string) {
    !Contains(t, "--- STEP ")
  }

  /**
   The output of a run that entered steps 1 to `|texts|`: what it printed before
   step 1 (`head`), then, for each step k, its marker followed by `texts[k - 1]`,
   the rest of the marker's line and everything printed until the next marker.
   */
  function StepLog(head: string, texts: seq<string>): string
    requires |texts| <= 7
  {
    if |texts| == 0 then head
    else StepLog(head, texts[..|texts| - 1]) + Marker(DigitChar(|texts|)) + texts[|texts| - 1]
  }

  /** Quiet text holds no step marker. */
  lemma QuietHasNoMarker(t: string, c: char)
    requires Quiet(t)
    ensures !Contains(t, Marker(c))
  {
    if Contains(t, Marker(c)) {
      var i :| 0 <= i <= |t| - |Marker(c)| && OccursAt(t, Marker(c), i);
      assert t[i..i + 9] == Marker(c)[..9] == "--- STEP ";
      assert OccursAt(t, "--- STEP ", i);
      assert false;
    }
  }

  /**
   A marker found around the marker of a step lies wholly before it, is that
   marker, or lies wholly after it: no marker straddles either of its ends.
   */
  lemma MarkerPlacement(a: string, c: char, b: string, c2: char, i: int)
    requires '0' <= c <= '9' && '0' <= c2 <= '9'
    ensures OccursAt(a + Marker(c) + b, Marker(c2), i) ==>
      i + 11 <= |a| || (i == |a| && c == c2) || i >= |a| + 11
  {
    var s := a + Marker(c) + b;
    if OccursAt(s, Marker(c2), i) {
      assert forall k :: 0 <= k < 11 ==> s[i + k] == Marker(c2)[k];
      assert forall k :: 0 <= k < 11 ==> s[|a| + k] == Marker(c)[k];
      if |a| - 11 < i <= |a| {
        MarkerOverlap(c2, c, |a| - i);
      } else if |a| < i < |a| + 11 {
        MarkerOverlap(c, c2, i - |a|);
      }
    }
  }

  /** An occurrence lying wholly inside the first or the last part of a concatenation is an occurrence in that part. */
  lemma OccursInParts(a: string, x: string, b: string, m: string, i: int)
    ensures OccursAt(a + x + b, m, i) && i + |m| <= |a| ==> OccursAt(a, m, i)
    ensures OccursAt(a + x + b, m, i) && i >= |a| + |x| ==> OccursAt(b, m, i - |a| - |x|)
  {
    var s := a + x + b;
    if OccursAt(s, m, i) && i + |m| <= |a| {
      assert s[i..i + |m|] == a[i..i + |m|];
    }
    if OccursAt(s, m, i) && i >= |a| + |x| {
      assert s[i..i + |m|] == b[i - |a| - |x|..i - |a| - |x| + |m|];
    }
  }

  /**
   A marker overlaps another marker shifted by `d` only when the shift is zero
   and the markers are the same: the three dashes cannot line up otherwise.
   */
  lemma MarkerOverlap(c: char, c2: char, d: int)
    requires '0' <= c <= '9' && '0' <= c2 <= '9' && 0 <= d < 11
    requires forall k :: 0 <= k < 11 - d ==> Marker(c)[d + k] == Marker(c2)[k]
    ensures d == 0 && c == c2
  {
    MarkerDashes(c);
    MarkerDashes(c2);
    assert Marker(c2)[0] == '-' && Marker(c2)[1] == '-' && Marker(c2)[2] == '-' && Marker(c2)[9] == c2;
  }

  /** Only the first three characters of a marker are dashes. */
  lemma MarkerDashes(c: char)
    requires '0' <= c <= '9'
    ensures |Marker(c)| == 11 && Marker(c)[9] == c
    ensures forall k :: 0 <= k < 11 ==> (Marker(c)[k] == '-' <==> k <= 2)
  {
  }

  /** The marker of a step not yet entered does not occur in the output of a run with quiet texts. */
  lemma {:induction false} LaterMarkerAbsent(head: string, texts: seq<string>, j: nat)
    requires |texts| <= 7 && |texts| < j <= 9
    requires Quiet(head) && forall k :: 0 <= k < |texts| ==> Quiet(texts[k])
    ensures !Contains(StepLog(head, texts), Marker(DigitChar(j)))
  {
    var m := Marker(DigitChar(j));
    if |texts| == 0 {
      QuietHasNoMarker(head, DigitChar(j));
    } else {
      var n := |texts|;
      var a := StepLog(head, texts[..n - 1]);
      var b := texts[n - 1];
      var s := StepLog(head, texts);
      assert s == a + Marker(DigitChar(n)) + b;
      LaterMarkerAbsent(head, texts[..n - 1], j);
      QuietHasNoMarker(b, DigitChar(j));
      assert DigitChar(n) != DigitChar(j);
      forall i | 0 <= i <= |s| - |m| ensures !OccursAt(s, m, i) {
        MarkerPlacement(a, DigitChar(n), b, DigitChar(j), i);
        OccursInParts(a, Marker(DigitChar(n)), b, m, i);
      }
    }
  }

  /** The marker of the last step entered occurs in the output. */
  lemma LastMarkerPresent(head: string, texts: seq<string>)
    requires 1 <= |texts| <= 7
    ensures Contains(StepLog(head, texts), Marker(DigitChar(|texts|)))
  {
    var n := |texts|;
    var a := StepLog(head, texts[..n - 1]);
    var m := Marker(DigitChar(n));
    var s := StepLog(head, texts);
    assert s == a + m + texts[n - 1];
    assert s[|a|..|a| + |m|] == m;
    assert OccursAt(s, m, |a|);
  }

  /** No marker of a later step occurs in the output, in the form the batch runner looks for it. */
  lemma LaterMarkersAbsent(head: string, texts: seq<string>)
    requires |texts| <= 7
    requires Quiet(head) && forall k :: 0 <= k < |texts| ==> Quiet(texts[k])
    ensures forall j :: |texts| < j <= 7 ==> !Contains(StepLog(head, texts), STEP_MARKERS[j])
  {
    StepMarkersDomain();
    forall j | |texts| < j <= 7
      ensures !Contains(StepLog(head, texts), STEP_MARKERS[j])
    {
      LaterMarkerAbsent(head, texts, j);
    }
  }

  /** `detect_last_step` reads the output of a run with quiet texts back as the number of steps entered. */
  lemma StepLogDetected(head: string, texts: seq<string>)
    requires |texts| <= 7
    requires Quiet(head) && forall k :: 0 <= k < |texts| ==> Quiet(texts[k])
    ensures BatchEval.DetectLastStep(StepLog(head, texts)) == |texts|
  {
    LaterMarkersAbsent(head, texts);
    if |texts| > 0 {
      LastMarkerPresent(head, texts);
      StepMarkersDomain();
      BatchEval.DetectLastStepIsMax(StepLog(head, texts), |texts|);
    }
  }

  /**
   The batch runner reads back where a run stopped: the output of a run, with a
   marker at the start of the line of every step it entered and any quiet text
   around and between them, gives exactly the last step it entered, and any
   further output around it can only raise the step detected.
   */
  lemma LastStepMatchesReached(root: Path, windows: bool, args: Args, w: World,
                               head: string, texts: seq<string>, before: string, after: string)
    requires |texts| == Main(root, windows, args, w).reached
    requires Quiet(head) && forall k :: 0 <= k < |texts| ==> Quiet(texts[k])
    ensures BatchEval.DetectLastStep(StepLog(head, texts)) == Main(root, windows, args, w).reached
    ensures BatchEval.DetectLastStep(before + StepLog(head, texts) + after) >= Main(root, windows, args, w).reached
  {
    StepLogDetected(head, texts);
    BatchEval.DetectLastStepMonotone(before, StepLog(head, texts), after);
  }
}
