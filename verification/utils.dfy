/**
 Helpers the pipeline calls: listing the packages installed in a venv from the
 output of `pip list --format=freeze`, cloning a repository with a shallow
 `git clone`, and running the generated demo.  Each process run is a parameter.
 */
module Utils {
  import opened Outcomes
  import opened Text

  // ---------------------------------------------------------------------------
  // get_installed_packages
  // ---------------------------------------------------------------------------

  /** The package name one line of freeze output contributes, if any. */
  function FreezeLineName(line: string): (r: Option<string>)
    ensures r.Some? ==> Trimmed(r.value) && IsLower(r.value)
    ensures r.None? <==> !Contains(line, "==") && Strip(line) == ""
    ensures Contains(line, "==") ==> r == Some(Lower(Strip(Before(line, "=="))))
    ensures !Contains(line, "==") && r.Some? ==> r == Some(Lower(Strip(line)))
  {
    if Contains(line, "==") then
      var name := Before(line, "==");
      StripLower(name);
      LowerIsLower(Strip(name));
      Some(Lower(Strip(name)))
    else if Strip(line) != "" then
      StripLower(line);
      LowerIsLower(Strip(line));
      Some(Lower(Strip(line)))
    else None
  }

  /** The names a sequence of lines contributes. */
  function LinesPackages(lines: seq<string>): (r: set<string>)
    ensures forall p :: p in r ==> Trimmed(p) && IsLower(p)
  {
    set i | 0 <= i < |lines| && FreezeLineName(lines[i]).Some? :: FreezeLineName(lines[i]).value
  }

  /** The parsing loop of `get_installed_packages` over `stdout.strip().split('\n')`. */
  function ParseFreeze(stdout: string): (r: set<string>)
    ensures forall p :: p in r ==> Trimmed(p) && IsLower(p)
  {
    LinesPackages(Split(Strip(stdout), '\n'))
  }

  /** `get_installed_packages`: the parsed names after a zero exit, the empty set after anything else. */
  function GetInstalledPackages(o: ProcOutcome): (r: set<string>)
    ensures !(o.Exited? && o.code == 0) ==> r == {}
    ensures o.Exited? && o.code == 0 ==> r == ParseFreeze(o.stdout)
  {
    match o
    case Exited(code, stdout, _) => if code == 0 then ParseFreeze(stdout) else {}
    case _ => {}
  }

  /** A line `==1.0` has an empty name before the `==` and contributes the empty string. */
  lemma EmptyNameLine()
    ensures FreezeLineName("==1.0") == Some("")
  {
    assert OccursAt("==1.0", "==", 0);
    assert Before("==1.0", "==") == "";
  }

  /** A name is valid freeze output when it is lower-case, free of blanks and line breaks, and holds no `=`. */
  predicate PackageName(n: string) {
    n != [] && IsLower(n) && forall i :: 0 <= i < |n| ==> !IsSpace(n[i]) && n[i] != '='
  }

  /** A version, as pip prints it: non-empty, with no blank and no newline. */
  predicate VersionText(v: string) {
    v != [] && forall i :: 0 <= i < |v| ==> !IsSpace(v[i])
  }

  /** The freeze line `name==version`. */
  function FreezeLine(n: string, v: string): string {
    n + "==" + v
  }

  /** The first `==` of a freeze line is the one after the name, which holds no `=`. */
  lemma FreezeLineBefore(n: string, v: string)
    requires forall i :: 0 <= i < |n| ==> n[i] != '='
    ensures Contains(FreezeLine(n, v), "==") && Before(FreezeLine(n, v), "==") == n
  {
    var line := FreezeLine(n, v);
    assert line[|n|..|n| + 2] == "==";
    assert OccursAt(line, "==", |n|);
    assert forall k :: 0 <= k < |n| ==> !OccursAt(line, "==", k) by {
      forall k | 0 <= k < |n| ensures !OccursAt(line, "==", k) {
        assert line[k] == n[k];
        if k + 2 <= |line| {
          assert line[k..k + 2][0] == line[k];
        }
      }
    }
    assert Find(line, "==") == Some(|n|);
    assert line[..|n|] == n;
  }

  /** A package name is already stripped and lower-case. */
  lemma PackageNameNormal(n: string)
    requires PackageName(n)
    ensures Lower(Strip(n)) == n
  {
    StripOfPadded([], n, []);
    assert [] + n + [] == n;
    assert Lower(n) == n;
  }

  /** A freeze line gives back its name. */
  lemma FreezeLineRoundTrip(n: string, v: string)
    requires PackageName(n) && VersionText(v)
    ensures FreezeLineName(FreezeLine(n, v)) == Some(n)
  {
    FreezeLineBefore(n, v);
    PackageNameNormal(n);
  }

  /** The text `pip list --format=freeze` prints for a list of packages: one line each. */
  function FreezeText(pkgs: seq<(string, string)>): string {
    if |pkgs| == 0 then "" else FreezeLine(pkgs[0].0, pkgs[0].1) + "\n" + FreezeText(pkgs[1..])
  }

  function FreezeLines(pkgs: seq<(string, string)>): (r: seq<string>)
    ensures |r| == |pkgs|
    ensures forall i :: 0 <= i < |pkgs| ==> r[i] == FreezeLine(pkgs[i].0, pkgs[i].1)
  {
    seq(|pkgs|, i requires 0 <= i < |pkgs| => FreezeLine(pkgs[i].0, pkgs[i].1))
  }

  predicate WellFormed(pkgs: seq<(string, string)>) {
    forall i :: 0 <= i < |pkgs| ==> PackageName(pkgs[i].0) && VersionText(pkgs[i].1)
  }

  lemma {:induction false} FreezeTextJoin(pkgs: seq<(string, string)>)
    requires |pkgs| > 0
    ensures FreezeText(pkgs) == Join(FreezeLines(pkgs), '\n') + "\n"
    decreases |pkgs|
  {
    if |pkgs| > 1 {
      FreezeTextJoin(pkgs[1..]);
      assert FreezeLines(pkgs)[1..] == FreezeLines(pkgs[1..]);
    }
  }

  lemma FreezeLineShape(n: string, v: string)
    requires PackageName(n) && VersionText(v)
    ensures '\n' !in FreezeLine(n, v)
    ensures !IsSpace(FreezeLine(n, v)[0]) && !IsSpace(FreezeLine(n, v)[|FreezeLine(n, v)| - 1])
  {
    var line := FreezeLine(n, v);
    assert line[0] == n[0] && line[|line| - 1] == v[|v| - 1];
    assert forall i :: 0 <= i < |line| ==> !IsSpace(line[i]) by {
      forall i | 0 <= i < |line| ensures !IsSpace(line[i]) {
        if i < |n| { assert line[i] == n[i]; }
        else if i >= |n| + 2 { assert line[i] == v[i - |n| - 2]; }
      }
    }
  }

  lemma {:induction false} JoinEnds(lines: seq<string>, sep: char)
    requires |lines| > 0 && forall i :: 0 <= i < |lines| ==> lines[i] != []
    ensures Join(lines, sep) != []
    ensures Join(lines, sep)[0] == lines[0][0]
    ensures Join(lines, sep)[|Join(lines, sep)| - 1] == lines[|lines| - 1][|lines[|lines| - 1]| - 1]
    decreases |lines|
  {
    if |lines| > 1 {
      JoinEnds(lines[1..], sep);
    }
  }

  /** The freeze lines joined by newlines start and end with a non-space. */
  lemma FreezeBodyTrimmed(pkgs: seq<(string, string)>)
    requires |pkgs| > 0 && WellFormed(pkgs)
    ensures Trimmed(Join(FreezeLines(pkgs), '\n'))
  {
    var lines := FreezeLines(pkgs);
    FreezeLineShape(pkgs[0].0, pkgs[0].1);
    FreezeLineShape(pkgs[|pkgs| - 1].0, pkgs[|pkgs| - 1].1);
    assert forall i :: 0 <= i < |lines| ==> lines[i] != [];
    JoinEnds(lines, '\n');
  }

  /** Stripping the freeze text removes exactly the final newline. */
  lemma StripFreezeText(pkgs: seq<(string, string)>)
    requires |pkgs| > 0 && WellFormed(pkgs)
    ensures Strip(FreezeText(pkgs)) == Join(FreezeLines(pkgs), '\n')
  {
    var body := Join(FreezeLines(pkgs), '\n');
    FreezeTextJoin(pkgs);
    FreezeBodyTrimmed(pkgs);
    assert AllSpace("\n");
    StripOfPadded([], body, "\n");
    assert [] + body + "\n" == FreezeText(pkgs);
  }

  /** The lines of the stripped freeze text are the freeze lines. */
  lemma SplitFreezeText(pkgs: seq<(string, string)>)
    requires |pkgs| > 0 && WellFormed(pkgs)
    ensures Split(Strip(FreezeText(pkgs)), '\n') == FreezeLines(pkgs)
  {
    var lines := FreezeLines(pkgs);
    StripFreezeText(pkgs);
    forall i | 0 <= i < |lines| ensures '\n' !in lines[i] {
      FreezeLineShape(pkgs[i].0, pkgs[i].1);
    }
    SplitJoin(lines, '\n');
  }

  lemma LinesPackagesNamed(lines: seq<string>, pkgs: seq<(string, string)>)
    requires |lines| == |pkgs|
    requires forall i :: 0 <= i < |lines| ==> FreezeLineName(lines[i]) == Some(pkgs[i].0)
    ensures LinesPackages(lines) == set i | 0 <= i < |pkgs| :: pkgs[i].0
  {
    var names := set i | 0 <= i < |pkgs| :: pkgs[i].0;
    forall p | p in names ensures p in LinesPackages(lines) {
      var i :| 0 <= i < |pkgs| && pkgs[i].0 == p;
      assert FreezeLineName(lines[i]).value == p;
    }
  }

  /** Empty output, all blanks stripped, is the one empty line, which names nothing. */
  lemma EmptyFreeze()
    ensures ParseFreeze("") == {}
  {
    assert Strip("") == "";
    assert Split("", '\n') == [""];
    assert FreezeLineName("").None?;
  }

  /**
   Parsing the freeze text of well-formed packages gives back exactly their
   names: the trailing newline is stripped, every line is split off, and each
   line yields its name.
   */
  lemma FreezeRoundTrip(pkgs: seq<(string, string)>)
    requires WellFormed(pkgs)
    ensures ParseFreeze(FreezeText(pkgs)) == set i | 0 <= i < |pkgs| :: pkgs[i].0
  {
    if |pkgs| == 0 {
      EmptyFreeze();
      return;
    }
    var lines := FreezeLines(pkgs);
    SplitFreezeText(pkgs);
    forall i | 0 <= i < |pkgs| ensures FreezeLineName(lines[i]) == Some(pkgs[i].0) {
      FreezeLineRoundTrip(pkgs[i].0, pkgs[i].1);
    }
    LinesPackagesNamed(lines, pkgs);
  }

  // ---------------------------------------------------------------------------
  // clone_repository and run_demo
  // ---------------------------------------------------------------------------

  /** `git clone --depth 1 <url> <target>`. */
  function ShallowCloneArgv(url: string, target: string): seq<string> {
    ["git", "clone", "--depth", "1", url, target]
  }

  /** What `clone_repository` did: its result or the exception that left it, and the command it ran. */
  datatype CloneRun = CloneRun(result: Result<bool, ErrKind>, argv: Option<seq<string>>)

  /**
   `clone_repository`.  An existing target is removed first, outside the `try`,
   so a failed removal (`Some(k)`) leaves the function with that error and git
   never runs; every outcome of git itself becomes a boolean.
   */
  function CloneRepository(url: string, target: string, targetExists: bool, removal: Option<ErrKind>, git: ProcOutcome): (r: CloneRun)
    ensures r.result.Err? <==> targetExists && removal.Some?
    ensures r.result.Err? ==> r.result.error == removal.value && r.argv.None?
    ensures r.result.Ok? ==> r.argv == Some(ShallowCloneArgv(url, target))
    ensures r.result == Ok(true) <==> r.result.Ok? && git.Exited? && git.code == 0
  {
    if targetExists && removal.Some? then CloneRun(Err(removal.value), None)
    else CloneRun(Ok(git.Exited? && git.code == 0), Some(ShallowCloneArgv(url, target)))
  }

  /** `run_demo`: True exactly when the demo exited with status 0; a timeout or any exception gives False. */
  function RunDemo(demo: ProcOutcome): (ok: bool)
    ensures ok <==> demo.Exited? && demo.code == 0
  {
    match demo
    case Exited(code, _, _) => code == 0
    case TimedOut(_, _, _) => false
    case ExeNotFound => false
    case Crashed(_) => false
  }

  /** `clone_repository` looks only at whether git exited with 0: two git outcomes that agree on that give the same result. */
  lemma CloneOutcomeOnlyOnExitCode(url: string, target: string, g1: ProcOutcome, g2: ProcOutcome)
    requires (g1.Exited? && g1.code == 0) <==> (g2.Exited? && g2.code == 0)
    ensures CloneRepository(url, target, false, None, g1) == CloneRepository(url, target, false, None, g2)
  {
  }
}
