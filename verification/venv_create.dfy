/**
 Provisioning of the project's virtual environment: the interpreter path inside a
 venv, the wrapper that turns every failed command into one error message, and
 the fixed command sequence create → `enum34` → tool upgrade → install.

 Every command's outcome is a parameter.  The sequence works on the fixed
 relative paths `tmp/.venv_repro` and `tmp/requirements.txt`; the repository
 path the entry point receives plays no part in it.
 */
module VenvCreate {
  import opened Outcomes
  import opened Text
  import opened Constants

  /** `sys.platform.startswith('win')`. */
  predicate IsWindows(platform: string) {
    StartsWith(platform, "win")
  }

  /** `VENV_DIR = Path("tmp") / ".venv_repro"`, relative to the working directory. */
  const VENV_DIR: Path := ["tmp", ".venv_repro"]

  /** `REQUIREMENTS_FILE = Path("tmp") / "requirements.txt"`. */
  const REQUIREMENTS_FILE: Path := ["tmp", "requirements.txt"]

  /** `get_venv_python_executable`: the interpreter of the venv at `venv`. */
  function VenvPythonExecutable(venv: Path, platform: string): (r: Path)
    ensures |r| == |venv| + 2 && r[..|venv|] == venv
    ensures r[|r| - 1] == (if IsWindows(platform) then "python.exe" else "python")
  {
    if IsWindows(platform) then venv + ["Scripts", "python.exe"] else venv + ["bin", "python"]
  }

  /** The interpreter lives in `Scripts` on Windows-like platforms and in `bin` elsewhere, directly under the venv. */
  lemma VenvPythonLayout(venv: Path, platform: string)
    ensures IsWindows(platform) <==> VenvPythonExecutable(venv, platform)[|venv|] == "Scripts"
    ensures !IsWindows(platform) <==> VenvPythonExecutable(venv, platform)[|venv|] == "bin"
  {
  }

  /** `linux` and `darwin` get `bin/python`; `win32` gets `Scripts/python.exe`; so does no `cygwin`. */
  lemma PlatformExamples(venv: Path)
    ensures VenvPythonExecutable(venv, "win32") == venv + ["Scripts", "python.exe"]
    ensures VenvPythonExecutable(venv, "linux") == venv + ["bin", "python"]
    ensures VenvPythonExecutable(venv, "darwin") == venv + ["bin", "python"]
    ensures VenvPythonExecutable(venv, "cygwin") == venv + ["bin", "python"]
  {
    assert "win32"[..3] == "win";
    assert "linux"[..3][0] != 'w' && "darwin"[..3][0] != 'w' && "cygwin"[..3][0] != 'w';
  }

  // ---------------------------------------------------------------------------
  // One command
  // ---------------------------------------------------------------------------

  /** A command as the sequence issues it: its argument vector and the message naming it. */
  datatype Command = Command(argv: seq<string>, errorMessage: string)

  /** A run that `subprocess.run(..., check=True)` accepts: the command exited with status 0. */
  predicate Succeeded(o: ProcOutcome) {
    o.Exited? && o.code == 0
  }

  /**
   `execute_subprocess`: the completed run on a zero exit; a non-zero exit, a
   missing executable and any other exception all become the same
   `RuntimeError("<message> failed.")`.
   */
  function ExecuteSubprocess(c: Command, o: ProcOutcome): (r: Result<ProcOutcome, string>)
    ensures r.Ok? <==> Succeeded(o)
    ensures r.Ok? ==> r.value == o
    ensures r.Err? ==> r.error == c.errorMessage + " failed."
  {
    if Succeeded(o) then Ok(o) else Err(c.errorMessage + " failed.")
  }

  /** The error text does not depend on how the command failed, only on which command it was. */
  lemma FailureTextIndependentOfCause(c: Command, o1: ProcOutcome, o2: ProcOutcome)
    requires !Succeeded(o1) && !Succeeded(o2)
    ensures ExecuteSubprocess(c, o1) == ExecuteSubprocess(c, o2)
  {
  }

  // ---------------------------------------------------------------------------
  // The command sequence
  // ---------------------------------------------------------------------------

  /**
   Runs `cmds` in order, `outs[i]` being the outcome of `cmds[i]`, and stops at
   the first failure.  Gives how many commands were issued and the overall result.
   */
  function RunSequence(cmds: seq<Command>, outs: seq<ProcOutcome>): (r: (nat, Result<(), string>))
    requires |outs| >= |cmds|
    ensures r.0 <= |cmds|
    ensures r.1.Ok? <==> forall i :: 0 <= i < |cmds| ==> Succeeded(outs[i])
    ensures r.1.Ok? ==> r.0 == |cmds|
    ensures r.1.Err? ==> 1 <= r.0 && !Succeeded(outs[r.0 - 1]) && r.1.error == cmds[r.0 - 1].errorMessage + " failed."
    ensures forall i :: 0 <= i < r.0 - 1 ==> Succeeded(outs[i])
    decreases |cmds|
  {
    if |cmds| == 0 then (0, Ok(()))
    else match ExecuteSubprocess(cmds[0], outs[0])
      case Err(msg) => (1, Err(msg))
      case Ok(_) =>
        var rest := RunSequence(cmds[1..], outs[1..]);
        assert forall i :: 0 <= i < |cmds| - 1 ==> cmds[1..][i] == cmds[i + 1] && outs[1..][i] == outs[i + 1];
        (rest.0 + 1, rest.1)
  }

  /** The venv interpreter as the commands name it. */
  function VenvPythonText(platform: string): string {
    PathStr(VenvPythonExecutable(VENV_DIR, platform), IsWindows(platform))
  }

  function CreateCommand(hostPython: string, platform: string): Command {
    Command([hostPython, "-m", "venv", PathStr(VENV_DIR, IsWindows(platform))], "Virtual environment creation")
  }

  function Enum34Command(platform: string): Command {
    Command([VenvPythonText(platform), "-m", "pip", "install", "enum34"], "Pre-installation of enum34")
  }

  function UpgradeCommand(platform: string): Command {
    Command([VenvPythonText(platform), "-m", "pip", "install", "--upgrade", "pip", "setuptools", "wheel"],
            "Upgrade of core build tools")
  }

  function InstallCommand(platform: string): Command {
    Command([VenvPythonText(platform), "-m", "pip", "install", "--no-cache-dir", "-r",
             PathStr(REQUIREMENTS_FILE, IsWindows(platform)), "--no-build-isolation",
             "--use-deprecated=legacy-resolver"],
            "Final dependency installation")
  }

  /**
   The environment `create_and_install_venv` runs in: the interpreter running the
   program, the platform, whether the old venv directory exists and whether
   removing it succeeds, the outcome each of the four commands would have, and
   the size of the requirements file (`None` when it does not exist).
   */
  datatype VenvWorld = VenvWorld(
    hostPython: string,
    platform: string,
    venvExists: bool,
    removeSucceeds: bool,
    outcomes: seq<ProcOutcome>,
    requirementsSize: Option<nat>)

  /** What a call did: whether an old venv was removed, the commands issued in order, and how it ended. */
  datatype VenvRun = VenvRun(removedOld: bool, issued: seq<Command>, result: Result<(), string>)

  /** The install step runs only for an existing, non-empty requirements file. */
  predicate InstallPlanned(size: Option<nat>) {
    size.Some? && size.value > 0
  }

  /** The commands `create_and_install_venv` would issue if every one succeeded. */
  function Plan(w: VenvWorld): seq<Command> {
    [CreateCommand(w.hostPython, w.platform), Enum34Command(w.platform), UpgradeCommand(w.platform)]
    + (if InstallPlanned(w.requirementsSize) then [InstallCommand(w.platform)] else [])
  }

  /** `create_and_install_venv`. */
  function CreateAndInstallVenv(w: VenvWorld): (r: VenvRun)
    requires |w.outcomes| == 4
    ensures r.removedOld <==> w.venvExists && w.removeSucceeds
    ensures 1 <= |r.issued| <= |Plan(w)| && r.issued == Plan(w)[..|r.issued|]
    ensures r.result.Ok? <==> forall i :: 0 <= i < |Plan(w)| ==> Succeeded(w.outcomes[i])
    ensures r.result.Ok? ==> r.issued == Plan(w)
    ensures r.result.Err? ==> !Succeeded(w.outcomes[|r.issued| - 1])
    ensures forall i :: 0 <= i < |r.issued| - 1 ==> Succeeded(w.outcomes[i])
  {
    var plan := Plan(w);
    var run := RunSequence(plan, w.outcomes);
    VenvRun(w.venvExists && w.removeSucceeds, plan[..run.0], run.1)
  }

  /** The creation command always runs first, whether or not the old venv could be removed. */
  lemma CreationAlwaysAttempted(w: VenvWorld)
    requires |w.outcomes| == 4
    ensures CreateAndInstallVenv(w).issued[0] == CreateCommand(w.hostPython, w.platform)
  {
  }

  /** A failing command is the last one issued: nothing after it runs. */
  lemma FirstFailureAborts(w: VenvWorld, k: nat)
    requires |w.outcomes| == 4 && k < |Plan(w)|
    requires !Succeeded(w.outcomes[k]) && forall i :: 0 <= i < k ==> Succeeded(w.outcomes[i])
    ensures CreateAndInstallVenv(w).issued == Plan(w)[..k + 1]
    ensures CreateAndInstallVenv(w).result == Err(Plan(w)[k].errorMessage + " failed.")
  {
    var run := RunSequence(Plan(w), w.outcomes);
    assert run.1.Err?;
    assert run.0 == k + 1;
  }

  /**
   With the three set-up commands successful, the call returns normally without
   installing exactly when the requirements file is missing or empty.
   */
  lemma InstallSkippedIff(w: VenvWorld)
    requires |w.outcomes| == 4
    requires forall i :: 0 <= i < 3 ==> Succeeded(w.outcomes[i])
    ensures var r := CreateAndInstallVenv(w);
      (r.result.Ok? && |r.issued| == 3) <==> !InstallPlanned(w.requirementsSize)
  {
  }

  lemma PythonPathText()
    ensures Join(["tmp", ".venv_repro", "bin", "python"], '/') == "tmp/.venv_repro/bin/python"
  {
    assert Join(["bin", "python"], '/') == "bin/python";
    assert ["tmp", ".venv_repro", "bin", "python"][1..] == [".venv_repro", "bin", "python"];
    assert [".venv_repro", "bin", "python"][1..] == ["bin", "python"];
  }

  lemma PosixPaths(platform: string)
    requires !IsWindows(platform)
    ensures VenvPythonText(platform) == "tmp/.venv_repro/bin/python"
    ensures PathStr(REQUIREMENTS_FILE, IsWindows(platform)) == "tmp/requirements.txt"
  {
    assert VenvPythonExecutable(VENV_DIR, platform) == ["tmp", ".venv_repro", "bin", "python"];
    PythonPathText();
  }

  /** When the install runs, it is exactly the legacy-resolver install from the fixed requirements file. */
  lemma InstallCommandExact(w: VenvWorld)
    requires |w.outcomes| == 4 && !IsWindows(w.platform)
    requires |CreateAndInstallVenv(w).issued| == 4
    ensures CreateAndInstallVenv(w).issued[3].argv ==
      ["tmp/.venv_repro/bin/python", "-m", "pip", "install", "--no-cache-dir", "-r",
       "tmp/requirements.txt", "--no-build-isolation", "--use-deprecated=legacy-resolver"]
  {
    PosixPaths(w.platform);
    assert CreateAndInstallVenv(w).issued[3] == Plan(w)[3] == InstallCommand(w.platform);
  }
}
