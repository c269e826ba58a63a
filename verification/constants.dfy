/**
 The shared configuration of the pipeline: the fixed directory layout under the
 project root, the demo file name, the two timeouts, and the tables of step
 markers and step names that the pipeline prints and the batch runner reads back.
 */
module Constants {
  import opened Text

  /** A filesystem path as its sequence of components (`Path.parts`). */
  type Path = seq<string>

  /** `str(path)`: the components joined by the platform's separator. */
  function PathStr(p: Path, windows: bool): string {
    Join(p, if windows then '\\' else '/')
  }

  /** `TMP_DIR = ROOT / "tmp"`, where `ROOT` is the directory above `src/`. */
  function TmpDir(root: Path): Path { root + ["tmp"] }

  /** `REPO_DIR = TMP_DIR / "repo"`. */
  function RepoDir(root: Path): Path { TmpDir(root) + ["repo"] }

  /** `VENV_DIR = TMP_DIR / ".venv_repro"`. */
  function VenvDir(root: Path): Path { TmpDir(root) + [".venv_repro"] }

  /** `WORKSPACE_DIR = ROOT / "workspace"`. */
  function WorkspaceDir(root: Path): Path { root + ["workspace"] }

  const DEMO_FILENAME: string := "generated_demo.py"

  /** Seconds allowed for one run of the pipeline and for one run of a generated demo. */
  const PIPELINE_TIMEOUT: nat := 600
  const DEMO_TIMEOUT: nat := 120

  /** `STEP_MARKERS`: the text printed at the start of step k. */
  const STEP_MARKERS: map<int, string> := map[
    1 := "--- STEP 1:",
    2 := "--- STEP 2:",
    3 := "--- STEP 3:",
    4 := "--- STEP 4:",
    5 := "--- STEP 5:",
    6 := "--- STEP 6:",
    7 := "--- STEP 7:"
  ]

  /** `STEP_NAMES`: the human name of the last step reached, 0 meaning none. */
  const STEP_NAMES: map<int, string> := map[
    0 := "No steps completed",
    1 := "PDF Download/Loading",
    2 := "GitHub URL Extraction",
    3 := "Repository Cloning",
    4 := "Dependency Extraction",
    5 := "Virtual Environment Setup",
    6 := "Demo Generation",
    7 := "Demo Execution"
  ]

  /** The marker of step k is `--- STEP k:` for exactly the steps 1 to 7. */
  lemma StepMarkersDomain()
    ensures forall k :: k in STEP_MARKERS <==> 1 <= k <= 7
    ensures forall k :: 1 <= k <= 7 ==> STEP_MARKERS[k] == "--- STEP " + [DigitChar(k)] + ":"
  {
  }

  /** Every possible last-step value 0..7 has a name, and nothing else has. */
  lemma StepNamesDomain()
    ensures forall k :: k in STEP_NAMES <==> 0 <= k <= 7
    ensures forall k :: k in STEP_MARKERS ==> k in STEP_NAMES
  {
  }

  /** Two strings of the same length contain each other only when they are equal. */
  lemma SameLengthContains(a: string, b: string)
    requires |a| == |b| && Contains(a, b)
    ensures a == b
  {
    var i :| 0 <= i <= |a| - |b| && OccursAt(a, b, i);
    assert i == 0;
  }

  /** No step marker occurs inside another, so looking for one cannot find a different step. */
  lemma MarkersUnambiguous(j: int, k: int)
    requires j in STEP_MARKERS && k in STEP_MARKERS && j != k
    ensures !Contains(STEP_MARKERS[j], STEP_MARKERS[k])
  {
    StepMarkersDomain();
    assert STEP_MARKERS[j][9] == DigitChar(j) != DigitChar(k) == STEP_MARKERS[k][9];
    if Contains(STEP_MARKERS[j], STEP_MARKERS[k]) {
      SameLengthContains(STEP_MARKERS[j], STEP_MARKERS[k]);
      assert false;
    }
  }
}
