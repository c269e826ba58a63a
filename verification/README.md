# Repoduce-Me in Dafny

A model of the core of Repoduce-Me, a pipeline that goes from a research paper to a
runnable demo of the paper's code. It downloads (or opens) the paper, finds the
GitHub link, clones the repository, lists its third-party imports, provisions a
virtual environment, generates a demo script and optionally runs it. Around that
pipeline sits a batch runner. It runs the pipeline on many papers, reads each run's
log back (last step reached, last error line, error category, repository name) and
aggregates the rows into a summary.

The model is purely functional. Every external effect is an input to the function
that would perform it:
- git, pip, venv and demo processes;
- `rmtree`, `chmod` and file reads;
- the PDF download, the paper parser, the demo generator and the language model.

A process becomes a `ProcOutcome`: an exit code with its output, a timeout, a missing
executable, or another exception kind. A collaborator call becomes a `Call<T>`: a
returned value or a raised exception kind.

| file | module | models |
|---|---|---|
| `outcomes.dfy` | `Outcomes` | `Option`, `Result`, exception kinds, process outcomes, collaborator calls |
| `text.dfy` | `Text` | the Python string operations the code relies on: `strip` (with `str.isspace`), ASCII `lower`, `in`, `find`, `split`/`join`, `splitlines`, character-class runs for the regular expressions |
| `ordering.dfy` | `LexOrder` | code-point order of strings and `sorted` on a set |
| `constants.dfy` | `Constants` | `constants.py`: the directory layout, the timeouts, `STEP_MARKERS`, `STEP_NAMES` |
| `requirements_extract.dfy` | `RequirementsExtract` | the import scanner, the standard-library filter and rename table, the walk, the manifest |
| `utils.dfy` | `Utils` | `pip list --format=freeze` parsing, `clone_repository`, `run_demo` |
| `downloader.dfy` | `Downloader` | the bounded-retry cleanup, its error handler, the git command, `download` |
| `venv_create.dfy` | `VenvCreate` | the interpreter path, `execute_subprocess`, the create → `enum34` → upgrade → install sequence |
| `repo_ingestor.dfy` | `RepoIngestor` | construction defaults, the file-selection predicate, the NUL-byte guard, the skip-on-error loop |
| `batch_eval.dfy` | `BatchEval` | the log readers, the error categoriser, the demo classifier, the per-URL row, the batch loop, the summary counts |
| `pipeline.dfy` | `Pipeline` | `main.py`: the seven-step control flow and its exit codes |

Regular expressions are written out as string functions with the exact semantics of
the patterns used:
- `import\s+([a-zA-Z0-9_]+)` and `from\s+([a-zA-Z0-9_\.]+)\s+import` are anchored runs over character classes;
- `Repository successfully cloned into: .*?/([^/\n]+)(?:\s|$)` is a search for the first phrase whose line the lazy `.*?` can complete, with the backtracking of `[^/\n]+` onto the last whitespace before the line's next `/`.

## Model

| member | source | states |
|---|---|---|
| RequirementsExtract.MatchImport | Repoduce-Me/src/requirements_extract.py:45-48 | a match gives a non-empty run of identifier characters, and only for text that starts with `import` |
| RequirementsExtract.MatchFrom | Repoduce-Me/src/requirements_extract.py:51-53 | a match gives a non-empty dotted name, and only for text that starts with `from` |
| RequirementsExtract.FirstSegment | Repoduce-Me/src/requirements_extract.py:54 | the first dot-segment is a dot-free prefix of the dotted name |
| RequirementsExtract.ExtractModuleName | Repoduce-Me/src/requirements_extract.py:38-62 | a name is only found in a line whose stripped text starts with `import` or `from`, and it is made of identifier characters |
| RequirementsExtract.ImportLineName | Repoduce-Me/src/requirements_extract.py:42-48 | after any leading whitespace, `import` + whitespace + name yields the maximal identifier run: `import PIL.Image as Image` gives `PIL` and `import os, sys` gives only `os` |
| RequirementsExtract.FromLineName | Repoduce-Me/src/requirements_extract.py:42-60 | an (indented) `from A.B.C import x` yields the first dot-segment `A` |
| RequirementsExtract.RelativeImportIgnored | Repoduce-Me/src/requirements_extract.py:54-60 | a relative import contributes nothing: its first segment is empty, and empty names are never added |
| RequirementsExtract.NonImportLineIgnored | Repoduce-Me/src/requirements_extract.py:42-62 | a line whose stripped text starts with neither `import` nor `from` contributes nothing |
| RequirementsExtract.ImportantIsNoImport | Repoduce-Me/src/requirements_extract.py:45-51 | `important = 1` starts with `import` but is not an import: the keyword must be followed by whitespace |
| RequirementsExtract.LinesNames | Repoduce-Me/src/requirements_extract.py:101-104 | every name collected from lines is non-empty and made of identifier characters |
| RequirementsExtract.ScanLines | Repoduce-Me/src/requirements_extract.py:101-104 | scanning lines adds exactly their names to the names already collected |
| RequirementsExtract.AnalyzeFile | Repoduce-Me/src/requirements_extract.py:97-107 | a read error stops the file but keeps every name from the lines read before it; earlier names are never lost |
| RequirementsExtract.ScanFiles | Repoduce-Me/src/requirements_extract.py:79-82 | a name is collected iff it was already present or comes from a `.py` file of the directory |
| RequirementsExtract.ScanTree | Repoduce-Me/src/requirements_extract.py:75-82 | a name is collected iff it was already present or comes from a `.py` file of a directory no component of whose path starts with `.` |
| RequirementsExtract.ScanAccumulates | Repoduce-Me/src/requirements_extract.py:36 | the collected set is never cleared: a second scan is the union with the first |
| RequirementsExtract.HiddenTreeAddsNothing | Repoduce-Me/src/requirements_extract.py:76-77 | directories under a dot-component contribute nothing |
| RequirementsExtract.ScanValid | Repoduce-Me/src/requirements_extract.py:75-82 | the walk only ever collects well-formed names |
| RequirementsExtract.Classify | Repoduce-Me/src/requirements_extract.py:84-91 | the result holds no standard-library name; every non-standard name appears under its install name, and nothing else appears |
| RequirementsExtract.StandardLibraryExcluded | Repoduce-Me/src/requirements_extract.py:84-85 | a standard-library module alone yields nothing |
| RequirementsExtract.ClassifyExample | Repoduce-Me/src/requirements_extract.py:84-93 | the sorted manifest of `{PIL, numpy, os, sys}` is exactly `["Pillow", "numpy"]` |
| RequirementsExtract.ManifestLines | Repoduce-Me/src/requirements_extract.py:115-117 | the manifest splits at newlines back into the listed names, followed by the empty text after the final newline |
| RequirementsExtract.ManifestIsJoin | Repoduce-Me/src/requirements_extract.py:115-117 | the manifest is every name followed by a newline |
| RequirementsExtract.ManifestDeterministic | Repoduce-Me/src/requirements_extract.py:93-95 | any two sorted, duplicate-free listings of the classified set give the same manifest |
| RequirementsExtract.AnalyzeRepo | Repoduce-Me/src/requirements_extract.py:64-123 | a non-directory returns without writing; a failing `mkdir` propagates; a failing open leaves the old manifest and a failing write leaves a prefix of the new text, both reported, not raised; the manifest is written in full iff nothing fails, and it lists the classified names strictly sorted |
| RequirementsExtract.FreshManifestReadsBack | Repoduce-Me/src/requirements_extract.py:75-117 | the manifest of a fresh scan reads back as its listing |
| LexOrder.SortSet | Repoduce-Me/src/requirements_extract.py:93 | `sorted` gives every member of the set exactly once, in strictly increasing code-point order |
| LexOrder.SortedUnique | Repoduce-Me/src/requirements_extract.py:93 | two strictly sorted sequences with the same members are equal |
| Constants.StepMarkersDomain | Repoduce-Me/src/constants.py:132-140 | the markers are defined for exactly steps 1 to 7, and step k's marker is `--- STEP k:` |
| Constants.StepNamesDomain | Repoduce-Me/src/constants.py:142-151 | the names are defined for exactly steps 0 to 7, which covers every step that has a marker |
| Constants.MarkersUnambiguous | Repoduce-Me/src/constants.py:132-140 | no step marker occurs inside another |
| Pipeline.TmpPathsAgree | Repoduce-Me/src/constants.py:15-18 | under `--tmp` the pipeline's `repo` and `.venv_repro` directories are the configuration's `REPO_DIR` and `VENV_DIR`; without it the repository lives elsewhere |
| BatchEval.RunSubprocess | Repoduce-Me/src/batch_eval.py:35-51 | a finished process is returned as is; a timeout becomes code -1 with the captured output kept and exactly `TIMEOUT after <t>s` and a newline put in front of the captured error output; decoding a capture that does not decode raises; other exceptions propagate |
| BatchEval.TimeoutMarked | Repoduce-Me/src/batch_eval.py:45-51 | a timed-out run whose capture decodes has error output that contains `TIMEOUT`, and `timeout` once lowercased |
| BatchEval.DetectLastStep | Repoduce-Me/src/batch_eval.py:54-60 | the result is 0 or a step whose marker occurs in the log, and no higher step's marker occurs |
| BatchEval.DetectLastStepIsMax | Repoduce-Me/src/batch_eval.py:54-60 | when k's marker occurs and no higher marker does, the result is k |
| BatchEval.DetectLastStepMonotone | Repoduce-Me/src/batch_eval.py:54-60 | adding text around a log never lowers the detected step |
| BatchEval.LastErrorIndex | Repoduce-Me/src/batch_eval.py:66-67 | the backward search finds the last `[ERROR]`/`[FATAL]` line, or none when there is none |
| BatchEval.ExtractLastErrorLine | Repoduce-Me/src/batch_eval.py:63-69 | the empty text iff no line holds `[ERROR]` or `[FATAL]`; otherwise the stripped last such line, which still holds the marker |
| BatchEval.FirstFiring | Repoduce-Me/src/batch_eval.py:77-98 | the first category whose test holds, with no earlier test holding |
| BatchEval.CategorizeIsFirstMatch | Repoduce-Me/src/batch_eval.py:72-98 | `categorize_error` returns the first category, in the order the chain checks them, whose condition holds |
| BatchEval.TimeoutDominates | Repoduce-Me/src/batch_eval.py:77-78 | `timeout` in the lowercased log or error line gives `TIMEOUT`, whatever the later tests say |
| BatchEval.UnknownIff | Repoduce-Me/src/batch_eval.py:87-98 | `UNKNOWN` iff none of the ten tests holds; so it implies an empty error line |
| BatchEval.ErrorLineCaseIgnored | Repoduce-Me/src/batch_eval.py:74-75 | error lines that differ only in letter case are categorised alike |
| BatchEval.InstallFailedNeedsErrorLine | Repoduce-Me/src/batch_eval.py:87-96 | the install, venv, network and other-error categories look only at the error line: without one they never result |
| BatchEval.NeverBatchRunnerError | Repoduce-Me/src/batch_eval.py:72-98 | categorising a log never gives the crash category `BATCH_RUNNER_ERROR` |
| BatchEval.GetVenvPython | Repoduce-Me/src/batch_eval.py:101-105 | the batch runner's demo interpreter is the venv interpreter of `tmp/.venv_repro` |
| BatchEval.GroupAfter | Repoduce-Me/src/batch_eval.py:112 | the captured group is a non-empty, slash-free prefix ending at the end of the line or before whitespace, and the longest such prefix within the slash-free run; no match exists exactly when no such prefix does |
| BatchEval.LastSpaceBefore | Repoduce-Me/src/batch_eval.py:112 | the backtracking point is the last whitespace inside the slash-free run |
| BatchEval.LastSegment | Repoduce-Me/src/batch_eval.py:112 | on a path of whitespace-free segments, the group is the last segment |
| BatchEval.MatchInLine | Repoduce-Me/src/batch_eval.py:112 | within one line the match fails iff no slash can start the group; otherwise the group is the one after the first slash that can |
| BatchEval.MatchSkipsSlashFree | Repoduce-Me/src/batch_eval.py:112 | the lazy `.*?` passes over text without a slash |
| BatchEval.SearchClone | Repoduce-Me/src/batch_eval.py:112 | `re.search` fails iff no position of the log matches; otherwise the group is the one of the leftmost position that matches |
| BatchEval.SearchAtPhrase | Repoduce-Me/src/batch_eval.py:112 | the search takes the group of the line after the first phrase when that line matches |
| BatchEval.ExtractRepoName | Repoduce-Me/src/batch_eval.py:108-118 | a name is returned iff the leftmost match exists and its stripped group is neither `repo` nor holds `---`; the name is that stripped group |
| BatchEval.ClonedIntoRepoGivesNone | Repoduce-Me/src/batch_eval.py:112-118 | the pipeline's own success line `cloned into: …/repo` never yields a name |
| BatchEval.DemoSummary | Repoduce-Me/src/batch_eval.py:226-228 | the summary is the stripped error output, or the stripped standard output when the former is blank |
| BatchEval.ClassifyDemoError | Repoduce-Me/src/batch_eval.py:230-247 | `MISSING_MODULE`, then `IMPORT_ERROR`, then `TIMEOUT`, then `RUNTIME_ERROR` for any non-empty summary, else `UNKNOWN`, each iff the earlier tests fail |
| BatchEval.Truncate | Repoduce-Me/src/batch_eval.py:249-250 | a summary over 500 characters becomes its first 500 followed by `... [truncated]`; shorter ones are kept |
| BatchEval.RunGeneratedDemo | Repoduce-Me/src/batch_eval.py:187-258 | without a demo or interpreter nothing runs; an exception of the run, or an undecodable timeout capture, propagates; otherwise `demo_ok` iff the code is 0, `demo_timeout` iff it is -1, and a failure carries the classified type and the truncated summary of its output |
| BatchEval.TimedOutSummary | Repoduce-Me/src/batch_eval.py:45-51 | a timed-out demo whose capture decodes has a summary that contains `TIMEOUT` |
| BatchEval.DemoTimeoutClassified | Repoduce-Me/src/batch_eval.py:217-240 | a timed-out demo whose capture decodes is a failed run with code -1, marked as timed out, whose type is a module, import or timeout error; one whose capture does not decode raises |
| BatchEval.RunMainForUrl | Repoduce-Me/src/batch_eval.py:131-184 | an exception of the run, an undecodable timeout capture or an unwritable log propagates; otherwise the record carries the URL, index and code, `pipeline_ok` iff the code is 0, and last step, error line, category, timeout flag and repository name are those the log readers give for the combined output |
| BatchEval.PipelineTimeoutRow | Repoduce-Me/src/batch_eval.py:149-176 | a pipeline timeout whose capture decodes gives code -1, not ok, timed out, category `TIMEOUT`; one whose capture does not decode raises |
| BatchEval.CrashIsNoStepName | Repoduce-Me/src/constants.py:142-151 | `CRASH` is no step's name |
| BatchEval.ProcessUrl | Repoduce-Me/src/batch_eval.py:470-529 | each row belongs to its URL and index; an exception from the pipeline's run, its log write or the demo's run gives the crash row, recognisable by code -999 and step name `CRASH`; a failed pipeline is merged with the empty demo record, a successful one with the demo's record |
| BatchEval.CrashRowIffRaised | Repoduce-Me/src/batch_eval.py:470-529 | the crash row appears exactly when the pipeline's run or the demo's run raised; otherwise the row's pipeline fields are the pipeline's record |
| BatchEval.UndecodableTimeoutCrashes | Repoduce-Me/src/batch_eval.py:470-529 | a pipeline timeout whose capture does not decode ends in the crash row |
| BatchEval.BatchMain | Repoduce-Me/src/batch_eval.py:466-529 | one row per URL in order, up to an interrupt, each row consistent and the one its URL's run gives |
| BatchEval.Bump | Repoduce-Me/src/batch_eval.py:319-322 | `d[k] = d.get(k, 0) + 1` raises the count of `k` by one and leaves every other count alone |
| BatchEval.Tally | Repoduce-Me/src/batch_eval.py:319-334 | the counts are the multiplicities of the keys, with distinct keys and total equal to the number of keys |
| BatchEval.FailedCategoriesSplit | Repoduce-Me/src/batch_eval.py:324-328 | the error categories are exactly those of the failed rows, in row order: each row adds its category when its pipeline failed and nothing otherwise |
| BatchEval.DemoErrorsSplit | Repoduce-Me/src/batch_eval.py:330-334 | the demo error types are exactly those of the rows whose demo failed with a type, in row order |
| BatchEval.SummaryCounts | Repoduce-Me/src/batch_eval.py:312-349 | no rows is an error (the percentage divides by zero); otherwise the three success counts are the numbers of rows with a successful pipeline, a generated demo and a successful demo; each dict has distinct keys and gives every step, every failed row's category and every typed demo failure's type exactly its number of occurrences |
| BatchEval.CountWhereSplit | Repoduce-Me/src/batch_eval.py:315-317 | each row adds one to a success count exactly when it has the counted property, wherever it stands |
| BatchEval.CountsOrdered | Repoduce-Me/src/batch_eval.py:315-317 | demos that ran fine ≤ demos generated ≤ successful pipelines |
| BatchEval.StepKeysNamed | Repoduce-Me/src/batch_eval.py:319-322 | every step in the distribution has a name |
| BatchEval.BatchSummary | Repoduce-Me/src/batch_eval.py:450-546 | the summary of a batch orders its counts and names all its steps, and fails only when nothing was processed |
| Utils.FreezeLineName | Repoduce-Me/src/utils.py:24-29 | a line with `==` gives the stripped, lowercased text before the first `==`; any other non-blank line gives itself stripped and lowercased; a blank line gives nothing |
| Utils.EmptyNameLine | Repoduce-Me/src/utils.py:25-27 | `==1.0` contributes the empty name |
| Utils.ParseFreeze | Repoduce-Me/src/utils.py:23-31 | every package name is lowercase with no surrounding whitespace |
| Utils.GetInstalledPackages | Repoduce-Me/src/utils.py:8-34 | a non-zero exit, a timeout or any exception gives the empty set; a clean exit gives the parsed output |
| Utils.FreezeLineRoundTrip | Repoduce-Me/src/utils.py:25-27 | the line `name==version` gives back `name` |
| Utils.FreezeRoundTrip | Repoduce-Me/src/utils.py:23-31 | parsing the freeze output of a package list, the empty list included, gives back exactly its names |
| Utils.EmptyFreeze | Repoduce-Me/src/utils.py:23-29 | empty output names no package |
| Utils.CloneRepository | Repoduce-Me/src/utils.py:37-69 | an existing target whose removal fails propagates the error and git never runs; otherwise exactly `git clone --depth 1 <url> <target>` runs and the result is True iff it exits 0 |
| Utils.CloneOutcomeOnlyOnExitCode | Repoduce-Me/src/utils.py:54-69 | a timeout, a missing git and any other error are all just False |
| Utils.RunDemo | Repoduce-Me/src/utils.py:72-106 | True iff the demo exits 0 |
| Downloader.ErrorHandler | Repoduce-Me/src/downloader.py:22-36 | swallowed iff an OS error whose chmod and retry both succeed; a failing chmod raises its own error; otherwise the original error is raised again |
| Downloader.NonOSErrorReraised | Repoduce-Me/src/downloader.py:25-36 | a non-OS error is raised again untouched |
| Downloader.RmtreeAttempt | Repoduce-Me/src/downloader.py:48 | one removal succeeds iff every handler call is swallowed; otherwise it fails with the first error not swallowed |
| Downloader.Cleanup | Repoduce-Me/src/downloader.py:38-57 | nothing happens for a missing target or no retries; at most `max_retries` attempts, the sleeps one fewer; it stops at the first success; after the last failure that failure propagates |
| Downloader.CleanupRunDetermined | Repoduce-Me/src/downloader.py:38-57 | those promises fix the number of attempts, the sleeps and the error raised |
| Downloader.GitArgv | Repoduce-Me/src/downloader.py:71-76 | `git clone`, then `--branch b` only for a non-empty branch, then link and target |
| Downloader.GitArgvRoundTrip | Repoduce-Me/src/downloader.py:71-76 | the command determines the link, target and non-empty branch it was built from |
| Downloader.Download | Repoduce-Me/src/downloader.py:59-99 | a failed cleanup gives False without running git; otherwise True iff git exits 0; a non-zero exit, a missing git or any other `FileNotFoundError` gives False; every other exception propagates; the cleanup is the one its attempts determine |
| VenvCreate.VenvPythonExecutable | Repoduce-Me/src/venv_create.py:13-19 | the interpreter sits two components below the venv and is `python.exe` on `win*` platforms, `python` elsewhere |
| VenvCreate.VenvPythonLayout | Repoduce-Me/src/venv_create.py:15-19 | `Scripts` iff a `win*` platform, `bin` iff not |
| VenvCreate.ExecuteSubprocess | Repoduce-Me/src/venv_create.py:22-39 | success iff the command exits 0; every failure becomes `<message> failed.` |
| VenvCreate.FailureTextIndependentOfCause | Repoduce-Me/src/venv_create.py:28-39 | the error text names the command, not how it failed |
| VenvCreate.RunSequence | Repoduce-Me/src/venv_create.py:59-108 | commands run in order and the first failure stops the rest |
| VenvCreate.CreateAndInstallVenv | Repoduce-Me/src/venv_create.py:42-110 | the old venv is gone only if its removal worked; the commands issued are a prefix of create → `enum34` → upgrade → install; success iff every planned command succeeds |
| VenvCreate.CreationAlwaysAttempted | Repoduce-Me/src/venv_create.py:50-62 | a failed removal of the old venv is only a warning: creation still runs first |
| VenvCreate.FirstFailureAborts | Repoduce-Me/src/venv_create.py:59-108 | a failing command is the last one issued, and its message is the error |
| VenvCreate.InstallSkippedIff | Repoduce-Me/src/venv_create.py:86-88 | after the three set-up commands, the call returns without installing iff the requirements file is missing or empty |
| VenvCreate.InstallCommandExact | Repoduce-Me/src/venv_create.py:93-103 | on a POSIX platform (the Windows argv is not stated) the install command is exactly `tmp/.venv_repro/bin/python -m pip install --no-cache-dir -r tmp/requirements.txt --no-build-isolation --use-deprecated=legacy-resolver` |
| RepoIngestor.Init | Repoduce-Me/src/repo_ingestor.py:17-33 | a missing root raises `FileNotFoundError`; a missing or empty extension or directory set is replaced by its default |
| RepoIngestor.Suffix | Repoduce-Me/src/repo_ingestor.py:47 | a suffix is empty or a dot followed by dot-free text, and it ends the name |
| RepoIngestor.IterFiles | Repoduce-Me/src/repo_ingestor.py:36-54 | an entry is yielded iff it is a regular file, has no excluded path component, has no suffix or an included lowercased one, and is at most the size bound |
| RepoIngestor.IterFilesSplit | Repoduce-Me/src/repo_ingestor.py:36-54 | the yielded entries are exactly the selected ones in walk order: each entry contributes itself when selected and nothing otherwise |
| RepoIngestor.ExcludedAncestorHidesAll | Repoduce-Me/src/repo_ingestor.py:44-45 | an excluded directory above the root excludes every file |
| RepoIngestor.SizeBoundary | Repoduce-Me/src/repo_ingestor.py:50-52 | a file of exactly the bound is kept and one byte more is dropped |
| RepoIngestor.UpperCaseSuffix | Repoduce-Me/src/repo_ingestor.py:47-48 | suffixes are compared in lower case: `README.MD` is kept |
| RepoIngestor.DotEdgeSuffixes | Repoduce-Me/src/repo_ingestor.py:47 | `.bashrc` and `archive.` have no suffix, so are kept |
| RepoIngestor.ReadFile | Repoduce-Me/src/repo_ingestor.py:56-69 | a read failure and data holding a NUL byte are errors; other data is returned |
| RepoIngestor.SentFiles | Repoduce-Me/src/repo_ingestor.py:76-99 | every readable file is sent, no sent content holds a NUL byte, and nothing is sent iff no file is readable |
| RepoIngestor.SentFilesSplit | Repoduce-Me/src/repo_ingestor.py:76-99 | the files sent are exactly the readable ones, in order, each with its content |
| RepoIngestor.SkipContinues | Repoduce-Me/src/repo_ingestor.py:79-81 | an unreadable file is skipped and the loop goes on |
| RepoIngestor.IngestAsWritten | Repoduce-Me/src/repo_ingestor.py:76-101 | the final report works iff something was sent, and then names the last file sent |
| RepoIngestor.Ingest | Repoduce-Me/src/repo_ingestor.py:72-101 | the corrected loop always completes; it names a file iff some file was readable, and then the last readable one |
| RepoIngestor.LastSentIsLastReadable | Repoduce-Me/src/repo_ingestor.py:76-101 | the last file sent is the last candidate `read_file` accepts |
| RepoIngestor.IngestAgreesWhenSomethingSent | Repoduce-Me/src/repo_ingestor.py:72-101 | the correction changes nothing when something was sent |
| Pipeline.WorkDir | Repoduce-Me/src/main.py:83 | `tmp` with `--tmp`, `workspace` otherwise, directly under the project root |
| Pipeline.ExitCode | Repoduce-Me/src/main.py:255-268 | 130 iff a keyboard interrupt, 1 for every other exception |
| Pipeline.NoteOf | Repoduce-Me/src/main.py:158-164 | a sentinel is recognised only as the first entry; otherwise the note counts the dependencies |
| Pipeline.SentinelOnlyFirst | Repoduce-Me/src/main.py:159-164 | a sentinel in second place is counted as a dependency |
| Pipeline.Finish | Repoduce-Me/src/main.py:177-268 | steps 5 to 7 end in 0, 1 or 130; success reaches step 7 with `--auto-run` and 6 without; a failure stops by step 6 and runs no demo; a demo that was started fails the run only by an interrupt, with 130 in step 7; a demo runs only if generated, requested and present |
| Pipeline.Main | Repoduce-Me/src/main.py:83-268 | exit code 0, 1 or 130; a failing `makedirs` before the `try` exits 1 before any step; success reaches step 7 with `--auto-run` and 6 without; a failure stops by step 6 and runs no demo; an interrupted demo exits 130 in step 7; the dependency note exists iff step 5 was reached; exit 130 exactly when a keyboard interrupt arrived during the step the run stopped in; a failed run stops in the first step that fails, every earlier step having got through |
| Pipeline.EarlySteps | Repoduce-Me/src/main.py:95-171 | steps 1 to 4 end in the first step that fails (the download, a missing local file, no link, the clone or an interrupted analysis), the exception being an interrupt exactly when one arrived in that step |
| Pipeline.GenerateDemo | Repoduce-Me/src/main.py:195-223 | a demo counts as generated iff `--skip-demo` is off and the generator returned a non-empty path that exists; only an interrupt escapes |
| Pipeline.DemoGeneratedIff | Repoduce-Me/src/main.py:195-223 | a run records a generated demo iff it reached step 6 without `--skip-demo` and the generator returned a non-empty existing path |
| Pipeline.DownloadFailureFatal | Repoduce-Me/src/main.py:101-109 | a download that reports failure raises a RuntimeError and exits 1 in step 1 |
| Pipeline.CloneFailureFatal | Repoduce-Me/src/main.py:139-145 | a clone that reports failure, uninterrupted, raises a RuntimeError and exits 1 in step 3 |
| Pipeline.SuccessIff | Repoduce-Me/src/main.py:85-253 | exit 0 iff the work directory is created, the input resolves, a link is found, the clone works and is not interrupted, the analysis raises no interrupt, the venv is set up, demo generation raises no interrupt, and a started demo is not interrupted |
| Pipeline.CloneInterruptExits | Repoduce-Me/src/main.py:142-146 | an interrupt during the clone exits 130 in step 3 |
| Pipeline.DemoRunInterruptExits | Repoduce-Me/src/main.py:228-230 | an interrupt during a demo that would run exits 130 in step 7 |
| Pipeline.MissingLocalFile | Repoduce-Me/src/main.py:101-114 | a non-URL input that does not exist exits 1 in step 1 |
| Pipeline.GithubSkipsParsing | Repoduce-Me/src/main.py:123-125 | with `--github` the paper parser plays no part |
| Pipeline.NoLinkFails | Repoduce-Me/src/main.py:126-132 | no link found in the paper exits 1 in step 2 |
| Pipeline.DepsNeverAbort | Repoduce-Me/src/main.py:154-171 | any exception of the dependency analysis other than an interrupt leaves the exit code and the step reached as an empty analysis would |
| Pipeline.VenvFailureFatal | Repoduce-Me/src/main.py:179-187 | a failed venv set-up exits 1 in step 5 |
| Pipeline.InterruptNotAbsorbed | Repoduce-Me/src/main.py:154-263 | the absorbing `except Exception` clauses of steps 4 and 6 let a keyboard interrupt through to exit 130 |
| Pipeline.AutoRunGate | Repoduce-Me/src/main.py:194-232 | on success the demo runs iff `--auto-run`, a demo was generated and its path exists |
| Pipeline.SkipDemoNoDemo | Repoduce-Me/src/main.py:194-232 | with `--skip-demo` no demo is generated or run |
| Pipeline.LastStepMatchesReached | Repoduce-Me/src/main.py:102-229 | the output of a run, a marker at the start of each step entered with any text around and between them that holds no marker prefix, reads back through `detect_last_step` as exactly the last step the run entered; output added before or after can only raise the step detected |
| Pipeline.StepLogDetected | Repoduce-Me/src/batch_eval.py:54-60 | the markers of steps 1 to n, printed in order with any text around them that holds no marker prefix, read back as n |
| Pipeline.MarkerPlacement | Repoduce-Me/src/constants.py:132-140 | a step marker found around another lies wholly before it, is it, or lies wholly after it |
| Pipeline.LaterMarkerAbsent | Repoduce-Me/src/constants.py:132-140 | the marker of a step not yet entered never occurs in the output of the earlier steps when their text holds no marker prefix |
| Pipeline.LastMarkerPresent | Repoduce-Me/src/main.py:102-229 | the marker of the last step entered occurs in the printed markers |

## Left out

- Processes, the filesystem, the network and the language model are inputs, never performed: git, pip, venv creation, the demo script, `rmtree`, `chmod`, `os.walk`, file reads and writes, the PDF download, `PaperParser`, `DemoCreator`, `ConstructorModel`. `paper_extracter`, `demo_creator` and `constructor_model` are not part of this model.
- Console printing, the CSV, JSON and summary report text, wall-clock durations, `time.sleep` (counted as a number of sleeps), rounded float durations and percentages.
- `cleanup_tmp_directory` (batch_eval.py:121-128): it only prints its outcome, and its effect on `tmp/` is part of the filesystem outside the model.
- `RepoIngestor.explain_repo` and the prompt text sent by `ingest`: model calls. The model records which files are sent and what the final report names.
- UTF-8 decoding with `errors="ignore"` in `read_file` and the encoding of file reads in general: contents are bytes or lines as given.
- `lower()` is ASCII-only in the model; Python lowercases all of Unicode.
- RepoIngestor.IterFiles: the size test compares `st_size / 1024` as a float with the bound; the model compares bytes with `1024 * max_file_size_kb`, which agrees for integers.
- The `--python` and `--no-cleanup` options of `main.py` and its `preinstall_deps` argument: they are passed on to `setup_venv_and_install`, which is an input of the model.
- Step 6 calls `get_installed_packages` before generating the demo. The model folds it into the demo generator's outcome, since `main` only passes the result on.
- Pipeline.Main: the demo run of step 7 (`run_demo`) is recorded as attempted, not as succeeded, because `main` ignores its result; only a keyboard interrupt during it changes the outcome.
- Pipeline.LastStepMatchesReached: the text printed between markers is a parameter that must hold no `--- STEP ` prefix; the model does not derive the printed text from the collaborators' output.
- Defects that stop the programs before the modelled code runs are not modelled; each module is modelled as if its imports succeeded.
  - `constants.py:3` imports `random` from `math`, which fails.
  - `batch_eval.py:460` and `:469` read `PAPER_URLS`, which is never defined (the configuration calls it `ALL_PAPER_URLS`). `BatchMain` takes the URL list as a parameter.
  - `main.py:24` imports `setup_venv_and_install` and `get_venv_python` from `venv_create.py`, which defines neither. The venv step of `Pipeline.Main` is the `venv` input, not `VenvCreate.CreateAndInstallVenv`.
  - `main.py:155-156` constructs `RequirementsExtractor(repo_dir=…)` and calls `.extract()`, neither of which the class supports. The model keeps the general case, an analysis that returns or raises; a raise is absorbed as in lines 165-170.
  - `main.py:107` calls `download_pdf`, which `Downloader` does not define. The model treats the call as an input that may return or raise.
- The `startswith('.')` guard of `_extract_module_name` (requirements_extract.py:57-58) can never hold, because the first segment of a dotted name holds no dot. The model keeps the code's effective behaviour: a relative import yields the empty name, which `_analyze_file` drops.
- The `__main__` demonstration blocks of `requirements_extract.py`, `downloader.py` and `repo_ingestor.py` are not modelled. `RequirementsExtract.ClassifyExample` states the outcome the first of them describes.
- `random.seed()` in `batch_eval.py`: it affects nothing that is modelled.
- BatchEval.RunSubprocess: the timeout message prints the timeout as Python formats the integer; the model writes a natural number in decimal, which agrees.
- Downloader.Download: `download` passes no timeout to git, so a git timeout cannot happen and the model does not take one.

## Findings

| source | as written | input that shows it | evidently intended | confidence | as-written member | corrected member |
|---|---|---|---|---|---|---|
| Repoduce-Me/src/repo_ingestor.py:76-101 | the final `print(f"Processed {rel_path}")` reads `rel_path`, which is only bound inside the loop after a file is read successfully | a root whose only candidate file holds a NUL byte, or a root with no candidate file: the loop never binds `rel_path` and `ingest` ends in `UnboundLocalError` | the report names the last file processed when there is one and otherwise completes without naming one | not executed | RepoIngestor.IngestAsWritten (shown by RepoIngestor.IngestAsWrittenFailsOnBinary and RepoIngestor.IngestAsWrittenFailsOnEmpty) | RepoIngestor.Ingest (related by RepoIngestor.IngestAgreesWhenSomethingSent) |
