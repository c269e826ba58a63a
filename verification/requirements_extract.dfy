/**
 The import scanner and dependency classifier (`RequirementsExtractor`).

 A source line is stripped and matched against the two import patterns; the
 top-level module names found in the `.py` files of the visible directories of a
 repository are accumulated in the extractor's set, the standard-library names
 are dropped, the rest are renamed to their installable names, and the sorted
 result is written one name per line to the manifest `requirements.txt`.
 */
module RequirementsExtract {
  import opened Outcomes
  import opened Text
  import opened LexOrder

  // ---------------------------------------------------------------------------
  // Tables
  // ---------------------------------------------------------------------------

  /** The modules treated as built in and never written to the manifest. */
  const STANDARD_LIBRARY: set<string> := {
    "os", "sys", "pathlib", "re", "json", "csv", "math", "time", "datetime",
    "typing", "collections", "itertools", "functools", "logging", "argparse",
    "subprocess", "shutil", "tempfile", "threading", "queue", "socket",
    "http", "urllib", "xml", "html", "unittest", "doctest", "warnings",
    "dataclasses", "abc", "enum", "decimal", "io", "pickle", "gzip", "zipfile",
    "hashlib", "base64", "asyncio"
  }

  /** Import names whose installable package has a different name. */
  const IMPORT_TO_INSTALL_NAME: map<string, string> := map["PIL" := "Pillow"]

  /** `IMPORT_TO_INSTALL_NAME.get(m, m)`. */
  function InstallName(m: string): string {
    if m in IMPORT_TO_INSTALL_NAME then IMPORT_TO_INSTALL_NAME[m] else m
  }

  // ---------------------------------------------------------------------------
  // One line
  // ---------------------------------------------------------------------------

  /** `re.match(r"import\s+([a-zA-Z0-9_]+)", s)`, giving group 1. */
  function MatchImport(s: string): (r: Option<string>)
    ensures r.Some? ==> |r.value| > 0 && forall i :: 0 <= i < |r.value| ==> IsIdentChar(r.value[i])
    ensures r.Some? ==> StartsWith(s, "import")
  {
    if !StartsWith(s, "import") then None
    else
      var t := s[6..];
      var w := Span(Space, t);
      if w == 0 then None
      else
        var u := t[w..];
        var n := Span(Ident, u);
        if n == 0 then None else Some(u[..n])
  }

  /**
   `re.match(r"from\s+([a-zA-Z0-9_\.]+)\s+import", s)`, giving group 1.  No
   character class of the pattern overlaps its neighbour, so the greedy runs are
   the only way the pattern can match.
   */
  function MatchFrom(s: string): (r: Option<string>)
    ensures r.Some? ==> |r.value| > 0 && forall i :: 0 <= i < |r.value| ==> InClass(Dotted, r.value[i])
    ensures r.Some? ==> StartsWith(s, "from")
  {
    if !StartsWith(s, "from") then None
    else
      var t := s[4..];
      var w := Span(Space, t);
      if w == 0 then None
      else
        var u := t[w..];
        var g := Span(Dotted, u);
        if g == 0 then None
        else
          var v := u[g..];
          var w2 := Span(Space, v);
          if w2 == 0 || !StartsWith(v[w2..], "import") then None else Some(u[..g])
  }

  /** `module_full.split('.')[0]`. */
  function FirstSegment(dotted: string): (r: string)
    ensures StartsWith(dotted, r) && '.' !in r
  {
    Split(dotted, '.')[0]
  }

  /**
   `_extract_module_name`: the top-level module a line imports, if the stripped
   line is an import statement.  `Some("")` is possible (`from . import x`) and
   is not a name; the guard against a leading dot never fires.
   */
  function ExtractModuleName(line: string): (r: Option<string>)
    ensures r.Some? ==> forall i :: 0 <= i < |r.value| ==> IsIdentChar(r.value[i])
    ensures r.Some? ==> StartsWith(Strip(line), "import") || StartsWith(Strip(line), "from")
  {
    var s := Strip(line);
    match MatchImport(s)
    case Some(m) => Some(m)
    case None =>
      match MatchFrom(s)
      case None => None
      case Some(full) =>
        var top := FirstSegment(full);
        assert forall i :: 0 <= i < |top| ==> top[i] == full[i];
        if StartsWith(top, ".") then None else Some(top)
  }

  /** The name a line contributes to the scan: a non-empty module name (Python's `if module_name:`). */
  function LineName(line: string): Option<string> {
    match ExtractModuleName(line)
    case Some(m) => if m != "" then Some(m) else None
    case None => None
  }

  /** A scanned name: non-empty and made of identifier characters only. */
  predicate ValidName(m: string) {
    m != [] && forall i :: 0 <= i < |m| ==> IsIdentChar(m[i])
  }

  predicate ValidNames(deps: set<string>) {
    forall m :: m in deps ==> ValidName(m)
  }

  lemma IdentNotSpace(c: char)
    requires InClass(Dotted, c)
    ensures !IsSpace(c)
  {
  }

  /** Leading whitespace goes, and a trimmed head keeps everything after it but the trailing whitespace. */
  lemma StripLeading(lead: string, p: string, rest: string)
    requires AllSpace(lead)
    requires p != [] && Trimmed(p)
    ensures Strip(lead + p + rest) == p + TrimRight(rest)
  {
    var x := p + rest;
    assert lead + x + [] == lead + p + rest;
    StripPadding(lead, x, []);
    StripKeepsPrefix(p, rest);
  }

  /** What the import pattern matches on an already stripped line. */
  lemma MatchImportOf(ws: string, name: string, t: string)
    requires |ws| > 0 && AllSpace(ws)
    requires ValidName(name)
    requires t == [] || !IsIdentChar(t[0])
    ensures MatchImport("import" + ws + name + t) == Some(name)
  {
    var s := "import" + ws + name + t;
    assert s[..6] == "import";
    assert s[6..] == ws + (name + t);
    assert name[0] == (name + t)[0];
    IdentNotSpace(name[0]);
    SpanExact(Space, ws, name + t);
    assert (ws + (name + t))[|ws|..] == name + t;
    SpanExact(Ident, name, t);
    assert (name + t)[..|name|] == name;
  }

  /**
   A stripped line `import <ws> name <rest>` names exactly the maximal identifier
   run after the whitespace, whatever indentation precedes it: `import PIL.Image
   as Image` gives `PIL` and `import os, sys` gives only `os`.
   */
  lemma ImportLineName(lead: string, ws: string, name: string, rest: string)
    requires AllSpace(lead) && |ws| > 0 && AllSpace(ws)
    requires ValidName(name)
    requires rest == [] || !IsIdentChar(rest[0])
    ensures ExtractModuleName(lead + "import" + ws + name + rest) == Some(name)
  {
    var p := "import" + ws + name;
    var line := lead + "import" + ws + name + rest;
    assert line == lead + p + rest;
    assert p[0] == 'i' && p[|p| - 1] == name[|name| - 1];
    IdentNotSpace(name[|name| - 1]);
    StripLeading(lead, p, rest);
    var t := TrimRight(rest);
    TrimRightSpec(rest);
    assert t == [] || t[0] == rest[0];
    MatchImportOf(ws, name, t);
    assert p + t == "import" + ws + name + t;
    assert Strip(line) == p + t;
    assert MatchImport(Strip(line)) == Some(name);
  }

  /** What the from-pattern matches on an already stripped line. */
  lemma MatchFromOf(ws1: string, g: string, ws2: string, t: string)
    requires |ws1| > 0 && AllSpace(ws1) && |ws2| > 0 && AllSpace(ws2)
    requires |g| > 0 && forall i :: 0 <= i < |g| ==> InClass(Dotted, g[i])
    ensures MatchFrom("from" + ws1 + g + ws2 + "import" + t) == Some(g)
  {
    var s := "from" + ws1 + g + ws2 + "import" + t;
    var v := ws2 + ("import" + t);
    var u := g + v;
    assert s[..4] == "from";
    assert s[4..] == ws1 + u;
    IdentNotSpace(g[0]);
    SpanExact(Space, ws1, u);
    assert (ws1 + u)[|ws1|..] == u;
    assert ws2[0] == v[0];
    SpanExact(Dotted, g, v);
    assert u[|g|..] == v;
    SpanExact(Space, ws2, "import" + t);
    assert v[|ws2|..] == "import" + t;
    assert u[..|g|] == g;
  }

  /** The leading-dot guard never fires: the first segment holds no dot at all. */
  lemma FromMatchName(line: string, g: string)
    requires !StartsWith(Strip(line), "import") && MatchFrom(Strip(line)) == Some(g)
    ensures ExtractModuleName(line) == Some(FirstSegment(g))
  {
    var s := Strip(line);
    assert MatchImport(s) == None;
    var top := FirstSegment(g);
    assert !StartsWith(top, ".") by {
      if |top| > 0 {
        assert top[0] in top;
        assert top[..1][0] == top[0];
      }
    }
  }

  /** The fixed part `from <ws1> g <ws2> import` of a `from` line. */
  function FromText(ws1: string, g: string, ws2: string): string {
    "from" + ws1 + g + ws2 + "import"
  }

  lemma FromLineShape(lead: string, ws1: string, g: string, ws2: string, rest: string)
    ensures lead + "from" + ws1 + g + ws2 + "import" + rest == lead + FromText(ws1, g, ws2) + rest
  {
  }

  lemma FromTextTrimmed(ws1: string, g: string, ws2: string)
    ensures FromText(ws1, g, ws2) != [] && Trimmed(FromText(ws1, g, ws2))
    ensures FromText(ws1, g, ws2)[0] == 'f'
  {
    var p := FromText(ws1, g, ws2);
    assert p[0] == 'f' && p[|p| - 1] == 't';
  }

  /** After stripping, the `from` pattern matches. */
  lemma FromTextMatches(ws1: string, g: string, ws2: string, t: string)
    requires |ws1| > 0 && AllSpace(ws1) && |ws2| > 0 && AllSpace(ws2)
    requires |g| > 0 && forall i :: 0 <= i < |g| ==> InClass(Dotted, g[i])
    ensures MatchFrom(FromText(ws1, g, ws2) + t) == Some(g)
  {
    MatchFromOf(ws1, g, ws2, t);
  }

  /** A line starting with `f` does not start with `import`. */
  lemma FromTextNotImport(p: string, t: string)
    requires p != [] && p[0] == 'f'
    ensures !StartsWith(p + t, "import")
  {
    assert (p + t)[0] == 'f';
  }

  /**
   A stripped line `from <ws> dotted <ws> import ...` names the first dot-separated
   segment of `dotted`: `from A.B.C import x` gives `A`.
   */
  lemma FromLineName(lead: string, ws1: string, g: string, ws2: string, rest: string)
    requires AllSpace(lead) && |ws1| > 0 && AllSpace(ws1) && |ws2| > 0 && AllSpace(ws2)
    requires |g| > 0 && forall i :: 0 <= i < |g| ==> InClass(Dotted, g[i])
    ensures ExtractModuleName(lead + "from" + ws1 + g + ws2 + "import" + rest) == Some(FirstSegment(g))
  {
    var p := FromText(ws1, g, ws2);
    var line := lead + "from" + ws1 + g + ws2 + "import" + rest;
    FromLineShape(lead, ws1, g, ws2, rest);
    FromTextTrimmed(ws1, g, ws2);
    StripLeading(lead, p, rest);
    FromTextMatches(ws1, g, ws2, TrimRight(rest));
    FromTextNotImport(p, TrimRight(rest));
    FromMatchName(line, g);
  }

  /** A relative import (`from . import x`, `from .pkg import y`) contributes no name. */
  lemma RelativeImportIgnored(lead: string, ws1: string, g: string, ws2: string, rest: string)
    requires AllSpace(lead) && |ws1| > 0 && AllSpace(ws1) && |ws2| > 0 && AllSpace(ws2)
    requires |g| > 0 && g[0] == '.' && forall i :: 0 <= i < |g| ==> InClass(Dotted, g[i])
    ensures LineName(lead + "from" + ws1 + g + ws2 + "import" + rest) == None
  {
    FromLineName(lead, ws1, g, ws2, rest);
    assert |FirstSegment(g)| == 0;
  }

  /** Comments, assignments and anything else not starting with `import`/`from` contribute nothing. */
  lemma NonImportLineIgnored(line: string)
    requires !StartsWith(Strip(line), "import") && !StartsWith(Strip(line), "from")
    ensures LineName(line) == None
  {
  }

  /** `important = 1` is already stripped. */
  lemma ImportantStripped()
    ensures Strip("important = 1") == "important = 1"
  {
    var s := "important = 1";
    assert s[0] == 'i' && s[|s| - 1] == '1';
    StripOfPadded([], s, []);
    assert [] + s + [] == s;
  }

  /** The import pattern needs whitespace right after `import`. */
  lemma NoSpaceAfterImport(s: string)
    requires |s| > 6 && !IsSpace(s[6])
    ensures MatchImport(s) == None
  {
    assert s[6..][0] == s[6];
  }

  /** The from pattern needs the line to start with `f`. */
  lemma NotFrom(s: string)
    requires |s| >= 4 && s[0] != 'f'
    ensures MatchFrom(s) == None
  {
    assert s[..4][0] == s[0];
  }

  /** `important = 1` starts with `import` but has no whitespace after it, so it is no import. */
  lemma ImportantIsNoImport()
    ensures ExtractModuleName("important = 1") == None
  {
    var s := "important = 1";
    ImportantStripped();
    NoSpaceAfterImport(s);
    NotFrom(s);
  }

  // ---------------------------------------------------------------------------
  // One file
  // ---------------------------------------------------------------------------

  /** The names contributed by a sequence of lines, defined without reference to the order of reading. */
  function LinesNames(lines: seq<string>): (r: set<string>)
    ensures ValidNames(r)
  {
    set i | 0 <= i < |lines| && LineName(lines[i]).Some? :: LineName(lines[i]).value
  }

  /** The name set of a single line. */
  function LineNameSet(line: string): set<string> {
    match LineName(line) case Some(m) => {m} case None => {}
  }

  lemma LinesNamesCons(lines: seq<string>)
    requires |lines| > 0
    ensures LinesNames(lines) == LineNameSet(lines[0]) + LinesNames(lines[1..])
  {
    var tail := lines[1..];
    forall m | m in LinesNames(lines) ensures m in LineNameSet(lines[0]) + LinesNames(tail) {
      var i :| 0 <= i < |lines| && LineName(lines[i]).Some? && LineName(lines[i]).value == m;
      if i > 0 {
        assert tail[i - 1] == lines[i];
      }
    }
    forall m | m in LinesNames(tail) ensures m in LinesNames(lines) {
      var i :| 0 <= i < |tail| && LineName(tail[i]).Some? && LineName(tail[i]).value == m;
      assert lines[i + 1] == tail[i];
    }
  }

  /** The loop of `_analyze_file` over the lines read: each non-empty name is added to the set. */
  function ScanLines(deps: set<string>, lines: seq<string>): (r: set<string>)
    ensures r == deps + LinesNames(lines)
    decreases |lines|
  {
    if |lines| == 0 then deps
    else
      var d := match LineName(lines[0]) case Some(m) => deps + {m} case None => deps;
      LinesNamesCons(lines);
      ScanLines(d, lines[1..])
  }

  /**
   One `.py` file as the scan sees it: the lines iterating the opened file yields,
   and, when reading raises (`UnicodeDecodeError`, `OSError`), how many lines were
   yielded before it did.
   */
  datatype SourceFile = SourceFile(name: string, lines: seq<string>, failsAfter: Option<nat>)

  /** The lines of `f` that `_analyze_file` gets to see before an error ends its loop. */
  function LinesRead(f: SourceFile): (r: seq<string>)
    ensures r <= f.lines
  {
    match f.failsAfter
    case Some(k) => if k < |f.lines| then f.lines[..k] else f.lines
    case None => f.lines
  }

  /**
   `_analyze_file`: a read error is caught and printed, and the names of the lines
   already read stay in the set.
   */
  function AnalyzeFile(deps: set<string>, f: SourceFile): (r: set<string>)
    ensures deps <= r
    ensures r == deps + LinesNames(LinesRead(f))
    ensures f.failsAfter.Some? && f.failsAfter.value <= |f.lines| ==> r == deps + LinesNames(f.lines[..f.failsAfter.value])
  {
    assert f.failsAfter.Some? && f.failsAfter.value == |f.lines| ==> f.lines[..f.failsAfter.value] == f.lines;
    ScanLines(deps, LinesRead(f))
  }

  // ---------------------------------------------------------------------------
  // The walk
  // ---------------------------------------------------------------------------

  /** One directory that `os.walk` visits: all components of its path, and its files. */
  datatype WalkDir = WalkDir(parts: seq<string>, files: seq<SourceFile>)

  /** The walk skips a directory when any component of its path starts with a dot. */
  predicate Hidden(parts: seq<string>) {
    exists i :: 0 <= i < |parts| && StartsWith(parts[i], ".")
  }

  predicate IsPythonFile(name: string) {
    |name| >= 3 && name[|name| - 3..] == ".py"
  }

  /** The names one file of a visible directory contributes, if it is scanned at all. */
  function FileNames(f: SourceFile): set<string> {
    if IsPythonFile(f.name) then LinesNames(LinesRead(f)) else {}
  }

  /** The inner loop of `analyze_repo` over the files of one directory. */
  function ScanFiles(deps: set<string>, files: seq<SourceFile>): (r: set<string>)
    ensures forall m :: m in r <==> m in deps || exists j :: 0 <= j < |files| && m in FileNames(files[j])
    decreases |files|
  {
    if |files| == 0 then deps
    else
      var d := if IsPythonFile(files[0].name) then AnalyzeFile(deps, files[0]) else deps;
      var r := ScanFiles(d, files[1..]);
      assert forall j :: 0 <= j < |files| - 1 ==> files[1..][j] == files[j + 1];
      r
  }

  /** The outer loop of `analyze_repo` over the directories the walk visits. */
  function ScanTree(deps: set<string>, dirs: seq<WalkDir>): (r: set<string>)
    ensures forall m :: m in r <==> m in deps || exists i, j :: 0 <= i < |dirs| && !Hidden(dirs[i].parts) && 0 <= j < |dirs[i].files| && m in FileNames(dirs[i].files[j])
    decreases |dirs|
  {
    if |dirs| == 0 then deps
    else
      var d := if Hidden(dirs[0].parts) then deps else ScanFiles(deps, dirs[0].files);
      var r := ScanTree(d, dirs[1..]);
      assert forall i :: 0 <= i < |dirs| - 1 ==> dirs[1..][i] == dirs[i + 1];
      r
  }

  /**
   The extractor's set is never cleared: a scan adds to what earlier scans of
   the same extractor found, so a second repository's manifest also lists the
   first one's dependencies.
   */
  lemma ScanAccumulates(deps: set<string>, dirs: seq<WalkDir>)
    ensures ScanTree(deps, dirs) == deps + ScanTree({}, dirs)
  {
  }

  /** Every name a scan finds is a valid module name. */
  lemma ScanValid(deps: set<string>, dirs: seq<WalkDir>)
    requires ValidNames(deps)
    ensures ValidNames(ScanTree(deps, dirs))
  {
    forall m | m in ScanTree(deps, dirs) && m !in deps ensures ValidName(m) {
      var i, j :| 0 <= i < |dirs| && !Hidden(dirs[i].parts) && 0 <= j < |dirs[i].files| && m in FileNames(dirs[i].files[j]);
    }
  }

  /** A repository whose every directory is hidden adds nothing. */
  lemma HiddenTreeAddsNothing(deps: set<string>, dirs: seq<WalkDir>)
    requires forall i :: 0 <= i < |dirs| ==> Hidden(dirs[i].parts)
    ensures ScanTree(deps, dirs) == deps
  {
  }

  // ---------------------------------------------------------------------------
  // Classification and the manifest
  // ---------------------------------------------------------------------------

  /**
   Steps 1 and 2 of `analyze_repo`: drop the standard library, then rename.
   The result never holds a standard-library name.
   */
  function Classify(deps: set<string>): (r: set<string>)
    ensures r !! STANDARD_LIBRARY
    ensures forall m :: m in deps && m !in STANDARD_LIBRARY ==> InstallName(m) in r
    ensures forall x :: x in r ==> exists m :: m in deps && m !in STANDARD_LIBRARY && InstallName(m) == x
  {
    assert "Pillow" !in STANDARD_LIBRARY;
    set m | m in deps && m !in STANDARD_LIBRARY :: InstallName(m)
  }

  /** A standard-library module alone classifies to nothing. */
  lemma StandardLibraryExcluded(m: string)
    requires m in STANDARD_LIBRARY
    ensures Classify({m}) == {}
  {
  }

  /** Classification keeps valid names valid (`Pillow` is one). */
  lemma ClassifyValid(deps: set<string>)
    requires ValidNames(deps)
    ensures ValidNames(Classify(deps))
  {
    assert ValidName("Pillow");
  }

  lemma ExampleMembership()
    ensures "os" in STANDARD_LIBRARY && "sys" in STANDARD_LIBRARY
    ensures "PIL" !in STANDARD_LIBRARY && "numpy" !in STANDARD_LIBRARY
  {
  }

  /** `{PIL, numpy, os, sys}` classifies to `{Pillow, numpy}`. */
  lemma ClassifyExampleSet()
    ensures Classify({"PIL", "numpy", "os", "sys"}) == {"Pillow", "numpy"}
  {
    var d := {"PIL", "numpy", "os", "sys"};
    var c := Classify(d);
    ExampleMembership();
    assert InstallName("PIL") == "Pillow" && InstallName("numpy") == "numpy";
    assert "Pillow" in c && "numpy" in c;
    forall x | x in c ensures x == "Pillow" || x == "numpy" {
      var m :| m in d && m !in STANDARD_LIBRARY && InstallName(m) == x;
    }
  }

  /** `{PIL, numpy, os, sys}` is listed as exactly `Pillow`, `numpy`. */
  lemma ClassifyExample(r: seq<string>)
    requires StrictlySorted(r)
    requires forall x :: x in r <==> x in Classify({"PIL", "numpy", "os", "sys"})
    ensures r == ["Pillow", "numpy"]
  {
    ClassifyExampleSet();
    var e := ["Pillow", "numpy"];
    assert Less("Pillow", "numpy");
    assert StrictlySorted(e);
    SortedUnique(r, e);
  }

  /** The text `_write_requirements_file` writes: every name followed by a newline. */
  function ManifestText(deps: seq<string>): string {
    if |deps| == 0 then "" else deps[0] + "\n" + ManifestText(deps[1..])
  }

  /**
   The manifest reads back, split at newlines, as the listed names followed by
   the empty text after the final newline.
   */
  lemma {:induction false} ManifestLines(deps: seq<string>)
    requires forall i :: 0 <= i < |deps| ==> '\n' !in deps[i]
    ensures Split(ManifestText(deps), '\n') == deps + [""]
  {
    ManifestIsJoin(deps);
    SplitJoin(deps + [""], '\n');
  }

  lemma {:induction false} ManifestIsJoin(deps: seq<string>)
    ensures ManifestText(deps) == Join(deps + [""], '\n')
    decreases |deps|
  {
    if |deps| > 0 {
      ManifestIsJoin(deps[1..]);
      assert (deps + [""])[1..] == deps[1..] + [""];
    }
  }

  /** Two sorted listings of the same classified set give the same manifest, byte for byte. */
  lemma ManifestDeterministic(a: seq<string>, b: seq<string>, deps: set<string>)
    requires StrictlySorted(a) && StrictlySorted(b)
    requires forall x :: x in a <==> x in Classify(deps)
    requires forall x :: x in b <==> x in Classify(deps)
    ensures ManifestText(a) == ManifestText(b)
  {
    SortedUnique(a, b);
  }

  // ---------------------------------------------------------------------------
  // analyze_repo
  // ---------------------------------------------------------------------------

  /** What the repository path is: not a directory, or the directories `os.walk` visits. */
  datatype Repo = NotADirectory | Walk(dirs: seq<WalkDir>)

  /**
   The output directory: whether `mkdir` raises (it is outside the `try`), whether
   opening the manifest for writing raises, whether a later write (or the flush
   on closing) raises, with `Some(n)` saying how many characters of the text had
   reached the file by then, and the manifest's current content.
   */
  datatype OutputDir = OutputDir(mkdirRaises: bool, openRaises: bool, writeStops: Option<nat>, manifest: Option<string>)

  datatype AnalyzeOutcome =
    | RepoMissing                      // printed, nothing written
    | MkdirRaised                      // the exception leaves analyze_repo
    | WriteFailed(listing: seq<string>) // printed, not raised; the manifest may be left truncated
    | Written(listing: seq<string>)

  /**
   `analyze_repo`: scan, classify, sort, and overwrite the manifest.  Returns the
   extractor's updated set, the outcome, and the manifest's content afterwards.
   */
  method AnalyzeRepo(deps: set<string>, repo: Repo, out: OutputDir)
    returns (deps': set<string>, outcome: AnalyzeOutcome, manifest: Option<string>)
    ensures repo.NotADirectory? ==> deps' == deps && outcome == RepoMissing && manifest == out.manifest
    ensures repo.Walk? ==> deps' == ScanTree(deps, repo.dirs)
    ensures repo.Walk? && out.mkdirRaises ==> outcome == MkdirRaised && manifest == out.manifest
    ensures repo.Walk? && !out.mkdirRaises ==> outcome.WriteFailed? || outcome.Written?
    ensures outcome.Written? <==> repo.Walk? && !out.mkdirRaises && !out.openRaises && out.writeStops.None?
    ensures outcome.WriteFailed? && out.openRaises ==> manifest == out.manifest
    ensures outcome.WriteFailed? && !out.openRaises ==>
      manifest.Some? && StartsWith(ManifestText(outcome.listing), manifest.value)
    ensures outcome.WriteFailed? && !out.openRaises && out.writeStops.value < |ManifestText(outcome.listing)| ==>
      manifest.Some? && |manifest.value| == out.writeStops.value
    ensures outcome.Written? ==> manifest == Some(ManifestText(outcome.listing))
    ensures outcome.Written? || outcome.WriteFailed? ==>
      StrictlySorted(outcome.listing) && forall x :: x in outcome.listing <==> x in Classify(deps')
  {
    match repo
    case NotADirectory =>
      return deps, RepoMissing, out.manifest;
    case Walk(dirs) =>
      deps' := ScanTree(deps, dirs);
      var listing := SortSet(Classify(deps'));
      if out.mkdirRaises {
        return deps', MkdirRaised, out.manifest;
      }
      if out.openRaises {
        return deps', WriteFailed(listing), out.manifest;
      }
      var text := ManifestText(listing);
      if out.writeStops.Some? {
        var n := if out.writeStops.value < |text| then out.writeStops.value else |text|;
        return deps', WriteFailed(listing), Some(text[..n]);
      }
      return deps', Written(listing), Some(ManifestText(listing));
  }

  /**
   A fresh extractor's manifest lists each dependency on its own line: split at
   newlines it gives back the sorted listing and a final empty piece.
   */
  lemma FreshManifestReadsBack(dirs: seq<WalkDir>, listing: seq<string>)
    requires forall x :: x in listing <==> x in Classify(ScanTree({}, dirs))
    ensures Split(ManifestText(listing), '\n') == listing + [""]
  {
    ScanValid({}, dirs);
    ClassifyValid(ScanTree({}, dirs));
    forall i | 0 <= i < |listing| ensures '\n' !in listing[i] {
      assert ValidName(listing[i]);
    }
    ManifestLines(listing);
  }
}
