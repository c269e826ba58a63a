/**
 The repository ingestor (`RepoIngestor`): its configuration defaults, the
 predicate that selects which files under the root are sent to the language
 model, the binary guard on reading, and the loop that sends every readable
 selected file and skips the rest.

 The directory listing, file sizes, file contents and the model are parameters;
 the model's replies play no part.
 */
module RepoIngestor {
  import opened Outcomes
  import opened Text
  import opened Constants

  newtype byte = x: int | 0 <= x < 256

  const DEFAULT_INCLUDE_EXTS: set<string> := {".py", ".md", ".txt", ".json", ".yml", ".yaml"}
  const DEFAULT_EXCLUDE_DIRS: set<string> := {".git", "__pycache__", "node_modules", ".venv", "venv"}

  /** The ingestor's configuration after construction. */
  datatype Ingestor = Ingestor(root: Path, includeExts: set<string>, excludeDirs: set<string>, maxFileSizeKb: int)

  /**
   `RepoIngestor.__init__`: `FileNotFoundError` when the (resolved) root does not
   exist; a missing or empty extension or directory set is replaced by its default.
   */
  function Init(root: Path, rootExists: bool, includeExts: Option<set<string>>,
                excludeDirs: Option<set<string>>, maxFileSizeKb: int): (r: Result<Ingestor, Raised>)
    ensures r.Err? <==> !rootExists
    ensures r.Err? ==> r.error == FileNotFound
    ensures r.Ok? ==> r.value.root == root && r.value.maxFileSizeKb == maxFileSizeKb
    ensures r.Ok? ==> r.value.includeExts != {} && r.value.excludeDirs != {}
    ensures r.Ok? && includeExts.Some? && includeExts.value != {} ==> r.value.includeExts == includeExts.value
    ensures r.Ok? && (includeExts.None? || includeExts.value == {}) ==> r.value.includeExts == DEFAULT_INCLUDE_EXTS
    ensures r.Ok? && excludeDirs.Some? && excludeDirs.value != {} ==> r.value.excludeDirs == excludeDirs.value
    ensures r.Ok? && (excludeDirs.None? || excludeDirs.value == {}) ==> r.value.excludeDirs == DEFAULT_EXCLUDE_DIRS
  {
    if !rootExists then Err(FileNotFound)
    else
      assert ".py" in DEFAULT_INCLUDE_EXTS && ".git" in DEFAULT_EXCLUDE_DIRS;
      Ok(Ingestor(root,
        if includeExts.Some? && includeExts.value != {} then includeExts.value else DEFAULT_INCLUDE_EXTS,
        if excludeDirs.Some? && excludeDirs.value != {} then excludeDirs.value else DEFAULT_EXCLUDE_DIRS,
        maxFileSizeKb))
  }

  // ---------------------------------------------------------------------------
  // The selection predicate
  // ---------------------------------------------------------------------------

  /** `PurePath.suffix` of a final component: from its last dot on, unless that dot is first or last. */
  function Suffix(name: string): (r: string)
    ensures r == [] || (|r| >= 2 && r[0] == '.' && '.' !in r[1..])
    ensures r != [] ==> |r| < |name| && name[|name| - |r|..] == r
  {
    match LastIndexOf(name, '.')
    case None => ""
    case Some(i) => if 0 < i < |name| - 1 then name[i..] else ""
  }

  /** Something `rglob("*")` yields: its path relative to the root, whether it is a regular file, and its size in bytes. */
  datatype Entry = Entry(rel: Path, isFile: bool, size: nat)

  /** The file's final component, `path.name`. */
  function Name(e: Entry): string {
    if |e.rel| == 0 then "" else e.rel[|e.rel| - 1]
  }

  /** `path.parts`: the root's components followed by the entry's own. */
  function Parts(ing: Ingestor, e: Entry): Path {
    ing.root + e.rel
  }

  /**
   The four tests of `iter_files`: a regular file, no path component among the
   excluded directories, no suffix or an included one (compared in lower case),
   and at most `max_file_size_kb` KiB.
   */
  predicate Selected(ing: Ingestor, e: Entry) {
    && e.isFile
    && (forall i :: 0 <= i < |Parts(ing, e)| ==> Parts(ing, e)[i] !in ing.excludeDirs)
    && (Suffix(Name(e)) == "" || Lower(Suffix(Name(e))) in ing.includeExts)
    && e.size <= 1024 * ing.maxFileSizeKb
  }

  /** `iter_files`: the selected entries, in the order of the walk. */
  function IterFiles(ing: Ingestor, entries: seq<Entry>): (r: seq<Entry>)
    ensures forall e :: e in r <==> e in entries && Selected(ing, e)
    ensures |r| <= |entries|
    decreases |entries|
  {
    if |entries| == 0 then []
    else
      var rest := IterFiles(ing, entries[1..]);
      assert forall e :: e in entries <==> e == entries[0] || e in entries[1..];
      if Selected(ing, entries[0]) then [entries[0]] + rest else rest
  }

  /** The walk can be cut anywhere: the selection of a concatenation is the concatenation of the selections. */
  lemma {:induction false} IterFilesAppend(ing: Ingestor, a: seq<Entry>, b: seq<Entry>)
    ensures IterFiles(ing, a + b) == IterFiles(ing, a) + IterFiles(ing, b)
    decreases |a|
  {
    if |a| == 0 {
      assert a + b == b;
    } else {
      assert (a + b)[0] == a[0];
      assert (a + b)[1..] == a[1..] + b;
      IterFilesAppend(ing, a[1..], b);
    }
  }

  /**
   `iter_files` yields exactly the selected entries, in the order of the walk:
   each entry contributes itself when selected and nothing otherwise, wherever
   it stands.
   */
  lemma IterFilesSplit(ing: Ingestor, a: seq<Entry>, e: Entry, b: seq<Entry>)
    ensures IterFiles(ing, a + [e] + b) == IterFiles(ing, a) + (if Selected(ing, e) then [e] else []) + IterFiles(ing, b)
  {
    IterFilesAppend(ing, a + [e], b);
    IterFilesAppend(ing, a, [e]);
    assert IterFiles(ing, [e]) == if Selected(ing, e) then [e] else [] by {
      assert [e][1..] == [];
    }
  }

  /** A root lying below an excluded directory yields nothing at all: every path has that component. */
  lemma ExcludedAncestorHidesAll(ing: Ingestor, entries: seq<Entry>, k: nat)
    requires k < |ing.root| && ing.root[k] in ing.excludeDirs
    ensures IterFiles(ing, entries) == []
  {
    forall e | e in entries ensures !Selected(ing, e) {
      assert Parts(ing, e)[k] == ing.root[k];
    }
    if |IterFiles(ing, entries) | > 0 {
      assert IterFiles(ing, entries)[0] in IterFiles(ing, entries);
    }
  }

  /** A regular file without suffix, in no excluded directory and small enough, is always selected. */
  lemma NoSuffixSelected(ing: Ingestor, e: Entry)
    requires e.isFile && Suffix(Name(e)) == ""
    requires forall i :: 0 <= i < |Parts(ing, e)| ==> Parts(ing, e)[i] !in ing.excludeDirs
    requires e.size <= 1024 * ing.maxFileSizeKb
    ensures Selected(ing, e)
  {
  }

  /** The size bound is inclusive: exactly `max_file_size_kb` KiB passes and one byte more does not. */
  lemma SizeBoundary(ing: Ingestor, e: Entry)
    requires e.isFile && Suffix(Name(e)) == ""
    requires forall i :: 0 <= i < |Parts(ing, e)| ==> Parts(ing, e)[i] !in ing.excludeDirs
    ensures e.size == 1024 * ing.maxFileSizeKb ==> Selected(ing, e)
    ensures e.size == 1024 * ing.maxFileSizeKb + 1 ==> !Selected(ing, e)
  {
  }

  /** Upper-case suffixes match their lower-case entry: `README.MD` passes with the default extensions. */
  lemma UpperCaseSuffix()
    ensures Suffix("README.MD") == ".MD" && Lower(".MD") in DEFAULT_INCLUDE_EXTS
  {
    assert LastIndexOf("README.MD", '.') == Some(6);
    assert Lower(".MD") == ".md";
  }

  /** `.bashrc` and `archive.` have no suffix (the dot is first or last), so they are never filtered by extension. */
  lemma DotEdgeSuffixes()
    ensures Suffix(".bashrc") == "" && Suffix("archive.") == ""
  {
    assert LastIndexOf(".bashrc", '.') == Some(0);
    assert LastIndexOf("archive.", '.') == Some(7);
  }

  // ---------------------------------------------------------------------------
  // Reading and sending
  // ---------------------------------------------------------------------------

  /** Why `read_file` refused a file. */
  datatype ReadError =
    | ReadFailed    // `read_bytes` raised; surfaced as RuntimeError
    | LooksBinary   // the data holds a NUL byte; surfaced as ValueError

  /** `read_file`, given what `read_bytes` produced (`None` when it raised). */
  function ReadFile(data: Option<seq<byte>>): (r: Result<seq<byte>, ReadError>)
    ensures data.None? ==> r == Err(ReadFailed)
    ensures data.Some? && 0 in data.value ==> r == Err(LooksBinary)
    ensures data.Some? && 0 !in data.value ==> r == Ok(data.value)
  {
    match data
    case None => Err(ReadFailed)
    case Some(d) => if 0 in d then Err(LooksBinary) else Ok(d)
  }

  /** A selected file together with what reading it gives. */
  datatype Candidate = Candidate(entry: Entry, data: Option<seq<byte>>)

  /** One file handed to the model: its path relative to the root and its content. */
  datatype Sent = Sent(rel: Path, content: seq<byte>)

  /** The files `ingest`'s loop sends, in order; unreadable and binary files are skipped. */
  function SentFiles(files: seq<Candidate>): (r: seq<Sent>)
    ensures |r| <= |files|
    ensures forall s :: s in r ==> 0 !in s.content
    ensures forall i :: 0 <= i < |files| && ReadFile(files[i].data).Ok? ==> Sent(files[i].entry.rel, files[i].data.value) in r
    ensures r == [] <==> forall i :: 0 <= i < |files| ==> ReadFile(files[i].data).Err?
    decreases |files|
  {
    if |files| == 0 then []
    else
      var rest := SentFiles(files[1..]);
      assert forall i :: 1 <= i < |files| ==> files[i] == files[1..][i - 1];
      match ReadFile(files[0].data)
      case Err(_) => rest
      case Ok(content) => [Sent(files[0].entry.rel, content)] + rest
  }

  /** The loop can be cut anywhere: the files sent for a concatenation are those sent for each part, in order. */
  lemma {:induction false} SentFilesAppend(a: seq<Candidate>, b: seq<Candidate>)
    ensures SentFiles(a + b) == SentFiles(a) + SentFiles(b)
    decreases |a|
  {
    if |a| == 0 {
      assert a + b == b;
    } else {
      assert (a + b)[0] == a[0];
      assert (a + b)[1..] == a[1..] + b;
      SentFilesAppend(a[1..], b);
    }
  }

  /**
   The loop sends exactly the readable files, in order, each with its content:
   a candidate contributes one `Sent` when `read_file` accepts it and nothing
   otherwise, wherever it stands.
   */
  lemma SentFilesSplit(a: seq<Candidate>, c: Candidate, b: seq<Candidate>)
    ensures SentFiles(a + [c] + b) == SentFiles(a)
      + (if ReadFile(c.data).Ok? then [Sent(c.entry.rel, c.data.value)] else []) + SentFiles(b)
  {
    SentFilesAppend(a + [c], b);
    SentFilesAppend(a, [c]);
    assert SentFiles([c]) == if ReadFile(c.data).Ok? then [Sent(c.entry.rel, c.data.value)] else [] by {
      assert [c][1..] == [];
    }
  }

  /** A skipped file does not stop the loop: the files after it are sent as if it were absent. */
  lemma SkipContinues(bad: Candidate, files: seq<Candidate>)
    requires ReadFile(bad.data).Err?
    ensures SentFiles([bad] + files) == SentFiles(files)
  {
    assert ([bad] + files)[1..] == files;
  }

  /**
   `ingest` as written: after the loop it prints the `rel_path` of the last file
   sent, which Python has never bound when no file was sent, so the call ends in
   `UnboundLocalError`.
   */
  function IngestAsWritten(files: seq<Candidate>): (r: Result<Path, string>)
    ensures r.Ok? <==> SentFiles(files) != []
    ensures r.Ok? ==> r.value == SentFiles(files)[|SentFiles(files)| - 1].rel
  {
    var sent := SentFiles(files);
    if sent == [] then Err("UnboundLocalError") else Ok(sent[|sent| - 1].rel)
  }

  /** A repository whose only file is binary makes the as-written `ingest` fail. */
  lemma IngestAsWrittenFailsOnBinary(e: Entry)
    ensures IngestAsWritten([Candidate(e, Some([0 as byte]))]) == Err("UnboundLocalError")
  {
    assert 0 as byte in [0 as byte];
    assert SentFiles([Candidate(e, Some([0 as byte]))]) == [];
  }

  /** An empty selection makes the as-written `ingest` fail as well. */
  lemma IngestAsWrittenFailsOnEmpty()
    ensures IngestAsWritten([]).Err?
  {
  }

  /**
   What `ingest` evidently means to do: skip what cannot be read, send the rest,
   and name the last file sent when there is one.  It never fails.
   */
  function Ingest(files: seq<Candidate>): (r: Result<Option<Path>, string>)
    ensures r.Ok?
    ensures r.value.None? <==> forall i :: 0 <= i < |files| ==> ReadFile(files[i].data).Err?
    ensures r.value.Some? ==> exists i {:trigger IsLastReadable(files, i)} :: IsLastReadable(files, i) && r.value.value == files[i].entry.rel
  {
    var sent := SentFiles(files);
    if sent == [] then Ok(None)
    else
      LastSentIsLastReadable(files);
      Ok(Some(sent[|sent| - 1].rel))
  }

  /** Candidate `i` is the last one that `read_file` accepts. */
  predicate IsLastReadable(files: seq<Candidate>, i: int) {
    && 0 <= i < |files|
    && ReadFile(files[i].data).Ok?
    && forall j :: i < j < |files| ==> ReadFile(files[j].data).Err?
  }

  /** The last file sent is the last candidate that `read_file` accepts. */
  lemma LastSentIsLastReadable(files: seq<Candidate>)
    requires SentFiles(files) != []
    ensures exists i {:trigger IsLastReadable(files, i)} :: IsLastReadable(files, i) && SentFiles(files)[|SentFiles(files)| - 1].rel == files[i].entry.rel
  {
    var i := LastReadableWitness(files);
  }

  /** The index of the last candidate that `read_file` accepts, which supplies the last file sent. */
  lemma {:induction false} LastReadableWitness(files: seq<Candidate>) returns (i: int)
    requires SentFiles(files) != []
    ensures IsLastReadable(files, i) && SentFiles(files)[|SentFiles(files)| - 1].rel == files[i].entry.rel
    decreases |files|
  {
    var rest := SentFiles(files[1..]);
    var sent := SentFiles(files);
    if rest == [] {
      assert ReadFile(files[0].data).Ok?;
      assert sent == [Sent(files[0].entry.rel, files[0].data.value)];
      LastReadableFirst(files);
      i := 0;
    } else {
      var k := LastReadableWitness(files[1..]);
      assert sent[|sent| - 1] == rest[|rest| - 1];
      assert files[1..][k] == files[k + 1];
      LastReadableShift(files, k);
      i := k + 1;
    }
  }

  /** The first candidate is the last readable one when it is readable and none after it is. */
  lemma LastReadableFirst(files: seq<Candidate>)
    requires |files| > 0 && ReadFile(files[0].data).Ok?
    requires forall j :: 0 <= j < |files[1..]| ==> ReadFile(files[1..][j].data).Err?
    ensures IsLastReadable(files, 0)
  {
    forall j | 0 < j < |files| ensures ReadFile(files[j].data).Err? {
      assert files[j] == files[1..][j - 1];
    }
  }

  /** The last readable candidate of the tail is, one position later, that of the whole sequence. */
  lemma LastReadableShift(files: seq<Candidate>, k: int)
    requires |files| > 0 && IsLastReadable(files[1..], k)
    ensures IsLastReadable(files, k + 1)
  {
    forall j | k + 1 < j < |files| ensures ReadFile(files[j].data).Err? {
      assert files[j] == files[1..][j - 1];
    }
  }

  /** Wherever the as-written version succeeds, the intended version reports the same file; elsewhere it still succeeds. */
  lemma IngestAgreesWhenSomethingSent(files: seq<Candidate>)
    ensures IngestAsWritten(files).Ok? ==> Ingest(files) == Ok(Some(IngestAsWritten(files).value))
    ensures IngestAsWritten(files).Err? ==> Ingest(files) == Ok(None)
  {
  }
}
