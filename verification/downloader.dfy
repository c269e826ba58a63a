/**
 The repository cloner (`Downloader`): the `rmtree` error handler, the bounded
 retry loop that empties the target directory, the `git clone` argument vector
 and the mapping of the clone's outcome to a boolean.

 Directory removal, `chmod`, `time.sleep` and `git` are not run: each attempt's
 handler calls and the clone's outcome are parameters, and sleeping is counted.
 */
module Downloader {
  import opened Outcomes
  import opened Text

  // ---------------------------------------------------------------------------
  // The rmtree error handler
  // ---------------------------------------------------------------------------

  /**
   One call of `_cleanup_error_handler` as `rmtree` makes it: the kind of the
   error `rmtree` met, what `os.chmod` does (`Some(k)` when it raises `k`), and
   whether the retried removal succeeds.
   */
  datatype HandlerCall = HandlerCall(kind: ErrKind, chmod: Option<ErrKind>, retrySucceeds: bool)

  /**
   `_cleanup_error_handler`: `None` when the handler returns (the error is
   swallowed and `rmtree` carries on), `Some(k)` when it raises `k`.
   */
  function ErrorHandler(h: HandlerCall): (r: Option<ErrKind>)
    ensures r.None? <==> IsOSError(h.kind) && h.chmod.None? && h.retrySucceeds
    ensures r.Some? && h.chmod.None? ==> r.value == h.kind
    ensures IsOSError(h.kind) && h.chmod.Some? ==> r == h.chmod
  {
    if IsOSError(h.kind) then
      match h.chmod
      case Some(e) => Some(e)
      case None => if h.retrySucceeds then None else Some(h.kind)
    else Some(h.kind)
  }

  /** An error that is no `OSError` is never retried and always raised again, whatever else happens. */
  lemma NonOSErrorReraised(h: HandlerCall)
    requires !IsOSError(h.kind)
    ensures ErrorHandler(h) == Some(h.kind)
  {
  }

  /** One `rmtree` attempt: it fails with the first error its handler raises, and succeeds when every error was swallowed. */
  function RmtreeAttempt(calls: seq<HandlerCall>): (r: Option<ErrKind>)
    ensures r.None? <==> forall i :: 0 <= i < |calls| ==> ErrorHandler(calls[i]).None?
    ensures r.Some? ==> exists i :: (0 <= i < |calls| && ErrorHandler(calls[i]) == r
      && forall j :: 0 <= j < i ==> ErrorHandler(calls[j]).None?)
    decreases |calls|
  {
    if |calls| == 0 then None
    else match ErrorHandler(calls[0])
      case Some(k) => Some(k)
      case None =>
        var r := RmtreeAttempt(calls[1..]);
        assert forall i :: 0 <= i < |calls| - 1 ==> calls[1..][i] == calls[i + 1];
        assert r.Some? ==> exists i :: (1 <= i < |calls| && ErrorHandler(calls[i]) == r
          && forall j :: 0 <= j < i ==> ErrorHandler(calls[j]).None?) by {
          if r.Some? {
            var i :| 0 <= i < |calls| - 1 && ErrorHandler(calls[1..][i]) == r
              && forall j :: 0 <= j < i ==> ErrorHandler(calls[1..][j]).None?;
            assert ErrorHandler(calls[i + 1]) == r;
          }
        }
        r
  }

  // ---------------------------------------------------------------------------
  // The retry loop
  // ---------------------------------------------------------------------------

  /** How `_cleanup` ended: how many `rmtree` attempts it made, how often it slept, and what it raised. */
  datatype CleanupRun = CleanupRun(attempts: nat, sleeps: nat, raised: Option<ErrKind>)

  /**
   What `_cleanup` promises about its run: nothing happens for a missing target
   or no retries; otherwise it makes at most `maxRetries` attempts, sleeping
   between consecutive ones, stops at the first attempt that succeeds, and
   raises the last attempt's error when all `maxRetries` attempts failed.
   */
  ghost predicate IsCleanupRun(targetExists: bool, maxRetries: int, attempts: seq<seq<HandlerCall>>, r: CleanupRun)
    requires maxRetries <= |attempts|
  {
    && (!targetExists ==> r == CleanupRun(0, 0, None))
    && (targetExists && maxRetries <= 0 ==> r == CleanupRun(0, 0, None))
    && r.attempts <= (if maxRetries < 0 then 0 else maxRetries)
    && r.sleeps == (if r.attempts == 0 then 0 else r.attempts - 1)
    && (forall i :: 0 <= i < r.attempts - 1 ==> RmtreeAttempt(attempts[i]).Some?)
    && (r.raised.None? && r.attempts > 0 ==> RmtreeAttempt(attempts[r.attempts - 1]).None?)
    && (r.raised.Some? ==> r.attempts == maxRetries && r.raised == RmtreeAttempt(attempts[r.attempts - 1]))
    && (targetExists && 0 < maxRetries && r.raised.None? ==> r.attempts > 0)
  }

  /**
   `_cleanup`, with `attempts[i]` the handler calls of attempt `i + 1` (one
   entry for every attempt the loop may make).
   */
  method Cleanup(targetExists: bool, maxRetries: int, attempts: seq<seq<HandlerCall>>) returns (r: CleanupRun)
    requires maxRetries <= |attempts|
    ensures IsCleanupRun(targetExists, maxRetries, attempts, r)
  {
    if !targetExists {
      return CleanupRun(0, 0, None);
    }
    var attempt := 1;
    var sleeps := 0;
    while attempt <= maxRetries
      invariant 1 <= attempt
      invariant maxRetries >= 1 ==> attempt <= maxRetries
      invariant maxRetries < 1 ==> attempt == 1
      invariant sleeps == attempt - 1
      invariant forall i :: 0 <= i < attempt - 1 ==> RmtreeAttempt(attempts[i]).Some?
      decreases maxRetries - attempt
    {
      var failure := RmtreeAttempt(attempts[attempt - 1]);
      if failure.None? {
        return CleanupRun(attempt, sleeps, None);
      }
      if attempt < maxRetries {
        sleeps := sleeps + 1;
      } else {
        return CleanupRun(attempt, sleeps, failure);
      }
      attempt := attempt + 1;
    }
    return CleanupRun(0, 0, None);
  }

  /** The promise pins the run down: two runs that both keep it are the same run. */
  lemma CleanupRunDetermined(targetExists: bool, maxRetries: int, attempts: seq<seq<HandlerCall>>, a: CleanupRun, b: CleanupRun)
    requires maxRetries <= |attempts|
    requires IsCleanupRun(targetExists, maxRetries, attempts, a)
    requires IsCleanupRun(targetExists, maxRetries, attempts, b)
    ensures a == b
  {
  }

  // ---------------------------------------------------------------------------
  // The clone
  // ---------------------------------------------------------------------------

  /** `git clone [--branch b] <link> <target>`; an empty branch name counts as none. */
  function GitArgv(link: string, branch: Option<string>, target: string): (argv: seq<string>)
    ensures |argv| >= 4 && argv[..2] == ["git", "clone"] && argv[|argv| - 2..] == [link, target]
    ensures |argv| == 6 <==> branch.Some? && branch.value != ""
  {
    ["git", "clone"]
    + (if branch.Some? && branch.value != "" then ["--branch", branch.value] else [])
    + [link, target]
  }

  /** Reads an argument vector of that shape back into its link, branch and target. */
  function ParseGitArgv(argv: seq<string>): Option<(string, Option<string>, string)> {
    if |argv| == 4 && argv[..2] == ["git", "clone"] then Some((argv[2], None, argv[3]))
    else if |argv| == 6 && argv[..3] == ["git", "clone", "--branch"] then Some((argv[4], Some(argv[3]), argv[5]))
    else None
  }

  /** The argument vector determines the link, the target and the (non-empty) branch it was built from. */
  lemma GitArgvRoundTrip(link: string, branch: Option<string>, target: string)
    ensures ParseGitArgv(GitArgv(link, branch, target)) ==
      Some((link, if branch.Some? && branch.value != "" then branch else None, target))
  {
    var argv := GitArgv(link, branch, target);
    if branch.Some? && branch.value != "" {
      assert argv == ["git", "clone", "--branch", branch.value, link, target];
    } else {
      assert argv == ["git", "clone", link, target];
    }
  }

  /** What `download` did: its result (or the exception that left it), and the git command it ran, if any. */
  datatype DownloadRun = DownloadRun(result: Result<bool, ErrKind>, cleanup: CleanupRun, gitArgv: Option<seq<string>>)

  /**
   `download`.  A failed cleanup makes it return False before git is run.  The
   clone passes no timeout, so `git` cannot time out.  Both a missing `git` and
   any other `FileNotFoundError` that `subprocess.run` raises are caught and
   give False; every other exception leaves `download`.
   */
  method Download(link: string, branch: Option<string>, target: string,
                  targetExists: bool, maxRetries: int, attempts: seq<seq<HandlerCall>>,
                  git: ProcOutcome)
    returns (r: DownloadRun)
    requires maxRetries <= |attempts|
    requires !git.TimedOut?
    ensures r.cleanup.raised.Some? ==> r.result == Ok(false) && r.gitArgv.None?
    ensures r.cleanup.raised.None? ==> r.gitArgv == Some(GitArgv(link, branch, target))
    ensures r.result == Ok(true) <==> r.cleanup.raised.None? && git.Exited? && git.code == 0
    ensures IsCleanupRun(targetExists, maxRetries, attempts, r.cleanup)
    ensures r.result.Err? <==> r.cleanup.raised.None? && git.Crashed? && git.kind != NotFoundErr
    ensures r.result.Err? ==> r.result.error == git.kind
  {
    var c := Cleanup(targetExists, maxRetries, attempts);
    if c.raised.Some? {
      return DownloadRun(Ok(false), c, None);
    }
    var argv := GitArgv(link, branch, target);
    var result: Result<bool, ErrKind>;
    match git {
      case Exited(code, _, _) => result := Ok(code == 0);
      case ExeNotFound => result := Ok(false);
      case Crashed(kind) => result := if kind == NotFoundErr then Ok(false) else Err(kind);
    }
    return DownloadRun(result, c, Some(argv));
  }
}
