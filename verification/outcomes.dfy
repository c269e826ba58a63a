/**
 Failure-carrying datatypes shared by the whole model, and the shapes of the
 outcomes that external effects (processes, directory removal, collaborator
 calls) can have.  Every external effect of the program is a parameter of the
 model, built from these datatypes.
 */
module Outcomes {

  /** The conventional Some/None datatype, for Python's `Optional`. */
  datatype Option<+T> = None | Some(value: T)

  /** A value or the error that Python would have raised instead. */
  datatype Result<+T, +E> = Ok(value: T) | Err(error: E)

  /** The Python exception families the program distinguishes when it catches. */
  datatype ErrKind =
    | PermissionErr      // PermissionError, a subclass of OSError
    | NotFoundErr        // FileNotFoundError, a subclass of OSError
    | OtherOSErr         // any other OSError
    | NonOSErr           // an Exception that is not an OSError

  /** Whether a Python exception of this kind is an OSError. */
  predicate IsOSError(k: ErrKind) {
    k != NonOSErr
  }

  /**
   What one call of `subprocess.run` did, as far as the program can observe it.
   `TimedOut` carries the output captured before the kill (`None` when the
   exception carried no bytes), as the text it decodes to, and whether it
   decodes at all: the capture is raw bytes, which `.decode()` rejects when the
   kill cut a UTF-8 sequence in two; on Windows it is already text, which has
   no `.decode()`.
   */
  datatype ProcOutcome =
    | Exited(code: int, stdout: string, stderr: string)
    | TimedOut(partialStdout: Option<string>, partialStderr: Option<string>, decodes: bool)
    | ExeNotFound                    // FileNotFoundError: executable not on the search path
    | Crashed(kind: ErrKind)         // any other exception raised by subprocess.run

  /** The exceptions that can leave a collaborator the pipeline calls. */
  datatype Raised = FileNotFound | Runtime | Interrupt | Other

  /** The outcome of a call into code that is not part of this model. */
  datatype Call<+T> = Returns(value: T) | Raises(exc: Raised)
}
