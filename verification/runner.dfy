/** How `run_tesseract` and `timeout_manager` of pytesseract/pytesseract.py
    turn the engine's process into a result or an error. The process itself
    is not modelled: spawning either fails with an OS error number, or yields
    how long the engine ran, its exit status and its standard error. */
module Runner {
  import opened Wrappers
  import opened Text

  /** The OS error number for "no such file or directory". */
  const ENOENT: int := 2

  /** What the engine did once started: its running time in seconds (a
      fraction of a second included), its exit status and the text it wrote
      to standard error. */
  datatype EngineRun = EngineRun(elapsed: real, returncode: int, stderr: string)

  datatype SpawnOutcome = SpawnFailed(errno: int) | Spawned(run: EngineRun)

  /** `TesseractNotFoundError`, an `OSError` passed on unchanged, the
      `RuntimeError` of a timeout, and `TesseractError(status, message)`. */
  datatype RunError =
    | TesseractNotFound
    | OsError(errno: int)
    | Timeout
    | TesseractError(status: int, message: string)

  /** The outcome of one run, and the exit status the process object ends up
      with (none when it never started; `-1` after a timeout kill). */
  datatype RunReport = RunReport(returncode: Option<int>, result: Result<(), RunError>)

  /** `get_errors`: the standard error's lines joined by single spaces, with
      the ends stripped. The message is one line. */
  function GetErrors(stderr: string): (r: string)
    ensures Trimmed(r) && NoLineBreak(r, TextLines)
  {
    var lines := SplitLines(stderr, TextLines);
    var joined := Join(lines, " ");
    JoinNoBreak(lines, TextLines);
    StripNoBreak(joined, TextLines);
    Strip(joined)
  }

  /** `timeout_manager` waits without a limit when `seconds` is falsy (zero);
      otherwise a run longer than the limit, which may be a fraction of a
      second, is a timeout. */
  predicate TimedOut(run: EngineRun, timeout: real) {
    timeout != 0.0 && run.elapsed > timeout
  }

  /** `run_tesseract` from spawning on: a missing executable is
      `TesseractNotFoundError`, any other spawn error propagates; a timeout
      kills the process, sets its status to `-1` and raises; a non-zero exit
      status raises `TesseractError` with the collected error lines; a zero
      status is success. */
  function RunTesseract(outcome: SpawnOutcome, timeout: real): (r: RunReport)
    ensures r.result.Success? <==> outcome.Spawned? && !TimedOut(outcome.run, timeout) && outcome.run.returncode == 0
    ensures outcome.SpawnFailed? ==> r.returncode.None?
    ensures outcome.SpawnFailed? && outcome.errno == ENOENT ==> r.result == Failure(TesseractNotFound)
    ensures outcome.SpawnFailed? && outcome.errno != ENOENT ==> r.result == Failure(OsError(outcome.errno))
    ensures outcome.Spawned? && TimedOut(outcome.run, timeout) ==> r == RunReport(Some(-1), Failure(Timeout))
    ensures outcome.Spawned? && !TimedOut(outcome.run, timeout) ==> r.returncode == Some(outcome.run.returncode)
    ensures outcome.Spawned? && !TimedOut(outcome.run, timeout) && outcome.run.returncode != 0 ==>
      r.result == Failure(TesseractError(outcome.run.returncode, GetErrors(outcome.run.stderr)))
  {
    match outcome
    case SpawnFailed(errno) =>
      RunReport(None, Failure(if errno == ENOENT then TesseractNotFound else OsError(errno)))
    case Spawned(run) =>
      if TimedOut(run, timeout) then RunReport(Some(-1), Failure(Timeout))
      else if run.returncode != 0 then
        RunReport(Some(run.returncode), Failure(TesseractError(run.returncode, GetErrors(run.stderr))))
      else RunReport(Some(0), Success(()))
  }

  // ---------------------------------------------------------------- lemmas

  /** The error message of a multi-line standard error is its lines joined by
      single spaces and stripped, whether or not the last line ends in a
      newline. */
  lemma {:induction false} GetErrorsOfLines(lines: seq<string>)
    requires |lines| > 0
    requires forall i :: 0 <= i < |lines| ==> NoLineBreak(lines[i], TextLines)
    ensures GetErrors(Join(lines, "\n") + "\n") == Strip(Join(lines, " "))
    ensures lines[|lines| - 1] != [] ==> GetErrors(Join(lines, "\n")) == Strip(Join(lines, " "))
  {
    SplitLinesJoinNewline(lines, TextLines);
    if lines[|lines| - 1] != [] {
      SplitLinesJoin(lines, TextLines);
    }
  }

  /** A run that outlasts a limit of a fraction of a second is a timeout;
      no limit (zero) never is. */
  lemma {:induction false} SubSecondTimeout(run: EngineRun)
    requires run.elapsed > 0.000000001
    ensures RunTesseract(Spawned(run), 0.000000001) == RunReport(Some(-1), Failure(Timeout))
    ensures !TimedOut(run, 0.0)
  {
  }

  /** A single trimmed line ending in a newline is its own message. */
  lemma {:induction false} GetErrorsOneLine(line: string)
    requires line != [] && Trimmed(line) && NoLineBreak(line, TextLines)
    ensures GetErrors(line + "\n") == line
  {
    SplitLinesOneLine(line, TextLines);
    StripTrimmed(line);
  }
}
