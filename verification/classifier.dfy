/** The crash heuristic of `run_mutation_fuzz` (svdf/fuzzer.py) and the
    normalised outcome of one execution of the target. */
module Classifier {
  import opened Base

  /** What one execution of the target left behind: its return code and its
      decoded standard output and standard error. */
  datatype RunResult = RunResult(rc: int, out: string, err: string)

  /** The result substituted when the target exceeds its time budget. */
  const Timeout: RunResult := RunResult(-1, "", "TIMEOUT")

  /** The result substituted when the target binary cannot be started. */
  const BinaryNotFound: RunResult := RunResult(-1, "", "BINARY_NOT_FOUND")

  /** How one launch of the target ended, before the `try` around
      `subprocess.run` turns it into a result: the process ran to the end, it
      overran the time budget, the binary does not exist, or the operating
      system refused to start it for another reason (the file is not
      executable, or it is not a program the system can run). */
  datatype Launch = Exited(result: RunResult) | TimedOut | Missing | Refused

  /** The `try` as written: only the timeout and the missing binary are
      caught; any other launch failure escapes as an exception (`None`). */
  function CaughtAsWritten(l: Launch): (r: Option<RunResult>)
    ensures r.None? <==> l.Refused?
    ensures r.Some? ==> r.value == Caught(l)
  {
    match l
    case Exited(result) => Some(result)
    case TimedOut => Some(Timeout)
    case Missing => Some(BinaryNotFound)
    case Refused => None
  }

  /** The `try` with every launch failure caught: a binary that cannot be
      started, whether missing or not executable, gives the synthetic
      "BINARY_NOT_FOUND" result, so no launch failure ends the campaign. */
  function Caught(l: Launch): (r: RunResult)
    ensures l.Exited? ==> r == l.result
    ensures !l.Exited? ==> r.rc == -1 && IsCrash(r)
    ensures l.TimedOut? ==> r.err == "TIMEOUT"
    ensures (l.Missing? || l.Refused?) ==> r.err == "BINARY_NOT_FOUND"
  {
    match l
    case Exited(result) => result
    case TimedOut => Timeout
    case Missing => BinaryNotFound
    case Refused => BinaryNotFound
  }

  /** The lower-case words whose presence in standard error marks a crash. */
  const CrashMarkers: seq<string> := ["error", "segmentation", "asan"]

  /** The classifier: a non-zero return code, or standard error that
      contains one of the markers once lower-cased. */
  function IsCrash(r: RunResult): (crash: bool)
    ensures crash <==> r.rc != 0 || exists m, i :: m in CrashMarkers && Occurs(Lower(r.err), m, i)
  {
    var e := Lower(r.err);
    ContainsIff(e, "error");
    ContainsIff(e, "segmentation");
    ContainsIff(e, "asan");
    r.rc != 0 || Contains(e, "error") || Contains(e, "segmentation") || Contains(e, "asan")
  }

  // ---------------------------------------------------------------------
  // Properties

  /** The markers are matched regardless of case: a marker spelled in any
      mixture of upper and lower case anywhere in standard error is a crash. */
  lemma MarkerInAnyCase(r: RunResult, m: string, i: nat)
    requires m in CrashMarkers
    requires i + |m| <= |r.err|
    requires forall j :: 0 <= j < |m| ==> LowerChar(r.err[i + j]) == m[j]
    ensures IsCrash(r)
  {
    var e := Lower(r.err);
    assert e[i..i + |m|] == m;
    assert Occurs(e, m, i);
  }

  /** Both synthetic results carry return code -1 and so always count as crashes. */
  lemma SyntheticResultsAreCrashes()
    ensures IsCrash(Timeout) && IsCrash(BinaryNotFound)
  {
  }

  /** Sample verdicts: an exit code of 1 with empty standard error is a crash;
      exit code 0 with standard error "ok" is not; exit code 0 with standard
      error "Segmentation fault" is. */
  lemma SampleVerdicts()
    ensures IsCrash(RunResult(1, "", ""))
    ensures !IsCrash(RunResult(0, "", "ok"))
    ensures IsCrash(RunResult(0, "", "Segmentation fault"))
  {
    MarkerInAnyCase(RunResult(0, "", "Segmentation fault"), "segmentation", 0);
  }
}
