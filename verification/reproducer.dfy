/** The reproducer store of `run_mutation_fuzz` (svdf/fuzzer.py): for a
    crash observed at millisecond `t`, the input goes to
    `reproducers/crash_<t>.bin` and a plain-text log to
    `reproducers/crash_<t>.log`. The file system is a map from path to
    contents, so a second write to the same path replaces the first. */
module Reproducer {
  import opened Base
  import opened Classifier

  const ReproDir: string := "reproducers"

  /** The path prefix shared by every reproducer file. */
  const CrashPrefix: string := ReproDir + "/crash_"

  function BinName(t: nat): string
  {
    CrashPrefix + NatToString(t) + ".bin"
  }

  function LogName(t: nat): string
  {
    CrashPrefix + NatToString(t) + ".log"
  }

  /** The log layout: the return code, then standard output and standard
      error, each under its own label. */
  function LogText(r: RunResult): (log: string)
    ensures FirstLine(log) == "rc: " + IntToString(r.rc)
    ensures log[|log| - 1] == '\n'
  {
    assert '\n' !in "rc: " + IntToString(r.rc);
    FirstLineOf("rc: " + IntToString(r.rc), LogStreams(r));
    "rc: " + IntToString(r.rc) + "\n" + LogStreams(r)
  }

  /** The labelled output streams that follow the return code line. */
  function LogStreams(r: RunResult): string
  {
    "stdout:\n" + r.out + "\nstderr:\n" + r.err + "\n"
  }

  datatype FileContent = Binary(bytes: Bytes) | Text(text: string)

  type FileSystem = map<string, FileContent>

  /** The entry `run_mutation_fuzz` returns for one crash. */
  datatype CrashRecord = CrashRecord(input: string, log: string, rc: int)

  // ---------------------------------------------------------------------
  // Reading names and logs back

  /** The identifier in a reproducer file name, if it is one. */
  function StampOf(name: string): Option<nat>
  {
    var p := |CrashPrefix|;
    if |name| >= p + 4 && name[..p] == CrashPrefix
       && (name[|name| - 4..] == ".bin" || name[|name| - 4..] == ".log")
    then ParseNat(name[p..|name| - 4])
    else None
  }

  /** The text before the first line break. */
  function FirstLine(s: string): (line: string)
    ensures '\n' !in line
    decreases |s|
  {
    if s == [] || s[0] == '\n' then [] else [s[0]] + FirstLine(s[1..])
  }

  /** The return code recorded in a log, if the log has the fixed layout. */
  function LoggedRc(log: string): Option<int>
  {
    if |log| >= 4 && log[..4] == "rc: " then ParseInt(FirstLine(log[4..])) else None
  }

  /** The record for a crash observed at millisecond `t`. */
  function RecordFor(t: nat, r: RunResult): (rec: CrashRecord)
    ensures StampOf(rec.input) == Some(t) && StampOf(rec.log) == Some(t)
    ensures rec.input != rec.log
    ensures rec.rc == r.rc
  {
    NamesShareStamp(t);
    CrashRecord(BinName(t), LogName(t), r.rc)
  }

  /** Writing the reproducer pair of a crash observed at millisecond `t`. */
  function Persist(fs: FileSystem, t: nat, input: Bytes, r: RunResult): (fs': FileSystem)
    ensures fs'.Keys == fs.Keys + {BinName(t), LogName(t)}
    ensures fs'[BinName(t)] == Binary(input)
    ensures fs'[LogName(t)] == Text(LogText(r))
    ensures forall n :: n in fs && n != BinName(t) && n != LogName(t) ==> fs'[n] == fs[n]
  {
    BinIsNeverLog(t, t);
    fs[BinName(t) := Binary(input)][LogName(t) := Text(LogText(r))]
  }

  // ---------------------------------------------------------------------
  // Properties

  /** The input file and the log file of one crash carry the same
      identifier, and it is the clock reading they were named after. */
  lemma NamesShareStamp(t: nat)
    ensures StampOf(BinName(t)) == Some(t)
    ensures StampOf(LogName(t)) == Some(t)
  {
    var d := NatToString(t);
    var p := |CrashPrefix|;
    assert BinName(t)[..p] == CrashPrefix && BinName(t)[p..|BinName(t)| - 4] == d;
    assert BinName(t)[|BinName(t)| - 4..] == ".bin";
    assert LogName(t)[..p] == CrashPrefix && LogName(t)[p..|LogName(t)| - 4] == d;
    assert LogName(t)[|LogName(t)| - 4..] == ".log";
    NatRoundTrip(t);
  }

  /** An input file name is never a log file name. */
  lemma BinIsNeverLog(t1: nat, t2: nat)
    ensures BinName(t1) != LogName(t2)
  {
    var b := BinName(t1);
    var l := LogName(t2);
    assert b[|b| - 1] == 'n' && l[|l| - 1] == 'g';
  }

  /** Crashes observed at different milliseconds use different files. */
  lemma DistinctStampsDistinctFiles(t1: nat, t2: nat)
    requires t1 != t2
    ensures BinName(t1) != BinName(t2) && LogName(t1) != LogName(t2)
  {
    NamesShareStamp(t1);
    NamesShareStamp(t2);
  }

  lemma {:induction false} FirstLineOf(a: string, b: string)
    requires '\n' !in a
    ensures FirstLine(a + "\n" + b) == a
    decreases |a|
  {
    if a != [] {
      assert (a + "\n" + b)[1..] == a[1..] + "\n" + b;
      FirstLineOf(a[1..], b);
    }
  }

  /** The return code can be read back from the log it was written to,
      whatever the captured output streams contain. */
  lemma LogRoundTrip(r: RunResult)
    ensures LoggedRc(LogText(r)) == Some(r.rc)
  {
    var code := IntToString(r.rc);
    var rest := code + "\n" + LogStreams(r);
    assert LogText(r) == "rc: " + rest;
    assert LogText(r)[..4] == "rc: ";
    assert LogText(r)[4..] == rest;
    FirstLineOf(code, LogStreams(r));
    IntRoundTrip(r.rc);
  }

  /** Two crashes persisted at different milliseconds can both be read back:
      each input file holds its input and each log records its return code. */
  lemma SequentialPersists(fs: FileSystem, t1: nat, in1: Bytes, r1: RunResult,
                           t2: nat, in2: Bytes, r2: RunResult)
    requires t1 != t2
    ensures var fs' := Persist(Persist(fs, t1, in1, r1), t2, in2, r2);
            && fs'[BinName(t1)] == Binary(in1) && fs'[BinName(t2)] == Binary(in2)
            && fs'[LogName(t1)].Text? && LoggedRc(fs'[LogName(t1)].text) == Some(r1.rc)
            && fs'[LogName(t2)].Text? && LoggedRc(fs'[LogName(t2)].text) == Some(r2.rc)
  {
    DistinctStampsDistinctFiles(t1, t2);
    BinIsNeverLog(t1, t2);
    BinIsNeverLog(t2, t1);
    LogRoundTrip(r1);
    LogRoundTrip(r2);
  }

  /** Two crashes in the same millisecond: the second pair overwrites the first. */
  lemma SameStampLastWriteWins(fs: FileSystem, t: nat, in1: Bytes, r1: RunResult, in2: Bytes, r2: RunResult)
    ensures Persist(Persist(fs, t, in1, r1), t, in2, r2) == Persist(fs, t, in2, r2)
  {
    var a := Persist(Persist(fs, t, in1, r1), t, in2, r2);
    var b := Persist(fs, t, in2, r2);
    assert a.Keys == b.Keys;
    forall n | n in a
      ensures a[n] == b[n]
    {
    }
  }
}
