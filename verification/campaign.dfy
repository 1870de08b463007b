/** The campaign loop of `run_mutation_fuzz` (svdf/fuzzer.py): a fixed
    number of iterations of sample, mutate, execute, classify and, on a crash,
    persist the reproducer and add the input to the corpus.

    Everything the source takes from the outside world is an input here:
    the random draws of each iteration (`Draw`), the result of executing the
    target on that iteration's input (`results`), and the millisecond clock
    reading taken when that iteration crashes (`clock`). */
module Campaign {
  import opened Base
  import opened Mutator
  import opened Corpus
  import opened Classifier
  import opened Reproducer

  /** The random draws of one iteration: the corpus index `random.choice`
      picks, and the draws of `mutate`. */
  datatype Draw = Draw(seed: nat, choices: Choices)

  /** What the loop carries from one iteration to the next. */
  datatype State = State(corpus: seq<Bytes>, crashes: seq<CrashRecord>, fs: FileSystem)

  /** The draw is one the random calls can make in state `s`. */
  predicate Fits(s: State, d: Draw)
  {
    d.seed < |s.corpus| && ValidChoices(|WorkingCopy(s.corpus[d.seed])|, d.choices)
  }

  /** The input an iteration feeds to the target. */
  function InputOf(s: State, d: Draw): Bytes
    requires Fits(s, d)
  {
    Mutate(s.corpus[d.seed], d.choices)
  }

  /** One iteration of the loop. A crash adds the input the iteration ran to
      the corpus (a possible mutation of the sampled entry, `StepAddsMutant`)
      and one crash record (whose files `StepWritesFiles` describes); any
      other result leaves the state as it was. */
  function Step(s: State, d: Draw, r: RunResult, t: nat): (s': State)
    requires Fits(s, d)
    ensures !IsCrash(r) ==> s' == s
    ensures IsCrash(r) ==>
              && s'.corpus == s.corpus + [InputOf(s, d)]
              && s'.crashes == s.crashes + [RecordFor(t, r)]
  {
    var input := InputOf(s, d);
    if IsCrash(r) then State(s.corpus + [input], s.crashes + [RecordFor(t, r)], Persist(s.fs, t, input, r))
    else s
  }

  /** A crash writes the input the iteration ran, which is also the new corpus
      entry, to the input file named after its millisecond, and a log file
      from which the return code reads back. */
  lemma StepWritesFiles(s: State, d: Draw, r: RunResult, t: nat)
    requires Fits(s, d) && IsCrash(r)
    ensures var s' := Step(s, d, r, t);
            && BinName(t) in s'.fs && s'.fs[BinName(t)] == Binary(InputOf(s, d))
            && s'.corpus[|s.corpus|] == InputOf(s, d)
            && LogName(t) in s'.fs && s'.fs[LogName(t)].Text?
            && LoggedRc(s'.fs[LogName(t)].text) == Some(r.rc)
  {
    LogRoundTrip(r);
  }

  /** The entry a crash adds to the corpus is a possible mutation of the
      sampled entry. */
  lemma StepAddsMutant(s: State, d: Draw, r: RunResult, t: nat)
    requires Fits(s, d) && IsCrash(r)
    ensures PossibleOutput(s.corpus[d.seed], Step(s, d, r, t).corpus[|s.corpus|])
  {
    MutateIsPossible(s.corpus[d.seed], d.choices);
  }

  /** Every draw is possible in the state reached by the iterations before it. */
  predicate Admissible(s: State, draws: seq<Draw>, results: seq<RunResult>, clock: seq<nat>)
    decreases |draws|
  {
    && |draws| == |results| == |clock|
    && (draws != [] ==>
          && Fits(s, draws[0])
          && Admissible(Step(s, draws[0], results[0], clock[0]), draws[1..], results[1..], clock[1..]))
  }

  /** The iterations, one per draw, in order. The corpus and the crash list
      are only ever appended to, and they grow together. */
  function Run(s: State, draws: seq<Draw>, results: seq<RunResult>, clock: seq<nat>): (s': State)
    requires Admissible(s, draws, results, clock)
    ensures s.corpus <= s'.corpus && s.crashes <= s'.crashes
    ensures |s'.corpus| - |s.corpus| == |s'.crashes| - |s.crashes| <= |draws|
    decreases |draws|
  {
    if draws == [] then s
    else Run(Step(s, draws[0], results[0], clock[0]), draws[1..], results[1..], clock[1..])
  }

  /** Reference list of crash records: one per iteration whose result the
      classifier calls a crash, in iteration order, named after that
      iteration's clock reading. */
  function ExpectedCrashes(results: seq<RunResult>, clock: seq<nat>): (crashes: seq<CrashRecord>)
    requires |results| == |clock|
    ensures |crashes| <= |results|
    decreases |results|
  {
    if results == [] then []
    else
      (if IsCrash(results[0]) then [RecordFor(clock[0], results[0])] else [])
      + ExpectedCrashes(results[1..], clock[1..])
  }

  /** `range(iterations)` is empty for a negative count. */
  function Steps(iterations: int): nat
  {
    if iterations < 0 then 0 else iterations
  }

  // ---------------------------------------------------------------------
  // Properties

  /** A crash record is produced exactly for the iterations whose result is
      a crash, in order, with the observed return code. */
  lemma {:induction false} RunCrashes(s: State, draws: seq<Draw>, results: seq<RunResult>, clock: seq<nat>)
    requires Admissible(s, draws, results, clock)
    ensures Run(s, draws, results, clock).crashes == s.crashes + ExpectedCrashes(results, clock)
    decreases |draws|
  {
    if draws != [] {
      var s1 := Step(s, draws[0], results[0], clock[0]);
      RunCrashes(s1, draws[1..], results[1..], clock[1..]);
      assert Run(s, draws, results, clock) == Run(s1, draws[1..], results[1..], clock[1..]);
      var own := if IsCrash(results[0]) then [RecordFor(clock[0], results[0])] else [];
      assert ExpectedCrashes(results, clock) == own + ExpectedCrashes(results[1..], clock[1..]);
      assert s1.crashes == s.crashes + own;
    }
  }

  /** Running two stretches of draws one after the other is running them together. */
  lemma {:induction false} RunSplit(s: State, d1: seq<Draw>, d2: seq<Draw>, r1: seq<RunResult>, r2: seq<RunResult>,
                                    c1: seq<nat>, c2: seq<nat>)
    requires |d1| == |r1| == |c1|
    requires Admissible(s, d1 + d2, r1 + r2, c1 + c2)
    ensures Admissible(s, d1, r1, c1)
    ensures Admissible(Run(s, d1, r1, c1), d2, r2, c2)
    ensures Run(s, d1 + d2, r1 + r2, c1 + c2) == Run(Run(s, d1, r1, c1), d2, r2, c2)
    decreases |d1|
  {
    if d1 == [] {
      assert d1 + d2 == d2 && r1 + r2 == r2 && c1 + c2 == c2;
    } else {
      assert (d1 + d2)[0] == d1[0] && (d1 + d2)[1..] == d1[1..] + d2;
      assert (r1 + r2)[0] == r1[0] && (r1 + r2)[1..] == r1[1..] + r2;
      assert (c1 + c2)[0] == c1[0] && (c1 + c2)[1..] == c1[1..] + c2;
      var s1 := Step(s, d1[0], r1[0], c1[0]);
      RunSplit(s1, d1[1..], d2, r1[1..], r2, c1[1..], c2);
    }
  }

  /** The seed sampled by iteration `i` is an element of the corpus at that
      point, and it is still in the final corpus. */
  lemma SampledSeedInCorpus(s: State, draws: seq<Draw>, results: seq<RunResult>, clock: seq<nat>, i: nat)
    requires Admissible(s, draws, results, clock)
    requires i < |draws|
    ensures Admissible(s, draws[..i], results[..i], clock[..i])
    ensures var mid := Run(s, draws[..i], results[..i], clock[..i]);
            draws[i].seed < |mid.corpus| && mid.corpus[draws[i].seed] in Run(s, draws, results, clock).corpus
  {
    SplitAt(s, draws, results, clock, i);
    var mid := Run(s, draws[..i], results[..i], clock[..i]);
    assert draws[i..][0] == draws[i];
    var fin := Run(s, draws, results, clock);
    assert fin.corpus[draws[i].seed] == mid.corpus[draws[i].seed];
  }

  /** `RunSplit` at iteration `i`. */
  lemma SplitAt(s: State, draws: seq<Draw>, results: seq<RunResult>, clock: seq<nat>, i: nat)
    requires Admissible(s, draws, results, clock)
    requires i <= |draws|
    ensures Admissible(s, draws[..i], results[..i], clock[..i])
    ensures Admissible(Run(s, draws[..i], results[..i], clock[..i]), draws[i..], results[i..], clock[i..])
    ensures Run(s, draws, results, clock)
         == Run(Run(s, draws[..i], results[..i], clock[..i]), draws[i..], results[i..], clock[i..])
  {
    var d1, d2, r1, r2, c1, c2 := draws[..i], draws[i..], results[..i], results[i..], clock[..i], clock[i..];
    assert d1 + d2 == draws && r1 + r2 == results && c1 + c2 == clock;
    RunSplit(s, d1, d2, r1, r2, c1, c2);
  }

  // ---------------------------------------------------------------------
  // Reproducers on disk

  /** Since the point where the corpus had `c0` entries and the crash list
      `k0`, every recorded crash has its input file holding exactly the input
      that was added to the corpus alongside it, and a log file that records
      its return code. */
  ghost predicate Reproducible(s: State, c0: nat, k0: nat)
  {
    && c0 <= |s.corpus| && k0 <= |s.crashes|
    && |s.corpus| - c0 == |s.crashes| - k0
    && forall j :: k0 <= j < |s.crashes| ==>
         && s.crashes[j].input in s.fs
         && s.fs[s.crashes[j].input] == Binary(s.corpus[c0 + (j - k0)])
         && s.crashes[j].log in s.fs
         && s.fs[s.crashes[j].log].Text?
         && LoggedRc(s.fs[s.crashes[j].log].text) == Some(s.crashes[j].rc)
  }

  /** No two crashing iterations read the same millisecond. */
  predicate DistinctCrashStamps(results: seq<RunResult>, clock: seq<nat>)
    requires |results| == |clock|
  {
    forall i, j :: 0 <= i < j < |results| && IsCrash(results[i]) && IsCrash(results[j]) ==> clock[i] != clock[j]
  }

  /** The files of the crashes recorded so far are not the files a later
      crashing iteration will write. */
  ghost predicate FilesNotReused(s: State, k0: nat, results: seq<RunResult>, clock: seq<nat>)
    requires |results| == |clock|
  {
    forall j, i :: k0 <= j < |s.crashes| && 0 <= i < |results| && IsCrash(results[i]) ==>
      && s.crashes[j].input != BinName(clock[i]) && s.crashes[j].input != LogName(clock[i])
      && s.crashes[j].log != BinName(clock[i]) && s.crashes[j].log != LogName(clock[i])
  }

  /** A crashing step writes its own pair of files and leaves the files of
      earlier crashes alone. */
  lemma CrashStepReproducible(s: State, d: Draw, r: RunResult, t: nat, c0: nat, k0: nat)
    requires Fits(s, d) && IsCrash(r)
    requires Reproducible(s, c0, k0)
    requires forall j :: k0 <= j < |s.crashes| ==>
               && s.crashes[j].input != BinName(t) && s.crashes[j].input != LogName(t)
               && s.crashes[j].log != BinName(t) && s.crashes[j].log != LogName(t)
    ensures Reproducible(Step(s, d, r, t), c0, k0)
  {
    var s' := Step(s, d, r, t);
    assert s'.crashes == s.crashes + [RecordFor(t, r)];
    forall j | k0 <= j < |s'.crashes|
      ensures && s'.crashes[j].input in s'.fs
              && s'.fs[s'.crashes[j].input] == Binary(s'.corpus[c0 + (j - k0)])
              && s'.crashes[j].log in s'.fs
              && s'.fs[s'.crashes[j].log].Text?
              && LoggedRc(s'.fs[s'.crashes[j].log].text) == Some(s'.crashes[j].rc)
    {
      if j == |s.crashes| {
        LogRoundTrip(r);
      } else {
        assert s'.crashes[j] == s.crashes[j];
      }
    }
  }

  /** The files of a new crash at millisecond `t` differ from those of any
      later crash at another millisecond. */
  lemma FreshFiles(t: nat, u: nat)
    requires t != u
    ensures BinName(t) != BinName(u) && BinName(t) != LogName(u)
    ensures LogName(t) != BinName(u) && LogName(t) != LogName(u)
  {
    DistinctStampsDistinctFiles(t, u);
    BinIsNeverLog(t, u);
    BinIsNeverLog(u, t);
  }

  lemma StepFilesNotReused(s: State, d: Draw, r: RunResult, t: nat, k0: nat,
                            results: seq<RunResult>, clock: seq<nat>)
    requires Fits(s, d)
    requires |results| == |clock|
    requires FilesNotReused(s, k0, [r] + results, [t] + clock)
    requires DistinctCrashStamps([r] + results, [t] + clock)
    ensures FilesNotReused(Step(s, d, r, t), k0, results, clock)
  {
    var s' := Step(s, d, r, t);
    AppendFilesNotReused(s, s', r, t, k0, results, clock);
  }

  /** `StepFilesNotReused` for any state whose crash list gains the record of
      `r` when it is a crash. */
  lemma AppendFilesNotReused(s: State, s': State, r: RunResult, t: nat, k0: nat,
                             results: seq<RunResult>, clock: seq<nat>)
    requires |results| == |clock|
    requires s'.crashes == s.crashes + (if IsCrash(r) then [RecordFor(t, r)] else [])
    requires FilesNotReused(s, k0, [r] + results, [t] + clock)
    requires DistinctCrashStamps([r] + results, [t] + clock)
    ensures FilesNotReused(s', k0, results, clock)
  {
    var rs := [r] + results;
    var cs := [t] + clock;
    assert rs[0] == r && cs[0] == t;
    forall j, i | k0 <= j < |s'.crashes| && 0 <= i < |results| && IsCrash(results[i])
      ensures && s'.crashes[j].input != BinName(clock[i]) && s'.crashes[j].input != LogName(clock[i])
              && s'.crashes[j].log != BinName(clock[i]) && s'.crashes[j].log != LogName(clock[i])
    {
      assert rs[i + 1] == results[i] && cs[i + 1] == clock[i];
      if j < |s.crashes| {
        assert s'.crashes[j] == s.crashes[j];
      } else {
        assert cs[0] != cs[i + 1];
        FreshFiles(t, clock[i]);
      }
    }
  }

  lemma StepReproducible(s: State, d: Draw, r: RunResult, t: nat, c0: nat, k0: nat,
                         results: seq<RunResult>, clock: seq<nat>)
    requires Fits(s, d)
    requires |results| == |clock|
    requires Reproducible(s, c0, k0)
    requires FilesNotReused(s, k0, [r] + results, [t] + clock)
    requires DistinctCrashStamps([r] + results, [t] + clock)
    ensures Reproducible(Step(s, d, r, t), c0, k0)
    ensures FilesNotReused(Step(s, d, r, t), k0, results, clock)
  {
    if IsCrash(r) {
      var rs := [r] + results;
      var cs := [t] + clock;
      assert rs[0] == r && cs[0] == t;
      CrashStepReproducible(s, d, r, t, c0, k0);
    }
    StepFilesNotReused(s, d, r, t, k0, results, clock);
  }

  lemma {:induction false} RunReproducible(s: State, draws: seq<Draw>, results: seq<RunResult>, clock: seq<nat>,
                                           c0: nat, k0: nat)
    requires Admissible(s, draws, results, clock)
    requires Reproducible(s, c0, k0)
    requires FilesNotReused(s, k0, results, clock)
    requires DistinctCrashStamps(results, clock)
    ensures Reproducible(Run(s, draws, results, clock), c0, k0)
    decreases |draws|
  {
    if draws != [] {
      assert results == [results[0]] + results[1..];
      assert clock == [clock[0]] + clock[1..];
      StepReproducible(s, draws[0], results[0], clock[0], c0, k0, results[1..], clock[1..]);
      var s1 := Step(s, draws[0], results[0], clock[0]);
      assert DistinctCrashStamps(results[1..], clock[1..]) by {
        forall i, j | 0 <= i < j < |results[1..]| && IsCrash(results[1..][i]) && IsCrash(results[1..][j])
          ensures clock[1..][i] != clock[1..][j]
        {
          assert results[1..][i] == results[i + 1] && results[1..][j] == results[j + 1];
        }
      }
      RunReproducible(s1, draws[1..], results[1..], clock[1..], c0, k0);
    }
  }

  /** When no two crashes fall in the same millisecond, every crash record
      of a campaign can be reproduced from disk: its input file holds the
      crashing input (the one added to the corpus at the same position) and
      its log file records the observed return code. */
  lemma CrashRecordsReproduce(s: State, draws: seq<Draw>, results: seq<RunResult>, clock: seq<nat>)
    requires Admissible(s, draws, results, clock)
    requires DistinctCrashStamps(results, clock)
    ensures Reproducible(Run(s, draws, results, clock), |s.corpus|, |s.crashes|)
  {
    RunReproducible(s, draws, results, clock, |s.corpus|, |s.crashes|);
  }

  // ---------------------------------------------------------------------
  // Corpus feedback

  /** From position `n` on, every corpus entry is a possible mutation of an
      entry before it. */
  ghost predicate MutantsFrom(corpus: seq<Bytes>, n: nat)
  {
    forall k :: n <= k < |corpus| ==> HasParent(corpus, k)
  }

  /** Entry `k` is a possible mutation of an entry before it. */
  ghost predicate HasParent(corpus: seq<Bytes>, k: nat)
    requires k < |corpus|
  {
    exists j :: 0 <= j < k && PossibleOutput(corpus[j], corpus[k])
  }

  /** Appending a possible mutation of an existing entry keeps `MutantsFrom`. */
  lemma AppendKeepsMutants(corpus: seq<Bytes>, x: Bytes, j: nat, n: nat)
    requires j < |corpus| && PossibleOutput(corpus[j], x)
    requires n <= |corpus| && MutantsFrom(corpus, n)
    ensures MutantsFrom(corpus + [x], n)
  {
    var c := corpus + [x];
    forall k | n <= k < |c|
      ensures HasParent(c, k)
    {
      if k < |corpus| {
        assert HasParent(corpus, k);
        var i :| 0 <= i < k && PossibleOutput(corpus[i], corpus[k]);
        assert c[i] == corpus[i] && c[k] == corpus[k];
      } else {
        assert c[j] == corpus[j] && c[k] == x;
      }
    }
  }

  /** One iteration keeps `MutantsFrom`: the entry a crash adds is a
      possible mutation of the sampled entry, which comes before it. */
  lemma StepKeepsMutants(s: State, d: Draw, r: RunResult, t: nat, n: nat)
    requires Fits(s, d)
    requires n <= |s.corpus| && MutantsFrom(s.corpus, n)
    ensures MutantsFrom(Step(s, d, r, t).corpus, n)
  {
    if IsCrash(r) {
      var c := Step(s, d, r, t).corpus;
      StepAddsMutant(s, d, r, t);
      AppendKeepsMutants(s.corpus, c[|s.corpus|], d.seed, n);
    }
  }

  /** Every input the campaign adds to the corpus is a possible mutation of an
      entry that was in the corpus before it. */
  lemma {:induction false} RunAppendsMutants(s: State, draws: seq<Draw>, results: seq<RunResult>, clock: seq<nat>,
                                             n: nat)
    requires Admissible(s, draws, results, clock)
    requires n <= |s.corpus| && MutantsFrom(s.corpus, n)
    ensures MutantsFrom(Run(s, draws, results, clock).corpus, n)
    decreases |draws|
  {
    if draws != [] {
      var s1 := Step(s, draws[0], results[0], clock[0]);
      StepKeepsMutants(s, draws[0], results[0], clock[0], n);
      RunAppendsMutants(s1, draws[1..], results[1..], clock[1..], n);
      assert Run(s, draws, results, clock) == Run(s1, draws[1..], results[1..], clock[1..]);
    }
  }

  // ---------------------------------------------------------------------
  // Launch failures

  /** The results of a sequence of launches, each caught as `Caught` does. */
  function Outcomes(launches: seq<Launch>): (results: seq<RunResult>)
    ensures |results| == |launches|
    ensures forall i :: 0 <= i < |launches| ==> results[i] == Caught(launches[i])
    decreases |launches|
  {
    if launches == [] then [] else [Caught(launches[0])] + Outcomes(launches[1..])
  }

  /** How a campaign ends: with its final state, or with an exception that
      escapes the loop. The files written before the exception stay on disk;
      the crash list is never returned. */
  datatype Ending = Finished(state: State) | Raised(fs: FileSystem)

  /** The loop with the `try` as written (`CaughtAsWritten`): a refused
      launch ends the campaign with an exception; without one, the campaign
      ends as the loop with every failure caught does. */
  function RunAsWritten(s: State, draws: seq<Draw>, launches: seq<Launch>, clock: seq<nat>): (e: Ending)
    requires Admissible(s, draws, Outcomes(launches), clock)
    ensures !AnyRefused(launches) ==> e == Finished(Run(s, draws, Outcomes(launches), clock))
    ensures AnyRefused(launches) ==> e.Raised?
    decreases |draws|
  {
    if draws == [] then Finished(s)
    else
      match CaughtAsWritten(launches[0])
      case None => Raised(s.fs)
      case Some(r) =>
        assert Outcomes(launches)[1..] == Outcomes(launches[1..]);
        assert Outcomes(launches)[0] == r;
        RunAsWritten(Step(s, draws[0], r, clock[0]), draws[1..], launches[1..], clock[1..])
  }

  /** One iteration of the loop as written, unfolded. */
  lemma {:induction false} UnfoldAsWritten(s: State, draws: seq<Draw>, launches: seq<Launch>, clock: seq<nat>)
    requires Admissible(s, draws, Outcomes(launches), clock)
    requires draws != []
    ensures Fits(s, draws[0])
    ensures Admissible(Step(s, draws[0], Caught(launches[0]), clock[0]), draws[1..], Outcomes(launches[1..]), clock[1..])
    ensures launches[0].Refused? ==> RunAsWritten(s, draws, launches, clock) == Raised(s.fs)
    ensures !launches[0].Refused? ==>
              RunAsWritten(s, draws, launches, clock)
              == RunAsWritten(Step(s, draws[0], Caught(launches[0]), clock[0]), draws[1..], launches[1..], clock[1..])
  {
    assert Outcomes(launches)[1..] == Outcomes(launches[1..]);
    if !launches[0].Refused? {
      assert CaughtAsWritten(launches[0]) == Some(Caught(launches[0]));
    }
  }

  /** Some launch is refused. */
  predicate AnyRefused(launches: seq<Launch>)
    decreases |launches|
  {
    launches != [] && (launches[0].Refused? || AnyRefused(launches[1..]))
  }

  /** `AnyRefused` holds exactly when some position holds a refused launch. */
  lemma {:induction false} AnyRefusedIff(launches: seq<Launch>)
    ensures AnyRefused(launches) <==> exists i :: 0 <= i < |launches| && launches[i].Refused?
    decreases |launches|
  {
    if launches != [] {
      var tail := launches[1..];
      AnyRefusedIff(tail);
      if AnyRefused(launches) && !launches[0].Refused? {
        var j :| 0 <= j < |tail| && tail[j].Refused?;
        assert launches[j + 1].Refused?;
      }
      if exists i :: 0 <= i < |launches| && launches[i].Refused? {
        var i :| 0 <= i < |launches| && launches[i].Refused?;
        if i > 0 {
          assert tail[i - 1].Refused?;
        }
      }
    }
  }

  /** Without a refused launch the loop as written is the campaign `Run`
      computes from the caught results. */
  lemma AsWrittenAgreesWithoutRefusal(s: State, draws: seq<Draw>, launches: seq<Launch>, clock: seq<nat>)
    requires Admissible(s, draws, Outcomes(launches), clock)
    requires forall i :: 0 <= i < |launches| ==> !launches[i].Refused?
    ensures RunAsWritten(s, draws, launches, clock) == Finished(Run(s, draws, Outcomes(launches), clock))
  {
    AnyRefusedIff(launches);
  }

  /** With a refused launch among the iterations, the loop as written ends
      with an exception. */
  lemma RefusalRaises(s: State, draws: seq<Draw>, launches: seq<Launch>, clock: seq<nat>, i: nat)
    requires Admissible(s, draws, Outcomes(launches), clock)
    requires i < |draws| && launches[i].Refused?
    ensures RunAsWritten(s, draws, launches, clock).Raised?
  {
    AnyRefusedIff(launches);
  }

  /** The iterations before `i` run as one step followed by the iterations
      from 1 to `i`. */
  lemma PrefixStep(s: State, draws: seq<Draw>, results: seq<RunResult>, clock: seq<nat>, i: nat)
    requires Admissible(s, draws, results, clock)
    requires 0 < i <= |draws|
    ensures Admissible(s, draws[..i], results[..i], clock[..i])
    ensures var s1 := Step(s, draws[0], results[0], clock[0]);
            && Admissible(s1, draws[1..][..i - 1], results[1..][..i - 1], clock[1..][..i - 1])
            && Run(s, draws[..i], results[..i], clock[..i])
               == Run(s1, draws[1..][..i - 1], results[1..][..i - 1], clock[1..][..i - 1])
  {
    SplitAt(s, draws, results, clock, i);
    var d, r, c := draws[..i], results[..i], clock[..i];
    assert d[0] == draws[0] && r[0] == results[0] && c[0] == clock[0];
    assert d[1..] == draws[1..][..i - 1] && r[1..] == results[1..][..i - 1] && c[1..] == clock[1..][..i - 1];
  }

  /** A first refusal at iteration `i`, as written, raises with the files the
      iterations before it wrote. */
  lemma {:induction false} FirstRefusal(s: State, draws: seq<Draw>, launches: seq<Launch>, clock: seq<nat>, i: nat)
    requires Admissible(s, draws, Outcomes(launches), clock)
    requires i < |draws| && launches[i].Refused?
    requires forall j :: 0 <= j < i ==> !launches[j].Refused?
    ensures Admissible(s, draws[..i], Outcomes(launches)[..i], clock[..i])
    ensures RunAsWritten(s, draws, launches, clock)
         == Raised(Run(s, draws[..i], Outcomes(launches)[..i], clock[..i]).fs)
    decreases i
  {
    if i == 0 {
      RefusalNow(s, draws, launches, clock);
    } else {
      var s1 := RefusalLater(s, draws, launches, clock, i);
      var d1, l1, c1 := draws[1..], launches[1..], clock[1..];
      FirstRefusal(s1, d1, l1, c1, i - 1);
      var mid := Run(s1, d1[..i - 1], Outcomes(l1)[..i - 1], c1[..i - 1]);
      assert RunAsWritten(s1, d1, l1, c1) == Raised(mid.fs);
      assert Run(s, draws[..i], Outcomes(launches)[..i], clock[..i]) == mid;
    }
  }

  /** `FirstRefusal` at the first remaining iteration: nothing ran before it. */
  lemma RefusalNow(s: State, draws: seq<Draw>, launches: seq<Launch>, clock: seq<nat>)
    requires Admissible(s, draws, Outcomes(launches), clock)
    requires draws != [] && launches[0].Refused?
    ensures Admissible(s, draws[..0], Outcomes(launches)[..0], clock[..0])
    ensures RunAsWritten(s, draws, launches, clock) == Raised(Run(s, draws[..0], Outcomes(launches)[..0], clock[..0]).fs)
  {
    UnfoldAsWritten(s, draws, launches, clock);
    assert draws[..0] == [];
    assert Run(s, draws[..0], Outcomes(launches)[..0], clock[..0]) == s;
  }

  /** One caught iteration before a later first refusal at `i`: both the loop
      as written and the prefix before `i` continue from the same state. */
  lemma RefusalLater(s: State, draws: seq<Draw>, launches: seq<Launch>, clock: seq<nat>, i: nat) returns (s1: State)
    requires Admissible(s, draws, Outcomes(launches), clock)
    requires 0 < i < |draws| && launches[i].Refused?
    requires forall j :: 0 <= j < i ==> !launches[j].Refused?
    ensures launches[1..][i - 1].Refused? && forall j :: 0 <= j < i - 1 ==> !launches[1..][j].Refused?
    ensures Admissible(s1, draws[1..], Outcomes(launches[1..]), clock[1..])
    ensures RunAsWritten(s, draws, launches, clock) == RunAsWritten(s1, draws[1..], launches[1..], clock[1..])
    ensures Admissible(s, draws[..i], Outcomes(launches)[..i], clock[..i])
    ensures Admissible(s1, draws[1..][..i - 1], Outcomes(launches[1..])[..i - 1], clock[1..][..i - 1])
    ensures Run(s, draws[..i], Outcomes(launches)[..i], clock[..i])
         == Run(s1, draws[1..][..i - 1], Outcomes(launches[1..])[..i - 1], clock[1..][..i - 1])
  {
    assert !launches[0].Refused? && launches[1..][i - 1] == launches[i];
    assert forall j :: 0 <= j < i - 1 ==> launches[1..][j] == launches[j + 1];
    UnfoldAsWritten(s, draws, launches, clock);
    var results := Outcomes(launches);
    PrefixStep(s, draws, results, clock, i);
    assert results[0] == Caught(launches[0]) && results[1..] == Outcomes(launches[1..]);
    s1 := Step(s, draws[0], Caught(launches[0]), clock[0]);
  }

  /** A refused launch, as written, ends the campaign at that iteration: the
      exception leaves the files written so far on disk, and the crash list
      built so far, `s.crashes`, is never returned. With every launch failure
      caught, the same iteration is recorded as a crash and the loop goes on. */
  lemma RefusalLosesCrashes(s: State, draws: seq<Draw>, launches: seq<Launch>, clock: seq<nat>)
    requires Admissible(s, draws, Outcomes(launches), clock)
    requires draws != [] && launches[0].Refused?
    ensures RunAsWritten(s, draws, launches, clock) == Raised(s.fs)
    ensures s.crashes + [RecordFor(clock[0], BinaryNotFound)] <= Run(s, draws, Outcomes(launches), clock).crashes
  {
    UnfoldAsWritten(s, draws, launches, clock);
    assert Outcomes(launches)[0] == BinaryNotFound;
  }

  // ---------------------------------------------------------------------
  // The loop as the source writes it

  /** The remaining iterations from position `it` are one step followed by
      the iterations from `it + 1`. */
  lemma UnfoldAt(s: State, draws: seq<Draw>, results: seq<RunResult>, clock: seq<nat>, it: nat)
    requires it < |draws| == |results| == |clock|
    requires Admissible(s, draws[it..], results[it..], clock[it..])
    ensures Fits(s, draws[it])
    ensures Admissible(Step(s, draws[it], results[it], clock[it]), draws[it + 1..], results[it + 1..], clock[it + 1..])
    ensures Run(s, draws[it..], results[it..], clock[it..])
         == Run(Step(s, draws[it], results[it], clock[it]), draws[it + 1..], results[it + 1..], clock[it + 1..])
  {
    assert draws[it..][0] == draws[it] && draws[it..][1..] == draws[it + 1..];
    assert results[it..][0] == results[it] && results[it..][1..] == results[it + 1..];
    assert clock[it..][0] == clock[it] && clock[it..][1..] == clock[it + 1..];
  }

  /** `run_mutation_fuzz`: load the corpus, then run exactly `iterations`
      iterations. Besides the crash list it returns the final corpus and
      file system, which the source keeps as local and on-disk state. */
  method RunMutationFuzz(seedReads: seq<Option<Bytes>>, iterations: int, draws: seq<Draw>,
                         launches: seq<Launch>, clock: seq<nat>, fs0: FileSystem)
    returns (crashes: seq<CrashRecord>, corpus: seq<Bytes>, fs: FileSystem)
    requires |draws| == Steps(iterations)
    requires Admissible(State(InitialCorpus(seedReads), [], fs0), draws, Outcomes(launches), clock)
    ensures State(corpus, crashes, fs) == Run(State(InitialCorpus(seedReads), [], fs0), draws, Outcomes(launches), clock)
    ensures crashes == ExpectedCrashes(Outcomes(launches), clock)
    ensures |crashes| <= Steps(iterations)
    ensures InitialCorpus(seedReads) <= corpus
    ensures |corpus| == |InitialCorpus(seedReads)| + |crashes|
    ensures MutantsFrom(corpus, |InitialCorpus(seedReads)|)
  {
    ghost var results := Outcomes(launches);
    corpus := LoadCorpus(seedReads);
    crashes := [];
    fs := fs0;
    ghost var start := State(corpus, crashes, fs);
    var it := 0;
    while it < iterations
      invariant 0 <= it <= |draws| == |results| == |clock|
      invariant Admissible(State(corpus, crashes, fs), draws[it..], results[it..], clock[it..])
      invariant Run(State(corpus, crashes, fs), draws[it..], results[it..], clock[it..]) == Run(start, draws, results, clock)
    {
      ghost var before := State(corpus, crashes, fs);
      UnfoldAt(before, draws, results, clock, it);
      var d := draws[it];
      var input := Mutate(corpus[d.seed], d.choices);
      var r := Caught(launches[it]);
      if IsCrash(r) {
        var t := clock[it];
        fs := Persist(fs, t, input, r);
        crashes := crashes + [RecordFor(t, r)];
        corpus := corpus + [input];
      }
      assert State(corpus, crashes, fs) == Step(before, d, r, clock[it]);
      it := it + 1;
    }
    if iterations > 0 {
      assert it == |draws|;
    }
    RunCrashes(start, draws, results, clock);
    RunAppendsMutants(start, draws, results, clock, |start.corpus|);
  }
}
