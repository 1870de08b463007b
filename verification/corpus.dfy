/** Construction of the initial corpus of `run_mutation_fuzz`
    (svdf/fuzzer.py). Reading a seed file is an input of the model: each seed
    path contributes `Some(contents)` when `open(s, "rb").read()` succeeded
    and `None` when it raised. */
module Corpus {
  import opened Base

  /** The seeds that were read successfully, in the order of their paths. */
  function Loaded(seedReads: seq<Option<Bytes>>): (c: seq<Bytes>)
    ensures |c| <= |seedReads|
    decreases |seedReads|
  {
    if seedReads == [] then []
    else
      var prior := Loaded(seedReads[..|seedReads| - 1]);
      match seedReads[|seedReads| - 1]
      case None => prior
      case Some(b) => prior + [b]
  }

  /** The corpus the campaign starts from: the readable seeds, or the single
      fallback seed b"AAAA" when none could be read. */
  function InitialCorpus(seedReads: seq<Option<Bytes>>): (c: seq<Bytes>)
    ensures |c| >= 1
    ensures (forall k :: 0 <= k < |seedReads| ==> seedReads[k].None?) ==> c == [DefaultSeed]
    ensures (exists k :: 0 <= k < |seedReads| && seedReads[k].Some?) ==> c == Loaded(seedReads)
    ensures forall x :: x in c ==> Some(x) in seedReads || c == [DefaultSeed]
  {
    LoadedMembers(seedReads);
    var loaded := Loaded(seedReads);
    if loaded == [] then [DefaultSeed]
    else
      assert loaded[0] in loaded;
      loaded
  }

  // ---------------------------------------------------------------------
  // Properties

  /** A value is loaded exactly when some seed path read back that value. */
  lemma {:induction false} LoadedMembers(seedReads: seq<Option<Bytes>>)
    ensures forall x :: x in Loaded(seedReads) <==> Some(x) in seedReads
    decreases |seedReads|
  {
    if seedReads != [] {
      var init := seedReads[..|seedReads| - 1];
      LoadedMembers(init);
      assert seedReads == init + [seedReads[|seedReads| - 1]];
    }
  }

  /** Loading keeps the order of the seed paths: the seeds of a longer list
      are those of its first part followed by those of the rest. */
  lemma {:induction false} LoadedAppend(a: seq<Option<Bytes>>, b: seq<Option<Bytes>>)
    ensures Loaded(a + b) == Loaded(a) + Loaded(b)
    decreases |b|
  {
    if b == [] {
      assert a + b == a;
    } else {
      var init := b[..|b| - 1];
      assert (a + b)[..|a + b| - 1] == a + init;
      LoadedAppend(a, init);
    }
  }

  /** Unreadable seeds are skipped without affecting the others. */
  lemma UnreadableSkipped(a: seq<Option<Bytes>>, b: seq<Option<Bytes>>)
    ensures Loaded(a + [None] + b) == Loaded(a) + Loaded(b)
  {
    var gap: seq<Option<Bytes>> := [None];
    LoadedAppend(a + gap, b);
    LoadedAppend(a, gap);
    assert gap[..0] == [];
  }

  /** The loading loop of `run_mutation_fuzz`: every seed path is tried in
      turn, a failed read is skipped, and the fallback seed is used when
      nothing was read. */
  method LoadCorpus(seedReads: seq<Option<Bytes>>) returns (corpus: seq<Bytes>)
    ensures corpus == InitialCorpus(seedReads)
    ensures |corpus| >= 1
  {
    corpus := [];
    var i := 0;
    while i < |seedReads|
      invariant 0 <= i <= |seedReads|
      invariant corpus == Loaded(seedReads[..i])
    {
      assert seedReads[..i + 1][..i] == seedReads[..i];
      match seedReads[i] {
        case None =>
        case Some(b) => corpus := corpus + [b];
      }
      i := i + 1;
    }
    assert seedReads[..i] == seedReads;
    if corpus == [] {
      corpus := [DefaultSeed];
    }
  }
}
