/** The mutation step of the fuzzer (svdf/fuzzer.py, `mutate`).

    The source draws its randomness from Python's `random` module. Here every
    draw is an explicit parameter: the list of overwrites (position and new
    value, in the order the loop performs them) and the optional tail that is
    appended. `ValidChoices` states which draws the random calls can return;
    the model says nothing about their probabilities. */
module Mutator {
  import opened Base

  /** The buffer `mutate` works on: the input itself, or the placeholder
      b"AAAA" when the input is empty. */
  function WorkingCopy(data: Bytes): (b: Bytes)
    ensures |b| > 0
  {
    if |data| == 0 then DefaultSeed else data
  }

  /** How many overwrites `mutate` performs on a buffer of `len` bytes:
      `max(1, len // 10)`. */
  function FlipCount(len: nat): (n: nat)
    ensures n >= 1
    ensures len < 20 ==> n == 1
    ensures len >= 10 ==> n * 10 <= len < n * 10 + 10
  {
    Max(1, len / 10)
  }

  /** One overwrite: `b[index] = value`. */
  datatype Flip = Flip(index: nat, value: Byte)

  /** All random draws of one call of `mutate`. `extra` is `None` when the
      20% append branch is not taken, and the appended bytes otherwise. */
  datatype Choices = Choices(flips: seq<Flip>, extra: Option<Bytes>)

  /** `randrange(0, len)` for the position, `randrange(1, 255)` for the value. */
  predicate ValidFlip(len: nat, f: Flip)
  {
    f.index < len && 1 <= f.value <= 254
  }

  /** `randrange(1, 8)` bytes, each `randrange(0, 255)`. */
  predicate ValidTail(tail: Bytes)
  {
    1 <= |tail| <= 7 && forall k :: 0 <= k < |tail| ==> tail[k] <= 254
  }

  /** The draws that the random calls of `mutate` can produce for a
      working buffer of `len` bytes. */
  predicate ValidChoices(len: nat, c: Choices)
  {
    && |c.flips| == FlipCount(len)
    && (forall k :: 0 <= k < |c.flips| ==> ValidFlip(len, c.flips[k]))
    && (c.extra.Some? ==> ValidTail(c.extra.value))
  }

  /** Some overwrite in `flips` targets position `i`. */
  predicate Targets(flips: seq<Flip>, i: int)
  {
    exists k :: 0 <= k < |flips| && flips[k].index == i
  }

  /** The overwrite loop: the flips are applied one after the other. */
  function ApplyFlips(b: Bytes, flips: seq<Flip>): (r: Bytes)
    requires forall k :: 0 <= k < |flips| ==> ValidFlip(|b|, flips[k])
    ensures |r| == |b|
    ensures forall i :: 0 <= i < |b| && !Targets(flips, i) ==> r[i] == b[i]
    ensures forall i :: 0 <= i < |b| && Targets(flips, i) ==> 1 <= r[i] <= 254
    decreases |flips|
  {
    if flips == [] then b
    else
      assert ValidFlip(|b|, flips[0]);
      var b' := b[flips[0].index := flips[0].value];
      assert forall i :: 0 <= i < |b| ==> b'[i] == b[i] || 1 <= b'[i] <= 254;
      var r := ApplyFlips(b', flips[1..]);
      assert forall i :: Targets(flips[1..], i) ==> Targets(flips, i) by {
        forall i | Targets(flips[1..], i)
          ensures Targets(flips, i)
        {
          var k :| 0 <= k < |flips[1..]| && flips[1..][k].index == i;
          assert flips[k + 1].index == i;
        }
      }
      assert forall i :: Targets(flips, i) ==> flips[0].index == i || Targets(flips[1..], i) by {
        forall i | Targets(flips, i)
          ensures flips[0].index == i || Targets(flips[1..], i)
        {
          var k :| 0 <= k < |flips| && flips[k].index == i;
          if k > 0 {
            assert flips[1..][k - 1].index == i;
          }
        }
      }
      r
  }

  /** Reference semantics of the overwrite loop, independent of its order of
      evaluation: a position holds the value of the LAST overwrite aimed at
      it, or its original byte if none is. */
  function LastWrite(b: Bytes, flips: seq<Flip>, i: nat): Byte
    requires i < |b|
    decreases |flips|
  {
    if flips == [] then b[i]
    else if flips[|flips| - 1].index == i then flips[|flips| - 1].value
    else LastWrite(b, flips[..|flips| - 1], i)
  }

  /** The result of `mutate`: the overwritten working buffer, followed by the
      appended tail when that branch was taken. */
  function Mutate(data: Bytes, c: Choices): (r: Bytes)
    requires ValidChoices(|WorkingCopy(data)|, c)
    ensures |r| > 0
    ensures |WorkingCopy(data)| <= |r| <= |WorkingCopy(data)| + 7
    ensures c.extra.None? <==> |r| == |WorkingCopy(data)|
    ensures forall i :: 0 <= i < |WorkingCopy(data)| && !Targets(c.flips, i) ==> r[i] == WorkingCopy(data)[i]
    ensures forall i :: 0 <= i < |WorkingCopy(data)| && Targets(c.flips, i) ==> 1 <= r[i] <= 254
    ensures forall i :: |WorkingCopy(data)| <= i < |r| ==> r[i] <= 254
  {
    var b := ApplyFlips(WorkingCopy(data), c.flips);
    match c.extra
    case None => b
    case Some(tail) => b + tail
  }

  // ---------------------------------------------------------------------
  // Properties

  /** Applying one more flip is one more in-place write. */
  lemma {:induction false} ApplyFlipsSnoc(b: Bytes, flips: seq<Flip>, f: Flip)
    requires forall k :: 0 <= k < |flips| ==> ValidFlip(|b|, flips[k])
    requires ValidFlip(|b|, f)
    ensures ApplyFlips(b, flips + [f]) == ApplyFlips(b, flips)[f.index := f.value]
    decreases |flips|
  {
    if flips == [] {
      assert [f][1..] == [];
    } else {
      var b' := b[flips[0].index := flips[0].value];
      assert (flips + [f])[0] == flips[0];
      assert (flips + [f])[1..] == flips[1..] + [f];
      ApplyFlipsSnoc(b', flips[1..], f);
    }
  }

  /** The sequential overwrite loop agrees with the last-write-wins reference
      at every position. */
  lemma {:induction false} ApplyFlipsIsLastWrite(b: Bytes, flips: seq<Flip>, i: nat)
    requires forall k :: 0 <= k < |flips| ==> ValidFlip(|b|, flips[k])
    requires i < |b|
    ensures ApplyFlips(b, flips)[i] == LastWrite(b, flips, i)
    decreases |flips|
  {
    if flips != [] {
      var init := flips[..|flips| - 1];
      var f := flips[|flips| - 1];
      assert flips == init + [f];
      ApplyFlipsSnoc(b, init, f);
      ApplyFlipsIsLastWrite(b, init, i);
    }
  }

  /** An empty input is mutated exactly as b"AAAA" would be, so the result is
      never empty. */
  lemma MutateEmptyIsPlaceholder(c: Choices)
    requires ValidChoices(|DefaultSeed|, c)
    ensures Mutate([], c) == Mutate(DefaultSeed, c)
    ensures |Mutate([], c)| >= 4
  {
  }

  /** At least one overwrite always happens: the last one drawn stays
      visible in the output. */
  lemma LastFlipVisible(data: Bytes, c: Choices)
    requires ValidChoices(|WorkingCopy(data)|, c)
    ensures var f := c.flips[|c.flips| - 1];
            f.index < |Mutate(data, c)| && Mutate(data, c)[f.index] == f.value
  {
    var b := WorkingCopy(data);
    var f := c.flips[|c.flips| - 1];
    ApplyFlipsIsLastWrite(b, c.flips, f.index);
  }

  /** Every byte of the output is either the last overwrite aimed at it, the
      original byte, or part of the appended tail. */
  lemma MutateContents(data: Bytes, c: Choices, i: nat)
    requires ValidChoices(|WorkingCopy(data)|, c)
    requires i < |Mutate(data, c)|
    ensures i < |WorkingCopy(data)| ==> Mutate(data, c)[i] == LastWrite(WorkingCopy(data), c.flips, i)
    ensures i >= |WorkingCopy(data)| ==> c.extra.Some? && Mutate(data, c)[i] == c.extra.value[i - |WorkingCopy(data)|]
  {
    if i < |WorkingCopy(data)| {
      ApplyFlipsIsLastWrite(WorkingCopy(data), c.flips, i);
    }
  }

  // ---------------------------------------------------------------------
  // The set of possible outputs

  /** `positions` is a non-empty list of at most `FlipCount(|w|)` positions
      of `w` that explains how `r` differs from `w`: every listed position
      holds a value in 1..254 and every other position keeps its byte. */
  ghost predicate ExplainsOverwrites(w: Bytes, r: Bytes, positions: seq<nat>)
    requires |w| <= |r|
  {
    && 1 <= |positions| <= FlipCount(|w|)
    && (forall k :: 0 <= k < |positions| ==> positions[k] < |w| && 1 <= r[positions[k]] <= 254)
    && (forall i :: 0 <= i < |w| && i !in positions ==> r[i] == w[i])
  }

  /** The outputs `mutate` can return for `data`, described without any
      reference to the loop: the working buffer with at most `FlipCount`
      positions overwritten by values in 1..254, optionally followed by one to
      seven bytes in 0..254. */
  ghost predicate PossibleOutput(data: Bytes, r: Bytes)
  {
    var w := WorkingCopy(data);
    && |w| <= |r| <= |w| + 7
    && (forall i :: |w| <= i < |r| ==> r[i] <= 254)
    && exists positions :: ExplainsOverwrites(w, r, positions)
  }

  /** A targeted position ends up holding one of the drawn values. */
  lemma {:induction false} LastWriteOfTarget(b: Bytes, flips: seq<Flip>, i: nat)
    requires forall k :: 0 <= k < |flips| ==> ValidFlip(|b|, flips[k])
    requires i < |b| && Targets(flips, i)
    ensures 1 <= LastWrite(b, flips, i) <= 254
    decreases |flips|
  {
    var init := flips[..|flips| - 1];
    if flips[|flips| - 1].index != i {
      var k :| 0 <= k < |flips| && flips[k].index == i;
      assert init[k].index == i;
      LastWriteOfTarget(b, init, i);
    }
  }

  /** Every output of `Mutate` is a possible output. */
  lemma MutateIsPossible(data: Bytes, c: Choices)
    requires ValidChoices(|WorkingCopy(data)|, c)
    ensures PossibleOutput(data, Mutate(data, c))
  {
    var w := WorkingCopy(data);
    var r := Mutate(data, c);
    var positions := seq(|c.flips|, k requires 0 <= k < |c.flips| => c.flips[k].index);
    forall k | 0 <= k < |positions|
      ensures positions[k] < |w| && 1 <= r[positions[k]] <= 254
    {
      assert Targets(c.flips, positions[k]);
      ApplyFlipsIsLastWrite(w, c.flips, positions[k]);
      LastWriteOfTarget(w, c.flips, positions[k]);
    }
    forall i | 0 <= i < |w| && i !in positions
      ensures r[i] == w[i]
    {
      assert !Targets(c.flips, i) by {
        forall k | 0 <= k < |c.flips|
          ensures c.flips[k].index != i
        {
          assert positions[k] == c.flips[k].index;
        }
      }
    }
    assert ExplainsOverwrites(w, r, positions);
  }

  /** Overwrites that copy their values from `r` leave every targeted
      position equal to `r`. */
  lemma {:induction false} LastWriteCopies(b: Bytes, r: Bytes, flips: seq<Flip>, i: nat)
    requires i < |b| <= |r|
    requires forall k :: 0 <= k < |flips| ==> flips[k].index < |b| && flips[k].value == r[flips[k].index]
    ensures LastWrite(b, flips, i) == if Targets(flips, i) then r[i] else b[i]
    decreases |flips|
  {
    if flips != [] {
      var init := flips[..|flips| - 1];
      LastWriteCopies(b, r, init, i);
      if flips[|flips| - 1].index != i {
        if Targets(flips, i) {
          var k :| 0 <= k < |flips| && flips[k].index == i;
          assert init[k].index == i;
        }
        if Targets(init, i) {
          var k :| 0 <= k < |init| && init[k].index == i;
          assert flips[k].index == i;
        }
      }
    }
  }

  /** The overwrites that rebuild `r` at `positions`: the first position is
      repeated to make up the required count, then each listed position is
      written once with the value `r` holds there. */
  function CopyFlips(r: Bytes, positions: seq<nat>, n: nat): (flips: seq<Flip>)
    requires 1 <= |positions| <= n
    requires forall k :: 0 <= k < |positions| ==> positions[k] < |r| && 1 <= r[positions[k]] <= 254
    ensures |flips| == n
    ensures forall k :: 0 <= k < |flips| ==> flips[k].index in positions && flips[k].value == r[flips[k].index]
    ensures forall k :: 0 <= k < |positions| ==> Targets(flips, positions[k])
  {
    var pad := seq(n - |positions|, k => Flip(positions[0], r[positions[0]]));
    var listed := seq(|positions|, k requires 0 <= k < |positions| => Flip(positions[k], r[positions[k]]));
    var flips := pad + listed;
    assert forall k :: 0 <= k < |positions| ==> Targets(flips, positions[k]) by {
      forall k | 0 <= k < |positions|
        ensures Targets(flips, positions[k])
      {
        assert flips[|pad| + k] == listed[k];
      }
    }
    flips
  }

  /** Every possible output is produced by some valid draw: `PossibleOutput`
      is exactly the set of results of `mutate`. */
  lemma PossibleIsReachable(data: Bytes, r: Bytes)
    requires PossibleOutput(data, r)
    ensures exists c :: ValidChoices(|WorkingCopy(data)|, c) && Mutate(data, c) == r
  {
    var w := WorkingCopy(data);
    var positions :| ExplainsOverwrites(w, r, positions);
    var flips := CopyFlips(r, positions, FlipCount(|w|));
    var extra := if |r| == |w| then None else Some(r[|w|..]);
    var c := Choices(flips, extra);
    assert ValidChoices(|w|, c);
    var b := ApplyFlips(w, flips);
    forall i | 0 <= i < |w|
      ensures b[i] == r[i]
    {
      ApplyFlipsIsLastWrite(w, flips, i);
      LastWriteCopies(w, r, flips, i);
    }
    assert b == r[..|w|];
    assert Mutate(data, c) == r;
  }
}
