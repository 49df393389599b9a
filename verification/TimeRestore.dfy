/**
 Restoring to a point in time: a plan uses only what was created before it and reaches as far as that
 goes. When files are created one after the other, that is what was stored at that time and still is.
 */
module TimeRestore {
  import opened Pages
  import opened LtxFiles
  import opened RestorePlan
  import opened RestoreOptimal
  import opened LevelStore
  import opened LevelStoreProof
  import opened LevelStoreRuns

  function At(time: int): Target {
    Target(0, Some(time))
  }

  ghost predicate CreatedBefore(cs: seq<LtxFile>, time: int) {
    forall k :: 0 <= k < |cs| ==> cs[k].createdAt < time
  }

  // A plan for a time is a gap-free chain of stored files created before it, and no such chain ends
  // beyond it.
  lemma PlanForTime(levels: seq<seq<LtxFile>>, time: int, found: seq<LtxFile>)
    requires Listings(levels) && IsPlan(levels, At(time), found)
    ensures StoredChain(levels, found) && CreatedBefore(found, time)
    ensures forall cs :: StoredChain(levels, cs) && CreatedBefore(cs, time) ==> Reach(0, cs) <= Reach(0, found)
  {
    PlanIsChain(levels, At(time), found);
    forall cs | StoredChain(levels, cs) && CreatedBefore(cs, time) ensures Reach(0, cs) <= Reach(0, found) {
      assert RestorableChain(levels, At(time), cs);
      PlanReachesFurthest(levels, At(time), found, cs);
    }
  }

  // --- Over runs ------------------------------------------------------------------------------

  // When the step creates a file.
  function Stamp(step: Step): Option<int> {
    match step
    case Upload(createdAt) => Some(createdAt)
    case Compact(_, createdAt) => Some(createdAt)
    case Snapshot(createdAt) => Some(createdAt)
    case _ => None
  }

  // Files are created one after the other.
  ghost predicate InTimeOrder(steps: seq<Step>) {
    forall i, j :: 0 <= i < j < |steps| && Stamp(steps[i]).Some? && Stamp(steps[j]).Some? ==>
      Stamp(steps[i]).value <= Stamp(steps[j]).value
  }

  // The steps before k create files before the time, those from k on do not.
  ghost predicate Splits(steps: seq<Step>, time: int, k: nat) {
    && k <= |steps|
    && (forall i :: 0 <= i < k && Stamp(steps[i]).Some? ==> Stamp(steps[i]).value < time)
    && (forall i :: k <= i < |steps| && Stamp(steps[i]).Some? ==> time <= Stamp(steps[i]).value)
  }

  // Every time splits a run in which files are created in order.
  lemma {:induction false} TimeSplits(steps: seq<Step>, time: int) returns (k: nat)
    requires InTimeOrder(steps)
    ensures Splits(steps, time, k)
  {
    k := 0;
    if steps != [] {
      var n := |steps| - 1;
      var init := steps[..n];
      assert forall i :: 0 <= i < n ==> init[i] == steps[i];
      k := TimeSplits(init, time);
      if Stamp(steps[n]).Some? && Stamp(steps[n]).value < time {
        k := |steps|;
      }
    }
  }

  // A step stores only files with its own time.
  lemma FilesOfStep(st: Store, step: Step, l: nat, f: LtxFile)
    requires Enabled(st, step) && l <= SNAPSHOT_LEVEL && |Next(st, step).levels| == SNAPSHOT_LEVEL + 1
    requires f in Next(st, step).levels[l]
    ensures f in st.levels[l] || Stamp(step) == Some(f.createdAt)
  {
    match step
    case L0Retention(threshold) => L0KeptIn(st.levels[0], Top(st.levels[1]), threshold);
    case SnapshotRetention(timestamp) =>
      if l == SNAPSHOT_LEVEL {
        FreshKeptIn(st.levels[l], timestamp, f);
      }
    case LevelRetention(level, txid) => ReachKeptIn(st.levels[level], txid);
    case _ =>
  }

  lemma {:induction false} L0KeptIn(fs: seq<LtxFile>, maxL1: nat, threshold: int)
    ensures forall f :: f in L0Kept(fs, maxL1, threshold) ==> f in fs
  {
    if |fs| > 1 {
      L0KeptIn(fs[1..], maxL1, threshold);
    }
  }

  lemma {:induction false} ReachKeptIn(fs: seq<LtxFile>, txid: nat)
    ensures forall f :: f in ReachKept(fs, txid) ==> f in fs
  {
    if |fs| > 1 {
      ReachKeptIn(fs[1..], txid);
    }
  }

  lemma FilesAt(run: seq<Store>, steps: seq<Step>, i: nat, l: nat, f: LtxFile)
    requires IsRun(run, steps) && i < |steps| && l <= SNAPSHOT_LEVEL && |run[i + 1].levels| == SNAPSHOT_LEVEL + 1
    requires f in run[i + 1].levels[l]
    ensures |run[i].levels| == SNAPSHOT_LEVEL + 1 && (f in run[i].levels[l] || Stamp(steps[i]) == Some(f.createdAt))
  {
    FilesOfStep(run[i], steps[i], l, f);
  }

  // What is stored at state k was created before the time.
  lemma {:induction false} StoredBefore(run: seq<Store>, steps: seq<Step>, time: int, k: nat,
                                        i: nat, l: nat, f: LtxFile)
    requires IsRun(run, steps) && Splits(steps, time, k) && i <= k && l <= SNAPSHOT_LEVEL
    requires |run[i].levels| == SNAPSHOT_LEVEL + 1 && f in run[i].levels[l]
    ensures f.createdAt < time
    decreases i
  {
    if i == 0 {
      assert false;
    } else {
      FilesAt(run, steps, i - 1, l, f);
      if f in run[i - 1].levels[l] {
        StoredBefore(run, steps, time, k, i - 1, l, f);
      }
    }
  }

  // What is stored later and was created before the time was stored at state k.
  lemma {:induction false} StoredThen(run: seq<Store>, steps: seq<Step>, time: int, k: nat,
                                      i: nat, l: nat, f: LtxFile)
    requires IsRun(run, steps) && Splits(steps, time, k) && k <= i < |run| && l <= SNAPSHOT_LEVEL
    requires |run[i].levels| == SNAPSHOT_LEVEL + 1 && f in run[i].levels[l] && f.createdAt < time
    ensures |run[k].levels| == SNAPSHOT_LEVEL + 1 && f in run[k].levels[l]
    decreases i
  {
    if i > k {
      FilesAt(run, steps, i - 1, l, f);
      assert Stamp(steps[i - 1]).Some? ==> time <= Stamp(steps[i - 1]).value;
      StoredThen(run, steps, time, k, i - 1, l, f);
    }
  }

  // The file was stored on the level then, and still is now.
  ghost predicate Remains(past: seq<seq<LtxFile>>, now: seq<seq<LtxFile>>, f: LtxFile)
    requires |past| == |now|
  {
    exists l :: 0 <= l < |now| && f in past[l] && f in now[l]
  }

  ghost predicate RemainingChain(past: seq<seq<LtxFile>>, now: seq<seq<LtxFile>>, cs: seq<LtxFile>)
    requires |past| == |now|
  {
    Chain(0, cs) && forall j :: 0 <= j < |cs| ==> Remains(past, now, cs[j])
  }

  // In every run in which files are created in order: restoring at state i to a time that splits the run
  // at state k uses files that were stored at state k and remain, and no chain of such files ends beyond.
  lemma RestoreToTime(run: seq<Store>, steps: seq<Step>, time: int, k: nat, i: nat, found: seq<LtxFile>)
    requires IsRun(run, steps) && Splits(steps, time, k) && k <= i < |run|
    requires |run[i].levels| == SNAPSHOT_LEVEL + 1 && IsPlan(run[i].levels, At(time), found)
    ensures |run[k].levels| == SNAPSHOT_LEVEL + 1 && RemainingChain(run[k].levels, run[i].levels, found)
    ensures forall cs :: RemainingChain(run[k].levels, run[i].levels, cs) ==> Reach(0, cs) <= Reach(0, found)
  {
    var past, now := run[k].levels, run[i].levels;
    RunKeepsInv(run, steps, k);
    RunKeepsInv(run, steps, i);
    ShapeIsListing(now);
    PlanForTime(now, time, found);
    forall j | 0 <= j < |found| ensures Remains(past, now, found[j]) {
      var l :| 0 <= l < |now| && found[j] in now[l];
      StoredThen(run, steps, time, k, i, l, found[j]);
    }
    forall cs: seq<LtxFile> | RemainingChain(past, now, cs) ensures Reach(0, cs) <= Reach(0, found) {
      forall j | 0 <= j < |cs| ensures cs[j].createdAt < time && exists l :: 0 <= l < |now| && cs[j] in now[l] {
        assert Remains(past, now, cs[j]);
        var l :| 0 <= l < |now| && cs[j] in past[l] && cs[j] in now[l];
        StoredBefore(run, steps, time, k, k, l, cs[j]);
      }
      assert StoredChain(now, cs) && CreatedBefore(cs, time);
    }
  }

  // Everything that was stored then is stored now, and was created before the time.
  ghost predicate AllRemain(past: seq<seq<LtxFile>>, now: seq<seq<LtxFile>>, time: int)
    requires |past| == |now| == SNAPSHOT_LEVEL + 1
  {
    forall l, f :: 0 <= l <= SNAPSHOT_LEVEL && f in past[l] ==> f in now[l] && f.createdAt < time
  }

  // Then some file extends a plan that ends below the highest TXID stored then.
  lemma NotStuckBelow(past: seq<seq<LtxFile>>, now: seq<seq<LtxFile>>, time: int, cur: nat)
    requires Shape(past) && |now| == SNAPSHOT_LEVEL + 1 && AllRemain(past, now, time)
    requires End(past[SNAPSHOT_LEVEL]) <= cur < HighestStored(past)
    ensures !Stuck(Pool(now, At(time)), cur)
  {
    CanGoOn(past, cur);
    var f :| f in Pool(past, LATEST) && Extends(cur, f);
    var l, i :| 0 <= l < SNAPSHOT_LEVEL && 0 <= i < |past[l]| && past[l][i] == f;
    assert f in past[l];
    var j :| 0 <= j < |now[l]| && now[l][j] == f;
    assert now[l][j] in Pool(now, At(time));
  }

  // And the latest snapshot stored then is not beyond the plan.
  lemma PassesSnapshotThen(past: seq<seq<LtxFile>>, now: seq<seq<LtxFile>>, time: int, found: seq<LtxFile>)
    requires |past| == SNAPSHOT_LEVEL + 1 && Shape(now) && AllRemain(past, now, time) && IsPlan(now, At(time), found)
    ensures End(past[SNAPSHOT_LEVEL]) <= Reach(0, found)
  {
    var snaps := past[SNAPSHOT_LEVEL];
    if snaps != [] {
      var f := snaps[|snaps| - 1];
      assert f in past[SNAPSHOT_LEVEL];
      assert f in now[SNAPSHOT_LEVEL] && f.createdAt < time;
      ShapeIsListing(now);
      ChosenIsHighest(now, At(time), f);
      PlanPassesSnapshot(now, At(time), found);
    }
  }

  lemma EndsAtHighest(past: seq<seq<LtxFile>>, now: seq<seq<LtxFile>>, time: int, found: seq<LtxFile>)
    requires Shape(past) && Shape(now) && AllRemain(past, now, time) && IsPlan(now, At(time), found)
    requires RemainingChain(past, now, found)
    ensures Reach(0, found) == HighestStored(past)
  {
    if found != [] {
      var f := found[|found| - 1];
      assert Remains(past, now, f);
      var l :| 0 <= l < |now| && f in past[l];
      NothingAboveHighest(past, l, f);
    }
    PassesSnapshotThen(past, now, time, found);
    if Reach(0, found) < HighestStored(past) {
      NotStuckBelow(past, now, time, Reach(0, found));
    }
  }

  // When nothing that was stored at state k has gone since, the restore ends at the highest TXID that was
  // stored then.
  lemma RestoreToTimeEnds(run: seq<Store>, steps: seq<Step>, time: int, k: nat, i: nat,
                          found: seq<LtxFile>, r: PlanResult)
    requires IsRun(run, steps) && Splits(steps, time, k) && k <= i < |run|
    requires |run[i].levels| == |run[k].levels| == SNAPSHOT_LEVEL + 1
    requires forall l, f :: 0 <= l <= SNAPSHOT_LEVEL && f in run[k].levels[l] ==> f in run[i].levels[l]
    requires IsPlan(run[i].levels, At(time), found) && IsResult(run[i].levels, At(time), found, r)
    ensures Reach(0, found) == HighestStored(run[k].levels)
    ensures r == if HighestStored(run[k].levels) > 0 then Plan(found) else ErrTxNotAvailable
  {
    var past, now := run[k].levels, run[i].levels;
    RunKeepsInv(run, steps, k);
    RunKeepsInv(run, steps, i);
    RestoreToTime(run, steps, time, k, i, found);
    forall l, f: LtxFile | 0 <= l <= SNAPSHOT_LEVEL && f in past[l] ensures f.createdAt < time {
      StoredBefore(run, steps, time, k, k, l, f);
    }
    EndsAtHighest(past, now, time, found);
    if found != [] {
      ChainReach(0, found);
    }
  }
}
