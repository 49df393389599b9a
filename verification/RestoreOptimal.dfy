/**
 What the planner's greedy choice is worth: it reaches as far as any gap-free chain does, with
 as few files, and it finds a target TXID exactly when some chain ends there.
 */
module RestoreOptimal {
  import opened Pages
  import opened LtxFiles
  import opened RestorePlan
  import opened SnapshotImage

  ghost predicate Within(fs: seq<LtxFile>, pool: set<LtxFile>) {
    forall k :: 0 <= k < |fs| ==> fs[k] in pool
  }

  lemma {:induction false} GreedyStaysAhead(pool: set<LtxFile>, start: nat, fs: seq<LtxFile>, cs: seq<LtxFile>, k: nat)
    requires Greedy(pool, start, fs) && Chain(start, cs) && Within(cs, pool)
    requires k <= |cs| && k <= |fs|
    ensures ReachAt(start, cs, k) <= ReachAt(start, fs, k)
  {
    if k > 0 {
      GreedyStaysAhead(pool, start, fs, cs, k - 1);
      var cur := ReachAt(start, fs, k - 1);
      assert Extends(ReachAt(start, cs, k - 1), cs[k - 1]);
      assert Extends(cur, fs[k - 1]) && BestPick(pool, cur, fs[k - 1]);
      if cur < cs[k - 1].maxTXID {
        assert Extends(cur, cs[k - 1]);
      }
    }
  }

  lemma {:induction false} NothingPassesStuck(pool: set<LtxFile>, start: nat, cur: nat, cs: seq<LtxFile>)
    requires Stuck(pool, cur) && start <= cur && Chain(start, cs) && Within(cs, pool)
    ensures Reach(start, cs) <= cur
  {
    if cs != [] {
      var n := |cs| - 1;
      ChainPrefix(start, cs, n);
      NothingPassesStuck(pool, start, cur, cs[..n]);
      assert Extends(ReachAt(start, cs, n), cs[n]);
      assert !Extends(cur, cs[n]);
    }
  }

  // No chain from the same start reaches further than an exhausted greedy plan, and none that
  // reaches as far uses fewer files.
  lemma GreedyIsOptimal(pool: set<LtxFile>, start: nat, fs: seq<LtxFile>, cs: seq<LtxFile>)
    requires Greedy(pool, start, fs) && Chain(start, cs) && Within(cs, pool)
    ensures Stuck(pool, Reach(start, fs)) ==> Reach(start, cs) <= Reach(start, fs)
    ensures Reach(start, fs) <= Reach(start, cs) ==> |fs| <= |cs|
  {
    ChainReach(start, fs);
    if Stuck(pool, Reach(start, fs)) {
      NothingPassesStuck(pool, start, Reach(start, fs), cs);
    }
    if |cs| < |fs| {
      GreedyStaysAhead(pool, start, fs, cs, |cs|);
      ChainSuffix(start, fs, |cs|);
      ChainReach(ReachAt(start, fs, |cs|), fs[|cs|..]);
    }
  }

  lemma ChainSuffix(start: nat, fs: seq<LtxFile>, k: nat)
    requires Chain(start, fs) && k <= |fs|
    ensures Chain(ReachAt(start, fs, k), fs[k..])
    ensures Reach(ReachAt(start, fs, k), fs[k..]) == Reach(start, fs)
  {
    var cur, gs := ReachAt(start, fs, k), fs[k..];
    forall j | 0 <= j < |gs|
      ensures Extends(ReachAt(cur, gs, j), gs[j])
    {
      assert ReachAt(cur, gs, j) == ReachAt(start, fs, k + j);
    }
  }

  lemma ChainConcat(start: nat, fs: seq<LtxFile>, gs: seq<LtxFile>)
    requires Chain(start, fs) && Chain(Reach(start, fs), gs)
    ensures Chain(start, fs + gs) && Reach(start, fs + gs) == Reach(Reach(start, fs), gs)
  {
    var all := fs + gs;
    forall k | 0 <= k < |all|
      ensures Extends(ReachAt(start, all, k), all[k])
    {
      if k < |fs| {
        assert ReachAt(start, all, k) == ReachAt(start, fs, k);
      } else {
        assert ReachAt(start, all, k) == ReachAt(Reach(start, fs), gs, k - |fs|);
      }
    }
  }

  // What every store guarantees about its listings: sorted, sane labels, snapshots from TXID 1.
  ghost predicate Listings(levels: seq<seq<LtxFile>>) {
    && |levels| == SNAPSHOT_LEVEL + 1
    && (forall l :: 0 <= l < |levels| ==> Sorted(levels[l]))
    && (forall l, i :: 0 <= l < |levels| && 0 <= i < |levels[l]| ==> 1 <= levels[l][i].minTXID <= levels[l][i].maxTXID)
    && (forall i :: 0 <= i < |levels[SNAPSHOT_LEVEL]| ==> levels[SNAPSHOT_LEVEL][i].minTXID == 1)
  }

  // A gap-free chain from TXID 1 of listed files, snapshots included, that the target admits.
  ghost predicate RestorableChain(levels: seq<seq<LtxFile>>, t: Target, cs: seq<LtxFile>) {
    && Chain(0, cs)
    && forall k :: 0 <= k < |cs| ==> Eligible(t, cs[k]) && exists l :: 0 <= l < |levels| && cs[k] in levels[l]
  }

  lemma SnapshotExtendsEmpty(levels: seq<seq<LtxFile>>, t: Target)
    requires Listings(levels)
    ensures RestorableChain(levels, t, ChosenSnapshot(levels[SNAPSHOT_LEVEL], t))
  {
    var snap := ChosenSnapshot(levels[SNAPSHOT_LEVEL], t);
    SnapshotIsListed(levels[SNAPSHOT_LEVEL], t);
    if snap != [] {
      assert snap == [snap[0]] && snap[0] in levels[SNAPSHOT_LEVEL];
    }
  }

  // A plan is itself a chain from TXID 1.
  lemma PlanIsChain(levels: seq<seq<LtxFile>>, t: Target, found: seq<LtxFile>)
    requires Listings(levels) && IsPlan(levels, t, found)
    ensures RestorableChain(levels, t, found)
  {
    var snap := ChosenSnapshot(levels[SNAPSHOT_LEVEL], t);
    var picks := found[|snap|..];
    SnapshotExtendsEmpty(levels, t);
    assert found == snap + picks;
    ChainConcat(0, snap, picks);
    forall k | 0 <= k < |found|
      ensures Eligible(t, found[k]) && exists l :: 0 <= l < |levels| && found[k] in levels[l]
    {
      if k < |snap| {
        assert found[k] == snap[k];
      } else {
        var j := k - |snap|;
        assert found[k] == picks[j];
        assert BestPick(Pool(levels, t), ReachAt(Reach(0, snap), picks, j), picks[j]);
      }
    }
  }

  // No admitted snapshot ends beyond the chosen one.
  lemma ChosenIsHighest(levels: seq<seq<LtxFile>>, t: Target, f: LtxFile)
    requires Listings(levels) && f in levels[SNAPSHOT_LEVEL] && Eligible(t, f)
    ensures f.maxTXID <= Reach(0, ChosenSnapshot(levels[SNAPSHOT_LEVEL], t))
  {
    SnapshotIsListed(levels[SNAPSHOT_LEVEL], t);
    var snap := ChosenSnapshot(levels[SNAPSHOT_LEVEL], t);
    assert snap[0] in snap && InOrder(f, snap[0]);
  }

  lemma {:induction false} NoChainPasses(levels: seq<seq<LtxFile>>, t: Target, cur: nat, cs: seq<LtxFile>)
    requires Listings(levels) && Stuck(Pool(levels, t), cur)
    requires Reach(0, ChosenSnapshot(levels[SNAPSHOT_LEVEL], t)) <= cur
    requires RestorableChain(levels, t, cs)
    ensures Reach(0, cs) <= cur
  {
    if cs != [] {
      var n := |cs| - 1;
      ChainPrefix(0, cs, n);
      assert RestorableChain(levels, t, cs[..n]);
      NoChainPasses(levels, t, cur, cs[..n]);
      assert Extends(ReachAt(0, cs, n), cs[n]);
      var l :| 0 <= l < |levels| && cs[n] in levels[l];
      var i :| 0 <= i < |levels[l]| && levels[l][i] == cs[n];
      if l < SNAPSHOT_LEVEL {
        assert levels[l][i] in Pool(levels, t);
        assert !Extends(cur, cs[n]);
      } else {
        ChosenIsHighest(levels, t, cs[n]);
      }
    }
  }

  lemma PlanPassesSnapshot(levels: seq<seq<LtxFile>>, t: Target, found: seq<LtxFile>)
    requires |levels| == SNAPSHOT_LEVEL + 1 && IsPlan(levels, t, found)
    ensures Reach(0, ChosenSnapshot(levels[SNAPSHOT_LEVEL], t)) <= Reach(0, found)
  {
    var snap := ChosenSnapshot(levels[SNAPSHOT_LEVEL], t);
    ChainReach(Reach(0, snap), found[|snap|..]);
    assert Reach(0, found) == Reach(Reach(0, snap), found[|snap|..]);
  }

  lemma {:induction false} AdmittedReach(t: Target, cs: seq<LtxFile>)
    requires t.txID != 0 && forall k :: 0 <= k < |cs| ==> Eligible(t, cs[k])
    ensures Reach(0, cs) <= t.txID
  {
  }

  // No gap-free chain from TXID 1 of admitted files, snapshots included, reaches further.
  lemma PlanReachesFurthest(levels: seq<seq<LtxFile>>, t: Target, found: seq<LtxFile>, cs: seq<LtxFile>)
    requires Listings(levels) && IsPlan(levels, t, found) && RestorableChain(levels, t, cs)
    ensures Reach(0, cs) <= Reach(0, found)
  {
    PlanPassesSnapshot(levels, t, found);
    if t.txID != 0 && t.txID <= Reach(0, found) {
      AdmittedReach(t, cs);
    } else {
      NoChainPasses(levels, t, Reach(0, found), cs);
    }
  }

  // A gap-free chain from TXID 1 of stored files, whatever their labels and times.
  ghost predicate StoredChain(levels: seq<seq<LtxFile>>, cs: seq<LtxFile>) {
    Chain(0, cs) && forall k :: 0 <= k < |cs| ==> exists l :: 0 <= l < |levels| && cs[k] in levels[l]
  }

  // The files of a chain end one after the other.
  lemma {:induction false} ChainAscends(start: nat, cs: seq<LtxFile>, k: nat)
    requires Chain(start, cs) && k < |cs|
    ensures start < cs[k].maxTXID <= Reach(start, cs)
    decreases |cs|
  {
    var n := |cs| - 1;
    assert Extends(ReachAt(start, cs, n), cs[n]);
    ChainPrefix(start, cs, n);
    if k < n {
      ChainAscends(start, cs[..n], k);
      assert cs[..n][k] == cs[k];
    } else {
      ChainReach(start, cs[..n]);
      assert Reach(start, cs[..n]) == ReachAt(start, cs, n);
    }
  }

  // A target TXID is found exactly when some gap-free chain of stored files ends at it.
  lemma TargetFoundIffReachable(levels: seq<seq<LtxFile>>, t: Target, found: seq<LtxFile>, r: PlanResult)
    requires Listings(levels) && IsPlan(levels, t, found) && IsResult(levels, t, found, r)
    requires t.txID != 0 && t.before == None
    ensures r.Plan? <==> exists cs :: StoredChain(levels, cs) && Reach(0, cs) == t.txID
    ensures r.Plan? ==> Reach(0, r.files) == t.txID
    ensures !r.Plan? ==> r == ErrTxNotAvailable
  {
    PlanIsChain(levels, t, found);
    AdmittedReach(t, found);
    assert r.Plan? ==> StoredChain(levels, found);
    if cs :| StoredChain(levels, cs) && Reach(0, cs) == t.txID {
      forall k | 0 <= k < |cs| ensures Eligible(t, cs[k]) {
        ChainAscends(0, cs, k);
      }
      PlanReachesFurthest(levels, t, found, cs);
    }
  }

  // Every file of a compaction level is faithful, and every snapshot is close to its label.
  ghost predicate Stores(h: History, u: History, levels: seq<seq<LtxFile>>)
    requires |levels| == SNAPSHOT_LEVEL + 1
  {
    && (forall l :: 0 <= l < SNAPSHOT_LEVEL ==> AllFaithful(h, levels[l]))
    && (forall f :: f in levels[SNAPSHOT_LEVEL] ==> SnapshotOk(h, u, f))
  }

  lemma PicksAreFaithful(h: History, levels: seq<seq<LtxFile>>, t: Target, start: nat, picks: seq<LtxFile>)
    requires |levels| == SNAPSHOT_LEVEL + 1 && Greedy(Pool(levels, t), start, picks)
    requires forall l :: 0 <= l < SNAPSHOT_LEVEL ==> AllFaithful(h, levels[l])
    ensures AllFaithful(h, picks)
  {
    forall f | f in picks ensures Faithful(h, f) {
      var k :| 0 <= k < |picks| && picks[k] == f;
      assert BestPick(Pool(levels, t), ReachAt(start, picks, k), picks[k]);
      var l, i :| 0 <= l < SNAPSHOT_LEVEL && 0 <= i < |levels[l]| && levels[l][i] == f;
      assert AllFaithful(h, levels[l]);
    }
  }

  // What a plan restores: at most one snapshot, followed by files of the compaction levels.
  ghost function Restored(h: History, snap: seq<LtxFile>, found: seq<LtxFile>): Image
    requires found != [] && Reach(0, found) <= |h|
  {
    if |found| > |snap| then ImageAt(h, Reach(0, found)) else Content(found[0])
  }

  lemma RestorePicks(h: History, u: History, snap: seq<LtxFile>, picks: seq<LtxFile>)
    requires ValidHistory(h) && |snap| <= 1 && (snap != [] ==> SnapshotOk(h, u, snap[0]))
    requires AllFaithful(h, picks) && Chain(Reach(0, snap), picks) && snap + picks != []
    ensures var found := snap + picks;
            && 1 <= Reach(0, found) <= |h| && Merge(found).Some?
            && Apply([], Merge(found).value) == Restored(h, snap, found)
            && ApplyFiles([], found) == Restored(h, snap, found)
  {
    if snap == [] {
      assert snap + picks == picks;
      RestoreChain(h, picks);
    } else if picks == [] {
      assert snap + picks == [snap[0]];
      RestoreSnapshot(snap[0]);
    } else {
      assert snap == [snap[0]];
      ChainReach(snap[0].maxTXID, picks);
      RestoreFromSnapshot(h, u, snap[0], picks);
    }
  }

  // Restoring the plan gives exactly the image after its last transaction, unless the plan is a
  // snapshot alone: then it gives what the snapshot holds.
  lemma PlanRestoresImage(h: History, u: History, levels: seq<seq<LtxFile>>, t: Target, found: seq<LtxFile>)
    requires |levels| == SNAPSHOT_LEVEL + 1 && IsPlan(levels, t, found) && found != []
    requires ValidHistory(h) && Stores(h, u, levels)
    ensures 1 <= Reach(0, found) <= |h| && Merge(found).Some?
    ensures var img := Restored(h, ChosenSnapshot(levels[SNAPSHOT_LEVEL], t), found);
            Apply([], Merge(found).value) == img && ApplyFiles([], found) == img
  {
    var snap := ChosenSnapshot(levels[SNAPSHOT_LEVEL], t);
    var picks := found[|snap|..];
    SnapshotIsListed(levels[SNAPSHOT_LEVEL], t);
    PicksAreFaithful(h, levels, t, Reach(0, snap), picks);
    assert found == snap + picks;
    RestorePicks(h, u, snap, picks);
  }

  // --- Which file is picked, and when the plan is an error ------------------------------------

  // f is at least as good a choice as g: it reaches further, or as far with an earlier start, or as far
  // from the same start at a higher level, or there as well and is no younger.
  predicate Preferred(f: LtxFile, g: LtxFile) {
    || g.maxTXID < f.maxTXID
    || (g.maxTXID == f.maxTXID && f.minTXID < g.minTXID)
    || (g.maxTXID == f.maxTXID && f.minTXID == g.minTXID && g.level < f.level)
    || (g.maxTXID == f.maxTXID && f.minTXID == g.minTXID && g.level == f.level && f.createdAt <= g.createdAt)
  }

  // Every file of a plan behind its snapshot is preferred over every file of a compaction level that the
  // target admits and that could have been taken there.
  lemma PicksArePreferred(levels: seq<seq<LtxFile>>, t: Target, found: seq<LtxFile>, k: nat, l: nat, g: LtxFile)
    requires |levels| == SNAPSHOT_LEVEL + 1 && IsPlan(levels, t, found)
    requires |ChosenSnapshot(levels[SNAPSHOT_LEVEL], t)| <= k < |found| && l < SNAPSHOT_LEVEL && g in levels[l]
    requires (t.txID != 0 ==> g.maxTXID <= t.txID) && (t.before.Some? ==> g.createdAt < t.before.value)
    requires g.minTXID <= ReachAt(0, found, k) + 1 && ReachAt(0, found, k) < g.maxTXID
    ensures Preferred(found[k], g)
  {
    var snap := ChosenSnapshot(levels[SNAPSHOT_LEVEL], t);
    var picks, j := found[|snap|..], k - |snap|;
    assert picks[j] == found[k] && ReachAt(Reach(0, snap), picks, j) == ReachAt(0, found, k);
    assert BestPick(Pool(levels, t), ReachAt(Reach(0, snap), picks, j), picks[j]);
    var i :| 0 <= i < |levels[l]| && levels[l][i] == g;
    assert levels[l][i] in Pool(levels, t);
  }

  // A plan for the latest state is returned if and only if there is one and no file ends beyond it.
  lemma LatestResultIff(levels: seq<seq<LtxFile>>, found: seq<LtxFile>, r: PlanResult)
    requires Listings(levels) && IsPlan(levels, LATEST, found) && IsResult(levels, LATEST, found, r)
    ensures r == Plan(found) <==>
              found != [] && forall l, f :: 0 <= l <= SNAPSHOT_LEVEL && f in levels[l] ==> f.maxTXID <= Reach(0, found)
    ensures r != Plan(found) ==> r == ErrTxNotAvailable || (r.ErrNonContiguous? && r.have == Reach(0, found))
    ensures r == ErrTxNotAvailable <==> found == []
  {
    var cur := Reach(0, found);
    PlanPassesSnapshot(levels, LATEST, found);
    forall f | f in levels[SNAPSHOT_LEVEL] ensures f.maxTXID <= cur {
      ChosenIsHighest(levels, LATEST, f);
    }
    forall l, i | 0 <= l < SNAPSHOT_LEVEL && 0 <= i < |levels[l]|
      ensures cur + 1 < levels[l][i].minTXID <==> cur < levels[l][i].maxTXID
    {
      assert levels[l][i] in Pool(levels, LATEST);
      assert !Extends(cur, levels[l][i]);
    }
    if found != [] && !GapAfter(levels, cur) {
      forall l, f | 0 <= l < SNAPSHOT_LEVEL && f in levels[l] ensures f.maxTXID <= cur {
        var i :| 0 <= i < |levels[l]| && levels[l][i] == f;
      }
    }
    if GapAfter(levels, cur) {
      var l, i :| 0 <= l < SNAPSHOT_LEVEL && 0 <= i < |levels[l]| && cur + 1 < levels[l][i].minTXID;
      assert levels[l][i] in levels[l] && cur < levels[l][i].maxTXID;
    }
  }
}
