/**
 Every step of the level store keeps its invariant, in any order and with any timestamps.
 */
module LevelStoreRuns {
  import opened Pages
  import opened LtxFiles
  import opened NearImage
  import opened SnapshotImage
  import opened RestorePlan
  import opened RestoreOptimal
  import opened LevelStore
  import opened LevelStoreProof

  // --- History --------------------------------------------------------------------------------

  lemma FaithfulLater(h: History, d: Delta, fs: seq<LtxFile>)
    requires AllFaithful(h, fs)
    ensures AllFaithful(h + [d], fs)
  {
    var g := h + [d];
    assert g[..|h|] == h;
    forall f | f in fs ensures Faithful(g, f) {
      assert Faithful(h, f);
      NetOfPrefix(h, g, f.minTXID, f.maxTXID);
    }
  }

  lemma CommitKeepsInv(st: Store, d: Delta)
    requires Inv(st) && Grows(|Live(st.history, st.uncopied)|, d)
    ensures Inv(st.(uncopied := st.uncopied + [d]))
  {
    LiveAfterCommit(st.history, st.uncopied, d);
    forall f | f in st.levels[SNAPSHOT_LEVEL] ensures SnapshotOk(st.history, st.uncopied + [d], f) {
      SnapshotAfterCommit(st.history, st.uncopied, d, f);
    }
  }

  lemma StoredAfterSync(h: History, u: History, levels: seq<seq<LtxFile>>, d: Delta)
    requires ValidHistory(h + u) && Copies(h, u, d) && |levels| == SNAPSHOT_LEVEL + 1 && Stores(h, u, levels)
    ensures Stores(h + [d], [], levels)
  {
    forall l | 0 <= l < SNAPSHOT_LEVEL ensures AllFaithful(h + [d], levels[l]) {
      FaithfulLater(h, d, levels[l]);
    }
    forall f | f in levels[SNAPSHOT_LEVEL] ensures SnapshotOk(h + [d], [], f) {
      SnapshotAfterSync(h, u, d, f);
    }
  }

  lemma LocalSyncKeepsInv(st: Store, d: Delta)
    requires Inv(st) && Copies(st.history, st.uncopied, d)
    ensures Inv(st.(history := st.history + [d], uncopied := [], local := st.local + {|st.history| + 1}))
  {
    LiveAfterSync(st.history, st.uncopied, d);
    StoredAfterSync(st.history, st.uncopied, st.levels, d);
  }

  // --- One level changes ----------------------------------------------------------------------

  lemma PutLevel0(levels: seq<seq<LtxFile>>, fs: seq<LtxFile>)
    requires Shape(levels) && Covered(fs, levels[1], levels[SNAPSHOT_LEVEL]) && End(levels[0]) <= End(fs)
    ensures Shape(levels[0 := fs])
  {
    var levels' := levels[0 := fs];
    forall l | 0 <= l < SNAPSHOT_LEVEL ensures Ascending(levels'[l]) {
      assert l > 0 ==> levels'[l] == levels[l];
    }
    forall l | 1 <= l < SNAPSHOT_LEVEL ensures End(levels'[l]) <= End(fs) {
      assert levels'[l] == levels[l];
    }
  }

  lemma PutLevel(levels: seq<seq<LtxFile>>, dst: nat, fs: seq<LtxFile>)
    requires Shape(levels) && 1 <= dst < SNAPSHOT_LEVEL && Ascending(fs) && End(fs) <= End(levels[0])
    requires dst == 1 ==> Covered(levels[0], fs, levels[SNAPSHOT_LEVEL])
    ensures Shape(levels[dst := fs])
  {
    var levels' := levels[dst := fs];
    forall l | 0 <= l < SNAPSHOT_LEVEL ensures Ascending(levels'[l]) {
      assert l != dst ==> levels'[l] == levels[l];
    }
    forall l | 1 <= l < SNAPSHOT_LEVEL ensures End(levels'[l]) <= End(levels[0]) {
      assert l != dst ==> levels'[l] == levels[l];
    }
  }

  lemma PutSnapshots(levels: seq<seq<LtxFile>>, fs: seq<LtxFile>)
    requires Shape(levels) && Snapshots(fs) && End(levels[SNAPSHOT_LEVEL]) <= End(fs)
    ensures Shape(levels[SNAPSHOT_LEVEL := fs])
  {
    var levels' := levels[SNAPSHOT_LEVEL := fs];
    assert Covered(levels[0], levels[1], fs);
    forall l | 0 <= l < SNAPSHOT_LEVEL ensures Ascending(levels'[l]) && (l > 0 ==> End(levels'[l]) <= End(levels'[0])) {
      assert levels'[l] == levels[l];
    }
  }

  lemma PutFaithful(h: History, u: History, levels: seq<seq<LtxFile>>, dst: nat, fs: seq<LtxFile>)
    requires |levels| == SNAPSHOT_LEVEL + 1 && Stores(h, u, levels)
    requires dst < SNAPSHOT_LEVEL && AllFaithful(h, fs)
    ensures Stores(h, u, levels[dst := fs])
  {
  }

  lemma FaithfulAppend(h: History, fs: seq<LtxFile>, f: LtxFile)
    requires AllFaithful(h, fs) && Faithful(h, f)
    ensures AllFaithful(h, fs + [f])
  {
  }

  // --- Uploads --------------------------------------------------------------------------------

  lemma UploadedFile(h: History, f: LtxFile)
    requires ValidHistory(h) && 1 <= f.minTXID == f.maxTXID <= |h| && f.delta == h[f.minTXID - 1]
    ensures Faithful(h, f)
  {
    NetOfOne(h, f.minTXID);
  }

  lemma UploadCover(l0: seq<LtxFile>, l1: seq<LtxFile>, snaps: seq<LtxFile>, f: LtxFile)
    requires Covered(l0, l1, snaps) && f.minTXID == f.maxTXID == End(l0) + 1
    ensures Covered(l0 + [f], l1, snaps) && End(l0 + [f]) == End(l0) + 1
  {
    AppendContiguous(l0, f);
  }

  lemma HistoryIsValid(st: Store)
    requires Inv(st)
    ensures ValidHistory(st.history)
  {
    HistoryPrefix(st.history, st.uncopied);
  }

  // Level 0 goes on without a gap, whether or not earlier attempts failed.
  lemma UploadKeepsInv(st: Store, f: LtxFile)
    requires Inv(st) && Faithful(st.history, f) && f.minTXID == f.maxTXID == End(st.levels[0]) + 1
    ensures Inv(st.(levels := st.levels[0 := st.levels[0] + [f]]))
  {
    var l0 := st.levels[0];
    UploadCover(l0, st.levels[1], st.levels[SNAPSHOT_LEVEL], f);
    FaithfulAppend(st.history, l0, f);
    PutFaithful(st.history, st.uncopied, st.levels, 0, l0 + [f]);
    PutLevel0(st.levels, l0 + [f]);
  }

  // --- Compaction -----------------------------------------------------------------------------

  lemma NothingCompacted(st: Store, level: nat)
    requires Inv(st) && 1 <= level <= SNAPSHOT_LEVEL
    ensures Inv(st.(cache := st.cache[level := Known(st, level)]))
  {
  }

  lemma CompactCover(l0: seq<LtxFile>, l1: seq<LtxFile>, snaps: seq<LtxFile>, f: LtxFile)
    requires Covered(l0, l1, snaps) && f.minTXID == End(l1) + 1 && f.minTXID <= f.maxTXID == End(l0)
    ensures Covered(l0, l1 + [f], snaps)
  {
    AppendContiguous(l1, f);
  }

  // A new file at a compaction level.
  lemma AddFileShape(levels: seq<seq<LtxFile>>, dst: nat, f: LtxFile)
    requires Shape(levels) && 1 <= dst < SNAPSHOT_LEVEL && f.minTXID <= f.maxTXID
    requires End(levels[dst]) < f.minTXID && f.maxTXID == End(levels[dst - 1])
    requires dst == 1 ==> f.minTXID == End(levels[1]) + 1
    ensures Shape(levels[dst := levels[dst] + [f]]) && Ascending(levels[dst] + [f])
  {
    assert Ascending(levels[dst]);
    AppendAscending(levels[dst], f);
    if dst == 1 {
      CompactCover(levels[0], levels[1], levels[SNAPSHOT_LEVEL], f);
    } else {
      assert End(levels[dst - 1]) <= End(levels[0]);
    }
    PutLevel(levels, dst, levels[dst] + [f]);
  }

  lemma PutCache(st: Store, dst: nat, fs: seq<LtxFile>)
    requires |st.levels| == SNAPSHOT_LEVEL + 1 && CacheOk(st) && 1 <= dst <= SNAPSHOT_LEVEL
    ensures CacheOk(st.(levels := st.levels[dst := fs], cache := st.cache[dst := MaxInfo(fs)]))
  {
  }

  lemma PutSides(st: Store, dst: nat, fs: seq<LtxFile>, cache: map<nat, Option<LtxFile>>)
    requires |st.levels| == SNAPSHOT_LEVEL + 1 && LocalOk(st) && FloorsOk(st) && 1 <= dst < SNAPSHOT_LEVEL
    ensures var st' := st.(levels := st.levels[dst := fs], cache := cache); LocalOk(st') && FloorsOk(st')
  {
  }

  // One compaction level is replaced, and perhaps its newest file remembered.
  lemma LevelChangeKeepsInv(st: Store, dst: nat, fs: seq<LtxFile>, cache: map<nat, Option<LtxFile>>)
    requires Inv(st) && 1 <= dst < SNAPSHOT_LEVEL && AllFaithful(st.history, fs) && Shape(st.levels[dst := fs])
    requires cache == st.cache[dst := MaxInfo(fs)] || (cache == st.cache && MaxInfo(fs) == MaxInfo(st.levels[dst]))
    ensures Inv(st.(levels := st.levels[dst := fs], cache := cache))
  {
    PutFaithful(st.history, st.uncopied, st.levels, dst, fs);
    PutCache(st, dst, fs);
    PutSides(st, dst, fs, cache);
  }

  lemma AddedFile(st: Store, dst: nat, f: LtxFile)
    requires Inv(st) && 1 <= dst < SNAPSHOT_LEVEL && Faithful(st.history, f)
    requires End(st.levels[dst]) < f.minTXID && f.maxTXID == End(st.levels[dst - 1])
    requires dst == 1 ==> f.minTXID == End(st.levels[1]) + 1
    ensures var fs := st.levels[dst] + [f];
            AllFaithful(st.history, fs) && Shape(st.levels[dst := fs]) && MaxInfo(fs) == Some(f)
  {
    AddFileShape(st.levels, dst, f);
    FaithfulAppend(st.history, st.levels[dst], f);
    MaxInfoIsLast(st.levels[dst] + [f]);
  }

  // The new file is remembered as the newest.
  lemma AddFile(st: Store, dst: nat, f: LtxFile)
    requires Inv(st) && 1 <= dst < SNAPSHOT_LEVEL && Faithful(st.history, f)
    requires End(st.levels[dst]) < f.minTXID && f.maxTXID == End(st.levels[dst - 1])
    requires dst == 1 ==> f.minTXID == End(st.levels[1]) + 1
    ensures Inv(st.(levels := st.levels[dst := st.levels[dst] + [f]], cache := st.cache[dst := Some(f)]))
  {
    AddedFile(st, dst, f);
    LevelChangeKeepsInv(st, dst, st.levels[dst] + [f], st.cache[dst := Some(f)]);
  }

  lemma CompactKeepsInv(st: Store, dst: nat, createdAt: int, out: Option<LtxFile>)
    requires Inv(st) && 1 <= dst < SNAPSHOT_LEVEL && out == Compacted(st.levels, dst, createdAt)
    ensures Inv(WithCompacted(st, dst, out))
  {
    if out == None {
      NothingCompacted(st, dst);
    } else {
      var src, fs := st.levels[dst - 1], st.levels[dst];
      assert Ascending(src) && Ascending(fs) && AllFaithful(st.history, src);
      TopIsLast(fs);
      HistoryIsValid(st);
      CompactedFile(st.history, src, Top(fs));
      AddFile(st, dst, out.value);
    }
  }

  // --- Snapshots ------------------------------------------------------------------------------

  lemma SnapshotAppend(h: History, u: History, fs: seq<LtxFile>, f: LtxFile)
    requires Snapshots(fs) && (forall g :: g in fs ==> SnapshotOk(h, u, g)) && SnapshotOk(h, u, f) && f.maxTXID == |h|
    ensures var gs := WithSnapshot(fs, f);
            Snapshots(gs) && (forall g :: g in gs ==> SnapshotOk(h, u, g)) && Last(gs) == Some(f)
    ensures End(fs) <= |h|
  {
    var gs := WithSnapshot(fs, f);
    if fs != [] {
      assert SnapshotOk(h, u, fs[|fs| - 1]);
    }
    forall i, j | 0 <= i < j < |gs| ensures gs[i].maxTXID < gs[j].maxTXID {
      assert gs[i] == fs[i];
      assert i < |fs| - 1 ==> fs[i].maxTXID < fs[|fs| - 1].maxTXID;
    }
  }

  lemma SnapshotKeepsInv(st: Store, fs: seq<LtxFile>)
    requires Inv(st) && Snapshots(fs) && (forall f :: f in fs ==> SnapshotOk(st.history, st.uncopied, f)) && fs != []
    requires End(st.levels[SNAPSHOT_LEVEL]) <= End(fs)
    ensures Inv(st.(levels := st.levels[SNAPSHOT_LEVEL := fs], cache := st.cache[SNAPSHOT_LEVEL := Last(fs)]))
  {
    MaxInfoIsLast(fs);
    PutSnapshots(st.levels, fs);
    PutCache(st, SNAPSHOT_LEVEL, fs);
  }

  // --- Retention ------------------------------------------------------------------------------

  // Level 0 is cut no further than level 1 reaches.
  lemma L0RetentionCover(h: History, l0: seq<LtxFile>, l1: seq<LtxFile>, snaps: seq<LtxFile>, threshold: int)
    requires Covered(l0, l1, snaps) && AllFaithful(h, l0)
    ensures var kept := L0Kept(l0, Top(l1), threshold);
            Covered(kept, l1, snaps) && AllFaithful(h, kept) && Last(kept) == Last(l0)
  {
    TopIsLast(l1);
    var k := L0KeptIsSuffix(l0, Top(l1), threshold);
    SuffixKeeps(l0, k);
  }

  lemma L0RetentionKeepsInv(st: Store, kept: seq<LtxFile>, local: set<nat>)
    requires Inv(st) && Covered(kept, st.levels[1], st.levels[SNAPSHOT_LEVEL])
    requires AllFaithful(st.history, kept) && Last(kept) == Last(st.levels[0])
    requires forall t :: t in st.local && t !in local ==> t < End(st.levels[0])
    ensures Inv(st.(levels := st.levels[0 := kept], local := local))
  {
    PutLevel0(st.levels, kept);
    PutFaithful(st.history, st.uncopied, st.levels, 0, kept);
    var st' := st.(levels := st.levels[0 := kept], local := local);
    assert LocalOk(st') by {
      assert End(st'.levels[0]) == End(st.levels[0]);
    }
    assert CacheOk(st') by {
      assert forall l :: 1 <= l <= SNAPSHOT_LEVEL ==> st'.levels[l] == st.levels[l];
    }
  }

  // Only uploaded files are deleted locally, and never the newest one.
  lemma DroppedBelowEnd(fs: seq<LtxFile>, kept: seq<LtxFile>)
    requires Ascending(fs) && Single(fs) && Last(kept) == Last(fs)
    ensures forall t :: t in Dropped(fs, kept) ==> t < End(fs)
  {
    forall t | t in Dropped(fs, kept) ensures t < End(fs) {
      var f :| f in fs && f !in kept && f.minTXID == t;
      var i :| 0 <= i < |fs| && fs[i] == f;
      assert kept[|kept| - 1] in kept;
      assert i < |fs| - 1;
    }
  }

  lemma ReachKeptKeeps(h: History, fs: seq<LtxFile>, txid: nat)
    requires Ascending(fs) && AllFaithful(h, fs)
    ensures var kept := ReachKept(fs, txid);
            && Ascending(kept) && AllFaithful(h, kept) && Last(kept) == Last(fs) && MaxInfo(kept) == MaxInfo(fs)
            && (Contiguous(fs) ==> Contiguous(kept) && (First(kept) <= First(fs) || First(kept) <= txid))
  {
    var k := ReachKeptIsSuffix(fs, txid);
    SuffixKeeps(fs, k);
    MaxInfoIsLast(fs);
    MaxInfoIsLast(fs[k..]);
  }

  // Level 1 is cut no further than the latest snapshot.
  lemma RetainedCover(h: History, l0: seq<LtxFile>, l1: seq<LtxFile>, snaps: seq<LtxFile>, txid: nat)
    requires Covered(l0, l1, snaps) && AllFaithful(h, l1) && txid <= End(snaps)
    ensures Covered(l0, ReachKept(l1, txid), snaps)
  {
    ReachKeptKeeps(h, l1, txid);
  }

  // A level keeps its last file and its order, and loses files only.
  lemma ThinnedKeepsInv(st: Store, l: nat, fs: seq<LtxFile>)
    requires Inv(st) && 1 <= l < SNAPSHOT_LEVEL && Ascending(fs) && AllFaithful(st.history, fs)
    requires Last(fs) == Last(st.levels[l]) && MaxInfo(fs) == MaxInfo(st.levels[l])
    requires l == 1 ==> Covered(st.levels[0], fs, st.levels[SNAPSHOT_LEVEL])
    ensures Inv(st.(levels := st.levels[l := fs]))
  {
    assert End(fs) == End(st.levels[l]) <= End(st.levels[0]);
    PutLevel(st.levels, l, fs);
    LevelChangeKeepsInv(st, l, fs, st.cache);
  }

  // A pass over one compaction level with a TXID remembered from some earlier snapshot pass.
  lemma LevelRetentionKeepsInv(st: Store, l: nat, txid: nat)
    requires Inv(st) && 1 <= l < SNAPSHOT_LEVEL && txid in st.floors
    ensures Inv(st.(levels := st.levels[l := ReachKept(st.levels[l], txid)]))
  {
    assert Ascending(st.levels[l]) && AllFaithful(st.history, st.levels[l]);
    ReachKeptKeeps(st.history, st.levels[l], txid);
    if l == 1 {
      RetainedCover(st.history, st.levels[0], st.levels[1], st.levels[SNAPSHOT_LEVEL], txid);
    }
    ThinnedKeepsInv(st, l, ReachKept(st.levels[l], txid));
  }

  // A pass over the snapshots keeps the latest, whatever the timestamp.
  lemma SnapshotRetentionKeepsInv(st: Store, timestamp: int)
    requires Inv(st)
    ensures var snaps := st.levels[SNAPSHOT_LEVEL];
            Inv(st.(levels := st.levels[SNAPSHOT_LEVEL := FreshKept(snaps, timestamp)],
                    floors := st.floors + {MinFresh(snaps, timestamp)}))
  {
    var snaps := st.levels[SNAPSHOT_LEVEL];
    var kept := FreshKept(snaps, timestamp);
    FreshKeptIsSubset(snaps, timestamp);
    MinFreshBelowEnd(snaps, timestamp);
    MaxInfoIsLast(snaps);
    MaxInfoIsLast(kept);
    PutSnapshots(st.levels, kept);
  }

  // --- Whole runs -----------------------------------------------------------------------------

  lemma UploadStep(st: Store, step: Step)
    requires Inv(st) && Enabled(st, step) && step.Upload?
    ensures Inv(Next(st, step))
  {
    TopIsLast(st.levels[0]);
    HistoryIsValid(st);
    UploadedFile(st.history, NextUpload(st.history, st.levels[0], step.createdAt));
    UploadKeepsInv(st, NextUpload(st.history, st.levels[0], step.createdAt));
  }

  lemma SnapshotStep(st: Store, step: Step)
    requires Inv(st) && Enabled(st, step) && step.Snapshot?
    ensures Inv(Next(st, step))
  {
    var f, snaps := SnapshotFile(st.history, st.uncopied, step.createdAt), st.levels[SNAPSHOT_LEVEL];
    NewSnapshot(st.history, st.uncopied, f);
    SnapshotAppend(st.history, st.uncopied, snaps, f);
    SnapshotKeepsInv(st, WithSnapshot(snaps, f));
  }

  lemma L0RetentionStep(st: Store, step: Step)
    requires Inv(st) && Enabled(st, step) && step.L0Retention?
    ensures Inv(Next(st, step))
  {
    L0RetentionCover(st.history, st.levels[0], st.levels[1], st.levels[SNAPSHOT_LEVEL], step.threshold);
    var kept := L0Kept(st.levels[0], Top(st.levels[1]), step.threshold);
    DroppedBelowEnd(st.levels[0], kept);
    L0RetentionKeepsInv(st, kept, st.local - Dropped(st.levels[0], kept));
  }

  lemma OtherStep(st: Store, step: Step)
    requires Inv(st) && Enabled(st, step) && !step.Upload? && !step.Snapshot? && !step.L0Retention?
    ensures Inv(Next(st, step))
  {
    match step
    case Commit(d) => CommitKeepsInv(st, d);
    case LocalSync(d) => LocalSyncKeepsInv(st, d);
    case Compact(dst, createdAt) => CompactKeepsInv(st, dst, createdAt, Compacted(st.levels, dst, createdAt));
    case SnapshotRetention(timestamp) => SnapshotRetentionKeepsInv(st, timestamp);
    case LevelRetention(level, txid) => LevelRetentionKeepsInv(st, level, txid);
    case Lookup(level) => NothingCompacted(st, level);
  }

  lemma StepKeepsInv(st: Store, step: Step)
    requires Inv(st) && Enabled(st, step)
    ensures Inv(Next(st, step))
  {
    match step
    case Upload(_) => UploadStep(st, step);
    case Snapshot(_) => SnapshotStep(st, step);
    case L0Retention(_) => L0RetentionStep(st, step);
    case _ => OtherStep(st, step);
  }

  ghost predicate IsRun(run: seq<Store>, steps: seq<Step>) {
    && |run| == |steps| + 1 && Init(run[0])
    && forall i {:trigger steps[i]} :: 0 <= i < |steps| ==>
         Enabled(run[i], steps[i]) && run[i + 1] == Next(run[i], steps[i])
  }

  lemma InitInv(st: Store)
    requires Init(st)
    ensures Inv(st)
  {
    assert st.history + st.uncopied == st.uncopied;
  }

  lemma {:induction false} RunKeepsInv(run: seq<Store>, steps: seq<Step>, i: nat)
    requires IsRun(run, steps) && i < |run|
    ensures Inv(run[i])
  {
    if i == 0 {
      InitInv(run[0]);
    } else {
      RunKeepsInv(run, steps, i - 1);
      StepKeepsInv(run[i - 1], steps[i - 1]);
    }
  }

  // A store that some run leads to.
  ghost predicate Reachable(st: Store) {
    exists run, steps :: IsRun(run, steps) && run[|run| - 1] == st
  }

  lemma InitIsReachable(st: Store)
    requires Init(st)
    ensures Reachable(st)
  {
    assert IsRun([st], []);
  }

  lemma ReachableStep(st: Store, step: Step)
    requires Reachable(st) && Enabled(st, step)
    ensures Reachable(Next(st, step))
  {
    var run, steps :| IsRun(run, steps) && run[|run| - 1] == st;
    assert IsRun(run + [Next(st, step)], steps + [step]);
  }

  lemma ReachableInv(st: Store)
    requires Reachable(st)
    ensures Inv(st)
  {
    var run, steps :| IsRun(run, steps) && run[|run| - 1] == st;
    RunKeepsInv(run, steps, |run| - 1);
  }

  // In every run, every file of a compaction level has exactly the net page effect of the
  // transactions it is labelled with, however many compactions produced it.
  lemma EveryFileIsFaithful(run: seq<Store>, steps: seq<Step>, i: nat, l: nat, f: LtxFile)
    requires IsRun(run, steps) && i < |run| && |run[i].levels| == SNAPSHOT_LEVEL + 1
    requires l < SNAPSHOT_LEVEL && f in run[i].levels[l]
    ensures 1 <= f.minTXID <= f.maxTXID <= |run[i].history|
    ensures f.delta == Net(run[i].history, f.minTXID, f.maxTXID)
  {
    RunKeepsInv(run, steps, i);
    assert AllFaithful(run[i].history, run[i].levels[l]);
    assert Faithful(run[i].history, f);
  }

  // In every run, every snapshot holds an image close to the one at its label: once anything later is
  // copied, it differs from that image only in what the next TXID writes.
  lemma EverySnapshotIsNear(run: seq<Store>, steps: seq<Step>, i: nat, f: LtxFile)
    requires IsRun(run, steps) && i < |run| && |run[i].levels| == SNAPSHOT_LEVEL + 1
    requires f in run[i].levels[SNAPSHOT_LEVEL]
    ensures 1 == f.minTXID <= f.maxTXID <= |run[i].history|
    ensures f.maxTXID < |run[i].history| ==> Near(run[i].history, f.maxTXID, f.maxTXID + 1, Content(f))
    ensures f.maxTXID == |run[i].history| && run[i].uncopied == [] ==> Content(f) == ImageAt(run[i].history, f.maxTXID)
  {
    RunKeepsInv(run, steps, i);
    assert SnapshotOk(run[i].history, run[i].uncopied, f);
  }

  // A snapshot is what the database was at some point of the run, when its label was the last TXID
  // copied.
  ghost predicate WasLive(st: Store, f: LtxFile) {
    |st.history| == f.maxTXID && Content(f) == Live(st.history, st.uncopied)
  }

  lemma FreshKeptIn(fs: seq<LtxFile>, timestamp: int, f: LtxFile)
    requires f in FreshKept(fs, timestamp)
    ensures f in fs
  {
    if |fs| > 1 && f in FreshKept(fs[1..], timestamp) {
      FreshKeptIn(fs[1..], timestamp, f);
    }
  }

  lemma SnapshotsOfStep(st: Store, step: Step, f: LtxFile)
    requires Enabled(st, step) && |Next(st, step).levels| == SNAPSHOT_LEVEL + 1
    requires f in Next(st, step).levels[SNAPSHOT_LEVEL]
    ensures f in st.levels[SNAPSHOT_LEVEL] || (step.Snapshot? && WasLive(Next(st, step), f))
  {
    match step
    case Snapshot(_) => FullDeltaApplies(Live(st.history, st.uncopied), []);
    case SnapshotRetention(timestamp) => FreshKeptIn(st.levels[SNAPSHOT_LEVEL], timestamp, f);
    case _ =>
  }

  lemma {:induction false} SnapshotWasLive(run: seq<Store>, steps: seq<Step>, i: nat, f: LtxFile) returns (j: nat)
    requires IsRun(run, steps) && i < |run| && |run[i].levels| == SNAPSHOT_LEVEL + 1
    requires f in run[i].levels[SNAPSHOT_LEVEL]
    ensures j <= i && WasLive(run[j], f)
    decreases i
  {
    j := i;
    if i == 0 {
      assert false;
    } else {
      SnapshotsOfStep(run[i - 1], steps[i - 1], f);
      if !WasLive(run[i], f) {
        j := SnapshotWasLive(run, steps, i - 1, f);
      }
    }
  }

  // In every run, whatever was pruned, the latest state can be restored: the plan ends at the highest
  // stored TXID and gives exactly the image after that transaction, or, when it is a snapshot
  // alone, the image that the snapshot holds.
  lemma LatestIsRestorable(run: seq<Store>, steps: seq<Step>, i: nat, found: seq<LtxFile>, r: PlanResult)
    requires IsRun(run, steps) && i < |run| && |run[i].levels| == SNAPSHOT_LEVEL + 1
    requires IsPlan(run[i].levels, LATEST, found) && IsResult(run[i].levels, LATEST, found, r)
    requires exists l: nat, f: LtxFile :: l <= SNAPSHOT_LEVEL && f in run[i].levels[l]
    ensures r == Plan(found) && found != [] && Merge(found).Some?
    ensures forall l: nat, f: LtxFile :: l <= SNAPSHOT_LEVEL && f in run[i].levels[l] ==> f.maxTXID <= Reach(0, found)
    ensures 1 <= Reach(0, found) <= |run[i].history|
    ensures Apply([], Merge(found).value) ==
              Restored(run[i].history, ChosenSnapshot(run[i].levels[SNAPSHOT_LEVEL], LATEST), found)
    ensures run[i].uncopied == [] && Reach(0, found) == |run[i].history| ==>
              Apply([], Merge(found).value) == ImageAt(run[i].history, |run[i].history|)
  {
    RunKeepsInv(run, steps, i);
    LatestOfInv(run[i], found, r);
  }

  lemma StoredIsLabelled(st: Store, l: nat, f: LtxFile)
    requires Inv(st) && l <= SNAPSHOT_LEVEL && f in st.levels[l]
    ensures 0 < f.maxTXID <= HighestStored(st.levels)
  {
    NothingAboveHighest(st.levels, l, f);
    if l < SNAPSHOT_LEVEL {
      assert AllFaithful(st.history, st.levels[l]) && Faithful(st.history, f);
    } else {
      assert SnapshotOk(st.history, st.uncopied, f);
    }
  }

  lemma LatestOfInv(st: Store, found: seq<LtxFile>, r: PlanResult)
    requires Inv(st) && IsPlan(st.levels, LATEST, found) && IsResult(st.levels, LATEST, found, r)
    requires exists l: nat, f: LtxFile :: l <= SNAPSHOT_LEVEL && f in st.levels[l]
    ensures r == Plan(found) && found != [] && Merge(found).Some?
    ensures forall l: nat, f: LtxFile :: l <= SNAPSHOT_LEVEL && f in st.levels[l] ==> f.maxTXID <= Reach(0, found)
    ensures 1 <= Reach(0, found) <= |st.history|
    ensures Apply([], Merge(found).value) ==
              Restored(st.history, ChosenSnapshot(st.levels[SNAPSHOT_LEVEL], LATEST), found)
    ensures st.uncopied == [] && Reach(0, found) == |st.history| ==>
              Apply([], Merge(found).value) == ImageAt(st.history, |st.history|)
  {
    forall l: nat, f: LtxFile | l <= SNAPSHOT_LEVEL && f in st.levels[l]
      ensures 0 < f.maxTXID <= HighestStored(st.levels) {
      StoredIsLabelled(st, l, f);
    }
    LatestPlanSucceeds(st.levels, found, r);
    HistoryIsValid(st);
    PlanRestoresImage(st.history, st.uncopied, st.levels, LATEST, found);
    if st.uncopied == [] && Reach(0, found) == |st.history| {
      LatestIsExact(st, found);
    }
  }

  // With nothing uncopied, a latest snapshot that stands alone in the plan is exact.
  lemma LatestIsExact(st: Store, found: seq<LtxFile>)
    requires Inv(st) && IsPlan(st.levels, LATEST, found) && found != [] && st.uncopied == []
    requires Reach(0, found) == |st.history|
    ensures Restored(st.history, ChosenSnapshot(st.levels[SNAPSHOT_LEVEL], LATEST), found) ==
              ImageAt(st.history, |st.history|)
  {
    var snap := ChosenSnapshot(st.levels[SNAPSHOT_LEVEL], LATEST);
    SnapshotIsListed(st.levels[SNAPSHOT_LEVEL], LATEST);
    if |found| <= |snap| {
      assert found == snap == [snap[0]];
      assert SnapshotOk(st.history, st.uncopied, snap[0]);
    }
  }

  lemma LatestOfReachable(st: Store, found: seq<LtxFile>, r: PlanResult)
    requires Reachable(st) && |st.levels| == SNAPSHOT_LEVEL + 1 && st.levels[0] != []
    requires IsPlan(st.levels, LATEST, found) && IsResult(st.levels, LATEST, found, r)
    ensures r == Plan(found) && Merge(found).Some? && End(st.levels[0]) <= Reach(0, found) <= |st.history|
    ensures st.uncopied == [] && Reach(0, found) == |st.history| ==>
              Apply([], Merge(found).value) == ImageAt(st.history, |st.history|)
  {
    var run, steps :| IsRun(run, steps) && run[|run| - 1] == st;
    assert st.levels[0][|st.levels[0]| - 1] in st.levels[0];
    LatestIsRestorable(run, steps, |run| - 1, found, r);
  }

  // In every run, remote level 0 is one gap-free range that no step empties or shortens at its end,
  // and the next file to upload is still on the local disk.
  lemma UploadsGoOn(run: seq<Store>, steps: seq<Step>, i: nat)
    requires IsRun(run, steps) && i < |steps|
    ensures |run[i].levels| == SNAPSHOT_LEVEL + 1 && |run[i + 1].levels| == SNAPSHOT_LEVEL + 1
    ensures Contiguous(run[i].levels[0]) && Single(run[i].levels[0])
    ensures End(run[i].levels[0]) <= End(run[i + 1].levels[0])
    ensures run[i].levels[0] != [] ==> run[i + 1].levels[0] != []
    ensures End(run[i].levels[0]) < |run[i].history| ==> End(run[i].levels[0]) + 1 in run[i].local
  {
    RunKeepsInv(run, steps, i);
    Level0GoesOn(run[i], steps[i]);
  }

  lemma Level0GoesOn(st: Store, step: Step)
    requires Inv(st) && Enabled(st, step)
    ensures var l0, l0' := st.levels[0], Next(st, step).levels[0]; End(l0) <= End(l0') && (l0 != [] ==> l0' != [])
  {
    if step.L0Retention? {
      L0RetentionCover(st.history, st.levels[0], st.levels[1], st.levels[SNAPSHOT_LEVEL], step.threshold);
    } else if step.Upload? {
      TopIsLast(st.levels[0]);
    } else {
      assert Next(st, step).levels[0] == st.levels[0];
    }
  }

  // In every run, a remembered newest file equals the newest file of a fresh listing.
  lemma CacheIsFresh(run: seq<Store>, steps: seq<Step>, i: nat, level: nat)
    requires IsRun(run, steps) && i < |run| && 1 <= level <= SNAPSHOT_LEVEL < |run[i].levels|
    ensures Known(run[i], level) == MaxInfo(run[i].levels[level])
  {
    RunKeepsInv(run, steps, i);
  }
}
