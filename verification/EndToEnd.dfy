/**
 From the live database to a restored copy, over runs of the protocol and the store together:
 whatever is restored is an image that the database really had, and it is the current one as soon as
 everything committed is copied and uploaded.
 */
module EndToEnd {
  import opened Pages
  import opened LtxFiles
  import opened NearImage
  import opened SnapshotImage
  import opened RestorePlan
  import opened RestoreOptimal
  import opened LevelStore
  import opened LevelStoreProof
  import opened LevelStoreRuns
  import opened WalOverlay
  import opened JointRun
  import opened Follower
  import FrameLog
  import Wal = WalSync
  import WalProof = WalSyncProof

  // --- What a restore gives -------------------------------------------------------------------

  // In every run the log is a valid history, and the store holds exactly that history.
  lemma LogIsHistory(run: seq<Joint>, steps: seq<JointStep>, i: nat)
    requires IsJointRun(run, steps) && i < |run|
    ensures run[i].store.history == Deltas(run[i].wal.log) && ValidHistory(run[i].store.history)
    ensures Reachable(run[i].store)
  {
    RunIsCoupled(run, steps, i);
    ReachableInv(run[i].store);
    HistoryIsValid(run[i].store);
  }

  // Everything committed is in the log.
  lemma NothingBehind(j: Joint)
    requires Coupled(j) && Wal.FullyCopied(j.wal)
    ensures j.store.uncopied == [] && Wal.Current(j.wal) == ImageAt(j.store.history, |j.store.history|)
  {
    CopiedLeavesNothing(j.wal, j.store.uncopied);
    assert j.store.history + [] == j.store.history;
  }

  // In every run, whenever everything committed is copied and uploaded, restoring the latest state
  // gives exactly what a reader of the live database sees.
  lemma RestoredIsLive(run: seq<Joint>, steps: seq<JointStep>, i: nat, found: seq<LtxFile>, r: PlanResult)
    requires IsJointRun(run, steps) && i < |run| && |run[i].store.levels| == SNAPSHOT_LEVEL + 1
    requires Wal.FullyCopied(run[i].wal) && End(run[i].store.levels[0]) == |run[i].wal.log|
    requires IsPlan(run[i].store.levels, LATEST, found) && IsResult(run[i].store.levels, LATEST, found, r)
    ensures run[i].wal.backfilled <= |run[i].wal.wal.live|
    ensures r == Plan(found) && Merge(found).Some?
    ensures Apply([], Merge(found).value) == Wal.Current(run[i].wal)
  {
    RunIsCoupled(run, steps, i);
    NothingBehind(run[i]);
    LatestOfReachable(run[i].store, found, r);
  }

  // The image was what a reader of the database saw, at some state up to i.
  ghost predicate WasSeen(run: seq<Joint>, i: nat, img: Image) {
    exists k :: 0 <= k <= i && k < |run| && Seen(run[k], img)
  }

  ghost predicate Seen(j: Joint, img: Image) {
    j.wal.backfilled <= |j.wal.wal.live| && Wal.Current(j.wal) == img
  }

  // The log is as it was, or one file longer and then complete.
  ghost predicate LogGrown(log: seq<Wal.L0File>, w': Wal.State) {
    || w'.log == log
    || (|w'.log| == |log| + 1 && w'.log[..|log|] == log && Wal.FullyCopied(w'))
  }

  lemma LogGrows(j: Joint, step: JointStep)
    requires Coupled(j) && JointEnabled(j, step)
    ensures LogGrown(j.wal.log, JointNext(j, step).wal)
  {
    if step.OnWal? && step.walStep == Wal.Sync {
      WalProof.ReachableInv(j.wal);
      WalProof.SyncFrame(j.wal);
      WalProof.SyncFullyCopies(j.wal);
    }
  }

  lemma LogPrefix(log: seq<Wal.L0File>, log': seq<Wal.L0File>, t: nat)
    requires |log| <= |log'| && log'[..|log|] == log && t <= |log|
    ensures ImageAt(Deltas(log'), t) == ImageAt(Deltas(log), t)
  {
    assert Deltas(log')[..|log|] == Deltas(log) by {
      forall i | 0 <= i < |log| ensures Deltas(log')[i] == Deltas(log)[i] {
        assert log'[i] == log'[..|log|][i];
      }
    }
    ImageOfPrefix(Deltas(log), Deltas(log'), t);
  }

  // A log that grew by one file ends with what the database is now.
  lemma NewTxidIsSeen(j': Joint, t: nat)
    requires Coupled(j') && Wal.FullyCopied(j'.wal) && t == |j'.wal.log|
    ensures Seen(j', ImageAt(Deltas(j'.wal.log), t))
  {
    NothingBehind(j');
  }

  // From one state to the next: the TXID was there before, or it is what the database is now.
  lemma TxidBetween(j: Joint, j': Joint, t: nat)
    requires Coupled(j) && Coupled(j') && t <= |j'.wal.log| && LogGrown(j.wal.log, j'.wal)
    ensures var img := ImageAt(Deltas(j'.wal.log), t);
            (t <= |j.wal.log| && img == ImageAt(Deltas(j.wal.log), t)) || Seen(j', img)
  {
    if t <= |j.wal.log| {
      assert j.wal.log[..|j.wal.log|] == j.wal.log;
      LogPrefix(j.wal.log, j'.wal.log, t);
    } else {
      NewTxidIsSeen(j', t);
    }
  }

  lemma TxidOfStep(j: Joint, step: JointStep, j': Joint, t: nat)
    requires Coupled(j) && JointEnabled(j, step) && j' == JointNext(j, step) && Coupled(j') && t <= |j'.wal.log|
    ensures var img := ImageAt(Deltas(j'.wal.log), t);
            (t <= |j.wal.log| && img == ImageAt(Deltas(j.wal.log), t)) || Seen(j', img)
  {
    LogGrows(j, step);
    TxidBetween(j, j', t);
  }

  lemma NothingCopiedAtFirst(run: seq<Joint>, steps: seq<JointStep>)
    requires IsJointRun(run, steps)
    ensures run[0].wal.log == []
  {
  }

  lemma CoupledStep(run: seq<Joint>, steps: seq<JointStep>, i: nat)
    requires IsJointRun(run, steps) && i < |steps|
    ensures Coupled(run[i]) && JointEnabled(run[i], steps[i]) && run[i + 1] == JointNext(run[i], steps[i])
    ensures Coupled(run[i + 1])
  {
    RunIsCoupled(run, steps, i);
    StepKeepsCoupled(run[i], steps[i]);
  }

  lemma TxidAt(run: seq<Joint>, steps: seq<JointStep>, i: nat, t: nat)
    requires IsJointRun(run, steps) && i < |steps| && t <= |run[i + 1].wal.log|
    ensures var img := ImageAt(Deltas(run[i + 1].wal.log), t);
            (t <= |run[i].wal.log| && img == ImageAt(Deltas(run[i].wal.log), t)) || Seen(run[i + 1], img)
  {
    CoupledStep(run, steps, i);
    TxidOfStep(run[i], steps[i], run[i + 1], t);
  }

  // Every TXID is an image that the database had.
  lemma {:induction false} EveryTxidWasSeen(run: seq<Joint>, steps: seq<JointStep>, i: nat, t: nat)
    requires IsJointRun(run, steps) && i < |run| && 1 <= t <= |run[i].wal.log|
    ensures WasSeen(run, i, ImageAt(Deltas(run[i].wal.log), t))
    decreases i
  {
    NothingCopiedAtFirst(run, steps);
    TxidAt(run, steps, i - 1, t);
    if !Seen(run[i], ImageAt(Deltas(run[i].wal.log), t)) {
      EveryTxidWasSeen(run, steps, i - 1, t);
    }
  }

  // A snapshot that is written is what the database is now.
  lemma NewSnapshotIsSeen(j: Joint, createdAt: int)
    requires Coupled(j)
    ensures Seen(j, Content(SnapshotNow(j.wal, createdAt)))
  {
    SnapshotIsLive(j, createdAt);
    FullDeltaApplies(Live(j.store.history, j.store.uncopied), []);
  }

  // After a step the snapshots are those from before, up to one that was just written.
  lemma SnapshotsOfJointStep(j: Joint, step: JointStep, f: LtxFile)
    requires JointEnabled(j, step) && |JointNext(j, step).store.levels| == SNAPSHOT_LEVEL + 1
    requires f in JointNext(j, step).store.levels[SNAPSHOT_LEVEL]
    ensures |j.store.levels| == SNAPSHOT_LEVEL + 1
    ensures || f in j.store.levels[SNAPSHOT_LEVEL]
            || (step.TakeSnapshot? && f == SnapshotNow(j.wal, step.createdAt))
  {
    if step.OnStore? {
      SnapshotsOfStep(j.store, step.storeStep, f);
    }
  }

  lemma SnapshotAt(run: seq<Joint>, steps: seq<JointStep>, i: nat, f: LtxFile)
    requires IsJointRun(run, steps) && i < |steps| && |run[i + 1].store.levels| == SNAPSHOT_LEVEL + 1
    requires f in run[i + 1].store.levels[SNAPSHOT_LEVEL]
    ensures |run[i].store.levels| == SNAPSHOT_LEVEL + 1
    ensures f in run[i].store.levels[SNAPSHOT_LEVEL] || Seen(run[i], Content(f))
  {
    RunIsCoupled(run, steps, i);
    SnapshotsOfJointStep(run[i], steps[i], f);
    if steps[i].TakeSnapshot? {
      NewSnapshotIsSeen(run[i], steps[i].createdAt);
    }
  }

  lemma NothingStoredAtFirst(run: seq<Joint>, steps: seq<JointStep>)
    requires IsJointRun(run, steps)
    ensures |run[0].store.levels| == SNAPSHOT_LEVEL + 1 && run[0].store.levels[SNAPSHOT_LEVEL] == []
  {
  }

  // So is every snapshot.
  lemma {:induction false} EverySnapshotWasSeen(run: seq<Joint>, steps: seq<JointStep>, i: nat, f: LtxFile)
    requires IsJointRun(run, steps) && i < |run| && |run[i].store.levels| == SNAPSHOT_LEVEL + 1
    requires f in run[i].store.levels[SNAPSHOT_LEVEL]
    ensures WasSeen(run, i, Content(f))
    decreases i
  {
    NothingStoredAtFirst(run, steps);
    SnapshotAt(run, steps, i - 1, f);
    if !Seen(run[i - 1], Content(f)) {
      EverySnapshotWasSeen(run, steps, i - 1, f);
    }
  }

  // In every run and for every target, what a plan restores is an image that the database really had.
  lemma RestoredWasSeen(run: seq<Joint>, steps: seq<JointStep>, i: nat, t: Target, found: seq<LtxFile>)
    requires IsJointRun(run, steps) && i < |run| && |run[i].store.levels| == SNAPSHOT_LEVEL + 1
    requires IsPlan(run[i].store.levels, t, found) && found != []
    ensures Merge(found).Some? && WasSeen(run, i, Apply([], Merge(found).value))
  {
    var st := run[i].store;
    LogIsHistory(run, steps, i);
    ReachableInv(st);
    PlanRestoresImage(st.history, st.uncopied, st.levels, t, found);
    SnapshotIsListed(st.levels[SNAPSHOT_LEVEL], t);
    if |found| > |ChosenSnapshot(st.levels[SNAPSHOT_LEVEL], t)| {
      EveryTxidWasSeen(run, steps, i, Reach(0, found));
    } else {
      EverySnapshotWasSeen(run, steps, i, found[0]);
    }
  }

  // --- Following ------------------------------------------------------------------------------

  // An image under TXID t, as a snapshot holds it.
  function Held(t: nat, img: Image): LtxFile {
    LtxFile(SNAPSHOT_LEVEL, 1, t, 0, FullDelta(img))
  }

  // An exact image is as close to the history as a snapshot is.
  lemma ExactIsHeld(h: History, u: History, t: nat, f: LtxFile)
    requires 1 == f.minTXID <= f.maxTXID == t <= |h| && f.delta == FullDelta(ImageAt(h, t))
    ensures SnapshotOk(h, u, f) && Content(f) == ImageAt(h, t)
  {
    var img := ImageAt(h, t);
    FullDeltaApplies(img, []);
    if t < |h| {
      ExactIsNear(h, t);
      NearLater(h, t, t, t + 1, img);
    } else {
      ExactIsNearLive(h, u);
    }
  }

  lemma ExactIsNearLive(h: History, u: History)
    ensures Near(h + u, |h|, |h + u|, ImageAt(h, |h|))
  {
    assert (h + u)[..|h|] == h;
    ImageOfPrefix(h, h + u, |h|);
    ExactIsNear(h + u, |h|);
    NearLater(h + u, |h|, |h|, |h + u|, ImageAt(h, |h|));
  }

  // What a plan restores is as close to the history as a snapshot is.
  lemma RestoredIsHeld(st: Store, t: Target, found: seq<LtxFile>)
    requires Reachable(st) && |st.levels| == SNAPSHOT_LEVEL + 1 && IsPlan(st.levels, t, found) && found != []
    ensures Merge(found).Some?
    ensures var f := Held(Reach(0, found), Apply([], Merge(found).value));
            SnapshotOk(st.history, st.uncopied, f) && Content(f) == Apply([], Merge(found).value)
  {
    ReachableInv(st);
    HistoryIsValid(st);
    PlanRestoresImage(st.history, st.uncopied, st.levels, t, found);
    var snap, b := ChosenSnapshot(st.levels[SNAPSHOT_LEVEL], t), Reach(0, found);
    SnapshotIsListed(st.levels[SNAPSHOT_LEVEL], t);
    if |found| > |snap| {
      ExactIsHeld(st.history, st.uncopied, b, Held(b, ImageAt(st.history, b)));
    } else {
      assert found == snap && SnapshotOk(st.history, st.uncopied, found[0]);
      FullDeltaApplies(Content(found[0]), []);
    }
  }

  // So it is a place to start following from, once anything later is copied.
  lemma RestoredIsNear(st: Store, t: Target, found: seq<LtxFile>)
    requires Reachable(st) && |st.levels| == SNAPSHOT_LEVEL + 1 && IsPlan(st.levels, t, found) && found != []
    requires Reach(0, found) < |st.history|
    ensures Merge(found).Some?
    ensures Near(st.history, Reach(0, found), Reach(0, found) + 1, Apply([], Merge(found).value))
  {
    RestoredIsHeld(st, t, found);
  }

  // A follower can go on from `last` as long as level 0 or level 1 still holds the next transaction.
  lemma StoreContinues(st: Store, last: nat)
    requires Reachable(st) && |st.levels| == SNAPSHOT_LEVEL + 1 && st.levels[0] != []
    requires First(st.levels[0]) <= last + 1 || (st.levels[1] != [] && First(st.levels[1]) <= last + 1)
    ensures Continues(st.levels[0], st.levels[1], last)
  {
    ReachableInv(st);
  }

  // --- No empty database ----------------------------------------------------------------------

  // Every transaction leaves at least one page.
  ghost predicate NeverEmpty(h: History) {
    forall i :: 0 <= i < |h| ==> h[i].commit > 0
  }

  lemma OverlayNotEmpty(img: Image, fs: seq<FrameLog.Frame>)
    requires img != [] && Complete(fs)
    ensures Overlay(img, fs) != []
  {
    assert |Overlay(img, fs)| == SizeAfter(|img|, fs);
  }

  lemma CurrentNotEmpty(st: Wal.State)
    requires WalProof.Inv(st) && st.base != []
    ensures Wal.DbFile(st) != [] && Wal.Current(st) != []
  {
    OverlayNotEmpty(st.base, st.wal.live[..st.backfilled]);
    OverlayNotEmpty(Wal.DbFile(st), st.wal.live);
  }

  lemma SyncNotEmpty(st: Wal.State)
    requires WalProof.Inv(st) && st.base != [] && Wal.SyncStep(st).log != st.log
    ensures var log := Wal.SyncStep(st).log; log != [] && log[|log| - 1].delta.commit > 0
  {
    WalProof.SyncFrame(st);
    WalProof.SyncCopies(st);
    CurrentNotEmpty(st);
  }

  lemma LogNotEmpty(st: Wal.State)
    requires WalProof.Inv(st) && st.base != [] && NeverEmpty(Deltas(st.log))
    ensures NeverEmpty(Deltas(Wal.SyncStep(st).log))
  {
    var log := Wal.SyncStep(st).log;
    if log != st.log {
      SyncNotEmpty(st);
      WalProof.SyncFrame(st);
      DeltasAppend(st.log, log);
    }
  }

  lemma NotEmptyStep(st: Wal.State, step: Wal.Step)
    requires WalProof.Inv(st) && Wal.Enabled(st, step) && st.base != [] && NeverEmpty(Deltas(st.log))
    ensures Wal.Next(st, step).base != [] && NeverEmpty(Deltas(Wal.Next(st, step).log))
  {
    if step == Wal.Sync {
      LogNotEmpty(st);
      WalProof.SyncFrame(st);
    } else {
      CurrentNotEmpty(st);
    }
  }

  // A database that starts with at least one page never has a transaction that leaves it empty.
  lemma {:induction false} LogIsNeverEmpty(run: seq<Wal.State>, steps: seq<Wal.Step>, i: nat)
    requires WalProof.IsRun(run, steps) && i < |run| && run[0].base != []
    ensures run[i].base != [] && NeverEmpty(Deltas(run[i].log))
    decreases i
  {
    if i > 0 {
      LogIsNeverEmpty(run, steps, i - 1);
      WalProof.RunKeepsInv(run, steps, i - 1);
      NotEmptyStep(run[i - 1], steps[i - 1]);
    }
  }
}
