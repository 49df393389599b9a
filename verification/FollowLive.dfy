/**
 Follow mode against a database and a store that go on: after any number of rounds, failed ones
 included, one round without a failure makes the copy what a reader of the live database sees, and
 a round that finishes leaves an image that the database really had.
 */
module FollowLive {
  import opened Pages
  import opened LtxFiles
  import opened SnapshotImage
  import opened RestorePlan
  import opened LevelStore
  import opened LevelStoreProof
  import opened LevelStoreRuns
  import opened WalOverlay
  import opened Follow
  import opened Follower
  import opened JointRun
  import opened EndToEnd
  import Wal = WalSync
  import WalProof = WalSyncProof

  // --- A database that starts with a page -----------------------------------------------------

  lemma JointNotEmptyStep(j: Joint, step: JointStep)
    requires Coupled(j) && JointEnabled(j, step) && j.wal.base != [] && NeverEmpty(Deltas(j.wal.log))
    ensures var w := JointNext(j, step).wal; w.base != [] && NeverEmpty(Deltas(w.log))
  {
    if step.OnWal? {
      WalProof.ReachableInv(j.wal);
      NotEmptyStep(j.wal, step.walStep);
    }
  }

  lemma NotEmptyAt(run: seq<Joint>, steps: seq<JointStep>, i: nat)
    requires IsJointRun(run, steps) && i < |steps| && run[i].wal.base != [] && NeverEmpty(Deltas(run[i].wal.log))
    ensures run[i + 1].wal.base != [] && NeverEmpty(Deltas(run[i + 1].wal.log))
  {
    CoupledStep(run, steps, i);
    JointNotEmptyStep(run[i], steps[i]);
  }

  lemma {:induction false} JointIsNeverEmpty(run: seq<Joint>, steps: seq<JointStep>, i: nat)
    requires IsJointRun(run, steps) && i < |run| && run[0].wal.base != []
    ensures run[i].wal.base != [] && NeverEmpty(Deltas(run[i].wal.log))
    decreases i
  {
    if i == 0 {
      NothingCopiedAtFirst(run, steps);
    } else {
      JointIsNeverEmpty(run, steps, i - 1);
      NotEmptyAt(run, steps, i - 1);
    }
  }

  // --- The history only grows -----------------------------------------------------------------

  lemma LogGrownAt(run: seq<Joint>, steps: seq<JointStep>, i: nat)
    requires IsJointRun(run, steps) && i < |steps|
    ensures LogGrown(run[i].wal.log, run[i + 1].wal)
  {
    CoupledStep(run, steps, i);
    LogGrows(run[i], steps[i]);
  }

  lemma {:induction false} HistoryGrows(run: seq<Joint>, steps: seq<JointStep>, i: nat, k: nat)
    requires IsJointRun(run, steps) && i <= k < |run|
    ensures |run[i].wal.log| <= |run[k].wal.log| && run[k].wal.log[..|run[i].wal.log|] == run[i].wal.log
    decreases k
  {
    if i < k {
      HistoryGrows(run, steps, i, k - 1);
      LogGrownAt(run, steps, k - 1);
      PrefixOfPrefix(run[i].wal.log, run[k - 1].wal.log, run[k].wal.log);
    }
  }

  lemma PrefixOfPrefix<T>(a: seq<T>, b: seq<T>, c: seq<T>)
    requires |a| <= |b| && b[..|a|] == a && (c == b || (|b| <= |c| && c[..|b|] == b))
    ensures |a| <= |c| && c[..|a|] == a
  {
    assert c[..|b|][..|a|] == c[..|a|];
  }

  // --- Rounds ---------------------------------------------------------------------------------

  // One round: at which state of the run it happens, and what fails.
  datatype Round = Round(at: nat, faults: LtxFile -> Option<Break>, recordFails: bool)

  ghost predicate NothingFails(j: Joint, r: Round) {
    NoFaultsAtAll(r.faults, j.store.levels) && !r.recordFails
  }

  // Level 0 or level 1 still holds the transaction after `last`, and level 0 ends with the history, which
  // does not leave the database empty.
  ghost predicate Uploaded(st: Store, last: nat) {
    var levels, h := st.levels, st.history;
    && |levels| == SNAPSHOT_LEVEL + 1 && levels[0] != [] && End(levels[0]) == |h| && Size(h, |h|) > 0
    && (First(levels[0]) <= last + 1 || (levels[1] != [] && First(levels[1]) <= last + 1))
  }

  // Moreover everything committed is copied.
  ghost predicate Ready(j: Joint, last: nat) {
    Wal.FullyCopied(j.wal) && Uploaded(j.store, last)
  }

  // The copy is on the history of state i.
  ghost predicate OnRun(run: seq<Joint>, i: nat, f: Follower)
    reads f
  {
    i < |run| && f.On(run[i].store.history, f.lastTXID)
  }

  lemma StoreOffers(st: Store)
    requires Reachable(st)
    ensures Offers(st.history, st.levels)
  {
    ReachableInv(st);
  }

  // One round against a reachable store.
  method PollStore(st: Store, r: Round, f: Follower) returns (ok: bool)
    requires Reachable(st) && f.On(st.history, f.lastTXID)
    modifies f
    ensures f.On(st.history, f.lastTXID) && old(f.lastTXID) <= f.lastTXID
    ensures !ok ==> f.lastTXID == old(f.lastTXID)
    ensures NoFaultsAtAll(r.faults, st.levels) && !r.recordFails ==> ok
    ensures ok && old(f.begun) <= f.lastTXID && Size(st.history, f.lastTXID) > 0 ==>
              f.img == ImageAt(st.history, f.lastTXID)
    ensures ok && Uploaded(st, old(f.lastTXID)) ==>
              f.lastTXID == |st.history| && f.img == ImageAt(st.history, |st.history|)
  {
    StoreOffers(st);
    if Uploaded(st, f.lastTXID) {
      StoreContinues(st, f.lastTXID);
    }
    ok := f.Poll(st.history, st.levels, r.faults, r.recordFails);
  }

  // The image after any TXID is one that the database had, and the last one is what it is now when
  // everything is copied.
  lemma TxidWasSeen(run: seq<Joint>, steps: seq<JointStep>, i: nat, t: nat)
    requires IsJointRun(run, steps) && i < |run| && 1 <= t <= |run[i].store.history|
    ensures |run[i].store.history| == |run[i].wal.log|
    ensures WasSeen(run, i, ImageAt(run[i].store.history, t))
    ensures Wal.FullyCopied(run[i].wal) && t == |run[i].store.history| ==>
              Seen(run[i], ImageAt(run[i].store.history, t))
  {
    LogIsHistory(run, steps, i);
    EveryTxidWasSeen(run, steps, i, t);
    RunIsCoupled(run, steps, i);
    if Wal.FullyCopied(run[i].wal) {
      NothingBehind(run[i]);
    }
  }

  // One round, from any copy that is on the history.
  method FollowRound(run: seq<Joint>, ghost steps: seq<JointStep>, r: Round, f: Follower) returns (ok: bool)
    requires IsJointRun(run, steps) && OnRun(run, r.at, f)
    modifies f
    ensures OnRun(run, r.at, f) && old(f.lastTXID) <= f.lastTXID
    ensures !ok ==> f.lastTXID == old(f.lastTXID)
    ensures NothingFails(run[r.at], r) ==> ok
    ensures ok && old(f.begun) <= f.lastTXID && Size(run[r.at].store.history, f.lastTXID) > 0 ==>
              WasSeen(run, r.at, f.img)
    ensures ok && Ready(run[r.at], old(f.lastTXID)) ==> f.lastTXID == |run[r.at].wal.log| && Seen(run[r.at], f.img)
  {
    LogIsHistory(run, steps, r.at);
    ok := PollStore(run[r.at].store, r, f);
    if f.lastTXID > 0 {
      TxidWasSeen(run, steps, r.at, f.lastTXID);
    }
  }

  // The rounds happen one after the other.
  ghost predicate InOrder(start: nat, rs: seq<Round>, n: nat) {
    && (forall k :: 0 <= k < |rs| ==> start <= rs[k].at < n)
    && (forall k, l :: 0 <= k <= l < |rs| ==> rs[k].at <= rs[l].at)
  }

  lemma StillOnRun(run: seq<Joint>, steps: seq<JointStep>, i: nat, k: nat, f: Follower)
    requires IsJointRun(run, steps) && i <= k < |run| && OnRun(run, i, f)
    ensures OnRun(run, k, f)
  {
    HistoryGrows(run, steps, i, k);
    LogIsHistory(run, steps, i);
    LogIsHistory(run, steps, k);
    var h, g := run[i].store.history, run[k].store.history;
    assert g[..|h|] == h by {
      forall n | 0 <= n < |h| ensures g[n] == h[n] {
        assert run[k].wal.log[n] == run[k].wal.log[..|h|][n];
      }
    }
    CopyStays(h, g, f.lastTXID, f.begun, f.img);
  }

  // Follow mode: any rounds, with any failures, while the database and the store go on. The recorded
  // TXID never goes back, the copy stays repairable, and as soon as a round passes without a failure
  // at a time when everything is copied and uploaded, the copy is the live database.
  method FollowAlong(run: seq<Joint>, ghost steps: seq<JointStep>, start: nat, rs: seq<Round>, f: Follower)
    requires IsJointRun(run, steps) && OnRun(run, start, f) && InOrder(start, rs, |run|)
    modifies f
    ensures OnRun(run, if rs == [] then start else rs[|rs| - 1].at, f) && old(f.lastTXID) <= f.lastTXID
    ensures rs != [] ==>
              var r := rs[|rs| - 1];
              NothingFails(run[r.at], r) && Ready(run[r.at], old(f.lastTXID)) ==>
                f.lastTXID == |run[r.at].wal.log| && Seen(run[r.at], f.img)
  {
    ghost var at := start;
    for k := 0 to |rs|
      invariant at == (if k == 0 then start else rs[k - 1].at) && OnRun(run, at, f) && old(f.lastTXID) <= f.lastTXID
      invariant 0 < k ==>
                  var r := rs[k - 1];
                  NothingFails(run[r.at], r) && Ready(run[r.at], old(f.lastTXID)) ==>
                    f.lastTXID == |run[r.at].wal.log| && Seen(run[r.at], f.img)
    {
      StillOnRun(run, steps, at, rs[k].at, f);
      at := rs[k].at;
      var _ := FollowRound(run, steps, rs[k], f);
    }
  }

  // --- Restore, then follow -------------------------------------------------------------------

  // A restored image stays close to the history, whatever the database does.
  ghost predicate Holds(st: Store, f: LtxFile) {
    SnapshotOk(st.history, st.uncopied, f)
  }

  lemma HeldCommit(j: Joint, s: Wal.Step, f: LtxFile)
    requires Reachable(j.store) && Holds(j.store, f) && j.wal.backfilled <= |j.wal.wal.live|
    requires s.Commit? || s.Truncate? || s.Restart?
    ensures Holds(StoreAfter(j, s), f)
  {
    ReachableInv(j.store);
    if s.tx != [] {
      SnapshotAfterCommit(j.store.history, j.store.uncopied, RunDelta(s.tx), f);
    }
  }

  lemma HeldSync(j: Joint, f: LtxFile)
    requires Coupled(j) && Holds(j.store, f)
    ensures Holds(StoreAfter(j, Wal.Sync), f)
  {
    var log := Wal.SyncStep(j.wal).log;
    if log != j.wal.log {
      SyncIsCopy(j);
      ReachableInv(j.store);
      SnapshotAfterSync(j.store.history, j.store.uncopied, log[|log| - 1].delta, f);
    }
  }

  lemma HeldWalStep(j: Joint, s: Wal.Step, f: LtxFile)
    requires Coupled(j) && Holds(j.store, f)
    ensures Holds(StoreAfter(j, s), f)
  {
    if s.Commit? || s.Truncate? || s.Restart? {
      HeldCommit(j, s, f);
    } else if s.Sync? {
      HeldSync(j, f);
    }
  }

  lemma HeldStep(j: Joint, step: JointStep, f: LtxFile)
    requires Coupled(j) && JointEnabled(j, step) && Holds(j.store, f)
    ensures Holds(JointNext(j, step).store, f)
  {
    if step.OnWal? {
      HeldWalStep(j, step.walStep, f);
    }
  }

  lemma HeldAt(run: seq<Joint>, steps: seq<JointStep>, i: nat, f: LtxFile)
    requires IsJointRun(run, steps) && i < |steps| && Holds(run[i].store, f)
    ensures Holds(run[i + 1].store, f)
  {
    CoupledStep(run, steps, i);
    HeldStep(run[i], steps[i], f);
  }

  lemma {:induction false} HeldLater(run: seq<Joint>, steps: seq<JointStep>, i: nat, k: nat, f: LtxFile)
    requires IsJointRun(run, steps) && i <= k < |run| && Holds(run[i].store, f)
    ensures Holds(run[k].store, f)
    decreases k
  {
    if i < k {
      HeldLater(run, steps, i, k - 1, f);
      HeldAt(run, steps, k - 1, f);
    }
  }

  // Restore at state i for any target, and follow from `start` on, when a later TXID is copied or
  // nothing is uncopied. The copy ends as the live database when the last round finds everything
  // copied and uploaded and does not fail.
  method RestoreAndFollow(run: seq<Joint>, ghost steps: seq<JointStep>, i: nat, t: Target, found: seq<LtxFile>,
                          start: nat, rs: seq<Round>)
    returns (f: Follower)
    requires IsJointRun(run, steps) && i <= start < |run| && InOrder(start, rs, |run|)
    requires |run[i].store.levels| == SNAPSHOT_LEVEL + 1 && IsPlan(run[i].store.levels, t, found) && found != []
    requires Reach(0, found) < |run[start].wal.log| || run[start].store.uncopied == []
    ensures fresh(f) && Reach(0, found) <= f.lastTXID && OnRun(run, if rs == [] then start else rs[|rs| - 1].at, f)
    ensures rs != [] ==>
              var r := rs[|rs| - 1];
              NothingFails(run[r.at], r) && Ready(run[r.at], Reach(0, found)) ==>
                f.lastTXID == |run[r.at].wal.log| && Seen(run[r.at], f.img)
  {
    ghost var h := run[start].store.history;
    var txid := Reach(0, found);
    LogIsHistory(run, steps, i);
    LogIsHistory(run, steps, start);
    RestoredIsHeld(run[i].store, t, found);
    var img := Apply([], Merge(found).value);
    HeldLater(run, steps, i, start, Held(txid, img));
    if txid == |h| {
      assert h + [] == h;
    }
    f := new Follower(h, img, txid, if txid < |h| then txid + 1 else txid);
    FollowAlong(run, steps, start, rs, f);
  }
}
