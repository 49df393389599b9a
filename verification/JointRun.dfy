/**
 The sync protocol and the level store together: what the protocol copies is the history of the
 store, what it has not copied yet is the store's uncopied part, and a snapshot is taken of the
 database and its WAL as they are.
 */
module JointRun {
  import opened Pages
  import opened LtxFiles
  import opened SnapshotImage
  import opened RestorePlan
  import opened LevelStore
  import opened LevelStoreProof
  import opened LevelStoreRuns
  import opened WalOverlay
  import FrameLog
  import Wal = WalSync
  import WalProof = WalSyncProof

  // The transactions in the log.
  function Deltas(log: seq<Wal.L0File>): (h: History)
    ensures |h| == |log| && forall i :: 0 <= i < |log| ==> h[i] == log[i].delta
  {
    seq(|log|, i requires 0 <= i < |log| => log[i].delta)
  }

  lemma DeltasAppend(log: seq<Wal.L0File>, log': seq<Wal.L0File>)
    requires log' != [] && log'[..|log'| - 1] == log
    ensures Deltas(log') == Deltas(log) + [log'[|log'| - 1].delta]
  {
    forall i | 0 <= i < |log| ensures log'[i] == log[i] {
      assert log'[i] == log'[..|log'| - 1][i];
    }
  }

  // Replaying the log is taking the image after its last transaction.
  lemma {:induction false} ReplayIsImage(log: seq<Wal.L0File>)
    ensures Wal.Replay(log) == ImageAt(Deltas(log), |log|)
  {
    if log != [] {
      var before := log[..|log| - 1];
      ReplayIsImage(before);
      DeltasAppend(before, log);
      ImageOfAppend(Deltas(before), log[|log| - 1].delta);
    }
  }

  // --- Steps ----------------------------------------------------------------------------------

  datatype Joint = Joint(wal: Wal.State, store: Store)

  datatype JointStep = OnWal(walStep: Wal.Step) | TakeSnapshot(createdAt: int) | OnStore(storeStep: Step)

  // A reset that leaves the WAL file in place happens when nothing would be lost by it.
  ghost predicate JointEnabled(j: Joint, step: JointStep) {
    match step
    case OnWal(s) => Wal.Enabled(j.wal, s) && (s.Restart? ==> Wal.FullyCopied(j.wal))
    case TakeSnapshot(_) =>
      j.wal.backfilled <= |j.wal.wal.live| && j.wal.log != [] && |j.store.levels| == SNAPSHOT_LEVEL + 1
    case OnStore(s) => Enabled(j.store, s) && !s.Commit? && !s.LocalSync? && !s.Snapshot?
  }

  // The store after a sync has written `d`.
  function Copied(st: Store, d: Delta): Store {
    st.(history := st.history + [d], uncopied := [], local := st.local + {|st.history| + 1})
  }

  // The store after a step of the protocol.
  function StoreAfter(j: Joint, s: Wal.Step): Store
    requires j.wal.backfilled <= |j.wal.wal.live|
  {
    var st := j.store;
    match s
    case Commit(tx) => if tx == [] then st else st.(uncopied := st.uncopied + [RunDelta(tx)])
    case Truncate(_, tx) => if tx == [] then st else st.(uncopied := st.uncopied + [RunDelta(tx)])
    case Restart(_, tx) => if tx == [] then st else st.(uncopied := st.uncopied + [RunDelta(tx)])
    case Sync =>
      var log := Wal.SyncStep(j.wal).log;
      if log == [] || log == j.wal.log then st else Copied(st, log[|log| - 1].delta)
    case _ => st
  }

  // The file that holds the database as a reader sees it, under the last TXID copied.
  function SnapshotNow(w: Wal.State, createdAt: int): LtxFile
    requires w.backfilled <= |w.wal.live|
  {
    LtxFile(SNAPSHOT_LEVEL, 1, |w.log|, createdAt, Wal.SnapshotDelta(Wal.DbFile(w), w.wal.live))
  }

  ghost function JointNext(j: Joint, step: JointStep): Joint
    requires JointEnabled(j, step)
  {
    match step
    case OnWal(s) => Joint(Wal.Next(j.wal, s), StoreAfter(j, s))
    case TakeSnapshot(createdAt) =>
      var f := SnapshotNow(j.wal, createdAt);
      j.(store := j.store.(levels := j.store.levels[SNAPSHOT_LEVEL := WithSnapshot(j.store.levels[SNAPSHOT_LEVEL], f)],
                           cache := j.store.cache[SNAPSHOT_LEVEL := Some(f)]))
    case OnStore(s) => j.(store := Next(j.store, s))
  }

  // The store is empty and the whole database is still to be copied.
  ghost predicate JointInit(j: Joint) {
    WalProof.Init(j.wal) && Init(j.store) && j.store.uncopied == [FullDelta(Wal.Current(j.wal))]
  }

  // --- What couples them ----------------------------------------------------------------------

  ghost predicate TouchedBy(u: History, p: nat) {
    exists i :: 0 <= i < |u| && p in u[i].pages
  }

  // Every page of an uncopied transaction is in some of the frames.
  ghost predicate InFrames(u: History, fs: seq<FrameLog.Frame>) {
    forall i, p :: 0 <= i < |u| && p in u[i].pages ==> p in Wal.PagesOf(fs)
  }

  ghost predicate NoneVoid(u: History) {
    forall i :: 0 <= i < |u| ==> u[i].pages != map[]
  }

  // The frames that an incremental sync would copy hold everything uncopied.
  ghost predicate Behind(w: Wal.State, u: History) {
    w.log != [] ==>
      var last := w.log[|w.log| - 1];
      && NoneVoid(u)
      && (if last.salt == w.wal.salt then last.End() <= |w.wal.live| && InFrames(u, w.wal.live[last.End()..])
          else w.syncedToWalEnd || WalProof.HasSalt(w.wal.Slots(), last.salt) ==> InFrames(u, w.wal.live))
  }

  ghost predicate Coupled(j: Joint) {
    && WalProof.Reachable(j.wal) && j.wal.backfilled <= |j.wal.wal.live| && j.wal.stale == {} && Reachable(j.store)
    && j.store.history == Deltas(j.wal.log)
    && Live(j.store.history, j.store.uncopied) == Wal.Current(j.wal)
    && Behind(j.wal, j.store.uncopied)
  }

  lemma TouchedIsTouchedBy(h: History, u: History, p: nat)
    requires Touched(h + u, |h| + 1, |h + u|, p)
    ensures TouchedBy(u, p)
  {
    var i: nat :| |h| + 1 <= i <= |h + u| && Writes(h + u, i, p);
    assert (h + u)[i - 1] == u[i - 1 - |h|];
  }

  // --- Transactions ---------------------------------------------------------------------------

  lemma RunGrows(size: nat, fs: seq<FrameLog.Frame>)
    requires fs != [] && GrowsRun(size, fs)
    ensures Grows(size, RunDelta(fs))
  {
  }

  lemma TxIsNotVoid(size: nat, salt: FrameLog.Salt, tx: seq<FrameLog.Frame>)
    requires Wal.Commits(size, salt, tx)
    ensures RunDelta(tx).pages != map[] && InFrames([RunDelta(tx)], tx)
  {
    var f := tx[|tx| - 1];
    assert LastData(tx, f.pgno) == Some(f.data);
    assert f.pgno in RunDelta(tx).pages;
    forall p | p in RunDelta(tx).pages ensures p in Wal.PagesOf(tx) {
      WalProof.LastDataInPages(tx, p);
    }
  }

  lemma InMoreFrames(u: History, fs: seq<FrameLog.Frame>, d: Delta, tx: seq<FrameLog.Frame>)
    requires InFrames(u, fs) && InFrames([d], tx) && NoneVoid(u) && d.pages != map[]
    ensures InFrames(u + [d], fs + tx) && NoneVoid(u + [d])
  {
    var v := u + [d];
    forall i, p | 0 <= i < |v| && p in v[i].pages ensures p in Wal.PagesOf(fs + tx) {
      if i < |u| {
        assert p in u[i].pages && p in Wal.PagesOf(fs);
        var f :| f in fs && f.pgno == p;
        assert f in fs + tx;
      } else {
        assert p in [d][0].pages && p in Wal.PagesOf(tx);
        var f :| f in tx && f.pgno == p;
        assert f in fs + tx;
      }
    }
  }

  // Whatever is uncopied leaves frames behind.
  lemma SomethingBehind(u: History, fs: seq<FrameLog.Frame>)
    requires InFrames(u, fs) && NoneVoid(u) && u != []
    ensures fs != []
  {
    assert u[0].pages != map[];
    var p :| p in u[0].pages;
    assert p in Wal.PagesOf(fs);
  }

  // The database gains the transaction, and so does the store's uncopied part.
  lemma CommitIsCoupled(h: History, u: History, st: Store, img: Image, tx: seq<FrameLog.Frame>, salt: FrameLog.Salt)
    requires Reachable(st) && st.history == h && st.uncopied == u && Live(h, u) == img && Wal.Commits(|img|, salt, tx)
    ensures Reachable(st.(uncopied := u + [RunDelta(tx)])) && Live(h, u + [RunDelta(tx)]) == Overlay(img, tx)
  {
    RunGrows(|img|, tx);
    ReachableInv(st);
    LiveAfterCommit(h, u, RunDelta(tx));
    ReachableStep(st, Commit(RunDelta(tx)));
  }

  lemma CommitIsCurrent(w: Wal.State, tx: seq<FrameLog.Frame>)
    requires WalProof.Reachable(w) && Wal.Enabled(w, Wal.Commit(tx))
    ensures WalProof.AllSalt(w.wal.live, w.wal.salt)
    ensures var w' := Wal.CommitStep(w, tx);
            w'.backfilled <= |w'.wal.live| && Wal.Current(w') == Overlay(Wal.Current(w), tx)
  {
    WalProof.ReachableInv(w);
    WalProof.CurrentAfterCommit(w, tx);
  }

  lemma CommitKeepsCoupled(j: Joint, tx: seq<FrameLog.Frame>)
    requires Coupled(j) && Wal.Enabled(j.wal, Wal.Commit(tx))
    ensures Coupled(Joint(Wal.CommitStep(j.wal, tx), j.store.(uncopied := j.store.uncopied + [RunDelta(tx)])))
  {
    var w, u := j.wal, j.store.uncopied;
    WalProof.ReachableStep(w, Wal.Commit(tx));
    CommitIsCurrent(w, tx);
    CommitIsCoupled(j.store.history, u, j.store, Wal.Current(w), tx, w.wal.salt);
    BehindAfterCommit(w, u, tx);
  }

  lemma BehindAfterCommit(w: Wal.State, u: History, tx: seq<FrameLog.Frame>)
    requires WalProof.AllSalt(w.wal.live, w.wal.salt) && Behind(w, u) && Wal.Enabled(w, Wal.Commit(tx))
    ensures Behind(Wal.CommitStep(w, tx), u + [RunDelta(tx)])
  {
    TxIsNotVoid(|Wal.Current(w)|, w.wal.salt, tx);
    if w.log != [] {
      var last, live := w.log[|w.log| - 1], w.wal.live;
      if last.salt == w.wal.salt {
        InMoreFrames(u, live[last.End()..], RunDelta(tx), tx);
        assert (live + tx)[last.End()..] == live[last.End()..] + tx;
      } else {
        SaltsAfterCommit(w.wal, tx, last.salt);
        NoneVoidAppend(u, RunDelta(tx));
        if w.syncedToWalEnd || WalProof.HasSalt(w.wal.Slots(), last.salt) {
          InMoreFrames(u, live, RunDelta(tx), tx);
        }
      }
    }
  }

  lemma NoneVoidAppend(u: History, d: Delta)
    requires NoneVoid(u) && d.pages != map[]
    ensures NoneVoid(u + [d])
  {
  }

  lemma SaltsAfterCommit(w: Wal.Wal, tx: seq<FrameLog.Frame>, salt: FrameLog.Salt)
    requires WalProof.AllSalt(tx, w.salt) && WalProof.AllSalt(w.live, w.salt) && salt != w.salt
    ensures WalProof.HasSalt(Wal.Wal(w.salt, w.live + tx, Wal.Left(w.rest, |tx|)).Slots(), salt) ==>
              WalProof.HasSalt(w.Slots(), salt)
  {
    WalProof.SlotsAfterCommit(w, tx, salt);
    var slots' := Wal.Wal(w.salt, w.live + tx, Wal.Left(w.rest, |tx|)).Slots();
    if WalProof.HasSalt(slots', salt) {
      var i :| 0 <= i < |slots'| && slots'[i].salt == salt;
      assert w.Slots()[i].salt == salt;
    }
  }

  // After a reset everything uncopied is in the new epoch, unless the next sync takes a snapshot.
  lemma BehindAfterReset(w: Wal.State, u: History, w': Wal.State, tx: seq<FrameLog.Frame>, salt: FrameLog.Salt)
    requires w.log != [] && w.log[|w.log| - 1].salt == w.wal.salt != salt && Behind(w, u) && w'.log == w.log
    requires w.backfilled <= |w.wal.live| && Wal.Commits(|Wal.Current(w)|, salt, tx) && w'.wal.salt == salt
    requires w'.wal.live == tx
    requires w'.syncedToWalEnd || w'.wal.rest != [] ==> Wal.FullyCopied(w)
    ensures Behind(w', u + [RunDelta(tx)])
  {
    TxIsNotVoid(|Wal.Current(w)|, salt, tx);
    var last, d := w.log[|w.log| - 1], RunDelta(tx);
    InMoreFrames(u, w.wal.live[last.End()..], d, tx);
    if w'.syncedToWalEnd || WalProof.HasSalt(w'.wal.Slots(), last.salt) {
      assert w'.wal.rest == [] ==> w'.wal.Slots() == tx;
      assert w.wal.live[last.End()..] == [] && [] + tx == tx;
    }
  }

  // A reset follows a sync of the same epoch, and the flag is left only if all was copied.
  lemma ResetIsSafe(w: Wal.State, step: Wal.Step)
    requires WalProof.Reachable(w) && w.stale == {} && Wal.Enabled(w, step)
    requires step.Truncate? || (step.Restart? && Wal.FullyCopied(w))
    ensures var w' := Wal.Next(w, step);
            && WalProof.Reachable(w') && w'.stale == {} && w.log != []
            && w.log[|w.log| - 1].salt == w.wal.salt != step.salt
            && (w'.syncedToWalEnd ==> Wal.FullyCopied(w))
  {
    WalProof.ReachableInv(w);
    WalProof.ReachableStep(w, step);
    WalProof.NothingBecomesStale(w, step);
    if w.lastSynced == Some(|w.wal.Slots()|) {
      WalProof.FlagMeansCopied(w);
    }
  }

  lemma ResetIsCurrent(w: Wal.State, salt: FrameLog.Salt, tx: seq<FrameLog.Frame>, w': Wal.State)
    requires w.backfilled <= |w.wal.live| && w'.base == Wal.Current(w) && w'.backfilled == 0 && w'.wal.live == tx
    ensures Wal.Current(w') == Overlay(Wal.Current(w), tx)
  {
    assert tx[..0] == [];
  }

  lemma ResetKeepsCoupled(j: Joint, step: Wal.Step)
    requires Coupled(j) && Wal.Enabled(j.wal, step)
    requires step.Truncate? || (step.Restart? && Wal.FullyCopied(j.wal))
    ensures Coupled(Joint(Wal.Next(j.wal, step), j.store.(uncopied := j.store.uncopied + [RunDelta(step.tx)])))
  {
    var w, w', u, tx := j.wal, Wal.Next(j.wal, step), j.store.uncopied, step.tx;
    ResetIsSafe(w, step);
    ResetIsCurrent(w, step.salt, tx, w');
    CommitIsCoupled(j.store.history, u, j.store, Wal.Current(w), tx, step.salt);
    BehindAfterReset(w, u, w', tx, step.salt);
  }

  // --- Syncs ----------------------------------------------------------------------------------

  // The file that a sync writes grows the database only by pages that it holds.
  lemma SyncGrows(st: Wal.State)
    requires WalProof.Inv(st) && st.stale == {} && Wal.SyncStep(st).log != st.log
    ensures var log := Wal.SyncStep(st).log;
            log != [] && log[..|log| - 1] == st.log && Grows(|Wal.Replay(st.log)|, log[|log| - 1].delta)
  {
    var (info, _) := Wal.Verify(st);
    var w, src := st.wal, Wal.OpenWal(st.wal, info);
    var fs := Wal.CommittedOf(src);
    WalProof.SyncFrame(st);
    WalProof.SyncCopies(st);
    if !info.snapshotting {
      GrownPart(|st.base|, w.live, src.offset);
      assert GrowsRun(|Wal.Replay(st.log)|, fs) by {
        assert |Overlay(st.base, w.live[..src.offset])| <= |Wal.Replay(st.log)| by {
          WalProof.CoversAll(Overlay(st.base, w.live[..src.offset]), Wal.Replay(st.log));
        }
      }
      RunGrows(|Wal.Replay(st.log)|, fs);
    }
  }

  // An incremental sync reads every page of what is uncopied.
  lemma UncopiedIsRead(w: Wal.State, u: History)
    requires WalProof.Inv(w) && Behind(w, u) && !Wal.Verify(w).0.snapshotting
    ensures InFrames(u, Wal.CommittedOf(Wal.OpenWal(w.wal, Wal.Verify(w).0)))
  {
    WalProof.SyncCopies(w);
    if w.log[|w.log| - 1].salt == w.wal.salt {
      WalProof.VerifyInEpoch(w);
    } else {
      WalProof.IncrementalAfterReset(w);
      WalProof.VerifyAfterReset(w);
    }
  }

  // And it holds every page of what was uncopied.
  lemma SyncHoldsUncopied(w: Wal.State, u: History, p: nat)
    requires WalProof.Inv(w) && Behind(w, u) && Wal.SyncStep(w).log != w.log && TouchedBy(u, p)
    ensures var log := Wal.SyncStep(w).log;
            log != [] && (1 <= p <= log[|log| - 1].delta.commit ==> p in log[|log| - 1].delta.pages)
  {
    var (info, _) := Wal.Verify(w);
    var src := Wal.OpenWal(w.wal, info);
    var fs := Wal.CommittedOf(src);
    WalProof.SyncCopies(w);
    if !info.snapshotting {
      UncopiedIsRead(w, u);
      var i :| 0 <= i < |u| && p in u[i].pages;
      WalProof.LastDataInPages(fs, p);
    }
  }

  lemma SyncedFile(w: Wal.State)
    requires WalProof.Reachable(w) && w.backfilled <= |w.wal.live| && w.stale == {} && Wal.SyncStep(w).log != w.log
    ensures var log := Wal.SyncStep(w).log;
            && log != [] && log[..|log| - 1] == w.log
            && Grows(|Wal.Replay(w.log)|, log[|log| - 1].delta)
            && Apply(Wal.Replay(w.log), log[|log| - 1].delta) == Wal.Current(w)
  {
    WalProof.ReachableInv(w);
    SyncGrows(w);
    WalProof.SyncIsExact(w);
    WalProof.SyncFrame(w);
  }

  lemma SyncedPages(w: Wal.State, u: History, p: nat)
    requires WalProof.Reachable(w) && w.backfilled <= |w.wal.live| && Behind(w, u) && Wal.SyncStep(w).log != w.log
    requires TouchedBy(u, p)
    ensures var log := Wal.SyncStep(w).log;
            log != [] && (1 <= p <= log[|log| - 1].delta.commit ==> p in log[|log| - 1].delta.pages)
  {
    WalProof.ReachableInv(w);
    SyncHoldsUncopied(w, u, p);
  }

  lemma SyncIsCopy(j: Joint)
    requires Coupled(j) && Wal.SyncStep(j.wal).log != j.wal.log
    ensures var log := Wal.SyncStep(j.wal).log;
            log != [] && log[..|log| - 1] == j.wal.log &&
            Copies(j.store.history, j.store.uncopied, log[|log| - 1].delta)
  {
    var w, h, u, log := j.wal, j.store.history, j.store.uncopied, Wal.SyncStep(j.wal).log;
    SyncedFile(w);
    ReplayIsImage(w.log);
    var d := log[|log| - 1].delta;
    forall p: nat | p <= d.commit && Touched(h + u, |h| + 1, |h + u|, p) ensures p in d.pages {
      TouchedIsTouchedBy(h, u, p);
      TouchedIsPage(j.store, p);
      SyncedPages(w, u, p);
    }
  }

  lemma TouchedIsPage(st: Store, p: nat)
    requires Reachable(st) && TouchedBy(st.uncopied, p)
    ensures 1 <= p
  {
    ReachableInv(st);
    var h, u := st.history, st.uncopied;
    var i :| 0 <= i < |u| && p in u[i].pages;
    assert GrowsAt(h + u, |h| + i) && (h + u)[|h| + i] == u[i];
  }

  lemma SyncedWal(w: Wal.State)
    requires WalProof.Reachable(w) && w.backfilled <= |w.wal.live| && w.stale == {}
    ensures var w' := Wal.SyncStep(w);
            && WalProof.Reachable(w') && w'.backfilled <= |w'.wal.live| && w'.stale == {}
            && Wal.Current(w') == Wal.Current(w) && Behind(w', [])
            && w'.wal == w.wal && Wal.FullyCopied(w')
  {
    WalProof.ReachableInv(w);
    WalProof.ReachableStep(w, Wal.Sync);
    WalProof.SyncIsExact(w);
    WalProof.SyncFrame(w);
    WalProof.SyncFullyCopies(w);
  }

  // A protocol that has copied everything goes with a store that has.
  lemma CopiedIsCoupled(j: Joint, w': Wal.State, d: Delta)
    requires Coupled(j) && Copies(j.store.history, j.store.uncopied, d)
    requires w'.log != [] && w'.log[..|w'.log| - 1] == j.wal.log && w'.log[|w'.log| - 1].delta == d
    requires WalProof.Reachable(w') && w'.backfilled <= |w'.wal.live| && w'.stale == {}
    requires Wal.Current(w') == Wal.Current(j.wal) && Behind(w', [])
    ensures Coupled(Joint(w', Copied(j.store, d)))
  {
    CopyIsCoupled(j.store, d);
    DeltasAppend(j.wal.log, w'.log);
  }

  // A sync that writes a file copies everything.
  lemma WritingKeepsCoupled(j: Joint)
    requires Coupled(j) && Wal.SyncStep(j.wal).log != j.wal.log
    ensures Coupled(Joint(Wal.SyncStep(j.wal), StoreAfter(j, Wal.Sync))) && StoreAfter(j, Wal.Sync).uncopied == []
  {
    var w' := Wal.SyncStep(j.wal);
    SyncIsCopy(j);
    SyncedWal(j.wal);
    CopiedIsCoupled(j, w', w'.log[|w'.log| - 1].delta);
  }

  lemma CopyIsCoupled(st: Store, d: Delta)
    requires Reachable(st) && Copies(st.history, st.uncopied, d)
    ensures Reachable(Copied(st, d))
    ensures Live(st.history + [d], []) == Live(st.history, st.uncopied)
  {
    ReachableInv(st);
    LiveAfterSync(st.history, st.uncopied, d);
    ReachableStep(st, LocalSync(d));
  }

  // A sync that writes none had nothing to copy.
  lemma IdleKeepsCoupled(j: Joint)
    requires Coupled(j) && Wal.SyncStep(j.wal).log == j.wal.log
    ensures Coupled(Joint(Wal.SyncStep(j.wal), j.store)) && j.store.uncopied == []
  {
    SyncedWal(j.wal);
    CopiedLeavesNothing(j.wal, j.store.uncopied);
  }

  lemma CopiedLeavesNothing(w: Wal.State, u: History)
    requires Behind(w, u) && Wal.FullyCopied(w)
    ensures u == []
  {
    if u != [] {
      SomethingBehind(u, w.wal.live[w.log[|w.log| - 1].End()..]);
    }
  }

  lemma SyncKeepsCoupled(j: Joint)
    requires Coupled(j)
    ensures Coupled(Joint(Wal.SyncStep(j.wal), StoreAfter(j, Wal.Sync))) && StoreAfter(j, Wal.Sync).uncopied == []
  {
    if Wal.SyncStep(j.wal).log != j.wal.log {
      WritingKeepsCoupled(j);
    } else {
      IdleKeepsCoupled(j);
    }
  }

  // --- Other steps of the protocol ------------------------------------------------------------

  lemma WriteAheadKeepsCoupled(j: Joint, rest: seq<FrameLog.Frame>)
    requires Coupled(j) && Wal.WritesAhead(j.wal.wal, rest)
    ensures Coupled(j.(wal := j.wal.(wal := j.wal.wal.(rest := rest))))
  {
    WalProof.ReachableStep(j.wal, Wal.WriteAhead(rest));
    BehindAfterWrite(j.wal, j.store.uncopied, rest);
  }

  lemma BehindAfterWrite(w: Wal.State, u: History, rest: seq<FrameLog.Frame>)
    requires Behind(w, u) && Wal.WritesAhead(w.wal, rest)
    ensures Behind(w.(wal := w.wal.(rest := rest)), u)
  {
    if w.log != [] && w.log[|w.log| - 1].salt != w.wal.salt {
      WalProof.NoNewSalt(w.wal, rest, w.log[|w.log| - 1].salt);
    }
  }

  lemma BackfillKeepsCoupled(j: Joint, n: nat)
    requires Coupled(j) && Wal.Enabled(j.wal, Wal.Backfill(n))
    ensures Coupled(j.(wal := j.wal.(backfilled := n)))
  {
    WalProof.ReachableStep(j.wal, Wal.Backfill(n));
    BackfillIsUnseen(j.wal, n);
  }

  lemma BackfillIsUnseen(w: Wal.State, n: nat)
    requires WalProof.Reachable(w) && Wal.Enabled(w, Wal.Backfill(n))
    ensures Wal.Current(w.(backfilled := n)) == Wal.Current(w)
  {
    WalProof.ReachableInv(w);
    WalProof.CurrentIsOverlay(w);
    WalProof.CurrentIsOverlay(w.(backfilled := n));
  }

  lemma WalStepKeepsCoupled(j: Joint, s: Wal.Step)
    requires Coupled(j) && JointEnabled(j, OnWal(s))
    ensures Coupled(Joint(Wal.Next(j.wal, s), StoreAfter(j, s)))
  {
    match s
    case Commit(tx) => CommitKeepsCoupled(j, tx);
    case WriteAhead(rest) => WriteAheadKeepsCoupled(j, rest);
    case Backfill(n) => BackfillKeepsCoupled(j, n);
    case Sync => SyncKeepsCoupled(j);
    case Truncate(_, _) => ResetKeepsCoupled(j, s);
    case Restart(_, _) => ResetKeepsCoupled(j, s);
    case Reopen => WalProof.ReachableStep(j.wal, s);
  }

  // --- Steps of the store ---------------------------------------------------------------------

  // What is written is a snapshot of the store's live image.
  lemma SnapshotIsLive(j: Joint, createdAt: int)
    requires Coupled(j)
    ensures SnapshotNow(j.wal, createdAt) == SnapshotFile(j.store.history, j.store.uncopied, createdAt)
  {
    var w := j.wal;
    var img := Wal.Current(w);
    var d := Wal.SnapshotDelta(Wal.DbFile(w), w.wal.live);
    WalProof.SnapshotIsOverlay([], Wal.DbFile(w), w.wal.live);
    SnapshotIsFull(d, img);
  }

  lemma SnapshotIsFull(d: Delta, img: Image)
    requires Apply([], d) == img && forall p: nat :: p in d.pages <==> 1 <= p <= d.commit
    ensures d == FullDelta(img)
  {
    forall p: nat | 1 <= p <= |img| ensures d.pages[p] == PageAt(img, p) {
      assert Apply([], d)[p - 1] == PageAfter([], d, p);
    }
    assert d.pages == FullDelta(img).pages;
  }

  lemma StepKeepsCoupled(j: Joint, step: JointStep)
    requires Coupled(j) && JointEnabled(j, step)
    ensures Coupled(JointNext(j, step))
  {
    match step
    case OnWal(s) => WalStepKeepsCoupled(j, s);
    case TakeSnapshot(createdAt) =>
      SnapshotIsLive(j, createdAt);
      ReachableStep(j.store, Snapshot(createdAt));
    case OnStore(s) => ReachableStep(j.store, s);
  }

  // --- Whole runs -----------------------------------------------------------------------------

  ghost predicate IsJointRun(run: seq<Joint>, steps: seq<JointStep>) {
    && |run| == |steps| + 1 && JointInit(run[0])
    && forall i {:trigger steps[i]} :: 0 <= i < |steps| ==>
         JointEnabled(run[i], steps[i]) && run[i + 1] == JointNext(run[i], steps[i])
  }

  lemma InitIsCoupled(j: Joint)
    requires JointInit(j)
    ensures Coupled(j)
  {
    var img := Wal.Current(j.wal);
    FullDeltaApplies(img, []);
    InitIsReachable(j.store);
    WalProof.InitIsReachable(j.wal);
    assert [] + [FullDelta(img)] == [FullDelta(img)];
    ImageOfAppend([], FullDelta(img));
    assert Deltas([]) == [];
  }

  lemma {:induction false} RunIsCoupled(run: seq<Joint>, steps: seq<JointStep>, i: nat)
    requires IsJointRun(run, steps) && i < |run|
    ensures Coupled(run[i])
    decreases i
  {
    if i == 0 {
      InitIsCoupled(run[0]);
    } else {
      RunIsCoupled(run, steps, i - 1);
      StepKeepsCoupled(run[i - 1], steps[i - 1]);
    }
  }
}
