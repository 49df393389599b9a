/**
 A snapshot of a database that has more committed than was copied: it is labelled with the last
 TXID copied but holds the later commits too. When it is exact at its label all the same, and a
 state in which it is not.
 */
module WalSnapshot {
  import opened Pages
  import opened FrameLog
  import opened SnapshotImage
  import opened LevelStoreRuns
  import opened WalOverlay
  import opened WalSync
  import opened WalRestart
  import opened JointRun
  import WalSyncProof

  // What is written for a snapshot: every page, from the WAL if it is there.
  function SnapshotContent(st: State): Image
    requires st.backfilled <= |st.wal.live|
  {
    Apply([], SnapshotDelta(DbFile(st), st.wal.live))
  }

  // It is what a reader of the database sees.
  lemma SnapshotIsCurrent(st: State)
    requires st.backfilled <= |st.wal.live|
    ensures SnapshotContent(st) == Current(st)
  {
    WalSyncProof.SnapshotIsOverlay([], DbFile(st), st.wal.live);
  }

  // The frames leave the image as it is: same size, and every page they write has that content.
  predicate NoChange(img: Image, fs: seq<Frame>) {
    && SizeAfter(|img|, fs) == |img|
    && forall p: nat :: 1 <= p <= |img| && LastData(fs, p).Some? ==> LastData(fs, p).value == PageAt(img, p)
  }

  lemma OverlayNoChange(img: Image, fs: seq<Frame>)
    ensures Overlay(img, fs) == img <==> NoChange(img, fs)
  {
    if fs != [] && SizeAfter(|img|, fs) == |img| {
      forall p: nat | 1 <= p <= |img|
        ensures Overlay(img, fs)[p - 1] == if LastData(fs, p).Some? then LastData(fs, p).value else PageAt(img, p)
      {
        assert Overlay(img, fs)[p - 1] == PageAfter(img, RunDelta(fs), p);
      }
      if NoChange(img, fs) {
        forall i | 0 <= i < |img| ensures Overlay(img, fs)[i] == img[i] {
          assert Overlay(img, fs)[(i + 1) - 1] == PageAt(img, i + 1);
        }
      }
    } else if fs == [] {
      assert forall p: nat :: LastData(fs, p) == None;
    }
  }

  // Within an epoch: a snapshot is exact at its label if and only if the frames behind the copied
  // ones change nothing; when all are copied there are none.
  lemma SnapshotInEpochExactIff(st: State)
    requires WalSyncProof.Inv(st) && st.stale == {} && st.log != [] && st.log[|st.log| - 1].salt == st.wal.salt
    ensures CopiedEnd(st) <= |st.wal.live|
    ensures SnapshotContent(st) == Replay(st.log) <==> NoChange(Replay(st.log), st.wal.live[CopiedEnd(st)..])
    ensures FullyCopied(st) ==> SnapshotContent(st) == Replay(st.log)
  {
    var n, live := CopiedEnd(st), st.wal.live;
    SnapshotIsCurrent(st);
    WalSyncProof.CurrentIsOverlay(st);
    WalSyncProof.EqualIffStaleEqual(Overlay(st.base, live[..n]), Replay(st.log), st.stale);
    OverlaySplit(st.base, live, n);
    OverlayNoChange(Replay(st.log), live[n..]);
    assert n == |live| ==> live[n..] == [];
  }

  // In every state that the protocol and the store reach together: a snapshot taken now is exact at
  // its label if and only if what is committed but not copied changes nothing.
  lemma SnapshotNowExactIff(j: Joint, createdAt: int)
    requires Coupled(j)
    ensures var h, u := j.store.history, j.store.uncopied;
            Content(SnapshotNow(j.wal, createdAt)) == ImageAt(h, |h|) <==> Idle(ImageAt(h, |h|), |Current(j.wal)|, u)
  {
    ReachableInv(j.store);
    SnapshotIsLive(j, createdAt);
    SnapshotExactIff(j.store.history, j.store.uncopied, SnapshotNow(j.wal, createdAt));
  }

  lemma LaterIsChange(img: Image)
    requires |img| == 2 && img[0] == OLD
    ensures !NoChange(img, Later())
  {
    assert LastData(Later(), 1) == Some(NEW) && PageAt(img, 1) == OLD;
  }

  // One commit behind the last sync: the snapshot holds it, the log at the snapshot's label does not.
  lemma SnapshotAheadOfLabel()
    ensures var st := CommitStep(SyncStep(Before()), Later());
            && WalSyncProof.Reachable(st) && st.backfilled <= |st.wal.live|
            && SnapshotContent(st) == Current(st) != Replay(st.log)
  {
    var st := LostState();
    WalSyncProof.ReachableInv(st);
    SnapshotIsCurrent(st);
    SnapshotInEpochExactIff(st);
    var live := st.wal.live;
    assert live[..2] == Before().wal.live && live[2..] == Later();
    LogSoFar(st);
    OldPageOne(live[..2]);
    LaterIsChange(Replay(st.log));
  }
}
