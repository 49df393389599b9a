/**
 A reset that leaves the WAL file in place, with commits landing between the sync of the
 checkpoint and the reset: when the next sync is exact, and a run in which it is not.
 */
module WalRestart {
  import opened Pages
  import opened FrameLog
  import opened WalOverlay
  import opened WalSync
  import opened WalSyncProof

  lemma {:induction false} SaltsUntilKnown(slots: seq<Frame>, n: nat, current: Salt, known: Salt)
    requires n < |slots| && slots[n].salt == known
    requires forall i :: 0 <= i < n ==> slots[i].salt == current
    ensures SaltsUntil(slots, known) <= {current, known}
    decreases n
  {
    if slots[0].salt != known {
      SaltsUntilKnown(slots[1..], n - 1, current, known);
    }
  }

  // The frames that were copied into the log end here.
  function CopiedEnd(st: State): nat
    requires st.log != []
  {
    st.log[|st.log| - 1].End()
  }

  // The sync after the reset takes a snapshot: nothing but one frame was copied, or the new
  // transaction overwrites the last copied frame.
  predicate SnapshotForced(st: State, tx: seq<Frame>)
    requires st.log != []
  {
    CopiedEnd(st) <= 1 || CopiedEnd(st) <= |tx|
  }

  // One or more transactions, as they are in the WAL after a reset.
  ghost predicate CommitsRun(size: nat, salt: Salt, tx: seq<Frame>) {
    tx != [] && Complete(tx) && Grown(size, tx) && AllSalt(tx, salt) && OwnPages(tx)
  }

  lemma OneTransaction(size: nat, salt: Salt, tx: seq<Frame>)
    requires Commits(size, salt, tx)
    ensures CommitsRun(size, salt, tx)
  {
    assert Grown(size, []) by {
      assert forall p: nat :: LastData([], p) == None;
    }
    GrownAppend(size, [], tx);
    assert [] + tx == tx;
  }

  lemma LongerRun(size: nat, salt: Salt, fs: seq<Frame>, tx: seq<Frame>)
    requires CommitsRun(size, salt, fs) && Commits(SizeAfter(size, fs), salt, tx)
    ensures CommitsRun(size, salt, fs + tx)
  {
    GrownAppend(size, fs, tx);
    assert (fs + tx)[|fs + tx| - 1] == tx[|tx| - 1];
  }

  // A state whose log is right so far; `tx` is all that is committed between the reset and the next
  // sync.
  ghost predicate MayRestart(st: State, salt: Salt, tx: seq<Frame>) {
    Inv(st) && st.stale == {} && st.synced && salt !in st.used && CommitsRun(|Current(st)|, salt, tx)
  }

  lemma LogSoFar(st: State)
    requires Inv(st) && st.stale == {} && st.synced
    ensures CopiedEnd(st) <= |st.wal.live| && Complete(st.wal.live[..CopiedEnd(st)])
    ensures Replay(st.log) == Overlay(st.base, st.wal.live[..CopiedEnd(st)])
  {
    EqualIffStaleEqual(Overlay(st.base, st.wal.live[..CopiedEnd(st)]), Replay(st.log), st.stale);
  }

  ghost predicate Resets(st: State, salt: Salt, tx: seq<Frame>) {
    Inv(st) && st.synced && salt !in st.used && tx != [] && AllSalt(tx, salt)
  }

  lemma RestartedSlots(st: State, salt: Salt, tx: seq<Frame>)
    requires Resets(st, salt, tx)
    ensures var slots := RestartStep(st, salt, tx).wal.Slots();
            && CopiedEnd(st) <= |st.wal.live| <= |slots|
            && (forall i :: 0 <= i < |tx| ==> slots[i].salt == salt)
            && (forall i :: |tx| <= i < |st.wal.live| ==> slots[i] == st.wal.live[i])
  {
    var old_, slots := st.wal.Slots(), RestartStep(st, salt, tx).wal.Slots();
    forall i | |tx| <= i < |st.wal.live| ensures slots[i] == st.wal.live[i] {
      assert slots[i] == old_[i];
    }
  }

  lemma ForcedDecision(st: State, salt: Salt, tx: seq<Frame>)
    requires Resets(st, salt, tx) && SnapshotForced(st, tx)
    ensures var st', last := RestartStep(st, salt, tx), st.log[|st.log| - 1];
            && Verify(st').0 == Info(last.End(), last.salt, true)
            && (last.End() > 0 ==> last.End() <= |st'.wal.Slots()| && st'.wal.Slots()[last.End() - 1].salt != last.salt)
  {
    RestartedSlots(st, salt, tx);
  }

  // A reset that leaves the last copied frame in place.
  lemma FreeSlots(st: State, salt: Salt, tx: seq<Frame>, slots: seq<Frame>)
    requires Resets(st, salt, tx) && !SnapshotForced(st, tx) && slots == RestartStep(st, salt, tx).wal.Slots()
    ensures var last := st.log[|st.log| - 1];
            && last.salt != salt && 1 < last.End() <= |slots| && LastPageMatch(slots, last)
            && |tx| < |slots| && slots[|tx|].salt == last.salt
            && forall i :: 0 <= i < |tx| ==> slots[i].salt == salt
  {
    RestartedSlots(st, salt, tx);
    LastStays(st, slots, |tx|);
  }

  lemma LastStays(st: State, slots: seq<Frame>, n: nat)
    requires Inv(st) && st.synced && n < CopiedEnd(st) <= |st.wal.live| <= |slots|
    requires forall i :: n <= i < |st.wal.live| ==> slots[i] == st.wal.live[i]
    ensures var last := st.log[|st.log| - 1]; LastPageMatch(slots, last) && slots[n].salt == last.salt == st.wal.salt
  {
    var off := CopiedEnd(st);
    assert slots[off - 1] == st.wal.live[off - 1] && slots[n] == st.wal.live[n];
    assert st.wal.Slots()[off - 1] == st.wal.live[off - 1];
  }

  // The branch of verify for new salts in front of the last copied frame.
  lemma VerifyNewSalts(st: State, last: L0File)
    requires st.log != [] && st.log[|st.log| - 1] == last && last.salt != st.wal.salt
    requires 1 < last.End() <= |st.wal.Slots()| && LastPageMatch(st.wal.Slots(), last)
    ensures Verify(st).0 == Info(0, st.wal.salt, FullCheckpointDetected(st.wal.Slots(), st.wal.salt, last.salt))
  {
  }

  lemma FreeDecision(st: State, salt: Salt, tx: seq<Frame>)
    requires Resets(st, salt, tx) && !SnapshotForced(st, tx)
    ensures Verify(RestartStep(st, salt, tx)).0 == Info(0, salt, false)
  {
    var last, st' := st.log[|st.log| - 1], RestartStep(st, salt, tx);
    var slots := st'.wal.Slots();
    FreeSlots(st, salt, tx, slots);
    SaltsUntilKnown(slots, |tx|, salt, last.salt);
    VerifyNewSalts(st', last);
  }

  // What verify decides after the reset, and that reading restarts at the header.
  lemma RestartDecision(st: State, salt: Salt, tx: seq<Frame>)
    requires Resets(st, salt, tx)
    ensures var st' := RestartStep(st, salt, tx);
            && Verify(st').0.snapshotting == SnapshotForced(st, tx)
            && OpenWal(st'.wal, Verify(st').0) == Source(0, salt, Readable(st'.wal.Slots(), salt))
  {
    if SnapshotForced(st, tx) {
      ForcedDecision(st, salt, tx);
    } else {
      FreeDecision(st, salt, tx);
    }
  }

  lemma RestartCopies(st: State, salt: Salt, tx: seq<Frame>)
    requires MayRestart(st, salt, tx)
    ensures var st' := RestartStep(st, salt, tx);
            && WalOk(st'.base, 0, st'.wal)
            && CommittedOf(OpenWal(st'.wal, Verify(st').0)) == tx
  {
    var st' := RestartStep(st, salt, tx);
    SlotSaltsKnown(st, st'.wal.rest, |tx|);
    assert tx[..0] == [];
    RestartDecision(st, salt, tx);
    ReadsLive(st'.base, 0, st'.wal, 0);
    assert st'.wal.Slots()[0..] == st'.wal.Slots() && tx[0..] == tx;
  }

  // The log after the next sync: exact after a snapshot; otherwise the frames that had not been
  // copied before the reset are missing from it.
  lemma ReplayAfterRestart(st: State, salt: Salt, tx: seq<Frame>)
    requires MayRestart(st, salt, tx)
    ensures var st' := RestartStep(st, salt, tx);
            && Current(st') == Overlay(Overlay(st.base, st.wal.live), tx)
            && Replay(SyncStep(st').log) ==
                 if SnapshotForced(st, tx) then Current(st')
                 else Overlay(Overlay(st.base, st.wal.live[..CopiedEnd(st)]), tx)
  {
    var st' := RestartStep(st, salt, tx);
    var log := SyncStep(st').log;
    CurrentIsOverlay(st);
    RestartCopies(st, salt, tx);
    CurrentIsOverlay(st');
    RestartDecision(st, salt, tx);
    assert log[..|log| - 1] == st.log;
    LogSoFar(st);
    if SnapshotForced(st, tx) {
      SnapshotIsOverlay(Replay(st.log), DbFile(st'), tx);
    }
  }

  // Leaving out the frames `missed` makes no difference behind tx: every page they wrote that is
  // still part of the database is written again by tx, or they wrote what was there already.
  predicate Harmless(copied: Image, missed: seq<Frame>, tx: seq<Frame>) {
    forall p: nat :: 1 <= p <= SizeAfter(0, tx) && LastData(missed, p).Some? && LastData(tx, p) == None ==>
      LastData(missed, p).value == if p <= |copied| then copied[p - 1] else HOLE
  }

  lemma PageBehind(copied: Image, missed: seq<Frame>, tx: seq<Frame>, p: nat)
    requires tx != [] && GrowsRun(SizeAfter(|copied|, missed), tx)
    requires 1 <= p <= SizeAfter(0, tx) && LastData(tx, p) == None
    ensures Overlay(copied, tx)[p - 1] == if p <= |copied| then copied[p - 1] else HOLE
    ensures Overlay(Overlay(copied, missed), tx)[p - 1] ==
              if LastData(missed, p).Some? then LastData(missed, p).value
              else if p <= |copied| then copied[p - 1] else HOLE
  {
    var all := Overlay(copied, missed);
    assert p <= |all|;
    assert Overlay(copied, tx)[p - 1] == PageAfter(copied, RunDelta(tx), p);
    assert Overlay(all, tx)[p - 1] == PageAfter(all, RunDelta(tx), p);
    assert missed != [] ==> all[p - 1] == PageAfter(copied, RunDelta(missed), p);
  }

  lemma HarmlessIff(copied: Image, missed: seq<Frame>, tx: seq<Frame>)
    requires tx != [] && GrowsRun(SizeAfter(|copied|, missed), tx)
    ensures Overlay(copied, tx) == Overlay(Overlay(copied, missed), tx) <==> Harmless(copied, missed, tx)
  {
    var a, b := Overlay(copied, tx), Overlay(Overlay(copied, missed), tx);
    forall p: nat | 1 <= p <= SizeAfter(0, tx)
      ensures LastData(tx, p).Some? ==> a[p - 1] == b[p - 1]
      ensures LastData(tx, p) == None ==>
                (a[p - 1] == b[p - 1] <==>
                 (LastData(missed, p).Some? ==>
                  LastData(missed, p).value == if p <= |copied| then copied[p - 1] else HOLE))
    {
      if LastData(tx, p) == None {
        PageBehind(copied, missed, tx, p);
      }
    }
    if Harmless(copied, missed, tx) {
      forall i | 0 <= i < |a| ensures a[i] == b[i] {
        assert a[i] == a[(i + 1) - 1];
      }
    }
  }

  // With frames tx written since the reset, the next sync is exact if and only if it is forced to take
  // a snapshot or leaving out the frames that were not copied is harmless.
  lemma FramesExactIff(st: State, salt: Salt, tx: seq<Frame>)
    requires MayRestart(st, salt, tx)
    ensures CopiedEnd(st) <= |st.wal.live|
    ensures var st', n := SyncStep(RestartStep(st, salt, tx)), CopiedEnd(st);
            Replay(st'.log) == Current(st') <==>
              SnapshotForced(st, tx) || Harmless(Overlay(st.base, st.wal.live[..n]), st.wal.live[n..], tx)
  {
    ReplayAfterRestart(st, salt, tx);
    var n, live := CopiedEnd(st), st.wal.live;
    var st1 := RestartStep(st, salt, tx);
    var st2 := SyncStep(st1);
    assert st2.base == st1.base && st2.backfilled == st1.backfilled && st2.wal == st1.wal;
    CurrentIsOverlay(st);
    OverlaySplit(st.base, live, n);
    assert tx[0..|tx|] == tx && tx[..0] == [] && tx[..|tx|] == tx;
    HarmlessIff(Overlay(st.base, live[..n]), live[n..], tx);
  }

  // --- Runs -----------------------------------------------------------------------------------

  // The state after further transactions.
  function CommitAll(st: State, txs: seq<seq<Frame>>): State {
    if txs == [] then st else CommitStep(CommitAll(st, txs[..|txs| - 1]), txs[|txs| - 1])
  }

  // Each of the transactions may commit when it is its turn.
  ghost predicate AllEnabled(st: State, txs: seq<seq<Frame>>) {
    txs != [] ==>
      AllEnabled(st, txs[..|txs| - 1]) && Enabled(CommitAll(st, txs[..|txs| - 1]), Commit(txs[|txs| - 1]))
  }

  function Flat(txs: seq<seq<Frame>>): seq<Frame> {
    if txs == [] then [] else Flat(txs[..|txs| - 1]) + txs[|txs| - 1]
  }

  lemma LeftTwice(slots: seq<Frame>, n: nat, m: nat)
    ensures Left(Left(slots, n), m) == Left(slots, n + m)
  {
  }

  lemma CurrentAfterReset(st: State, salt: Salt, fs: seq<Frame>)
    requires st.backfilled <= |st.wal.live|
    ensures |Current(RestartStep(st, salt, fs))| == SizeAfter(|Current(st)|, fs)
  {
    assert fs[..0] == [];
  }

  // One more transaction makes what is written since the reset longer.
  lemma RestartThenCommit(st: State, salt: Salt, fs: seq<Frame>, tx: seq<Frame>)
    requires st.backfilled <= |st.wal.live| && CommitsRun(|Current(st)|, salt, fs)
    requires Enabled(RestartStep(st, salt, fs), Commit(tx))
    ensures CommitStep(RestartStep(st, salt, fs), tx) == RestartStep(st, salt, fs + tx)
    ensures CommitsRun(|Current(st)|, salt, fs + tx)
  {
    CurrentAfterReset(st, salt, fs);
    LongerRun(|Current(st)|, salt, fs, tx);
    LeftTwice(st.wal.Slots(), |fs|, |tx|);
  }

  lemma Regroup(a: seq<Frame>, b: seq<Frame>, c: seq<Frame>)
    ensures a + (b + c) == a + b + c
  {
  }

  // Transactions that follow the first one of the new epoch are part of what is written since the reset.
  lemma {:induction false} RestartThenCommits(st: State, salt: Salt, tx: seq<Frame>, txs: seq<seq<Frame>>)
    requires Enabled(st, Restart(salt, tx)) && AllEnabled(RestartStep(st, salt, tx), txs)
    ensures CommitAll(RestartStep(st, salt, tx), txs) == RestartStep(st, salt, tx + Flat(txs))
    ensures CommitsRun(|Current(st)|, salt, tx + Flat(txs))
    decreases |txs|
  {
    if txs == [] {
      OneTransaction(|Current(st)|, salt, tx);
      assert tx + [] == tx;
    } else {
      var n := |txs| - 1;
      RestartThenCommits(st, salt, tx, txs[..n]);
      RestartThenCommit(st, salt, tx + Flat(txs[..n]), txs[n]);
      Regroup(tx, Flat(txs[..n]), txs[n]);
    }
  }

  // A reset in place, then any transactions, then a sync: the sync is exact if and only if it is forced
  // to take a snapshot or leaving out the frames that were not copied before the reset is harmless.
  lemma RestartExactIff(st: State, salt: Salt, tx: seq<Frame>, txs: seq<seq<Frame>>)
    requires Reachable(st) && st.stale == {} && Enabled(st, Restart(salt, tx))
    requires AllEnabled(Next(st, Restart(salt, tx)), txs)
    ensures st.log != [] && CopiedEnd(st) <= |st.wal.live|
    ensures var st' := CommitAll(Next(st, Restart(salt, tx)), txs);
            && Enabled(st', Sync)
            && var end, n, fs := Next(st', Sync), CopiedEnd(st), tx + Flat(txs);
               end.backfilled <= |end.wal.live| &&
               (Replay(end.log) == Current(end) <==>
                  SnapshotForced(st, fs) || Harmless(Overlay(st.base, st.wal.live[..n]), st.wal.live[n..], fs))
  {
    ReachableInv(st);
    RestartThenCommits(st, salt, tx, txs);
    FramesExactIff(st, salt, tx + Flat(txs));
  }

  // --- A lost commit --------------------------------------------------------------------------

  const OLD: Page := [0]
  const NEW: Page := [1]
  const S1 := Salt(1, 1)
  const S2 := Salt(2, 2)

  // Two pages written in one transaction, then copied.
  function Before(): State {
    State([], 0, Wal(S1, [Frame(S1, 1, 0, OLD), Frame(S1, 2, 2, OLD)], []), [], None, false, false, {S1}, {})
  }

  // Committed behind the copied frames, before the reset.
  function Later(): seq<Frame> {
    [Frame(S1, 1, 2, NEW)]
  }

  // The first transaction of the new epoch.
  function First(): seq<Frame> {
    [Frame(S2, 2, 2, OLD)]
  }

  lemma BeforeIsInitial()
    ensures Init(Before())
  {
    var w := Before().wal;
    var fs := w.live;
    forall n: nat, m: nat | n <= m <= |fs| && Complete(fs[..n]) && Complete(fs[..m])
      ensures GrowsRun(SizeAfter(0, fs[..n]), fs[n..m])
    {
      assert fs[..1] == [fs[0]];
      if n == 0 && m == 2 {
        assert fs[n..m] == fs;
        assert LastData(fs, 2) == Some(OLD) && LastData(fs[..1], 1) == Some(OLD)
               && LastData(fs, 1) == LastData(fs[..1], 1);
      } else {
        assert n == m && fs[n..m] == [];
      }
    }
    assert fs[..0] == [];
  }

  lemma BeforeIsSynced()
    ensures var st := SyncStep(Before());
            && Reachable(st) && Inv(st) && FullyCopied(st) && st.stale == {} && st.synced && st.used == {S1}
            && st.base == [] && st.backfilled == 0 && st.wal == Before().wal
  {
    var st := Before();
    BeforeIsInitial();
    InitIsReachable(st);
    ReachableStep(st, Sync);
    ReachableInv(SyncStep(st));
    SyncIsExact(st);
    SyncFrame(st);
    SyncFullyCopies(st);
  }

  // The state just before the reset: synced, with one more commit behind.
  lemma LostState() returns (st: State)
    ensures st == CommitStep(SyncStep(Before()), Later())
    ensures Reachable(st) && st.stale == {} && Enabled(st, Restart(S2, First()))
    ensures st.log != [] && st.log[|st.log| - 1].salt == st.wal.salt
    ensures CopiedEnd(st) == 2 && st.base == [] && st.wal.live == Before().wal.live + Later()
  {
    var s1 := SyncStep(Before());
    BeforeIsSynced();
    LaterMayCommit(s1);
    st := CommitStep(s1, Later());
    ReachableStep(s1, Commit(Later()));
    CurrentAfterCommit(s1, Later());
    FirstMayFollow(st);
  }

  lemma FirstMayFollow(st: State)
    requires st.backfilled <= |st.wal.live| && |Current(st)| == 2 && st.synced && st.used == {S1}
    ensures Enabled(st, Restart(S2, First()))
  {
  }

  lemma LaterMayCommit(s1: State)
    requires Inv(s1) && s1.base == [] && s1.backfilled == 0 && s1.wal == Before().wal
    ensures Enabled(s1, Commit(Later()))
  {
    CurrentIsOverlay(s1);
  }

  lemma OldPageOne(fs: seq<Frame>)
    requires fs == Before().wal.live
    ensures |Overlay([], fs)| == 2 && Overlay([], fs)[0] == OLD
  {
    assert fs[..1] == [fs[0]];
    assert LastData(fs[..1], 1) == Some(OLD) && LastData(fs, 1) == LastData(fs[..1], 1);
    assert Overlay([], fs)[0] == PageAfter([], RunDelta(fs), 1) == OLD;
  }

  // The new transaction does not write page 1 again.
  lemma PageOneIsLost(fs: seq<Frame>)
    requires fs == Before().wal.live
    ensures !Harmless(Overlay([], fs), Later(), First())
  {
    OldPageOne(fs);
    assert LastData(Later(), 1) == Some(NEW);
    assert LastData(First(), 1) == LastData(First()[..0], 1) == None;
  }

  // A commit that lands before the reset is lost: the replayed log is not the current database.
  lemma RestartLosesCommit()
    ensures var st := CommitStep(SyncStep(Before()), Later());
            && Reachable(st) && Enabled(st, Restart(S2, First()))
            && var st' := SyncStep(RestartStep(st, S2, First()));
               Replay(st'.log) != Current(st')
  {
    var st := LostState();
    RestartExactIff(st, S2, First(), []);
    var live := st.wal.live;
    assert live[..2] == Before().wal.live && live[2..] == Later() && First() + Flat([]) == First();
    PageOneIsLost(live[..2]);
  }
}
