/**
 Safety of the WAL-to-LTX protocol over whole runs: after every completed sync the log of LTX
 files replays to exactly the current database, and within an epoch no further snapshot is taken.
 */
module WalSyncProof {
  import opened Pages
  import opened FrameLog
  import opened WalOverlay
  import opened WalSync

  ghost predicate AllSalt(fs: seq<Frame>, salt: Salt) {
    forall i :: 0 <= i < |fs| ==> fs[i].salt == salt
  }

  // Every commit frame is of a page inside the database it commits.
  ghost predicate OwnPages(fs: seq<Frame>) {
    forall i :: 0 <= i < |fs| && fs[i].commit != 0 ==> 1 <= fs[i].pgno <= fs[i].commit
  }

  ghost predicate WalOk(base: Image, backfilled: nat, w: Wal) {
    && Complete(w.live) && Grown(|base|, w.live) && AllSalt(w.live, w.salt) && OwnPages(w.live)
    && backfilled <= |w.live| && Complete(w.live[..backfilled])
    && forall i :: 0 <= i < |w.rest| && w.rest[i].salt == w.salt ==> w.rest[i].commit == 0
  }

  ghost predicate SaltsKnown(st: State) {
    && st.wal.salt in st.used
    && (forall i :: 0 <= i < |st.wal.rest| ==> st.wal.rest[i].salt in st.used)
    && (forall i :: 0 <= i < |st.log| ==> st.log[i].salt in st.used)
  }

  // The replayed log r has every page of the image, except for stale ones.
  ghost predicate Covers(img: Image, r: Image, stale: set<nat>) {
    forall p: nat :: 1 <= p <= |img| && p !in stale ==> SamePage(img, r, p)
  }

  ghost predicate SamePage(img: Image, r: Image, p: nat)
    requires 1 <= p <= |img|
  {
    p <= |r| && r[p - 1] == img[p - 1]
  }

  // The log covers the epoch up to the end of its last file.
  ghost predicate InEpoch(base: Image, w: Wal, log: seq<L0File>, last: L0File, stale: set<nat>) {
    var off := last.End();
    && last.salt == w.salt && off <= |w.live| && Complete(w.live[..off])
    && |Replay(log)| == |Overlay(base, w.live[..off])| && Covers(Overlay(base, w.live[..off]), Replay(log), stale)
    && (off > 0 ==> HoldsPage(last.delta, w.live[off - 1]))
  }

  ghost predicate HasSalt(slots: seq<Frame>, salt: Salt) {
    exists i :: 0 <= i < |slots| && slots[i].salt == salt
  }

  // The WAL was reset after the last sync. The log covers the image at the reset, unless the next
  // sync is bound to take a snapshot.
  ghost predicate AfterReset(base: Image, w: Wal, log: seq<L0File>, last: L0File, toEnd: bool, stale: set<nat>) {
    var slots := w.Slots();
    && last.salt != w.salt && w.live != []
    && (toEnd || HasSalt(slots, last.salt) ==> Covers(base, Replay(log), stale))
    && (0 < last.End() <= |slots| && slots[last.End() - 1].salt == last.salt ==>
          HoldsPage(last.delta, slots[last.End() - 1]))
  }

  ghost predicate Inv(st: State) {
    && WalOk(st.base, st.backfilled, st.wal) && SaltsKnown(st)
    && (st.log == [] ==> !st.synced)
    && (st.log != [] ==>
          var last := st.log[|st.log| - 1];
          if last.salt == st.wal.salt then
            && InEpoch(st.base, st.wal, st.log, last, st.stale)
            && (st.lastSynced == None || st.lastSynced == Some(last.End()))
          else
            !st.synced && AfterReset(st.base, st.wal, st.log, last, st.syncedToWalEnd, st.stale))
  }

  // Nothing copied yet; the database and its WAL can be in any state.
  ghost predicate Init(st: State) {
    && WalOk(st.base, st.backfilled, st.wal) && SaltsKnown(st)
    && st.log == [] && st.lastSynced == None && !st.syncedToWalEnd && !st.synced && st.stale == {}
  }

  // --- Reading the WAL ------------------------------------------------------------------------

  lemma {:induction false} ReadableConcat(a: seq<Frame>, b: seq<Frame>, salt: Salt)
    requires AllSalt(a, salt)
    ensures Readable(a + b, salt) == a + Readable(b, salt)
    decreases |a|
  {
    if a == [] {
      assert a + b == b;
    } else {
      assert (a + b)[1..] == a[1..] + b;
      ReadableConcat(a[1..], b, salt);
    }
  }

  lemma {:induction false} ReadablePrefix(fs: seq<Frame>, salt: Salt)
    ensures Readable(fs, salt) <= fs
    ensures AllSalt(Readable(fs, salt), salt)
  {
    if fs != [] && fs[0].salt == salt {
      ReadablePrefix(fs[1..], salt);
    }
  }

  lemma {:induction false} NothingCommitted(fs: seq<Frame>)
    requires forall i :: 0 <= i < |fs| ==> fs[i].commit == 0
    ensures Committed(fs) == 0
  {
  }

  // A reader positioned at a commit of the current epoch finds exactly the committed frames there.
  lemma ReadsLive(base: Image, backfilled: nat, w: Wal, off: nat)
    requires WalOk(base, backfilled, w) && off <= |w.live|
    ensures var fs := Readable(w.Slots()[off..], w.salt); fs[..Committed(fs)] == w.live[off..]
  {
    var live, open := w.live[off..], Readable(w.rest, w.salt);
    assert w.Slots()[off..] == live + w.rest;
    ReadableConcat(live, w.rest, w.salt);
    ReadablePrefix(w.rest, w.salt);
    NothingCommitted(open);
    assert Complete(live);
    assert Committed(live) == |live|;
    CommittedConcat(live, open);
  }

  // --- verify ---------------------------------------------------------------------------------

  // Within one epoch verify never asks for another snapshot: the last synced frame is always
  // found, byte for byte, in the last LTX file, and copying goes on right behind it.
  lemma VerifyInEpoch(st: State)
    requires Inv(st) && st.log != [] && st.log[|st.log| - 1].salt == st.wal.salt
    ensures Verify(st) == (Info(st.log[|st.log| - 1].End(), st.wal.salt, false), st.syncedToWalEnd)
  {
    var last, slots := st.log[|st.log| - 1], st.wal.Slots();
    if last.End() > 0 {
      assert slots[last.End() - 1] == st.wal.live[last.End() - 1];
    }
  }

  // After a reset, copying restarts at the WAL header; without a snapshot only when the log covers
  // the image at the reset.
  lemma VerifyAfterReset(st: State)
    requires Inv(st) && st.log != [] && st.log[|st.log| - 1].salt != st.wal.salt
    ensures var (info, toEnd) := Verify(st);
            && OpenWal(st.wal, info) == Source(0, st.wal.salt, Readable(st.wal.Slots(), st.wal.salt))
            && (!info.snapshotting ==> Covers(st.base, Replay(st.log), st.stale))
  {
    var last, slots := st.log[|st.log| - 1], st.wal.Slots();
    var off := last.End();
    if 0 < off <= |slots| && slots[off - 1].salt == last.salt {
      assert slots[0] == st.wal.live[0];
      assert off > 1;
    }
  }

  // The decision not to take one rests on the flag or on frames left over from the last epoch.
  lemma IncrementalAfterReset(st: State)
    requires Inv(st) && st.log != [] && st.log[|st.log| - 1].salt != st.wal.salt && !Verify(st).0.snapshotting
    ensures st.syncedToWalEnd || HasSalt(st.wal.Slots(), st.log[|st.log| - 1].salt)
  {
    var off, slots := st.log[|st.log| - 1].End(), st.wal.Slots();
    assert 0 < off <= |slots| ==> slots[off - 1] == slots[off - 1];
  }

  // --- sync -----------------------------------------------------------------------------------

  lemma SnapshotIsOverlay(img: Image, db: Image, fs: seq<Frame>)
    ensures Apply(img, SnapshotDelta(db, fs)) == Overlay(db, fs)
  {
    var d, r := SnapshotDelta(db, fs), Overlay(db, fs);
    forall p | 1 <= p <= d.commit
      ensures PageAfter(img, d, p) == r[p - 1]
    {
      if fs != [] {
        assert r[p - 1] == PageAfter(db, RunDelta(fs), p);
      } else {
        assert LastData(fs, p) == None;
      }
    }
  }

  // The commit frame of a run is in the file that copies the run.
  lemma CopiedLastPage(db: Image, info: Info, fs: seq<Frame>)
    requires fs != [] && Complete(fs) && OwnPages(fs)
    ensures HoldsPage(DeltaFor(db, info, fs), fs[|fs| - 1])
  {
    var f := fs[|fs| - 1];
    assert LastData(fs, f.pgno) == Some(f.data);
  }

  lemma CurrentIsOverlay(st: State)
    requires WalOk(st.base, st.backfilled, st.wal)
    ensures Current(st) == Overlay(st.base, st.wal.live)
  {
    OverlayAgain(st.base, st.wal.live, st.backfilled);
  }

  // What a sync copies: the frames behind the log's end in this epoch, or all of them.
  lemma SyncCopies(st: State)
    requires Inv(st)
    ensures var (info, _) := Verify(st);
            var src := OpenWal(st.wal, info);
            && src.salt == st.wal.salt && src.offset <= |st.wal.live| && Complete(st.wal.live[..src.offset])
            && CommittedOf(src) == st.wal.live[src.offset..]
            && (!info.snapshotting ==> Covers(Overlay(st.base, st.wal.live[..src.offset]), Replay(st.log), st.stale))
            && (info.snapshotting ==> src.offset == 0)
            && (!info.snapshotting && CommittedOf(src) == [] ==>
                  st.log != [] && st.log[|st.log| - 1].salt == st.wal.salt &&
                  |Replay(st.log)| == |Overlay(st.base, st.wal.live)|)
  {
    var w := st.wal;
    if st.log != [] && st.log[|st.log| - 1].salt == w.salt {
      VerifyInEpoch(st);
      var off := st.log[|st.log| - 1].End();
      if off > 0 {
        assert w.Slots()[off - 1] == w.live[off - 1];
      }
      assert w.Slots()[0..] == w.Slots();
      ReadsLive(st.base, st.backfilled, w, off);
      assert off == |w.live| ==> w.live[..off] == w.live;
    } else {
      if st.log != [] {
        VerifyAfterReset(st);
      }
      assert w.Slots()[0..] == w.Slots() && w.live[0..] == w.live && w.live[..0] == [];
      ReadsLive(st.base, st.backfilled, w, 0);
    }
  }

  lemma {:induction false} LastDataInPages(fs: seq<Frame>, p: nat)
    ensures LastData(fs, p).Some? <==> p in PagesOf(fs)
  {
    if fs != [] {
      var n := |fs| - 1;
      LastDataInPages(fs[..n], p);
      assert forall f :: f in fs <==> f in fs[..n] || f == fs[n];
    }
  }

  // Writing the same run over both leaves fewer stale pages.
  lemma CoversAfterRun(img: Image, r: Image, stale: set<nat>, fs: seq<Frame>)
    requires Covers(img, r, stale) && fs != [] && GrowsRun(|img|, fs)
    ensures Covers(Apply(img, RunDelta(fs)), Apply(r, RunDelta(fs)), stale - PagesOf(fs))
  {
    var d := RunDelta(fs);
    forall p: nat | 1 <= p <= d.commit && p !in stale - PagesOf(fs) ensures PageAfter(img, d, p) == PageAfter(r, d, p) {
      LastDataInPages(fs, p);
      if p !in d.pages {
        assert LastData(fs, p) == None && p !in stale && p <= |img|;
        assert SamePage(img, r, p);
      }
    }
  }

  lemma CoversAll(img: Image, r: Image)
    requires Covers(img, r, {})
    ensures |img| <= |r|
  {
    assert img != [] ==> SamePage(img, r, |img|);
  }

  lemma CoversItself(img: Image)
    ensures Covers(img, img, {})
  {
  }

  // The new log, given what was copied.
  lemma ReplayOfSync(st: State)
    requires Inv(st)
    ensures var st' := SyncStep(st);
            |Replay(st'.log)| == |Overlay(st.base, st.wal.live)| &&
            Covers(Overlay(st.base, st.wal.live), Replay(st'.log), st'.stale)
  {
    var (info, _) := Verify(st);
    var w, src := st.wal, OpenWal(st.wal, info);
    var fs, log := CommittedOf(src), SyncStep(st).log;
    SyncCopies(st);
    if !info.snapshotting && fs == [] {
      assert w.live[..src.offset] == w.live;
    } else {
      assert log[..|log| - 1] == st.log;
      if info.snapshotting {
        assert w.live[0..] == w.live;
        SnapshotIsOverlay(Replay(st.log), DbFile(st), fs);
        CurrentIsOverlay(st);
        CoversItself(Overlay(st.base, w.live));
      } else {
        OverlaySplit(st.base, w.live, src.offset);
        GrownPart(|st.base|, w.live, src.offset);
        CoversAfterRun(Overlay(st.base, w.live[..src.offset]), Replay(st.log), st.stale, fs);
      }
    }
  }

  lemma SyncFullyCopies(st: State)
    requires Inv(st)
    ensures FullyCopied(SyncStep(st))
  {
    SyncCopies(st);
    if st.log != [] && st.log[|st.log| - 1].salt == st.wal.salt {
      VerifyInEpoch(st);
    }
  }

  // Two images of the same size that agree outside some pages are equal if and only if they agree on
  // those as well.
  lemma EqualIffStaleEqual(img: Image, r: Image, stale: set<nat>)
    requires |r| == |img| && Covers(img, r, stale)
    ensures r == img <==> forall p: nat :: p in stale && 1 <= p <= |img| ==> SamePage(img, r, p)
  {
    if forall p: nat :: p in stale && 1 <= p <= |img| ==> SamePage(img, r, p) {
      forall i | 0 <= i < |img| ensures r[i] == img[i] {
        assert SamePage(img, r, i + 1);
      }
    }
  }

  // After every completed sync the log replays to the current database, except for stale pages.
  lemma SyncIsCurrent(st: State)
    requires Inv(st)
    ensures var st' := SyncStep(st);
            |Replay(st'.log)| == |Current(st')| && Covers(Current(st'), Replay(st'.log), st'.stale)
  {
    ReplayOfSync(st);
    CurrentIsOverlay(st);
    var st' := SyncStep(st);
    assert st'.base == st.base && st'.backfilled == st.backfilled && st'.wal == st.wal;
  }

  // Without stale pages it replays to exactly the current database.
  lemma SyncIsExact(st: State)
    requires Inv(st) && st.stale == {}
    ensures Replay(SyncStep(st).log) == Current(SyncStep(st)) && SyncStep(st).stale == {}
  {
    var st' := SyncStep(st);
    SyncIsCurrent(st);
    EqualIffStaleEqual(Current(st'), Replay(st'.log), st'.stale);
  }

  // --- Every step keeps the invariant ---------------------------------------------------------

  // The last frame copied by a sync is in the file it wrote.
  lemma NewFileHoldsLastPage(st: State)
    requires Inv(st) && st.wal.live != [] && SyncStep(st).log != st.log
    ensures var log := SyncStep(st).log; log != [] && HoldsPage(log[|log| - 1].delta, st.wal.live[|st.wal.live| - 1])
  {
    var (info, _) := Verify(st);
    var w, src := st.wal, OpenWal(st.wal, info);
    var fs := CommittedOf(src);
    SyncCopies(st);
    assert fs == w.live[src.offset..];
    assert fs != [] && fs[|fs| - 1] == w.live[|w.live| - 1];
    CopiedLastPage(DbFile(st), info, fs);
  }

  lemma SyncHoldsLastPage(st: State)
    requires Inv(st) && st.wal.live != []
    ensures var log := SyncStep(st).log; log != [] && HoldsPage(log[|log| - 1].delta, st.wal.live[|st.wal.live| - 1])
  {
    SyncFullyCopies(st);
    if SyncStep(st).log != st.log {
      NewFileHoldsLastPage(st);
    }
  }

  lemma SyncCoversEpoch(st: State)
    requires Inv(st)
    ensures var log := SyncStep(st).log; log != [] && InEpoch(st.base, st.wal, log, log[|log| - 1], SyncStep(st).stale)
  {
    SyncFullyCopies(st);
    ReplayOfSync(st);
    if st.wal.live != [] {
      SyncHoldsLastPage(st);
    }
    assert st.wal.live[..|st.wal.live|] == st.wal.live;
  }

  lemma SyncKeepsInv(st: State)
    requires Inv(st)
    ensures Inv(SyncStep(st)) && SyncStep(st).synced
  {
    SyncCoversEpoch(st);
    SyncFrame(st);
  }

  // A sync leaves the database and its WAL alone and appends at most one file.
  lemma SyncFrame(st: State)
    requires Inv(st)
    ensures var st' := SyncStep(st);
            && st'.base == st.base && st'.backfilled == st.backfilled && st'.wal == st.wal && st'.used == st.used
            && (st'.log == st.log || (st'.log != [] && st'.log[..|st'.log| - 1] == st.log))
            && (st'.log == st.log ==> st'.lastSynced == st.lastSynced)
            && (st'.log != st.log ==> st'.lastSynced == Some(st'.log[|st'.log| - 1].End()))
            && SaltsKnown(st')
            && (st'.log == st.log ==> st.log != [] && st.log[|st.log| - 1].salt == st.wal.salt)
  {
    SyncCopies(st);
  }

  lemma CommitKeepsWal(base: Image, backfilled: nat, w: Wal, size: nat, tx: seq<Frame>)
    requires WalOk(base, backfilled, w) && size == SizeAfter(|base|, w.live) && Commits(size, w.salt, tx)
    ensures WalOk(base, backfilled, Wal(w.salt, w.live + tx, Left(w.rest, |tx|)))
  {
    GrownAppend(|base|, w.live, tx);
    var live := w.live + tx;
    assert live[|live| - 1] == tx[|tx| - 1];
    assert live[..backfilled] == w.live[..backfilled];
  }

  // Every slot with that salt was there already.
  ghost predicate LeftOver(slots: seq<Frame>, before: seq<Frame>, salt: Salt) {
    forall i :: 0 <= i < |slots| && slots[i].salt == salt ==> i < |before| && before[i] == slots[i]
  }

  lemma AfterResetStays(base: Image, w: Wal, w': Wal, log: seq<L0File>, last: L0File, toEnd: bool, stale: set<nat>)
    requires AfterReset(base, w, log, last, toEnd, stale) && w'.salt == w.salt && w'.live != []
    requires LeftOver(w'.Slots(), w.Slots(), last.salt)
    ensures AfterReset(base, w', log, last, toEnd, stale)
  {
    if HasSalt(w'.Slots(), last.salt) {
      var i :| 0 <= i < |w'.Slots()| && w'.Slots()[i].salt == last.salt;
      assert w.Slots()[i].salt == last.salt;
    }
  }

  lemma CommitKeepsInv(st: State, tx: seq<Frame>)
    requires Inv(st) && Enabled(st, Commit(tx))
    ensures Inv(CommitStep(st, tx))
  {
    var w, w' := st.wal, CommitStep(st, tx).wal;
    CurrentIsOverlay(st);
    CommitKeepsWal(st.base, st.backfilled, w, SizeAfter(|st.base|, w.live), tx);
    if st.log != [] {
      var last := st.log[|st.log| - 1];
      if last.salt == w.salt {
        assert w'.live[..last.End()] == w.live[..last.End()];
      } else {
        SlotsAfterCommit(w, tx, last.salt);
        AfterResetStays(st.base, w, w', st.log, last, st.syncedToWalEnd, st.stale);
      }
    }
  }

  // What a reader sees after a commit.
  lemma CurrentAfterCommit(st: State, tx: seq<Frame>)
    requires Inv(st) && Enabled(st, Commit(tx))
    ensures var st' := CommitStep(st, tx); st'.backfilled <= |st'.wal.live| && Current(st') == Overlay(Current(st), tx)
  {
    CommitKeepsInv(st, tx);
    CurrentIsOverlay(st);
    CurrentIsOverlay(CommitStep(st, tx));
    OverlayConcat(st.base, st.wal.live, tx);
  }

  // A commit only takes leftover frames away.
  lemma SlotsAfterCommit(w: Wal, tx: seq<Frame>, salt: Salt)
    requires AllSalt(tx, w.salt) && AllSalt(w.live, w.salt) && salt != w.salt
    ensures LeftOver(Wal(w.salt, w.live + tx, Left(w.rest, |tx|)).Slots(), w.Slots(), salt)
  {
  }

  // `rest` is nothing, or what overwriting the first n slots leaves of the file.
  ghost predicate Leaves(slots: seq<Frame>, n: nat, rest: seq<Frame>) {
    rest == [] || (n <= |slots| && rest == slots[n..])
  }

  lemma FreshWalOk(base: Image, salt: Salt, tx: seq<Frame>, rest: seq<Frame>)
    requires Commits(|base|, salt, tx)
    requires forall i :: 0 <= i < |rest| ==> rest[i].salt != salt
    ensures WalOk(base, 0, Wal(salt, tx, rest))
  {
    assert Grown(|base|, []) by {
      assert forall p: nat :: LastData([], p) == None;
    }
    GrownAppend(|base|, [], tx);
    assert [] + tx == tx && tx[..0] == [];
  }

  // Frames that the log does not cover make their pages stale.
  lemma CoversBehind(st: State)
    requires Inv(st) && st.synced
    ensures Covers(Overlay(st.base, st.wal.live), Replay(st.log), st.stale + PagesOf(Missed(st)))
  {
    var live, last := st.wal.live, st.log[|st.log| - 1];
    var n := last.End();
    var copied, missed := Overlay(st.base, live[..n]), live[n..];
    assert Missed(st) == missed;
    OverlaySplit(st.base, live, n);
    GrownPart(|st.base|, live, n);
    forall p: nat | 1 <= p <= |Overlay(copied, missed)| && p !in st.stale + PagesOf(missed)
      ensures SamePage(Overlay(copied, missed), Replay(st.log), p)
    {
      LastDataInPages(missed, p);
      assert p <= |copied|;
      assert SamePage(copied, Replay(st.log), p);
      assert missed != [] ==> Overlay(copied, missed)[p - 1] == PageAfter(copied, RunDelta(missed), p);
    }
  }

  lemma ResetLeavesLog(st: State, salt: Salt, tx: seq<Frame>, rest: seq<Frame>, toEnd: bool, stale: set<nat>)
    requires Inv(st) && st.synced && salt !in st.used && tx != [] && AllSalt(tx, salt)
    requires Leaves(st.wal.Slots(), |tx|, rest)
    requires toEnd || rest != [] ==> Covers(Overlay(st.base, st.wal.live), Replay(st.log), stale)
    ensures AfterReset(Overlay(st.base, st.wal.live), Wal(salt, tx, rest), st.log, st.log[|st.log| - 1], toEnd, stale)
  {
    var slots, slots', last := st.wal.Slots(), tx + rest, st.log[|st.log| - 1];
    assert LeftOver(slots', slots, last.salt);
    if HasSalt(slots', last.salt) {
      var i :| 0 <= i < |slots'| && slots'[i].salt == last.salt;
      assert |tx| <= i && rest != [];
    }
    if 0 < last.End() <= |slots'| && slots'[last.End() - 1].salt == last.salt {
      assert slots'[last.End() - 1] == slots[last.End() - 1] == st.wal.live[last.End() - 1];
    }
  }

  lemma SlotSaltsKnown(st: State, rest: seq<Frame>, n: nat)
    requires Inv(st) && Leaves(st.wal.Slots(), n, rest)
    ensures forall i :: 0 <= i < |rest| ==> rest[i].salt in st.used
  {
    forall i | 0 <= i < |rest| ensures rest[i].salt in st.used {
      assert rest[i] == st.wal.Slots()[n + i];
    }
  }

  lemma ResetKeepsInv(st: State, salt: Salt, tx: seq<Frame>, rest: seq<Frame>, toEnd: bool, stale: set<nat>)
    requires Inv(st) && st.synced && salt !in st.used && Commits(|Current(st)|, salt, tx)
    requires Leaves(st.wal.Slots(), |tx|, rest)
    requires toEnd || rest != [] ==> Covers(Overlay(st.base, st.wal.live), Replay(st.log), stale)
    ensures Inv(st.(base := Current(st), backfilled := 0, wal := Wal(salt, tx, rest), syncedToWalEnd := toEnd,
                    synced := false, used := st.used + {salt}, stale := stale))
  {
    SlotSaltsKnown(st, rest, |tx|);
    FreshWalOk(Current(st), salt, tx, rest);
    ResetLeavesLog(st, salt, tx, rest, toEnd, stale);
    CurrentIsOverlay(st);
  }

  // The flag survives the re-check only when everything committed has been copied.
  lemma FlagMeansCopied(st: State)
    requires Inv(st) && st.synced && st.lastSynced == Some(|st.wal.Slots()|)
    ensures FullyCopied(st) && Missed(st) == []
  {
  }

  lemma TruncateKeepsInv(st: State, salt: Salt, tx: seq<Frame>)
    requires Inv(st) && Enabled(st, Truncate(salt, tx))
    ensures Inv(TruncateStep(st, salt, tx))
  {
    var toEnd := st.syncedToWalEnd && st.lastSynced == Some(|st.wal.Slots()|);
    if toEnd {
      FlagMeansCopied(st);
      CoversBehind(st);
      assert st.stale + PagesOf([]) == st.stale;
    }
    ResetKeepsInv(st, salt, tx, [], toEnd, st.stale);
  }

  lemma RestartKeepsInv(st: State, salt: Salt, tx: seq<Frame>)
    requires Inv(st) && Enabled(st, Restart(salt, tx))
    ensures Inv(RestartStep(st, salt, tx))
  {
    var slots := st.wal.Slots();
    CoversBehind(st);
    ResetKeepsInv(st, salt, tx, Left(slots, |tx|),
                  st.syncedToWalEnd && st.lastSynced == Some(|slots|), st.stale + PagesOf(Missed(st)));
  }

  // Frames of an open transaction bring no old salt back.
  lemma NoNewSalt(w: Wal, rest: seq<Frame>, salt: Salt)
    requires WritesAhead(w, rest) && salt != w.salt
    ensures LeftOver(w.(rest := rest).Slots(), w.Slots(), salt)
    ensures HasSalt(w.(rest := rest).Slots(), salt) ==> HasSalt(w.Slots(), salt)
  {
    var slots, slots' := w.Slots(), w.(rest := rest).Slots();
    forall i | 0 <= i < |slots'| && slots'[i].salt == salt ensures i < |slots| && slots[i] == slots'[i] {
      if i >= |w.live| {
        assert slots'[i] == rest[i - |w.live|];
      }
    }
    if HasSalt(slots', salt) {
      var i :| 0 <= i < |slots'| && slots'[i].salt == salt;
      assert slots[i].salt == salt;
    }
  }

  lemma WriteAheadKeepsInv(st: State, rest: seq<Frame>)
    requires Inv(st) && WritesAhead(st.wal, rest)
    ensures Inv(st.(wal := st.wal.(rest := rest)))
  {
    var w, w' := st.wal, st.wal.(rest := rest);
    if st.log != [] && st.log[|st.log| - 1].salt != w.salt {
      var last := st.log[|st.log| - 1];
      NoNewSalt(w, rest, last.salt);
      AfterResetStays(st.base, w, w', st.log, last, st.syncedToWalEnd, st.stale);
    }
  }

  lemma StepKeepsInv(st: State, step: Step)
    requires Inv(st) && Enabled(st, step)
    ensures Inv(Next(st, step))
  {
    match step
    case Commit(tx) => CommitKeepsInv(st, tx);
    case WriteAhead(rest) => WriteAheadKeepsInv(st, rest);
    case Backfill(n) =>
    case Sync => SyncKeepsInv(st);
    case Truncate(salt, tx) => TruncateKeepsInv(st, salt, tx);
    case Restart(salt, tx) => RestartKeepsInv(st, salt, tx);
    case Reopen =>
  }

  // --- Whole runs -----------------------------------------------------------------------------

  // `run` is a run of the protocol: it starts with nothing copied and every state follows from
  // the one before it by an enabled step.
  ghost predicate IsRun(run: seq<State>, steps: seq<Step>) {
    && |run| == |steps| + 1 && Init(run[0])
    && forall i {:trigger steps[i]} :: 0 <= i < |steps| ==>
         Enabled(run[i], steps[i]) && run[i + 1] == Next(run[i], steps[i])
  }

  lemma {:induction false} RunKeepsInv(run: seq<State>, steps: seq<Step>, i: nat)
    requires IsRun(run, steps) && i < |run|
    ensures Inv(run[i])
  {
    if i > 0 {
      RunKeepsInv(run, steps, i - 1);
      assert Enabled(run[i - 1], steps[i - 1]);
      StepKeepsInv(run[i - 1], steps[i - 1]);
    }
  }

  // A state that some run leads to.
  ghost predicate Reachable(st: State) {
    exists run, steps :: IsRun(run, steps) && run[|run| - 1] == st
  }

  lemma InitIsReachable(st: State)
    requires Init(st)
    ensures Reachable(st)
  {
    assert IsRun([st], []);
  }

  lemma ReachableStep(st: State, step: Step)
    requires Reachable(st) && Enabled(st, step)
    ensures Reachable(Next(st, step))
  {
    var run, steps :| IsRun(run, steps) && run[|run| - 1] == st;
    assert IsRun(run + [Next(st, step)], steps + [step]);
  }

  lemma ReachableInv(st: State)
    requires Reachable(st)
    ensures Inv(st)
  {
    var run, steps :| IsRun(run, steps) && run[|run| - 1] == st;
    RunKeepsInv(run, steps, |run| - 1);
  }

  // In every run, after each completed sync, replaying all level-0 files gives the database file
  // overlaid with the committed WAL on all pages that are not stale; it gives exactly that if and
  // only if the stale pages agree as well.
  lemma EverySyncIsCurrent(run: seq<State>, steps: seq<Step>, i: nat)
    requires IsRun(run, steps) && i < |steps| && steps[i] == Sync
    ensures run[i + 1].backfilled <= |run[i + 1].wal.live|
    ensures var now, replayed, stale := Current(run[i + 1]), Replay(run[i + 1].log), run[i + 1].stale;
            && |replayed| == |now| && Covers(now, replayed, stale)
            && (replayed == now <==> forall p: nat :: p in stale && 1 <= p <= |now| ==> SamePage(now, replayed, p))
  {
    RunKeepsInv(run, steps, i);
    assert Enabled(run[i], steps[i]);
    SyncIsCurrent(run[i]);
    EqualIffStaleEqual(Current(run[i + 1]), Replay(run[i + 1].log), run[i + 1].stale);
  }

  // No reset before step n overwrote frames that had not been copied.
  ghost predicate NothingMissed(run: seq<State>, steps: seq<Step>, n: nat)
    requires n <= |steps| <= |run|
  {
    forall j :: 0 <= j < n && steps[j].Restart? ==> FullyCopied(run[j])
  }

  lemma NothingBecomesStale(st: State, step: Step)
    requires Inv(st) && Enabled(st, step) && (step.Restart? ==> FullyCopied(st)) && st.stale == {}
    ensures Next(st, step).stale == {}
  {
    if step.Restart? {
      assert Missed(st) == [];
    }
  }

  // Pages become stale only when a reset overwrites frames that had not been copied.
  lemma {:induction false} NothingIsStale(run: seq<State>, steps: seq<Step>, i: nat)
    requires IsRun(run, steps) && i < |run| && NothingMissed(run, steps, i)
    ensures run[i].stale == {}
    decreases i
  {
    if i > 0 {
      NothingIsStale(run, steps, i - 1);
      RunKeepsInv(run, steps, i - 1);
      assert Enabled(run[i - 1], steps[i - 1]);
      NothingBecomesStale(run[i - 1], steps[i - 1]);
    }
  }

  // So in every run in which that never happened, every sync is exact, also when commits land
  // between the sync of a truncating checkpoint and its re-check.
  lemma EverySyncIsExact(run: seq<State>, steps: seq<Step>, i: nat)
    requires IsRun(run, steps) && i < |steps| && steps[i] == Sync && NothingMissed(run, steps, i)
    ensures run[i + 1].backfilled <= |run[i + 1].wal.live|
    ensures Replay(run[i + 1].log) == Current(run[i + 1])
  {
    NothingIsStale(run, steps, i);
    RunKeepsInv(run, steps, i);
    assert Enabled(run[i], steps[i]);
    SyncIsExact(run[i]);
  }

  // In every run, once the epoch has its first file, every further sync in the epoch is incremental.
  lemma NoSnapshotWithinEpoch(run: seq<State>, steps: seq<Step>, i: nat)
    requires IsRun(run, steps) && i < |run| && run[i].log != []
    requires run[i].log[|run[i].log| - 1].salt == run[i].wal.salt
    ensures !Verify(run[i]).0.snapshotting
  {
    RunKeepsInv(run, steps, i);
    VerifyInEpoch(run[i]);
  }
}
