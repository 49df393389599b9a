/**
 The database object that runs the protocol: its fields are updated in place by verify, sync and
 checkpoint. Each method is proved against the state machine, and a completed sync leaves a log
 that replays to the current database.
 */
module SyncDatabase {
  import opened Pages
  import opened FrameLog
  import opened WalOverlay
  import opened WalSync
  import opened WalSyncProof

  class Database {
    var file: Image
    var wal: Wal
    var log: seq<L0File>
    var lastSynced: Option<nat>
    var syncedToWalEnd: bool
    ghost var base: Image
    ghost var backfilled: nat
    ghost var synced: bool
    ghost var used: set<Salt>
    ghost var stale: set<nat>

    ghost function Abs(): State
      reads this
    {
      State(base, backfilled, wal, log, lastSynced, syncedToWalEnd, synced, used, stale)
    }

    ghost predicate Valid()
      reads this
    {
      Reachable(Abs()) && backfilled <= |wal.live| && file == DbFile(Abs())
    }

    constructor (file: Image, wal: Wal, ghost base: Image, ghost backfilled: nat, ghost used: set<Salt>)
      requires Init(State(base, backfilled, wal, [], None, false, false, used, {}))
      requires file == Overlay(base, wal.live[..backfilled])
      ensures Valid() && Abs() == State(base, backfilled, wal, [], None, false, false, used, {})
    {
      this.file, this.wal, this.base, this.backfilled, this.used := file, wal, base, backfilled, used;
      log, lastSynced, syncedToWalEnd, synced, stale := [], None, false, false, {};
      new;
      InitIsReachable(Abs());
    }

    // Look for the last copied frame among the pages of the last LTX file.
    method MatchLastPage(last: L0File) returns (found: bool)
      requires 0 < last.End() <= |wal.Slots()|
      ensures found == LastPageMatch(wal.Slots(), last)
    {
      var f := wal.Slots()[last.End() - 1];
      if f.salt != last.salt {
        return false;
      }
      var pgnos := last.delta.pages.Keys;
      while pgnos != {}
        invariant pgnos <= last.delta.pages.Keys
        invariant HoldsPage(last.delta, f) ==> f.pgno in pgnos
        decreases pgnos
      {
        var pgno :| pgno in pgnos;
        pgnos := pgnos - {pgno};
        if f.pgno != pgno || last.delta.pages[pgno] != f.data {
          continue;
        }
        return true;
      }
      return false;
    }

    // Collect the salts of the frame slots until a known one turns up.
    method DetectFullCheckpoint(current: Salt, known: Salt) returns (detected: bool)
      ensures detected == FullCheckpointDetected(wal.Slots(), current, known)
    {
      var slots, salts: set<Salt>, i := wal.Slots(), {}, 0;
      while i < |slots| && slots[i].salt != known
        invariant 0 <= i <= |slots|
        invariant SaltsUntil(slots, known) == salts + SaltsUntil(slots[i..], known)
      {
        salts := salts + {slots[i].salt};
        i := i + 1;
      }
      if i < |slots| {
        salts := salts + {known};
      }
      detected := salts - {current, known} != {};
    }

    method VerifyWal() returns (info: Info)
      requires Valid()
      modifies this`syncedToWalEnd
      ensures (info, syncedToWalEnd) == Verify(old(Abs()))
    {
      if log == [] {
        return Info(0, wal.salt, true);
      }
      var last := log[|log| - 1];
      var off := last.End();
      if off > |wal.Slots()| {
        if syncedToWalEnd {
          syncedToWalEnd := false;
          return Info(0, wal.salt, false);
        }
        return Info(off, last.salt, true);
      }
      var saltMatch := wal.salt == last.salt;
      if off <= 1 {
        return Info(off, last.salt, !saltMatch);
      }
      var found := MatchLastPage(last);
      if !found {
        return Info(off, last.salt, true);
      }
      if !saltMatch {
        var detected := DetectFullCheckpoint(wal.salt, last.salt);
        return Info(0, wal.salt, detected);
      }
      return Info(off, last.salt, false);
    }

    // Every page of the database, from the WAL if it is there, otherwise from the file.
    method WriteFromDb(commit: nat, pages: map<nat, Page>) returns (m: map<nat, Page>)
      ensures m == map p | 1 <= p <= commit ::
                     if p in pages then pages[p] else if p <= |file| then file[p - 1] else HOLE
    {
      m := map[];
      var pgno := 1;
      while pgno <= commit
        invariant 1 <= pgno <= commit + 1
        invariant m == map p | 1 <= p < pgno ::
                         if p in pages then pages[p] else if p <= |file| then file[p - 1] else HOLE
      {
        if pgno in pages {
          m := m[pgno := pages[pgno]];
        } else {
          m := m[pgno := if pgno <= |file| then file[pgno - 1] else HOLE];
        }
        pgno := pgno + 1;
      }
    }

    // The page part of a new LTX file.
    method Encode(info: Info, fs: seq<Frame>) returns (d: Delta)
      requires !info.snapshotting ==> fs != []
      ensures d == DeltaFor(file, info, fs)
    {
      var pages := LatestPages(fs);
      var commit, m := SizeAfter(|file|, fs), map[];
      if info.snapshotting {
        m := WriteFromDb(commit, pages);
      } else {
        m := map p | p in pages && 1 <= p <= commit :: pages[p];
      }
      d := Delta(commit, m);
      assert d.pages == DeltaFor(file, info, fs).pages;
    }

    // Verify, then copy what the WAL has gained into a new LTX file.
    method VerifyAndCopy() returns (copied: bool)
      requires Valid()
      modifies this`log, this`lastSynced, this`syncedToWalEnd, this`synced, this`stale
      ensures Abs() == SyncStep(old(Abs()))
      ensures copied <==> log != old(log)
    {
      var info := VerifyWal();
      var src := OpenWal(wal, info);
      var fs := CommittedOf(src);
      synced := true;
      if !info.snapshotting && fs == [] {
        return false;
      }
      var delta := Encode(info, fs);
      var entry := L0File(delta, src.offset, |fs|, src.salt);
      log := log + [entry];
      lastSynced, syncedToWalEnd := Some(entry.End()), entry.End() == |wal.Slots()|;
      stale := if info.snapshotting then {} else stale - PagesOf(fs);
      return true;
    }

    // A completed sync leaves a log that replays to the file overlaid with the committed WAL, except
    // for stale pages.
    method Sync() returns (copied: bool)
      requires Valid()
      modifies this`log, this`lastSynced, this`syncedToWalEnd, this`synced, this`stale
      ensures Valid() && Abs() == SyncStep(old(Abs()))
      ensures copied <==> log != old(log)
      ensures |Replay(log)| == |Overlay(file, wal.live)| && Covers(Overlay(file, wal.live), Replay(log), stale)
      ensures stale <= old(stale) && (stale == {} ==> Replay(log) == Overlay(file, wal.live))
    {
      SyncIsSafe(Abs());
      copied := VerifyAndCopy();
    }

    // The part of a checkpoint between its sync and the reset: the flag survives only if no commit
    // would be lost by resetting the WAL now.
    method Recheck()
      requires Valid() && synced
      modifies this`syncedToWalEnd
      ensures syncedToWalEnd == (old(syncedToWalEnd) && lastSynced == Some(|wal.Slots()|))
      ensures syncedToWalEnd ==> FullyCopied(Abs()) && Covers(Overlay(file, wal.live), Replay(log), stale)
    {
      if lastSynced != Some(|wal.Slots()|) {
        syncedToWalEnd := false;
      } else {
        FlagIsSafe(Abs());
      }
    }

    // Re-check, move everything into the database file, and start a new epoch in which the WAL holds
    // `tx` followed by `rest`.
    method Reset(salt: Salt, tx: seq<Frame>, rest: seq<Frame>, ghost lost: set<nat>)
      requires Valid() && synced
      modifies this
      ensures file == old(Current(Abs())) && log == old(log)
      ensures Abs() == old(Abs()).(base := file, backfilled := 0, wal := Wal(salt, tx, rest),
                                   syncedToWalEnd := old(syncedToWalEnd) && lastSynced == Some(|old(wal.Slots())|),
                                   synced := false, used := old(used) + {salt}, stale := old(stale) + lost)
    {
      Recheck();
      file := Overlay(file, wal.live);
      base, backfilled, wal, synced, used := file, 0, Wal(salt, tx, rest), false, used + {salt};
      stale := stale + lost;
    }

    // TRUNCATE: commits may have landed since the sync of this checkpoint.
    method Truncate(salt: Salt, tx: seq<Frame>)
      requires Valid() && Enabled(Abs(), WalSync.Truncate(salt, tx))
      modifies this
      ensures Valid() && Abs() == TruncateStep(old(Abs()), salt, tx)
      ensures Overlay(file, wal.live) == Overlay(old(Current(Abs())), tx) && log == old(log)
    {
      ReachableStep(Abs(), WalSync.Truncate(salt, tx));
      Reset(salt, tx, [], {});
      assert tx[..0] == [];
    }

    // PASSIVE, FULL or RESTART: the same with the WAL file left in place. Frames that landed since the
    // sync are overwritten, and their pages become stale.
    method Restart(salt: Salt, tx: seq<Frame>)
      requires Valid() && Enabled(Abs(), WalSync.Restart(salt, tx))
      modifies this
      ensures Valid() && Abs() == RestartStep(old(Abs()), salt, tx)
      ensures Overlay(file, wal.live) == Overlay(old(Current(Abs())), tx) && log == old(log)
    {
      ReachableStep(Abs(), WalSync.Restart(salt, tx));
      Reset(salt, tx, Left(wal.Slots(), |tx|), PagesOf(Missed(Abs())));
      assert tx[..0] == [];
    }

    // The application commits a transaction.
    method Commit(tx: seq<Frame>)
      requires Valid() && Enabled(Abs(), WalSync.Commit(tx))
      modifies this`wal
      ensures Valid() && Abs() == CommitStep(old(Abs()), tx)
      ensures Overlay(file, wal.live) == Overlay(old(Current(Abs())), tx)
    {
      ReachableStep(Abs(), WalSync.Commit(tx));
      CommitIsSeen(Abs(), tx);
      assert (wal.live + tx)[..backfilled] == wal.live[..backfilled];
      wal := Wal(wal.salt, wal.live + tx, Left(wal.rest, |tx|));
    }
  }

  lemma SyncIsSafe(st: State)
    requires Reachable(st)
    ensures st.backfilled <= |st.wal.live|
    ensures var st' := SyncStep(st);
            && Reachable(st') && |Replay(st'.log)| == |Current(st)| && Covers(Current(st), Replay(st'.log), st'.stale)
            && st'.stale <= st.stale && (st'.stale == {} ==> Replay(st'.log) == Current(st))
  {
    ReachableInv(st);
    ReachableStep(st, WalSync.Sync);
    SyncIsCurrent(st);
    EqualIffStaleEqual(Current(st), Replay(SyncStep(st).log), SyncStep(st).stale);
  }

  lemma FlagIsSafe(st: State)
    requires Reachable(st) && st.synced && st.lastSynced == Some(|st.wal.Slots()|)
    ensures st.backfilled <= |st.wal.live| && FullyCopied(st) && Covers(Current(st), Replay(st.log), st.stale)
  {
    ReachableInv(st);
    FlagMeansCopied(st);
    CoversBehind(st);
    CurrentIsOverlay(st);
    assert st.stale + PagesOf([]) == st.stale;
  }

  // What a reader sees after a commit.
  lemma CommitIsSeen(st: State, tx: seq<Frame>)
    requires Reachable(st) && Enabled(st, WalSync.Commit(tx))
    ensures Overlay(DbFile(st), st.wal.live + tx) == Overlay(Current(st), tx)
  {
    ReachableInv(st);
    CurrentAfterCommit(st, tx);
    assert (st.wal.live + tx)[..st.backfilled] == st.wal.live[..st.backfilled];
  }

  // The newest contents of every page in the frames.
  method LatestPages(fs: seq<Frame>) returns (pages: map<nat, Page>)
    ensures forall p: nat :: p in pages <==> LastData(fs, p).Some?
    ensures forall p: nat :: p in pages ==> pages[p] == LastData(fs, p).value
  {
    pages := map[];
    for i := 0 to |fs|
      invariant forall p: nat :: p in pages <==> LastData(fs[..i], p).Some?
      invariant forall p: nat :: p in pages ==> pages[p] == LastData(fs[..i], p).value
    {
      assert fs[..i + 1][..i] == fs[..i];
      pages := pages[fs[i].pgno := fs[i].data];
    }
    assert fs[..|fs|] == fs;
  }
}
