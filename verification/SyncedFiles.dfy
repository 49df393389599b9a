/**
 What the file of a sync holds after the WAL was reset: the pages of the new frames alone when the reset
 was expected, every page of the database otherwise. It is said of the file that is written, over the
 steps of the machine.
 */
module SyncedFiles {
  import opened Pages
  import opened FrameLog
  import opened WalOverlay
  import opened WalSync
  import opened WalSyncProof
  import opened WalRestart

  // --- The flag -------------------------------------------------------------------------------

  // Within an epoch, a last position at the end of the file comes with the flag.
  ghost predicate FlagSet(st: State) {
    st.log != [] && st.log[|st.log| - 1].salt == st.wal.salt && st.lastSynced == Some(|st.wal.Slots()|) ==>
      st.syncedToWalEnd
  }

  lemma FlagAfterSync(st: State)
    requires Inv(st) && FlagSet(st)
    ensures FlagSet(SyncStep(st))
  {
    SyncFrame(st);
    if SyncStep(st).log == st.log {
      VerifyInEpoch(st);
    }
  }

  lemma FlagStep(st: State, step: Step)
    requires Inv(st) && Enabled(st, step) && FlagSet(st)
    ensures FlagSet(Next(st, step))
  {
    match step
    case Sync => FlagAfterSync(st);
    case _ =>
  }

  lemma {:induction false} FlagInRun(run: seq<State>, steps: seq<Step>, i: nat)
    requires IsRun(run, steps) && i < |run|
    ensures FlagSet(run[i])
    decreases i
  {
    if i > 0 {
      FlagInRun(run, steps, i - 1);
      RunKeepsInv(run, steps, i - 1);
      FlagStep(run[i - 1], steps[i - 1]);
    }
  }

  lemma ReachableFlag(st: State)
    requires Reachable(st)
    ensures FlagSet(st)
  {
    var run, steps :| IsRun(run, steps) && run[|run| - 1] == st;
    FlagInRun(run, steps, |run| - 1);
  }

  lemma {:induction false} ReachableCommits(st: State, txs: seq<seq<Frame>>)
    requires Reachable(st) && AllEnabled(st, txs)
    ensures Reachable(CommitAll(st, txs))
    decreases |txs|
  {
    if txs != [] {
      var n := |txs| - 1;
      ReachableCommits(st, txs[..n]);
      ReachableStep(CommitAll(st, txs[..n]), Commit(txs[n]));
    }
  }

  lemma ReachableReset(st: State, step: Step, txs: seq<seq<Frame>>)
    requires Reachable(st) && Enabled(st, step) && AllEnabled(Next(st, step), txs)
    ensures Inv(CommitAll(Next(st, step), txs))
  {
    ReachableStep(st, step);
    ReachableCommits(Next(st, step), txs);
    ReachableInv(CommitAll(Next(st, step), txs));
  }

  // --- The file of a sync ---------------------------------------------------------------------

  // The pages within the size that occur in the frames, and no others.
  ghost predicate HoldsFrames(d: Delta, fs: seq<Frame>) {
    forall p: nat :: p in d.pages <==> 1 <= p <= d.commit && p in PagesOf(fs)
  }

  // Every page of the database.
  ghost predicate HoldsAll(d: Delta) {
    forall p: nat :: p in d.pages <==> 1 <= p <= d.commit
  }

  // Only pages that occur in the frames.
  ghost predicate Incremental(d: Delta, fs: seq<Frame>) {
    forall p: nat :: p in d.pages ==> p in PagesOf(fs)
  }

  // The frames write every page of a database of that size.
  ghost predicate WritesAll(size: nat, fs: seq<Frame>) {
    forall p: nat :: 1 <= p <= size ==> p in PagesOf(fs)
  }

  lemma RunHoldsFrames(fs: seq<Frame>)
    requires fs != []
    ensures HoldsFrames(RunDelta(fs), fs)
  {
    forall p: nat ensures LastData(fs, p).Some? <==> p in PagesOf(fs) {
      LastDataInPages(fs, p);
    }
  }

  // The one file that was added.
  ghost predicate Adds(log: seq<L0File>, log': seq<L0File>, file: L0File) {
    log' == log + [file]
  }

  // The first sync after a reset writes one file, from the frames of the new epoch alone or in full.
  lemma FirstFile(st: State) returns (file: L0File)
    requires Inv(st) && st.log != [] && st.log[|st.log| - 1].salt != st.wal.salt
    ensures Adds(st.log, SyncStep(st).log, file) && file.delta.commit == |Current(st)|
    ensures if Verify(st).0.snapshotting then HoldsAll(file.delta) else HoldsFrames(file.delta, st.wal.live)
  {
    var (info, _) := Verify(st);
    var src := OpenWal(st.wal, info);
    VerifyAfterReset(st);
    SyncCopies(st);
    var fs := CommittedOf(src);
    assert fs == st.wal.live[0..] == st.wal.live;
    CurrentIsOverlay(st);
    file := L0File(DeltaFor(DbFile(st), info, fs), src.offset, |fs|, src.salt);
    RunHoldsFrames(fs);
  }

  // The very first sync copies every page.
  lemma InitialFile(st: State) returns (file: L0File)
    requires Reachable(st) && st.log == []
    ensures Enabled(st, Sync) && Adds([], Next(st, Sync).log, file)
    ensures HoldsAll(file.delta) && file.delta.commit == |Current(st)|
  {
    ReachableInv(st);
    SyncCopies(st);
    var (info, _) := Verify(st);
    var src := OpenWal(st.wal, info);
    var fs := CommittedOf(src);
    assert st.wal.live[0..] == st.wal.live;
    file := L0File(DeltaFor(DbFile(st), info, fs), src.offset, |fs|, src.salt);
  }

  // Within an epoch a sync copies the frames behind the last file, and writes none if there are none.
  lemma EpochFile(st: State) returns (file: L0File)
    requires Reachable(st) && st.log != [] && st.log[|st.log| - 1].salt == st.wal.salt
    ensures Enabled(st, Sync) && CopiedEnd(st) <= |st.wal.live|
    ensures var behind := st.wal.live[CopiedEnd(st)..];
            if behind == [] then Next(st, Sync).log == st.log
            else Adds(st.log, Next(st, Sync).log, file) && HoldsFrames(file.delta, behind)
  {
    ReachableInv(st);
    VerifyInEpoch(st);
    SyncCopies(st);
    var (info, _) := Verify(st);
    var src := OpenWal(st.wal, info);
    var fs := CommittedOf(src);
    EpochSource(st);
    file := L0File(Delta(0, map[]), src.offset, |fs|, src.salt);
    if fs != [] {
      file := L0File(RunDelta(fs), src.offset, |fs|, src.salt);
      RunHoldsFrames(fs);
    }
  }

  lemma EpochSource(st: State)
    requires Inv(st) && st.log != [] && st.log[|st.log| - 1].salt == st.wal.salt
    ensures CommittedOf(OpenWal(st.wal, Verify(st).0)) == st.wal.live[CopiedEnd(st)..]
  {
    VerifyInEpoch(st);
    SyncCopies(st);
    var off := CopiedEnd(st);
    if off > 0 {
      assert st.wal.Slots()[off - 1] == st.wal.live[off - 1];
    }
  }

  // --- A checkpoint that leaves the file in place ---------------------------------------------

  // After a reset in place, any further transactions and a sync: the new file holds every page if at most
  // one frame was copied or the last copied frame was overwritten, and the pages written since alone
  // otherwise.
  lemma RestartedFile(st: State, salt: Salt, tx: seq<Frame>, txs: seq<seq<Frame>>) returns (file: L0File)
    requires Reachable(st) && Enabled(st, Restart(salt, tx)) && AllEnabled(Next(st, Restart(salt, tx)), txs)
    ensures st.log != []
    ensures var st', fs := CommitAll(Next(st, Restart(salt, tx)), txs), tx + Flat(txs);
            && Enabled(st', Sync) && Adds(st.log, Next(st', Sync).log, file)
            && file.delta.commit == |Current(st')|
            && (if CopiedEnd(st) <= 1 || CopiedEnd(st) <= |fs| then HoldsAll(file.delta)
                else HoldsFrames(file.delta, fs))
  {
    var st', fs := CommitAll(Next(st, Restart(salt, tx)), txs), tx + Flat(txs);
    ReachableInv(st);
    RestartThenCommits(st, salt, tx, txs);
    ReachableReset(st, Restart(salt, tx), txs);
    RestartDecision(st, salt, fs);
    file := FirstFile(st');
  }

  // --- A truncating checkpoint ----------------------------------------------------------------

  lemma TruncateThenCommit(st: State, salt: Salt, fs: seq<Frame>, tx: seq<Frame>)
    requires st.backfilled <= |st.wal.live| && CommitsRun(|Current(st)|, salt, fs)
    requires Enabled(TruncateStep(st, salt, fs), Commit(tx))
    ensures CommitStep(TruncateStep(st, salt, fs), tx) == TruncateStep(st, salt, fs + tx)
    ensures CommitsRun(|Current(st)|, salt, fs + tx)
  {
    assert fs[..0] == [];
    assert |Current(TruncateStep(st, salt, fs))| == SizeAfter(|Current(st)|, fs);
    LongerRun(|Current(st)|, salt, fs, tx);
  }

  lemma {:induction false} TruncateThenCommits(st: State, salt: Salt, tx: seq<Frame>, txs: seq<seq<Frame>>)
    requires Enabled(st, Truncate(salt, tx)) && AllEnabled(TruncateStep(st, salt, tx), txs)
    ensures CommitAll(TruncateStep(st, salt, tx), txs) == TruncateStep(st, salt, tx + Flat(txs))
    ensures CommitsRun(|Current(st)|, salt, tx + Flat(txs))
    decreases |txs|
  {
    if txs == [] {
      OneTransaction(|Current(st)|, salt, tx);
      assert tx + [] == tx;
    } else {
      var n := |txs| - 1;
      TruncateThenCommits(st, salt, tx, txs[..n]);
      TruncateThenCommit(st, salt, tx + Flat(txs[..n]), txs[n]);
      Regroup(tx, Flat(txs[..n]), txs[n]);
    }
  }

  // The reset was expected: everything up to the end of the file was copied by this process, and less than
  // that has been written since.
  predicate Expected(st: State, written: nat) {
    st.lastSynced == Some(|st.wal.Slots()|) && written < |st.wal.Slots()|
  }

  lemma TruncateDecision(st: State, salt: Salt, fs: seq<Frame>)
    requires Inv(st) && FlagSet(st) && st.synced && salt !in st.used && fs != [] && AllSalt(fs, salt)
    ensures Verify(TruncateStep(st, salt, fs)).0.snapshotting == !Expected(st, |fs|)
  {
    var st', last := TruncateStep(st, salt, fs), st.log[|st.log| - 1];
    assert st'.wal.Slots() == fs && last.salt in st.used;
  }

  // After a truncating checkpoint, any further transactions and a sync: the new file holds the pages
  // written since alone if the truncation was expected, and every page otherwise.
  lemma TruncatedFile(st: State, salt: Salt, tx: seq<Frame>, txs: seq<seq<Frame>>) returns (file: L0File)
    requires Reachable(st) && Enabled(st, Truncate(salt, tx)) && AllEnabled(Next(st, Truncate(salt, tx)), txs)
    ensures var st', fs := CommitAll(Next(st, Truncate(salt, tx)), txs), tx + Flat(txs);
            && Enabled(st', Sync) && Adds(st.log, Next(st', Sync).log, file)
            && file.delta.commit == |Current(st')|
            && (if Expected(st, |fs|) then HoldsFrames(file.delta, fs) else HoldsAll(file.delta))
            && (Incremental(file.delta, fs) <==> Expected(st, |fs|) || WritesAll(file.delta.commit, fs))
  {
    var st', fs := CommitAll(Next(st, Truncate(salt, tx)), txs), tx + Flat(txs);
    ReachableInv(st);
    ReachableFlag(st);
    TruncateThenCommits(st, salt, tx, txs);
    ReachableReset(st, Truncate(salt, tx), txs);
    TruncateDecision(st, salt, fs);
    file := FirstFile(st');
  }

  // The first checkpoint of a new process: if its sync finds nothing to copy, the process does not know the
  // end of the WAL, and a truncation is followed by a full copy, whatever the process before it knew.
  lemma ReopenedFile(st: State, salt: Salt, tx: seq<Frame>, txs: seq<seq<Frame>>) returns (file: L0File)
    requires Reachable(st) && Enabled(st, Reopen) && Next(Next(st, Reopen), Sync).log == st.log
    requires Enabled(Next(Next(st, Reopen), Sync), Truncate(salt, tx))
    requires AllEnabled(Next(Next(Next(st, Reopen), Sync), Truncate(salt, tx)), txs)
    ensures var st' := CommitAll(Next(Next(Next(st, Reopen), Sync), Truncate(salt, tx)), txs);
            Enabled(st', Sync) && Adds(st.log, Next(st', Sync).log, file) && HoldsAll(file.delta)
  {
    var anew := Next(st, Reopen);
    ReachableStep(st, Reopen);
    ReachableStep(anew, Sync);
    ReachableInv(anew);
    SyncFrame(anew);
    file := TruncatedFile(Next(anew, Sync), salt, tx, txs);
  }

  // A sync that writes a file sets the flag exactly when the file reaches the end of the WAL; one that
  // writes none changes it only if the WAL no longer reaches the copied end.
  lemma FlagOfSync(st: State)
    requires st.backfilled <= |st.wal.live|
    ensures var st' := Next(st, Sync);
            if st'.log != st.log then st'.syncedToWalEnd <==> CopiedEnd(st') == |st.wal.Slots()|
            else st.log != [] && (st'.syncedToWalEnd <==> st.syncedToWalEnd && CopiedEnd(st) <= |st.wal.Slots()|)
  {
  }

  // --- Pages that may be out of date ----------------------------------------------------------

  // The file of a step, if it writes one, does not hold page p.
  ghost predicate LeavesOut(st: State, st': State, p: nat) {
    st'.log != st.log ==> st'.log != [] && p !in st'.log[|st'.log| - 1].delta.pages
  }

  // The step overwrites an uncopied frame of page p.
  predicate Loses(st: State, step: Step, p: nat) {
    step.Restart? && p in PagesOf(Missed(st))
  }

  // If page p may be out of date after the step, the step lost it, or it was before and is not copied.
  ghost predicate StaleBecause(st: State, step: Step, st': State, p: nat) {
    p in st'.stale ==> Loses(st, step, p) || (p in st.stale && LeavesOut(st, st', p))
  }

  lemma StaleStep(st: State, step: Step, p: nat)
    requires Enabled(st, step)
    ensures StaleBecause(st, step, Next(st, step), p)
  {
    var fs := CommittedOf(OpenWal(st.wal, Verify(st).0));
    if step.Sync? && fs != [] {
      RunHoldsFrames(fs);
    }
  }

  lemma {:induction false} LastLoss(run: seq<State>, steps: seq<Step>, n: nat, p: nat) returns (i: nat)
    requires |run| == |steps| + 1 && n < |run| && run[0].stale == {} && p in run[n].stale
    requires forall k {:trigger steps[k]} :: 0 <= k < n ==> StaleBecause(run[k], steps[k], run[k + 1], p)
    ensures i < n && Loses(run[i], steps[i], p)
    ensures forall j {:trigger LeavesOut(run[j], run[j + 1], p)} :: i < j < n ==> LeavesOut(run[j], run[j + 1], p)
    decreases n
  {
    i := n - 1;
    if !Loses(run[n - 1], steps[n - 1], p) {
      i := LastLoss(run, steps, n - 1, p);
    }
  }

  // In every run, a page is marked as out of date only because a reset in place overwrote an uncopied frame
  // of it, and no file written since then holds it.
  lemma StaleSince(run: seq<State>, steps: seq<Step>, n: nat, p: nat) returns (i: nat)
    requires IsRun(run, steps) && n < |run| && p in run[n].stale
    ensures i < n && Loses(run[i], steps[i], p)
    ensures forall j {:trigger LeavesOut(run[j], run[j + 1], p)} :: i < j < n ==> LeavesOut(run[j], run[j + 1], p)
  {
    forall k {:trigger steps[k]} | 0 <= k < n ensures StaleBecause(run[k], steps[k], run[k + 1], p) {
      StaleStep(run[k], steps[k], p);
    }
    i := LastLoss(run, steps, n, p);
  }

  // --- A WAL that others have changed ---------------------------------------------------------

  // The frame at the position of the last copied one is not the one that was copied.
  predicate Replaced(slots: seq<Frame>, last: L0File)
    requires 0 < last.End() <= |slots|
  {
    var f := slots[last.End() - 1];
    f.salt != last.salt || f.pgno !in last.delta.pages || last.delta.pages[f.pgno] != f.data
  }

  // A frame of an epoch that is neither the current one nor the copied one, in front of all copied ones.
  ghost predicate ForeignAt(slots: seq<Frame>, current: Salt, known: Salt, i: nat) {
    i < |slots| && slots[i].salt != current && forall j :: 0 <= j <= i ==> slots[j].salt != known
  }

  ghost predicate Foreign(slots: seq<Frame>, current: Salt, known: Salt) {
    exists i: nat :: ForeignAt(slots, current, known, i)
  }

  lemma {:induction false} SaltIsRead(slots: seq<Frame>, until: Salt, i: nat)
    requires i < |slots| && forall j :: 0 <= j <= i ==> slots[j].salt != until
    ensures slots[i].salt in SaltsUntil(slots, until)
  {
    if i > 0 {
      SaltIsRead(slots[1..], until, i - 1);
    }
  }

  lemma {:induction false} ReadSaltOccurs(slots: seq<Frame>, until: Salt, s: Salt) returns (i: nat)
    requires s in SaltsUntil(slots, until) && s != until
    ensures i < |slots| && slots[i].salt == s && forall j :: 0 <= j <= i ==> slots[j].salt != until
  {
    i := 0;
    if slots[0].salt != s {
      var k := ReadSaltOccurs(slots[1..], until, s);
      i := k + 1;
      forall j | 0 <= j <= i ensures slots[j].salt != until {
        assert j > 0 ==> slots[j] == slots[1..][j - 1];
      }
    }
  }

  lemma DetectedIffForeign(slots: seq<Frame>, current: Salt, known: Salt)
    ensures FullCheckpointDetected(slots, current, known) <==> Foreign(slots, current, known)
  {
    if FullCheckpointDetected(slots, current, known) {
      var s :| s in SaltsUntil(slots, known) - {current, known};
      var i := ReadSaltOccurs(slots, known, s);
      assert ForeignAt(slots, current, known, i);
    }
    if Foreign(slots, current, known) {
      var i: nat :| ForeignAt(slots, current, known, i);
      SaltIsRead(slots, known, i);
      assert slots[i].salt in SaltsUntil(slots, known) - {current, known};
    }
  }

  // Whatever happened to the WAL and the log: while the position of the last copied frame is inside the
  // file, the next sync writes every page if and only if that frame was replaced or a frame of an unknown
  // epoch stands in front of the copied ones; otherwise it writes the pages it reads from the WAL.
  lemma SuspectFile(st: State) returns (file: L0File)
    requires st.backfilled <= |st.wal.live| && st.log != [] && 1 < CopiedEnd(st) <= |st.wal.Slots()|
    ensures var last, slots := st.log[|st.log| - 1], st.wal.Slots();
            var read := CommittedOf(OpenWal(st.wal, Verify(st).0));
            if Replaced(slots, last) || (last.salt != st.wal.salt && Foreign(slots, st.wal.salt, last.salt))
            then Adds(st.log, Next(st, Sync).log, file) && HoldsAll(file.delta)
            else if read == [] then Next(st, Sync).log == st.log
            else Adds(st.log, Next(st, Sync).log, file) && HoldsFrames(file.delta, read)
  {
    var last := st.log[|st.log| - 1];
    DetectedIffForeign(st.wal.Slots(), st.wal.salt, last.salt);
    file := last;
    if SyncStep(st).log != st.log {
      file := SyncStep(st).log[|st.log|];
      var fs := CommittedOf(OpenWal(st.wal, Verify(st).0));
      if fs != [] {
        RunHoldsFrames(fs);
      }
    }
  }
}
