/**
 The protocol that copies a WAL into level-0 LTX files, as a state machine.

 WAL offsets are counted in frames: offset 0 is the end of the WAL header. The application
 commits, writes frames of transactions still open and moves pages into the database file at any
 time; the WAL is reset only by a checkpoint of ours, and every reset picks fresh salts.
 */
module WalSync {
  import opened Pages
  import opened FrameLog
  import opened WalOverlay

  // `live` are the committed frames of the current epoch; `rest` is whatever else is in the file
  // behind them: frames of an open transaction, or frames left over from earlier epochs.
  datatype Wal = Wal(salt: Salt, live: seq<Frame>, rest: seq<Frame>) {
    function Slots(): seq<Frame> { live + rest }
  }

  // A level-0 LTX file with the part of its header that the protocol uses.
  datatype L0File = L0File(delta: Delta, offset: nat, size: nat, salt: Salt) {
    function End(): nat { offset + size }
  }

  // `base` is the database image when the WAL epoch began; the first `backfilled` frames have
  // been moved into the database file since. `lastSynced` is unknown until the first sync after a
  // start. `synced` says that a sync has completed since the last reset. `stale` are pages that may
  // be out of date in the log, because a reset overwrote frames that had not been copied.
  datatype State = State(
    base: Image, backfilled: nat, wal: Wal,
    log: seq<L0File>, lastSynced: Option<nat>, syncedToWalEnd: bool,
    synced: bool, used: set<Salt>, stale: set<nat>)

  // The database file.
  function DbFile(st: State): Image
    requires st.backfilled <= |st.wal.live|
  {
    Overlay(st.base, st.wal.live[..st.backfilled])
  }

  // What a reader of the database sees: the file overlaid with the committed WAL.
  function Current(st: State): Image
    requires st.backfilled <= |st.wal.live|
  {
    Overlay(DbFile(st), st.wal.live)
  }

  function Replay(log: seq<L0File>): Image {
    if log == [] then [] else Apply(Replay(log[..|log| - 1]), log[|log| - 1].delta)
  }

  // The pages that occur in some frames.
  function PagesOf(fs: seq<Frame>): set<nat> {
    set f | f in fs :: f.pgno
  }

  // The committed frames that the log does not cover.
  function Missed(st: State): seq<Frame> {
    if st.log != [] && st.log[|st.log| - 1].salt == st.wal.salt && st.log[|st.log| - 1].End() <= |st.wal.live|
    then st.wal.live[st.log[|st.log| - 1].End()..]
    else st.wal.live
  }

  // --- verify ---------------------------------------------------------------------------------

  datatype Info = Info(offset: nat, salt: Salt, snapshotting: bool)

  predicate HoldsPage(d: Delta, f: Frame) {
    f.pgno in d.pages && d.pages[f.pgno] == f.data
  }

  // The last frame synced is still in the WAL, and it is in the last LTX file.
  predicate LastPageMatch(slots: seq<Frame>, last: L0File)
    requires 0 < last.End() <= |slots|
  {
    var f := slots[last.End() - 1];
    f.salt == last.salt && HoldsPage(last.delta, f)
  }

  // The salts of the frame slots up to and including the first one with salt `until`.
  function SaltsUntil(slots: seq<Frame>, until: Salt): set<Salt> {
    if slots == [] then {}
    else if slots[0].salt == until then {until}
    else {slots[0].salt} + SaltsUntil(slots[1..], until)
  }

  predicate FullCheckpointDetected(slots: seq<Frame>, current: Salt, known: Salt) {
    SaltsUntil(slots, known) - {current, known} != {}
  }

  // Where to go on from, and whether a full snapshot is needed; also the new `syncedToWalEnd`.
  function Verify(st: State): (Info, bool) {
    if st.log == [] then (Info(0, st.wal.salt, true), st.syncedToWalEnd)
    else
      var last, slots := st.log[|st.log| - 1], st.wal.Slots();
      var off, saltMatch := last.End(), st.wal.salt == last.salt;
      if off > |slots| then
        if st.syncedToWalEnd then (Info(0, st.wal.salt, false), false)
        else (Info(off, last.salt, true), false)
      else if off <= 1 then (Info(off, last.salt, !saltMatch), st.syncedToWalEnd)
      else if !LastPageMatch(slots, last) then (Info(off, last.salt, true), st.syncedToWalEnd)
      else if saltMatch then (Info(off, last.salt, false), st.syncedToWalEnd)
      else (Info(0, st.wal.salt, FullCheckpointDetected(slots, st.wal.salt, last.salt)), st.syncedToWalEnd)
  }

  // --- sync -----------------------------------------------------------------------------------

  // The frames a reader yields: those up to the first one with other salts.
  function Readable(slots: seq<Frame>, salt: Salt): (fs: seq<Frame>)
    ensures |fs| <= |slots|
  {
    if slots == [] || slots[0].salt != salt then [] else [slots[0]] + Readable(slots[1..], salt)
  }

  datatype Source = Source(offset: nat, salt: Salt, frames: seq<Frame>)

  // Open the WAL at the given offset, or at its start when the frame before the offset is not
  // the one expected there.
  function OpenWal(w: Wal, info: Info): Source {
    var slots := w.Slots();
    if 0 < info.offset <= |slots| && slots[info.offset - 1].salt == info.salt then
      Source(info.offset, info.salt, Readable(slots[info.offset..], info.salt))
    else
      Source(0, w.salt, Readable(slots, w.salt))
  }

  // The committed frames of a source.
  function CommittedOf(src: Source): seq<Frame> {
    src.frames[..Committed(src.frames)]
  }

  // A full snapshot: every page, from the WAL if it is there, otherwise from the database file.
  function SnapshotDelta(db: Image, fs: seq<Frame>): Delta {
    var commit := SizeAfter(|db|, fs);
    Delta(commit, map p | 1 <= p <= commit ::
      if LastData(fs, p).Some? then LastData(fs, p).value else if p <= |db| then db[p - 1] else HOLE)
  }

  function DeltaFor(db: Image, info: Info, fs: seq<Frame>): Delta
    requires !info.snapshotting ==> fs != []
  {
    if info.snapshotting then SnapshotDelta(db, fs) else RunDelta(fs)
  }

  function SyncStep(st: State): State
    requires st.backfilled <= |st.wal.live|
  {
    var (info, toEnd) := Verify(st);
    var src := OpenWal(st.wal, info);
    var fs := CommittedOf(src);
    if !info.snapshotting && fs == [] then st.(syncedToWalEnd := toEnd, synced := true)
    else
      var file := L0File(DeltaFor(DbFile(st), info, fs), src.offset, |fs|, src.salt);
      st.(log := st.log + [file], lastSynced := Some(file.End()),
          syncedToWalEnd := file.End() == |st.wal.Slots()|, synced := true,
          stale := if info.snapshotting then {} else st.stale - PagesOf(fs))
  }

  // --- The application and checkpoints --------------------------------------------------------

  // A transaction as it is written to the WAL: it grows the database only by pages it writes, and
  // its commit frame is of a page inside the database.
  ghost predicate Commits(size: nat, salt: Salt, tx: seq<Frame>) {
    && IsTx(tx) && GrowsRun(size, tx)
    && (forall i :: 0 <= i < |tx| ==> tx[i].salt == salt)
    && 1 <= tx[|tx| - 1].pgno <= tx[|tx| - 1].commit
  }

  // What overwriting the first n slots leaves.
  function Left(slots: seq<Frame>, n: nat): seq<Frame> {
    if n <= |slots| then slots[n..] else []
  }

  function CommitStep(st: State, tx: seq<Frame>): State {
    var w := st.wal;
    st.(wal := Wal(w.salt, w.live + tx, Left(w.rest, |tx|)))
  }

  // Frames of a transaction that is still open, written behind the committed ones.
  ghost predicate WritesAhead(w: Wal, rest: seq<Frame>) {
    && |w.rest| <= |rest|
    && forall i :: 0 <= i < |rest| ==>
         (i < |w.rest| && rest[i] == w.rest[i]) || (rest[i].salt == w.salt && rest[i].commit == 0)
  }

  // TRUNCATE: re-check that we are still synced to the end of the file, move everything into the
  // database file, empty the WAL; the next transaction starts a new epoch.
  function TruncateStep(st: State, salt: Salt, tx: seq<Frame>): State
    requires st.backfilled <= |st.wal.live|
  {
    st.(base := Current(st), backfilled := 0, wal := Wal(salt, tx, []),
        syncedToWalEnd := st.syncedToWalEnd && st.lastSynced == Some(|st.wal.Slots()|),
        synced := false, used := st.used + {salt})
  }

  // PASSIVE, FULL or RESTART: the same, but the file stays and is overwritten from its start. Frames
  // that landed since the last sync are not copied any more.
  function RestartStep(st: State, salt: Salt, tx: seq<Frame>): State
    requires st.backfilled <= |st.wal.live|
  {
    var slots := st.wal.Slots();
    st.(base := Current(st), backfilled := 0, wal := Wal(salt, tx, Left(slots, |tx|)),
        syncedToWalEnd := st.syncedToWalEnd && st.lastSynced == Some(|slots|),
        synced := false, used := st.used + {salt}, stale := st.stale + PagesOf(Missed(st)))
  }

  // The process stops and starts again: only the files remain.
  function ReopenStep(st: State): State {
    st.(lastSynced := None, syncedToWalEnd := false)
  }

  // Everything committed has been copied into the log.
  predicate FullyCopied(st: State) {
    st.log != [] && st.log[|st.log| - 1].salt == st.wal.salt && st.log[|st.log| - 1].End() == |st.wal.live|
  }

  datatype Step =
    | Commit(tx: seq<Frame>)
    | WriteAhead(rest: seq<Frame>)
    | Backfill(n: nat)
    | Sync
    | Truncate(salt: Salt, tx: seq<Frame>)
    | Restart(salt: Salt, tx: seq<Frame>)
    | Reopen

  // When a step may happen. A checkpoint resets the WAL only after its own sync has completed.
  ghost predicate Enabled(st: State, step: Step) {
    && st.backfilled <= |st.wal.live|
    && match step
       case Commit(tx) => Commits(|Current(st)|, st.wal.salt, tx)
       case WriteAhead(rest) => WritesAhead(st.wal, rest)
       case Backfill(n) => st.backfilled <= n <= |st.wal.live| && Complete(st.wal.live[..n])
       case Sync => true
       case Truncate(salt, tx) => st.synced && salt !in st.used && Commits(|Current(st)|, salt, tx)
       case Restart(salt, tx) => st.synced && salt !in st.used && Commits(|Current(st)|, salt, tx)
       case Reopen => true
  }

  function Next(st: State, step: Step): State
    requires st.backfilled <= |st.wal.live|
  {
    match step
    case Commit(tx) => CommitStep(st, tx)
    case WriteAhead(rest) => st.(wal := st.wal.(rest := rest))
    case Backfill(n) => st.(backfilled := n)
    case Sync => SyncStep(st)
    case Truncate(salt, tx) => TruncateStep(st, salt, tx)
    case Restart(salt, tx) => RestartStep(st, salt, tx)
    case Reopen => ReopenStep(st)
  }
}
