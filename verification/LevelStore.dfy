/**
 The replica as a store of LTX files in levels: uploads to level 0, compaction from one level to
 the next, full snapshots, and retention. Level 9 holds the snapshots.
 */
module LevelStore {
  import opened Pages
  import opened LtxFiles
  import opened SnapshotImage
  import opened RestorePlan

  // `history` is everything copied locally so far and `uncopied` what was committed since; `local`
  // the TXIDs whose level-0 file is still on the local disk; `cache` the remembered newest file of
  // a level, if any; `floors` the TXIDs that snapshot retention has returned so far.
  datatype Store = Store(
    history: History, uncopied: History, levels: seq<seq<LtxFile>>,
    local: set<nat>, cache: map<nat, Option<LtxFile>>, floors: set<nat>)

  function Last(fs: seq<LtxFile>): Option<LtxFile> {
    if fs == [] then None else Some(fs[|fs| - 1])
  }

  // Highest TXID of a file that may be missing.
  function MaxOf(f: Option<LtxFile>): nat {
    if f == None then 0 else f.value.maxTXID
  }

  // The newest file in a listing: the first one with the highest TXID.
  function MaxInfo(fs: seq<LtxFile>): Option<LtxFile> {
    if fs == [] then None
    else
      var best, f := MaxInfo(fs[..|fs| - 1]), fs[|fs| - 1];
      if f.maxTXID > MaxOf(best) then Some(f) else best
  }

  // --- Compaction -----------------------------------------------------------------------------

  // Files that start after `prev`.
  function After(fs: seq<LtxFile>, prev: nat): seq<LtxFile> {
    if fs == [] then []
    else if fs[0].minTXID > prev then [fs[0]] + After(fs[1..], prev)
    else After(fs[1..], prev)
  }

  function MinTXID(fs: seq<LtxFile>): nat
    requires fs != []
  {
    if |fs| == 1 then fs[0].minTXID
    else
      var rest := MinTXID(fs[1..]);
      if fs[0].minTXID < rest then fs[0].minTXID else rest
  }

  // The file that compacting level dst - 1 into dst writes; none if there is nothing to compact
  // or the merge refuses its inputs.
  function Compacted(levels: seq<seq<LtxFile>>, dst: nat, createdAt: int): Option<LtxFile>
    requires 1 <= dst < |levels|
  {
    var sources := After(levels[dst - 1], Top(levels[dst]));
    if sources == [] || Merge(sources) == None then None
    else Some(LtxFile(dst, MinTXID(sources), Top(sources), createdAt, Merge(sources).value))
  }

  // --- Retention ------------------------------------------------------------------------------

  // What level-0 retention keeps: files are dropped from the oldest on while they are not newer
  // than the threshold and are contained in level 1; the newest file always stays.
  function L0Kept(fs: seq<LtxFile>, maxL1: nat, threshold: int): seq<LtxFile> {
    if |fs| <= 1 || fs[0].createdAt > threshold then fs
    else if fs[0].maxTXID <= maxL1 then L0Kept(fs[1..], maxL1, threshold)
    else [fs[0]] + L0Kept(fs[1..], maxL1, threshold)
  }

  // Snapshots created before `timestamp` go, except the last one.
  function FreshKept(fs: seq<LtxFile>, timestamp: int): seq<LtxFile> {
    if |fs| <= 1 then fs
    else if fs[0].createdAt < timestamp then FreshKept(fs[1..], timestamp)
    else [fs[0]] + FreshKept(fs[1..], timestamp)
  }

  // Lowest TXID of the snapshots that are not too old, 0 if there is none.
  function MinFresh(fs: seq<LtxFile>, timestamp: int): nat {
    if fs == [] then 0
    else
      var f, rest := fs[|fs| - 1], MinFresh(fs[..|fs| - 1], timestamp);
      if f.createdAt < timestamp then rest
      else if rest == 0 || f.maxTXID < rest then f.maxTXID
      else rest
  }

  // Files that end before `txid` go, except the last one.
  function ReachKept(fs: seq<LtxFile>, txid: nat): seq<LtxFile> {
    if |fs| <= 1 then fs
    else if fs[0].maxTXID < txid then ReachKept(fs[1..], txid)
    else [fs[0]] + ReachKept(fs[1..], txid)
  }

  function Dropped(fs: seq<LtxFile>, kept: seq<LtxFile>): set<nat> {
    set f | f in fs && f !in kept :: f.minTXID
  }

  // --- Steps ----------------------------------------------------------------------------------

  datatype Step =
    | Commit(delta: Delta)
    | LocalSync(delta: Delta)
    | Upload(createdAt: int)
    | Compact(dst: nat, createdAt: int)
    | Snapshot(createdAt: int)
    | L0Retention(threshold: int)
    | SnapshotRetention(timestamp: int)
    | LevelRetention(level: nat, txid: nat)
    | Lookup(level: nat)

  ghost predicate Enabled(st: Store, step: Step) {
    && |st.levels| == SNAPSHOT_LEVEL + 1
    && match step
       case Commit(d) => Grows(|Live(st.history, st.uncopied)|, d)
       case LocalSync(d) => Copies(st.history, st.uncopied, d)
       case Upload(_) => Top(st.levels[0]) < |st.history|
       case Compact(dst, _) => 1 <= dst < SNAPSHOT_LEVEL
       case Snapshot(_) => 0 < |st.history|
       case L0Retention(_) => true
       case SnapshotRetention(_) => true
       case LevelRetention(level, txid) => 1 <= level < SNAPSHOT_LEVEL && txid in st.floors
       case Lookup(level) => 1 <= level <= SNAPSHOT_LEVEL
  }

  // The file that goes to level 0 next.
  function NextUpload(h: History, l0: seq<LtxFile>, createdAt: int): LtxFile
    requires Top(l0) < |h|
  {
    LtxFile(0, Top(l0) + 1, Top(l0) + 1, createdAt, h[Top(l0)])
  }

  // The snapshot level with a new snapshot; an earlier one with the same label is replaced.
  function WithSnapshot(fs: seq<LtxFile>, f: LtxFile): seq<LtxFile> {
    if fs != [] && fs[|fs| - 1].maxTXID == f.maxTXID then fs[..|fs| - 1] + [f] else fs + [f]
  }

  // Everything a reader sees now, labelled with the last TXID that was copied.
  function SnapshotFile(h: History, u: History, createdAt: int): LtxFile {
    LtxFile(SNAPSHOT_LEVEL, 1, |h|, createdAt, FullDelta(Live(h, u)))
  }

  // The newest file of a level, from the cache if it is known there.
  function Known(st: Store, level: nat): Option<LtxFile>
    requires level < |st.levels|
  {
    if level in st.cache then st.cache[level] else MaxInfo(st.levels[level])
  }

  // The store after a compaction into `dst` that wrote `out`, if anything.
  ghost function WithCompacted(st: Store, dst: nat, out: Option<LtxFile>): Store
    requires dst < |st.levels|
  {
    match out
    case None => if Known(st, dst) == None then st else st.(cache := st.cache[dst := Known(st, dst)])
    case Some(f) => st.(levels := st.levels[dst := st.levels[dst] + [f]], cache := st.cache[dst := out])
  }

  ghost function Next(st: Store, step: Step): Store
    requires Enabled(st, step)
  {
    match step
    case Commit(d) => st.(uncopied := st.uncopied + [d])
    case LocalSync(d) => st.(history := st.history + [d], uncopied := [], local := st.local + {|st.history| + 1})
    case Upload(createdAt) =>
      st.(levels := st.levels[0 := st.levels[0] + [NextUpload(st.history, st.levels[0], createdAt)]])
    case Compact(dst, createdAt) => WithCompacted(st, dst, Compacted(st.levels, dst, createdAt))
    case Snapshot(createdAt) =>
      var f := SnapshotFile(st.history, st.uncopied, createdAt);
      st.(levels := st.levels[SNAPSHOT_LEVEL := WithSnapshot(st.levels[SNAPSHOT_LEVEL], f)],
          cache := st.cache[SNAPSHOT_LEVEL := Some(f)])
    case L0Retention(threshold) =>
      var kept := L0Kept(st.levels[0], Top(st.levels[1]), threshold);
      st.(levels := st.levels[0 := kept], local := st.local - Dropped(st.levels[0], kept))
    case SnapshotRetention(timestamp) =>
      var snaps := st.levels[SNAPSHOT_LEVEL];
      st.(levels := st.levels[SNAPSHOT_LEVEL := FreshKept(snaps, timestamp)],
          floors := st.floors + {MinFresh(snaps, timestamp)})
    case LevelRetention(level, txid) => st.(levels := st.levels[level := ReachKept(st.levels[level], txid)])
    case Lookup(level) => st.(cache := st.cache[level := Known(st, level)])
  }
}
