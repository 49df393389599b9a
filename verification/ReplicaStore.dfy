/**
 The object that compacts and prunes a replica. Its methods work through listings file by file,
 collect what is to be deleted and update the stored levels in place; each is proved against the
 corresponding step of the level store.
 */
module ReplicaStore {
  import opened Pages
  import opened LtxFiles
  import opened SnapshotImage
  import opened RestorePlan
  import opened LevelStore
  import opened LevelStoreProof
  import opened LevelStoreRuns
  import opened RetentionReach

  // --- Sifting a listing ----------------------------------------------------------------------

  function Without(fs: seq<LtxFile>, dead: seq<LtxFile>): seq<LtxFile> {
    if fs == [] then []
    else Without(fs[..|fs| - 1], dead) + (if fs[|fs| - 1] in dead then [] else [fs[|fs| - 1]])
  }

  ghost predicate NoRepeats(fs: seq<LtxFile>) {
    forall i, j :: 0 <= i < j < |fs| ==> fs[i] != fs[j]
  }

  // A single level of a reachable store.
  lemma OfLevel(st: Store, l: nat)
    requires Reachable(st) && l <= SNAPSHOT_LEVEL
    ensures |st.levels| == SNAPSHOT_LEVEL + 1 && NoRepeats(st.levels[l])
    ensures forall f :: f in st.levels[l] ==> 1 <= f.minTXID <= f.maxTXID
    ensures MaxInfo(st.levels[l]) == Last(st.levels[l]) && Top(st.levels[l]) == End(st.levels[l])
    ensures l in st.cache && l > 0 ==> st.cache[l] == Last(st.levels[l])
  {
    ReachableInv(st);
    assert Ascending(st.levels[l]) || Snapshots(st.levels[l]);
    MaxInfoIsLast(st.levels[l]);
    TopIsLast(st.levels[l]);
  }

  // Of the first i files, `dead` are to go and `kept` are to stay.
  ghost predicate Sifted(fs: seq<LtxFile>, i: nat, dead: seq<LtxFile>, kept: seq<LtxFile>) {
    && i <= |fs| && Without(fs[..i], dead) == kept
    && forall f :: f in dead ==> f in fs[..i]
  }

  lemma {:induction false} WithoutMore(fs: seq<LtxFile>, dead: seq<LtxFile>, f: LtxFile)
    requires f !in fs
    ensures Without(fs, dead + [f]) == Without(fs, dead)
  {
    if fs != [] {
      WithoutMore(fs[..|fs| - 1], dead, f);
    }
  }

  lemma SiftDead(fs: seq<LtxFile>, i: nat, dead: seq<LtxFile>, kept: seq<LtxFile>)
    requires NoRepeats(fs) && i < |fs| && Sifted(fs, i, dead, kept)
    ensures Sifted(fs, i + 1, dead + [fs[i]], kept)
  {
    assert fs[..i + 1][..i] == fs[..i];
    WithoutMore(fs[..i], dead, fs[i]);
  }

  lemma SiftKept(fs: seq<LtxFile>, i: nat, dead: seq<LtxFile>, kept: seq<LtxFile>)
    requires NoRepeats(fs) && i < |fs| && Sifted(fs, i, dead, kept)
    ensures Sifted(fs, i + 1, dead, kept + [fs[i]])
  {
    assert fs[..i + 1][..i] == fs[..i];
    assert fs[i] !in dead;
  }

  lemma {:induction false} SiftRest(fs: seq<LtxFile>, i: nat, dead: seq<LtxFile>, kept: seq<LtxFile>)
    requires NoRepeats(fs) && Sifted(fs, i, dead, kept)
    ensures Without(fs, dead) == kept + fs[i..]
    decreases |fs| - i
  {
    if i == |fs| {
      assert fs[..i] == fs && kept + fs[i..] == kept;
    } else {
      SiftKept(fs, i, dead, kept);
      SiftRest(fs, i + 1, dead, kept + [fs[i]]);
      assert kept + [fs[i]] + fs[i + 1..] == kept + fs[i..];
    }
  }

  // --- Marking files --------------------------------------------------------------------------

  // `dead` and `kept` describe all files but the last, and `deleted` has the last one on top of
  // `dead` if it was marked.
  ghost predicate BeforeLast(fs: seq<LtxFile>, marked: bool, deleted: seq<LtxFile>,
                               dead: seq<LtxFile>, kept: seq<LtxFile>)
    requires fs != []
  {
    Sifted(fs, |fs| - 1, dead, kept) && deleted == if marked then dead + [fs[|fs| - 1]] else dead
  }

  // Unmarking the last file leaves all but the marked ones, and the last.
  lemma SiftAllButLast(fs: seq<LtxFile>, marked: bool, deleted: seq<LtxFile>, dead: seq<LtxFile>, kept: seq<LtxFile>)
    requires NoRepeats(fs) && fs != [] && BeforeLast(fs, marked, deleted, dead, kept)
    ensures Without(fs, dead) == kept + [fs[|fs| - 1]]
    ensures dead ==
              if deleted != [] && deleted[|deleted| - 1] == fs[|fs| - 1] then deleted[..|deleted| - 1] else deleted
  {
    var n := |fs| - 1;
    SiftRest(fs, n, dead, kept);
    assert fs[n..] == [fs[n]];
    if !marked && deleted != [] {
      assert deleted[|deleted| - 1] in fs[..n];
    }
  }

  lemma ReachKeptFrom(fs: seq<LtxFile>, i: nat, txid: nat, kept: seq<LtxFile>)
    requires i < |fs|
    ensures i + 1 == |fs| ==> ReachKept(fs[i..], txid) == [fs[i]]
    ensures i + 1 < |fs| ==>
              kept + ReachKept(fs[i..], txid) ==
              (if fs[i].maxTXID < txid then kept else kept + [fs[i]]) + ReachKept(fs[i + 1..], txid)
  {
    assert fs[i..][1..] == fs[i + 1..];
    assert i == |fs| - 1 ==> fs[i..] == [fs[i]];
  }

  // Mark the files that end before `txid`, but never the last file of the listing.
  method MarkByTXID(fs: seq<LtxFile>, txid: nat) returns (deleted: seq<LtxFile>)
    requires NoRepeats(fs)
    ensures Without(fs, deleted) == ReachKept(fs, txid)
  {
    deleted := [];
    ghost var kept: seq<LtxFile> := [];
    ghost var last: (seq<LtxFile>, seq<LtxFile>) := ([], []);
    for i := 0 to |fs|
      invariant Sifted(fs, i, deleted, kept)
      invariant i < |fs| ==> ReachKept(fs, txid) == kept + ReachKept(fs[i..], txid)
      invariant i == |fs| > 0 ==> BeforeLast(fs, fs[i - 1].maxTXID < txid, deleted, last.0, last.1)
                                  && ReachKept(fs, txid) == last.1 + [fs[i - 1]]
    {
      last := (deleted, kept);
      ReachKeptFrom(fs, i, txid, kept);
      if fs[i].maxTXID < txid {
        SiftDead(fs, i, deleted, kept);
        deleted := deleted + [fs[i]];
      } else {
        SiftKept(fs, i, deleted, kept);
        kept := kept + [fs[i]];
      }
    }
    if fs == [] {
      assert Sifted(fs, 0, deleted, kept);
      return;
    }
    SiftAllButLast(fs, fs[|fs| - 1].maxTXID < txid, deleted, last.0, last.1);
    if |deleted| > 0 && deleted[|deleted| - 1] == fs[|fs| - 1] {
      deleted := deleted[..|deleted| - 1];
    }
  }

  lemma FreshKeptFrom(fs: seq<LtxFile>, i: nat, timestamp: int, kept: seq<LtxFile>)
    requires i < |fs|
    ensures i + 1 == |fs| ==> FreshKept(fs[i..], timestamp) == [fs[i]]
    ensures i + 1 < |fs| ==>
              kept + FreshKept(fs[i..], timestamp) ==
              (if fs[i].createdAt < timestamp then kept else kept + [fs[i]]) + FreshKept(fs[i + 1..], timestamp)
  {
    assert fs[i..][1..] == fs[i + 1..];
    assert i == |fs| - 1 ==> fs[i..] == [fs[i]];
  }

  // Mark the snapshots created before `timestamp`, but never the last one; also the lowest TXID of
  // the others.
  method MarkOld(fs: seq<LtxFile>, timestamp: int) returns (deleted: seq<LtxFile>, minTXID: nat)
    requires NoRepeats(fs)
    ensures Without(fs, deleted) == FreshKept(fs, timestamp) && minTXID == MinFresh(fs, timestamp)
    ensures Labelled(fs) ==> LowestFresh(fs, timestamp, minTXID)
  {
    deleted, minTXID := MarkFiles(fs, timestamp);
    if Labelled(fs) {
      MinFreshIsLowest(fs, timestamp);
    }
  }

  method MarkFiles(fs: seq<LtxFile>, timestamp: int) returns (deleted: seq<LtxFile>, minTXID: nat)
    requires NoRepeats(fs)
    ensures Without(fs, deleted) == FreshKept(fs, timestamp)
    ensures minTXID == MinFresh(fs, timestamp)
  {
    deleted := [];
    minTXID := 0;
    ghost var kept: seq<LtxFile> := [];
    ghost var last: (seq<LtxFile>, seq<LtxFile>) := ([], []);
    for i := 0 to |fs|
      invariant Sifted(fs, i, deleted, kept)
      invariant i < |fs| ==> FreshKept(fs, timestamp) == kept + FreshKept(fs[i..], timestamp)
      invariant i == |fs| > 0 ==> BeforeLast(fs, fs[i - 1].createdAt < timestamp, deleted, last.0, last.1)
                                  && FreshKept(fs, timestamp) == last.1 + [fs[i - 1]]
      invariant minTXID == MinFresh(fs[..i], timestamp)
    {
      last := (deleted, kept);
      FreshKeptFrom(fs, i, timestamp, kept);
      assert fs[..i + 1][..i] == fs[..i];
      if fs[i].createdAt < timestamp {
        SiftDead(fs, i, deleted, kept);
        deleted := deleted + [fs[i]];
      } else {
        SiftKept(fs, i, deleted, kept);
        kept := kept + [fs[i]];
        if minTXID == 0 || fs[i].maxTXID < minTXID {
          minTXID := fs[i].maxTXID;
        }
      }
    }
    if fs == [] {
      assert Sifted(fs, 0, deleted, kept);
      return;
    }
    assert fs[..|fs|] == fs;
    SiftAllButLast(fs, fs[|fs| - 1].createdAt < timestamp, deleted, last.0, last.1);
    if |deleted| > 0 && deleted[|deleted| - 1] == fs[|fs| - 1] {
      deleted := deleted[..|deleted| - 1];
    }
  }

  // What level-0 retention keeps, from the i-th file on.
  lemma L0KeptFrom(fs: seq<LtxFile>, i: nat, maxL1: nat, threshold: int, kept: seq<LtxFile>)
    requires i < |fs|
    ensures fs[i].createdAt > threshold ==> L0Kept(fs[i..], maxL1, threshold) == fs[i..]
    ensures i + 1 == |fs| ==> L0Kept(fs[i..], maxL1, threshold) == [fs[i]]
    ensures i + 1 < |fs| && fs[i].createdAt <= threshold ==>
              kept + L0Kept(fs[i..], maxL1, threshold) ==
              (if fs[i].maxTXID <= maxL1 then kept else kept + [fs[i]]) + L0Kept(fs[i + 1..], maxL1, threshold)
  {
    assert fs[i..][1..] == fs[i + 1..];
    assert i == |fs| - 1 ==> fs[i..] == [fs[i]];
  }

  // Mark the level-0 files that level 1 contains, up to the first one newer than the threshold, but
  // never the last file of the listing.
  method MarkExpired(fs: seq<LtxFile>, maxL1: nat, threshold: int) returns (deleted: seq<LtxFile>)
    requires NoRepeats(fs)
    ensures Without(fs, deleted) == L0Kept(fs, maxL1, threshold)
  {
    deleted := [];
    ghost var kept: seq<LtxFile> := [];
    ghost var last: (seq<LtxFile>, seq<LtxFile>) := ([], []);
    for i := 0 to |fs|
      invariant Sifted(fs, i, deleted, kept)
      invariant i < |fs| ==> L0Kept(fs, maxL1, threshold) == kept + L0Kept(fs[i..], maxL1, threshold)
      invariant i == |fs| > 0 ==> BeforeLast(fs, fs[i - 1].maxTXID <= maxL1, deleted, last.0, last.1)
                                  && L0Kept(fs, maxL1, threshold) == last.1 + [fs[i - 1]]
    {
      last := (deleted, kept);
      L0KeptFrom(fs, i, maxL1, threshold, kept);
      if fs[i].createdAt > threshold {
        SiftRest(fs, i, deleted, kept);
        return;
      }
      if fs[i].maxTXID <= maxL1 {
        SiftDead(fs, i, deleted, kept);
        deleted := deleted + [fs[i]];
      } else {
        SiftKept(fs, i, deleted, kept);
        kept := kept + [fs[i]];
      }
    }
    if fs == [] {
      assert Sifted(fs, 0, deleted, kept);
      return;
    }
    SiftAllButLast(fs, fs[|fs| - 1].maxTXID <= maxL1, deleted, last.0, last.1);
    if |deleted| > 0 && deleted[|deleted| - 1] == fs[|fs| - 1] {
      deleted := deleted[..|deleted| - 1];
    }
  }

  // --- Scanning a listing ---------------------------------------------------------------------

  method NewestListed(fs: seq<LtxFile>) returns (info: Option<LtxFile>)
    ensures info == MaxInfo(fs) && NewestOf(fs, info)
  {
    MaxInfoIsNewest(fs);
    info := None;
    for i := 0 to |fs|
      invariant info == MaxInfo(fs[..i])
    {
      assert fs[..i + 1][..i] == fs[..i];
      if fs[i].maxTXID > MaxOf(info) {
        info := Some(fs[i]);
      }
    }
    assert fs[..|fs|] == fs;
  }

  lemma {:induction false} AfterAppend(fs: seq<LtxFile>, prev: nat, f: LtxFile)
    ensures After(fs + [f], prev) == After(fs, prev) + (if f.minTXID > prev then [f] else [])
  {
    if fs == [] {
      assert fs + [f] == [f] && [f][1..] == [];
    } else {
      assert (fs + [f])[1..] == fs[1..] + [f];
      AfterAppend(fs[1..], prev, f);
    }
  }

  lemma {:induction false} MinAppend(fs: seq<LtxFile>, f: LtxFile)
    requires fs != []
    ensures MinTXID(fs + [f]) == if f.minTXID < MinTXID(fs) then f.minTXID else MinTXID(fs)
  {
    assert (fs + [f])[1..] == fs[1..] + [f];
    if |fs| > 1 {
      MinAppend(fs[1..], f);
    }
  }

  // The files that start after `prev`, with the lowest and the highest TXID among them.
  method Sources(fs: seq<LtxFile>, prev: nat) returns (sources: seq<LtxFile>, minTXID: nat, maxTXID: nat)
    requires forall f :: f in fs ==> 1 <= f.minTXID <= f.maxTXID
    ensures sources == After(fs, prev)
    ensures sources != [] ==> minTXID == MinTXID(sources) && maxTXID == Top(sources)
  {
    sources, minTXID, maxTXID := [], 0, 0;
    for i := 0 to |fs|
      invariant sources == After(fs[..i], prev)
      invariant forall f :: f in sources ==> 1 <= f.minTXID <= f.maxTXID
      invariant sources == [] ==> minTXID == maxTXID == 0
      invariant sources != [] ==> 1 <= minTXID == MinTXID(sources) && 1 <= maxTXID
      invariant maxTXID == Top(sources)
    {
      assert fs[..i + 1] == fs[..i] + [fs[i]];
      AfterAppend(fs[..i], prev, fs[i]);
      if fs[i].minTXID <= prev {
        continue;
      }
      if sources != [] {
        MinAppend(sources, fs[i]);
      }
      TopAppend(sources, fs[i]);
      if minTXID == 0 || fs[i].minTXID < minTXID {
        minTXID := fs[i].minTXID;
      }
      if maxTXID == 0 || fs[i].maxTXID > maxTXID {
        maxTXID := fs[i].maxTXID;
      }
      sources := sources + [fs[i]];
    }
    assert fs[..|fs|] == fs;
  }

  lemma TopAppend(fs: seq<LtxFile>, f: LtxFile)
    ensures Top(fs + [f]) == if Top(fs) > f.maxTXID then Top(fs) else f.maxTXID
  {
    var gs := fs + [f];
    var g :| g in gs && g.maxTXID == Top(gs);
    assert f in gs;
    if Top(fs) > 0 {
      assert fs != [];
      var k :| k in fs && k.maxTXID == Top(fs);
      assert k in gs;
    }
  }

  // --- Steps over listings --------------------------------------------------------------------

  // Compact level dst - 1 into dst: start after the newest file of dst, from the cache or else from
  // the listing.
  method CompactLevel(ghost st: Store, levels: seq<seq<LtxFile>>, cache: map<nat, Option<LtxFile>>,
                      dst: nat, createdAt: int)
    returns (info: Option<LtxFile>, levels': seq<seq<LtxFile>>, cache': map<nat, Option<LtxFile>>)
    requires st.levels == levels && st.cache == cache && 1 <= dst < |levels|
    requires dst in cache ==> cache[dst] == MaxInfo(levels[dst])
    requires MaxOf(MaxInfo(levels[dst])) == Top(levels[dst])
    requires forall f :: f in levels[dst - 1] ==> 1 <= f.minTXID <= f.maxTXID
    ensures info == Compacted(levels, dst, createdAt) && |levels'| == |levels|
    ensures st.(levels := levels', cache := cache') == WithCompacted(st, dst, info)
  {
    levels', cache' := levels, cache;
    var prev: Option<LtxFile>;
    if dst in cache {
      prev := cache[dst];
      assert cache[dst := prev] == cache;
    } else {
      prev := NewestListed(levels[dst]);
      if prev != None {
        cache' := cache[dst := prev];
      }
    }
    var sources, minTXID, maxTXID := Sources(levels[dst - 1], MaxOf(prev));
    if sources == [] || Merge(sources) == None {
      return None, levels', cache';
    }
    info := Some(LtxFile(dst, minTXID, maxTXID, createdAt, Merge(sources).value));
    levels' := levels[dst := levels[dst] + [info.value]];
    cache' := cache[dst := info];
  }

  method PruneL0(ghost st: Store, levels: seq<seq<LtxFile>>, local: set<nat>, threshold: int)
    returns (levels': seq<seq<LtxFile>>, local': set<nat>)
    requires st.levels == levels && st.local == local && 1 < |levels| && NoRepeats(levels[0])
    requires MaxOf(MaxInfo(levels[1])) == Top(levels[1])
    ensures var kept := L0Kept(levels[0], Top(levels[1]), threshold);
            levels' == levels[0 := kept] && local' == local - Dropped(levels[0], kept)
  {
    var newest := NewestListed(levels[1]);
    var deleted := MarkExpired(levels[0], MaxOf(newest), threshold);
    var kept := Without(levels[0], deleted);
    local' := local - Dropped(levels[0], kept);
    levels' := levels[0 := kept];
  }

  lemma PrunedIsStep(st: Store, timestamp: int, kept: seq<LtxFile>)
    requires |st.levels| == SNAPSHOT_LEVEL + 1 && kept == FreshKept(st.levels[SNAPSHOT_LEVEL], timestamp)
    ensures st.(levels := st.levels[SNAPSHOT_LEVEL := kept],
                floors := st.floors + {MinFresh(st.levels[SNAPSHOT_LEVEL], timestamp)}) ==
              Next(st, SnapshotRetention(timestamp))
  {
  }

  method PruneOld(ghost st: Store, levels: seq<seq<LtxFile>>, timestamp: int)
    returns (levels': seq<seq<LtxFile>>, txid: nat)
    requires st.levels == levels && |levels| == SNAPSHOT_LEVEL + 1 && NoRepeats(levels[SNAPSHOT_LEVEL])
    ensures Labelled(levels[SNAPSHOT_LEVEL]) ==> LowestFresh(levels[SNAPSHOT_LEVEL], timestamp, txid)
    ensures txid == MinFresh(levels[SNAPSHOT_LEVEL], timestamp) && |levels'| == |levels|
    ensures st.(levels := levels', floors := st.floors + {txid}) == Next(st, SnapshotRetention(timestamp))
  {
    var deleted;
    deleted, txid := MarkOld(levels[SNAPSHOT_LEVEL], timestamp);
    var kept := Without(levels[SNAPSHOT_LEVEL], deleted);
    PrunedIsStep(st, timestamp, kept);
    levels' := levels[SNAPSHOT_LEVEL := kept];
  }

  // No step but an upload moves the position at which uploading goes on.
  lemma PositionStays(st: Store, step: Step)
    requires Reachable(st) && Enabled(st, step) && !step.Upload?
    ensures Reachable(Next(st, step)) && End(Next(st, step).levels[0]) == End(st.levels[0])
  {
    ReachableStep(st, step);
    if step.L0Retention? {
      ReachableInv(st);
      L0RetentionCover(st.history, st.levels[0], st.levels[1], st.levels[SNAPSHOT_LEVEL], step.threshold);
    }
  }

  // The next file to upload is on the local disk.
  lemma NextIsLocal(st: Store)
    requires Reachable(st)
    ensures |st.levels| == SNAPSHOT_LEVEL + 1 && End(st.levels[0]) <= |st.history|
    ensures MaxInfo(st.levels[0]) == Last(st.levels[0]) && Top(st.levels[0]) == End(st.levels[0])
    ensures End(st.levels[0]) < |st.history| ==> End(st.levels[0]) + 1 in st.local
  {
    ReachableInv(st);
    OfLevel(st, 0);
  }

  // A database as the first, uncopied, transaction.
  lemma FirstImage(db: Image)
    ensures ValidHistory([FullDelta(db)]) && Live([], [FullDelta(db)]) == db
  {
    FullDeltaApplies(db, []);
    HistoryAppend([], FullDelta(db));
    ImageOfAppend([], FullDelta(db));
    assert [] + [FullDelta(db)] == [FullDelta(db)];
  }

  lemma SnapshotLabels(st: Store)
    requires Reachable(st)
    ensures |st.levels| == SNAPSHOT_LEVEL + 1
    ensures forall f :: f in st.levels[SNAPSHOT_LEVEL] ==> 1 == f.minTXID <= f.maxTXID
  {
    ReachableInv(st);
  }

  // Copying does not change what a reader sees, and afterwards it is all in the history.
  lemma LiveIsCopied(st: Store, d: Delta)
    requires Reachable(st) && Copies(st.history, st.uncopied, d)
    ensures var h := st.history + [d]; Live(h, []) == Live(st.history, st.uncopied) == ImageAt(h, |h|)
  {
    ReachableInv(st);
    LiveAfterSync(st.history, st.uncopied, d);
    assert st.history + [d] + [] == st.history + [d];
  }

  // --- The replica ----------------------------------------------------------------------------

  // How one upload goes: it may fail without having written the file, or although it did.
  datatype Fault = NotWritten | WrittenButFailed

  class Replica {
    // The files copied locally, and the database as a reader sees it.
    var history: History
    var live: Image
    var levels: seq<seq<LtxFile>>
    var local: set<nat>
    var cache: map<nat, Option<LtxFile>>
    // Where uploading goes on, 0 if unknown.
    var pos: nat
    // What was committed but not copied, and the TXIDs that snapshot retention returned.
    ghost var uncopied: History
    ghost var floors: set<nat>

    ghost function Abs(): Store
      reads this
    {
      Store(history, uncopied, levels, local, cache, floors)
    }

    ghost predicate Valid()
      reads this
    {
      && Reachable(Abs()) && |levels| == SNAPSHOT_LEVEL + 1 && (pos == 0 || pos == End(levels[0]))
      && live == Live(history, uncopied)
    }

    constructor (db: Image)
      ensures Valid() && Init(Abs()) && live == db
    {
      history, live, levels, local, cache, pos := [], db, seq(SNAPSHOT_LEVEL + 1, _ => []), {}, map[], 0;
      uncopied, floors := [FullDelta(db)], {};
      new;
      FirstImage(db);
      InitIsReachable(Abs());
    }

    // The application commits a transaction.
    method Commit(d: Delta)
      requires Valid() && Grows(|live|, d)
      modifies this`live, this`uncopied
      ensures Valid() && Abs() == Next(old(Abs()), LevelStore.Commit(d)) && live == Apply(old(live), d)
    {
      PositionStays(Abs(), LevelStore.Commit(d));
      ReachableInv(Abs());
      LiveAfterCommit(history, uncopied, d);
      live := Apply(live, d);
      uncopied := uncopied + [d];
    }

    // Everything committed is copied into one more local file.
    method LocalSync(d: Delta)
      requires Valid() && Copies(history, uncopied, d)
      modifies this`history, this`uncopied, this`local
      ensures Valid() && Abs() == Next(old(Abs()), LevelStore.LocalSync(d))
      ensures live == ImageAt(history, |history|)
    {
      PositionStays(Abs(), LevelStore.LocalSync(d));
      LiveIsCopied(Abs(), d);
      local := local + {|history| + 1};
      history := history + [d];
      uncopied := [];
    }

    // Store every page of the database, under the last TXID copied.
    method Snapshot(createdAt: int) returns (info: LtxFile)
      requires Valid() && history != []
      modifies this`levels, this`cache
      ensures Valid() && Abs() == Next(old(Abs()), LevelStore.Snapshot(createdAt))
      ensures Content(info) == live && info.maxTXID == |history| && Last(levels[SNAPSHOT_LEVEL]) == Some(info)
    {
      PositionStays(Abs(), LevelStore.Snapshot(createdAt));
      FullDeltaApplies(live, []);
      info := LtxFile(SNAPSHOT_LEVEL, 1, |history|, createdAt, FullDelta(live));
      levels := levels[SNAPSHOT_LEVEL := WithSnapshot(levels[SNAPSHOT_LEVEL], info)];
      cache := cache[SNAPSHOT_LEVEL := Some(info)];
    }

    method MaxLtxFileInfo(level: nat) returns (info: Option<LtxFile>)
      requires Valid() && 1 <= level <= SNAPSHOT_LEVEL
      modifies this`cache
      ensures Valid() && Abs() == Next(old(Abs()), Lookup(level))
      ensures info == Last(levels[level])
    {
      PositionStays(Abs(), Lookup(level));
      OfLevel(Abs(), level);
      if level in cache {
        info := cache[level];
        assert cache[level := info] == cache;
      } else {
        info := NewestListed(levels[level]);
        cache := cache[level := info];
      }
    }

    method Compact(dst: nat, createdAt: int) returns (info: Option<LtxFile>)
      requires Valid() && 1 <= dst < SNAPSHOT_LEVEL
      modifies this`levels, this`cache
      ensures Valid() && Abs() == Next(old(Abs()), Step.Compact(dst, createdAt))
      ensures info == Compacted(old(levels), dst, createdAt)
    {
      PositionStays(Abs(), Step.Compact(dst, createdAt));
      OfLevel(Abs(), dst - 1);
      OfLevel(Abs(), dst);
      info, levels, cache := CompactLevel(Abs(), levels, cache, dst, createdAt);
    }

    method EnforceL0Retention(threshold: int)
      requires Valid()
      modifies this`levels, this`local
      ensures Valid() && Abs() == Next(old(Abs()), L0Retention(threshold))
    {
      PositionStays(Abs(), L0Retention(threshold));
      OfLevel(Abs(), 0);
      OfLevel(Abs(), 1);
      levels, local := PruneL0(Abs(), levels, local, threshold);
    }

    // The pass over the snapshots.
    method PruneSnapshots(timestamp: int) returns (txid: nat)
      requires Valid()
      modifies this`levels, this`floors
      ensures Valid() && Abs() == Next(old(Abs()), SnapshotRetention(timestamp))
      ensures LowestFresh(old(levels)[SNAPSHOT_LEVEL], timestamp, txid)
      ensures txid == MinFresh(old(levels)[SNAPSHOT_LEVEL], timestamp) && txid in floors
    {
      PositionStays(Abs(), SnapshotRetention(timestamp));
      OfLevel(Abs(), SNAPSHOT_LEVEL);
      levels, txid := PruneOld(Abs(), levels, timestamp);
      floors := floors + {txid};
    }

    // The pass over one compaction level; anything may have happened since `txid` was returned.
    method PruneLevel(level: nat, txid: nat)
      requires Valid() && 1 <= level < SNAPSHOT_LEVEL && txid in floors
      modifies this`levels
      ensures Valid() && Abs() == Next(old(Abs()), LevelRetention(level, txid))
    {
      PositionStays(Abs(), LevelRetention(level, txid));
      OfLevel(Abs(), level);
      var deleted := MarkByTXID(levels[level], txid);
      levels := levels[level := Without(levels[level], deleted)];
    }

    // The cascade, when nothing comes in between.
    method EnforceSnapshotRetention(timestamp: int, n: nat)
      requires Valid() && n < SNAPSHOT_LEVEL
      modifies this`levels, this`floors
      ensures Valid() && Cascaded(old(levels), levels, timestamp, n)
      ensures forall s, t: nat :: s in old(levels)[SNAPSHOT_LEVEL] && s.createdAt >= timestamp && s.maxTXID <= t ==>
                (Reaches(levels, timestamp, t) <==> Reaches(old(levels), timestamp, t))
    {
      ghost var before := levels;
      SnapshotLabels(Abs());
      var txid := PruneSnapshots(timestamp);
      for level := 1 to n + 1
        invariant Valid() && txid in floors && levels[0] == old(levels)[0]
        invariant levels[SNAPSHOT_LEVEL] == FreshKept(old(levels)[SNAPSHOT_LEVEL], timestamp)
        invariant forall l :: level <= l < SNAPSHOT_LEVEL ==> levels[l] == old(levels)[l]
        invariant forall l :: 1 <= l < level ==> levels[l] == ReachKept(old(levels)[l], txid)
      {
        PruneLevel(level, txid);
      }
      CascadeIsSafe(before, levels, timestamp, n);
    }

    method UploadOne(createdAt: int)
      requires Reachable(Abs()) && |levels| == SNAPSHOT_LEVEL + 1 && End(levels[0]) < |history|
      modifies this`levels
      ensures Top(old(levels)[0]) < |history| && Abs() == Next(old(Abs()), Upload(createdAt))
      ensures Reachable(Abs()) && old(levels)[0] <= levels[0] && levels == old(levels)[0 := levels[0]]
      ensures End(levels[0]) == End(old(levels)[0]) + 1
    {
      OfLevel(Abs(), 0);
      ReachableStep(Abs(), Upload(createdAt));
      var txid := MaxOf(Last(levels[0])) + 1;
      levels := levels[0 := levels[0] + [LtxFile(0, txid, txid, createdAt, history[txid - 1])]];
    }

    method UploadNext(createdAt: int, fault: Option<Fault>) returns (ok: bool)
      requires Reachable(Abs()) && |levels| == SNAPSHOT_LEVEL + 1 && pos == End(levels[0]) < |history|
      modifies this`levels, this`pos
      ensures Reachable(Abs()) && |levels| == SNAPSHOT_LEVEL + 1
      ensures old(levels)[0] <= levels[0] && levels == old(levels)[0 := levels[0]]
      ensures ok == (fault == None)
      ensures if ok then pos == End(levels[0]) == old(pos) + 1 else pos == 0
    {
      NextIsLocal(Abs());
      var txid := pos + 1;
      ok := fault == None && txid in local;
      if ok || fault == Some(WrittenButFailed) {
        UploadOne(createdAt);
      }
      pos := if ok then txid else 0;
    }

    // The position that the listing of level 0 shows.
    method ListedPosition() returns (p: nat)
      requires Reachable(Abs()) && |levels| == SNAPSHOT_LEVEL + 1
      ensures p == End(levels[0])
    {
      NextIsLocal(Abs());
      var newest := NewestListed(levels[0]);
      p := MaxOf(newest);
    }

    // Upload everything copied so far, one file per transaction. After a failure the position is
    // worked out afresh from the listing.
    method Sync(createdAt: int, faults: map<nat, Fault>) returns (ok: bool)
      requires Valid()
      modifies this`levels, this`pos
      ensures Valid() && old(levels)[0] <= levels[0] && levels == old(levels)[0 := levels[0]]
      ensures ok ==> End(levels[0]) == |history|
      ensures faults == map[] && history != [] ==> ok
    {
      NextIsLocal(Abs());
      if pos == 0 {
        pos := ListedPosition();
      }
      if history == [] {
        pos := 0;
        return false;
      }
      while pos < |history|
        invariant Reachable(Abs()) && |levels| == SNAPSHOT_LEVEL + 1 && pos == End(levels[0]) <= |history|
        invariant old(levels)[0] <= levels[0] && levels == old(levels)[0 := levels[0]]
      {
        var txid := pos + 1;
        ok := UploadNext(createdAt, if txid in faults then Some(faults[txid]) else None);
        if !ok {
          return;
        }
      }
      ok := true;
    }
  }
}
