/**
 Safety of the level store over whole runs: every file has the net effect of the transactions it
 is labelled with, what is pruned is never needed again, and the latest state can be restored.
 */
module LevelStoreProof {
  import opened Pages
  import opened LtxFiles
  import opened RestorePlan
  import opened RestoreOptimal
  import opened LevelStore

  // Files of a compaction level: ascending, without overlap.
  ghost predicate Ascending(fs: seq<LtxFile>) {
    && (forall i :: 0 <= i < |fs| ==> 1 <= fs[i].minTXID <= fs[i].maxTXID)
    && (forall i, j :: 0 <= i < j < |fs| ==> fs[i].maxTXID < fs[j].minTXID)
  }

  // Moreover without gaps.
  ghost predicate Contiguous(fs: seq<LtxFile>) {
    && Ascending(fs)
    && forall i, j :: 0 <= i < |fs| && j == i + 1 && j < |fs| ==> fs[j].minTXID == fs[i].maxTXID + 1
  }

  // Snapshots all start at TXID 1 and end at different TXIDs.
  ghost predicate Snapshots(fs: seq<LtxFile>) {
    && (forall i :: 0 <= i < |fs| ==> 1 == fs[i].minTXID <= fs[i].maxTXID)
    && (forall i, j :: 0 <= i < j < |fs| ==> fs[i].maxTXID < fs[j].maxTXID)
  }

  ghost predicate Single(fs: seq<LtxFile>) {
    forall i :: 0 <= i < |fs| ==> fs[i].minTXID == fs[i].maxTXID
  }

  // First TXID covered, when there is a file at all.
  function First(fs: seq<LtxFile>): nat {
    if fs == [] then 0 else fs[0].minTXID
  }

  // Last TXID covered.
  function End(fs: seq<LtxFile>): nat {
    MaxOf(Last(fs))
  }

  // Level 0 picks up where level 1 ends, and level 1 reaches back to the latest snapshot.
  ghost predicate Covered(l0: seq<LtxFile>, l1: seq<LtxFile>, snaps: seq<LtxFile>) {
    && Contiguous(l0) && Single(l0) && Contiguous(l1)
    && First(l0) <= End(l1) + 1
    && End(l1) <= End(l0)
    && First(l1) <= End(snaps) + 1
  }

  ghost predicate Shape(levels: seq<seq<LtxFile>>) {
    && |levels| == SNAPSHOT_LEVEL + 1
    && Covered(levels[0], levels[1], levels[SNAPSHOT_LEVEL])
    && (forall l :: 0 <= l < SNAPSHOT_LEVEL ==> Ascending(levels[l]))
    && (forall l :: 1 <= l < SNAPSHOT_LEVEL ==> End(levels[l]) <= End(levels[0]))
    && Snapshots(levels[SNAPSHOT_LEVEL])
  }

  // What is not uploaded yet, and the newest file in any case, is on the local disk.
  ghost predicate LocalOk(st: Store)
    requires 0 < |st.levels|
  {
    && End(st.levels[0]) <= |st.history|
    && (forall t: nat :: End(st.levels[0]) < t <= |st.history| ==> t in st.local)
    && (0 < |st.history| ==> |st.history| in st.local)
  }

  // A remembered newest file is the newest file.
  ghost predicate CacheOk(st: Store)
    requires |st.levels| == SNAPSHOT_LEVEL + 1
  {
    forall l :: l in st.cache && 1 <= l <= SNAPSHOT_LEVEL ==> st.cache[l] == MaxInfo(st.levels[l])
  }

  // What snapshot retention returned once lies no higher than the latest snapshot.
  ghost predicate FloorsOk(st: Store)
    requires |st.levels| == SNAPSHOT_LEVEL + 1
  {
    forall t :: t in st.floors ==> t <= End(st.levels[SNAPSHOT_LEVEL])
  }

  ghost predicate Inv(st: Store) {
    && ValidHistory(st.history + st.uncopied) && Shape(st.levels)
    && Stores(st.history, st.uncopied, st.levels)
    && LocalOk(st) && CacheOk(st) && FloorsOk(st)
  }

  // Nothing copied or stored; the database may already hold something.
  ghost predicate Init(st: Store) {
    && st.history == [] && ValidHistory(st.uncopied)
    && st.levels == seq(SNAPSHOT_LEVEL + 1, _ => []) && st.cache == map[] && st.floors == {}
  }

  // --- Ascending levels -----------------------------------------------------------------------

  lemma TopIsLast(fs: seq<LtxFile>)
    requires Ascending(fs) || Snapshots(fs)
    ensures Top(fs) == End(fs)
  {
    if fs != [] {
      var f :| f in fs && f.maxTXID == Top(fs);
      assert fs[|fs| - 1] in fs;
    }
  }

  lemma {:induction false} MaxInfoIsLast(fs: seq<LtxFile>)
    requires Ascending(fs) || Snapshots(fs)
    ensures MaxInfo(fs) == Last(fs)
  {
    if fs != [] {
      var n := |fs| - 1;
      assert Ascending(fs) ==> Ascending(fs[..n]);
      assert Snapshots(fs) ==> Snapshots(fs[..n]);
      MaxInfoIsLast(fs[..n]);
      assert n > 0 ==> fs[..n][n - 1].maxTXID < fs[n].maxTXID;
    }
  }

  // File i is the first of those with the highest TXID.
  ghost predicate FirstHighest(fs: seq<LtxFile>, i: nat) {
    && i < |fs| && (forall j :: 0 <= j < |fs| ==> fs[j].maxTXID <= fs[i].maxTXID)
    && (forall j :: 0 <= j < i ==> fs[j].maxTXID < fs[i].maxTXID)
  }

  // What is taken for the newest file.
  ghost predicate NewestOf(fs: seq<LtxFile>, info: Option<LtxFile>) {
    if info == None then forall i :: 0 <= i < |fs| ==> fs[i].maxTXID == 0
    else info.value.maxTXID > 0 && exists i: nat :: FirstHighest(fs, i) && fs[i] == info.value
  }

  lemma HighestAppend(fs: seq<LtxFile>, i: nat, f: LtxFile)
    requires FirstHighest(fs, i)
    ensures FirstHighest(fs + [f], if f.maxTXID > fs[i].maxTXID then |fs| else i)
  {
  }

  lemma {:induction false} MaxInfoIsNewest(fs: seq<LtxFile>)
    ensures NewestOf(fs, MaxInfo(fs))
  {
    if fs != [] {
      var n := |fs| - 1;
      var init, best := fs[..n], MaxInfo(fs[..n]);
      MaxInfoIsNewest(init);
      assert fs == init + [fs[n]];
      if best.Some? {
        var i: nat :| FirstHighest(init, i) && init[i] == best.value;
        HighestAppend(init, i, fs[n]);
      } else if fs[n].maxTXID > 0 {
        assert forall j :: 0 <= j < n ==> fs[j] == init[j];
        assert FirstHighest(fs, n);
      } else {
        assert forall j :: 0 <= j < n ==> fs[j] == init[j];
      }
    }
  }

  lemma {:induction false} AfterAll(fs: seq<LtxFile>, prev: nat)
    requires forall i :: 0 <= i < |fs| ==> fs[i].minTXID > prev
    ensures After(fs, prev) == fs
  {
    if fs != [] {
      AfterAll(fs[1..], prev);
    }
  }

  // Files that start after `prev` are the end of an ascending level.
  lemma {:induction false} AfterIsSuffix(fs: seq<LtxFile>, prev: nat) returns (k: nat)
    requires Ascending(fs)
    ensures k <= |fs| && After(fs, prev) == fs[k..]
    ensures forall i :: 0 <= i < k ==> fs[i].minTXID <= prev
    ensures k < |fs| ==> prev < fs[k].minTXID
    decreases |fs|
  {
    if fs == [] {
      k := 0;
    } else if fs[0].minTXID > prev {
      k := 0;
      AfterAll(fs, prev);
      assert fs[0..] == fs;
    } else {
      var rest := fs[1..];
      assert Ascending(rest);
      var j := AfterIsSuffix(rest, prev);
      k := j + 1;
      assert rest[j..] == fs[k..];
      forall i | 0 < i < k ensures fs[i].minTXID <= prev {
        assert fs[i] == rest[i - 1];
      }
    }
  }

  lemma {:induction false} MinIsFirst(fs: seq<LtxFile>)
    requires fs != [] && Ascending(fs)
    ensures MinTXID(fs) == fs[0].minTXID
  {
    if |fs| > 1 {
      assert Ascending(fs[1..]);
      MinIsFirst(fs[1..]);
    }
  }

  // A gap-free level covers every TXID between its ends.
  lemma {:induction false} ContiguousCovers(fs: seq<LtxFile>, t: nat)
    requires Contiguous(fs) && fs != [] && fs[0].minTXID <= t <= fs[|fs| - 1].maxTXID
    ensures exists i :: 0 <= i < |fs| && fs[i].minTXID <= t <= fs[i].maxTXID
    decreases |fs|
  {
    if t > fs[0].maxTXID {
      var rest := fs[1..];
      assert Contiguous(rest);
      assert rest[0] == fs[1];
      ContiguousCovers(rest, t);
      var i :| 0 <= i < |rest| && rest[i].minTXID <= t <= rest[i].maxTXID;
      assert fs[i + 1] == rest[i];
    }
  }

  // --- Restoring ------------------------------------------------------------------------------

  lemma ShapeIsListing(levels: seq<seq<LtxFile>>)
    requires Shape(levels)
    ensures Listings(levels)
  {
    forall l | 0 <= l < |levels| ensures Sorted(levels[l]) {
      if l < SNAPSHOT_LEVEL {
        assert Ascending(levels[l]);
      }
    }
    forall l, i | 0 <= l < |levels| && 0 <= i < |levels[l]|
      ensures 1 <= levels[l][i].minTXID <= levels[l][i].maxTXID
    {
      if l < SNAPSHOT_LEVEL {
        assert Ascending(levels[l]);
      }
    }
  }

  // The highest TXID stored anywhere.
  function HighestStored(levels: seq<seq<LtxFile>>): nat
    requires |levels| == SNAPSHOT_LEVEL + 1
  {
    if End(levels[0]) < End(levels[SNAPSHOT_LEVEL]) then End(levels[SNAPSHOT_LEVEL]) else End(levels[0])
  }

  lemma BelowEnd(fs: seq<LtxFile>, f: LtxFile)
    requires (Ascending(fs) || Snapshots(fs)) && f in fs
    ensures f.minTXID <= f.maxTXID <= End(fs)
  {
    var i :| 0 <= i < |fs| && fs[i] == f;
    if Ascending(fs) && i < |fs| - 1 {
      assert fs[i].maxTXID < fs[|fs| - 1].minTXID;
    }
  }

  lemma NothingAboveHighest(levels: seq<seq<LtxFile>>, l: nat, f: LtxFile)
    requires Shape(levels) && l <= SNAPSHOT_LEVEL && f in levels[l]
    ensures f.minTXID <= f.maxTXID <= HighestStored(levels)
  {
    assert l < SNAPSHOT_LEVEL ==> Ascending(levels[l]);
    BelowEnd(levels[l], f);
    assert 1 <= l < SNAPSHOT_LEVEL ==> End(levels[l]) <= End(levels[0]);
  }

  // With no snapshot excluded, the chosen one is the latest.
  lemma LatestSnapshot(levels: seq<seq<LtxFile>>)
    requires Shape(levels)
    ensures Reach(0, ChosenSnapshot(levels[SNAPSHOT_LEVEL], LATEST)) == End(levels[SNAPSHOT_LEVEL])
  {
  }

  lemma LevelExtends(levels: seq<seq<LtxFile>>, l: nat, cur: nat)
    requires |levels| == SNAPSHOT_LEVEL + 1 && l <= 1 && Contiguous(levels[l])
    requires First(levels[l]) <= cur + 1 <= End(levels[l])
    ensures !Stuck(Pool(levels, LATEST), cur)
  {
    var fs := levels[l];
    ContiguousCovers(fs, cur + 1);
    var i :| 0 <= i < |fs| && fs[i].minTXID <= cur + 1 <= fs[i].maxTXID;
    assert levels[l][i] in Pool(levels, LATEST);
    assert Extends(cur, fs[i]);
  }

  // As long as the plan ends below the highest stored TXID, some file extends it.
  lemma CanGoOn(levels: seq<seq<LtxFile>>, cur: nat)
    requires Shape(levels) && End(levels[SNAPSHOT_LEVEL]) <= cur < HighestStored(levels)
    ensures !Stuck(Pool(levels, LATEST), cur)
  {
    LevelExtends(levels, if cur < End(levels[1]) then 1 else 0, cur);
  }

  // The latest state can always be restored: the plan ends at the highest stored TXID and no gap
  // is reported.
  lemma LatestPlanSucceeds(levels: seq<seq<LtxFile>>, found: seq<LtxFile>, r: PlanResult)
    requires Shape(levels) && IsPlan(levels, LATEST, found) && IsResult(levels, LATEST, found, r)
    requires 0 < HighestStored(levels)
    ensures r == Plan(found) && found != [] && Reach(0, found) == HighestStored(levels)
  {
    ShapeIsListing(levels);
    PlanIsChain(levels, LATEST, found);
    PlanPassesSnapshot(levels, LATEST, found);
    LatestSnapshot(levels);
    var cur := Reach(0, found);
    if cur < HighestStored(levels) {
      CanGoOn(levels, cur);
      assert false;
    }
    assert found != [];
    var n := |found| - 1;
    var l :| 0 <= l < |levels| && found[n] in levels[l];
    NothingAboveHighest(levels, l, found[n]);
    if GapAfter(levels, cur) {
      var l', i :| 0 <= l' < SNAPSHOT_LEVEL && 0 <= i < |levels[l']| && cur + 1 < levels[l'][i].minTXID;
      NothingAboveHighest(levels, l', levels[l'][i]);
      assert false;
    }
  }

  // --- Retention ------------------------------------------------------------------------------

  lemma {:induction false} L0KeptAll(fs: seq<LtxFile>, maxL1: nat, threshold: int)
    requires forall i :: 0 <= i < |fs| ==> maxL1 < fs[i].maxTXID
    ensures L0Kept(fs, maxL1, threshold) == fs
  {
    if |fs| > 1 {
      L0KeptAll(fs[1..], maxL1, threshold);
    }
  }

  // Level-0 retention drops a prefix that level 1 contains, and never the newest file.
  lemma {:induction false} L0KeptIsSuffix(fs: seq<LtxFile>, maxL1: nat, threshold: int) returns (k: nat)
    requires Ascending(fs)
    ensures k <= |fs| && L0Kept(fs, maxL1, threshold) == fs[k..]
    ensures fs != [] ==> k < |fs|
    ensures k > 0 ==> fs[k - 1].maxTXID <= maxL1
    decreases |fs|
  {
    if |fs| <= 1 || fs[0].createdAt > threshold {
      k := 0;
    } else if fs[0].maxTXID > maxL1 {
      k := 0;
      L0KeptAll(fs, maxL1, threshold);
    } else {
      var rest := fs[1..];
      assert Ascending(rest);
      var j := L0KeptIsSuffix(rest, maxL1, threshold);
      k := j + 1;
      assert rest[j..] == fs[k..];
      assert j > 0 ==> rest[j - 1] == fs[k - 1];
    }
  }

  lemma {:induction false} ReachKeptAll(fs: seq<LtxFile>, txid: nat)
    requires forall i :: 0 <= i < |fs| ==> txid <= fs[i].maxTXID
    ensures ReachKept(fs, txid) == fs
  {
    if |fs| > 1 {
      ReachKeptAll(fs[1..], txid);
    }
  }

  lemma AscendingRest(fs: seq<LtxFile>)
    requires fs != [] && Ascending(fs)
    ensures Ascending(fs[1..])
  {
  }

  // Retention by TXID drops a prefix that ends below the TXID, and never the newest file.
  lemma {:induction false} ReachKeptIsSuffix(fs: seq<LtxFile>, txid: nat) returns (k: nat)
    requires Ascending(fs)
    ensures k <= |fs| && ReachKept(fs, txid) == fs[k..]
    ensures fs != [] ==> k < |fs|
    ensures k > 0 ==> fs[k - 1].maxTXID < txid
    decreases |fs|
  {
    if |fs| <= 1 {
      k := 0;
    } else if fs[0].maxTXID >= txid {
      k := 0;
      ReachKeptAll(fs, txid);
    } else {
      var rest := fs[1..];
      AscendingRest(fs);
      var j := ReachKeptIsSuffix(rest, txid);
      k := j + 1;
      assert rest[j..] == fs[k..];
      assert j > 0 ==> rest[j - 1] == fs[k - 1];
    }
  }

  // Snapshot retention keeps some of the snapshots, always the latest.
  lemma PrependSnapshot(fs: seq<LtxFile>, kept: seq<LtxFile>)
    requires fs != [] && Snapshots(fs) && Snapshots(kept) && forall f :: f in kept ==> f in fs[1..]
    ensures Snapshots([fs[0]] + kept)
  {
    forall i | 0 <= i < |kept| ensures fs[0].maxTXID < kept[i].maxTXID {
      assert kept[i] in fs[1..];
      var j :| 0 <= j < |fs[1..]| && fs[1..][j] == kept[i];
      assert fs[j + 1] == kept[i];
    }
  }

  lemma {:induction false} FreshKeptIsSubset(fs: seq<LtxFile>, timestamp: int)
    requires Snapshots(fs)
    ensures Snapshots(FreshKept(fs, timestamp)) && Last(FreshKept(fs, timestamp)) == Last(fs)
    ensures forall f :: f in FreshKept(fs, timestamp) ==> f in fs
    decreases |fs|
  {
    if |fs| > 1 {
      var rest := fs[1..];
      assert Snapshots(rest);
      FreshKeptIsSubset(rest, timestamp);
      var kept := FreshKept(rest, timestamp);
      assert Last(rest) == Last(fs);
      if fs[0].createdAt >= timestamp {
        assert FreshKept(fs, timestamp) == [fs[0]] + kept;
        PrependSnapshot(fs, kept);
      }
    }
  }

  lemma {:induction false} MinFreshBelowEnd(fs: seq<LtxFile>, timestamp: int)
    requires Snapshots(fs)
    ensures MinFresh(fs, timestamp) <= End(fs)
  {
    if fs != [] {
      var n := |fs| - 1;
      var init := fs[..n];
      assert Snapshots(init);
      MinFreshBelowEnd(init, timestamp);
      assert n > 0 ==> init[n - 1].maxTXID < fs[n].maxTXID;
    }
  }

  lemma SuffixKeeps(fs: seq<LtxFile>, k: nat)
    requires Ascending(fs) && k <= |fs| && (fs != [] ==> k < |fs|)
    ensures Ascending(fs[k..]) && Last(fs[k..]) == Last(fs)
    ensures Contiguous(fs) ==> Contiguous(fs[k..])
    ensures Contiguous(fs) && k > 0 ==> First(fs[k..]) == fs[k - 1].maxTXID + 1
  {
    var gs := fs[k..];
    if Contiguous(fs) {
      forall i, j | 0 <= i < |gs| && j == i + 1 && j < |gs| ensures gs[j].minTXID == gs[i].maxTXID + 1 {
        assert gs[i] == fs[k + i] && gs[j] == fs[k + j];
      }
    }
  }

  // --- Compaction -----------------------------------------------------------------------------

  lemma AppendAscending(fs: seq<LtxFile>, f: LtxFile)
    requires Ascending(fs) && End(fs) < f.minTXID <= f.maxTXID
    ensures Ascending(fs + [f])
  {
    var gs := fs + [f];
    forall i, j | 0 <= i < j < |gs| ensures gs[i].maxTXID < gs[j].minTXID {
      assert gs[i] == fs[i];
      if j == |fs| {
        assert fs[i] in fs;
        BelowEnd(fs, fs[i]);
      }
    }
  }

  lemma AppendContiguous(fs: seq<LtxFile>, f: LtxFile)
    requires Contiguous(fs) && f.minTXID == End(fs) + 1 && f.minTXID <= f.maxTXID
    ensures Contiguous(fs + [f])
  {
    AppendAscending(fs, f);
    var gs := fs + [f];
    forall i, j | 0 <= i < |gs| && j == i + 1 && j < |gs| ensures gs[j].minTXID == gs[i].maxTXID + 1 {
      assert gs[i] == fs[i];
    }
  }

  // The file a compaction writes: it starts after the destination level, covers the source level
  // to its end, and has the net effect of the transactions in between.
  lemma MergedSources(h: History, sources: seq<LtxFile>)
    requires ValidHistory(h) && Ascending(sources) && AllFaithful(h, sources) && sources != [] && Merge(sources).Some?
    ensures MinTXID(sources) == sources[0].minTXID && 1 <= MinTXID(sources) <= Top(sources) == End(sources) <= |h|
    ensures Merge(sources).value == Net(h, MinTXID(sources), Top(sources))
  {
    MinIsFirst(sources);
    TopIsLast(sources);
    assert StartsLowest(sources);
    MergeOfChain(h, sources);
  }

  lemma CompactedFile(h: History, src: seq<LtxFile>, prev: nat)
    requires ValidHistory(h) && Ascending(src) && AllFaithful(h, src)
    requires After(src, prev) != [] && Merge(After(src, prev)).Some?
    ensures var sources := After(src, prev);
            && prev < MinTXID(sources) <= Top(sources) == End(src) <= |h|
            && Merge(sources).value == Net(h, MinTXID(sources), Top(sources))
            && (Contiguous(src) && Single(src) && First(src) <= prev + 1 ==> MinTXID(sources) == prev + 1)
  {
    var k := AfterIsSuffix(src, prev);
    SuffixKeeps(src, k);
    MergedSources(h, src[k..]);
  }
}
