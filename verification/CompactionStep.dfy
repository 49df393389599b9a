/**
 What a compaction step stores: whenever the source level has gap-free files behind the destination level,
 one file that covers them all; into level 1 there always are, so it catches up with level 0.
 */
module CompactionStep {
  import opened Pages
  import opened LtxFiles
  import opened RestorePlan
  import opened LevelStore
  import opened LevelStoreProof
  import opened LevelStoreRuns

  // The level has a file that starts after `end`.
  ghost predicate Ahead(src: seq<LtxFile>, end: nat) {
    exists i :: 0 <= i < |src| && end < src[i].minTXID
  }

  // From the first file that starts after `end` there is no gap.
  ghost predicate GaplessAfter(src: seq<LtxFile>, end: nat) {
    forall i, j :: 0 <= i < |src| && j == i + 1 && j < |src| && end < src[i].minTXID ==>
      src[j].minTXID == src[i].maxTXID + 1
  }

  // f covers everything of the level that starts after `end`.
  ghost predicate CoversRest(src: seq<LtxFile>, end: nat, f: LtxFile) {
    && f.maxTXID == End(src) && (exists i :: 0 <= i < |src| && src[i].minTXID == f.minTXID)
    && end < f.minTXID && forall i :: 0 <= i < |src| && end < src[i].minTXID ==> f.minTXID <= src[i].minTXID
  }

  lemma LinkedIsGapless(src: seq<LtxFile>, end: nat, k: nat)
    requires Ascending(src) && k <= |src| && (forall i :: 0 <= i < k ==> src[i].minTXID <= end) && Linked(src[k..])
    ensures GaplessAfter(src, end)
  {
    var rest := src[k..];
    forall i, j | 0 <= i < |src| && j == i + 1 && j < |src| && end < src[i].minTXID
      ensures src[j].minTXID == src[i].maxTXID + 1
    {
      assert LinkedAt(rest, j - k);
      assert rest[j - k - 1] == src[i] && rest[j - k] == src[j];
    }
  }

  lemma GaplessIsLinked(src: seq<LtxFile>, end: nat, k: nat)
    requires Ascending(src) && k <= |src| && (k < |src| ==> end < src[k].minTXID) && GaplessAfter(src, end)
    ensures Linked(src[k..])
  {
    var rest := src[k..];
    forall m | 0 < m < |rest| ensures LinkedAt(rest, m) {
      var i, j := k + m - 1, k + m;
      assert i > k ==> src[k].maxTXID < src[i].minTXID;
      assert end < src[i].minTXID;
      assert src[j].minTXID == src[i].maxTXID + 1;
      assert rest[m - 1] == src[i] && rest[m] == src[j];
    }
  }

  lemma MergesIff(src: seq<LtxFile>, end: nat)
    requires Ascending(src)
    ensures After(src, end) != [] <==> Ahead(src, end)
    ensures After(src, end) != [] ==> (Merge(After(src, end)).Some? <==> GaplessAfter(src, end))
  {
    var k := AfterIsSuffix(src, end);
    if Linked(src[k..]) {
      LinkedIsGapless(src, end, k);
    }
    if GaplessAfter(src, end) {
      GaplessIsLinked(src, end, k);
    }
    assert k < |src| ==> end < src[k].minTXID;
  }

  lemma RestIsCovered(h: History, src: seq<LtxFile>, end: nat, f: LtxFile)
    requires ValidHistory(h) && Ascending(src) && AllFaithful(h, src) && After(src, end) != []
    requires Merge(After(src, end)).Some? && f.minTXID == MinTXID(After(src, end)) && f.maxTXID == Top(After(src, end))
    ensures CoversRest(src, end, f)
  {
    CompactedFile(h, src, end);
    var k := AfterIsSuffix(src, end);
    SuffixKeeps(src, k);
    MinIsFirst(src[k..]);
    assert src[k].minTXID == f.minTXID;
    forall i | 0 <= i < |src| && end < src[i].minTXID ensures f.minTXID <= src[i].minTXID {
      assert k <= i;
      assert i > k ==> src[k].maxTXID < src[i].minTXID;
    }
  }

  // What a compaction writes.
  lemma CompactedIs(h: History, levels: seq<seq<LtxFile>>, dst: nat, createdAt: int)
    requires 1 <= dst < |levels| && ValidHistory(h) && Ascending(levels[dst]) && Ascending(levels[dst - 1])
    requires AllFaithful(h, levels[dst - 1])
    ensures var src, end, out := levels[dst - 1], End(levels[dst]), Compacted(levels, dst, createdAt);
            && (out.Some? <==> Ahead(src, end) && GaplessAfter(src, end))
            && (out.Some? ==> CoversRest(src, end, out.value) && out.value.level == dst &&
                              out.value.createdAt == createdAt && Faithful(h, out.value))
  {
    var src, end, out := levels[dst - 1], End(levels[dst]), Compacted(levels, dst, createdAt);
    TopIsLast(levels[dst]);
    MergesIff(src, end);
    if out.Some? {
      CompactedFile(h, src, end);
      RestIsCovered(h, src, end, out.value);
    }
  }

  lemma LevelsOfReachable(st: Store, dst: nat)
    requires Reachable(st) && 1 <= dst < SNAPSHOT_LEVEL
    ensures |st.levels| == SNAPSHOT_LEVEL + 1 && ValidHistory(st.history)
    ensures Ascending(st.levels[dst]) && Ascending(st.levels[dst - 1]) && AllFaithful(st.history, st.levels[dst - 1])
    ensures Contiguous(st.levels[0]) && Single(st.levels[0]) && End(st.levels[1]) <= End(st.levels[0])
  {
    ReachableInv(st);
    HistoryIsValid(st);
  }

  // In every reachable store a compaction appends one such file, with the net effect of what it covers,
  // if and only if the source level has anything ahead of the destination and no gap there.
  lemma CompactionStores(st: Store, dst: nat, createdAt: int)
    requires Reachable(st) && Enabled(st, Compact(dst, createdAt))
    ensures var src, dest, levels := st.levels[dst - 1], st.levels[dst], Next(st, Compact(dst, createdAt)).levels;
            if Ahead(src, End(dest)) && GaplessAfter(src, End(dest)) then
              exists f :: levels == st.levels[dst := dest + [f]] && CoversRest(src, End(dest), f) && f.level == dst &&
                          f.createdAt == createdAt && Faithful(st.history, f)
            else levels == st.levels
  {
    LevelsOfReachable(st, dst);
    CompactedIs(st.history, st.levels, dst, createdAt);
  }

  // Level 1 catches up with level 0.
  lemma LevelOneCatchesUp(st: Store, createdAt: int)
    requires Reachable(st) && Enabled(st, Compact(1, createdAt)) && st.levels[0] != []
    ensures |Next(st, Compact(1, createdAt)).levels| == SNAPSHOT_LEVEL + 1
    ensures End(Next(st, Compact(1, createdAt)).levels[1]) == End(st.levels[0])
  {
    LevelsOfReachable(st, 1);
    CompactionStores(st, 1, createdAt);
    LevelZeroAhead(st.levels[0], End(st.levels[1]));
  }

  lemma LevelZeroAhead(l0: seq<LtxFile>, end: nat)
    requires l0 != [] && Contiguous(l0) && Single(l0)
    ensures Ahead(l0, end) <==> end < End(l0)
    ensures GaplessAfter(l0, end)
  {
    assert l0[|l0| - 1].minTXID == End(l0);
    forall i | 0 <= i < |l0| ensures l0[i].minTXID <= End(l0) {
      BelowEnd(l0, l0[i]);
    }
  }
}
