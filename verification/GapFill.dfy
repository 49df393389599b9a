/**
 Filling a gap in level 0 from the compaction levels: how far a level takes the copy, and which level does.
 */
module GapFill {
  import opened LtxFiles
  import opened RestorePlan
  import opened LevelStoreProof

  // Level fs alone leads from `after` to `gapMin`.
  ghost predicate Bridges(fs: seq<LtxFile>, after: nat, gapMin: nat) {
    fs != [] && Contiguous(fs) && First(fs) <= after + 1 && gapMin <= End(fs) + 1
  }

  // Some file of the level goes on from `after`.
  ghost predicate Helps(fs: seq<LtxFile>, after: nat) {
    exists f :: f in fs && Extends(after, f)
  }

  // Where going through the files in order leads, up to the end of the gap.
  function FillReach(fs: seq<LtxFile>, cur: nat, gapMin: nat): nat {
    if fs == [] || fs[0].minTXID > cur + 1 then cur
    else if fs[0].maxTXID <= cur then FillReach(fs[1..], cur, gapMin)
    else if fs[0].maxTXID + 1 >= gapMin then fs[0].maxTXID
    else FillReach(fs[1..], fs[0].maxTXID, gapMin)
  }

  // A sorted listing has nothing for `cur` behind a file that starts too late.
  lemma NothingFurther(fs: seq<LtxFile>, cur: nat)
    requires Sorted(fs) && fs != [] && cur + 1 < fs[0].minTXID
    ensures !Helps(fs, cur)
  {
    forall f | f in fs ensures !Extends(cur, f) {
      var j :| 0 <= j < |fs| && fs[j] == f;
      assert j > 0 ==> InOrder(fs[0], fs[j]);
    }
  }

  lemma HelpsRest(fs: seq<LtxFile>, cur: nat)
    requires fs != [] && fs[0].maxTXID <= cur
    ensures Helps(fs, cur) <==> Helps(fs[1..], cur)
  {
    assert forall f :: f in fs <==> f == fs[0] || f in fs[1..];
  }

  // It goes on if and only if some file does, and stops at the end of the gap or when none does any more.
  lemma {:induction false} FillsAll(fs: seq<LtxFile>, cur: nat, gapMin: nat)
    requires Sorted(fs)
    ensures var r := FillReach(fs, cur, gapMin);
            cur <= r && (cur < r <==> Helps(fs, cur)) && ((cur < r && gapMin <= r + 1) || !Helps(fs, r))
    decreases |fs|
  {
    if fs != [] {
      var r := FillReach(fs, cur, gapMin);
      assert Sorted(fs[1..]);
      if fs[0].minTXID > cur + 1 {
        NothingFurther(fs, cur);
      } else if fs[0].maxTXID <= cur {
        FillsAll(fs[1..], cur, gapMin);
        HelpsRest(fs, cur);
        HelpsRest(fs, r);
      } else {
        assert fs[0] in fs && Extends(cur, fs[0]);
        if fs[0].maxTXID + 1 < gapMin {
          FillsAll(fs[1..], fs[0].maxTXID, gapMin);
          HelpsRest(fs, r);
        }
      }
    }
  }

  // A gap-free level that covers the gap bridges it.
  lemma {:induction false} FillBridges(fs: seq<LtxFile>, cur: nat, gapMin: nat)
    requires Contiguous(fs) && (fs != [] ==> fs[0].minTXID <= cur + 1 && gapMin <= End(fs) + 1)
    requires fs == [] ==> gapMin <= cur + 1
    ensures gapMin <= FillReach(fs, cur, gapMin) + 1
    decreases |fs|
  {
    if fs != [] {
      var rest := fs[1..];
      assert Contiguous(rest) && (rest != [] ==> rest[0] == fs[1] && End(rest) == End(fs));
      if fs[0].maxTXID <= cur {
        FillBridges(rest, cur, gapMin);
      } else if fs[0].maxTXID + 1 < gapMin {
        FillBridges(rest, fs[0].maxTXID, gapMin);
      }
    }
  }

  // --- All levels -----------------------------------------------------------------------------

  ghost predicate AllSorted(levels: seq<seq<LtxFile>>) {
    forall l :: 0 <= l < |levels| ==> Sorted(levels[l])
  }

  // The first level from `level` on that goes on at all decides.
  function LevelsReach(levels: seq<seq<LtxFile>>, level: nat, after: nat, gapMin: nat): nat
    requires level <= SNAPSHOT_LEVEL < |levels|
    decreases SNAPSHOT_LEVEL - level
  {
    if level == SNAPSHOT_LEVEL then after
    else
      var r := FillReach(levels[level], after, gapMin);
      if r > after then r else LevelsReach(levels, level + 1, after, gapMin)
  }

  // No level from m to n - 1 has a file that goes on from `after`.
  ghost predicate NoneHelps(levels: seq<seq<LtxFile>>, m: nat, n: nat, after: nat)
    requires n <= |levels|
  {
    forall l :: m <= l < n ==> !Helps(levels[l], after)
  }

  // What filling a gap comes to: nothing when no compaction level from m on helps; otherwise the lowest
  // that does takes the copy on until the gap is bridged or it has nothing more to offer.
  ghost predicate Filled(levels: seq<seq<LtxFile>>, m: nat, after: nat, gapMin: nat, cur: nat)
    requires SNAPSHOT_LEVEL < |levels|
  {
    if NoneHelps(levels, m, SNAPSHOT_LEVEL, after) then cur == after
    else
      exists l :: m <= l < SNAPSHOT_LEVEL && Helps(levels[l], after) && after < cur &&
                  NoneHelps(levels, m, l, after) && (gapMin <= cur + 1 || !Helps(levels[l], cur))
  }

  // Some file takes the copy on: of level 0, where the listing starts behind `after`, or of a compaction level.
  ghost predicate GoesOn(levels: seq<seq<LtxFile>>, after: nat)
    requires SNAPSHOT_LEVEL < |levels|
  {
    (exists f :: f in levels[0] && f.minTXID == after + 1) || !NoneHelps(levels, 1, SNAPSHOT_LEVEL, after)
  }

  lemma {:induction false} LevelsFill(levels: seq<seq<LtxFile>>, m: nat, after: nat, gapMin: nat)
    requires m <= SNAPSHOT_LEVEL < |levels| && AllSorted(levels)
    ensures Filled(levels, m, after, gapMin, LevelsReach(levels, m, after, gapMin))
    decreases SNAPSHOT_LEVEL - m
  {
    if m < SNAPSHOT_LEVEL {
      FillsAll(levels[m], after, gapMin);
      var r, cur := FillReach(levels[m], after, gapMin), LevelsReach(levels, m, after, gapMin);
      if r > after {
        assert Helps(levels[m], after) && NoneHelps(levels, m, m, after);
      } else {
        LevelsFill(levels, m + 1, after, gapMin);
        if !NoneHelps(levels, m + 1, SNAPSHOT_LEVEL, after) {
          var l :| m + 1 <= l < SNAPSHOT_LEVEL && Helps(levels[l], after) && NoneHelps(levels, m + 1, l, after) &&
                   (gapMin <= cur + 1 || !Helps(levels[l], cur));
          assert NoneHelps(levels, m, l, after);
        }
      }
    }
  }

  // All levels together fill the gap as said, and at least as far as level 1 bridges it.
  lemma LevelsBridge(levels: seq<seq<LtxFile>>, after: nat, gapMin: nat)
    requires |levels| == SNAPSHOT_LEVEL + 1
    ensures AllSorted(levels) ==> Filled(levels, 1, after, gapMin, LevelsReach(levels, 1, after, gapMin))
    ensures Bridges(levels[1], after, gapMin) ==> gapMin <= LevelsReach(levels, 1, after, gapMin) + 1
  {
    if AllSorted(levels) {
      LevelsFill(levels, 1, after, gapMin);
    }
    if Bridges(levels[1], after, gapMin) {
      FillBridges(levels[1], after, gapMin);
      AtLeast(levels, 2, after, gapMin);
    }
  }

  lemma {:induction false} AtLeast(levels: seq<seq<LtxFile>>, m: nat, after: nat, gapMin: nat)
    requires m <= SNAPSHOT_LEVEL < |levels|
    ensures after <= LevelsReach(levels, m, after, gapMin)
    decreases SNAPSHOT_LEVEL - m
  {
    if m < SNAPSHOT_LEVEL {
      AtLeast(levels, m + 1, after, gapMin);
    }
  }
}
