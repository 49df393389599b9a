/**
 The follow loop as an object over the database file: it polls level 0, bridges gaps from the
 compaction levels, writes pages in place and records the TXID it reached. `faults` says where
 writing a file breaks off, if it does, and what that leaves in the page being written.
 */
module Follower {
  import opened Pages
  import opened LtxFiles
  import opened RestorePlan
  import opened LevelStore
  import opened LevelStoreProof
  import opened NearImage
  import opened GapFill
  import opened Follow

  ghost predicate NoFaults(faults: LtxFile -> Option<Break>, fs: seq<LtxFile>) {
    forall f :: f in fs ==> faults(f) == None
  }

  ghost predicate NoFaultsAtAll(faults: LtxFile -> Option<Break>, levels: seq<seq<LtxFile>>) {
    forall l :: 0 <= l < |levels| ==> NoFaults(faults, levels[l])
  }

  // All levels are there, and the files of the compaction levels are right.
  ghost predicate Offers(h: History, levels: seq<seq<LtxFile>>) {
    |levels| == SNAPSHOT_LEVEL + 1 && forall l :: 0 <= l < SNAPSHOT_LEVEL ==> AllFaithful(h, levels[l])
  }

  // Levels 0 and 1 together hold everything after `after`.
  ghost predicate Continues(l0: seq<LtxFile>, l1: seq<LtxFile>, after: nat) {
    && l0 != [] && Contiguous(l0) && Single(l0)
    && (First(l0) <= after + 1 || Bridges(l1, after, First(l0)))
  }

  ghost predicate GapFree(fs: seq<LtxFile>) {
    forall i, j :: 0 <= i < |fs| && j == i + 1 && j < |fs| ==> fs[j].minTXID == fs[i].maxTXID + 1
  }

  lemma LinksOfSuffix(fs: seq<LtxFile>, k: nat)
    requires Contiguous(fs) && k <= |fs|
    ensures GapFree(fs[k..])
  {
    var gs := fs[k..];
    forall i, j | 0 <= i < |gs| && j == i + 1 && j < |gs| ensures gs[j].minTXID == gs[i].maxTXID + 1 {
      assert gs[i] == fs[k + i] && gs[j] == fs[k + j];
    }
  }

  // A gap-free list of files that starts at `after`, or where level 1 bridges to its start.
  ghost predicate Passable(fs: seq<LtxFile>, l1: seq<LtxFile>, after: nat) {
    GapFree(fs) && (fs != [] ==> fs[0].minTXID <= after + 1 || Bridges(l1, after, fs[0].minTXID))
  }

  // The part of level 0 from `after` on: a gap can only be in front of its first file, and there
  // level 1 bridges it.
  lemma Seeked(l0: seq<LtxFile>, l1: seq<LtxFile>, after: nat)
    requires Continues(l0, l1, after)
    ensures var fs := After(l0, after);
            Passable(fs, l1, after) && if fs == [] then End(l0) <= after else End(fs) == End(l0)
  {
    var k := AfterIsSuffix(l0, after);
    LinksOfSuffix(l0, k);
    if 0 < k {
      assert l0[k - 1].minTXID <= after;
    }
  }

  // The first file behind `after` has the next TXID exactly when some file does.
  lemma {:induction false} FirstListed(fs: seq<LtxFile>, after: nat)
    requires Sorted(fs)
    ensures var rest := After(fs, after);
            && (rest != [] ==> after < rest[0].minTXID)
            && ((exists f :: f in fs && f.minTXID == after + 1) <==> rest != [] && rest[0].minTXID == after + 1)
    decreases |fs|
  {
    if fs != [] {
      if fs[0].minTXID > after {
        assert fs[0] in fs && forall i :: 0 < i < |fs| ==> fs[0].minTXID <= fs[i].minTXID;
      } else {
        FirstListed(fs[1..], after);
        assert forall f :: f in fs && f.minTXID == after + 1 ==> f in fs[1..];
      }
    }
  }

  // Going through the files from `after` on stops in front of file k: the one before it is passed, and the
  // gap between is not bridged by level 1.
  ghost predicate StopsBefore(fs: seq<LtxFile>, l1: seq<LtxFile>, after: nat, cur: nat, k: nat) {
    && k < |fs| && after <= cur && cur + 1 < fs[k].minTXID
    && if k == 0 then !Bridges(l1, after, fs[0].minTXID) else fs[k - 1].maxTXID <= cur
  }

  // The last file is passed, or there is a gap in front of some file.
  ghost predicate PassedOrGap(fs: seq<LtxFile>, l1: seq<LtxFile>, after: nat, cur: nat) {
    End(fs) <= cur || exists k: nat :: StopsBefore(fs, l1, after, cur, k)
  }

  lemma PassableIsPassed(fs: seq<LtxFile>, l1: seq<LtxFile>, after: nat, cur: nat)
    requires PassedOrGap(fs, l1, after, cur) && Passable(fs, l1, after)
    ensures End(fs) <= cur
  {
    forall k: nat | k < |fs| ensures !StopsBefore(fs, l1, after, cur, k) {
      if k > 0 {
        assert fs[k].minTXID == fs[k - 1].maxTXID + 1;
      }
    }
  }

  // With `info` as the next file of level 0, the copy can go on.
  predicate NextGoesOn(levels: seq<seq<LtxFile>>, info: LtxFile, after: nat)
    requires SNAPSHOT_LEVEL < |levels|
  {
    info.minTXID == after + 1 || after < LevelsReach(levels, 1, after, info.minTXID)
  }

  lemma NextGoesOnIff(levels: seq<seq<LtxFile>>, info: LtxFile, after: nat)
    requires SNAPSHOT_LEVEL < |levels| && AllSorted(levels)
    ensures NextGoesOn(levels, info, after) <==>
              info.minTXID == after + 1 || !NoneHelps(levels, 1, SNAPSHOT_LEVEL, after)
  {
    LevelsFill(levels, 1, after, info.minTXID);
  }

  lemma SeekedFiles(h: History, levels: seq<seq<LtxFile>>, after: nat, faults: LtxFile -> Option<Break>)
    requires 0 < |levels| && AllFaithful(h, levels[0])
    ensures AllFaithful(h, After(levels[0], after))
    ensures forall f :: f in After(levels[0], after) ==> after < f.minTXID && f.maxTXID <= TopOfAll(levels)
    ensures NoFaultsAtAll(faults, levels) ==> NoFaults(faults, After(levels[0], after))
  {
    AfterIsSubset(levels[0], after);
    TopIsBelow(levels, 0);
  }

  lemma TopIsBelow(levels: seq<seq<LtxFile>>, l: nat)
    requires l < |levels|
    ensures Top(levels[l]) <= TopOfAll(levels)
  {
    if Top(levels[l]) > 0 {
      assert levels[l] != [];
      var f :| f in levels[l] && f.maxTXID == Top(levels[l]);
    }
  }

  lemma {:induction false} AfterIsSubset(fs: seq<LtxFile>, prev: nat)
    ensures forall f :: f in After(fs, prev) ==> f in fs && prev < f.minTXID
  {
    if fs != [] {
      AfterIsSubset(fs[1..], prev);
    }
  }

  // The copy is close to transaction t. When nothing beyond t was begun it is exactly the image at t,
  // unless that is empty: a file is never cut to size 0.
  ghost predicate CopyOf(h: History, t: nat, begun: nat, img: Image) {
    ValidHistory(h) && Near(h, t, begun, img) && (t == begun && Size(h, t) > 0 ==> img == ImageAt(h, t))
  }

  // Transactions added at the source do not disturb the copy.
  lemma CopyStays(h: History, g: History, t: nat, begun: nat, img: Image)
    requires CopyOf(h, t, begun, img) && ValidHistory(g) && |h| <= |g| && g[..|h|] == h
    ensures CopyOf(g, t, begun, img)
  {
    NearOfPrefix(h, g, t, begun, img);
    ImageOfPrefix(h, g, t);
  }

  class Follower {
    var img: Image
    var lastTXID: nat
    // The highest TXID of any file that was ever begun.
    ghost var begun: nat

    ghost predicate On(h: History, t: nat)
      reads this
    {
      CopyOf(h, t, begun, img)
    }

    // Start from a restored image, which may hold parts of transactions up to `upTo`.
    constructor (ghost h: History, restored: Image, txid: nat, ghost upTo: nat)
      requires ValidHistory(h) && Near(h, txid, upTo, restored) && (txid == upTo ==> restored == ImageAt(h, txid))
      ensures On(h, txid) && lastTXID == txid && begun == upTo && img == restored
    {
      img, lastTXID, begun := restored, txid, upTo;
    }

    // Write the pages in ascending order, then set the size.
    method WritePages(d: Delta, stop: Option<Break>) returns (ok: bool)
      requires d.Valid()
      modifies this`img
      ensures ok == (stop == None) && PartlyApplied(old(img), d, img)
      ensures ok ==> img == Written(old(img), d)
      ensures ok ==> (img == Apply(old(img), d) <==> d.commit > 0 || old(img) == [])
    {
      WrittenExactIff(img, d);
      for p := 1 to d.commit + 1
        invariant WrittenBelow(old(img), d, p, img) && (p == 1 ==> img == old(img))
      {
        if stop.Some? && stop.value.at == p {
          BrokenIsPart(old(img), d, p, img, stop.value.torn);
          img := Broken(img, d, p, stop.value.torn);
          return false;
        }
        WriteNext(old(img), d, p, img);
        if p in d.pages {
          img := WritePage(img, p, d.pages[p]);
        }
      }
      BrokenIsPart(old(img), d, d.commit + 1, img, None);
      if stop.Some? && stop.value.at == d.commit + 1 {
        return false;
      }
      if d.commit > 0 {
        WrittenAll(old(img), d, img);
        img := Truncate(img, d.commit);
      }
      ok := stop == None;
    }

    method ApplyFile(ghost h: History, ghost t: nat, f: LtxFile, stop: Option<Break>) returns (ok: bool)
      requires On(h, t) && Faithful(h, f) && Extends(t, f)
      modifies this`img, this`begun
      ensures ok == (stop == None) && On(h, if ok then f.maxTXID else t)
      ensures begun == Max(old(begun), f.maxTXID)
    {
      ok := WritePages(f.delta, stop);
      if ok {
        FullApply(h, t, begun, old(img), f);
        NearEmpty(h, f.maxTXID, Max(begun, f.maxTXID), img);
      } else {
        PartApply(h, t, begun, old(img), f, img);
      }
      begun := Max(begun, f.maxTXID);
    }

    // Apply what one compaction level has to offer, until the gap is bridged.
    method FillFromLevel(ghost h: History, fs: seq<LtxFile>, after: nat, gapMin: nat, faults: LtxFile -> Option<Break>,
                         ghost top: nat)
      returns (cur: nat, ok: bool, bridged: bool)
      requires On(h, after) && AllFaithful(h, fs) && forall f :: f in fs ==> f.maxTXID <= top
      modifies this`img, this`begun
      ensures On(h, cur) && after <= cur
      ensures NoFaults(faults, fs) ==> ok
      ensures ok ==> begun == Max(old(begun), cur)
      ensures begun <= Max(old(begun), top)
      ensures ok ==> cur == FillReach(fs, after, gapMin)
      ensures bridged ==> ok && gapMin <= cur + 1 && after < cur
    {
      cur, ok, bridged := after, true, false;
      var i := 0;
      assert fs[0..] == fs;
      while i < |fs|
        invariant 0 <= i <= |fs| && ok && !bridged && after <= cur && On(h, cur)
        invariant begun == Max(old(begun), cur)
        invariant begun <= Max(old(begun), top)
        invariant FillReach(fs, after, gapMin) == FillReach(fs[i..], cur, gapMin)
      {
        var info := fs[i];
        assert Faithful(h, info) && fs[i..][1..] == fs[i + 1..];
        if info.minTXID > cur + 1 {
          return;
        }
        i := i + 1;
        if info.maxTXID <= cur {
          continue;
        }
        ok := ApplyFile(h, cur, info, faults(info));
        if !ok {
          return;
        }
        cur := info.maxTXID;
        if cur + 1 >= gapMin {
          bridged := true;
          return;
        }
      }
    }

    // Bridge a gap in front of `gapMin` from the compaction levels, the first that helps.
    method Bridge(ghost h: History, levels: seq<seq<LtxFile>>, after: nat, gapMin: nat,
                  faults: LtxFile -> Option<Break>)
      returns (cur: nat, ok: bool)
      requires On(h, after) && Offers(h, levels)
      modifies this`img, this`begun
      ensures On(h, cur) && after <= cur
      ensures NoFaultsAtAll(faults, levels) ==> ok
      ensures ok ==> begun == Max(old(begun), cur)
      ensures begun <= Max(old(begun), TopOfAll(levels))
      ensures ok ==> cur == LevelsReach(levels, 1, after, gapMin)
      ensures ok && AllSorted(levels) ==> Filled(levels, 1, after, gapMin, cur)
      ensures ok && Bridges(levels[1], after, gapMin) ==> gapMin <= cur + 1
    {
      cur, ok := after, true;
      LevelsBridge(levels, after, gapMin);
      for level := 1 to SNAPSHOT_LEVEL
        invariant ok && cur == after && On(h, after)
        invariant begun == Max(old(begun), after) <= Max(old(begun), TopOfAll(levels))
        invariant LevelsReach(levels, 1, after, gapMin) == LevelsReach(levels, level, after, gapMin)
      {
        TopIsBelow(levels, level);
        var bridged;
        cur, ok, bridged := FillFromLevel(h, levels[level], cur, gapMin, faults, TopOfAll(levels));
        if !ok || bridged || cur > after {
          return;
        }
      }
    }

    // The next file of level 0, with a gap in front of it bridged if possible.
    method ApplyNext(ghost h: History, levels: seq<seq<LtxFile>>, after: nat, info: LtxFile,
                     faults: LtxFile -> Option<Break>)
      returns (cur: nat, ok: bool, stuck: bool)
      requires On(h, after) && Offers(h, levels)
      requires Faithful(h, info) && info.maxTXID <= TopOfAll(levels)
      modifies this`img, this`begun
      ensures On(h, cur) && after <= cur
      ensures NoFaultsAtAll(faults, levels) && faults(info) == None ==> ok
      ensures ok ==> begun == Max(old(begun), cur)
      ensures begun <= Max(old(begun), TopOfAll(levels))
      ensures ok && (info.minTXID <= after + 1 || Bridges(levels[1], after, info.minTXID)) ==> !stuck
      ensures ok ==> if stuck then cur + 1 < info.minTXID else info.maxTXID <= cur
      ensures ok && after < info.minTXID ==> (after < cur <==> NextGoesOn(levels, info, after))
    {
      cur, ok, stuck := after, true, false;
      if info.minTXID > cur + 1 {
        cur, ok := Bridge(h, levels, cur, info.minTXID, faults);
        stuck := ok && info.minTXID > cur + 1;
        if !ok || stuck {
          return;
        }
      }
      if info.maxTXID <= cur {
        return;
      }
      ok := ApplyFile(h, cur, info, faults(info));
      if ok {
        cur := info.maxTXID;
      }
    }

    method ApplyAll(ghost h: History, levels: seq<seq<LtxFile>>, fs: seq<LtxFile>, after: nat,
                    faults: LtxFile -> Option<Break>)
      returns (cur: nat, ok: bool)
      requires On(h, after) && Offers(h, levels)
      requires AllFaithful(h, fs) && forall f :: f in fs ==> after < f.minTXID && f.maxTXID <= TopOfAll(levels)
      modifies this`img, this`begun
      ensures On(h, cur) && after <= cur && (fs == [] ==> cur == after)
      ensures NoFaultsAtAll(faults, levels) && NoFaults(faults, fs) ==> ok
      ensures ok ==> begun == Max(old(begun), cur)
      ensures begun <= Max(old(begun), TopOfAll(levels))
      ensures ok ==> PassedOrGap(fs, levels[1], after, cur)
      ensures ok && fs != [] ==> (after < cur <==> NextGoesOn(levels, fs[0], after))
    {
      cur, ok := after, true;
      for i := 0 to |fs|
        invariant ok && after <= cur && On(h, cur) && (i == 0 ==> cur == after)
        invariant begun == Max(old(begun), cur) <= Max(old(begun), TopOfAll(levels))
        invariant 0 < i ==> fs[i - 1].maxTXID <= cur
        invariant 0 < i ==> after < cur && NextGoesOn(levels, fs[0], after)
      {
        var stuck;
        cur, ok, stuck := ApplyNext(h, levels, cur, fs[i], faults);
        if !ok || stuck {
          assert ok ==> StopsBefore(fs, levels[1], after, cur, i);
          return;
        }
      }
    }

    // One round: level 0 in order, with gaps bridged from the other levels.
    method ApplyNew(ghost h: History, levels: seq<seq<LtxFile>>, after: nat, faults: LtxFile -> Option<Break>)
      returns (cur: nat, ok: bool)
      requires On(h, after) && Offers(h, levels)
      modifies this`img, this`begun
      ensures On(h, cur) && after <= cur
      ensures NoFaultsAtAll(faults, levels) ==> ok
      ensures ok ==> begun == Max(old(begun), cur)
      ensures begun <= Max(old(begun), TopOfAll(levels))
      ensures ok && Continues(levels[0], levels[1], after) ==> End(levels[0]) <= cur
      ensures ok && AllSorted(levels) ==> (after < cur <==> GoesOn(levels, after))
      ensures ok ==> PassedOrGap(After(levels[0], after), levels[1], after, cur)
    {
      var fs := After(levels[0], after);
      SeekedFiles(h, levels, after, faults);
      if AllSorted(levels) {
        FirstListed(levels[0], after);
        if fs != [] {
          NextGoesOnIff(levels, fs[0], after);
        }
      }
      if Continues(levels[0], levels[1], after) {
        Seeked(levels[0], levels[1], after);
      }
      cur, ok := ApplyAll(h, levels, fs, after, faults);
      if ok && Continues(levels[0], levels[1], after) {
        PassableIsPassed(fs, levels[1], after, cur);
      }
      if ok && fs == [] {
        cur, ok := Bridge(h, levels, cur, cur + 1, faults);
      }
    }

    // Poll once. The new TXID is recorded only after a round without error.
    method Poll(ghost h: History, levels: seq<seq<LtxFile>>, faults: LtxFile -> Option<Break>, recordFails: bool)
      returns (ok: bool)
      requires On(h, lastTXID) && Offers(h, levels)
      modifies this
      ensures On(h, lastTXID) && old(lastTXID) <= lastTXID
      ensures !ok ==> lastTXID == old(lastTXID)
      ensures NoFaultsAtAll(faults, levels) && !recordFails ==> ok
      ensures begun <= Max(old(begun), TopOfAll(levels))
      ensures ok && old(begun) <= lastTXID && Size(h, lastTXID) > 0 ==> img == ImageAt(h, lastTXID)
      ensures ok && Continues(levels[0], levels[1], old(lastTXID)) ==> End(levels[0]) <= lastTXID
      ensures ok && AllSorted(levels) ==> (old(lastTXID) < lastTXID <==> GoesOn(levels, old(lastTXID)))
    {
      var cur;
      cur, ok := ApplyNew(h, levels, lastTXID, faults);
      if !ok || recordFails {
        NearEarlier(h, lastTXID, cur, begun, img);
        return false;
      }
      lastTXID := cur;
    }
  }
}
