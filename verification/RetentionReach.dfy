/**
 What retention is for: which files it keeps, said file by file, and that what could be restored from a
 snapshot that is kept can still be restored after the files below it are gone.
 */
module RetentionReach {
  import opened LtxFiles
  import opened RestorePlan
  import opened RestoreOptimal
  import opened LevelStore

  // --- What is kept ---------------------------------------------------------------------------

  // Retention by TXID keeps exactly what reaches the TXID, and the last file.
  lemma {:induction false} ReachKeptIff(fs: seq<LtxFile>, txid: nat, f: LtxFile)
    ensures f in ReachKept(fs, txid) <==> f in fs && (f.maxTXID >= txid || f == fs[|fs| - 1])
    decreases |fs|
  {
    if |fs| > 1 {
      ReachKeptIff(fs[1..], txid, f);
      assert fs == [fs[0]] + fs[1..];
    } else if |fs| == 1 {
      assert fs == [fs[0]];
    }
  }

  // Snapshot retention keeps exactly what is fresh, and the last snapshot.
  lemma {:induction false} FreshKeptIff(fs: seq<LtxFile>, timestamp: int, f: LtxFile)
    ensures f in FreshKept(fs, timestamp) <==> f in fs && (f.createdAt >= timestamp || f == fs[|fs| - 1])
    decreases |fs|
  {
    if |fs| > 1 {
      FreshKeptIff(fs[1..], timestamp, f);
      assert fs == [fs[0]] + fs[1..];
    } else if |fs| == 1 {
      assert fs == [fs[0]];
    }
  }

  // Level-0 retention removes exactly the files in level 1 that are old, with only old ones before them,
  // and are not the last.
  lemma {:induction false} L0KeptIff(fs: seq<LtxFile>, maxL1: nat, threshold: int, i: nat)
    requires i < |fs| && forall j, k :: 0 <= j < k < |fs| ==> fs[j] != fs[k]
    ensures fs[i] !in L0Kept(fs, maxL1, threshold) <==>
              i + 1 < |fs| && fs[i].maxTXID <= maxL1 && forall j :: 0 <= j <= i ==> fs[j].createdAt <= threshold
    ensures forall f :: f in L0Kept(fs, maxL1, threshold) ==> f in fs
    decreases |fs|
  {
    if |fs| > 1 && fs[0].createdAt <= threshold {
      var rest := fs[1..];
      assert forall j :: 0 <= j < |rest| ==> rest[j] == fs[j + 1];
      L0KeptIff(rest, maxL1, threshold, if i == 0 then 0 else i - 1);
      if i == 0 {
        assert fs[0] !in rest;
      } else {
        assert fs[i] == rest[i - 1] && fs[i] != fs[0];
        assert (forall j :: 0 <= j <= i ==> fs[j].createdAt <= threshold) <==>
               (forall j :: 0 <= j <= i - 1 ==> rest[j].createdAt <= threshold) by {
          if forall j :: 0 <= j <= i - 1 ==> rest[j].createdAt <= threshold {
            forall j | 0 <= j <= i ensures fs[j].createdAt <= threshold {
              assert j > 0 ==> fs[j] == rest[j - 1];
            }
          }
        }
      }
    }
  }

  // --- The lowest fresh snapshot --------------------------------------------------------------

  // txid is the label of a snapshot made at or after the time, no other such snapshot has a lower one,
  // and it is 0 if there is none.
  ghost predicate LowestFresh(fs: seq<LtxFile>, timestamp: int, txid: nat) {
    && (txid == 0 <==> forall f :: f in fs ==> f.createdAt < timestamp)
    && (txid != 0 ==> exists f :: f in fs && f.createdAt >= timestamp && f.maxTXID == txid)
    && (forall f :: f in fs && f.createdAt >= timestamp ==> txid <= f.maxTXID)
  }

  ghost predicate Labelled(fs: seq<LtxFile>) {
    forall f :: f in fs ==> 1 <= f.maxTXID
  }

  lemma {:induction false} MinFreshIsLowest(fs: seq<LtxFile>, timestamp: int)
    requires Labelled(fs)
    ensures LowestFresh(fs, timestamp, MinFresh(fs, timestamp))
  {
    if fs != [] {
      var n := |fs| - 1;
      MinFreshIsLowest(fs[..n], timestamp);
      assert fs == fs[..n] + [fs[n]];
      assert forall f :: f in fs <==> f in fs[..n] || f == fs[n];
    }
  }

  // --- What can still be restored -------------------------------------------------------------

  // A file that a restore may use: of a compaction level, or a snapshot made at or after the time.
  ghost predicate Usable(levels: seq<seq<LtxFile>>, timestamp: int, f: LtxFile)
    requires |levels| == SNAPSHOT_LEVEL + 1
  {
    || (exists l :: 0 <= l < SNAPSHOT_LEVEL && f in levels[l])
    || (f in levels[SNAPSHOT_LEVEL] && f.createdAt >= timestamp)
  }

  ghost predicate UsableChain(levels: seq<seq<LtxFile>>, timestamp: int, cs: seq<LtxFile>)
    requires |levels| == SNAPSHOT_LEVEL + 1
  {
    Chain(0, cs) && forall k :: 0 <= k < |cs| ==> Usable(levels, timestamp, cs[k])
  }

  // A gap-free chain from TXID 1 of such files ends at t.
  ghost predicate Reaches(levels: seq<seq<LtxFile>>, timestamp: int, t: nat)
    requires |levels| == SNAPSHOT_LEVEL + 1
  {
    exists cs :: UsableChain(levels, timestamp, cs) && Reach(0, cs) == t
  }

  // The first file of a chain that ends beyond t.
  lemma {:induction false} FirstBeyond(cs: seq<LtxFile>, t: nat) returns (k: nat)
    requires Chain(0, cs) && t < Reach(0, cs)
    ensures k < |cs| && ReachAt(0, cs, k) <= t < cs[k].maxTXID
    decreases |cs|
  {
    var n := |cs| - 1;
    if ReachAt(0, cs, n) <= t {
      k := n;
    } else {
      ChainPrefix(0, cs, n);
      k := FirstBeyond(cs[..n], t);
      assert ReachAt(0, cs, k) == ReachAt(0, cs[..n], k);
    }
  }

  // A snapshot takes the place of the part of a chain that it covers.
  lemma SnapshotReplaces(s: LtxFile, cs: seq<LtxFile>) returns (ds: seq<LtxFile>)
    requires Chain(0, cs) && 1 == s.minTXID <= s.maxTXID <= Reach(0, cs)
    ensures Chain(0, ds) && Reach(0, ds) == Reach(0, cs)
    ensures forall k :: 0 <= k < |ds| ==> ds[k] == s || (ds[k] in cs && s.maxTXID < ds[k].maxTXID)
  {
    assert Chain(0, [s]);
    if s.maxTXID == Reach(0, cs) {
      ds := [s];
    } else {
      var k := FirstBeyond(cs, s.maxTXID);
      var rest := cs[k..];
      ChainSuffix(0, cs, k);
      assert Extends(ReachAt(0, cs, k), cs[k]);
      LaterStart(ReachAt(0, cs, k), s.maxTXID, rest);
      ChainConcat(0, [s], rest);
      ds := [s] + rest;
      forall i | 0 <= i < |rest| ensures s.maxTXID < rest[i].maxTXID {
        ChainAscends(s.maxTXID, rest, i);
      }
    }
  }

  // A chain may start anywhere below the end of its first file.
  lemma LaterStart(start: nat, start': nat, fs: seq<LtxFile>)
    requires Chain(start, fs) && fs != [] && start <= start' < fs[0].maxTXID
    ensures Chain(start', fs) && Reach(start', fs) == Reach(start, fs)
  {
    forall k | 0 <= k < |fs| ensures Extends(ReachAt(start', fs, k), fs[k]) {
      assert Extends(ReachAt(start, fs, k), fs[k]);
    }
  }

  // Nothing is lost at or above a snapshot that stays, when every usable file that ends beyond it stays.
  lemma StillReaches(before: seq<seq<LtxFile>>, after: seq<seq<LtxFile>>, timestamp: int, s: LtxFile, t: nat)
    requires |before| == |after| == SNAPSHOT_LEVEL + 1 && Usable(after, timestamp, s)
    requires 1 == s.minTXID <= s.maxTXID <= t
    requires forall f :: Usable(before, timestamp, f) && s.maxTXID < f.maxTXID ==> Usable(after, timestamp, f)
    ensures Reaches(before, timestamp, t) ==> Reaches(after, timestamp, t)
  {
    if cs :| UsableChain(before, timestamp, cs) && Reach(0, cs) == t {
      var ds := SnapshotReplaces(s, cs);
      forall k | 0 <= k < |ds| ensures Usable(after, timestamp, ds[k]) {
        if ds[k] != s {
          var j :| 0 <= j < |cs| && cs[j] == ds[k];
          assert Usable(before, timestamp, cs[j]);
        }
      }
      assert UsableChain(after, timestamp, ds);
    }
  }

  // Fewer files reach less.
  lemma ReachesLess(levels: seq<seq<LtxFile>>, less: seq<seq<LtxFile>>, timestamp: int, t: nat)
    requires |levels| == |less| == SNAPSHOT_LEVEL + 1
    requires forall f :: Usable(less, timestamp, f) ==> Usable(levels, timestamp, f)
    ensures Reaches(less, timestamp, t) ==> Reaches(levels, timestamp, t)
  {
    if cs :| UsableChain(less, timestamp, cs) && Reach(0, cs) == t {
      assert UsableChain(levels, timestamp, cs);
    }
  }

  // The levels after the cascade with one time: the snapshots, then levels 1 to n by the lowest of those
  // that are fresh.
  ghost predicate Cascaded(before: seq<seq<LtxFile>>, after: seq<seq<LtxFile>>, timestamp: int, n: nat) {
    && |before| == |after| == SNAPSHOT_LEVEL + 1 && after[0] == before[0]
    && after[SNAPSHOT_LEVEL] == FreshKept(before[SNAPSHOT_LEVEL], timestamp)
    && forall l :: 1 <= l < SNAPSHOT_LEVEL ==>
         after[l] == if l <= n then ReachKept(before[l], MinFresh(before[SNAPSHOT_LEVEL], timestamp)) else before[l]
  }

  lemma CascadeKeepsUsable(before: seq<seq<LtxFile>>, after: seq<seq<LtxFile>>, timestamp: int, n: nat, f: LtxFile)
    requires Cascaded(before, after, timestamp, n)
    ensures Usable(after, timestamp, f) ==> Usable(before, timestamp, f)
    ensures Usable(before, timestamp, f) && MinFresh(before[SNAPSHOT_LEVEL], timestamp) <= f.maxTXID ==>
              Usable(after, timestamp, f)
  {
    var txid := MinFresh(before[SNAPSHOT_LEVEL], timestamp);
    FreshKeptIff(before[SNAPSHOT_LEVEL], timestamp, f);
    forall l | 0 <= l < SNAPSHOT_LEVEL
      ensures f in after[l] ==> f in before[l]
      ensures f in before[l] && txid <= f.maxTXID ==> f in after[l]
    {
      ReachKeptIff(before[l], txid, f);
    }
  }

  // What the cascade is for: at or above any snapshot that is fresh, exactly what could be restored from
  // compaction files and fresh snapshots before can be restored from them afterwards.
  lemma CascadeLosesNothing(before: seq<seq<LtxFile>>, after: seq<seq<LtxFile>>, timestamp: int, n: nat,
                            s: LtxFile, t: nat)
    requires Cascaded(before, after, timestamp, n)
    requires forall f :: f in before[SNAPSHOT_LEVEL] ==> 1 == f.minTXID <= f.maxTXID
    requires s in before[SNAPSHOT_LEVEL] && s.createdAt >= timestamp && s.maxTXID <= t
    ensures Reaches(after, timestamp, t) <==> Reaches(before, timestamp, t)
  {
    var snaps := before[SNAPSHOT_LEVEL];
    MinFreshIsLowest(snaps, timestamp);
    var low :| low in snaps && low.createdAt >= timestamp && low.maxTXID == MinFresh(snaps, timestamp);
    forall f
      ensures Usable(after, timestamp, f) ==> Usable(before, timestamp, f)
      ensures Usable(before, timestamp, f) && low.maxTXID <= f.maxTXID ==> Usable(after, timestamp, f)
    {
      CascadeKeepsUsable(before, after, timestamp, n, f);
    }
    StillReaches(before, after, timestamp, low, t);
    ReachesLess(before, after, timestamp, t);
  }

  lemma CascadeIsSafe(before: seq<seq<LtxFile>>, after: seq<seq<LtxFile>>, timestamp: int, n: nat)
    requires Cascaded(before, after, timestamp, n)
    requires forall f :: f in before[SNAPSHOT_LEVEL] ==> 1 == f.minTXID <= f.maxTXID
    ensures forall s, t: nat :: s in before[SNAPSHOT_LEVEL] && s.createdAt >= timestamp && s.maxTXID <= t ==>
              (Reaches(after, timestamp, t) <==> Reaches(before, timestamp, t))
  {
    forall s, t: nat | s in before[SNAPSHOT_LEVEL] && s.createdAt >= timestamp && s.maxTXID <= t
      ensures Reaches(after, timestamp, t) <==> Reaches(before, timestamp, t)
    {
      CascadeLosesNothing(before, after, timestamp, n, s, t);
    }
  }

  // A single pass over one level, at any time after its TXID was returned, loses nothing at or above a
  // stored snapshot whose label is not below that TXID.
  lemma PassLosesNothing(before: seq<seq<LtxFile>>, level: nat, txid: nat, timestamp: int, s: LtxFile, t: nat)
    requires |before| == SNAPSHOT_LEVEL + 1 && 1 <= level < SNAPSHOT_LEVEL
    requires s in before[SNAPSHOT_LEVEL] && s.createdAt >= timestamp && 1 == s.minTXID && txid <= s.maxTXID <= t
    requires 1 <= s.maxTXID
    ensures var after := before[level := ReachKept(before[level], txid)];
            Reaches(after, timestamp, t) <==> Reaches(before, timestamp, t)
  {
    var after := before[level := ReachKept(before[level], txid)];
    forall f
      ensures Usable(after, timestamp, f) ==> Usable(before, timestamp, f)
      ensures Usable(before, timestamp, f) && s.maxTXID < f.maxTXID ==> Usable(after, timestamp, f)
    {
      ReachKeptIff(before[level], txid, f);
      forall l | 0 <= l < SNAPSHOT_LEVEL
        ensures f in after[l] ==> f in before[l]
        ensures f in before[l] && s.maxTXID < f.maxTXID ==> f in after[l]
      {
      }
    }
    StillReaches(before, after, timestamp, s, t);
    ReachesLess(before, after, timestamp, t);
  }
}
