/**
 The restore planner: pick the latest usable snapshot, then repeatedly take the file, from any
 compaction level, that extends the covered TXID range the furthest. Each level is streamed
 through a cursor that remembers a single candidate.
 */
module RestorePlan {
  import opened Pages
  import opened LtxFiles

  const SNAPSHOT_LEVEL := 9

  // Listings arrive in filename order: by minimum TXID, then by maximum TXID.
  predicate InOrder(f: LtxFile, g: LtxFile) {
    f.minTXID < g.minTXID || (f.minTXID == g.minTXID && f.maxTXID <= g.maxTXID)
  }

  ghost predicate Sorted(fs: seq<LtxFile>) {
    forall i, j :: 0 <= i < j < |fs| ==> InOrder(fs[i], fs[j])
  }

  // What to restore: up to a TXID (0 if unset), or what was created before a point in time.
  datatype Target = Target(txID: nat, before: Option<int>)

  const LATEST := Target(0, None)

  predicate Eligible(t: Target, f: LtxFile) {
    && (t.txID != 0 ==> f.maxTXID <= t.txID)
    && (t.before.Some? ==> f.createdAt < t.before.value)
  }

  // `next` is preferred over `curr`: longer reach, then wider, then higher level, then older.
  predicate Better(curr: LtxFile, next: LtxFile) {
    if next.maxTXID != curr.maxTXID then next.maxTXID > curr.maxTXID
    else if next.minTXID != curr.minTXID then next.minTXID < curr.minTXID
    else if next.level != curr.level then next.level > curr.level
    else next.createdAt < curr.createdAt
  }

  class LevelCursor {
    const files: seq<LtxFile>
    var read: nat
    var current: Option<LtxFile>
    var candidate: Option<LtxFile>
    var done: bool

    constructor (files: seq<LtxFile>)
      requires Sorted(files)
      ensures this.files == files && Valid() && Evaluated() == 0
      ensures candidate == None && !done
    {
      this.files := files;
      read, current, candidate, done := 0, None, None, false;
    }

    ghost predicate Valid()
      reads this
    {
      && read <= |files| && Sorted(files)
      && (current.Some? ==> 0 < read && current.value == files[read - 1])
      && (done ==> read == |files| && current == None)
    }

    // How many files have been looked at and either kept as the candidate or dropped.
    ghost function Evaluated(): (n: nat)
      requires Valid()
      reads this
    {
      if current.Some? then read - 1 else read
    }

    // The cursor is over `level`, and whatever it dropped cannot extend `cur` better than the
    // candidate does.
    ghost predicate Covers(level: seq<LtxFile>, t: Target, cur: nat)
      reads this
    {
      && files == level && Valid()
      && (candidate.Some? ==>
            && candidate.value in files && Eligible(t, candidate.value)
            && candidate.value.minTXID <= cur + 1)
      && (forall i :: 0 <= i < Evaluated() ==> files[i].minTXID <= cur + 1)
      && forall i :: 0 <= i < Evaluated() && Eligible(t, files[i]) && cur < files[i].maxTXID ==>
           candidate.Some? && !Better(candidate.value, files[i])
    }

    // No file that could be contiguous with `cur` is still waiting, and only an exhausted
    // cursor can hold a candidate that has become useless.
    ghost predicate Fresh(cur: nat)
      reads this
    {
      && Valid()
      && (forall i :: Evaluated() <= i < |files| ==> cur + 1 < files[i].minTXID)
      && (done || current.Some?)
      && (!done && candidate.Some? ==> cur < candidate.value.maxTXID)
    }

    // Dropping a candidate that reaches no further than `cur` loses nothing.
    method DropCandidate(ghost level: seq<LtxFile>, ghost t: Target, ghost cur: nat)
      requires Covers(level, t, cur) && candidate.Some? && candidate.value.maxTXID <= cur
      modifies this`candidate
      ensures Covers(level, t, cur) && candidate == None
    {
      candidate := None;
    }

    method EnsureCurrent()
      requires Valid()
      modifies this
      ensures Valid() && Evaluated() == old(Evaluated()) && candidate == old(candidate)
      ensures done || current.Some?
      ensures old(done || current.Some?) ==> unchanged(this)
    {
      if done || current.Some? {
        return;
      }
      if read == |files| {
        done := true;
        return;
      }
      current := Some(files[read]);
      read := read + 1;
    }

    // Consume the file under the cursor, which starts early enough to extend the plan.
    method TakeCurrent(ghost level: seq<LtxFile>, t: Target, cur: nat)
      requires Covers(level, t, cur) && !done && current.Some? && current.value.minTXID <= cur + 1
      requires candidate.Some? ==> cur < candidate.value.maxTXID
      modifies this`current, this`candidate
      ensures Covers(level, t, cur) && Evaluated() == old(Evaluated()) + 1
      ensures candidate.Some? ==> cur < candidate.value.maxTXID
    {
      var info := current.value;
      current := None;
      if info.maxTXID <= cur || !Eligible(t, info) {
        return;
      }
      if candidate == None || Better(candidate.value, info) {
        candidate := Some(info);
      }
    }

    method Refresh(ghost level: seq<LtxFile>, t: Target, cur: nat)
      requires Covers(level, t, cur)
      modifies this
      ensures Covers(level, t, cur) && Fresh(cur)
      ensures old(done) ==> done && candidate == old(candidate)
    {
      if done {
        return;
      }
      if candidate.Some? && candidate.value.maxTXID <= cur {
        candidate := None;
      }
      while true
        invariant Covers(level, t, cur) && !done
        invariant candidate.Some? ==> cur < candidate.value.maxTXID
        decreases |files| - Evaluated()
      {
        EnsureCurrent();
        if done || current.value.minTXID > cur + 1 {
          return;
        }
        TakeCurrent(level, t, cur);
      }
    }
  }

  // The last snapshot in listing order that the target admits.
  function ChosenSnapshot(snapshots: seq<LtxFile>, t: Target): (s: seq<LtxFile>)
    ensures |s| <= 1
  {
    if snapshots == [] then []
    else
      var last := snapshots[|snapshots| - 1];
      if Eligible(t, last) then [last] else ChosenSnapshot(snapshots[..|snapshots| - 1], t)
  }

  // The chosen snapshot is admitted, and it is the last such: in filename order, the one that
  // reaches the furthest of those with the same minimum TXID.
  lemma {:induction false} SnapshotIsListed(snapshots: seq<LtxFile>, t: Target)
    ensures forall f :: f in ChosenSnapshot(snapshots, t) ==> f in snapshots && Eligible(t, f)
    ensures ChosenSnapshot(snapshots, t) == [] ==> forall f :: f in snapshots ==> !Eligible(t, f)
    ensures Sorted(snapshots) ==>
              forall f, s :: f in snapshots && Eligible(t, f) && s in ChosenSnapshot(snapshots, t) ==> InOrder(f, s)
  {
    if snapshots != [] {
      var n := |snapshots| - 1;
      SnapshotIsListed(snapshots[..n], t);
      assert snapshots == snapshots[..n] + [snapshots[n]];
    }
  }

  // All files at the compaction levels (not the snapshot level) that the target admits.
  ghost function Pool(levels: seq<seq<LtxFile>>, t: Target): set<LtxFile>
    requires |levels| == SNAPSHOT_LEVEL + 1
  {
    set l, i | 0 <= l < SNAPSHOT_LEVEL && 0 <= i < |levels[l]| && Eligible(t, levels[l][i]) :: levels[l][i]
  }

  // Interval-cover greedy over all files at once: every pick is a best extension.
  ghost predicate Greedy(pool: set<LtxFile>, start: nat, fs: seq<LtxFile>) {
    && Chain(start, fs)
    && forall k {:trigger ReachAt(start, fs, k)} :: 0 <= k < |fs| ==> BestPick(pool, ReachAt(start, fs, k), fs[k])
  }

  ghost predicate BestPick(pool: set<LtxFile>, cur: nat, f: LtxFile) {
    f in pool && forall g :: g in pool && Extends(cur, g) ==> !Better(f, g)
  }

  ghost predicate Stuck(pool: set<LtxFile>, cur: nat) {
    forall f :: f in pool ==> !Extends(cur, f)
  }

  // `fs` is the chosen snapshot, if any, followed by greedy picks until the target is reached
  // or nothing extends the plan any more.
  ghost predicate IsPlan(levels: seq<seq<LtxFile>>, t: Target, fs: seq<LtxFile>)
    requires |levels| == SNAPSHOT_LEVEL + 1
  {
    var snap := ChosenSnapshot(levels[SNAPSHOT_LEVEL], t);
    && snap <= fs
    && Greedy(Pool(levels, t), Reach(0, snap), fs[|snap|..])
    && ((t.txID != 0 && t.txID <= Reach(0, fs)) || Stuck(Pool(levels, t), Reach(0, fs)))
  }

  // Some compaction level holds a file that starts past a gap after `cur`.
  ghost predicate GapAfter(levels: seq<seq<LtxFile>>, cur: nat)
    requires |levels| == SNAPSHOT_LEVEL + 1
  {
    exists l, i :: 0 <= l < SNAPSHOT_LEVEL && 0 <= i < |levels[l]| && cur + 1 < levels[l][i].minTXID
  }

  datatype PlanResult =
    | Plan(files: seq<LtxFile>)
    | ErrBothTargets
    | ErrNonContiguous(have: nat, next: nat)
    | ErrTxNotAvailable

  ghost predicate IsResult(levels: seq<seq<LtxFile>>, t: Target, found: seq<LtxFile>, r: PlanResult)
    requires |levels| == SNAPSHOT_LEVEL + 1
  {
    if t.txID != 0 && t.before.Some? then r == ErrBothTargets
    else if t == LATEST && found != [] && GapAfter(levels, Reach(0, found)) then
      r.ErrNonContiguous? && r.have == Reach(0, found) && r.have + 1 < r.next
    else if found == [] || Reach(0, found) < t.txID then r == ErrTxNotAvailable
    else r == Plan(found)
  }

  method FindSnapshot(snapshots: seq<LtxFile>, t: Target) returns (s: seq<LtxFile>)
    ensures s == ChosenSnapshot(snapshots, t)
  {
    s := [];
    for i := 0 to |snapshots|
      invariant s == ChosenSnapshot(snapshots[..i], t)
    {
      assert snapshots[..i + 1][..i] == snapshots[..i];
      if Eligible(t, snapshots[i]) {
        s := [snapshots[i]];
      }
    }
    assert snapshots[..|snapshots|] == snapshots;
  }

  ghost predicate Distinct(cs: seq<LevelCursor>) {
    forall i, j :: 0 <= i < j < |cs| ==> cs[i] != cs[j]
  }

  // One cursor per compaction level, highest level first, none of which lost anything useful.
  ghost predicate Covering(levels: seq<seq<LtxFile>>, cs: seq<LevelCursor>, t: Target, cur: nat)
    requires |levels| == SNAPSHOT_LEVEL + 1
    reads cs
  {
    && |cs| == SNAPSHOT_LEVEL
    && forall i :: 0 <= i < |cs| ==> cs[i].Covers(levels[SNAPSHOT_LEVEL - 1 - i], t, cur)
  }

  ghost predicate AllFresh(cs: seq<LevelCursor>, cur: nat)
    reads cs
  {
    forall i :: 0 <= i < |cs| ==> cs[i].Fresh(cur)
  }

  // Exhausted cursors without a candidate: they have nothing left to offer.
  ghost predicate Retired(cs: seq<LevelCursor>, retired: set<int>)
    reads cs
  {
    forall i :: i in retired ==> 0 <= i < |cs| && cs[i].done && cs[i].candidate == None
  }

  method OpenCursors(levels: seq<seq<LtxFile>>, t: Target, cur: nat) returns (cs: seq<LevelCursor>)
    requires |levels| == SNAPSHOT_LEVEL + 1
    requires forall l :: 0 <= l < SNAPSHOT_LEVEL ==> Sorted(levels[l])
    ensures Distinct(cs) && Covering(levels, cs, t, cur) && fresh(cs)
  {
    cs := [];
    for i := 0 to SNAPSHOT_LEVEL
      invariant |cs| == i && Distinct(cs) && fresh(cs)
      invariant forall j :: 0 <= j < i ==> cs[j].Covers(levels[SNAPSHOT_LEVEL - 1 - j], t, cur)
    {
      var c := new LevelCursor(levels[SNAPSHOT_LEVEL - 1 - i]);
      cs := cs + [c];
    }
  }

  method RefreshAll(levels: seq<seq<LtxFile>>, cs: seq<LevelCursor>, t: Target, cur: nat, ghost retired: set<int>)
    requires |levels| == SNAPSHOT_LEVEL + 1 && Distinct(cs) && Covering(levels, cs, t, cur)
    requires Retired(cs, retired)
    modifies cs
    ensures Covering(levels, cs, t, cur) && AllFresh(cs, cur) && Retired(cs, retired)
  {
    for i := 0 to |cs|
      invariant Covering(levels, cs, t, cur) && Retired(cs, retired)
      invariant forall j :: 0 <= j < i ==> cs[j].Fresh(cur)
    {
      cs[i].Refresh(levels[SNAPSHOT_LEVEL - 1 - i], t, cur);
    }
  }

  // The first of the best candidates, or -1 if there is none.
  method SelectBest(cs: seq<LevelCursor>) returns (next: int)
    ensures -1 <= next < |cs|
    ensures next == -1 ==> forall i :: 0 <= i < |cs| ==> cs[i].candidate == None
    ensures next != -1 ==> cs[next].candidate.Some?
    ensures next != -1 ==>
              forall i :: 0 <= i < |cs| && cs[i].candidate.Some? ==>
                !Better(cs[next].candidate.value, cs[i].candidate.value)
  {
    next := -1;
    for i := 0 to |cs|
      invariant -1 <= next < i
      invariant next == -1 ==> forall j :: 0 <= j < i ==> cs[j].candidate == None
      invariant next != -1 ==> cs[next].candidate.Some?
      invariant next != -1 ==>
                  forall j :: 0 <= j < i && cs[j].candidate.Some? ==>
                    !Better(cs[next].candidate.value, cs[j].candidate.value)
    {
      if cs[i].candidate.Some? && (next == -1 || Better(cs[next].candidate.value, cs[i].candidate.value)) {
        next := i;
      }
    }
  }

  lemma BestCandidateIsBestPick(levels: seq<seq<LtxFile>>, cs: seq<LevelCursor>, t: Target, cur: nat, next: int)
    requires |levels| == SNAPSHOT_LEVEL + 1 && Covering(levels, cs, t, cur)
    requires AllFresh(cs, cur)
    requires 0 <= next < |cs| && cs[next].candidate.Some? && cur < cs[next].candidate.value.maxTXID
    requires forall i :: 0 <= i < |cs| && cs[i].candidate.Some? ==>
               !Better(cs[next].candidate.value, cs[i].candidate.value)
    ensures Extends(cur, cs[next].candidate.value)
    ensures BestPick(Pool(levels, t), cur, cs[next].candidate.value)
  {
    var f := cs[next].candidate.value;
    assert cs[next].Covers(levels[SNAPSHOT_LEVEL - 1 - next], t, cur);
    assert f in levels[SNAPSHOT_LEVEL - 1 - next];
    forall g | g in Pool(levels, t) && Extends(cur, g)
      ensures !Better(f, g)
    {
      var l :| 0 <= l < SNAPSHOT_LEVEL && g in levels[l];
      var c := cs[SNAPSHOT_LEVEL - 1 - l];
      assert c.Covers(levels[l], t, cur) && c.Fresh(cur);
      var i :| 0 <= i < |c.files| && c.files[i] == g;
      assert i < c.Evaluated();
      assert !Better(c.candidate.value, g);
    }
  }

  lemma NoCandidateIsStuck(levels: seq<seq<LtxFile>>, cs: seq<LevelCursor>, t: Target, cur: nat)
    requires |levels| == SNAPSHOT_LEVEL + 1 && Covering(levels, cs, t, cur)
    requires AllFresh(cs, cur) && forall i :: 0 <= i < |cs| ==> cs[i].candidate == None
    ensures Stuck(Pool(levels, t), cur)
  {
    forall g | g in Pool(levels, t)
      ensures !Extends(cur, g)
    {
      var l :| 0 <= l < SNAPSHOT_LEVEL && g in levels[l];
      var c := cs[SNAPSHOT_LEVEL - 1 - l];
      assert c.Covers(levels[l], t, cur) && c.Fresh(cur);
      var i :| 0 <= i < |c.files| && c.files[i] == g;
    }
  }

  // Highest TXID among the files.
  function Top(fs: seq<LtxFile>): (m: nat)
    ensures forall f :: f in fs ==> f.maxTXID <= m
    ensures fs != [] ==> exists f :: f in fs && f.maxTXID == m
    ensures fs == [] ==> m == 0
  {
    if fs == [] then 0
    else
      var rest := Top(fs[1..]);
      if |fs| > 1 && rest > fs[0].maxTXID then rest else fs[0].maxTXID
  }

  function TopOfAll(levels: seq<seq<LtxFile>>): (m: nat)
    ensures forall l, f :: 0 <= l < |levels| && f in levels[l] ==> f.maxTXID <= m
  {
    if levels == [] then 0
    else
      var rest := TopOfAll(levels[1..]);
      if rest > Top(levels[0]) then rest else Top(levels[0])
  }

  lemma GreedyAppend(pool: set<LtxFile>, start: nat, fs: seq<LtxFile>, f: LtxFile)
    requires Greedy(pool, start, fs)
    requires Extends(Reach(start, fs), f) && BestPick(pool, Reach(start, fs), f)
    ensures Greedy(pool, start, fs + [f])
  {
    var gs := fs + [f];
    forall k | 0 <= k < |gs|
      ensures Extends(ReachAt(start, gs, k), gs[k]) && BestPick(pool, ReachAt(start, gs, k), gs[k])
    {
      assert ReachAt(start, gs, k) == ReachAt(start, fs, k);
      assert gs[k] == if k < |fs| then fs[k] else f;
    }
  }

  lemma PoolBelowTop(levels: seq<seq<LtxFile>>, t: Target, f: LtxFile)
    requires |levels| == SNAPSHOT_LEVEL + 1 && f in Pool(levels, t)
    ensures f.maxTXID <= TopOfAll(levels)
  {
  }

  // One round of the planner: the next file to add, or none. Without a pick and without being
  // stuck, the round only discarded the useless candidate of an exhausted cursor.
  method NextPick(levels: seq<seq<LtxFile>>, cs: seq<LevelCursor>, t: Target, cur: nat, ghost retired: set<int>)
    returns (pick: Option<LtxFile>, stuck: bool, ghost retired': set<int>)
    requires |levels| == SNAPSHOT_LEVEL + 1 && Distinct(cs) && Covering(levels, cs, t, cur)
    requires Retired(cs, retired)
    modifies cs
    ensures Retired(cs, retired')
    ensures stuck ==> pick == None && Stuck(Pool(levels, t), cur) && AllFresh(cs, cur)
    ensures pick.Some? ==> Extends(cur, pick.value) && BestPick(Pool(levels, t), cur, pick.value)
    ensures Covering(levels, cs, t, if pick.Some? then pick.value.maxTXID else cur)
    ensures pick == None && !stuck ==> CursorIds() - retired' < CursorIds() - retired
  {
    retired' := retired;
    RefreshAll(levels, cs, t, cur, retired);
    var next := SelectBest(cs);
    if next == -1 {
      NoCandidateIsStuck(levels, cs, t, cur);
      return None, true, retired;
    }
    if cs[next].candidate.value.maxTXID <= cur {
      DropAt(levels, cs, t, cur, retired, next, cs[next]);
      retired' := retired + {next};
      assert next in CursorIds() - retired && next !in CursorIds() - retired';
      return None, false, retired';
    }
    BestCandidateIsBestPick(levels, cs, t, cur, next);
    pick, stuck := cs[next].candidate, false;
    CoversLater(levels, cs, t, cur, pick.value.maxTXID);
    DropAt(levels, cs, t, pick.value.maxTXID, retired, next, cs[next]);
  }

  method DropAt(ghost levels: seq<seq<LtxFile>>, cs: seq<LevelCursor>, ghost t: Target, ghost cur: nat,
                ghost retired: set<int>, next: int, c: LevelCursor)
    requires |levels| == SNAPSHOT_LEVEL + 1 && Distinct(cs) && Covering(levels, cs, t, cur)
    requires Retired(cs, retired)
    requires 0 <= next < |cs| && c == cs[next] && c.candidate.Some? && c.candidate.value.maxTXID <= cur
    modifies c`candidate
    ensures Covering(levels, cs, t, cur) && c.candidate == None && Retired(cs, retired)
  {
    c.DropCandidate(levels[SNAPSHOT_LEVEL - 1 - next], t, cur);
  }

  lemma CoversLater(levels: seq<seq<LtxFile>>, cs: seq<LevelCursor>, t: Target, cur: nat, reached: nat)
    requires |levels| == SNAPSHOT_LEVEL + 1 && Covering(levels, cs, t, cur) && cur <= reached
    ensures Covering(levels, cs, t, reached)
  {
    forall i | 0 <= i < |cs| ensures cs[i].Covers(levels[SNAPSHOT_LEVEL - 1 - i], t, reached) {
      assert cs[i].Covers(levels[SNAPSHOT_LEVEL - 1 - i], t, cur);
    }
  }

  ghost function CursorIds(): set<int> {
    {0, 1, 2, 3, 4, 5, 6, 7, 8}
  }

  // Extend the plan greedily until the target is reached or nothing extends it.
  method ExtendPlan(levels: seq<seq<LtxFile>>, cs: seq<LevelCursor>, t: Target, start: nat)
    returns (picks: seq<LtxFile>, cur: nat)
    requires |levels| == SNAPSHOT_LEVEL + 1 && Distinct(cs) && Covering(levels, cs, t, start)
    requires start <= TopOfAll(levels)
    modifies cs
    ensures Greedy(Pool(levels, t), start, picks) && cur == Reach(start, picks) && Covering(levels, cs, t, cur)
    ensures !(t.txID != 0 && t.txID <= cur) ==> Stuck(Pool(levels, t), cur) && AllFresh(cs, cur)
  {
    picks, cur := [], start;
    ghost var top, retired := TopOfAll(levels), {};
    while !(t.txID != 0 && cur >= t.txID)
      invariant Covering(levels, cs, t, cur) && cur == Reach(start, picks) <= top
      invariant Greedy(Pool(levels, t), start, picks)
      invariant Retired(cs, retired)
      decreases top - cur, CursorIds() - retired
    {
      var pick, stuck;
      pick, stuck, retired := NextPick(levels, cs, t, cur, retired);
      if stuck {
        return;
      }
      if pick.Some? {
        GreedyAppend(Pool(levels, t), start, picks, pick.value);
        PoolBelowTop(levels, t, pick.value);
        picks, cur := picks + [pick.value], pick.value.maxTXID;
      }
    }
  }

  lemma PicksMakePlan(levels: seq<seq<LtxFile>>, t: Target, snap: seq<LtxFile>, picks: seq<LtxFile>)
    requires |levels| == SNAPSHOT_LEVEL + 1 && snap == ChosenSnapshot(levels[SNAPSHOT_LEVEL], t)
    requires Greedy(Pool(levels, t), Reach(0, snap), picks)
    requires var cur := Reach(Reach(0, snap), picks); (t.txID != 0 && t.txID <= cur) || Stuck(Pool(levels, t), cur)
    ensures IsPlan(levels, t, snap + picks) && Reach(0, snap + picks) == Reach(Reach(0, snap), picks)
  {
    assert (snap + picks)[|snap|..] == picks;
  }

  method CalcRestorePlan(levels: seq<seq<LtxFile>>, t: Target) returns (r: PlanResult, ghost found: seq<LtxFile>)
    requires |levels| == SNAPSHOT_LEVEL + 1
    requires forall l :: 0 <= l < SNAPSHOT_LEVEL ==> Sorted(levels[l])
    ensures !(t.txID != 0 && t.before.Some?) ==> IsPlan(levels, t, found)
    ensures IsResult(levels, t, found, r)
    ensures r.Plan? ==> r.files != [] && IsPlan(levels, t, r.files) && t.txID <= Reach(0, r.files)
    ensures r == ErrBothTargets <==> t.txID != 0 && t.before.Some?
    ensures r.ErrNonContiguous? ==> t == LATEST && GapAfter(levels, r.have) && r.have + 1 < r.next
  {
    if t.txID != 0 && t.before.Some? {
      return ErrBothTargets, [];
    }
    var infos := FindSnapshot(levels[SNAPSHOT_LEVEL], t);
    var cur: nat := Reach(0, infos);
    if t.txID != 0 && cur >= t.txID {
      return Plan(infos), infos;
    }
    SnapshotIsListed(levels[SNAPSHOT_LEVEL], t);
    var cs := OpenCursors(levels, t, cur);
    var picks;
    picks, cur := ExtendPlan(levels, cs, t, cur);
    PicksMakePlan(levels, t, infos, picks);
    infos := infos + picks;
    if infos != [] && t == LATEST {
      var gap, next := FirstGap(levels, cs, t, cur);
      if gap {
        return ErrNonContiguous(cur, next), infos;
      }
    }
    if infos == [] || (t.txID != 0 && cur < t.txID) {
      return ErrTxNotAvailable, infos;
    }
    return Plan(infos), infos;
  }

  method FirstGap(levels: seq<seq<LtxFile>>, cs: seq<LevelCursor>, t: Target, cur: nat) returns (gap: bool, next: nat)
    requires |levels| == SNAPSHOT_LEVEL + 1 && Distinct(cs) && Covering(levels, cs, t, cur)
    requires AllFresh(cs, cur)
    modifies cs
    ensures gap <==> GapAfter(levels, cur)
    ensures gap ==> cur + 1 < next
  {
    for i := 0 to |cs|
      invariant Covering(levels, cs, t, cur)
      invariant AllFresh(cs, cur)
      invariant forall j :: 0 <= j < i ==> cs[j].done
    {
      var c := cs[i];
      assert c.Covers(levels[SNAPSHOT_LEVEL - 1 - i], t, cur) && c.Fresh(cur);
      c.EnsureCurrent();
      if c.current.Some? && c.current.value.minTXID > cur + 1 {
        assert levels[SNAPSHOT_LEVEL - 1 - i][c.read - 1].minTXID > cur + 1;
        return true, c.current.value.minTXID;
      }
    }
    forall l, k | 0 <= l < SNAPSHOT_LEVEL && 0 <= k < |levels[l]|
      ensures levels[l][k].minTXID <= cur + 1
    {
      var c := cs[SNAPSHOT_LEVEL - 1 - l];
      assert c.Covers(levels[l], t, cur) && c.done;
    }
    return false, 0;
  }
}
