/**
 Write-ahead-log frames and the page map of a run of frames: where the committed version of
 each page sits.
 */
module FrameLog {
  import opened Pages

  datatype Salt = Salt(salt1: nat, salt2: nat)

  // `commit` is the database size for the last frame of a transaction, and 0 for the others.
  datatype Frame = Frame(salt: Salt, pgno: nat, commit: nat, data: Page)

  // How many frames belong to complete transactions.
  function Committed(fs: seq<Frame>): (n: nat)
    ensures n <= |fs|
    ensures n > 0 ==> fs[n - 1].commit != 0
    ensures forall i :: n <= i < |fs| ==> fs[i].commit == 0
  {
    if fs == [] then 0
    else if fs[|fs| - 1].commit != 0 then |fs|
    else Committed(fs[..|fs| - 1])
  }

  // The database size after the last complete transaction, 0 if there is none.
  function CommitSize(fs: seq<Frame>): nat {
    var n := Committed(fs);
    if n == 0 then 0 else fs[n - 1].commit
  }

  // Frame i is the last one of page p among the first n frames.
  ghost predicate LastOf(fs: seq<Frame>, n: nat, p: nat, i: nat) {
    && i < n <= |fs| && fs[i].pgno == p
    && forall j :: i < j < n ==> fs[j].pgno != p
  }

  ghost predicate Occurs(fs: seq<Frame>, lo: nat, hi: nat, p: nat)
    requires hi <= |fs|
  {
    exists i :: lo <= i < hi && fs[i].pgno == p
  }

  // `m` sends exactly the pages of frames lo..hi to their last frame in that range.
  ghost predicate IsLastMap(fs: seq<Frame>, lo: nat, hi: nat, m: map<nat, nat>)
    requires lo <= hi <= |fs|
  {
    && (forall p: nat :: p in m <==> Occurs(fs, lo, hi, p))
    && (forall p: nat :: p in m ==> lo <= m[p] && LastOf(fs, hi, p, m[p]))
  }

  // `m` sends exactly the pages of the first n frames that are within `size` to their last frame.
  ghost predicate IsMapOf(fs: seq<Frame>, n: nat, size: nat, m: map<nat, nat>)
    requires n <= |fs|
  {
    && (forall p: nat :: p in m <==> Occurs(fs, 0, n, p) && p <= size)
    && (forall p: nat :: p in m ==> LastOf(fs, n, p, m[p]))
  }

  // `m` sends exactly the pages within the final commit size to their last committed frame.
  ghost predicate IsPageMap(fs: seq<Frame>, m: map<nat, nat>) {
    IsMapOf(fs, Committed(fs), CommitSize(fs), m)
  }

  lemma PageMapIsUnique(fs: seq<Frame>, m: map<nat, nat>, m': map<nat, nat>)
    requires IsPageMap(fs, m) && IsPageMap(fs, m')
    ensures m == m'
  {
    forall p | p in m ensures m[p] == m'[p] {
      var n := Committed(fs);
      assert LastOf(fs, n, p, m[p]) && LastOf(fs, n, p, m'[p]);
    }
  }

  // The commit frame names a page inside the database it commits.
  predicate CommitsOwnPage(fs: seq<Frame>) {
    var n := Committed(fs);
    n > 0 ==> fs[n - 1].pgno <= fs[n - 1].commit
  }

  // The highest mapped frame is the last commit frame exactly when that frame's own page is
  // inside its commit size.
  lemma PageMapEndsAtCommit(fs: seq<Frame>, m: map<nat, nat>)
    requires IsPageMap(fs, m)
    ensures forall p: nat :: p in m ==> m[p] < Committed(fs)
    ensures Committed(fs) > 0 ==>
              ((exists p :: p in m && m[p] == Committed(fs) - 1) <==> CommitsOwnPage(fs))
    ensures Committed(fs) > 0 && CommitsOwnPage(fs) ==>
              fs[Committed(fs) - 1].pgno in m && m[fs[Committed(fs) - 1].pgno] == Committed(fs) - 1
  {
    var n := Committed(fs);
    forall p | p in m ensures m[p] < n {
      assert LastOf(fs, n, p, m[p]);
    }
    if n > 0 {
      var p := fs[n - 1].pgno;
      if CommitsOwnPage(fs) {
        assert Occurs(fs, 0, n, p);
        assert LastOf(fs, n, p, m[p]);
      } else {
        forall q | q in m ensures m[q] != n - 1 {
          assert LastOf(fs, n, q, m[q]);
        }
      }
    }
  }

  function Shift(m: map<nat, nat>, k: nat): map<nat, nat> {
    map p | p in m :: m[p] + k
  }

  // Read in two passes: the map of a committed prefix of `k` frames, then the map of what follows.
  function Compose(k: nat, ma: map<nat, nat>, mb: map<nat, nat>, size: nat): map<nat, nat> {
    var all := ma + Shift(mb, k);
    map p | p in all && p <= size :: all[p]
  }

  lemma {:induction false} CommittedConcat(a: seq<Frame>, b: seq<Frame>)
    requires Committed(a) == |a|
    ensures Committed(a + b) == |a| + Committed(b)
    ensures CommitSize(a + b) == if Committed(b) == 0 then CommitSize(a) else CommitSize(b)
  {
    if b == [] {
      assert a + b == a;
    } else {
      var n := |b| - 1;
      assert (a + b)[..|a + b| - 1] == a + b[..n];
      if b[n].commit == 0 {
        CommittedConcat(a, b[..n]);
      }
    }
  }

  // The rest rewrites every page of the prefix that an earlier shrink had cut off and that is
  // back inside the final size.
  ghost predicate Rewrites(a: seq<Frame>, b: seq<Frame>) {
    forall p: nat :: Occurs(a, 0, |a|, p) && CommitSize(a) < p <= CommitSize(b) ==> Occurs(b, 0, Committed(b), p)
  }

  lemma ComposeMaps(a: seq<Frame>, sa: nat, ma: map<nat, nat>, b: seq<Frame>, nb: nat, sb: nat, mb: map<nat, nat>)
    requires nb <= |b| && IsMapOf(a, |a|, sa, ma) && IsMapOf(b, nb, sb, mb)
    requires forall p: nat :: Occurs(a, 0, |a|, p) && sa < p <= sb ==> Occurs(b, 0, nb, p)
    ensures IsMapOf(a + b, |a| + nb, sb, Compose(|a|, ma, mb, sb))
  {
    var m := Compose(|a|, ma, mb, sb);
    forall p: nat
      ensures p in m <==> Occurs(a + b, 0, |a| + nb, p) && p <= sb
    {
      OccursConcat(a, b, nb, p);
    }
    forall p: nat | p in m
      ensures LastOf(a + b, |a| + nb, p, m[p])
    {
      if p in mb {
        assert LastOf(b, nb, p, mb[p]);
        LastOfSuffix(a, b, nb, p, mb[p]);
      } else {
        assert LastOf(a, |a|, p, ma[p]);
        LastOfPrefix(a, b, nb, p, ma[p]);
      }
    }
  }

  // A page that comes back unwritten is missing from the composed map.
  lemma MissingPage(a: seq<Frame>, b: seq<Frame>, ma: map<nat, nat>, mb: map<nat, nat>, p: nat)
    requires Committed(a) == |a| && Committed(b) > 0 && IsPageMap(a, ma) && IsPageMap(b, mb)
    requires Occurs(a, 0, |a|, p) && CommitSize(a) < p <= CommitSize(b) && !Occurs(b, 0, Committed(b), p)
    ensures !IsPageMap(a + b, Compose(|a|, ma, mb, CommitSize(b)))
  {
    CommittedConcat(a, b);
    OccursConcat(a, b, Committed(b), p);
    assert p !in ma && p !in mb;
  }

  // The maps of a prefix that ends on a commit and of the rest compose to the map of the whole
  // exactly when the rest rewrites what it brings back.
  lemma PageMapsCompose(a: seq<Frame>, b: seq<Frame>, ma: map<nat, nat>, mb: map<nat, nat>)
    requires Committed(a) == |a| && Committed(b) > 0 && IsPageMap(a, ma) && IsPageMap(b, mb)
    ensures IsPageMap(a + b, Compose(|a|, ma, mb, CommitSize(b))) <==> Rewrites(a, b)
  {
    if Rewrites(a, b) {
      CommittedConcat(a, b);
      ComposeMaps(a, CommitSize(a), ma, b, Committed(b), CommitSize(b), mb);
    } else {
      var p: nat :| Occurs(a, 0, |a|, p) && CommitSize(a) < p <= CommitSize(b) && !Occurs(b, 0, Committed(b), p);
      MissingPage(a, b, ma, mb, p);
    }
  }

  lemma OccursConcat(a: seq<Frame>, b: seq<Frame>, nb: nat, p: nat)
    requires nb <= |b|
    ensures Occurs(a + b, 0, |a| + nb, p) <==> Occurs(a, 0, |a|, p) || Occurs(b, 0, nb, p)
  {
    var ab := a + b;
    if Occurs(ab, 0, |a| + nb, p) {
      var i :| 0 <= i < |a| + nb && ab[i].pgno == p;
      if i < |a| {
        assert a[i].pgno == p;
      } else {
        assert b[i - |a|].pgno == p;
      }
    }
    if Occurs(a, 0, |a|, p) {
      var i :| 0 <= i < |a| && a[i].pgno == p;
      assert ab[i].pgno == p;
    }
    if Occurs(b, 0, nb, p) {
      var i :| 0 <= i < nb && b[i].pgno == p;
      assert ab[|a| + i].pgno == p;
    }
  }

  lemma LastOfSuffix(a: seq<Frame>, b: seq<Frame>, nb: nat, p: nat, i: nat)
    requires LastOf(b, nb, p, i)
    ensures LastOf(a + b, |a| + nb, p, |a| + i)
  {
    forall j | |a| + i < j < |a| + nb ensures (a + b)[j].pgno != p {
      assert (a + b)[j] == b[j - |a|];
    }
  }

  lemma LastOfPrefix(a: seq<Frame>, b: seq<Frame>, nb: nat, p: nat, i: nat)
    requires LastOf(a, |a|, p, i) && nb <= |b| && !Occurs(b, 0, nb, p)
    ensures LastOf(a + b, |a| + nb, p, i)
  {
    forall j | i < j < |a| + nb ensures (a + b)[j].pgno != p {
      if j >= |a| {
        assert (a + b)[j] == b[j - |a|];
      }
    }
  }

  // One more frame: it is now the last one of its page.
  lemma LastMapAppend(fs: seq<Frame>, lo: nat, m: map<nat, nat>, f: Frame)
    requires lo <= |fs| && IsLastMap(fs, lo, |fs|, m)
    ensures IsLastMap(fs + [f], lo, |fs| + 1, m[f.pgno := |fs|])
  {
    var gs, m' := fs + [f], m[f.pgno := |fs|];
    forall p: nat ensures p in m' <==> Occurs(gs, lo, |gs|, p) {
      assert gs[|fs|].pgno == f.pgno;
      if Occurs(fs, lo, |fs|, p) {
        var i :| lo <= i < |fs| && fs[i].pgno == p;
        assert gs[i].pgno == p;
      }
    }
    forall p: nat | p in m' ensures LastOf(gs, |gs|, p, m'[p]) {
      if p != f.pgno {
        assert LastOf(fs, |fs|, p, m[p]);
      }
    }
  }

  lemma LastMapOfLonger(fs: seq<Frame>, hi: nat, m: map<nat, nat>, f: Frame)
    requires hi <= |fs| && IsLastMap(fs, 0, hi, m)
    ensures IsLastMap(fs + [f], 0, hi, m)
  {
    var gs := fs + [f];
    forall p: nat ensures Occurs(gs, 0, hi, p) <==> Occurs(fs, 0, hi, p) {
      assert forall i :: 0 <= i < hi ==> gs[i] == fs[i];
    }
    forall p: nat | p in m ensures LastOf(gs, hi, p, m[p]) {
      assert LastOf(fs, hi, p, m[p]);
    }
  }

  // A commit moves the pages of its transaction into the full map.
  lemma LastMapJoin(fs: seq<Frame>, n: nat, hi: nat, m: map<nat, nat>, tx: map<nat, nat>)
    requires n <= hi <= |fs| && IsLastMap(fs, 0, n, m) && IsLastMap(fs, n, hi, tx)
    ensures IsLastMap(fs, 0, hi, m + tx)
  {
    forall p: nat ensures p in m + tx <==> Occurs(fs, 0, hi, p) {
      if Occurs(fs, 0, hi, p) {
        var i :| 0 <= i < hi && fs[i].pgno == p;
        assert i < n ==> Occurs(fs, 0, n, p);
        assert n <= i ==> Occurs(fs, n, hi, p);
      }
    }
    forall p: nat | p in m + tx ensures LastOf(fs, hi, p, (m + tx)[p]) {
      if p !in tx {
        assert LastOf(fs, n, p, m[p]) && !Occurs(fs, n, hi, p);
      }
    }
  }

  // The pages of the committed frames, and those of the transaction that is still open.
  datatype Tracked = Tracked(committed: map<nat, nat>, open: map<nat, nat>, commit: nat)

  const UNTRACKED := Tracked(map[], map[], 0)

  function Track(t: Tracked, f: Frame, at: nat): Tracked {
    var open := t.open[f.pgno := at];
    if f.commit == 0 then t.(open := open) else Tracked(t.committed + open, map[], f.commit)
  }

  ghost predicate Tracks(fs: seq<Frame>, t: Tracked) {
    && IsLastMap(fs, 0, Committed(fs), t.committed)
    && IsLastMap(fs, Committed(fs), |fs|, t.open)
    && t.commit == CommitSize(fs)
  }

  lemma CommittedAppend(fs: seq<Frame>, f: Frame)
    ensures Committed(fs + [f]) == if f.commit == 0 then Committed(fs) else |fs| + 1
    ensures CommitSize(fs + [f]) == if f.commit == 0 then CommitSize(fs) else f.commit
  {
    assert (fs + [f])[..|fs|] == fs;
  }

  lemma TrackAppend(fs: seq<Frame>, t: Tracked, f: Frame)
    requires Tracks(fs, t)
    ensures Tracks(fs + [f], Track(t, f, |fs|))
  {
    var n, gs := Committed(fs), fs + [f];
    CommittedAppend(fs, f);
    LastMapAppend(fs, n, t.open, f);
    LastMapOfLonger(fs, n, t.committed, f);
    if f.commit != 0 {
      LastMapJoin(gs, n, |gs|, t.committed, t.open[f.pgno := |fs|]);
    }
  }

  // Track every frame, frame i being at offset `at(i)`.
  ghost function TrackAll(fs: seq<Frame>, at: nat -> nat): Tracked {
    if fs == [] then UNTRACKED
    else Track(TrackAll(fs[..|fs| - 1], at), fs[|fs| - 1], at(|fs| - 1))
  }

  lemma TrackAllAppend(fs: seq<Frame>, at: nat -> nat, f: Frame)
    ensures TrackAll(fs + [f], at) == Track(TrackAll(fs, at), f, at(|fs|))
  {
    assert (fs + [f])[..|fs|] == fs;
  }

  ghost function MapAt(m: map<nat, nat>, at: nat -> nat): map<nat, nat> {
    map p | p in m :: at(m[p])
  }

  lemma {:induction false} TrackAllTracks(fs: seq<Frame>)
    ensures Tracks(fs, TrackAll(fs, i => i))
  {
    if fs != [] {
      var n := |fs| - 1;
      TrackAllTracks(fs[..n]);
      TrackAppend(fs[..n], TrackAll(fs[..n], i => i), fs[n]);
      assert fs == fs[..n] + [fs[n]];
    }
  }

  ghost function TrackedAt(t: Tracked, at: nat -> nat): Tracked {
    Tracked(MapAt(t.committed, at), MapAt(t.open, at), t.commit)
  }

  lemma TrackAt(t: Tracked, f: Frame, i: nat, at: nat -> nat)
    ensures Track(TrackedAt(t, at), f, at(i)) == TrackedAt(Track(t, f, i), at)
  {
    var open := t.open[f.pgno := i];
    assert MapAt(open, at) == MapAt(t.open, at)[f.pgno := at(i)];
    assert MapAt(t.committed + open, at) == MapAt(t.committed, at) + MapAt(open, at);
  }

  lemma {:induction false} TrackAllAt(fs: seq<Frame>, at: nat -> nat)
    ensures TrackAll(fs, at) == TrackedAt(TrackAll(fs, i => i), at)
  {
    if fs != [] {
      var n := |fs| - 1;
      TrackAllAt(fs[..n], at);
      TrackAt(TrackAll(fs[..n], i => i), fs[n], n, at);
    }
  }

  function Restrict(m: map<nat, nat>, size: nat): map<nat, nat> {
    map p | p in m && p <= size :: m[p]
  }

  lemma RestrictAt(m: map<nat, nat>, size: nat, at: nat -> nat)
    ensures Restrict(MapAt(m, at), size) == MapAt(Restrict(m, size), at)
  {
  }

  // Tracking every frame and then dropping the pages past the final size leaves the page map.
  lemma TrackedPageMap(fs: seq<Frame>, at: nat -> nat) returns (idx: map<nat, nat>)
    ensures IsPageMap(fs, idx) && TrackAll(fs, at).commit == CommitSize(fs)
    ensures var t := TrackAll(fs, at); Restrict(t.committed, t.commit) == MapAt(idx, at)
  {
    var t := TrackAll(fs, i => i);
    TrackAllTracks(fs);
    TrackAllAt(fs, at);
    RestrictAt(t.committed, t.commit, at);
    idx := Restrict(t.committed, t.commit);
  }
}
