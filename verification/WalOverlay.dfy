/**
 A database file overlaid with the committed frames of its WAL.
 */
module WalOverlay {
  import opened Pages
  import opened FrameLog

  // Data of the last frame of page p.
  function LastData(fs: seq<Frame>, p: nat): Option<Page> {
    if fs == [] then None
    else if fs[|fs| - 1].pgno == p then Some(fs[|fs| - 1].data)
    else LastData(fs[..|fs| - 1], p)
  }

  // The run ends on a commit frame (or is empty).
  predicate Complete(fs: seq<Frame>) {
    fs == [] || fs[|fs| - 1].commit != 0
  }

  function SizeAfter(size: nat, fs: seq<Frame>): nat {
    if fs == [] then size else fs[|fs| - 1].commit
  }

  // What a complete run of frames does to the database.
  function RunDelta(fs: seq<Frame>): (d: Delta)
    requires fs != []
    ensures d.Valid()
  {
    var commit := fs[|fs| - 1].commit;
    Delta(commit, map p | 1 <= p <= commit && LastData(fs, p).Some? :: LastData(fs, p).value)
  }

  function Overlay(img: Image, fs: seq<Frame>): (r: Image)
    ensures |r| == SizeAfter(|img|, fs)
  {
    if fs == [] then img else Apply(img, RunDelta(fs))
  }

  // The run writes every page by which it makes the database larger.
  ghost predicate GrowsRun(size: nat, fs: seq<Frame>) {
    forall p: nat :: size < p <= SizeAfter(size, fs) ==> LastData(fs, p).Some?
  }

  // So does every part of it between two commits.
  ghost predicate Grown(size: nat, fs: seq<Frame>) {
    forall n: nat, m: nat :: n <= m <= |fs| && Complete(fs[..n]) && Complete(fs[..m]) ==>
      GrowsRun(SizeAfter(size, fs[..n]), fs[n..m])
  }

  // The page map and the run delta agree: same pages, same contents.
  lemma {:induction false} LastDataIsLast(fs: seq<Frame>, p: nat)
    ensures LastData(fs, p).Some? <==> Occurs(fs, 0, |fs|, p)
    ensures forall i: nat :: LastOf(fs, |fs|, p, i) ==> LastData(fs, p) == Some(fs[i].data)
  {
    if fs != [] {
      var n := |fs| - 1;
      LastDataIsLast(fs[..n], p);
      if fs[n].pgno != p {
        assert Occurs(fs, 0, |fs|, p) <==> Occurs(fs[..n], 0, n, p) by {
          assert forall i :: 0 <= i < n ==> fs[i] == fs[..n][i];
        }
        forall i: nat | LastOf(fs, |fs|, p, i) ensures LastData(fs, p) == Some(fs[i].data) {
          assert i < n && LastOf(fs[..n], n, p, i);
        }
      }
    }
  }

  lemma PageMapIsRunDelta(fs: seq<Frame>, m: map<nat, nat>)
    requires fs != [] && Complete(fs) && IsPageMap(fs, m)
    ensures RunDelta(fs).commit == CommitSize(fs)
    ensures forall p: nat :: 1 <= p ==> (p in RunDelta(fs).pages <==> p in m)
    ensures forall p: nat :: p in RunDelta(fs).pages ==> RunDelta(fs).pages[p] == fs[m[p]].data
  {
    assert Committed(fs) == |fs|;
    forall p: nat | 1 <= p
      ensures p in RunDelta(fs).pages <==> p in m
      ensures p in m ==> RunDelta(fs).pages[p] == fs[m[p]].data
    {
      LastDataIsLast(fs, p);
      if p in m {
        assert LastOf(fs, |fs|, p, m[p]);
      }
    }
  }

  lemma {:induction false} LastDataConcat(a: seq<Frame>, b: seq<Frame>, p: nat)
    ensures LastData(a + b, p) == if LastData(b, p).Some? then LastData(b, p) else LastData(a, p)
    decreases |b|
  {
    if b == [] {
      assert a + b == a;
    } else {
      assert (a + b)[..|a + b| - 1] == a + b[..|b| - 1];
      LastDataConcat(a, b[..|b| - 1], p);
    }
  }

  // Overlaying two runs one after the other is overlaying them together.
  lemma OverlayConcat(img: Image, a: seq<Frame>, b: seq<Frame>)
    requires Complete(a) && Complete(b) && GrowsRun(SizeAfter(|img|, a), b)
    ensures Overlay(Overlay(img, a), b) == Overlay(img, a + b)
  {
    if a == [] {
      assert a + b == b;
    } else if b == [] {
      assert a + b == a;
    } else {
      var mid, ab := Overlay(img, a), a + b;
      assert ab[|ab| - 1] == b[|b| - 1];
      forall p | 1 <= p <= b[|b| - 1].commit
        ensures PageAfter(mid, RunDelta(b), p) == PageAfter(img, RunDelta(ab), p)
      {
        LastDataConcat(a, b, p);
        if LastData(b, p) == None {
          assert p <= |mid| && mid[p - 1] == PageAfter(img, RunDelta(a), p);
        }
      }
    }
  }

  lemma GrownPart(size: nat, fs: seq<Frame>, n: nat)
    requires Grown(size, fs) && n <= |fs| && Complete(fs) && Complete(fs[..n])
    ensures GrowsRun(SizeAfter(size, fs[..n]), fs[n..])
  {
    assert fs[..|fs|] == fs && fs[n..|fs|] == fs[n..];
  }

  // Overlay by stages: stopping at any commit and going on later.
  lemma OverlaySplit(img: Image, fs: seq<Frame>, n: nat)
    requires Grown(|img|, fs) && n <= |fs| && Complete(fs) && Complete(fs[..n])
    ensures Overlay(Overlay(img, fs[..n]), fs[n..]) == Overlay(img, fs)
    ensures Overlay(Overlay(img, fs[..n]), fs) == Overlay(img, fs)
  {
    GrownPart(|img|, fs, n);
    assert fs[..n] + fs[n..] == fs;
    assert Complete(fs[n..]);
    OverlayConcat(img, fs[..n], fs[n..]);
    OverlayAgain(img, fs, n);
  }

  // A file that already holds some of the frames is unchanged by overlaying all of them.
  lemma OverlayAgain(img: Image, fs: seq<Frame>, n: nat)
    requires Grown(|img|, fs) && n <= |fs| && Complete(fs) && Complete(fs[..n])
    ensures Overlay(Overlay(img, fs[..n]), fs) == Overlay(img, fs)
  {
    if 0 < n {
      var a, mid := fs[..n], Overlay(img, fs[..n]);
      assert fs == a + fs[n..];
      GrownPart(|img|, fs, n);
      GrownPart(|img|, fs, 0);
      assert fs[0..] == fs && fs[..0] == [];
      forall p: nat | 1 <= p <= fs[|fs| - 1].commit
        ensures PageAfter(mid, RunDelta(fs), p) == PageAfter(img, RunDelta(fs), p)
      {
        LastDataConcat(a, fs[n..], p);
        if LastData(fs, p) == None {
          assert LastData(a, p) == None && LastData(fs[n..], p) == None;
          assert p <= |img|;
          assert p <= |mid| && mid[p - 1] == PageAfter(img, RunDelta(a), p) == img[p - 1];
        }
      }
    } else {
      assert fs[..n] == [];
    }
  }

  // A transaction: one commit frame, at its end.
  predicate IsTx(tx: seq<Frame>) {
    tx != [] && forall i :: 0 <= i < |tx| ==> (tx[i].commit != 0 <==> i == |tx| - 1)
  }

  lemma CommitsOfAppend(fs: seq<Frame>, tx: seq<Frame>, n: nat)
    requires IsTx(tx) && n <= |fs + tx| && Complete((fs + tx)[..n])
    ensures n == |fs + tx| || (n <= |fs| && (fs + tx)[..n] == fs[..n])
  {
    if |fs| < n {
      assert (fs + tx)[..n][n - 1] == tx[n - 1 - |fs|];
    }
  }

  lemma GrownToEnd(size: nat, fs: seq<Frame>, tx: seq<Frame>, n: nat)
    requires Grown(size, fs) && Complete(fs) && tx != [] && GrowsRun(SizeAfter(size, fs), tx)
    requires n <= |fs| && Complete(fs[..n])
    ensures GrowsRun(SizeAfter(size, fs[..n]), (fs + tx)[n..])
  {
    GrownPart(size, fs, n);
    GrowsConcat(SizeAfter(size, fs[..n]), fs[n..], SizeAfter(size, fs), tx);
    assert (fs + tx)[n..] == fs[n..] + tx;
  }

  // One more transaction.
  lemma GrownAppend(size: nat, fs: seq<Frame>, tx: seq<Frame>)
    requires Grown(size, fs) && Complete(fs) && IsTx(tx) && GrowsRun(SizeAfter(size, fs), tx)
    ensures Grown(size, fs + tx)
  {
    var gs := fs + tx;
    forall n: nat, m: nat | n <= m <= |gs| && Complete(gs[..n]) && Complete(gs[..m])
      ensures GrowsRun(SizeAfter(size, gs[..n]), gs[n..m])
    {
      CommitsOfAppend(fs, tx, n);
      CommitsOfAppend(fs, tx, m);
      if n == |gs| {
        assert gs[n..m] == [];
      } else if m == |gs| {
        GrownToEnd(size, fs, tx, n);
        assert gs[n..m] == gs[n..];
      } else {
        assert gs[n..m] == fs[n..m];
      }
    }
  }

  lemma GrowsConcat(size: nat, a: seq<Frame>, mid: nat, b: seq<Frame>)
    requires GrowsRun(size, a) && GrowsRun(mid, b) && mid == SizeAfter(size, a) && b != []
    ensures GrowsRun(size, a + b)
  {
    forall p: nat | size < p <= SizeAfter(size, a + b) ensures LastData(a + b, p).Some? {
      LastDataConcat(a, b, p);
      assert SizeAfter(size, a + b) == SizeAfter(mid, b);
      if p <= mid {
        assert LastData(a, p).Some?;
      }
    }
  }
}
