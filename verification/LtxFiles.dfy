/**
 LTX files with their TXID labels, gap-free chains of them, and the merge that compaction
 and restore both rely on.
 */
module LtxFiles {
  import opened Pages

  datatype LtxFile = LtxFile(level: nat, minTXID: nat, maxTXID: nat, createdAt: int, delta: Delta)

  // The file carries exactly the net page effect of the transactions it is labelled with.
  ghost predicate Faithful(h: History, f: LtxFile) {
    1 <= f.minTXID <= f.maxTXID <= |h| && f.delta == Net(h, f.minTXID, f.maxTXID)
  }

  ghost predicate AllFaithful(h: History, fs: seq<LtxFile>) {
    forall f :: f in fs ==> Faithful(h, f)
  }

  // `f` starts no later than just after `cur` and ends after it.
  predicate Extends(cur: nat, f: LtxFile) {
    f.minTXID <= cur + 1 && cur < f.maxTXID
  }

  // The TXID reached from `start` after the first `k` files.
  function ReachAt(start: nat, fs: seq<LtxFile>, k: nat): nat
    requires k <= |fs|
  {
    if k == 0 then start else fs[k - 1].maxTXID
  }

  function Reach(start: nat, fs: seq<LtxFile>): nat {
    ReachAt(start, fs, |fs|)
  }

  // A gap-free chain: every file extends what the files before it reach.
  predicate Chain(start: nat, fs: seq<LtxFile>) {
    forall k {:trigger ReachAt(start, fs, k)} :: 0 <= k < |fs| ==> Extends(ReachAt(start, fs, k), fs[k])
  }

  // Every file after the first extends the one before it.
  predicate Linked(fs: seq<LtxFile>) {
    forall k :: 0 < k < |fs| ==> LinkedAt(fs, k)
  }

  predicate LinkedAt(fs: seq<LtxFile>, k: nat)
    requires 0 < k < |fs|
  {
    Extends(fs[k - 1].maxTXID, fs[k])
  }

  // The newest version of page p among the inputs, the last input being the newest.
  function Newest(fs: seq<LtxFile>, p: nat): Option<Page> {
    if fs == [] then None
    else
      var last := fs[|fs| - 1];
      if p in last.delta.pages then Some(last.delta.pages[p]) else Newest(fs[..|fs| - 1], p)
  }

  // Contract of the LTX merge: inputs with a TXID gap, or that make no progress, are refused;
  // otherwise the newest version of each page wins and pages past the final size are dropped.
  function Merge(fs: seq<LtxFile>): Option<Delta> {
    if fs == [] || !Linked(fs) then None
    else
      var commit := fs[|fs| - 1].delta.commit;
      Some(Delta(commit, map p | 1 <= p <= commit && Newest(fs, p).Some? :: Newest(fs, p).value))
  }

  // The first file has the lowest TXID.
  ghost predicate StartsLowest(fs: seq<LtxFile>) {
    forall k :: 0 <= k < |fs| ==> fs[0].minTXID <= fs[k].minTXID
  }

  // Page p after a chain that reaches `prev` is followed by a file a..b that does not hold it.
  lemma UntouchedByNext(h: History, first: nat, prev: nat, a: nat, b: nat, p: nat)
    requires ValidHistory(h) && 1 <= first <= a <= prev + 1 && prev < b <= |h|
    requires 1 <= p <= Size(h, b) && !Touched(h, a, b, p)
    ensures p <= Size(h, prev) && ImageAt(h, b)[p - 1] == ImageAt(h, prev)[p - 1]
    ensures Touched(h, first, b, p) <==> Touched(h, first, prev, p)
  {
    assert !Touched(h, prev + 1, b, p);
    UntouchedIsStable(h, prev, b, p);
  }

  // What `Newest` must give for page p after transactions first..last.
  ghost predicate IsNewest(h: History, first: nat, last: nat, p: nat, v: Option<Page>)
    requires 1 <= first && last <= |h| && 1 <= p <= Size(h, last)
  {
    && (v.Some? <==> Touched(h, first, last, p))
    && (v.Some? ==> v.value == ImageAt(h, last)[p - 1])
  }

  lemma NewestInFile(h: History, f: LtxFile, p: nat)
    requires Faithful(h, f) && 1 <= p <= Size(h, f.maxTXID)
    ensures IsNewest(h, f.minTXID, f.maxTXID, p, if p in f.delta.pages then Some(f.delta.pages[p]) else None)
  {
  }

  lemma NewestNext(h: History, first: nat, prev: nat, f: LtxFile, p: nat, v: Option<Page>)
    requires ValidHistory(h) && Faithful(h, f) && 1 <= first <= f.minTXID <= prev + 1 && prev < f.maxTXID
    requires 1 <= p <= Size(h, f.maxTXID)
    requires p <= Size(h, prev) ==> IsNewest(h, first, prev, p, v)
    ensures IsNewest(h, first, f.maxTXID, p, if p in f.delta.pages then Some(f.delta.pages[p]) else v)
  {
    NewestInFile(h, f, p);
    if p !in f.delta.pages {
      UntouchedByNext(h, first, prev, f.minTXID, f.maxTXID, p);
    }
  }

  lemma AllButLast(h: History, fs: seq<LtxFile>)
    requires 1 < |fs| && AllFaithful(h, fs) && Linked(fs) && StartsLowest(fs)
    ensures var init := fs[..|fs| - 1]; AllFaithful(h, init) && Linked(init) && StartsLowest(init)
  {
    var init := fs[..|fs| - 1];
    forall k | 0 < k < |init| ensures LinkedAt(init, k) {
      assert LinkedAt(fs, k);
    }
    assert forall k :: 0 <= k < |init| ==> init[k] == fs[k];
  }

  lemma {:induction false} NewestOfChain(h: History, fs: seq<LtxFile>, p: nat)
    requires ValidHistory(h) && fs != [] && AllFaithful(h, fs) && Linked(fs) && StartsLowest(fs)
    requires 1 <= fs[0].minTXID && fs[|fs| - 1].maxTXID <= |h|
    requires 1 <= p <= Size(h, fs[|fs| - 1].maxTXID)
    ensures IsNewest(h, fs[0].minTXID, fs[|fs| - 1].maxTXID, p, Newest(fs, p))
    decreases |fs|
  {
    var n := |fs| - 1;
    var f, init := fs[n], fs[..n];
    assert Faithful(h, f);
    if n == 0 {
      assert Newest(init, p) == None;
      NewestInFile(h, f, p);
    } else {
      var first, prev := fs[0].minTXID, fs[n - 1].maxTXID;
      assert LinkedAt(fs, n) && Faithful(h, fs[n - 1]);
      if p <= Size(h, prev) {
        AllButLast(h, fs);
        NewestOfChain(h, init, p);
      }
      NewestNext(h, first, prev, f, p, Newest(init, p));
    }
  }

  // Merging a chain of faithful files gives the net effect of everything they cover together,
  // however their TXID ranges overlap and however often the database shrank and regrew.
  lemma MergeOfChain(h: History, fs: seq<LtxFile>)
    requires ValidHistory(h) && fs != [] && AllFaithful(h, fs) && StartsLowest(fs)
    requires Linked(fs)
    ensures 1 <= fs[0].minTXID <= fs[|fs| - 1].maxTXID <= |h|
    ensures Merge(fs) == Some(Net(h, fs[0].minTXID, fs[|fs| - 1].maxTXID))
  {
    var first, last := fs[0].minTXID, fs[|fs| - 1].maxTXID;
    assert Faithful(h, fs[0]) && Faithful(h, fs[|fs| - 1]);
    forall p | 1 <= p <= Size(h, last)
      ensures IsNewest(h, first, last, p, Newest(fs, p))
    {
      NewestOfChain(h, fs, p);
    }
    assert Merge(fs).value.pages == Net(h, first, last).pages;
  }

  // Apply the files one after the other.
  function ApplyFiles(img: Image, fs: seq<LtxFile>): Image {
    if fs == [] then img else Apply(ApplyFiles(img, fs[..|fs| - 1]), fs[|fs| - 1].delta)
  }

  lemma ChainIsLinked(start: nat, fs: seq<LtxFile>)
    requires Chain(start, fs)
    ensures Linked(fs)
  {
    forall k | 0 < k < |fs| ensures LinkedAt(fs, k) {
      assert Extends(ReachAt(start, fs, k), fs[k]);
    }
  }

  lemma ChainPrefix(start: nat, fs: seq<LtxFile>, k: nat)
    requires Chain(start, fs) && k <= |fs|
    ensures Chain(start, fs[..k]) && Reach(start, fs[..k]) == ReachAt(start, fs, k)
  {
    forall j | 0 <= j < k
      ensures Extends(ReachAt(start, fs[..k], j), fs[..k][j])
    {
      assert Extends(ReachAt(start, fs, j), fs[j]);
    }
  }

  lemma {:induction false} ChainReach(start: nat, fs: seq<LtxFile>)
    requires Chain(start, fs)
    ensures start + |fs| <= Reach(start, fs)
  {
    if fs != [] {
      var n := |fs| - 1;
      ChainPrefix(start, fs, n);
      ChainReach(start, fs[..n]);
      assert Extends(ReachAt(start, fs, n), fs[n]);
    }
  }

  // Applied one by one, a chain takes the image at `start` to the image at its reach.
  lemma {:induction false} ApplyChain(h: History, start: nat, fs: seq<LtxFile>)
    requires ValidHistory(h) && start <= |h| && AllFaithful(h, fs) && Chain(start, fs)
    ensures Reach(start, fs) <= |h|
    ensures ApplyFiles(ImageAt(h, start), fs) == ImageAt(h, Reach(start, fs))
  {
    if fs != [] {
      var n := |fs| - 1;
      var f := fs[n];
      ChainPrefix(start, fs, n);
      assert AllFaithful(h, fs[..n]);
      ApplyChain(h, start, fs[..n]);
      assert Extends(ReachAt(start, fs, n), f) && Faithful(h, f);
      NetCatchesUp(h, f.minTXID, f.maxTXID, ReachAt(start, fs, n));
    }
  }

  // Restore: merge the whole plan, then write the merged file into an empty database.
  lemma RestoreChain(h: History, fs: seq<LtxFile>)
    requires ValidHistory(h) && fs != [] && AllFaithful(h, fs) && Chain(0, fs)
    ensures 1 <= Reach(0, fs) <= |h|
    ensures Merge(fs) == Some(Net(h, 1, Reach(0, fs)))
    ensures Apply([], Net(h, 1, Reach(0, fs))) == ImageAt(h, Reach(0, fs))
    ensures ApplyFiles([], fs) == ImageAt(h, Reach(0, fs))
  {
    assert Extends(ReachAt(0, fs, 0), fs[0]) && Faithful(h, fs[0]);
    assert fs[0].minTXID == 1;
    assert StartsLowest(fs) by {
      forall k | 0 <= k < |fs| ensures fs[0].minTXID <= fs[k].minTXID {
        assert Faithful(h, fs[k]);
      }
    }
    ChainIsLinked(0, fs);
    MergeOfChain(h, fs);
    NetCatchesUp(h, 1, Reach(0, fs), 0);
    ApplyChain(h, 0, fs);
  }
}
