/**
 Full snapshots. A snapshot holds every page of the database as a reader sees it, but it is labelled
 with the last TXID that was copied: transactions committed since then are in it as well. It is
 close to the history at its label, and exact at its label only if those change nothing.
 */
module SnapshotImage {
  import opened Pages
  import opened LtxFiles
  import opened NearImage

  function PageAt(img: Image, p: nat): Page {
    if 1 <= p <= |img| then img[p - 1] else HOLE
  }

  // Every page of an image.
  function FullDelta(img: Image): (d: Delta)
    ensures d.Valid()
  {
    Delta(|img|, map p | 1 <= p <= |img| :: PageAt(img, p))
  }

  lemma FullDeltaApplies(img: Image, before: Image)
    ensures Apply(before, FullDelta(img)) == img
    ensures Grows(|before|, FullDelta(img))
  {
    var d := FullDelta(img);
    forall i | 0 <= i < |img| ensures PageAfter(before, d, i + 1) == img[i] {
      assert i + 1 in d.pages;
    }
  }

  // What a file writes into an empty database.
  function Content(f: LtxFile): Image {
    Apply([], f.delta)
  }

  // --- Copying --------------------------------------------------------------------------------

  // The database after the copied transactions h and the uncopied ones u.
  function Live(h: History, u: History): Image {
    ImageAt(h + u, |h + u|)
  }

  // d is the one transaction that copies all of u: it leads to the same image and holds every page
  // that u wrote and that is still there.
  ghost predicate Copies(h: History, u: History, d: Delta) {
    && Grows(Size(h, |h|), d) && Apply(ImageAt(h, |h|), d) == Live(h, u)
    && forall p: nat :: p <= d.commit && Touched(h + u, |h| + 1, |h + u|, p) ==> p in d.pages
  }

  lemma HistoryPrefix(h: History, u: History)
    requires ValidHistory(h + u)
    ensures ValidHistory(h) && (h + u)[..|h|] == h
  {
    forall i: nat | i < |h| ensures GrowsAt(h, i) {
      assert GrowsAt(h + u, i);
      assert i > 0 ==> (h + u)[i - 1] == h[i - 1];
    }
  }

  lemma LiveAfterCommit(h: History, u: History, d: Delta)
    requires ValidHistory(h + u) && Grows(|Live(h, u)|, d)
    ensures Live(h, u + [d]) == Apply(Live(h, u), d) && ValidHistory(h + (u + [d]))
  {
    assert h + (u + [d]) == (h + u) + [d];
    ImageOfAppend(h + u, d);
    HistoryAppend(h + u, d);
  }

  lemma LiveAfterSync(h: History, u: History, d: Delta)
    requires ValidHistory(h + u) && Copies(h, u, d)
    ensures Live(h + [d], []) == Live(h, u) && ValidHistory(h + [d] + [])
  {
    assert h + [d] + [] == h + [d];
    HistoryPrefix(h, u);
    ImageOfAppend(h, d);
    HistoryAppend(h, d);
  }

  // --- Snapshots ------------------------------------------------------------------------------

  // f holds a full image that is close to the history at the label of f: the transactions it may
  // hold parts of are those that the next copy will put into one TXID.
  ghost predicate SnapshotOk(h: History, u: History, f: LtxFile) {
    && 1 == f.minTXID <= f.maxTXID <= |h| && f.delta == FullDelta(Content(f))
    && (if f.maxTXID < |h| then Near(h, f.maxTXID, f.maxTXID + 1, Content(f))
        else Near(h + u, |h|, |h + u|, Content(f)) && (u == [] ==> Content(f) == ImageAt(h, |h|)))
  }

  lemma NewSnapshot(h: History, u: History, f: LtxFile)
    requires ValidHistory(h + u) && f.minTXID == 1 <= f.maxTXID == |h| && f.delta == FullDelta(Live(h, u))
    ensures SnapshotOk(h, u, f) && Content(f) == Live(h, u)
  {
    FullDeltaApplies(Live(h, u), []);
    ExactIsNear(h + u, |h + u|);
    NearEarlier(h + u, |h|, |h + u|, |h + u|, Live(h, u));
    assert u == [] ==> h + u == h;
  }

  lemma SnapshotAfterCommit(h: History, u: History, d: Delta, f: LtxFile)
    requires ValidHistory(h + u) && SnapshotOk(h, u, f)
    ensures SnapshotOk(h, u + [d], f)
  {
    if f.maxTXID == |h| {
      var g := h + (u + [d]);
      assert g[..|h + u|] == h + u;
      NearOfPrefix(h + u, g, |h|, |h + u|, Content(f));
      NearLater(g, |h|, |h + u|, |g|, Content(f));
    }
  }

  // A page that the copying transaction leaves alone was left alone by what it copies.
  lemma SteadyBefore(h: History, u: History, d: Delta, p: nat)
    requires ValidHistory(h + u) && Copies(h, u, d)
    requires Steady(h + [d], |h|, |h| + 1, p)
    ensures Steady(h + u, |h|, |h + u|, p)
  {
    var g, h' := h + u, h + [d];
    assert Size(h', |h| + 1) == d.commit == |Live(h, u)| == Size(g, |g|);
    assert Size(h', |h|) == Size(h, |h|) == Size(g, |h|);
    assert !Writes(h', |h| + 1, p);
    assert p <= d.commit && p !in d.pages;
    SteadyBack(g, |h|, |g|, |g|, p);
  }

  lemma NearAfterSync(h: History, u: History, d: Delta, img: Image)
    requires ValidHistory(h + u) && Copies(h, u, d) && Near(h + u, |h|, |h + u|, img)
    ensures Near(h + [d], |h|, |h| + 1, img)
  {
    var h' := h + [d];
    HistoryPrefix(h, u);
    ImageOfPrefix(h, h + u, |h|);
    assert h'[..|h|] == h;
    ImageOfPrefix(h, h', |h|);
    forall p: nat | Steady(h', |h|, |h| + 1, p) ensures HasPage(h', |h|, img, p) {
      SteadyBefore(h, u, d, p);
      assert HasPage(h + u, |h|, img, p);
    }
  }

  lemma SnapshotAfterSync(h: History, u: History, d: Delta, f: LtxFile)
    requires ValidHistory(h + u) && Copies(h, u, d) && SnapshotOk(h, u, f)
    ensures SnapshotOk(h + [d], [], f)
  {
    HistoryPrefix(h, u);
    if f.maxTXID == |h| {
      NearAfterSync(h, u, d, Content(f));
    } else {
      assert (h + [d])[..|h|] == h;
      NearOfPrefix(h, h + [d], f.maxTXID, f.maxTXID + 1, Content(f));
    }
  }

  // --- When a snapshot is exact at its label --------------------------------------------------

  // The newest version of page p among the transactions u.
  function LastWrite(u: History, p: nat): Option<Page> {
    if u == [] then None
    else if p in u[|u| - 1].pages then Some(u[|u| - 1].pages[p])
    else LastWrite(u[..|u| - 1], p)
  }

  // A page of the live database was last written by an uncopied transaction, or is as copied.
  lemma {:induction false} LivePage(h: History, u: History, p: nat)
    requires ValidHistory(h + u) && 1 <= p <= |Live(h, u)|
    ensures PageAt(Live(h, u), p) == if LastWrite(u, p).Some? then LastWrite(u, p).value else PageAt(ImageAt(h, |h|), p)
  {
    if u == [] {
      assert h + u == h;
    } else {
      var v, d := u[..|u| - 1], u[|u| - 1];
      var g := h + v;
      assert h + u == g + [d];
      HistoryPrefix(g, [d]);
      ImageOfAppend(g, d);
      assert GrowsAt(g + [d], |g|);
      if p !in d.pages {
        assert p <= Size(g, |g|) == |Live(h, v)|;
        LivePage(h, v, p);
      }
    }
  }

  // The uncopied transactions change nothing: the size stays, and every page they wrote ends up with
  // the content it had.
  predicate Idle(img: Image, size: nat, u: History) {
    size == |img| &&
    forall p: nat :: 1 <= p <= |img| && LastWrite(u, p).Some? ==> LastWrite(u, p).value == PageAt(img, p)
  }

  // A snapshot is exact at the TXID it is labelled with if and only if the transactions committed
  // since the last copy change nothing.
  lemma SnapshotExactIff(h: History, u: History, f: LtxFile)
    requires ValidHistory(h + u) && f.delta == FullDelta(Live(h, u))
    ensures Content(f) == ImageAt(h, |h|) <==> Idle(ImageAt(h, |h|), |Live(h, u)|, u)
  {
    var img, now := ImageAt(h, |h|), Live(h, u);
    FullDeltaApplies(now, []);
    forall p: nat | 1 <= p <= |now|
      ensures PageAt(now, p) == if LastWrite(u, p).Some? then LastWrite(u, p).value else PageAt(img, p)
    {
      LivePage(h, u, p);
    }
    if Idle(img, |now|, u) {
      forall i | 0 <= i < |now| ensures now[i] == img[i] {
        assert PageAt(now, i + 1) == PageAt(img, i + 1);
      }
    }
  }

  // --- Restoring from a snapshot --------------------------------------------------------------

  // A page that the first file behind a snapshot does not hold is in the snapshot.
  lemma PageOfSnapshot(h: History, u: History, f: LtxFile, next: LtxFile, p: nat)
    requires ValidHistory(h) && SnapshotOk(h, u, f) && Faithful(h, next) && Extends(f.maxTXID, next)
    requires 1 <= p <= Size(h, next.maxTXID) && p !in next.delta.pages
    ensures Newest([f], p) == Some(ImageAt(h, next.maxTXID)[p - 1])
  {
    var t, b := f.maxTXID, next.maxTXID;
    assert !Touched(h, next.minTXID, b, p);
    assert !Touched(h, t + 1, b, p);
    SteadyBack(h, t, b, t + 1, p);
    assert HasPage(h, t, Content(f), p);
    assert p in f.delta.pages;
  }

  // The newest version of a page in a snapshot and the files that extend it.
  lemma {:induction false} NewestFromSnapshot(h: History, u: History, f: LtxFile, picks: seq<LtxFile>, p: nat)
    requires ValidHistory(h) && SnapshotOk(h, u, f) && AllFaithful(h, picks) && Chain(f.maxTXID, picks) && picks != []
    requires Reach(f.maxTXID, picks) <= |h| && 1 <= p <= Size(h, Reach(f.maxTXID, picks))
    ensures Newest([f] + picks, p) == Some(ImageAt(h, Reach(f.maxTXID, picks))[p - 1])
    decreases |picks|
  {
    var n, t := |picks| - 1, f.maxTXID;
    var last, init := picks[n], picks[..n];
    var prev, b := ReachAt(t, picks, n), last.maxTXID;
    assert ([f] + picks)[..|picks|] == [f] + init;
    assert Faithful(h, last) && Extends(prev, last);
    if p !in last.delta.pages {
      if n == 0 {
        assert [f] + init == [f];
        PageOfSnapshot(h, u, f, last, p);
      } else {
        assert !Touched(h, last.minTXID, b, p);
        assert !Touched(h, prev + 1, b, p);
        UntouchedIsStable(h, prev, b, p);
        ChainPrefix(t, picks, n);
        assert AllFaithful(h, init);
        assert Faithful(h, picks[n - 1]);
        NewestFromSnapshot(h, u, f, init, p);
      }
    }
  }

  // The first file behind a snapshot makes it exact.
  lemma ApplyFirst(h: History, u: History, f: LtxFile, next: LtxFile)
    requires ValidHistory(h) && SnapshotOk(h, u, f) && Faithful(h, next) && Extends(f.maxTXID, next)
    ensures ApplyFiles([], [f] + [next]) == ImageAt(h, next.maxTXID)
  {
    var fs := [f] + [next];
    assert fs[..1] == [f] && [f][..0] == [];
    FullApply(h, f.maxTXID, f.maxTXID + 1, Content(f), next);
  }

  lemma ApplyFromSnapshot(h: History, u: History, f: LtxFile, picks: seq<LtxFile>)
    requires ValidHistory(h) && SnapshotOk(h, u, f) && AllFaithful(h, picks) && Chain(f.maxTXID, picks) && picks != []
    ensures Reach(f.maxTXID, picks) <= |h|
    ensures ApplyFiles([], [f] + picks) == ImageAt(h, Reach(f.maxTXID, picks))
    decreases |picks|
  {
    var n, t := |picks| - 1, f.maxTXID;
    var last, init := picks[n], picks[..n];
    assert ([f] + picks)[..|picks|] == [f] + init;
    assert Faithful(h, last) && Extends(ReachAt(t, picks, n), last);
    if n == 0 {
      assert picks == [last];
      ApplyFirst(h, u, f, last);
    } else {
      ChainPrefix(t, picks, n);
      assert AllFaithful(h, init);
      ApplyFromSnapshot(h, u, f, init);
      NetCatchesUp(h, last.minTXID, last.maxTXID, ReachAt(t, picks, n));
    }
  }

  lemma SnapshotLinks(f: LtxFile, picks: seq<LtxFile>)
    requires Chain(f.maxTXID, picks)
    ensures Linked([f] + picks)
  {
    var fs := [f] + picks;
    forall k | 0 < k < |fs| ensures LinkedAt(fs, k) {
      assert Extends(ReachAt(f.maxTXID, picks, k - 1), picks[k - 1]);
      assert fs[k] == picks[k - 1] && fs[k - 1] == if k == 1 then f else picks[k - 2];
    }
  }

  // Merged or applied one by one, a snapshot and at least one file that extends it give exactly the
  // image after the last transaction, however far the snapshot was ahead of its label.
  lemma RestoreFromSnapshot(h: History, u: History, f: LtxFile, picks: seq<LtxFile>)
    requires ValidHistory(h) && SnapshotOk(h, u, f) && AllFaithful(h, picks) && Chain(f.maxTXID, picks) && picks != []
    ensures Reach(0, [f] + picks) == Reach(f.maxTXID, picks) <= |h| && Merge([f] + picks).Some?
    ensures Apply([], Merge([f] + picks).value) == ImageAt(h, Reach(f.maxTXID, picks))
    ensures ApplyFiles([], [f] + picks) == ImageAt(h, Reach(f.maxTXID, picks))
  {
    var fs, b := [f] + picks, Reach(f.maxTXID, picks);
    ApplyFromSnapshot(h, u, f, picks);
    assert Faithful(h, picks[|picks| - 1]);
    SnapshotLinks(f, picks);
    var d := Merge(fs).value;
    forall i | 0 <= i < Size(h, b) ensures PageAfter([], d, i + 1) == ImageAt(h, b)[i] {
      NewestFromSnapshot(h, u, f, picks, i + 1);
    }
  }

  // A snapshot alone gives what it holds.
  lemma RestoreSnapshot(f: LtxFile)
    requires f.delta == FullDelta(Content(f))
    ensures Merge([f]).Some? && Apply([], Merge([f]).value) == Content(f) && ApplyFiles([], [f]) == Content(f)
  {
    assert [f][..0] == [];
    var d := Merge([f]).value;
    forall i | 0 <= i < f.delta.commit ensures PageAfter([], d, i + 1) == Content(f)[i] {
      assert i + 1 in f.delta.pages && Newest([f], i + 1) == Some(f.delta.pages[i + 1]);
    }
  }
}
