/**
 Images that are close to a history: they hold all of its transactions up to some TXID, and parts
 of later ones. A database file that was written half-way is close, and so is a snapshot that is
 ahead of the TXID it is labelled with.
 */
module NearImage {
  import opened Pages
  import opened LtxFiles

  // Some pages of `d` were written, others only in part, and the file may have been cut to its new
  // size. A page that is written half-way can be anything, unless it is overwritten with what it
  // holds already.
  ghost predicate PartlyApplied(img: Image, d: Delta, r: Image) {
    forall p :: 1 <= p <= |img| && p <= d.commit ==>
      p <= |r| && (r[p - 1] == img[p - 1] || (p in d.pages && d.pages[p] != img[p - 1]))
  }

  // --- Close to the history -------------------------------------------------------------------

  // Page p exists throughout t..m and nobody writes it after t.
  ghost predicate Steady(h: History, t: nat, m: nat, p: nat)
    requires t <= m <= |h|
  {
    1 <= p && (forall s: nat :: t <= s <= m ==> p <= Size(h, s)) && !Touched(h, t + 1, m, p)
  }

  // The file holds transactions up to t, and parts of later ones up to m.
  ghost predicate Near(h: History, t: nat, m: nat, img: Image) {
    && t <= m <= |h|
    && forall p: nat :: Steady(h, t, m, p) ==> HasPage(h, t, img, p)
  }

  // Page p is as it was after transaction t.
  ghost predicate HasPage(h: History, t: nat, img: Image, p: nat)
    requires t <= |h|
  {
    1 <= p <= |img| && p <= Size(h, t) && img[p - 1] == ImageAt(h, t)[p - 1]
  }

  lemma SteadyLess(h: History, t: nat, n: nat, m: nat, p: nat)
    requires t <= n <= m <= |h| && Steady(h, t, m, p)
    ensures Steady(h, t, n, p)
  {
  }

  lemma SteadyLater(h: History, t: nat, n: nat, m: nat, p: nat)
    requires t <= n <= m <= |h| && Steady(h, t, m, p)
    ensures Steady(h, n, m, p)
  {
    if i: nat :| n + 1 <= i <= m && Writes(h, i, p) {
      assert Touched(h, t + 1, m, p);
    }
  }

  // A page that nobody writes after t up to b, and that exists at b, existed all along.
  lemma SteadyBack(h: History, t: nat, b: nat, m: nat, p: nat)
    requires ValidHistory(h) && t <= b <= |h| && t <= m <= |h|
    requires 1 <= p <= Size(h, b) && !Touched(h, t + 1, b, p)
    requires m <= b || Steady(h, b, m, p)
    ensures Steady(h, t, m, p) && ImageAt(h, b)[p - 1] == ImageAt(h, t)[p - 1]
  {
    forall s: nat | t <= s <= m ensures p <= Size(h, s) {
      if s <= b {
        assert !Touched(h, s + 1, b, p);
        UntouchedIsStable(h, s, b, p);
      }
    }
    assert !Touched(h, t + 1, m, p) by {
      if i: nat :| t + 1 <= i <= m && Writes(h, i, p) {
        assert i <= b ==> Touched(h, t + 1, b, p);
        assert i > b ==> Touched(h, b + 1, m, p);
      }
    }
    UntouchedIsStable(h, t, b, p);
  }

  lemma FullPage(h: History, t: nat, m: nat, img: Image, f: LtxFile, p: nat)
    requires ValidHistory(h) && Near(h, t, m, img) && Faithful(h, f) && Extends(t, f)
    requires 1 <= p <= Size(h, f.maxTXID) && (m <= f.maxTXID || Steady(h, f.maxTXID, m, p))
    ensures PageAfter(img, f.delta, p) == ImageAt(h, f.maxTXID)[p - 1]
  {
    var b := f.maxTXID;
    if p !in f.delta.pages {
      assert !Touched(h, f.minTXID, b, p);
      assert !Touched(h, t + 1, b, p);
      SteadyBack(h, t, b, m, p);
    }
  }

  // Applying an LTX file in full moves the image on; past everything it held parts of, it is exact.
  lemma FullApply(h: History, t: nat, m: nat, img: Image, f: LtxFile)
    requires ValidHistory(h) && Near(h, t, m, img) && Faithful(h, f) && Extends(t, f)
    ensures Near(h, f.maxTXID, Max(m, f.maxTXID), Apply(img, f.delta))
    ensures m <= f.maxTXID ==> Apply(img, f.delta) == ImageAt(h, f.maxTXID)
  {
    var b, r := f.maxTXID, Apply(img, f.delta);
    if m <= b {
      forall i | 0 <= i < |r| ensures r[i] == ImageAt(h, b)[i] {
        FullPage(h, t, m, img, f, i + 1);
      }
      assert r == ImageAt(h, b);
    } else {
      forall p: nat | Steady(h, b, m, p) ensures HasPage(h, b, r, p) {
        FullPage(h, t, m, img, f, p);
      }
    }
  }

  lemma PartPage(h: History, t: nat, img: Image, f: LtxFile, r: Image, p: nat)
    requires ValidHistory(h) && Faithful(h, f) && t < f.maxTXID && HasPage(h, t, img, p)
    requires PartlyApplied(img, f.delta, r) && Steady(h, t, f.maxTXID, p)
    ensures HasPage(h, t, r, p)
  {
    UntouchedIsStable(h, t, f.maxTXID, p);
    assert p <= Size(h, f.maxTXID) == f.delta.commit;
    if p in f.delta.pages {
      assert f.delta.pages[p] == ImageAt(h, f.maxTXID)[p - 1];
    }
  }

  // A file applied in part, in any order and with any pages torn, leaves the image at t, with more begun.
  lemma PartApply(h: History, t: nat, m: nat, img: Image, f: LtxFile, r: Image)
    requires ValidHistory(h) && Near(h, t, m, img) && Faithful(h, f) && Extends(t, f)
    requires PartlyApplied(img, f.delta, r)
    ensures Near(h, t, Max(m, f.maxTXID), r)
  {
    forall p: nat | Steady(h, t, Max(m, f.maxTXID), p) ensures HasPage(h, t, r, p) {
      SteadyLess(h, t, m, Max(m, f.maxTXID), p);
      SteadyLess(h, t, f.maxTXID, Max(m, f.maxTXID), p);
      PartPage(h, t, img, f, r, p);
    }
  }

  lemma ExactIsNear(h: History, t: nat)
    requires t <= |h|
    ensures Near(h, t, t, ImageAt(h, t))
  {
  }

  // Any image is close to an empty one.
  lemma NearEmpty(h: History, t: nat, m: nat, img: Image)
    requires t <= m <= |h|
    ensures Size(h, t) == 0 ==> Near(h, t, m, img)
  {
    assert forall p: nat :: Steady(h, t, m, p) ==> 1 <= p <= Size(h, t);
  }

  // Going on from an older TXID than the image holds is safe.
  lemma NearEarlier(h: History, s: nat, t: nat, m: nat, img: Image)
    requires ValidHistory(h) && s <= t && Near(h, t, m, img)
    ensures Near(h, s, m, img)
  {
    forall p: nat | Steady(h, s, m, p) ensures HasPage(h, s, img, p) {
      SteadyLater(h, s, t, m, p);
      SteadyLess(h, s, t, m, p);
      UntouchedIsStable(h, s, t, p);
    }
  }

  lemma NearLater(h: History, t: nat, m: nat, n: nat, img: Image)
    requires Near(h, t, m, img) && m <= n <= |h|
    ensures Near(h, t, n, img)
  {
    forall p: nat | Steady(h, t, n, p) ensures HasPage(h, t, img, p) {
      SteadyLess(h, t, m, n, p);
    }
  }

  // New transactions at the source do not disturb what the file holds.
  lemma NearOfPrefix(h: History, g: History, t: nat, m: nat, img: Image)
    requires ValidHistory(h) && Near(h, t, m, img) && |h| <= |g| && g[..|h|] == h
    ensures Near(g, t, m, img)
  {
    forall i | 0 <= i < |h| ensures g[i] == h[i] {
      assert g[i] == g[..|h|][i];
    }
    ImageOfPrefix(h, g, t);
    forall p: nat | Steady(g, t, m, p) ensures HasPage(g, t, img, p) {
      forall s: nat | t <= s <= m ensures p <= Size(h, s) {
        assert p <= Size(g, s);
      }
      assert forall i: nat :: t + 1 <= i <= m ==> (Writes(h, i, p) <==> Writes(g, i, p));
      assert Steady(h, t, m, p);
      assert HasPage(h, t, img, p);
    }
  }
}
