/**
 Page images, page deltas and transaction histories.

 A database image is the sequence of its pages; page number `p` lives at index `p - 1`.
 A delta is what one LTX file carries: the database size after it, in pages, and the
 pages it writes. A history is the list of transactions since the empty database;
 transaction `t` (its TXID) is `h[t - 1]`.
 */
module Pages {

  datatype Option<+T> = None | Some(value: T)

  function Min(a: nat, b: nat): nat {
    if a < b then a else b
  }

  function Max(a: nat, b: nat): nat {
    if a < b then b else a
  }

  newtype byte = x: int | 0 <= x < 256

  type Page = seq<byte>

  type Image = seq<Page>

  // A page that a file holds only because it was extended past its end.
  const HOLE: Page := []

  datatype Delta = Delta(commit: nat, pages: map<nat, Page>) {
    ghost predicate Valid() {
      forall p :: p in pages ==> 1 <= p <= commit
    }
  }

  function PageAfter(img: Image, d: Delta, p: nat): Page
    requires 1 <= p
  {
    if p in d.pages then d.pages[p]
    else if p <= |img| then img[p - 1]
    else HOLE
  }

  // Write the pages of `d` over `img` and resize the result to the commit size.
  function Apply(img: Image, d: Delta): (r: Image)
    ensures |r| == d.commit
    ensures forall i :: 0 <= i < d.commit ==> r[i] == PageAfter(img, d, i + 1)
  {
    seq(d.commit, i requires 0 <= i < d.commit => PageAfter(img, d, i + 1))
  }

  type History = seq<Delta>

  // Database size, in pages, after transaction `t`.
  function Size(h: History, t: nat): nat
    requires t <= |h|
  {
    if t == 0 then 0 else h[t - 1].commit
  }

  // A transaction that grows the database writes every page it adds.
  ghost predicate Grows(size: nat, d: Delta) {
    d.Valid() && forall p :: size < p <= d.commit ==> p in d.pages
  }

  ghost predicate GrowsAt(h: History, i: nat)
    requires i < |h|
  {
    Grows(Size(h, i), h[i])
  }

  ghost predicate ValidHistory(h: History) {
    forall i: nat :: i < |h| ==> GrowsAt(h, i)
  }

  // The image after transaction `t`.
  function ImageAt(h: History, t: nat): (r: Image)
    requires t <= |h|
    ensures |r| == Size(h, t)
  {
    if t == 0 then [] else Apply(ImageAt(h, t - 1), h[t - 1])
  }

  ghost predicate Writes(h: History, t: nat, p: nat)
    requires 1 <= t <= |h|
  {
    p in h[t - 1].pages
  }

  // Some transaction in a..b writes page p.
  ghost predicate Touched(h: History, a: nat, b: nat, p: nat)
    requires 1 <= a && b <= |h|
  {
    exists i: nat :: a <= i <= b && Writes(h, i, p)
  }

  // The net page effect of transactions a..b: every page they leave written, as it is after b.
  ghost function Net(h: History, a: nat, b: nat): (d: Delta)
    requires 1 <= a <= b <= |h|
  {
    Delta(Size(h, b), map p | 1 <= p <= Size(h, b) && Touched(h, a, b, p) :: ImageAt(h, b)[p - 1])
  }

  // A page inside the database after `b` that nobody wrote since `t` was already there at `t`.
  lemma {:induction false} UntouchedIsStable(h: History, t: nat, b: nat, p: nat)
    requires ValidHistory(h) && t <= b <= |h|
    requires 1 <= p <= Size(h, b) && !Touched(h, t + 1, b, p)
    ensures p <= Size(h, t) && ImageAt(h, b)[p - 1] == ImageAt(h, t)[p - 1]
  {
    if t < b {
      assert !Writes(h, b, p);
      assert GrowsAt(h, b - 1);
      assert !Touched(h, t + 1, b - 1, p);
      UntouchedIsStable(h, t, b - 1, p);
      assert ImageAt(h, b)[p - 1] == PageAfter(ImageAt(h, b - 1), h[b - 1], p);
    }
  }

  // A one-transaction net effect is that transaction itself.
  lemma NetOfOne(h: History, t: nat)
    requires ValidHistory(h) && 1 <= t <= |h|
    ensures Net(h, t, t) == h[t - 1]
  {
    var d, n := h[t - 1], Net(h, t, t);
    assert GrowsAt(h, t - 1);
    assert forall p :: p in n.pages <==> p in d.pages by {
      assert forall p :: Touched(h, t, t, p) <==> Writes(h, t, p);
    }
    var before := ImageAt(h, t - 1);
    assert ImageAt(h, t) == Apply(before, d);
    assert forall p :: p in d.pages ==> n.pages[p] == PageAfter(before, d, p);
  }

  lemma NetPageCatchesUp(h: History, a: nat, b: nat, t: nat, p: nat)
    requires ValidHistory(h) && 1 <= a <= b <= |h|
    requires a <= t + 1 && t <= b && 1 <= p <= Size(h, b)
    ensures PageAfter(ImageAt(h, t), Net(h, a, b), p) == ImageAt(h, b)[p - 1]
  {
    if !Touched(h, a, b, p) {
      assert !Touched(h, t + 1, b, p);
      UntouchedIsStable(h, t, b, p);
    }
  }

  // Writing the net effect of a..b over any image between a - 1 and b gives the image after b.
  // The overlap of a..b with what the image already holds is harmless.
  lemma NetCatchesUp(h: History, a: nat, b: nat, t: nat)
    requires ValidHistory(h) && 1 <= a <= b <= |h|
    requires a <= t + 1 && t <= b
    ensures Apply(ImageAt(h, t), Net(h, a, b)) == ImageAt(h, b)
  {
    var n, before, after := Net(h, a, b), ImageAt(h, t), ImageAt(h, b);
    forall i | 0 <= i < Size(h, b)
      ensures PageAfter(before, n, i + 1) == after[i]
    {
      NetPageCatchesUp(h, a, b, t, i + 1);
    }
  }

  // What happened up to `b` does not depend on what is appended later.
  lemma {:induction false} ImageOfPrefix(h: History, g: History, t: nat)
    requires t <= |h| <= |g| && g[..|h|] == h
    ensures Size(g, t) == Size(h, t) && ImageAt(g, t) == ImageAt(h, t)
  {
    if t > 0 {
      ImageOfPrefix(h, g, t - 1);
      assert g[t - 1] == g[..|h|][t - 1] == h[t - 1];
    }
  }

  lemma NetOfPrefix(h: History, g: History, a: nat, b: nat)
    requires 1 <= a <= b <= |h| <= |g| && g[..|h|] == h
    ensures Net(g, a, b) == Net(h, a, b)
  {
    ImageOfPrefix(h, g, b);
    forall i | 0 <= i < |h| ensures g[i] == h[i] {
      assert g[i] == g[..|h|][i];
    }
    forall p
      ensures Touched(g, a, b, p) <==> Touched(h, a, b, p)
    {
      assert forall i: nat :: a <= i <= b ==> (Writes(g, i, p) <==> Writes(h, i, p));
    }
  }

  lemma ImageOfAppend(h: History, d: Delta)
    ensures ImageAt(h + [d], |h|) == ImageAt(h, |h|)
    ensures ImageAt(h + [d], |h| + 1) == Apply(ImageAt(h, |h|), d)
  {
    var g := h + [d];
    assert g[..|h|] == h;
    ImageOfPrefix(h, g, |h|);
    assert g[|h|] == d;
  }

  lemma HistoryAppend(h: History, d: Delta)
    requires ValidHistory(h) && Grows(Size(h, |h|), d)
    ensures ValidHistory(h + [d])
  {
    var g := h + [d];
    forall i: nat | i < |g| ensures GrowsAt(g, i) {
      assert i < |h| ==> GrowsAt(h, i);
      assert Size(g, i) == Size(h, i);
      assert g[i] == if i < |h| then h[i] else d;
    }
  }
}
