/**
 Follow mode: a restored database file is kept up to date by writing newly stored LTX files into
 it, page by page. Any write may fail, also in the middle of a page, or the process may stop; the
 TXID in the sidecar file then lags behind what was written. The file always stays close enough to
 the history for the next rounds to repair it.
 */
module Follow {
  import opened Pages
  import opened NearImage

  // --- Writing into the file ------------------------------------------------------------------

  function Holes(n: nat): (r: Image)
    ensures |r| == n && forall i :: 0 <= i < n ==> r[i] == HOLE
  {
    seq(n, _ => HOLE)
  }

  function WritePage(img: Image, p: nat, data: Page): Image
    requires 1 <= p
  {
    if p <= |img| then img[p - 1 := data] else img + Holes(p - 1 - |img|) + [data]
  }

  function Truncate(img: Image, n: nat): Image {
    if n <= |img| then img[..n] else img + Holes(n - |img|)
  }

  // The file after the pages of `d` below page p were written.
  ghost predicate WrittenBelow(img: Image, d: Delta, p: nat, r: Image) {
    && |img| <= |r|
    && (forall q :: q in d.pages && 1 <= q < p ==> q <= |r|)
    && (forall i :: 0 <= i < |r| ==> r[i] == PageBelow(img, d, p, i))
  }

  function PageBelow(img: Image, d: Delta, p: nat, i: nat): Page {
    if i + 1 < p && i + 1 in d.pages then d.pages[i + 1] else if i < |img| then img[i] else HOLE
  }

  lemma WriteNext(img: Image, d: Delta, p: nat, r: Image)
    requires 1 <= p && WrittenBelow(img, d, p, r)
    ensures WrittenBelow(img, d, p + 1, if p in d.pages then WritePage(r, p, d.pages[p]) else r)
  {
  }

  lemma WrittenAll(img: Image, d: Delta, r: Image)
    requires d.Valid() && WrittenBelow(img, d, d.commit + 1, r)
    ensures Truncate(r, d.commit) == Apply(img, d)
  {
    var s := Truncate(r, d.commit);
    forall i | 0 <= i < d.commit ensures s[i] == PageAfter(img, d, i + 1) {
    }
  }

  // The file after a delta was written without a failure: it is never cut to size 0.
  function Written(img: Image, d: Delta): Image {
    if d.commit > 0 then Apply(img, d) else img
  }

  // So it is right if and only if the new size is positive or there was nothing to cut.
  lemma WrittenExactIff(img: Image, d: Delta)
    ensures Written(img, d) == Apply(img, d) <==> d.commit > 0 || img == []
  {
    assert |Apply(img, d)| == d.commit;
  }

  // A copy of one page survives a transaction that leaves no page.
  lemma EmptyingIsSkipped()
    ensures var h := [Delta(1, map[1 := [7]]), Delta(0, map[])];
            ValidHistory(h) && Written(ImageAt(h, 1), h[1]) == [[7]] && ImageAt(h, 2) == []
  {
    var h := [Delta(1, map[1 := [7]]), Delta(0, map[])];
    assert GrowsAt(h, 0) && GrowsAt(h, 1);
    assert ImageAt(h, 1) == Apply(ImageAt(h, 0), h[0]);
  }

  // --- Breaking off ---------------------------------------------------------------------------

  // Where writing a delta breaks off: in front of page `at`, or inside it with `torn` left there;
  // at commit + 1 before the file is cut, later after that.
  datatype Break = Break(at: nat, torn: Option<Page>)

  // The file when writing breaks off at page p. A page that holds the new content already does not
  // change while it is written.
  function Broken(img: Image, d: Delta, p: nat, torn: Option<Page>): Image
    requires 1 <= p
  {
    if torn == None || p !in d.pages || (p <= |img| && img[p - 1] == d.pages[p]) then img
    else WritePage(img, p, torn.value)
  }

  lemma BrokenIsPart(img: Image, d: Delta, p: nat, r: Image, torn: Option<Page>)
    requires 1 <= p && WrittenBelow(img, d, p, r)
    ensures PartlyApplied(img, d, Broken(r, d, p, torn))
  {
  }
}
