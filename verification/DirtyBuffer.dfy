/**
 The write buffer of the writable VFS: dirty pages live in slots of an append-and-overwrite buffer
 file until a sync uploads them as one transaction. It refines a plain map from page numbers to
 page contents.
 */
module DirtyBuffer {
  import opened Pages

  function ZeroPage(pageSize: nat): (r: Page)
    ensures |r| == pageSize && forall i :: 0 <= i < pageSize ==> r[i] == 0
  {
    seq(pageSize, _ => 0)
  }

  // Write `b` into the page at `off`, as far as it fits.
  function Patched(page: Page, off: nat, b: seq<byte>): (r: Page)
    ensures |r| == |page|
  {
    seq(|page|, i requires 0 <= i < |page| => if off <= i < off + |b| then b[i - off] else page[i])
  }

  // --- The plain page map ---------------------------------------------------------------------

  // `pages` are the dirty pages; `clean` what the cache and the replica hold.
  datatype Plain = Plain(pages: map<nat, Page>, commit: nat, clean: map<nat, Page>)

  // A write that does not cover a clean page has to fetch it first, which may fail.
  datatype Op = Write(pgno: nat, off: nat, b: seq<byte>, fetched: bool) | Truncate(commit: nat) | Sync

  function Clean(clean: map<nat, Page>, p: nat, pageSize: nat): Page {
    if p in clean then clean[p] else ZeroPage(pageSize)
  }

  function Current(m: Plain, p: nat, pageSize: nat): Page {
    if p in m.pages then m.pages[p] else Clean(m.clean, p, pageSize)
  }

  // What a write to a clean page starts from: a page that cannot be fetched is taken to be missing.
  function Start(clean: map<nat, Page>, p: nat, fetched: bool, pageSize: nat): Page {
    if fetched then Clean(clean, p, pageSize) else ZeroPage(pageSize)
  }

  // What an operation does to the plain map. Writing the lock page is refused.
  function PlainStep(m: Plain, op: Op, pageSize: nat, lockPage: nat): Plain {
    match op
    case Write(p, off, b, fetched) =>
      if p == lockPage then m
      else
        var page := if p in m.pages then m.pages[p] else Start(m.clean, p, fetched, pageSize);
        m.(pages := m.pages[p := Patched(page, off, b)], commit := if p > m.commit then p else m.commit)
    case Truncate(commit) => m.(pages := map p | p in m.pages && p <= commit :: m.pages[p], commit := commit)
    case Sync => m.(pages := map[], clean := m.clean + m.pages)
  }

  // --- Reading back ---------------------------------------------------------------------------

  // One write, as an offset into its page and the bytes.
  datatype Patch = Patch(off: nat, b: seq<byte>, fetched: bool)

  function PatchAll(page: Page, ws: seq<Patch>): Page {
    if ws == [] then page
    else Patched(PatchAll(page, ws[..|ws| - 1]), ws[|ws| - 1].off, ws[|ws| - 1].b)
  }

  // The writes to page p since it was last clean.
  function WritesTo(ops: seq<Op>, p: nat, lockPage: nat): seq<Patch> {
    if ops == [] then []
    else
      var before := WritesTo(ops[..|ops| - 1], p, lockPage);
      match ops[|ops| - 1]
      case Write(q, off, b, fetched) => if q == p != lockPage then before + [Patch(off, b, fetched)] else before
      case Truncate(commit) => if p <= commit then before else []
      case Sync => []
  }

  function Run(m: Plain, ops: seq<Op>, pageSize: nat, lockPage: nat): Plain {
    if ops == [] then m
    else PlainStep(Run(m, ops[..|ops| - 1], pageSize, lockPage), ops[|ops| - 1], pageSize, lockPage)
  }

  // The first write since the page was clean decides what all of them apply to.
  function Base(clean: map<nat, Page>, p: nat, ws: seq<Patch>, pageSize: nat): Page {
    Start(clean, p, ws == [] || ws[0].fetched, pageSize)
  }

  // After any operations a page is dirty exactly when it was written since it was last clean, and it
  // then reads as its base with all those writes applied in order.
  lemma {:induction false} ReadsBack(m: Plain, ops: seq<Op>, p: nat, pageSize: nat, lockPage: nat)
    requires m.pages == map[]
    ensures var r, ws := Run(m, ops, pageSize, lockPage), WritesTo(ops, p, lockPage);
            && (p in r.pages <==> ws != [])
            && Current(r, p, pageSize) == PatchAll(Base(r.clean, p, ws, pageSize), ws)
  {
    if ops != [] {
      var n := |ops| - 1;
      ReadsBack(m, ops[..n], p, pageSize, lockPage);
      var ws := WritesTo(ops[..n], p, lockPage);
      match ops[n]
      case Write(q, off, b, fetched) =>
        assert (ws + [Patch(off, b, fetched)])[..|ws|] == ws;
      case Truncate(_) =>
      case Sync =>
    }
  }

  // The writes to page p that are not undone: those uploaded by the last sync, and all of them. Truncating
  // the page away drops what was not uploaded.
  function Uploaded(ops: seq<Op>, p: nat, lockPage: nat): seq<Patch>
    decreases |ops|, 0
  {
    if ops == [] then []
    else if ops[|ops| - 1].Sync? then Standing(ops[..|ops| - 1], p, lockPage)
    else Uploaded(ops[..|ops| - 1], p, lockPage)
  }

  function Standing(ops: seq<Op>, p: nat, lockPage: nat): seq<Patch>
    decreases |ops|, 1
  {
    if ops == [] then []
    else
      var before := Standing(ops[..|ops| - 1], p, lockPage);
      match ops[|ops| - 1]
      case Write(q, off, b, fetched) => if q == p != lockPage then before + [Patch(off, b, fetched)] else before
      case Truncate(commit) => if p <= commit then before else Uploaded(ops[..|ops| - 1], p, lockPage)
      case Sync => before
  }

  // What one operation does to what is read, and to what is clean.
  lemma ReadAfter(m: Plain, op: Op, p: nat, pageSize: nat, lockPage: nat)
    requires op.Write? ==> op.fetched
    ensures var r, now := PlainStep(m, op, pageSize, lockPage), Current(m, p, pageSize);
            && Clean(r.clean, p, pageSize) == (if op.Sync? then now else Clean(m.clean, p, pageSize))
            && Current(r, p, pageSize) ==
                 match op
                 case Write(q, off, b, _) => if q == p != lockPage then Patched(now, off, b) else now
                 case Truncate(commit) => if p <= commit then now else Clean(m.clean, p, pageSize)
                 case Sync => now
  {
  }

  // Syncing is not seen by readers: when no fetch fails, a page reads as it did at the start with all the
  // writes applied that still stand, whatever was synced in between.
  lemma {:induction false} SyncIsUnseen(m: Plain, ops: seq<Op>, p: nat, pageSize: nat, lockPage: nat)
    requires m.pages == map[] && forall k :: 0 <= k < |ops| && ops[k].Write? ==> ops[k].fetched
    ensures var r, start := Run(m, ops, pageSize, lockPage), Clean(m.clean, p, pageSize);
            && Current(r, p, pageSize) == PatchAll(start, Standing(ops, p, lockPage))
            && Clean(r.clean, p, pageSize) == PatchAll(start, Uploaded(ops, p, lockPage))
    decreases |ops|
  {
    if ops != [] {
      var n := |ops| - 1;
      var init := ops[..n];
      SyncIsUnseen(m, init, p, pageSize, lockPage);
      ReadAfter(Run(m, init, pageSize, lockPage), ops[n], p, pageSize, lockPage);
      if ops[n].Write? {
        var ws := Standing(init, p, lockPage);
        assert (ws + [Patch(ops[n].off, ops[n].b, true)])[..|ws|] == ws;
      }
    }
  }

  // --- The commit size ------------------------------------------------------------------------

  // No truncation from operation t on, and one right before it unless it is the first.
  ghost predicate LastCut(ops: seq<Op>, t: nat) {
    t <= |ops| && (t > 0 ==> ops[t - 1].Truncate?) && forall k :: t <= k < |ops| ==> !ops[k].Truncate?
  }

  predicate WritesPage(op: Op, p: nat, lockPage: nat) {
    op.Write? && op.pgno == p != lockPage
  }

  // After any operations the commit size is the highest page written since the last truncation, or the
  // size set there, whichever is larger.
  lemma {:induction false} CommitIsHighest(m: Plain, ops: seq<Op>, t: nat, pageSize: nat, lockPage: nat)
    requires LastCut(ops, t)
    ensures var size, commit := if t == 0 then m.commit else ops[t - 1].commit, Run(m, ops, pageSize, lockPage).commit;
            && size <= commit && (forall k, p: nat :: t <= k < |ops| && WritesPage(ops[k], p, lockPage) ==> p <= commit)
            && (commit == size || exists k :: t <= k < |ops| && WritesPage(ops[k], commit, lockPage))
    decreases |ops|
  {
    var n := |ops| - 1;
    if t < |ops| {
      var init := ops[..n];
      assert forall k :: 0 <= k < n ==> init[k] == ops[k];
      CommitIsHighest(m, init, t, pageSize, lockPage);
      var commit := Run(m, init, pageSize, lockPage).commit;
      if k :| t <= k < n && WritesPage(init[k], commit, lockPage) {
        assert WritesPage(ops[k], commit, lockPage);
      }
      assert ops[n].Write? ==> WritesPage(ops[n], ops[n].pgno, lockPage) || ops[n].pgno == lockPage;
    }
  }

  // --- Pages that could not be fetched --------------------------------------------------------

  // Some write covers byte i of the page.
  predicate Covers(ws: seq<Patch>, i: nat) {
    ws != [] && (ws[|ws| - 1].off <= i < ws[|ws| - 1].off + |ws[|ws| - 1].b| || Covers(ws[..|ws| - 1], i))
  }

  // A byte that no write covers is that of the base; any other does not depend on the base.
  lemma {:induction false} PatchedByte(a: Page, b: Page, ws: seq<Patch>, i: nat)
    requires |a| == |b| && i < |a|
    ensures |PatchAll(a, ws)| == |a| && |PatchAll(b, ws)| == |a|
    ensures if Covers(ws, i) then PatchAll(a, ws)[i] == PatchAll(b, ws)[i] else PatchAll(a, ws)[i] == a[i]
    decreases |ws|
  {
    if ws != [] {
      PatchedByte(a, b, ws[..|ws| - 1], i);
    }
  }

  // Writes that start from zeros instead of the page keep all of it if and only if every byte that
  // none of them covers is 0.
  lemma RestIsKeptIff(page: Page, ws: seq<Patch>)
    ensures PatchAll(ZeroPage(|page|), ws) == PatchAll(page, ws) <==>
              forall i :: 0 <= i < |page| && !Covers(ws, i) ==> page[i] == 0
  {
    var zero := ZeroPage(|page|);
    var x, y := PatchAll(zero, ws), PatchAll(page, ws);
    forall i | 0 <= i < |page| ensures |x| == |y| == |page| && (x[i] == y[i] <==> Covers(ws, i) || page[i] == 0) {
      PatchedByte(zero, page, ws, i);
      PatchedByte(page, zero, ws, i);
    }
    if page == [] {
      PatchedSize(zero, ws);
      PatchedSize(page, ws);
    }
  }

  lemma {:induction false} PatchedSize(page: Page, ws: seq<Patch>)
    ensures |PatchAll(page, ws)| == |page|
    decreases |ws|
  {
    if ws != [] {
      PatchedSize(page, ws[..|ws| - 1]);
    }
  }

  // All pages have the page size.
  ghost predicate Sized(m: Plain, pageSize: nat) {
    && (forall p :: p in m.pages ==> |m.pages[p]| == pageSize)
    && (forall p :: p in m.clean ==> |m.clean[p]| == pageSize)
  }

  lemma {:induction false} RunKeepsSizes(m: Plain, ops: seq<Op>, pageSize: nat, lockPage: nat)
    requires Sized(m, pageSize)
    ensures Sized(Run(m, ops, pageSize, lockPage), pageSize)
    decreases |ops|
  {
    if ops != [] {
      RunKeepsSizes(m, ops[..|ops| - 1], pageSize, lockPage);
    }
  }

  // After any operations a page reads as what was clean with all its writes applied, if and only if it
  // was not written since, the first of the writes fetched it, or every byte that none of them covers
  // is 0.
  lemma ReadsCleanIff(m: Plain, ops: seq<Op>, p: nat, pageSize: nat, lockPage: nat)
    requires m.pages == map[] && Sized(m, pageSize)
    ensures var r, ws := Run(m, ops, pageSize, lockPage), WritesTo(ops, p, lockPage);
            var page := Clean(r.clean, p, pageSize);
            |page| == pageSize &&
            (Current(r, p, pageSize) == PatchAll(page, ws) <==>
               ws == [] || ws[0].fetched || forall i :: 0 <= i < pageSize && !Covers(ws, i) ==> page[i] == 0)
  {
    var r, ws := Run(m, ops, pageSize, lockPage), WritesTo(ops, p, lockPage);
    RunKeepsSizes(m, ops, pageSize, lockPage);
    ReadsBack(m, ops, p, pageSize, lockPage);
    RestIsKeptIff(Clean(r.clean, p, pageSize), ws);
  }

  // A page of four bytes that could not be fetched loses the bytes that the write does not cover.
  lemma FailedFetchLosesBytes()
    ensures var m := Plain(map[], 1, map[1 := [7, 7, 7, 7]]);
            && Current(PlainStep(m, Write(1, 0, [9], false), 4, 0), 1, 4) == [9, 0, 0, 0]
            && Current(PlainStep(m, Write(1, 0, [9], true), 4, 0), 1, 4) == [9, 7, 7, 7]
  {
  }

  // --- The buffer -----------------------------------------------------------------------------

  // The bytes of the slot at `off`.
  function Slot(buffer: seq<byte>, off: nat, pageSize: nat): Page
    requires off + pageSize <= |buffer|
  {
    buffer[off..off + pageSize]
  }

  predicate Apart(a: nat, b: nat, pageSize: nat) {
    a + pageSize <= b || b + pageSize <= a
  }

  // Overwrite or append a slot of the buffer file.
  function WriteSlot(buffer: seq<byte>, off: nat, page: Page): (r: seq<byte>)
    requires off <= |buffer|
    ensures |r| == if off + |page| <= |buffer| then |buffer| else off + |page|
  {
    if off + |page| <= |buffer| then buffer[..off] + page + buffer[off + |page|..] else buffer[..off] + page
  }

  lemma SlotAfterWrite(buffer: seq<byte>, off: nat, page: Page, other: nat)
    requires off <= |buffer|
    ensures Slot(WriteSlot(buffer, off, page), off, |page|) == page
    ensures other + |page| <= |buffer| && Apart(off, other, |page|) ==>
              Slot(WriteSlot(buffer, off, page), other, |page|) == Slot(buffer, other, |page|)
  {
  }

  ghost predicate Inside(buffer: seq<byte>, dirty: map<nat, nat>, pageSize: nat) {
    forall p :: p in dirty ==> dirty[p] + pageSize <= |buffer|
  }

  // Dirty pages occupy disjoint slots inside the buffer.
  ghost predicate SlotsOk(buffer: seq<byte>, dirty: map<nat, nat>, pageSize: nat) {
    && Inside(buffer, dirty, pageSize)
    && (forall p, q :: p in dirty && q in dirty && p != q ==> Apart(dirty[p], dirty[q], pageSize))
  }

  // The pages in the slots.
  ghost function PagesOf(buffer: seq<byte>, dirty: map<nat, nat>, pageSize: nat): map<nat, Page>
    requires Inside(buffer, dirty, pageSize)
  {
    map p | p in dirty :: Slot(buffer, dirty[p], pageSize)
  }

  lemma SlotIsApart(buffer: seq<byte>, dirty: map<nat, nat>, pageSize: nat, p: nat, off: nat, q: nat)
    requires SlotsOk(buffer, dirty, pageSize) && off == (if p in dirty then dirty[p] else |buffer|)
    requires q in dirty && q != p
    ensures dirty[q] + pageSize <= |buffer| && Apart(off, dirty[q], pageSize)
  {
  }

  lemma SlotsAfterWrite(buffer: seq<byte>, dirty: map<nat, nat>, p: nat, off: nat, data: Page)
    requires SlotsOk(buffer, dirty, |data|) && off == (if p in dirty then dirty[p] else |buffer|)
    ensures off <= |buffer| && SlotsOk(WriteSlot(buffer, off, data), dirty[p := off], |data|)
  {
    forall q | q in dirty && q != p ensures dirty[q] + |data| <= |buffer| && Apart(off, dirty[q], |data|) {
      SlotIsApart(buffer, dirty, |data|, p, off, q);
    }
  }

  // Buffers that agree on all slots but that of page p.
  lemma PagesOfSlots(buffer: seq<byte>, buffer': seq<byte>, dirty: map<nat, nat>, p: nat, off: nat, data: Page)
    requires Inside(buffer, dirty, |data|) && Inside(buffer', dirty[p := off], |data|)
    requires off + |data| <= |buffer'| && Slot(buffer', off, |data|) == data
    requires forall q :: q in dirty && q != p ==>
               dirty[q] + |data| <= |buffer'| && Slot(buffer', dirty[q], |data|) == Slot(buffer, dirty[q], |data|)
    ensures PagesOf(buffer', dirty[p := off], |data|) == PagesOf(buffer, dirty, |data|)[p := data]
  {
  }

  // Overwriting the slot of page p, or appending one, changes that page and no other.
  lemma PagesAfterWrite(buffer: seq<byte>, dirty: map<nat, nat>, p: nat, off: nat, data: Page)
    requires SlotsOk(buffer, dirty, |data|) && off == (if p in dirty then dirty[p] else |buffer|)
    ensures off <= |buffer| && SlotsOk(WriteSlot(buffer, off, data), dirty[p := off], |data|)
    ensures PagesOf(WriteSlot(buffer, off, data), dirty[p := off], |data|) == PagesOf(buffer, dirty, |data|)[p := data]
  {
    SlotsAfterWrite(buffer, dirty, p, off, data);
    var buffer' := WriteSlot(buffer, off, data);
    forall q | q in dirty && q != p
      ensures dirty[q] + |data| <= |buffer|
      ensures Slot(buffer', dirty[q], |data|) == Slot(buffer, dirty[q], |data|)
    {
      SlotIsApart(buffer, dirty, |data|, p, off, q);
      SlotAfterWrite(buffer, off, data, dirty[q]);
    }
    SlotAfterWrite(buffer, off, data, off);
    PagesOfSlots(buffer, buffer', dirty, p, off, data);
  }

  lemma {:induction false} LeastExists(s: set<nat>) returns (p: nat)
    requires s != {}
    ensures p in s && forall q :: q in s ==> p <= q
    decreases |s|
  {
    var x :| x in s;
    var rest := s - {x};
    assert forall q :: q in s ==> q == x || q in rest;
    if rest == {} {
      p := x;
    } else {
      var y := LeastExists(rest);
      p := if x < y then x else y;
    }
  }

  // The page numbers in ascending order.
  method SortPages(s: set<nat>) returns (r: seq<nat>)
    ensures forall p :: p in r <==> p in s
    ensures forall i, j :: 0 <= i < j < |r| ==> r[i] < r[j]
  {
    r := [];
    var rest := s;
    while rest != {}
      invariant rest <= s
      invariant forall p :: p in s <==> p in r || p in rest
      invariant forall i :: 0 <= i < |r| ==> forall p :: p in rest ==> r[i] < p
      invariant forall i, j :: 0 <= i < j < |r| ==> r[i] < r[j]
      decreases |rest|
    {
      ghost var least := LeastExists(rest);
      var p :| p in rest && forall q :: q in rest ==> p <= q;
      r := r + [p];
      rest := rest - {p};
    }
  }

  // Forget the pages beyond `commit`.
  method KeepUpTo(dirty: map<nat, nat>, commit: nat) returns (kept: map<nat, nat>)
    ensures kept == map p | p in dirty && p <= commit :: dirty[p]
  {
    var keys := dirty.Keys;
    kept := dirty;
    while keys != {}
      invariant keys <= dirty.Keys
      invariant forall p :: p in kept <==> p in dirty && (p in keys || p <= commit)
      invariant forall p :: p in kept ==> kept[p] == dirty[p]
      decreases |keys|
    {
      var p :| p in keys;
      keys := keys - {p};
      if p > commit {
        kept := kept - {p};
      }
    }
  }

  // The clean pages with the dirty ones, except those still to come, on top.
  ghost predicate Overlaid(clean: map<nat, Page>, written: map<nat, Page>, rest: set<nat>, r: map<nat, Page>) {
    && (forall p :: p in r <==> p in clean || (p in written && p !in rest))
    && (forall p :: p in r ==> r[p] == if p in written && p !in rest then written[p] else clean[p])
  }

  lemma OverlaidAll(clean: map<nat, Page>, written: map<nat, Page>, r: map<nat, Page>)
    requires Overlaid(clean, written, {}, r)
    ensures r == clean + written
  {
  }

  method CacheDirty(buffer: seq<byte>, dirty: map<nat, nat>, clean: map<nat, Page>, pageSize: nat)
    returns (cached: map<nat, Page>)
    requires Inside(buffer, dirty, pageSize) && forall p :: p in clean ==> |clean[p]| == pageSize
    ensures Overlaid(clean, PagesOf(buffer, dirty, pageSize), {}, cached)
    ensures forall p :: p in cached ==> |cached[p]| == pageSize
  {
    ghost var written := PagesOf(buffer, dirty, pageSize);
    var keys := dirty.Keys;
    cached := clean;
    while keys != {}
      invariant forall p :: p in keys ==> p in written
      invariant Overlaid(clean, written, keys, cached)
      invariant forall p :: p in cached ==> |cached[p]| == pageSize
      decreases |keys|
    {
      var p :| p in keys;
      keys := keys - {p};
      cached := cached[p := Slot(buffer, dirty[p], pageSize)];
    }
  }

  // An encoded page of an LTX file.
  datatype Encoded = Encoded(pgno: nat, data: Page)

  // What is uploaded: the database size and the pages.
  datatype Transaction = Transaction(commit: nat, pages: seq<Encoded>)

  // The transaction has the size of m and holds exactly its dirty pages, in ascending order.
  ghost predicate Encodes(t: Transaction, m: Plain) {
    && t.commit == m.commit
    && (forall i, j :: 0 <= i < j < |t.pages| ==> t.pages[i].pgno < t.pages[j].pgno)
    && (forall i :: 0 <= i < |t.pages| ==> t.pages[i].pgno in m.pages && t.pages[i].data == m.pages[t.pages[i].pgno])
    && (forall p :: p in m.pages ==> exists i :: 0 <= i < |t.pages| && t.pages[i].pgno == p)
  }

  class VfsFile {
    const pageSize: nat
    const lockPage: nat
    var buffer: seq<byte>
    var dirty: map<nat, nat>
    var nextOff: nat
    var commit: nat
    var clean: map<nat, Page>

    ghost predicate Valid()
      reads this
    {
      && 0 < pageSize && nextOff == |buffer| && lockPage !in dirty
      && SlotsOk(buffer, dirty, pageSize)
      && (forall p :: p in clean ==> |clean[p]| == pageSize)
    }

    // The dirty pages the buffer stands for.
    ghost function Contents(): Plain
      requires Valid()
      reads this
    {
      Plain(PagesOf(buffer, dirty, pageSize), commit, clean)
    }

    constructor (pageSize: nat, lockPage: nat, commit: nat, clean: map<nat, Page>)
      requires 0 < pageSize && forall p :: p in clean ==> |clean[p]| == pageSize
      ensures Valid() && Contents() == Plain(map[], commit, clean)
      ensures this.pageSize == pageSize && this.lockPage == lockPage
    {
      this.pageSize, this.lockPage, this.commit, this.clean := pageSize, lockPage, commit, clean;
      buffer, dirty, nextOff := [], map[], 0;
    }

    // A dirty page overwrites its slot; any other page gets a new slot at the end.
    method WriteToBuffer(p: nat, data: Page)
      requires Valid() && |data| == pageSize && p != lockPage
      modifies this`buffer, this`dirty, this`nextOff
      ensures Valid() && Contents() == old(Contents()).(pages := old(Contents()).pages[p := data])
    {
      var off;
      if p in dirty {
        off := dirty[p];
      } else {
        off := nextOff;
        nextOff := nextOff + |data|;
      }
      PagesAfterWrite(buffer, dirty, p, off, data);
      buffer := WriteSlot(buffer, off, data);
      dirty := dirty[p := off];
    }

    // Patch page p, which becomes dirty.
    method WriteToPage(p: nat, o: nat, b: seq<byte>, fetched: bool)
      requires Valid() && p != lockPage
      modifies this
      ensures Valid() && Contents() == PlainStep(old(Contents()), Write(p, o, b, fetched), pageSize, lockPage)
    {
      var page := ZeroPage(pageSize);
      if p in dirty {
        page := Slot(buffer, dirty[p], pageSize);
      } else if fetched {
        page := Clean(clean, p, pageSize);
      }
      page := Patched(page, o, b);
      if p > commit {
        commit := p;
      }
      WriteToBuffer(p, page);
    }

    // `fetched` says whether the page can be fetched, should that be necessary.
    method WriteAt(b: seq<byte>, off: nat, fetched: bool) returns (n: nat, ok: bool)
      requires Valid()
      modifies this
      ensures Valid()
      ensures Contents() ==
                PlainStep(old(Contents()), Write(off / pageSize + 1, off % pageSize, b, fetched), pageSize, lockPage)
      ensures ok == (off / pageSize + 1 != lockPage)
      ensures n == if ok then Min(|b|, pageSize - off % pageSize) else 0
    {
      var p := off / pageSize + 1;
      if p == lockPage {
        return 0, false;
      }
      WriteToPage(p, off % pageSize, b, fetched);
      return Min(|b|, pageSize - off % pageSize), true;
    }

    // Reading a dirty page sees every write to it.
    method ReadAt(len: nat, off: nat) returns (r: Option<seq<byte>>)
      requires Valid()
      ensures var p, o := off / pageSize + 1, off % pageSize;
              if p in Contents().pages then r == Some(Contents().pages[p][o..Min(pageSize, o + len)]) else r == None
    {
      var p, o := off / pageSize + 1, off % pageSize;
      if p !in dirty {
        return None;
      }
      var page := Slot(buffer, dirty[p], pageSize);
      return Some(page[o..Min(pageSize, o + len)]);
    }

    method Truncate(size: nat)
      requires Valid()
      modifies this`dirty, this`commit
      ensures Valid() && Contents() == PlainStep(old(Contents()), Op.Truncate(size / pageSize), pageSize, lockPage)
    {
      var newCommit := size / pageSize;
      dirty := KeepUpTo(dirty, newCommit);
      commit := newCommit;
    }

    // The dirty pages as one transaction, in ascending order.
    method Encode() returns (t: Transaction)
      requires Valid()
      ensures Encodes(t, Contents())
    {
      var pgnos := SortPages(dirty.Keys);
      var pages: seq<Encoded> := [];
      for i := 0 to |pgnos|
        invariant |pages| == i
        invariant forall j :: 0 <= j < i ==> pages[j] == Encoded(pgnos[j], Slot(buffer, dirty[pgnos[j]], pageSize))
      {
        assert pgnos[i] in dirty;
        pages := pages + [Encoded(pgnos[i], Slot(buffer, dirty[pgnos[i]], pageSize))];
      }
      forall p | p in dirty ensures exists i :: 0 <= i < |pages| && pages[i].pgno == p {
        var i :| 0 <= i < |pgnos| && pgnos[i] == p;
        assert pages[i].pgno == p;
      }
      t := Transaction(commit, pages);
    }

    // Upload the dirty pages and start over with an empty buffer; nothing changes if the upload fails.
    method SyncToRemote(uploads: bool) returns (t: Transaction, ok: bool)
      requires Valid()
      modifies this
      ensures Valid() && ok == (uploads || old(dirty) == map[])
      ensures Encodes(t, old(Contents()))
      ensures Contents() == if ok then PlainStep(old(Contents()), Sync, pageSize, lockPage) else old(Contents())
    {
      t := Encode();
      ok := uploads || dirty == map[];
      if ok {
        var cached := CacheDirty(buffer, dirty, clean, pageSize);
        OverlaidAll(clean, Contents().pages, cached);
        clean := cached;
        dirty, buffer, nextOff := map[], [], 0;
      }
    }
  }
}
