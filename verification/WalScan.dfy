/**
 Scanning the frame slots of a WAL: the running checksum, where a scan stops, and why a reader
 that resumes in the middle is the reader that came from the start.
 */
module WalScan {
  import opened Pages
  import opened FrameLog

  const TWO32 := 0x1_0000_0000

  // --- Checksums ------------------------------------------------------------------------------

  datatype Sum = Sum(s0: nat, s1: nat) {
    predicate Valid() { s0 < TWO32 && s1 < TWO32 }
  }

  type Words = seq<(nat, nat)>

  function AddUnit(s: Sum, x: nat, y: nat): (r: Sum)
    ensures r.Valid()
  {
    var s0 := (s.s0 + x + s.s1) % TWO32;
    Sum(s0, (s.s1 + y + s0) % TWO32)
  }

  // The running checksum over 8-byte units, each given as two words.
  function Fold(s: Sum, ws: Words): (r: Sum)
    ensures s.Valid() ==> r.Valid()
    decreases |ws|
  {
    if ws == [] then s else Fold(AddUnit(s, ws[0].0, ws[0].1), ws[1..])
  }

  lemma {:induction false} FoldConcat(s: Sum, a: Words, b: Words)
    ensures Fold(s, a + b) == Fold(Fold(s, a), b)
    decreases |a|
  {
    if a == [] {
      assert a + b == b;
    } else {
      assert (a + b)[1..] == a[1..] + b;
      FoldConcat(AddUnit(s, a[0].0, a[0].1), a[1..], b);
    }
  }

  lemma SameResidue(a: nat, b: nat, c: nat)
    requires a < TWO32 && b < TWO32 && (a + c) % TWO32 == (b + c) % TWO32
    ensures a == b
  {
  }

  lemma AddUnitInjective(s: Sum, t: Sum, x: nat, y: nat)
    requires s.Valid() && t.Valid() && AddUnit(s, x, y) == AddUnit(t, x, y)
    ensures s == t
  {
    SameResidue(s.s1, t.s1, y + AddUnit(s, x, y).s0);
    SameResidue(s.s0, t.s0, x + s.s1);
  }

  // The checksum after some bytes fixes the checksum before them.
  lemma {:induction false} FoldInjective(s: Sum, t: Sum, ws: Words)
    requires s.Valid() && t.Valid() && Fold(s, ws) == Fold(t, ws)
    ensures s == t
    decreases |ws|
  {
    if ws != [] {
      var (x, y) := ws[0];
      FoldInjective(AddUnit(s, x, y), AddUnit(t, x, y), ws[1..]);
      AddUnitInjective(s, t, x, y);
    }
  }

  // --- Slots and cursors ----------------------------------------------------------------------

  // A frame slot as it is in the file: the frame, the checksum stored with it, and the words the
  // checksum runs over.
  datatype Slot = Slot(frame: Frame, stored: Sum, words: Words)

  // Where a reader is: the next frame number, the salts it accepts and the running checksum.
  datatype Cursor = Cursor(frameN: nat, salt: Salt, sum: Sum)

  datatype Read = Read(frame: Frame, next: Cursor) | End(next: Cursor)

  // What one read does with the slot it finds, if any. With verification off the stored checksum
  // is taken over; a failed verification leaves the mismatching checksum behind.
  function Step(slot: Option<Slot>, cur: Cursor, verify: bool): Read {
    if slot == None || slot.value.frame.salt != cur.salt then End(cur)
    else
      var sum := if verify then Fold(cur.sum, slot.value.words) else slot.value.stored;
      if sum != slot.value.stored then End(cur.(sum := sum))
      else Read(slot.value.frame, cur.(sum := sum, frameN := cur.frameN + 1))
  }

  function SlotAt(slots: seq<Slot>, i: nat): Option<Slot> {
    if i < |slots| then Some(slots[i]) else None
  }

  // `slots` are exactly what reading frame by frame finds.
  ghost predicate Lists(slots: seq<Slot>, read: nat -> Option<Slot>) {
    forall i: nat :: SlotAt(slots, i) == read(i)
  }

  // Past the first frame that cannot be read, none can.
  ghost predicate Gapless(read: nat -> Option<Slot>) {
    forall i: nat, j: nat :: i <= j && read(i) == None ==> read(j) == None
  }

  ghost function Collect(read: nat -> Option<Slot>, i: nat, limit: nat): seq<Slot>
    decreases limit - i
  {
    if limit <= i || read(i) == None then [] else [read(i).value] + Collect(read, i + 1, limit)
  }

  lemma {:induction false} CollectAt(read: nat -> Option<Slot>, i: nat, limit: nat, k: nat)
    requires Gapless(read) && read(limit) == None
    ensures SlotAt(Collect(read, i, limit), k) == read(i + k)
    decreases k
  {
    if limit <= i || read(i) == None {
      assert Collect(read, i, limit) == [];
    } else if k > 0 {
      CollectAt(read, i + 1, limit, k - 1);
      assert i + k == i + 1 + (k - 1);
    }
  }

  lemma CollectLists(read: nat -> Option<Slot>, limit: nat)
    requires Gapless(read) && read(limit) == None
    ensures Lists(Collect(read, 0, limit), read)
  {
    forall i: nat ensures SlotAt(Collect(read, 0, limit), i) == read(i) {
      CollectAt(read, 0, limit, i);
    }
  }

  // All frames a verified scan yields from `cur` on.
  function Scan(slots: seq<Slot>, cur: Cursor): (fs: seq<Frame>)
    ensures |fs| == 0 || cur.frameN + |fs| <= |slots|
    decreases |slots| - cur.frameN
  {
    match Step(SlotAt(slots, cur.frameN), cur, true)
    case End(_) => []
    case Read(f, next) => [f] + Scan(slots, next)
  }

  // --- Reading until a read fails -------------------------------------------------------------

  // Reading on from `a` yields fs and leads to `b`.
  ghost predicate Leads(read: nat -> Option<Slot>, a: Cursor, fs: seq<Frame>, b: Cursor)
    decreases |fs|
  {
    if fs == [] then a == b
    else exists m :: Leads(read, a, fs[..|fs| - 1], m) && Step(read(m.frameN), m, true) == Read.Read(fs[|fs| - 1], b)
  }

  // Reading on from `cur` yields fs and then fails.
  ghost predicate Yields(read: nat -> Option<Slot>, cur: Cursor, fs: seq<Frame>) {
    exists b :: Leads(read, cur, fs, b) && Step(read(b.frameN), b, true).End?
  }

  lemma LeadsOn(read: nat -> Option<Slot>, a: Cursor, fs: seq<Frame>, b: Cursor, f: Frame, c: Cursor)
    requires Leads(read, a, fs, b) && Step(read(b.frameN), b, true) == Read.Read(f, c)
    ensures Leads(read, a, fs + [f], c)
  {
    assert (fs + [f])[..|fs|] == fs;
  }

  lemma Regroup(fs: seq<Frame>, rest: seq<Frame>)
    requires fs != []
    ensures fs[..|fs| - 1] + ([fs[|fs| - 1]] + rest) == fs + rest
  {
  }

  // When the slots end, reading yields exactly the scan.
  lemma {:induction false} LeadsIsScan(slots: seq<Slot>, read: nat -> Option<Slot>,
                                       a: Cursor, fs: seq<Frame>, b: Cursor)
    requires Lists(slots, read) && Leads(read, a, fs, b)
    ensures Scan(slots, a) == fs + Scan(slots, b)
    decreases |fs|
  {
    if fs != [] {
      var n := |fs| - 1;
      var m :| Leads(read, a, fs[..n], m) && Step(read(m.frameN), m, true) == Read.Read(fs[n], b);
      LeadsIsScan(slots, read, a, fs[..n], m);
      assert SlotAt(slots, m.frameN) == read(m.frameN);
      Regroup(fs, Scan(slots, b));
    }
  }

  lemma YieldsIsScan(slots: seq<Slot>, read: nat -> Option<Slot>, cur: Cursor, fs: seq<Frame>)
    requires Lists(slots, read) && Yields(read, cur, fs)
    ensures fs == Scan(slots, cur)
  {
    var b :| Leads(read, cur, fs, b) && Step(read(b.frameN), b, true).End?;
    LeadsIsScan(slots, read, cur, fs, b);
    assert SlotAt(slots, b.frameN) == read(b.frameN);
    assert fs + [] == fs;
  }

  // --- The same slot over and over ------------------------------------------------------------

  // Every read finds the same slot.
  ghost predicate Stands(read: nat -> Option<Slot>) {
    forall i: nat :: read(i) == read(0)
  }

  // A slot that was accepted is accepted again if and only if its checksum was the running one before.
  lemma AcceptedAgainIff(slot: Option<Slot>, a: Cursor)
    requires a.sum.Valid() && Step(slot, a, true).Read?
    ensures Step(slot, Step(slot, a, true).next, true).Read? <==> slot.value.stored == a.sum
  {
    var b := Step(slot, a, true).next;
    if Step(slot, b, true).Read? {
      FoldInjective(a.sum, b.sum, slot.value.words);
    }
  }

  lemma {:induction false} LeadsNowhere(read: nat -> Option<Slot>, a: Cursor, fs: seq<Frame>, b: Cursor)
    requires Stands(read) && Step(read(0), a, true).Read? && read(0).value.stored == a.sum && Leads(read, a, fs, b)
    ensures Step(read(b.frameN), b, true).Read? && read(0).value.stored == b.sum
    decreases |fs|
  {
    if fs == [] {
      assert read(b.frameN) == read(0);
    } else {
      var n := |fs| - 1;
      var m :| Leads(read, a, fs[..n], m) && Step(read(m.frameN), m, true) == Read.Read(fs[n], b);
      LeadsNowhere(read, a, fs[..n], m);
      assert read(m.frameN) == read(0) && read(b.frameN) == read(0);
    }
  }

  // Reading the same slot over and over ends if and only if the slot is refused, or is accepted with a
  // checksum other than the running one: then it is accepted once.
  lemma StandingEndsIff(read: nat -> Option<Slot>, cur: Cursor)
    requires Stands(read) && cur.sum.Valid()
    ensures (exists fs :: Yields(read, cur, fs)) <==> Step(read(0), cur, true).End? || read(0).value.stored != cur.sum
  {
    var step := Step(read(0), cur, true);
    assert read(cur.frameN) == read(0);
    if step.End? {
      assert Leads(read, cur, [], cur) && Yields(read, cur, []);
    } else if read(0).value.stored != cur.sum {
      AcceptedAgainIff(read(0), cur);
      assert Leads(read, cur, [], cur);
      LeadsOn(read, cur, [], cur, step.frame, step.next);
      assert read(step.next.frameN) == read(0);
      assert Yields(read, cur, [] + [step.frame]);
    } else if fs :| Yields(read, cur, fs) {
      var b :| Leads(read, cur, fs, b) && Step(read(b.frameN), b, true).End?;
      LeadsNowhere(read, cur, fs, b);
    }
  }

  // Accepted a second time, it is accepted for ever.
  lemma TwiceIsForever(read: nat -> Option<Slot>, start: Cursor, fs: seq<Frame>, cur: Cursor)
    requires Stands(read) && start.sum.Valid() && |fs| == 1 && Leads(read, start, fs, cur)
    requires Step(read(cur.frameN), cur, true).Read?
    ensures forall gs :: !Yields(read, start, gs)
  {
    var m :| Leads(read, start, fs[..0], m) && Step(read(m.frameN), m, true) == Read.Read(fs[0], cur);
    assert m == start && read(start.frameN) == read(0) == read(cur.frameN);
    AcceptedAgainIff(read(0), start);
    StandingEndsIff(read, start);
  }

  // One more read, and what it means for the reads so far. `again` says that it is accepted a second time.
  lemma ReadOn(read: nat -> Option<Slot>, start: Cursor, fs: seq<Frame>, prev: Cursor, again: bool)
    requires start.sum.Valid() && Leads(read, start, fs, prev)
    requires again ==> Stands(read) && |fs| == 1 && Step(read(prev.frameN), prev, true).Read?
    ensures var step := Step(read(prev.frameN), prev, true);
            if again then forall gs :: !Yields(read, start, gs)
            else if step.Read? then Leads(read, start, fs + [step.frame], step.next)
            else Yields(read, start, fs)
  {
    var step := Step(read(prev.frameN), prev, true);
    if again {
      TwiceIsForever(read, start, fs, prev);
    } else if step.Read? {
      LeadsOn(read, start, fs, prev, step.frame, step.next);
    }
  }

  // --- Resuming -------------------------------------------------------------------------------

  // The cursor after `k` frames; it stays where it is once a read fails.
  function After(slots: seq<Slot>, cur: Cursor, k: nat): (r: Cursor)
    ensures r.salt == cur.salt
    decreases k
  {
    if k == 0 then cur
    else
      match Step(SlotAt(slots, cur.frameN), cur, true)
      case End(next) => next
      case Read(_, next) => After(slots, next, k - 1)
  }

  lemma {:induction false} ScanSplits(slots: seq<Slot>, cur: Cursor, k: nat)
    requires k <= |Scan(slots, cur)|
    ensures After(slots, cur, k).frameN == cur.frameN + k
    ensures Scan(slots, After(slots, cur, k)) == Scan(slots, cur)[k..]
    decreases k
  {
    if k > 0 {
      var step := Step(SlotAt(slots, cur.frameN), cur, true);
      assert Scan(slots, cur) == [step.frame] + Scan(slots, step.next);
      ScanSplits(slots, step.next, k - 1);
    }
  }

  lemma {:induction false} AfterSteps(slots: seq<Slot>, cur: Cursor, k: nat)
    requires k < |Scan(slots, cur)|
    ensures var prev := After(slots, cur, k);
            var step := Step(SlotAt(slots, prev.frameN), prev, true);
            step.Read? && step.next == After(slots, cur, k + 1)
    decreases k
  {
    if k > 0 {
      var step := Step(SlotAt(slots, cur.frameN), cur, true);
      assert Scan(slots, cur) == [step.frame] + Scan(slots, step.next);
      AfterSteps(slots, step.next, k - 1);
    }
  }

  // A reader resumed at frame `k` > 0 reads the frame before it without verification.
  function Resume(slots: seq<Slot>, salt: Salt, k: nat): Read
    requires 0 < k
  {
    Step(SlotAt(slots, k - 1), Cursor(k - 1, salt, Sum(0, 0)), false)
  }

  // Resuming after `k` frames that a scan from the start accepts gives the very same reader: same
  // position, same running checksum, hence the same remaining frames and stopping point.
  lemma ResumeIsScan(slots: seq<Slot>, start: Cursor, k: nat)
    requires start.frameN == 0 && 0 < k <= |Scan(slots, start)|
    ensures Resume(slots, start.salt, k).Read?
    ensures Resume(slots, start.salt, k).next == After(slots, start, k)
    ensures Scan(slots, start) == Scan(slots, start)[..k] + Scan(slots, Resume(slots, start.salt, k).next)
  {
    ResumeIsAfter(slots, start, k);
    ScanSplits(slots, start, k);
    var all := Scan(slots, start);
    assert all == all[..k] + all[k..];
  }

  lemma ResumeIsAfter(slots: seq<Slot>, start: Cursor, k: nat)
    requires start.frameN == 0 && 0 < k <= |Scan(slots, start)|
    ensures Resume(slots, start.salt, k) == Read.Read(slots[k - 1].frame, After(slots, start, k))
  {
    ScanSplits(slots, start, k - 1);
    AfterSteps(slots, start, k - 1);
  }

  // Resuming elsewhere cannot invent frames: if two cursors that differ in the checksum both accept
  // the next frame, the checksums agreed already.
  lemma AcceptedFrameFixesChecksum(slot: Option<Slot>, a: Cursor, b: Cursor)
    requires b == a.(sum := b.sum) && a.sum.Valid() && b.sum.Valid()
    requires Step(slot, a, true).Read? && Step(slot, b, true).Read?
    ensures a == b
  {
    FoldInjective(a.sum, b.sum, slot.value.words);
  }
}
