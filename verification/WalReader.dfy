/**
 The WAL reader, on bytes: header, checksum-chained frames, page map, and resumption in the
 middle of the file. The file may change between any two reads.
 */
module WalReader {
  import opened Pages
  import opened FrameLog
  import opened WalScan
  import opened ChecksumWeights

  const WAL_HEADER_SIZE := 32
  const WAL_FRAME_HEADER_SIZE := 24

  datatype ByteOrder = LittleEndian | BigEndian

  function U32(bo: ByteOrder, b: seq<byte>, i: nat): (r: nat)
    requires i + 4 <= |b|
    ensures r < TWO32
  {
    var b0, b1, b2, b3 := b[i] as int, b[i + 1] as int, b[i + 2] as int, b[i + 3] as int;
    if bo.BigEndian? then ((b0 * 256 + b1) * 256 + b2) * 256 + b3 else ((b3 * 256 + b2) * 256 + b1) * 256 + b0
  }

  function WordsOf(bo: ByteOrder, b: seq<byte>): Words
    requires |b| % 8 == 0
    decreases |b|
  {
    if b == [] then [] else [(U32(bo, b, 0), U32(bo, b, 4))] + WordsOf(bo, b[8..])
  }

  // The words from byte i on start with the unit at i.
  lemma WordsFrom(bo: ByteOrder, b: seq<byte>, i: nat)
    requires |b| % 8 == 0 && i % 8 == 0 && i < |b|
    ensures i + 8 <= |b| && |b[i..]| % 8 == 0 && |b[i + 8..]| % 8 == 0
    ensures WordsOf(bo, b[i..]) == [(U32(bo, b, i), U32(bo, b, i + 4))] + WordsOf(bo, b[i + 8..])
  {
    assert b[i..][8..] == b[i + 8..];
  }

  // The 32-bit words of the data, one after the other.
  function WordList(bo: ByteOrder, b: seq<byte>): seq<nat>
    requires |b| % 8 == 0
  {
    seq(|b| / 4, j requires 0 <= j < |b| / 4 => U32(bo, b, 4 * j))
  }

  lemma Shifted(bo: ByteOrder, b: seq<byte>, i: nat)
    requires i + 12 <= |b|
    ensures U32(bo, b[8..], i) == U32(bo, b, i + 8)
  {
    var rest := b[8..];
    assert rest[i] == b[i + 8] && rest[i + 1] == b[i + 9] && rest[i + 2] == b[i + 10] && rest[i + 3] == b[i + 11];
  }

  lemma {:induction false} UnitAt(bo: ByteOrder, b: seq<byte>, i: nat)
    requires |b| % 8 == 0 && 8 * i < |b|
    ensures |WordsOf(bo, b)| == |b| / 8 && WordsOf(bo, b)[i] == (U32(bo, b, 8 * i), U32(bo, b, 8 * i + 4))
    decreases |b|
  {
    var rest := b[8..];
    if i > 0 {
      UnitAt(bo, rest, i - 1);
      Shifted(bo, b, 8 * (i - 1));
      Shifted(bo, b, 8 * (i - 1) + 4);
    } else if rest != [] {
      UnitAt(bo, rest, 0);
    }
  }

  lemma FlatIsWordList(bo: ByteOrder, b: seq<byte>)
    requires |b| % 8 == 0
    ensures Flat(WordsOf(bo, b)) == WordList(bo, b)
  {
    var ws := WordsOf(bo, b);
    if b != [] {
      UnitAt(bo, b, 0);
    }
    forall j | 0 <= j < |b| / 4 ensures Flat(ws)[j] == U32(bo, b, 4 * j) {
      UnitAt(bo, b, j / 2);
      FlatAt(ws, j / 2);
    }
  }

  // The checksum: both halves are Fibonacci-weighted sums of the words, modulo 2^32.
  method WalChecksum(bo: ByteOrder, s: Sum, b: seq<byte>) returns (r: Sum)
    requires |b| % 8 == 0
    ensures r == Fold(s, WordsOf(bo, b))
    ensures s.Valid() ==> IsWeighted(s, WordList(bo, b), r)
  {
    r := SumWords(bo, s, b);
    if s.Valid() {
      FoldIsWeighted(s, WordsOf(bo, b));
      FlatIsWordList(bo, b);
    }
  }

  method SumWords(bo: ByteOrder, s: Sum, b: seq<byte>) returns (r: Sum)
    requires |b| % 8 == 0
    ensures r == Fold(s, WordsOf(bo, b))
  {
    r := s;
    var i := 0;
    assert b[0..] == b;
    while i < |b|
      invariant 0 <= i <= |b| && i % 8 == 0 && |b[i..]| % 8 == 0
      invariant Fold(r, WordsOf(bo, b[i..])) == Fold(s, WordsOf(bo, b))
    {
      WordsFrom(bo, b, i);
      r := AddUnit(r, U32(bo, b, i), U32(bo, b, i + 4));
      i := i + 8;
    }
  }

  // --- Frame layout ---------------------------------------------------------------------------

  // Frame size as the source computes it, in 32-bit arithmetic.
  function FrameSize(pageSize: nat): nat {
    if pageSize + WAL_FRAME_HEADER_SIZE < TWO32 then pageSize + WAL_FRAME_HEADER_SIZE
    else (pageSize + WAL_FRAME_HEADER_SIZE) % TWO32
  }

  predicate NoWrap(pageSize: nat) {
    pageSize + WAL_FRAME_HEADER_SIZE < TWO32
  }

  // The page size is one the checksum accepts.
  predicate Aligned(pageSize: nat) {
    pageSize % 8 == 0
  }

  // A frame does not have size 0.
  predicate Advances(pageSize: nat) {
    0 < FrameSize(pageSize)
  }

  // The frame size is 0 for exactly one page size.
  lemma ZeroFrameSizeIff(pageSize: nat)
    requires pageSize < TWO32
    ensures FrameSize(pageSize) == 0 <==> pageSize == TWO32 - WAL_FRAME_HEADER_SIZE
  {
  }

  // Byte offset from which frame n is read.
  function FrameOffset(pageSize: nat, n: nat): nat {
    WAL_HEADER_SIZE + n * FrameSize(pageSize)
  }

  // Byte offset that is reported for frame n, in 64-bit arithmetic.
  function ReportedOffset(pageSize: nat, n: nat): nat {
    WAL_HEADER_SIZE + n * (WAL_FRAME_HEADER_SIZE + pageSize)
  }

  // Frames are read from where they are reported if and only if the frame size does not wrap.
  lemma ReportedIsReadIff(pageSize: nat)
    requires pageSize < TWO32
    ensures (forall n: nat :: ReportedOffset(pageSize, n) == FrameOffset(pageSize, n)) <==> NoWrap(pageSize)
  {
    if !NoWrap(pageSize) {
      assert ReportedOffset(pageSize, 1) == WAL_HEADER_SIZE + WAL_FRAME_HEADER_SIZE + pageSize;
      assert FrameOffset(pageSize, 1) == WAL_HEADER_SIZE + FrameSize(pageSize);
    } else {
      assert FrameSize(pageSize) == WAL_FRAME_HEADER_SIZE + pageSize;
    }
  }

  lemma {:induction false} ProductGap(a: nat, b: nat, f: nat)
    requires a < b
    ensures a * f + f <= b * f
    ensures b == a + 1 ==> a * f + f == b * f
    decreases b - a
  {
    assert b * f == (b - 1) * f + f;
    if a + 1 < b {
      ProductGap(a, b - 1, f);
    }
  }

  lemma OffsetsIncrease(pageSize: nat, i: nat, j: nat)
    requires i < j
    ensures FrameOffset(pageSize, i) + FrameSize(pageSize) <= FrameOffset(pageSize, j)
    ensures j == i + 1 ==> FrameOffset(pageSize, i) + FrameSize(pageSize) == FrameOffset(pageSize, j)
  {
    ProductGap(i, j, FrameSize(pageSize));
  }

  lemma ReportedIncrease(pageSize: nat, i: nat, j: nat)
    requires i < j
    ensures ReportedOffset(pageSize, i) + (WAL_FRAME_HEADER_SIZE + pageSize) <= ReportedOffset(pageSize, j)
    ensures j == i + 1 ==>
              ReportedOffset(pageSize, i) + (WAL_FRAME_HEADER_SIZE + pageSize) == ReportedOffset(pageSize, j)
  {
    ProductGap(i, j, WAL_FRAME_HEADER_SIZE + pageSize);
  }

  lemma {:induction false} OffsetPassesIndex(pageSize: nat, n: nat)
    requires Advances(pageSize)
    ensures n < FrameOffset(pageSize, n)
  {
    if n > 0 {
      OffsetPassesIndex(pageSize, n - 1);
      OffsetsIncrease(pageSize, n - 1, n);
    }
  }

  // `size` is the bound captured when the reader was opened; 0 means unbounded.
  predicate BeyondBound(size: nat, off: nat, n: nat) {
    size > 0 && off + n > size
  }

  function SaltIn(hdr: seq<byte>): Salt
    requires |hdr| == WAL_FRAME_HEADER_SIZE
  {
    Salt(U32(BigEndian, hdr, 8), U32(BigEndian, hdr, 12))
  }

  // The bytes of a frame header and of its page, as a slot. The checksum has no words for a page that
  // is not aligned.
  function Decode(bo: ByteOrder, hdr: seq<byte>, data: seq<byte>): (slot: Slot)
    requires |hdr| == WAL_FRAME_HEADER_SIZE
    ensures slot.stored.Valid()
  {
    var salt, pgno, commit := SaltIn(hdr), U32(BigEndian, hdr, 0), U32(BigEndian, hdr, 4);
    Slot(Frame(salt, pgno, commit, data), Sum(U32(BigEndian, hdr, 16), U32(BigEndian, hdr, 20)),
         WordsOf(bo, hdr[..8]) + if Aligned(|data|) then WordsOf(bo, data) else [])
  }

  function Slice(c: seq<byte>, off: nat, n: nat): (b: seq<byte>)
    ensures |b| <= n
    ensures |b| == n && n > 0 ==> off + n <= |c|
  {
    if |c| <= off then [] else if |c| < off + n then c[off..] else c[off..off + n]
  }

  // What a read at offset `off` finds, header and page being read from `c` and `c'`.
  ghost function SlotRead(size: nat, bo: ByteOrder, pageSize: nat, off: nat, c: seq<byte>, c': seq<byte>)
    : (slot: Option<Slot>)
    ensures slot.Some? ==> slot.value.stored.Valid()
  {
    var hdr, data := Slice(c, off, WAL_FRAME_HEADER_SIZE), Slice(c', off + WAL_FRAME_HEADER_SIZE, pageSize);
    if BeyondBound(size, off, FrameSize(pageSize)) || |hdr| != WAL_FRAME_HEADER_SIZE || |data| != pageSize then None
    else Some(Decode(bo, hdr, data))
  }

  // Reading frame i of an unchanging file.
  ghost function FrameReader(c: seq<byte>, size: nat, bo: ByteOrder, pageSize: nat): nat -> Option<Slot> {
    (i: nat) => SlotRead(size, bo, pageSize, FrameOffset(pageSize, i), c, c)
  }

  // All slots of an unchanging file.
  ghost function Slots(c: seq<byte>, size: nat, bo: ByteOrder, pageSize: nat): seq<Slot> {
    Collect(FrameReader(c, size, bo, pageSize), 0, |c|)
  }

  lemma UnreadableStays(c: seq<byte>, size: nat, bo: ByteOrder, pageSize: nat, off: nat, later: nat)
    requires SlotRead(size, bo, pageSize, off, c, c) == None && off <= later
    ensures SlotRead(size, bo, pageSize, later, c, c) == None
  {
  }

  lemma SlotsAreListed(c: seq<byte>, size: nat, bo: ByteOrder, pageSize: nat)
    requires Advances(pageSize)
    ensures Lists(Slots(c, size, bo, pageSize), FrameReader(c, size, bo, pageSize))
  {
    var read := FrameReader(c, size, bo, pageSize);
    forall i: nat, j: nat | i <= j && read(i) == None ensures read(j) == None {
      if i < j {
        OffsetsIncrease(pageSize, i, j);
      }
      UnreadableStays(c, size, bo, pageSize, FrameOffset(pageSize, i), FrameOffset(pageSize, j));
    }
    OffsetPassesIndex(pageSize, |c|);
    assert read(|c|) == SlotRead(size, bo, pageSize, FrameOffset(pageSize, |c|), c, c) == None;
    CollectLists(read, |c|);
  }

  // Frames of size 0 are all read from the same place.
  lemma ZeroFramesStand(c: seq<byte>, size: nat, bo: ByteOrder, pageSize: nat)
    requires !Advances(pageSize)
    ensures Stands(FrameReader(c, size, bo, pageSize))
  {
    assert forall n: nat :: FrameOffset(pageSize, n) == WAL_HEADER_SIZE;
  }

  // The checksum of a frame runs over the first 8 bytes of its header and over its page.
  method FrameChecksum(bo: ByteOrder, s: Sum, hdr: seq<byte>, data: seq<byte>) returns (sum: Sum)
    requires |hdr| == WAL_FRAME_HEADER_SIZE && Aligned(|data|)
    ensures sum == Fold(s, Decode(bo, hdr, data).words)
  {
    sum := WalChecksum(bo, s, hdr[..8]);
    sum := WalChecksum(bo, sum, data);
    FoldConcat(s, WordsOf(bo, hdr[..8]), WordsOf(bo, data));
  }

  // --- Header ---------------------------------------------------------------------------------

  datatype Error =
    Nil | Eof | BadMagic(magic: nat) | BadVersion(version: nat) | BadOffset | DivideByZero | PrevFrameMismatch

  datatype Header = Header(bo: ByteOrder, pageSize: nat, seqNo: nat, salt: Salt, sum: Sum)

  datatype Parsed = Parsed(hdr: Header) | Failed(error: Error)

  // What the bytes of a header say.
  ghost function ParseHeader(hdr: seq<byte>): (r: Parsed)
    ensures if r.Failed? then r.error != Nil else r.hdr.pageSize < TWO32 && r.hdr.sum.Valid()
  {
    if |hdr| < WAL_HEADER_SIZE then Failed(Eof)
    else
      var magic := U32(BigEndian, hdr, 0);
      if magic != 0x377f0682 && magic != 0x377f0683 then Failed(BadMagic(magic))
      else
        var bo := if magic == 0x377f0682 then LittleEndian else BigEndian;
        var sum := Sum(U32(BigEndian, hdr, 24), U32(BigEndian, hdr, 28));
        if Fold(Sum(0, 0), WordsOf(bo, hdr[..24])) != sum then Failed(Eof)
        else if U32(BigEndian, hdr, 4) != 3007000 then Failed(BadVersion(U32(BigEndian, hdr, 4)))
        else
          Parsed(Header(bo, U32(BigEndian, hdr, 8), U32(BigEndian, hdr, 12),
                        Salt(U32(BigEndian, hdr, 16), U32(BigEndian, hdr, 20)), sum))
  }

  method DecodeHeader(hdr: seq<byte>) returns (r: Parsed)
    ensures r == ParseHeader(hdr)
  {
    if |hdr| < WAL_HEADER_SIZE {
      return Failed(Eof);
    }
    var magic, bo := U32(BigEndian, hdr, 0), BigEndian;
    if magic == 0x377f0682 {
      bo := LittleEndian;
    } else if magic != 0x377f0683 {
      return Failed(BadMagic(magic));
    }
    var stored := Sum(U32(BigEndian, hdr, 24), U32(BigEndian, hdr, 28));
    var sum := WalChecksum(bo, Sum(0, 0), hdr[..24]);
    if sum != stored {
      return Failed(Eof);
    }
    var version := U32(BigEndian, hdr, 4);
    if version != 3007000 {
      return Failed(BadVersion(version));
    }
    var salt := Salt(U32(BigEndian, hdr, 16), U32(BigEndian, hdr, 20));
    return Parsed(Header(bo, U32(BigEndian, hdr, 8), U32(BigEndian, hdr, 12), salt, stored));
  }

  // --- The reader -----------------------------------------------------------------------------

  // A file whose content is `at(clock)` at each point in time; every access advances the clock.
  // `highest` is the end of the furthest read so far.
  class Source {
    const at: nat -> seq<byte>
    const sized: bool
    var clock: nat
    ghost var highest: nat

    constructor (at: nat -> seq<byte>, sized: bool)
      ensures this.at == at && this.sized == sized && clock == 0 && highest == 0
    {
      this.at, this.sized, clock, highest := at, sized, 0, 0;
    }

    method Size() returns (n: nat)
      modifies this`clock
      ensures clock == old(clock) + 1 && n == (if sized then |at(old(clock))| else 0)
    {
      n := if sized then |at(clock)| else 0;
      clock := clock + 1;
    }

    method ReadAt(off: nat, n: nat) returns (b: seq<byte>)
      modifies this`clock, this`highest
      ensures clock == old(clock) + 1 && highest == Max(old(highest), off + n)
      ensures b == Slice(at(old(clock)), off, n)
    {
      b := Slice(at(clock), off, n);
      clock, highest := clock + 1, Max(highest, off + n);
    }
  }

  // The file does not change from `since` on.
  ghost predicate Still(at: nat -> seq<byte>, since: nat) {
    forall k: nat :: since <= k ==> at(k) == at(since)
  }

  class Reader {
    const src: Source
    var size: nat
    var bo: ByteOrder
    var pageSize: nat
    var seqNo: nat
    var cur: Cursor

    constructor (src: Source)
      ensures this.src == src
    {
      this.src := src;
      size, bo, pageSize, seqNo, cur := 0, BigEndian, 0, 0, Cursor(0, Salt(0, 0), Sum(0, 0));
    }

    method ReadHeader() returns (e: Error)
      modifies this, src
      ensures src.clock == old(src.clock) + 2
      ensures src.highest == Max(old(src.highest), WAL_HEADER_SIZE)
      ensures var parsed := ParseHeader(Slice(src.at(old(src.clock) + 1), 0, WAL_HEADER_SIZE));
              && size == (if src.sized then |src.at(old(src.clock))| else 0)
              && (if parsed.Failed? then e == parsed.error
                  else
                    var Header(bo', pageSize', seqNo', salt, sum) := parsed.hdr;
                    e == Nil && bo == bo' && pageSize == pageSize' && seqNo == seqNo' && cur == Cursor(0, salt, sum))
    {
      size := src.Size();
      var hdr := src.ReadAt(0, WAL_HEADER_SIZE);
      var parsed := DecodeHeader(hdr);
      if parsed.Failed? {
        return parsed.error;
      }
      bo, pageSize, seqNo := parsed.hdr.bo, parsed.hdr.pageSize, parsed.hdr.seqNo;
      cur := Cursor(0, parsed.hdr.salt, parsed.hdr.sum);
      e := Nil;
    }

    // Read the header and the page of frame slot n, unless that would pass the bound.
    method ReadSlot(n: nat) returns (slot: Option<Slot>, hdr: seq<byte>, data: seq<byte>)
      modifies src
      ensures old(src.clock) <= src.clock
      ensures size > 0 && NoWrap(pageSize) ==> src.highest <= Max(old(src.highest), size)
      ensures slot ==
                SlotRead(size, bo, pageSize, FrameOffset(pageSize, n),
                         src.at(old(src.clock)), src.at(old(src.clock) + 1))
      ensures slot.Some? ==> |hdr| == WAL_FRAME_HEADER_SIZE && |data| == pageSize && slot.value == Decode(bo, hdr, data)
    {
      slot, hdr, data := None, [], [];
      var off := FrameOffset(pageSize, n);
      if BeyondBound(size, off, FrameSize(pageSize)) {
        return;
      }
      hdr := src.ReadAt(off, WAL_FRAME_HEADER_SIZE);
      if |hdr| != WAL_FRAME_HEADER_SIZE {
        return;
      }
      data := src.ReadAt(off + WAL_FRAME_HEADER_SIZE, pageSize);
      if |data| != pageSize {
        return;
      }
      slot := Some(Decode(bo, hdr, data));
    }

    method ReadFrame(verify: bool) returns (f: Frame, e: Error, ghost slot: Option<Slot>)
      requires verify ==> Aligned(pageSize)
      modifies this`cur, src
      ensures old(src.clock) <= src.clock
      ensures size > 0 && NoWrap(pageSize) ==> src.highest <= Max(old(src.highest), size)
      ensures slot == SlotRead(size, bo, pageSize, FrameOffset(pageSize, old(cur.frameN)),
                               src.at(old(src.clock)), src.at(old(src.clock) + 1))
      ensures var step := Step(slot, old(cur), verify);
              cur == step.next && (if step.Read? then e == Nil && f == step.frame else e == Eof)
    {
      f, e := Frame(cur.salt, 0, 0, []), Eof;
      var read, hdr, data := ReadSlot(cur.frameN);
      slot := read;
      if read == None || read.value.frame.salt != cur.salt {
        return;
      }
      var Slot(frame, stored, _) := read.value;
      if verify {
        var sum := FrameChecksum(bo, cur.sum, hdr, data);
        cur := cur.(sum := sum);
        if sum != stored {
          return;
        }
      } else {
        cur := cur.(sum := stored);
      }
      cur := cur.(frameN := cur.frameN + 1);
      return frame, Nil, slot;
    }

    // Position the reader at frame n by reading the frame before it, unverified.
    method LoadPrevious(n: nat, salt: Salt) returns (e: Error)
      requires Advances(pageSize) && 0 < n
      modifies this`cur, src
      ensures old(src.clock) <= src.clock && (e == Nil || e == PrevFrameMismatch)
      ensures e == Nil ==> cur.frameN == n && cur.salt == salt && cur.sum.Valid()
      ensures Still(src.at, old(src.clock)) ==>
                var prev := Resume(Slots(src.at(old(src.clock)), size, bo, pageSize), salt, n);
                if prev.Read? then e == Nil && cur == prev.next else e == PrevFrameMismatch
    {
      ghost var k, c := src.clock, src.at(src.clock);
      cur := Cursor(n - 1, salt, cur.sum);
      var _, read, slot := ReadFrame(false);
      if Still(src.at, k) {
        assert src.at(k + 1) == c && slot == FrameReader(c, size, bo, pageSize)(n - 1);
        SlotsAreListed(c, size, bo, pageSize);
      }
      e := if read == Nil then Nil else PrevFrameMismatch;
    }

    // The reader is at the frame that starts at `offset`, with the given salts.
    ghost predicate AtFrame(offset: nat, salt: Salt)
      requires WAL_HEADER_SIZE < offset
      reads this
    {
      Advances(pageSize) && FrameAt(pageSize, offset) == Some(cur.frameN) && cur.salt == salt && cur.sum.Valid()
    }

    // Move to the frame that starts at `offset`. Finding it divides by the frame size.
    method Seek(offset: nat, salt: Salt) returns (e: Error)
      requires WAL_HEADER_SIZE < offset
      modifies this`cur, src
      ensures old(src.clock) <= src.clock && (e == Nil ==> AtFrame(offset, salt))
      ensures Still(src.at, old(src.clock)) ==> Seeks(src.at(old(src.clock)), size, bo, pageSize, offset, salt, cur, e)
    {
      if FrameSize(pageSize) == 0 {
        return DivideByZero;
      }
      var n := FrameAt(pageSize, offset);
      if n == None {
        return BadOffset;
      }
      e := LoadPrevious(n.value, salt);
    }

    // A verified read, in terms of the reads of a file that has stopped changing at `since`.
    method NextFrame(ghost since: nat, ghost read: nat -> Option<Slot>) returns (f: Frame, e: Error)
      requires Aligned(pageSize) && cur.sum.Valid() && (size > 0 || Still(src.at, since))
      requires since <= src.clock && read == FrameReader(src.at(since), size, bo, pageSize)
      modifies this`cur, src
      ensures since <= src.clock && cur.sum.Valid() && (e == Nil || e == Eof)
      ensures size > 0 && NoWrap(pageSize) ==> src.highest <= Max(old(src.highest), size)
      ensures e == Nil ==> cur.frameN == old(cur.frameN) + 1
      ensures e == Nil && Advances(pageSize) ==> old(cur.frameN) < if size > 0 then size else |src.at(since)|
      ensures Still(src.at, since) ==>
                var step := Step(read(old(cur.frameN)), old(cur), true);
                if e == Nil then step == Read.Read(f, cur) else step.End?
    {
      ghost var k, n, c := src.clock, cur.frameN, src.at(since);
      ghost var slot;
      f, e, slot := ReadFrame(true);
      if Advances(pageSize) {
        OffsetPassesIndex(pageSize, n);
      }
      if Still(src.at, since) {
        assert src.at(k) == c && src.at(k + 1) == c;
        assert slot == read(n);
      }
    }

    // File offset of the last frame read, the i-th one from frame `start` on.
    method Offset(ghost start: nat, ghost i: nat) returns (off: nat)
      requires cur.frameN == start + i + 1
      ensures off == OffsetFrom(pageSize, start)(i)
    {
      assert cur.frameN - 1 == start + i;
      off := ReportedOffset(pageSize, cur.frameN - 1);
    }

    // One turn of the loop over the frames, `fs` being those read so far. With frames of size 0 the same
    // slot is read over and over: once it is accepted a second time the loop is `stuck`.
    method TrackNext(ghost since: nat, ghost read: nat -> Option<Slot>, ghost start: Cursor, ghost fs: seq<Frame>,
                     pages: Tracked, again: bool)
      returns (next: Tracked, e: Error, stuck: bool, ghost f: Frame)
      requires Aligned(pageSize) && start.sum.Valid() && cur.sum.Valid() && (size > 0 || Still(src.at, since))
      requires since <= src.clock && read == FrameReader(src.at(since), size, bo, pageSize)
      requires cur.frameN == start.frameN + |fs| && pages == TrackAll(fs, OffsetFrom(pageSize, start.frameN))
      requires again == (fs != []) && (Advances(pageSize) || |fs| <= 1)
      requires Still(src.at, since) ==> Leads(read, start, fs, cur)
      modifies this`cur, src
      ensures since <= src.clock && cur.sum.Valid() && (e == Nil || e == Eof)
      ensures size > 0 && NoWrap(pageSize) ==> src.highest <= Max(old(src.highest), size)
      ensures e == Nil ==> cur.frameN == start.frameN + |fs| + 1
      ensures e == Nil && Advances(pageSize) ==> old(cur.frameN) < if size > 0 then size else |src.at(since)|
      ensures stuck == (e == Nil && again && !Advances(pageSize))
      ensures next == if e == Nil && !stuck then TrackAll(fs + [f], OffsetFrom(pageSize, start.frameN)) else pages
      ensures Still(src.at, since) ==>
                if stuck then forall gs :: !Yields(read, start, gs)
                else if e == Nil then Leads(read, start, fs + [f], cur)
                else Yields(read, start, fs)
    {
      ghost var prev := cur;
      var frame;
      next := pages;
      frame, e := NextFrame(since, read);
      f := frame;
      stuck := e == Nil && again && !Advances(pageSize);
      if Still(src.at, since) {
        if stuck {
          ZeroFramesStand(src.at(since), size, bo, pageSize);
        }
        ReadOn(read, start, fs, prev, stuck);
      }
      if e == Nil && !stuck {
        var offset := Offset(start.frameN, |fs|);
        TrackAllAppend(fs, OffsetFrom(pageSize, start.frameN), f);
        next := Track(pages, frame, offset);
      }
    }

    // Read frames until one fails; `fs` are the frames read.
    method ScanPages(ghost read: nat -> Option<Slot>) returns (pages: Tracked, stuck: bool, ghost fs: seq<Frame>)
      requires Aligned(pageSize) && cur.sum.Valid() && (size > 0 || Still(src.at, src.clock))
      requires read == FrameReader(src.at(src.clock), size, bo, pageSize)
      modifies this`cur, src
      ensures size > 0 && NoWrap(pageSize) ==> src.highest <= Max(old(src.highest), size)
      ensures stuck ==> !Advances(pageSize)
      ensures Still(src.at, old(src.clock)) ==>
                if stuck then forall gs :: !Yields(read, old(cur), gs) else Yields(read, old(cur), fs)
      ensures pages == TrackAll(fs, OffsetFrom(pageSize, old(cur.frameN)))
    {
      pages, stuck, fs := UNTRACKED, false, [];
      var e, again := Nil, false;
      ghost var start, since := cur, src.clock;
      ghost var bound, advances := if size > 0 then size else |src.at(since)|, Advances(pageSize);
      while e == Nil && !stuck
        invariant since <= src.clock && (e == Nil || e == Eof) && cur.sum.Valid()
        invariant e == Nil && !stuck ==> cur.frameN == start.frameN + |fs|
        invariant size > 0 && NoWrap(pageSize) ==> src.highest <= Max(old(src.highest), size)
        invariant again == (fs != []) && (advances || |fs| <= 1) && (stuck ==> !advances)
        invariant Still(src.at, since) ==>
                    if stuck then forall gs :: !Yields(read, start, gs)
                    else if e == Nil then Leads(read, start, fs, cur)
                    else Yields(read, start, fs)
        invariant pages == TrackAll(fs, OffsetFrom(pageSize, start.frameN))
        decreases e == Nil && !stuck, if advances then bound - cur.frameN else 2 - |fs|
      {
        ghost var f;
        pages, e, stuck, f := TrackNext(since, read, start, fs, pages, again);
        if e == Nil && !stuck {
          fs, again := fs + [f], true;
        }
      }
    }

    // The page map of all committed frames up to the end of the file, the offset just past the
    // last one used, and the final database size. `fs` are the frames read and `idx` is the map
    // in terms of positions in `fs`.
    method PageMap()
      returns (m: map<nat, nat>, maxOffset: nat, commit: nat, stuck: bool,
               ghost fs: seq<Frame>, ghost idx: map<nat, nat>)
      requires Aligned(pageSize) && cur.sum.Valid() && (size > 0 || Still(src.at, src.clock))
      modifies this`cur, src
      ensures size > 0 && NoWrap(pageSize) ==> src.highest <= Max(old(src.highest), size)
      ensures stuck ==> !Advances(pageSize)
      ensures Still(src.at, old(src.clock)) ==>
                var read := FrameReader(src.at(old(src.clock)), size, bo, pageSize);
                if stuck then forall gs :: !Yields(read, old(cur), gs) else Yields(read, old(cur), fs)
      ensures IsPageMap(fs, idx) && m == MapAt(idx, OffsetFrom(pageSize, old(cur.frameN)))
      ensures m == map[] ==> maxOffset == 0 && commit == 0
      ensures m != map[] ==> commit == CommitSize(fs) && Committed(fs) > 0
      ensures Committed(fs) > 0 ==>
                (maxOffset == OffsetFrom(pageSize, old(cur.frameN))(Committed(fs)) <==> CommitsOwnPage(fs))
    {
      var pages;
      ghost var start := cur.frameN;
      pages, stuck, fs := ScanPages(FrameReader(src.at(src.clock), size, bo, pageSize));
      m, maxOffset, commit, idx := FinishMap(pages, pageSize, start, fs);
    }

    // The salts of all frame slots, valid or not, up to and including the first `until`. With frames of
    // size 0 the scan stays at the first slot for ever unless that ends it: it is `stuck`.
    method FrameSaltsUntil(until: Salt) returns (m: set<Salt>, stuck: bool, ghost n: nat)
      requires size > 0 || Still(src.at, src.clock)
      modifies src
      ensures size > 0 && NoWrap(pageSize) ==> src.highest <= Max(old(src.highest), size)
      ensures stuck ==> FrameSize(pageSize) == 0
      ensures Still(src.at, old(src.clock)) ==>
                var c := src.at(old(src.clock));
                if stuck then IsSlot(c, size, pageSize, 0) && SaltAt(c, pageSize, 0) != until
                else StopsAt(c, size, pageSize, until, n) && m == SaltsOf(c, pageSize, n)
    {
      m, n, stuck := {}, 0, false;
      var offset := WAL_HEADER_SIZE;
      ghost var since := src.clock;
      ghost var c := src.at(since);
      ghost var bound := if size > 0 then size else |c|;
      while true
        invariant since <= src.clock && offset == FrameOffset(pageSize, n) && (FrameSize(pageSize) == 0 ==> n == 0)
        invariant size > 0 && NoWrap(pageSize) ==> src.highest <= Max(old(src.highest), size)
        invariant Still(src.at, since) ==> Passed(c, size, pageSize, until, n) && m == SaltsOf(c, pageSize, n)
        decreases bound - offset
      {
        assert Still(src.at, since) ==> src.at(src.clock) == c;
        var salt := ReadSalt(offset, n);
        if Still(src.at, since) {
          NextSalt(c, size, pageSize, until, n);
        }
        if salt == None {
          return;
        }
        if salt.value != until && FrameSize(pageSize) == 0 {
          stuck := true;
          return;
        }
        m := m + {salt.value};
        n := n + 1;
        if salt.value == until {
          return;
        }
        OffsetsIncrease(pageSize, n - 1, n);
        offset := offset + FrameSize(pageSize);
      }
    }

    // The salts in the header of frame slot n, if there is such a slot.
    method ReadSalt(offset: nat, ghost n: nat) returns (salt: Option<Salt>)
      requires offset == FrameOffset(pageSize, n)
      modifies src
      ensures old(src.clock) <= src.clock
      ensures size > 0 && NoWrap(pageSize) ==> src.highest <= Max(old(src.highest), size)
      ensures salt.Some? ==> offset + FrameSize(pageSize) <= size || size == 0
      ensures var c := src.at(old(src.clock));
              salt == if IsSlot(c, size, pageSize, n) then Some(SaltAt(c, pageSize, n)) else None
    {
      if BeyondBound(size, offset, FrameSize(pageSize)) {
        return None;
      }
      var hdr := src.ReadAt(offset, WAL_FRAME_HEADER_SIZE);
      return if |hdr| == WAL_FRAME_HEADER_SIZE then Some(SaltIn(hdr)) else None;
    }
  }

  // Reported offset of the i-th frame read from frame `start` on.
  ghost function OffsetFrom(pageSize: nat, start: nat): nat -> nat {
    i => ReportedOffset(pageSize, start + i)
  }

  // A reader at the start of the file.
  method Open(src: Source) returns (r: Reader, e: Error)
    modifies src
    ensures fresh(r) && r.src == src && src.clock == old(src.clock) + 2
    ensures var parsed := ParseHeader(Slice(src.at(old(src.clock) + 1), 0, WAL_HEADER_SIZE));
            if parsed.Failed? then e == parsed.error
            else
              e == Nil && r.cur == Cursor(0, parsed.hdr.salt, parsed.hdr.sum) &&
              r.bo == parsed.hdr.bo && r.pageSize == parsed.hdr.pageSize
    ensures r.size == if src.sized then |src.at(old(src.clock))| else 0
  {
    r := new Reader(src);
    e := r.ReadHeader();
  }

  // The index of the frame that starts at `offset`, if one does.
  function FrameAt(pageSize: nat, offset: nat): (r: Option<nat>)
    requires Advances(pageSize) && WAL_HEADER_SIZE < offset
    ensures r.Some? ==> 0 < r.value && FrameOffset(pageSize, r.value) == offset
  {
    if (offset - WAL_HEADER_SIZE) % FrameSize(pageSize) != 0 then None
    else
      var n := (offset - WAL_HEADER_SIZE) / FrameSize(pageSize);
      AlignedOffset(pageSize, offset, n);
      Some(n)
  }

  // What moving a reader of an unchanging file to `offset` gives: the cursor, or the error.
  ghost predicate Seeks(c: seq<byte>, size: nat, bo: ByteOrder, pageSize: nat,
                        offset: nat, salt: Salt, cur: Cursor, e: Error)
    requires WAL_HEADER_SIZE < offset
  {
    if !Advances(pageSize) then e == DivideByZero
    else
      match FrameAt(pageSize, offset)
      case None => e == BadOffset
      case Some(k) =>
        var prev := Resume(Slots(c, size, bo, pageSize), salt, k);
        if prev.Read? then e == Nil && cur == prev.next else e == PrevFrameMismatch
  }

  // What opening an unchanging file at `offset` gives.
  ghost predicate OpensAt(c: seq<byte>, size: nat, offset: nat, salt: Salt, cur: Cursor, e: Error) {
    var parsed := ParseHeader(Slice(c, 0, WAL_HEADER_SIZE));
    if offset <= WAL_HEADER_SIZE then e == BadOffset
    else if parsed.Failed? then e == parsed.error
    else Seeks(c, size, parsed.hdr.bo, parsed.hdr.pageSize, offset, salt, cur, e)
  }

  // A reader at `offset`, with the given salts and the checksum of the frame before it.
  method OpenAt(src: Source, offset: nat, salt: Salt) returns (r: Reader, e: Error)
    modifies src
    ensures fresh(r) && r.src == src && old(src.clock) <= src.clock
    ensures Still(src.at, old(src.clock)) ==>
              OpensAt(src.at(old(src.clock)), if src.sized then |src.at(old(src.clock))| else 0, offset, salt, r.cur, e)
    ensures e == Nil ==>
              var parsed := ParseHeader(Slice(src.at(old(src.clock) + 1), 0, WAL_HEADER_SIZE));
              && parsed.Parsed? && r.pageSize == parsed.hdr.pageSize && r.bo == parsed.hdr.bo
              && r.size == (if src.sized then |src.at(old(src.clock))| else 0)
              && WAL_HEADER_SIZE < offset && r.AtFrame(offset, salt)
  {
    ghost var k := src.clock;
    if offset <= WAL_HEADER_SIZE {
      r := new Reader(src);
      return r, BadOffset;
    }
    r, e := Open(src);
    if e != Nil {
      return;
    }
    if Still(src.at, k) {
      assert src.at(k + 1) == src.at(k) && src.at(k + 2) == src.at(k);
    }
    e := r.Seek(offset, salt);
  }

  // A reader resumed after k frames that a scan from the header accepts reads exactly the rest.
  lemma ResumedIsSuffix(c: seq<byte>, size: nat, offset: nat, hdr: Header, cur: Cursor, e: Error)
    requires ParseHeader(Slice(c, 0, WAL_HEADER_SIZE)) == Parsed(hdr) && Advances(hdr.pageSize)
    requires WAL_HEADER_SIZE < offset && OpensAt(c, size, offset, hdr.salt, cur, e)
    ensures var slots, start := Slots(c, size, hdr.bo, hdr.pageSize), Cursor(0, hdr.salt, hdr.sum);
            forall k: nat :: FrameAt(hdr.pageSize, offset) == Some(k) && k <= |Scan(slots, start)| ==>
              e == Nil && cur.frameN == k && Scan(slots, cur) == Scan(slots, start)[k..]
  {
    var slots, start := Slots(c, size, hdr.bo, hdr.pageSize), Cursor(0, hdr.salt, hdr.sum);
    var at := FrameAt(hdr.pageSize, offset);
    if at.Some? && at.value <= |Scan(slots, start)| {
      ResumeIsScan(slots, start, at.value);
      ScanSplits(slots, start, at.value);
    }
  }

  // What a page map of an unchanging file reads is the scan of its slots.
  lemma MappedIsScan(c: seq<byte>, size: nat, bo: ByteOrder, pageSize: nat, cur: Cursor, fs: seq<Frame>)
    requires Advances(pageSize) && Yields(FrameReader(c, size, bo, pageSize), cur, fs)
    ensures fs == Scan(Slots(c, size, bo, pageSize), cur)
  {
    SlotsAreListed(c, size, bo, pageSize);
    YieldsIsScan(Slots(c, size, bo, pageSize), FrameReader(c, size, bo, pageSize), cur, fs);
  }

  // Open an unchanging file at `offset` and take the page map: when the frames before the offset are
  // valid, it is the map of the rest of the scan from the header.
  method ResumeMap(src: Source, offset: nat, salt: Salt, ghost hdr: Header)
    returns (m: map<nat, nat>, maxOffset: nat, commit: nat, e: Error)
    requires Still(src.at, src.clock) && WAL_HEADER_SIZE < offset && hdr.salt == salt
    requires ParseHeader(Slice(src.at(src.clock), 0, WAL_HEADER_SIZE)) == Parsed(hdr) && Aligned(hdr.pageSize)
    modifies src
    ensures !Advances(hdr.pageSize) ==> e == DivideByZero
    ensures Advances(hdr.pageSize) ==>
              var c, size := src.at(old(src.clock)), if src.sized then |src.at(old(src.clock))| else 0;
              var all := Scan(Slots(c, size, hdr.bo, hdr.pageSize), Cursor(0, hdr.salt, hdr.sum));
              forall k: nat :: FrameAt(hdr.pageSize, offset) == Some(k) && k <= |all| ==>
                e == Nil && exists idx :: IsPageMap(all[k..], idx) && m == MapAt(idx, OffsetFrom(hdr.pageSize, k))
  {
    ghost var c := src.at(src.clock);
    ghost var size := if src.sized then |c| else 0;
    assert src.at(src.clock + 1) == c;
    var r;
    m, maxOffset, commit := map[], 0, 0;
    r, e := OpenAt(src, offset, salt);
    if Advances(hdr.pageSize) {
      ResumedIsSuffix(c, size, offset, hdr, r.cur, e);
    }
    if e != Nil {
      return;
    }
    assert src.at(src.clock) == c;
    ghost var fs, idx, cur := [], map[], r.cur;
    var stuck;
    m, maxOffset, commit, stuck, fs, idx := r.PageMap();
    MappedIsScan(c, size, hdr.bo, hdr.pageSize, cur, fs);
  }

  lemma AlignedOffset(pageSize: nat, offset: nat, n: nat)
    requires Advances(pageSize) && WAL_HEADER_SIZE < offset
    requires (offset - WAL_HEADER_SIZE) % FrameSize(pageSize) == 0
    requires n == (offset - WAL_HEADER_SIZE) / FrameSize(pageSize)
    ensures 0 < n && offset == FrameOffset(pageSize, n)
  {
    assert offset - WAL_HEADER_SIZE == n * FrameSize(pageSize);
  }

  method HighestOffset(m: map<nat, nat>) returns (end: nat)
    requires m != map[]
    ensures exists p :: p in m && m[p] == end
    ensures forall p :: p in m ==> m[p] <= end
  {
    end := 0;
    var keys := m.Keys;
    while keys != {}
      invariant keys <= m.Keys
      invariant forall p :: p in m && p !in keys ==> m[p] <= end
      invariant if keys == m.Keys then end == 0 else exists p :: p in m && m[p] == end
      decreases keys
    {
      var p :| p in keys;
      if end == 0 || m[p] > end {
        end := m[p];
      }
      keys := keys - {p};
    }
  }

  // Later frames are at least `sz` bytes further on.
  ghost predicate Spaced(at: nat -> nat, sz: nat) {
    forall i: nat, j: nat :: i < j ==> at(i) + sz <= at(j)
  }

  lemma OffsetsAreSpaced(pageSize: nat, start: nat, n: nat)
    ensures Spaced(OffsetFrom(pageSize, start), WAL_FRAME_HEADER_SIZE + pageSize)
    ensures OffsetFrom(pageSize, start)(n) > 0
    ensures n > 0 ==>
              OffsetFrom(pageSize, start)(n - 1) + (WAL_FRAME_HEADER_SIZE + pageSize) == OffsetFrom(pageSize, start)(n)
  {
    var at, sz := OffsetFrom(pageSize, start), WAL_FRAME_HEADER_SIZE + pageSize;
    forall i: nat, j: nat | i < j ensures at(i) + sz <= at(j) {
      ReportedIncrease(pageSize, start + i, start + j);
    }
    assert at(n) == ReportedOffset(pageSize, start + n);
    if n > 0 {
      ReportedIncrease(pageSize, start + (n - 1), start + n);
    }
  }

  // The highest mapped offset is that of some frame before the last commit.
  lemma HighestIsMapped(at: nat -> nat, fs: seq<Frame>, idx: map<nat, nat>, m: map<nat, nat>, end: nat) returns (i: nat)
    requires IsPageMap(fs, idx) && m == MapAt(idx, at) && exists p :: p in m && m[p] == end
    ensures i < Committed(fs) && end == at(i) && (!CommitsOwnPage(fs) ==> i < Committed(fs) - 1)
  {
    PageMapEndsAtCommit(fs, idx);
    var p :| p in m && m[p] == end;
    i := idx[p];
  }

  // It is that of the last commit frame exactly when that frame's own page is inside its commit size.
  lemma HighestFrame(at: nat -> nat, sz: nat, fs: seq<Frame>, idx: map<nat, nat>, m: map<nat, nat>, end: nat)
    requires IsPageMap(fs, idx) && m == MapAt(idx, at) && m != map[]
    requires (exists p :: p in m && m[p] == end) && forall p :: p in m ==> m[p] <= end
    requires 0 < sz && Spaced(at, sz) && (Committed(fs) > 0 ==> at(Committed(fs) - 1) + sz == at(Committed(fs)))
    ensures Committed(fs) > 0
    ensures end + sz == at(Committed(fs)) <==> CommitsOwnPage(fs)
  {
    var n := Committed(fs);
    var i := HighestIsMapped(at, fs, idx, m, end);
    if CommitsOwnPage(fs) {
      PageMapEndsAtCommit(fs, idx);
      var q := fs[n - 1].pgno;
      assert q in m && m[q] == at(n - 1);
    }
  }

  // Drop the pages past the final size and find the end of what is left.
  method FinishMap(pages: Tracked, pageSize: nat, ghost start: nat, ghost fs: seq<Frame>)
    returns (m: map<nat, nat>, maxOffset: nat, commit: nat, ghost idx: map<nat, nat>)
    requires pages == TrackAll(fs, OffsetFrom(pageSize, start))
    ensures IsPageMap(fs, idx) && m == MapAt(idx, OffsetFrom(pageSize, start))
    ensures m == map[] ==> maxOffset == 0 && commit == 0
    ensures m != map[] ==> commit == CommitSize(fs) && Committed(fs) > 0
    ensures Committed(fs) > 0 ==> (maxOffset == OffsetFrom(pageSize, start)(Committed(fs)) <==> CommitsOwnPage(fs))
  {
    ghost var at := OffsetFrom(pageSize, start);
    commit := pages.commit;
    m := Restrict(pages.committed, commit);
    idx := TrackedPageMap(fs, at);
    OffsetsAreSpaced(pageSize, start, Committed(fs));
    if m == map[] {
      EmptyMap(at, fs, idx, m);
      return m, 0, 0, idx;
    }
    maxOffset := EndOfMap(m, WAL_FRAME_HEADER_SIZE + pageSize, at, fs, idx);
  }

  method EndOfMap(m: map<nat, nat>, sz: nat, ghost at: nat -> nat, ghost fs: seq<Frame>, ghost idx: map<nat, nat>)
    returns (maxOffset: nat)
    requires IsPageMap(fs, idx) && m == MapAt(idx, at) && m != map[]
    requires 0 < sz && Spaced(at, sz) && (Committed(fs) > 0 ==> at(Committed(fs) - 1) + sz == at(Committed(fs)))
    ensures Committed(fs) > 0
    ensures maxOffset == at(Committed(fs)) <==> CommitsOwnPage(fs)
  {
    var end := HighestOffset(m);
    HighestFrame(at, sz, fs, idx, m, end);
    maxOffset := end + sz;
  }

  lemma EmptyMap(at: nat -> nat, fs: seq<Frame>, idx: map<nat, nat>, m: map<nat, nat>)
    requires IsPageMap(fs, idx) && m == MapAt(idx, at) && m == map[]
    ensures Committed(fs) > 0 ==> !CommitsOwnPage(fs)
  {
    PageMapEndsAtCommit(fs, idx);
    assert forall p :: p in idx ==> p in m;
  }

  // --- Frame slots ----------------------------------------------------------------------------

  // Frame slot i is inside the bound and its header is in the file.
  ghost predicate IsSlot(c: seq<byte>, size: nat, pageSize: nat, i: nat) {
    && !BeyondBound(size, FrameOffset(pageSize, i), FrameSize(pageSize))
    && FrameOffset(pageSize, i) + WAL_FRAME_HEADER_SIZE <= |c|
  }

  ghost function SaltAt(c: seq<byte>, pageSize: nat, i: nat): Salt {
    var hdr := Slice(c, FrameOffset(pageSize, i), WAL_FRAME_HEADER_SIZE);
    if |hdr| == WAL_FRAME_HEADER_SIZE then SaltIn(hdr) else Salt(0, 0)
  }

  ghost function SaltsOf(c: seq<byte>, pageSize: nat, n: nat): set<Salt> {
    if n == 0 then {} else SaltsOf(c, pageSize, n - 1) + {SaltAt(c, pageSize, n - 1)}
  }

  ghost predicate Passed(c: seq<byte>, size: nat, pageSize: nat, until: Salt, n: nat) {
    forall i: nat :: i < n ==> IsSlot(c, size, pageSize, i) && SaltAt(c, pageSize, i) != until
  }

  lemma NextSalt(c: seq<byte>, size: nat, pageSize: nat, until: Salt, n: nat)
    requires Passed(c, size, pageSize, until, n)
    ensures SaltsOf(c, pageSize, n + 1) == SaltsOf(c, pageSize, n) + {SaltAt(c, pageSize, n)}
    ensures if !IsSlot(c, size, pageSize, n) then StopsAt(c, size, pageSize, until, n)
            else if SaltAt(c, pageSize, n) == until then StopsAt(c, size, pageSize, until, n + 1)
            else Passed(c, size, pageSize, until, n + 1)
  {
  }

  // The scan covers slots 0..n: it ends at the first `until`, or where the slots end.
  ghost predicate StopsAt(c: seq<byte>, size: nat, pageSize: nat, until: Salt, n: nat) {
    && (forall i: nat :: i < n ==> IsSlot(c, size, pageSize, i))
    && (forall i: nat :: i + 1 < n ==> SaltAt(c, pageSize, i) != until)
    && ((n > 0 && SaltAt(c, pageSize, n - 1) == until) || !IsSlot(c, size, pageSize, n))
  }

  // With frames of size 0 taking the page map of an unchanging file comes to an end if and only if the
  // first slot is refused or its checksum is not the running one.
  lemma ZeroFramesEndIff(c: seq<byte>, size: nat, bo: ByteOrder, pageSize: nat, cur: Cursor)
    requires FrameSize(pageSize) == 0 && cur.sum.Valid()
    ensures var read := FrameReader(c, size, bo, pageSize);
            (exists fs :: Yields(read, cur, fs)) <==> Step(read(0), cur, true).End? || read(0).value.stored != cur.sum
  {
    ZeroFramesStand(c, size, bo, pageSize);
    StandingEndsIff(FrameReader(c, size, bo, pageSize), cur);
  }

  // With frames of size 0 the search for salts in an unchanging file comes to an end if and only if
  // there is no first slot or its salt is the one looked for.
  lemma ZeroFramesStopIff(c: seq<byte>, size: nat, pageSize: nat, until: Salt)
    requires FrameSize(pageSize) == 0
    ensures (exists n: nat :: StopsAt(c, size, pageSize, until, n)) <==>
              !IsSlot(c, size, pageSize, 0) || SaltAt(c, pageSize, 0) == until
  {
    assert forall n: nat :: FrameOffset(pageSize, n) == WAL_HEADER_SIZE;
    if !IsSlot(c, size, pageSize, 0) {
      assert StopsAt(c, size, pageSize, until, 0);
    } else if SaltAt(c, pageSize, 0) == until {
      assert StopsAt(c, size, pageSize, until, 1);
    }
  }

  // The bound check keeps every frame read inside the bound exactly when the frame size does not
  // wrap around in 32-bit arithmetic.
  lemma BoundHoldsIffNoWrap(pageSize: nat)
    requires pageSize < TWO32
    ensures (forall size: nat, n: nat ::
               size > 0 && !BeyondBound(size, FrameOffset(pageSize, n), FrameSize(pageSize)) ==>
               FrameOffset(pageSize, n) + WAL_FRAME_HEADER_SIZE + pageSize <= size)
            <==> pageSize + WAL_FRAME_HEADER_SIZE < TWO32
  {
    if TWO32 <= pageSize + WAL_FRAME_HEADER_SIZE {
      var size := WAL_HEADER_SIZE + FrameSize(pageSize);
      assert FrameOffset(pageSize, 0) == WAL_HEADER_SIZE;
      assert !BeyondBound(size, FrameOffset(pageSize, 0), FrameSize(pageSize));
    }
  }
}
