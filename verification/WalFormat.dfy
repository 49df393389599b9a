/**
 The WAL file format, written down as an encoder: what it writes is what the reader reads back. Words are
 written big-endian except under the checksum, which has its own byte order; every frame carries the
 checksum of everything before it.
 */
module WalFormat {
  import opened Pages
  import opened FrameLog
  import opened WalScan
  import opened WalReader

  // --- Words ----------------------------------------------------------------------------------

  function Byte(v: nat, shift: nat): byte
    requires shift > 0
  {
    ((v / shift) % 256) as byte
  }

  // The four bytes of a 32-bit word, most significant first or last.
  function Put32(bo: ByteOrder, v: nat): (b: seq<byte>)
    ensures |b| == 4
  {
    var b3, b2, b1, b0 := Byte(v, 0x100_0000), Byte(v, 0x1_0000), Byte(v, 0x100), Byte(v, 1);
    if bo.BigEndian? then [b3, b2, b1, b0] else [b0, b1, b2, b3]
  }

  lemma Digits(v: nat)
    requires v < TWO32
    ensures v == (((v / 0x100_0000) % 256 * 256 + (v / 0x1_0000) % 256) * 256 + (v / 0x100) % 256) * 256 + v / 1 % 256
  {
    assert v / 0x100 == v / 0x1_0000 * 256 + (v / 0x100) % 256;
    assert v / 0x1_0000 == v / 0x100_0000 * 256 + (v / 0x1_0000) % 256;
    assert v / 0x100_0000 < 256;
  }

  // A word in the middle of other bytes reads back.
  lemma ReadsWord(bo: ByteOrder, b: seq<byte>, i: nat, v: nat)
    requires v < TWO32 && i + 4 <= |b| && b[i..i + 4] == Put32(bo, v)
    ensures U32(bo, b, i) == v
  {
    Digits(v);
    var w := b[i..i + 4];
    assert b[i] == w[0] && b[i + 1] == w[1] && b[i + 2] == w[2] && b[i + 3] == w[3];
  }

  // What a WAL header says.
  datatype Layout = Layout(bo: ByteOrder, pageSize: nat, seqNo: nat, salt: Salt) {
    predicate Valid() {
      pageSize < TWO32 && seqNo < TWO32 && salt.salt1 < TWO32 && salt.salt2 < TWO32
    }
  }

  // --- Header ---------------------------------------------------------------------------------

  function Magic(bo: ByteOrder): nat {
    match bo
    case LittleEndian => 0x377f0682
    case BigEndian => 0x377f0683
  }

  // The part of the header that its checksum covers.
  function HeaderFields(w: Layout): (b: seq<byte>)
    ensures |b| == 24
  {
    Put32(BigEndian, Magic(w.bo)) + Put32(BigEndian, 3007000) + Put32(BigEndian, w.pageSize) +
    Put32(BigEndian, w.seqNo) + Put32(BigEndian, w.salt.salt1) + Put32(BigEndian, w.salt.salt2)
  }

  function HeaderSum(w: Layout): (s: Sum)
    ensures s.Valid()
  {
    Fold(Sum(0, 0), WordsOf(w.bo, HeaderFields(w)))
  }

  function PutSum(s: Sum): (b: seq<byte>)
    ensures |b| == 8
  {
    Put32(BigEndian, s.s0) + Put32(BigEndian, s.s1)
  }

  function EncodeHeader(w: Layout): (b: seq<byte>)
    ensures |b| == WAL_HEADER_SIZE
  {
    HeaderFields(w) + PutSum(HeaderSum(w))
  }

  // A header reads back.
  lemma HeaderRoundTrip(w: Layout)
    requires w.Valid()
    ensures ParseHeader(EncodeHeader(w)) == Parsed(Header(w.bo, w.pageSize, w.seqNo, w.salt, HeaderSum(w)))
  {
    var b, sum := EncodeHeader(w), HeaderSum(w);
    assert b[..24] == HeaderFields(w);
    ReadsWord(BigEndian, b, 0, Magic(w.bo));
    ReadsWord(BigEndian, b, 4, 3007000);
    ReadsWord(BigEndian, b, 8, w.pageSize);
    ReadsWord(BigEndian, b, 12, w.seqNo);
    ReadsWord(BigEndian, b, 16, w.salt.salt1);
    ReadsWord(BigEndian, b, 20, w.salt.salt2);
    ReadsWord(BigEndian, b, 24, sum.s0);
    ReadsWord(BigEndian, b, 28, sum.s1);
  }

  // --- Frames ---------------------------------------------------------------------------------

  // A frame that fits the file.
  ghost predicate FrameOk(f: Frame, pageSize: nat, salt: Salt) {
    && f.salt == salt && salt.salt1 < TWO32 && salt.salt2 < TWO32
    && f.pgno < TWO32 && f.commit < TWO32 && |f.data| == pageSize && Aligned(pageSize)
  }

  // The checksum of a frame covers its page number, its commit size and its page.
  function FrameSum(bo: ByteOrder, s: Sum, f: Frame): (r: Sum)
    requires Aligned(|f.data|)
    ensures s.Valid() ==> r.Valid()
  {
    Fold(s, WordsOf(bo, Put32(BigEndian, f.pgno) + Put32(BigEndian, f.commit)) + WordsOf(bo, f.data))
  }

  function FrameHeader(f: Frame, sum: Sum): (b: seq<byte>)
    ensures |b| == WAL_FRAME_HEADER_SIZE
  {
    Put32(BigEndian, f.pgno) + Put32(BigEndian, f.commit) +
    Put32(BigEndian, f.salt.salt1) + Put32(BigEndian, f.salt.salt2) + PutSum(sum)
  }

  // A frame reads back and is accepted by a reader whose checksum is the one before it.
  lemma FrameRoundTrip(bo: ByteOrder, s: Sum, f: Frame, salt: Salt, n: nat)
    requires FrameOk(f, |f.data|, salt) && s.Valid()
    ensures var sum := FrameSum(bo, s, f);
            Step(Some(Decode(bo, FrameHeader(f, sum), f.data)), Cursor(n, salt, s), true) ==
              Read.Read(f, Cursor(n + 1, salt, sum))
  {
    var sum := FrameSum(bo, s, f);
    var b := FrameHeader(f, sum);
    assert b[..8] == Put32(BigEndian, f.pgno) + Put32(BigEndian, f.commit);
    ReadsWord(BigEndian, b, 0, f.pgno);
    ReadsWord(BigEndian, b, 4, f.commit);
    ReadsWord(BigEndian, b, 8, salt.salt1);
    ReadsWord(BigEndian, b, 12, salt.salt2);
    ReadsWord(BigEndian, b, 16, sum.s0);
    ReadsWord(BigEndian, b, 20, sum.s1);
  }

  // --- A whole file ---------------------------------------------------------------------------

  ghost predicate FramesOk(w: Layout, fs: seq<Frame>) {
    w.Valid() && NoWrap(w.pageSize) && forall i :: 0 <= i < |fs| ==> FrameOk(fs[i], w.pageSize, w.salt)
  }

  // The running checksum after the frames.
  function SumAfter(w: Layout, fs: seq<Frame>): (r: Sum)
    requires forall i :: 0 <= i < |fs| ==> Aligned(|fs[i].data|)
    ensures r.Valid()
  {
    if fs == [] then HeaderSum(w) else FrameSum(w.bo, SumAfter(w, fs[..|fs| - 1]), fs[|fs| - 1])
  }

  function EncodeWal(w: Layout, fs: seq<Frame>): seq<byte>
    requires forall i :: 0 <= i < |fs| ==> Aligned(|fs[i].data|)
  {
    if fs == [] then EncodeHeader(w)
    else EncodeWal(w, fs[..|fs| - 1]) + (FrameHeader(fs[|fs| - 1], SumAfter(w, fs)) + fs[|fs| - 1].data)
  }

  // A file of frames ends where the next frame would start.
  lemma {:induction false} WalLength(w: Layout, fs: seq<Frame>)
    requires FramesOk(w, fs)
    ensures |EncodeWal(w, fs)| == FrameOffset(w.pageSize, |fs|)
    decreases |fs|
  {
    if fs != [] {
      WalLength(w, fs[..|fs| - 1]);
      OffsetsIncrease(w.pageSize, |fs| - 1, |fs|);
    }
  }

  // A frame's header and its page are in c at `off`.
  ghost predicate FrameIn(c: seq<byte>, off: nat, hdr: seq<byte>, data: seq<byte>) {
    && off + |hdr| + |data| <= |c|
    && c[off..off + |hdr|] == hdr && c[off + |hdr|..off + |hdr| + |data|] == data
  }

  lemma FrameStays(c: seq<byte>, d: seq<byte>, off: nat, hdr: seq<byte>, data: seq<byte>)
    requires FrameIn(c, off, hdr, data)
    ensures FrameIn(c + d, off, hdr, data)
  {
  }

  lemma FrameBehind(c: seq<byte>, hdr: seq<byte>, data: seq<byte>)
    ensures FrameIn(c + (hdr + data), |c|, hdr, data)
  {
  }

  ghost function HeaderOf(w: Layout, fs: seq<Frame>, k: nat): (b: seq<byte>)
    requires FramesOk(w, fs) && k < |fs|
    ensures |b| == WAL_FRAME_HEADER_SIZE
  {
    FrameHeader(fs[k], SumAfter(w, fs[..k + 1]))
  }

  // The bytes of frame k, whatever follows it.
  lemma {:induction false} FrameBytes(w: Layout, fs: seq<Frame>, k: nat)
    requires FramesOk(w, fs) && k < |fs|
    ensures FrameIn(EncodeWal(w, fs), FrameOffset(w.pageSize, k), HeaderOf(w, fs, k), fs[k].data)
    decreases |fs|
  {
    var n := |fs| - 1;
    var init := fs[..n];
    WalLength(w, init);
    assert fs[..n + 1] == fs;
    assert EncodeWal(w, fs) == EncodeWal(w, init) + (HeaderOf(w, fs, n) + fs[n].data);
    if k == n {
      FrameBehind(EncodeWal(w, init), HeaderOf(w, fs, n), fs[n].data);
    } else {
      FrameBytes(w, init, k);
      assert init[..k + 1] == fs[..k + 1];
      FrameStays(EncodeWal(w, init), HeaderOf(w, fs, n) + fs[n].data, FrameOffset(w.pageSize, k),
                 HeaderOf(w, fs, k), fs[k].data);
    }
  }

  lemma SlotHeld(c: seq<byte>, size: nat, bo: ByteOrder, pageSize: nat, off: nat, hdr: seq<byte>, data: seq<byte>)
    requires |hdr| == WAL_FRAME_HEADER_SIZE && |data| == pageSize && NoWrap(pageSize)
    requires FrameIn(c, off, hdr, data) && (size == 0 || size == |c|)
    ensures SlotRead(size, bo, pageSize, off, c, c) == Some(Decode(bo, hdr, data))
  {
    assert Slice(c, off, WAL_FRAME_HEADER_SIZE) == hdr;
    assert Slice(c, off + WAL_FRAME_HEADER_SIZE, pageSize) == data;
  }

  // Reading frame k finds it, whether the size was captured or not; behind the last one there is nothing.
  lemma FrameIsRead(w: Layout, fs: seq<Frame>, size: nat, k: nat)
    requires FramesOk(w, fs) && k <= |fs| && (size == 0 || size == |EncodeWal(w, fs)|)
    ensures var read := FrameReader(EncodeWal(w, fs), size, w.bo, w.pageSize);
            read(k) == if k == |fs| then None else Some(Decode(w.bo, HeaderOf(w, fs, k), fs[k].data))
  {
    WalLength(w, fs);
    var c, off := EncodeWal(w, fs), FrameOffset(w.pageSize, k);
    if k < |fs| {
      FrameBytes(w, fs, k);
      SlotHeld(c, size, w.bo, w.pageSize, off, HeaderOf(w, fs, k), fs[k].data);
    }
  }

  // The reader is here after k frames.
  ghost function Here(w: Layout, fs: seq<Frame>, k: nat): Cursor
    requires FramesOk(w, fs) && k <= |fs|
  {
    Cursor(k, w.salt, SumAfter(w, fs[..k]))
  }

  lemma FrameIsNext(w: Layout, fs: seq<Frame>, size: nat, k: nat)
    requires FramesOk(w, fs) && k < |fs| && (size == 0 || size == |EncodeWal(w, fs)|)
    ensures var read := FrameReader(EncodeWal(w, fs), size, w.bo, w.pageSize);
            Step(read(k), Here(w, fs, k), true) == Read.Read(fs[k], Here(w, fs, k + 1))
  {
    FrameIsRead(w, fs, size, k);
    FrameRoundTrip(w.bo, SumAfter(w, fs[..k]), fs[k], w.salt, k);
    assert fs[..k + 1][..k] == fs[..k] && fs[..k + 1][k] == fs[k];
  }

  lemma {:induction false} ReadsPrefix(w: Layout, fs: seq<Frame>, k: nat, read: nat -> Option<Slot>)
    requires FramesOk(w, fs) && k <= |fs|
    requires forall j: nat :: j < k ==> Step(read(j), Here(w, fs, j), true) == Read.Read(fs[j], Here(w, fs, j + 1))
    ensures Leads(read, Here(w, fs, 0), fs[..k], Here(w, fs, k))
    decreases k
  {
    if k > 0 {
      ReadsPrefix(w, fs, k - 1, read);
      LeadsOn(read, Here(w, fs, 0), fs[..k - 1], Here(w, fs, k - 1), fs[k - 1], Here(w, fs, k));
      assert fs[..k - 1] + [fs[k - 1]] == fs[..k];
    }
  }

  // Everything that is written reads back: the header, then exactly the frames, the last of which ends at
  // the captured size.
  lemma WalRoundTrip(w: Layout, fs: seq<Frame>, size: nat)
    requires FramesOk(w, fs) && (size == 0 || size == |EncodeWal(w, fs)|)
    ensures var c, start := EncodeWal(w, fs), Cursor(0, w.salt, HeaderSum(w));
            && ParseHeader(Slice(c, 0, WAL_HEADER_SIZE)) ==
                 Parsed(Header(w.bo, w.pageSize, w.seqNo, w.salt, HeaderSum(w)))
            && Yields(FrameReader(c, size, w.bo, w.pageSize), start, fs)
            && Scan(Slots(c, size, w.bo, w.pageSize), start) == fs
  {
    var c, start, n := EncodeWal(w, fs), Cursor(0, w.salt, HeaderSum(w)), |fs|;
    var read := FrameReader(c, size, w.bo, w.pageSize);
    HeaderRoundTrip(w);
    StartsWithHeader(w, fs);
    forall j: nat | j < n ensures Step(read(j), Here(w, fs, j), true) == Read.Read(fs[j], Here(w, fs, j + 1)) {
      FrameIsNext(w, fs, size, j);
    }
    ReadsPrefix(w, fs, n, read);
    FrameIsRead(w, fs, size, n);
    assert fs[..n] == fs && Here(w, fs, 0) == start && Here(w, fs, n).frameN == n;
    assert Yields(read, start, fs);
    MappedIsScan(c, size, w.bo, w.pageSize, start, fs);
  }

  lemma {:induction false} StartsWithHeader(w: Layout, fs: seq<Frame>)
    requires forall i :: 0 <= i < |fs| ==> Aligned(|fs[i].data|)
    ensures Slice(EncodeWal(w, fs), 0, WAL_HEADER_SIZE) == EncodeHeader(w)
    decreases |fs|
  {
    if fs != [] {
      StartsWithHeader(w, fs[..|fs| - 1]);
    }
  }
}
