/**
 From the frames that the reader accepts to what the sync protocol copies: in a WAL whose checksums
 are in order, a scan yields the frames up to the first one with other salts, and its page map is
 the net effect of the committed ones.
 */
module WalLink {
  import opened FrameLog
  import opened WalScan
  import opened WalOverlay
  import opened WalSync
  import opened WalSyncProof

  function Frames(slots: seq<Slot>): (fs: seq<Frame>)
    ensures |fs| == |slots| && forall i :: 0 <= i < |fs| ==> fs[i] == slots[i].frame
  {
    seq(|slots|, i requires 0 <= i < |slots| => slots[i].frame)
  }

  // From the cursor on, the frames with its salts carry the right running checksums.
  ghost predicate Chained(slots: seq<Slot>, cur: Cursor)
    decreases |slots| - cur.frameN
  {
    cur.frameN < |slots| && slots[cur.frameN].frame.salt == cur.salt ==>
      var slot := slots[cur.frameN];
      slot.stored == Fold(cur.sum, slot.words) && Chained(slots, Cursor(cur.frameN + 1, cur.salt, slot.stored))
  }

  // A scan yields the frames up to the first one with other salts.
  lemma {:induction false} ScanIsReadable(slots: seq<Slot>, cur: Cursor)
    requires Chained(slots, cur) && cur.frameN <= |slots|
    ensures Scan(slots, cur) == Readable(Frames(slots)[cur.frameN..], cur.salt)
    decreases |slots| - cur.frameN
  {
    var n := cur.frameN;
    if n < |slots| {
      var rest := Frames(slots)[n..];
      assert rest[0] == slots[n].frame && rest[1..] == Frames(slots)[n + 1..];
      if slots[n].frame.salt == cur.salt {
        ScanIsReadable(slots, Cursor(n + 1, cur.salt, slots[n].stored));
      }
    }
  }

  // What the protocol reads from an offset behind frames of the epoch is what the resumed reader scans.
  lemma SourceIsScan(slots: seq<Slot>, w: Wal, start: Cursor, off: nat)
    requires Frames(slots) == w.Slots() && start.frameN == 0 && start.salt == w.salt && Chained(slots, start)
    requires 0 < off <= |slots| && AllSalt(w.Slots()[..off], w.salt)
    ensures Resume(slots, w.salt, off).Read?
    ensures Scan(slots, Resume(slots, w.salt, off).next) == Readable(w.Slots()[off..], w.salt)
  {
    var fs := w.Slots();
    ScanIsReadable(slots, start);
    assert fs[0..] == fs && fs == fs[..off] + fs[off..];
    ReadableConcat(fs[..off], fs[off..], w.salt);
    ResumeIsScan(slots, start, off);
    ScanSplits(slots, start, off);
    assert Scan(slots, start)[off..] == Readable(fs[off..], w.salt);
  }

  lemma PageMapOfCommitted(fs: seq<Frame>, m: map<nat, nat>)
    requires IsPageMap(fs, m) && Committed(fs) > 0
    ensures IsPageMap(fs[..Committed(fs)], m)
  {
    var n := Committed(fs);
    var gs := fs[..n];
    assert gs[|gs| - 1] == fs[n - 1];
    assert Committed(gs) == n && CommitSize(gs) == CommitSize(fs);
    forall p: nat ensures Occurs(fs, 0, n, p) <==> Occurs(gs, 0, n, p) {
      assert forall i :: 0 <= i < n ==> gs[i] == fs[i];
    }
    forall p: nat | p in m ensures LastOf(gs, n, p, m[p]) {
      assert LastOf(fs, n, p, m[p]);
    }
  }

  // So the page map of the frames read is exactly what an incremental sync writes.
  lemma PageMapIsCopied(src: Source, m: map<nat, nat>)
    requires IsPageMap(src.frames, m) && Committed(src.frames) > 0
    ensures CommittedOf(src) != [] && RunDelta(CommittedOf(src)).commit == CommitSize(src.frames)
    ensures forall p: nat :: 1 <= p ==> (p in RunDelta(CommittedOf(src)).pages <==> p in m)
    ensures forall p: nat :: p in RunDelta(CommittedOf(src)).pages ==> m[p] < |src.frames|
    ensures forall p: nat :: p in RunDelta(CommittedOf(src)).pages ==>
              RunDelta(CommittedOf(src)).pages[p] == src.frames[m[p]].data
  {
    var fs := CommittedOf(src);
    PageMapOfCommitted(src.frames, m);
    assert fs[|fs| - 1] == src.frames[Committed(src.frames) - 1];
    PageMapIsRunDelta(fs, m);
    forall p: nat | p in m ensures m[p] < |fs| && fs[m[p]] == src.frames[m[p]] {
      assert LastOf(fs, |fs|, p, m[p]);
    }
  }
}
