/**
 The reader that reconnects: it delivers a remote object over connections that may break at any
 time. A connection has its own position in the object; a new one starts at the offset it is opened
 with, so the reader's offset and the position of its connection have to stay in step.
 */
module ResumableReader {
  import opened Pages

  const MAX_RETRIES := 3

  datatype StreamError = NoError | EndOfStream | Broken

  // What a read from a connection yields: at most `n` bytes, and an error.
  datatype Event = Event(n: nat, error: StreamError)

  datatype Outcome = Delivered | Eof | ReopenFailed | RetriesExceeded

  // An open stream over a remote object.
  class Connection {
    const data: seq<byte>
    var pos: nat

    constructor (data: seq<byte>, offset: nat)
      requires offset <= |data|
      ensures this.data == data && pos == offset
    {
      this.data, pos := data, offset;
    }

    // The next bytes of the object, as many as are asked for, sent and left.
    method Read(len: nat, n: nat) returns (chunk: seq<byte>)
      requires pos <= |data|
      modifies this
      ensures pos == old(pos) + |chunk| <= |data| && chunk == data[old(pos)..pos]
      ensures |chunk| == Min(n, Min(len, |data| - old(pos)))
    {
      var k := Min(n, Min(len, |data| - pos));
      chunk := data[pos..pos + k];
      pos := pos + k;
    }
  }

  class Reader {
    const data: seq<byte>
    // The expected size of the object, 0 if unknown.
    const size: nat
    var offset: nat
    var rc: Connection?
    // Everything handed to the caller so far.
    ghost var received: seq<byte>

    ghost function Repr(): set<object>
      reads this
    {
      if rc == null then {this} else {this, rc}
    }

    ghost predicate Valid()
      reads this, Repr()
    {
      && offset <= |data| && received == data[..offset]
      && (rc != null ==> rc.data == data && rc.pos == offset)
    }

    constructor (data: seq<byte>, size: nat)
      ensures Valid() && fresh(Repr()) && this.data == data && this.size == size && received == []
    {
      this.data, this.size, offset, received := data, size, 0, [];
      rc := new Connection(data, 0);
    }

    // A read that yielded no byte and made the reader reconnect.
    ghost predicate Dropped(e: Event, len: nat)
      reads this
    {
      && (e.n == 0 || len == 0 || |data| <= offset)
      && (e.error == Broken || (e.error == EndOfStream && 0 < size && offset < size))
    }

    // Make sure there is a connection, opened where the last one left off.
    method Connect(works: bool) returns (ok: bool)
      requires Valid()
      modifies this`rc
      ensures Valid() && ok == (old(rc) != null || works) && (ok <==> rc != null)
      ensures old(rc) != null ==> rc == old(rc)
      ensures rc == old(rc) || fresh(rc)
    {
      if rc == null {
        if !works {
          return false;
        }
        rc := new Connection(data, offset);
      }
      return true;
    }

    // The bytes that an attempt with event e delivers.
    ghost function Chunk(e: Event, len: nat): seq<byte>
      requires offset <= |data|
      reads this
    {
      data[offset..offset + Min(e.n, Min(len, |data| - offset))]
    }

    // The object has been read to the end, as far as is known.
    ghost predicate Complete(offset: nat) {
      size == 0 || size <= offset
    }

    // One attempt, on the connection there is or on a new one if opening `works`. Without a result, the
    // connection is gone and nothing was read.
    method Attempt(len: nat, works: bool, e: Event) returns (chunk: seq<byte>, r: Option<Outcome>)
      requires Valid()
      modifies Repr()
      ensures Valid() && fresh(Repr() - old(Repr())) && received == old(received) + chunk && |chunk| <= len
      ensures offset == old(offset) + |chunk|
      ensures r == Some(ReopenFailed) <==> old(rc) == null && !works
      ensures chunk == if r == Some(ReopenFailed) then [] else old(Chunk(e, len))
      ensures r == None <==> r != Some(ReopenFailed) && old(Dropped(e, len))
      ensures r == Some(Eof) <==> r != Some(ReopenFailed) && e.error == EndOfStream && Complete(offset)
      ensures r == None || r == Some(ReopenFailed) || r == Some(Eof) || r == Some(Delivered)
      ensures rc != null <==> r == Some(Eof) || (r == Some(Delivered) && e.error == NoError)
    {
      var ok := Connect(works);
      if !ok {
        return [], Some(ReopenFailed);
      }
      chunk := rc.Read(len, e.n);
      assert data[..offset] + chunk == data[..offset + |chunk|];
      offset := offset + |chunk|;
      received := received + chunk;
      if e.error == NoError {
        return chunk, Some(Delivered);
      }
      if e.error == EndOfStream && !(size > 0 && offset < size) {
        return chunk, Some(Eof);
      }
      rc := null;
      return chunk, if |chunk| > 0 then Some(Delivered) else None;
    }

    // Read up to `len` bytes. At attempt a, reopening works iff opens(a), and the connection then
    // yields stream(a). Attempt `last` decides the result.
    method Read(len: nat, opens: nat -> bool, stream: nat -> Event)
      returns (chunk: seq<byte>, r: Outcome, ghost last: nat)
      requires Valid()
      modifies Repr()
      ensures Valid() && fresh(Repr() - old(Repr())) && received == old(received) + chunk && |chunk| <= len
      ensures r == Eof ==> size == 0 || size <= offset
      ensures r == Eof && size == |data| ==> received == data
      ensures last <= MAX_RETRIES + 1 && forall a: nat :: a < last ==> old(Dropped(stream(a), len))
      ensures forall a: nat :: 0 < a < last ==> opens(a)
      ensures r == RetriesExceeded <==> last == MAX_RETRIES + 1
      ensures r == ReopenFailed <==> last <= MAX_RETRIES && (last > 0 || old(rc) == null) && !opens(last)
      ensures chunk == if r == ReopenFailed || r == RetriesExceeded then [] else old(Chunk(stream(last), len))
      ensures r == Delivered ==> !old(Dropped(stream(last), len))
      ensures r == Eof <==>
                last <= MAX_RETRIES && r != ReopenFailed && stream(last).error == EndOfStream && Complete(offset)
    {
      for attempt := 0 to MAX_RETRIES + 1
        invariant Valid() && (rc == null || rc == old(rc) || fresh(rc))
        invariant offset == old(offset) && received == old(received)
        invariant forall a: nat :: a < attempt ==> old(Dropped(stream(a), len))
        invariant forall a: nat :: 0 < a < attempt ==> opens(a)
        invariant if attempt == 0 then rc == old(rc) else rc == null
      {
        var done;
        chunk, done := Attempt(len, opens(attempt), stream(attempt));
        if done.Some? {
          assert size == |data| && size <= offset ==> data[..offset] == data;
          return chunk, done.value, attempt;
        }
      }
      return [], RetriesExceeded, MAX_RETRIES + 1;
    }
  }
}
