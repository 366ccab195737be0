// Buffers with a read and a write position, and the write pipeline of a TCP link over them.
module Buffers {
  import opened Octets

  class FixedBuffer {
    const memory: array<Byte>
    var readPos: nat
    var writePos: nat

    ghost predicate Valid()
      reads this
    {
      readPos <= writePos <= memory.Length
    }

    constructor (size: nat)
      ensures Valid() && readPos == writePos == 0 && memory.Length == size && fresh(memory)
    {
      memory := new Byte[size];
      readPos, writePos := 0, 0;
    }

    // The bytes written and not read yet.
    function Data(): (d: seq<Byte>)
      requires Valid()
      reads this, memory
      ensures |d| == writePos - readPos
    {
      memory[readPos..writePos]
    }

    function FreeSize(): (n: nat)
      requires Valid()
      reads this
    {
      memory.Length - writePos
    }

    method Clear()
      modifies this
      ensures Valid() && readPos == writePos == 0
    {
      readPos, writePos := 0, 0;
    }

    method SetReadPos(pos: nat)
      requires Valid()
      modifies this`readPos
      ensures Valid() && readPos == if pos <= writePos then pos else writePos
    {
      readPos := if pos <= writePos then pos else writePos;
    }

    // Copies behind what is written, or refuses.
    method Write(src: seq<Byte>) returns (ok: bool)
      requires Valid()
      modifies this`writePos, memory
      ensures Valid() && ok == (|src| <= old(FreeSize()))
      ensures !ok ==> writePos == old(writePos) && memory[..] == old(memory[..])
      ensures ok ==> writePos == old(writePos) + |src| && Data() == old(Data()) + src
      ensures memory[..old(writePos)] == old(memory[..writePos])
    {
      if memory.Length < writePos + |src| { return false; }
      forall i | 0 <= i < |src| { memory[writePos + i] := src[i]; }
      writePos := writePos + |src|;
      return true;
    }
  }
}

module LinkTcps {
  import opened Buffers
  import opened Octets

  // A write handed to the event loop: a region of a buffer, and the buffer to give back afterwards.
  datatype WriteReq = WriteReq(buf: FixedBuffer, off: nat, len: nat, lastBuffer: FixedBuffer?)

  function Concat(parts: seq<seq<Byte>>): seq<Byte> {
    if parts == [] then [] else parts[0] + Concat(parts[1..])
  }

  lemma {:induction false} ConcatPush(parts: seq<seq<Byte>>, p: seq<Byte>)
    ensures Concat(parts + [p]) == Concat(parts) + p
  {
    if parts == [] {
      assert [p][1..] == [];
    } else {
      assert (parts + [p])[1..] == parts[1..] + [p];
      ConcatPush(parts[1..], p);
    }
  }

  function Total(reqs: seq<WriteReq>): nat {
    if reqs == [] then 0 else reqs[0].len + Total(reqs[1..])
  }

  lemma {:induction false} TotalPush(reqs: seq<WriteReq>, r: WriteReq)
    ensures Total(reqs + [r]) == Total(reqs) + r.len
  {
    if reqs != [] {
      assert (reqs + [r])[1..] == reqs[1..] + [r];
      TotalPush(reqs[1..], r);
    }
  }

  // A buffer given back by one write belongs to no later one.
  ghost predicate Ordered(reqs: seq<WriteReq>) {
    forall i, j :: 0 <= i < j < |reqs| && reqs[i].lastBuffer != null ==> reqs[j].buf != reqs[i].buf
  }

  // One request: within its buffer, outside the pool; only a buffer that is not the writer is given back.
  ghost predicate Sane(r: WriteReq, writer: FixedBuffer, pool: seq<FixedBuffer>, repr: set<FixedBuffer>, size: nat) {
    && r.buf in repr && r.buf !in pool && 0 < r.len && r.off + r.len <= size
    && (r.lastBuffer != null ==> r.lastBuffer == r.buf && r.buf != writer)
  }

  lemma OrderedPush(reqs: seq<WriteReq>, r: WriteReq)
    requires Ordered(reqs) && forall i :: 0 <= i < |reqs| && reqs[i].lastBuffer != null ==> reqs[i].buf != r.buf
    ensures Ordered(reqs + [r])
  {
  }

  // Bytes waiting become a write; the oldest write becomes bytes sent.
  lemma Moved(sent: seq<Byte>, given: seq<seq<Byte>>, data: seq<Byte>)
    ensures sent + Concat(given + [data]) + [] == sent + Concat(given) + data
  {
    ConcatPush(given, data);
  }

  lemma Delivered(sent: seq<Byte>, given: seq<seq<Byte>>, rest: seq<Byte>)
    requires given != []
    ensures sent + given[0] + Concat(given[1..]) + rest == sent + Concat(given) + rest
  {
  }

  lemma Joined(before: seq<Byte>, a: seq<Byte>, b: seq<Byte>, c: seq<Byte>)
    ensures before + (a + b) + c == before + a + (b + c)
  {
  }

  class LinkTcp {
    const bufferSize: nat
    var writer: FixedBuffer
    var writingSize: int
    var pool: seq<FixedBuffer>         // buffers given back to the reactor's cache
    var inFlight: seq<WriteReq>        // writes the event loop has not completed, oldest first
    ghost var given: seq<seq<Byte>>    // the bytes of each write in flight when it was handed over
    ghost var sent: seq<Byte>          // what the completed writes have read from memory
    ghost var repr: set<FixedBuffer>

    // The buffers: the writer, those in the pool, those of writes in flight.
    ghost predicate Buffered()
      reads this`writer, this`pool, this`repr, repr
    {
      && bufferSize > 0 && writer in repr && writer !in pool
      && (forall b :: b in repr ==> b.Valid() && b.memory.Length == bufferSize)
      && (forall b, c :: b in repr && c in repr && b != c ==> b.memory != c.memory)
      && (writer.writePos == bufferSize ==> writer.readPos < bufferSize)
      && (forall b :: b in pool ==> b in repr && b.readPos == 0 && b.writePos == 0)
      && (forall i, j :: 0 <= i < j < |pool| ==> pool[i] != pool[j])
    }

    // The region still holds the bytes that were handed over, and writing will not reach it.
    ghost predicate Intact(r: WriteReq, bytes: seq<Byte>)
      reads this`writer, r.buf, r.buf.memory
    {
      && r.off + r.len <= r.buf.memory.Length && r.buf.memory[r.off..r.off + r.len] == bytes
      && (r.buf == writer ==> r.off + r.len <= writer.readPos)
    }

    ghost predicate Handed(reqs: seq<WriteReq>, given: seq<seq<Byte>>)
      reads this`writer, this`pool, this`repr, repr, set b | b in repr :: b.memory
    {
      && |given| == |reqs| && Ordered(reqs)
      && (forall i :: 0 <= i < |reqs| ==> Sane(reqs[i], writer, pool, repr, bufferSize))
      && (forall i :: 0 <= i < |reqs| ==> Intact(reqs[i], given[i]))
    }

    ghost predicate Valid()
      reads this, repr, set b | b in repr :: b.memory
    {
      Buffered() && Handed(inFlight, given) && writingSize == Total(inFlight)
    }

    // Only new buffers came in.
    twostate predicate Grown(before: set<FixedBuffer>)
      reads this`repr, repr
    {
      repr >= before && forall b :: b in repr && b !in before ==> fresh(b) && fresh(b.memory)
    }

    // Everything pushed so far, in order: sent, on its way, or waiting in the writer.
    ghost function Stream(): seq<Byte>
      requires writer.Valid()
      reads this, writer, writer.memory
    {
      sent + Concat(given) + writer.Data()
    }

    constructor (bufferSize: nat)
      requires bufferSize > 0
      ensures Valid() && Stream() == [] && inFlight == [] && fresh(repr) && fresh(set b | b in repr :: b.memory)
    {
      this.bufferSize := bufferSize;
      var w := new FixedBuffer(bufferSize);
      writer, writingSize, pool, inFlight := w, 0, [], [];
      given, sent, repr := [], [], {w};
    }

    // From the cache if it has any: the one given back last.
    method GetBuffer() returns (b: FixedBuffer)
      requires Buffered()
      modifies this`pool, this`repr
      ensures b !in pool && b != writer && b.readPos == b.writePos == 0
      ensures pool <= old(pool) && (b in old(pool) || fresh(b))
      ensures repr == old(repr) + {b} && (b !in old(repr) ==> fresh(b) && fresh(b.memory))
      ensures Buffered()
    {
      if pool == [] {
        b := new FixedBuffer(bufferSize);
        repr := repr + {b};
      } else {
        b := pool[|pool| - 1];
        pool := pool[..|pool| - 1];
      }
    }

    // Hands the bytes waiting in the writer to the event loop; a full writer is replaced.
    method FlushData()
      requires Valid()
      modifies this, writer
      ensures Valid() && Stream() == old(Stream()) && sent == old(sent)
      ensures writer.Data() == [] && writer.FreeSize() > 0
      ensures Grown(old(repr))
    {
      if writer.writePos == writer.readPos { return; }
      Moved(sent, given, writer.Data());
      if writer.FreeSize() == 0 { FlushFull(); } else { FlushPart(); }
    }

    method FlushPart()
      requires Valid() && writer.Data() != [] && writer.FreeSize() > 0
      modifies this`writingSize, this`inFlight, this`given, writer`readPos
      ensures Valid() && writer.Data() == [] && writer.FreeSize() > 0
      ensures given == old(given) + [old(writer.Data())]
    {
      ghost var data := writer.Data();
      var req := WriteReq(writer, writer.readPos, writer.writePos - writer.readPos, null);
      writer.SetReadPos(writer.readPos + req.len);
      forall i | 0 <= i < |inFlight| ensures Intact(inFlight[i], given[i]) {
        assert old(Intact(inFlight[i], given[i]));
      }
      Enqueue(req, data);
    }

    method FlushFull()
      requires Valid() && writer.Data() != [] && writer.FreeSize() == 0
      modifies this, writer`readPos
      ensures Valid() && writer.Data() == [] && writer.FreeSize() > 0
      ensures given == old(given) + [old(writer.Data())] && sent == old(sent)
      ensures Grown(old(repr))
    {
      ghost var data := writer.Data();
      var last := writer;
      var req := WriteReq(last, writer.readPos, writer.writePos - writer.readPos, last);
      SwapWriter();
      last.SetReadPos(last.readPos + req.len);
      Enqueue(req, data);
    }

    // Takes a fresh writer; the old one is left to the write that is handed over next.
    method SwapWriter()
      requires Valid() && writer.FreeSize() == 0
      modifies this`writer, this`pool, this`repr
      ensures Buffered() && Handed(inFlight, given) && writer.readPos == writer.writePos == 0
      ensures writer != old(writer) && old(writer) !in pool && old(writer) in repr
      ensures forall i :: 0 <= i < |inFlight| && inFlight[i].lastBuffer != null ==> inFlight[i].buf != old(writer)
      ensures Grown(old(repr))
    {
      var next := GetBuffer();
      assert forall i :: 0 <= i < |inFlight| ==> inFlight[i].buf != next by {
        assert forall i :: 0 <= i < |inFlight| ==> inFlight[i].buf in old(repr) && inFlight[i].buf !in old(pool);
      }
      writer := next;
      forall i | 0 <= i < |inFlight| ensures Intact(inFlight[i], given[i]) {
        assert old(Intact(inFlight[i], given[i]));
      }
    }

    method Enqueue(req: WriteReq, ghost data: seq<Byte>)
      requires Handed(inFlight, given) && writingSize == Total(inFlight)
      requires Sane(req, writer, pool, repr, bufferSize) && Intact(req, data)
      requires forall i :: 0 <= i < |inFlight| && inFlight[i].lastBuffer != null ==> inFlight[i].buf != req.buf
      modifies this`writingSize, this`inFlight, this`given
      ensures Handed(inFlight, given) && writingSize == Total(inFlight)
      ensures inFlight == old(inFlight) + [req] && given == old(given) + [data]
    {
      OrderedPush(inFlight, req);
      TotalPush(inFlight, req);
      writingSize := writingSize + req.len;
      inFlight, given := inFlight + [req], given + [data];
    }

    // The event loop completes its oldest write: it has read the region from memory by now. A buffer
    // that came with the write is given back; an idle writer starts over.
    method Complete()
      requires Valid() && inFlight != []
      modifies this`sent, this`given, this`inFlight, this`pool, this`writingSize, repr
      ensures Valid() && Stream() == old(Stream()) && repr == old(repr) && writer == old(writer)
      ensures writer.Data() == old(writer.Data())
      ensures inFlight == old(inFlight)[1..] && sent == old(sent) + old(given)[0]
    {
      var req := Dequeue();
      if req.lastBuffer != null { Free(req.lastBuffer); }
      FinishWritingSize(req.len);
      if writingSize == 0 && writer.writePos == writer.readPos { Rewind(); }
    }

    method FinishWritingSize(len: nat)
      modifies this`writingSize
      ensures writingSize == if old(writingSize) < len then 0 else old(writingSize) - len
    {
      writingSize := writingSize - len;
      writingSize := if writingSize < 0 then 0 else writingSize;
    }

    method Dequeue() returns (req: WriteReq)
      requires Valid() && inFlight != []
      modifies this`sent, this`given, this`inFlight
      ensures req == old(inFlight)[0] && inFlight == old(inFlight)[1..] && given == old(given)[1..]
      ensures sent == old(sent) + old(given)[0] && Stream() == old(Stream())
      ensures Handed(inFlight, given) && writingSize == Total(inFlight) + req.len
      ensures Sane(req, writer, pool, repr, bufferSize)
      ensures req.lastBuffer != null ==> forall i :: 0 <= i < |inFlight| ==> inFlight[i].buf != req.buf
    {
      req := inFlight[0];
      assert Intact(req, given[0]);
      sent := sent + req.buf.memory[req.off..req.off + req.len];
      ghost var reqs, gs := inFlight, given;
      inFlight, given := inFlight[1..], given[1..];
      assert forall i :: 0 <= i < |inFlight| ==> inFlight[i] == reqs[i + 1] && given[i] == gs[i + 1];
      Delivered(old(sent), gs, writer.Data());
    }

    // Nothing is in flight and nothing waits: the writer's memory is free again.
    method Rewind()
      requires Valid() && writingSize == 0 && writer.writePos == writer.readPos
      modifies writer
      ensures Valid() && inFlight == [] && writer.Data() == [] && Stream() == old(Stream())
    {
      assert inFlight != [] ==> Sane(inFlight[0], writer, pool, repr, bufferSize);
      writer.Clear();
    }

    method Free(b: FixedBuffer)
      requires Buffered() && b in repr && b != writer && b !in pool
      requires Handed(inFlight, given) && forall i :: 0 <= i < |inFlight| ==> inFlight[i].buf != b
      modifies this`pool, b
      ensures Buffered() && Handed(inFlight, given) && Stream() == old(Stream())
      ensures pool == old(pool) || pool == old(pool) + [b]
    {
      b.Clear();
      if |pool| < MAX_CACHE { pool := pool + [b]; }
      forall i | 0 <= i < |inFlight| ensures Intact(inFlight[i], given[i]) {
        assert old(Intact(inFlight[i], given[i]));
      }
    }

    static const MAX_CACHE: nat := 256

    // Copies the message into the writer, flushing every time the writer is full.
    method PushData(src: FixedBuffer)
      requires Valid() && src.Valid() && Apart(src)
      modifies this, src`readPos, repr, set b | b in repr :: b.memory
      ensures Valid() && Stream() == old(Stream()) + old(src.Data()) && sent == old(sent)
      ensures Grown(old(repr)) && Apart(src)
      decreases src.writePos - src.readPos, writer.writePos
    {
      var freeSize := writer.FreeSize();
      if freeSize >= src.writePos - src.readPos {
        Append(src.Data());
        return;
      }
      PushPart(src);
      PushData(src);
    }

    // Fills the writer up from the message, and flushes it.
    method PushPart(src: FixedBuffer)
      requires Valid() && src.Valid() && Apart(src) && writer.FreeSize() < src.writePos - src.readPos
      modifies this, src`readPos, writer, writer.memory
      ensures Valid() && src.Valid() && Apart(src) && Grown(old(repr))
      ensures Stream() + src.Data() == old(Stream()) + old(src.Data()) && sent == old(sent)
      ensures src.readPos == old(src.readPos) + old(writer.FreeSize()) && writer.FreeSize() > 0
    {
      var freeSize := writer.FreeSize();
      var part := src.Data()[..freeSize];
      ghost var data := src.Data();
      Append(part);
      src.SetReadPos(src.readPos + freeSize);
      assert data == part + src.Data();
      Joined(sent + Concat(given), old(writer.Data()), part, src.Data());
      FlushData();
    }

    ghost predicate Apart(src: FixedBuffer)
      reads this`repr, repr
    {
      src !in repr && forall b :: b in repr ==> b.memory != src.memory
    }

    // Writing touches nothing that is in flight.
    method Append(bytes: seq<Byte>)
      requires Valid() && |bytes| <= writer.FreeSize()
      modifies writer`writePos, writer.memory
      ensures Valid() && writer.Data() == old(writer.Data()) + bytes
      ensures writer.FreeSize() == old(writer.FreeSize()) - |bytes|
    {
      ghost var end, was := writer.writePos, writer.memory[..writer.writePos];
      var _ := writer.Write(bytes);
      forall i | 0 <= i < |inFlight| ensures Intact(inFlight[i], given[i]) {
        assert old(Intact(inFlight[i], given[i])) && Sane(inFlight[i], writer, pool, repr, bufferSize);
        if inFlight[i].buf == writer {
          ghost var off, len := inFlight[i].off, inFlight[i].len;
          assert given[i] == was[off..off + len];
          assert writer.memory[off..off + len] == writer.memory[..end][off..off + len];
        } else {
          assert inFlight[i].buf.memory != writer.memory;
        }
      }
    }
  }

  // What can happen to a link: a message is pushed, the reactor flushes, a write completes.
  datatype Event = Push(bytes: seq<Byte>) | Flush | Done

  function Pushed(event: Event): seq<Byte> {
    match event case Push(bytes) => bytes case _ => []
  }

  function Messages(events: seq<Event>): seq<Byte> {
    if events == [] then [] else Pushed(events[0]) + Messages(events[1..])
  }

  // Over every run, what the peer got is the beginning of what was pushed, in order, and the rest is
  // in flight or in the writer.
  method Run(link: LinkTcp, events: seq<Event>)
    requires link.Valid()
    modifies link, link.repr, set b | b in link.repr :: b.memory
    ensures link.Valid() && link.Stream() == old(link.Stream()) + Messages(events)
    ensures link.sent <= link.Stream() && old(link.sent) <= link.sent
    ensures link.Grown(old(link.repr))
    decreases |events|
  {
    if events == [] { return; }
    ghost var before := link.Stream();
    Handle(link, events[0]);
    Run(link, events[1..]);
    Together(before, Pushed(events[0]), Messages(events[1..]));
  }

  lemma Together(before: seq<Byte>, first: seq<Byte>, rest: seq<Byte>)
    ensures before + (first + rest) == before + first + rest
  {
  }

  method Handle(link: LinkTcp, event: Event)
    requires link.Valid()
    modifies link, link.repr, set b | b in link.repr :: b.memory
    ensures link.Valid() && link.Stream() == old(link.Stream()) + Pushed(event)
    ensures old(link.sent) <= link.sent
    ensures link.Grown(old(link.repr))
  {
    match event {
      case Push(bytes) =>
        var src := new FixedBuffer(|bytes|);
        var _ := src.Write(bytes);
        assert src.Data() == bytes;
        link.PushData(src);
      case Flush => link.FlushData();
      case Done => if link.inFlight != [] { link.Complete(); }
    }
  }

  // Flushed and with every write completed, the peer has everything.
  method Quiesce(link: LinkTcp)
    requires link.Valid()
    modifies link, link.repr, set b | b in link.repr :: b.memory
    ensures link.Valid() && link.Stream() == old(link.Stream()) && link.sent == link.Stream()
    ensures link.inFlight == [] && link.writingSize == 0
  {
    link.FlushData();
    while link.inFlight != []
      invariant link.Valid() && link.Stream() == old(link.Stream()) && link.writer.Data() == []
      invariant link.Grown(old(link.repr))
      decreases |link.inFlight|
    {
      link.Complete();
    }
  }
}
