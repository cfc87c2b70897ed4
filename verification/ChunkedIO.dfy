/** The descriptor end points of ChunkedIO.cc over byte pipes that may accept or deliver fewer
    bytes than asked, or none for now. */
module ChunkedIO {
  import opened Octets
  import opened Framing

  const MAX_BUFFERED_CHUNKS: nat := 500000

  const WOULD_BLOCK: int := -1

  /** One direction of a connection. An eager pipe always moves a byte if there is one to move. */
  class Pipe {
    const eager: bool
    var data: seq<Octet>
    var refusals: nat // calls that moved no byte although there was one
    var ends: nat // reads that reported the end of the stream

    constructor (eager: bool)
      ensures data == [] && this.eager == eager
    {
      this.eager := eager;
      data, refusals, ends := [], 0, 0;
    }

    /** Takes some of the bytes, or none for now. */
    method Write(buf: array<Octet>, off: nat, len: nat) returns (n: int)
      requires 0 < len && off + len <= buf.Length
      modifies this`data, this`refusals
      ensures n == WOULD_BLOCK || 1 <= n <= len
      ensures data == if n == WOULD_BLOCK then old(data) else old(data) + buf[off..off + n]
      ensures refusals == old(refusals) + if n == WOULD_BLOCK then 1 else 0
      ensures eager ==> n != WOULD_BLOCK
    {
      n := *;
      if eager && (n < 1 || n > len) { n := len; }
      if n < 1 || n > len {
        n := WOULD_BLOCK;
        refusals := refusals + 1;
      } else {
        data := data + buf[off..off + n];
      }
    }

    /** Delivers some of the bytes, or none for now; 0 is the end of the stream. */
    method Read(buf: array<Octet>, off: nat, len: nat) returns (n: int)
      requires off + len <= buf.Length
      modifies this, buf
      ensures n == WOULD_BLOCK || 0 <= n <= len
      ensures n == 0 ==> len == 0 || data == []
      ensures n <= 0 ==> data == old(data) && buf[..] == old(buf[..])
      ensures n > 0 ==> n <= old(|data|) && data == old(data)[n..]
      ensures n > 0 ==> buf[..off + n] == old(buf[..off]) + old(data)[..n]
      ensures refusals == old(refusals) + if n == WOULD_BLOCK && old(data) != [] then 1 else 0
      ensures eager && data != [] ==> n != WOULD_BLOCK
      ensures ends == old(ends) + if n == 0 && len != 0 then 1 else 0
    {
      n := *;
      if n < 0 || n > len || n > |data| || (n == 0 && len > 0 && data != []) { n := WOULD_BLOCK; }
      if n == WOULD_BLOCK && eager && data != [] { n := if len == 0 then 0 else 1; }
      if n == WOULD_BLOCK {
        refusals := refusals + if data != [] then 1 else 0;
      } else {
        Memcpy(buf, off, data[..n]);
        data := data[n..];
        ends := ends + if n == 0 && len != 0 then 1 else 0;
      }
    }
  }

  method Memcpy(buf: array<Octet>, off: nat, s: seq<Octet>)
    requires off + |s| <= buf.Length
    modifies buf
    ensures buf[..] == old(buf[..off]) + s + old(buf[off + |s|..])
  {
    forall i | 0 <= i < |s| {
      buf[off + i] := s[i];
    }
  }

  datatype FillEnd = Full | EndOfStream | NoMoreNow

  datatype WriteOutcome = Accepted | QueueFull | EmptyChunk

  class ChunkedIOFd {
    const incoming: Pipe
    const outgoing: Pipe
    const readBuffer: array<Octet>
    const writeBuffer: array<Octet>
    var readLen: nat
    var readPos: nat
    var partial: Option<Chunk>
    var writeLen: nat
    var writePos: nat
    var pending: seq<Part>
    var pendingCount: nat
    var eof: bool
    var failedReads: nat

    ghost predicate BufferValid()
      reads this`writeLen, this`writePos
    {
      && writeBuffer.Length == BUFFER_SIZE && writePos <= writeLen <= BUFFER_SIZE
      && (writePos == writeLen ==> writeLen == 0)
    }

    ghost predicate WriteValid()
      reads this`writeLen, this`writePos, this`pending, this`pendingCount
    {
      BufferValid() && AllOk(pending) && pendingCount == |pending|
    }

    ghost predicate ReadValid()
      reads this`readLen, this`readPos
    {
      readBuffer.Length == BUFFER_SIZE && readPos <= readLen <= BUFFER_SIZE
    }

    ghost predicate Valid()
      reads this
    {
      WriteValid() && ReadValid() && readBuffer != writeBuffer && incoming != outgoing
    }

    /** The bytes on the way out that are already framed. */
    ghost function Sent(): seq<Octet>
      reads this`writeLen, this`writePos, writeBuffer, outgoing
      requires BufferValid()
    {
      outgoing.data + writeBuffer[writePos..writeLen]
    }

    /** Everything on the way out. */
    ghost function Outbox(): seq<Octet>
      reads this`writeLen, this`writePos, this`pending, this`pendingCount, writeBuffer, outgoing
      requires WriteValid()
    {
      Sent() + Stream(pending)
    }

    ghost function Unread(): seq<Octet>
      reads this`readLen, this`readPos, readBuffer
      requires ReadValid()
    {
      readBuffer[readPos..readLen]
    }

    /** Everything on the way in that has left the sender. */
    ghost function Inbox(): seq<Octet>
      reads this`readLen, this`readPos, readBuffer, incoming
      requires ReadValid()
    {
      Unread() + incoming.data
    }

    constructor (incoming: Pipe, outgoing: Pipe)
      requires incoming != outgoing
      ensures Valid() && this.incoming == incoming && this.outgoing == outgoing
      ensures readLen == 0 && writeLen == 0 && pending == [] && partial == None
      ensures fresh(readBuffer) && fresh(writeBuffer)
    {
      this.incoming, this.outgoing := incoming, outgoing;
      readBuffer := new Octet[BUFFER_SIZE];
      writeBuffer := new Octet[BUFFER_SIZE];
      readLen, readPos, partial := 0, 0, None;
      writeLen, writePos, pending, pendingCount := 0, 0, [], 0;
      eof, failedReads := false, 0;
    }

    /** What is on the way out and has not reached the pipe. */
    ghost function Backlog(): seq<Octet>
      reads this`writeLen, this`writePos, this`pending, this`pendingCount, writeBuffer
      requires WriteValid()
    {
      writeBuffer[writePos..writeLen] + Stream(pending)
    }

    /** Nothing waits to be sent. */
    ghost predicate Clear()
      reads this`writeLen, this`pending
    {
      pending == [] && writeLen == 0
    }

    // ---- Writing ----

    /** Hands buffered bytes to the pipe until it is full or the buffer is empty. */
    method FlushWriteBuffer()
      requires BufferValid()
      modifies this`writeLen, this`writePos, outgoing
      ensures BufferValid() && Sent() == old(Sent())
      ensures writeLen == 0 || writeLen == old(writeLen)
      ensures outgoing.refusals >= old(outgoing.refusals)
      ensures writeLen > 0 ==> outgoing.refusals > old(outgoing.refusals)
      ensures outgoing.eager ==> outgoing.refusals == old(outgoing.refusals)
    {
      while writePos != writeLen
        invariant BufferValid() && Sent() == old(Sent())
        invariant writeLen == old(writeLen) && outgoing.refusals == old(outgoing.refusals)
        decreases writeLen - writePos
      {
        var len := writeLen - writePos;
        var written := outgoing.Write(writeBuffer, writePos, len);
        if written == WOULD_BLOCK {
          return;
        }
        Cut(writeBuffer[..], writePos, writePos + written, writeLen);
        if written == len {
          writePos, writeLen := 0, 0;
          return;
        }
        writePos := writePos + written;
      }
    }

    /** Frames a part into the buffer if it fits. */
    method PutIntoWriteBuffer(p: Part) returns (ok: bool)
      requires BufferValid() && PartOk(p)
      modifies this`writeLen, this`writePos, writeBuffer, outgoing
      ensures BufferValid() && ok == (old(writeLen) + 4 + |p.data| <= 1048576)
      ensures Sent() == if ok then old(Sent()) + Frame(p) else old(Sent())
      ensures var n := |p.data|;
              ok ==> Sent() == old(Sent()) +
                               ([if p.more then 0x80 else 0, n / 0x1_0000, n / 0x100 % 0x100, n % 0x100] + p.data)
      ensures !ok ==> writeLen == old(writeLen)
      ensures outgoing.refusals >= old(outgoing.refusals)
      ensures outgoing.eager ==> outgoing.refusals == old(outgoing.refusals)
    {
      if writeLen + |p.data| + HEADER > BUFFER_SIZE {
        return false;
      }
      FrameBytes(p);
      Append(PutWord(LenWord(p)));
      Append(p.data);
      var late: bool := *;
      if late { FlushWriteBuffer(); }
      return true;
    }

    method Append(s: seq<Octet>)
      requires BufferValid() && 0 < |s| && writeLen + |s| <= BUFFER_SIZE
      modifies this`writeLen, writeBuffer
      ensures BufferValid() && writeLen == old(writeLen) + |s| && Sent() == old(Sent()) + s
    {
      Memcpy(writeBuffer, writeLen, s);
      writeLen := writeLen + |s|;
    }

    /** Sends as much as the pipe takes and refills the buffer from the queue, until nothing is left
        or the pipe refuses. */
    method Flush()
      requires WriteValid()
      modifies this`writeLen, this`writePos, this`pending, this`pendingCount, writeBuffer, outgoing
      ensures WriteValid() && Outbox() == old(Outbox())
      ensures Clear() || outgoing.refusals > old(outgoing.refusals)
      ensures |pending| <= old(|pending|) && (old(Clear()) ==> Clear())
      ensures outgoing.eager ==> outgoing.refusals == old(outgoing.refusals)
    {
      hide Stream, Frame, Sent;
      while pending != []
        invariant WriteValid() && Outbox() == old(Outbox()) && outgoing.refusals >= old(outgoing.refusals)
        invariant |pending| <= old(|pending|) && (old(Clear()) ==> Clear())
        invariant outgoing.eager ==> outgoing.refusals == old(outgoing.refusals)
        decreases |pending|
      {
        FlushWriteBuffer();
        if writeLen > 0 {
          return;
        }
        ghost var before := |pending|;
        while pending != []
          invariant WriteValid() && Outbox() == old(Outbox()) && outgoing.refusals >= old(outgoing.refusals)
          invariant |pending| < before || (|pending| == before && writeLen == 0)
          invariant outgoing.eager ==> outgoing.refusals == old(outgoing.refusals)
          decreases |pending|
        {
          var p := pending[0];
          assert p in pending;
          StreamStep(pending);
          Assoc(Sent(), Frame(p), Stream(pending[1..]));
          var ok := PutIntoWriteBuffer(p);
          if !ok { break; }
          pending := pending[1..];
          pendingCount := pendingCount - 1;
        }
      }
      FlushWriteBuffer();
    }

    method WriteChunk(p: Part)
      requires WriteValid() && PartOk(p)
      modifies this`writeLen, this`writePos, this`pending, this`pendingCount, writeBuffer, outgoing
      ensures WriteValid() && Outbox() == old(Outbox()) + Frame(p) && |pending| <= old(|pending|) + 1
    {
      hide Stream, Frame, Sent, AllOk;
      if pending == [] {
        StreamEmpty();
        var ok := PutIntoWriteBuffer(p);
        if ok { return; }
      }
      StreamAppend(pending, [p]);
      StreamOne(p);
      Assoc(Sent(), Stream(pending), Frame(p));
      MoreOk(pending, p);
      pendingCount := pendingCount + 1;
      pending := pending + [p];
      Flush();
    }

    /** Accepts a chunk, cut into parts where it does not fit one frame. */
    method Write(c: Chunk) returns (r: WriteOutcome)
      requires WriteValid()
      modifies this`writeLen, this`writePos, this`pending, this`pendingCount, writeBuffer, outgoing
      ensures WriteValid()
      ensures r.QueueFull? <==> old(pendingCount) > 500000
      ensures r.Accepted? ==> c != []
      ensures r.EmptyChunk? ==> c == []
      ensures Outbox() == if r.Accepted? then old(Outbox()) + Stream(Split(c)) else old(Outbox())
      ensures r.Accepted? && |c| <= 1048572 ==>
                Outbox() == old(Outbox()) + ([0, |c| / 0x1_0000, |c| / 0x100 % 0x100, |c| % 0x100] + c)
      ensures |pending| <= old(|pending|) + if r.Accepted? then |Split(c)| else 0
      ensures !r.Accepted? && old(Clear()) ==> Clear()
    {
      if pendingCount > MAX_BUFFERED_CHUNKS {
        return QueueFull;
      }
      if c == [] {
        return EmptyChunk;
      }
      if |c| <= MAX_PART {
        StreamOne(Part(false, c));
        FrameBytes(Part(false, c));
        WriteChunk(Part(false, c));
        return Accepted;
      }
      WriteParts(c);
      return Accepted;
    }

    /** The loop over an oversized chunk. */
    method WriteParts(c: Chunk)
      requires WriteValid() && |c| > MAX_PART
      modifies this`writeLen, this`writePos, this`pending, this`pendingCount, writeBuffer, outgoing
      ensures WriteValid() && Outbox() == old(Outbox()) + Stream(Split(c))
      ensures |pending| <= old(|pending|) + |Split(c)|
    {
      hide Split, Stream, Frame, WriteValid, Outbox, PartsLeft, PartOk;
      var left := c;
      ghost var done: seq<Part> := [];
      StreamEmpty();
      PartsEnds(c);
      while left != []
        invariant WriteValid()
        invariant done + PartsLeft(left) == Split(c)
        invariant Outbox() == old(Outbox()) + Stream(done) && |pending| <= old(|pending|) + |done|
        decreases |left|
      {
        var n := if |left| < MAX_PART then |left| else MAX_PART;
        var part := Part(n < |left|, left[..n]);
        StreamAppend(done, [part]);
        StreamOne(part);
        PartsStep(left, part, n);
        Regroup(done, part, PartsLeft(left[n..]));
        Assoc(old(Outbox()), Stream(done), Frame(part));
        WriteChunk(part);
        done := done + [part];
        left := left[n..];
      }
      assert done + [] == done;
    }

    // ---- Reading ----

    /** The length word of the next frame if all of it has arrived, else 0. */
    method ChunkAvailable() returns (len: nat)
      requires ReadValid()
      ensures len == 0 <==> FirstPart(Unread()).None?
      ensures len != 0 ==> |Unread()| >= HEADER && len == GetWord(Unread())
    {
      hide GetWord;
      var bytesLeft := readLen - readPos;
      if bytesLeft < HEADER {
        return 0;
      }
      bytesLeft := bytesLeft - HEADER;
      len := GetWord(readBuffer[readPos..readLen]);
      if bytesLeft < len % FLAG_PARTIAL || len % FLAG_PARTIAL == 0 {
        return 0;
      }
    }

    method ExtractChunk() returns (r: Option<Part>)
      requires ReadValid()
      modifies this`readPos
      ensures ReadValid() && r == FirstPart(old(Unread()))
      ensures r.None? ==> readPos == old(readPos)
      ensures r.Some? ==> old(Unread()) == Frame(r.value) + Unread()
      ensures old(Inbox()) == if r.Some? then Frame(r.value) + Inbox() else Inbox()
    {
      hide GetWord, Frame;
      var len := ChunkAvailable();
      var realLen := len % FLAG_PARTIAL;
      if realLen == 0 {
        return None;
      }
      FirstPartBytes(Unread());
      readPos := readPos + HEADER;
      r := Some(Part(len >= FLAG_PARTIAL, readBuffer[readPos..readPos + realLen]));
      readPos := readPos + realLen;
      Slices(readBuffer[..], old(readPos), readLen, HEADER, HEADER + realLen);
    }

    /** Moves the bytes of an incomplete frame to the head of the buffer. */
    method MoveToHead()
      requires ReadValid()
      modifies this`readPos, this`readLen, readBuffer
      ensures ReadValid() && readPos == 0 && Unread() == old(Unread()) && Inbox() == old(Inbox())
    {
      var bytesLeft := readLen - readPos;
      Memcpy(readBuffer, 0, readBuffer[readPos..readLen]);
      readPos, readLen := 0, bytesLeft;
    }

    /** Reads until the buffer is full, or the pipe has no more for now or at all. */
    method FillBuffer() returns (why: FillEnd)
      requires ReadValid() && readPos == 0
      modifies this`readLen, this`failedReads, readBuffer, incoming
      ensures ReadValid() && Inbox() == old(Inbox())
      ensures why == Full ==> readLen == BUFFER_SIZE
      ensures why == EndOfStream ==> incoming.data == []
      ensures incoming.ends == old(incoming.ends) + if why == EndOfStream then 1 else 0
      ensures why != NoMoreNow ==> failedReads == 0
      ensures why == NoMoreNow ==> failedReads == 1 || failedReads == old(failedReads) + 1
      ensures why == NoMoreNow ==>
                failedReads > 0 && (incoming.data == [] || incoming.refusals > old(incoming.refusals))
      ensures incoming.eager ==> incoming.refusals == old(incoming.refusals)
    {
      while true
        invariant ReadValid() && readPos == 0 && Inbox() == old(Inbox()) && incoming.refusals == old(incoming.refusals)
        invariant incoming.ends == old(incoming.ends) && (failedReads == 0 || failedReads == old(failedReads))
        decreases BUFFER_SIZE - readLen
      {
        var len := BUFFER_SIZE - readLen;
        ghost var bytes := incoming.data;
        ghost var had := Unread();
        var n := incoming.Read(readBuffer, readLen, len);
        if n < 0 {
          failedReads := failedReads + 1;
          return NoMoreNow;
        }
        failedReads := 0;
        if n == 0 && len != 0 {
          return EndOfStream;
        }
        readLen := readLen + n;
        assert bytes == bytes[..n] + bytes[n..];
        assert Unread() == had + bytes[..n];
        if n == len {
          return Full;
        }
      }
    }

    /** The next part: from the buffer if it is complete there, else after reading more. */
    method ReadChunk() returns (ok: bool, r: Option<Part>)
      requires Valid()
      modifies this, readBuffer, writeBuffer, incoming, outgoing
      ensures Valid() && partial == old(partial) && Outbox() == old(Outbox()) && |pending| <= old(|pending|)
      ensures old(Clear()) ==> Clear()
      ensures r.None? ==> Inbox() == old(Inbox()) && FirstPart(Unread()).None?
      ensures r.None? ==>
                readLen - readPos == BUFFER_SIZE || incoming.data == [] || incoming.refusals > old(incoming.refusals)
      ensures r.Some? ==> ok && old(Inbox()) == Frame(r.value) + Inbox() && 1 <= |r.value.data| < FLAG_PARTIAL
      ensures if r.None? && incoming.ends > old(incoming.ends) then !ok && eof else ok && eof == old(eof)
      ensures incoming.eager ==> incoming.refusals == old(incoming.refusals)
    {
      hide Frame, FirstPart, Stream, Inbox, Outbox, Sent, Unread, Clear;
      Flush();
      r := ExtractChunk();
      if r.Some? {
        return true, r;
      }
      ok, r := ReadMore();
    }

    /** Reads into the buffer and takes the next part if it is complete then. */
    method ReadMore() returns (ok: bool, r: Option<Part>)
      requires ReadValid()
      modifies this`readPos, this`readLen, this`failedReads, this`eof, readBuffer, incoming
      ensures ReadValid()
      ensures r.None? ==> Inbox() == old(Inbox()) && FirstPart(Unread()).None?
      ensures r.None? ==>
                readLen - readPos == BUFFER_SIZE || incoming.data == [] || incoming.refusals > old(incoming.refusals)
      ensures r.Some? ==> ok && old(Inbox()) == Frame(r.value) + Inbox() && 1 <= |r.value.data| < FLAG_PARTIAL
      ensures if r.None? && incoming.ends > old(incoming.ends) then !ok && eof else ok && eof == old(eof)
      ensures incoming.eager ==> incoming.refusals == old(incoming.refusals)
    {
      hide Frame, FirstPart, Inbox, Unread;
      MoveToHead();
      var why := FillBuffer();
      r := ExtractChunk();
      if r.None? && why == EndOfStream {
        eof := true;
        return false, None;
      }
      return true, r;
    }

    /** The next chunk, joined from its parts, if its last part has arrived. */
    method Read() returns (ok: bool, chunk: Option<Chunk>, got: Option<Part>)
      requires Valid()
      modifies this, readBuffer, writeBuffer, incoming, outgoing
      ensures Valid() && Outbox() == old(Outbox()) && |pending| <= old(|pending|) && (old(Clear()) ==> Clear())
      ensures got.None? ==> Inbox() == old(Inbox()) && FirstPart(Unread()).None?
      ensures got.None? ==>
                readLen - readPos == BUFFER_SIZE || incoming.data == [] || incoming.refusals > old(incoming.refusals)
      ensures got.None? ==> chunk == None && partial == old(partial)
      ensures got.Some? ==> old(Inbox()) == Frame(got.value) + Inbox() && 1 <= |got.value.data| < FLAG_PARTIAL
      ensures got.Some? ==> Join(Joined([], old(partial)), got.value) == Joined(Delivered(chunk), partial)
      ensures if got.None? && incoming.ends > old(incoming.ends) then !ok && eof else ok && eof == old(eof)
      ensures incoming.eager ==> incoming.refusals == old(incoming.refusals)
    {
      hide Frame, FirstPart, Stream, Inbox, Outbox, Sent, Unread, Clear;
      Flush();
      var r;
      ok, r := ReadChunk();
      got := r;
      if !ok || r.None? {
        return ok, None, r;
      }
      var p := r.value;
      var c := if partial.Some? then partial.value + p.data else p.data;
      if !p.more {
        partial := None;
        return true, Some(c), r;
      }
      partial := Some(c);
      return true, None, r;
    }
  }

  function Delivered(chunk: Option<Chunk>): seq<Chunk> {
    if chunk.Some? then [chunk.value] else []
  }

  ghost function PartsLeft(left: Chunk): seq<Part> { if left == [] then [] else Split(left) }

  lemma PartsEnds(c: Chunk)
    requires c != []
    ensures PartsLeft(c) == Split(c) && PartsLeft([]) == []
  {}

  lemma PartsStep(left: Chunk, part: Part, n: nat)
    requires left != [] && n == (if |left| < MAX_PART then |left| else MAX_PART)
    requires part == Part(n < |left|, left[..n])
    ensures PartsLeft(left) == [part] + PartsLeft(left[n..]) && PartOk(part)
  {
    assert |left| <= MAX_PART ==> left[..n] == left;
  }

  lemma Slices(s: seq<Octet>, i: nat, k: nat, m: nat, n: nat)
    requires m <= n && i + n <= k <= |s|
    ensures s[i..k][m..n] == s[i + m..i + n]
    ensures s[i..k][n..] == s[i + n..k]
  {
    var t := s[i..k];
    assert forall j :: 0 <= j < k - i ==> t[j] == s[i + j];
  }

  lemma Regroup(a: seq<Part>, p: Part, b: seq<Part>)
    ensures a + ([p] + b) == a + [p] + b
  {}

  lemma StreamStep(ps: seq<Part>)
    requires ps != []
    ensures Stream(ps) == Frame(ps[0]) + Stream(ps[1..])
  {}

  lemma MoreOk(ps: seq<Part>, p: Part)
    requires AllOk(ps) && PartOk(p)
    ensures AllOk(ps + [p])
  {}

  lemma StreamEmpty()
    ensures Stream([]) == []
  {}

  lemma Cut(s: seq<Octet>, i: nat, j: nat, k: nat)
    requires i <= j <= k <= |s|
    ensures s[i..j] + s[j..k] == s[i..k]
  {}

  // ---- Two end points ----

  /** A call on one of the two end points, and what it answers. */
  datatype Op = Write(first: bool, chunk: Chunk) | Flush(first: bool) | Read(first: bool)

  /** With whether the pipe refused, and whether a read took a part. */
  datatype Answer =
    | Wrote(outcome: WriteOutcome)
    | Flushed(refused: bool)
    | Got(chunk: Option<Chunk>, took: bool, refused: bool)

  /** An answer that the call can give. */
  predicate Fits(op: Op, ans: Answer) {
    match op
    case Write(_, c) => ans.Wrote? && (ans.outcome.Accepted? ==> c != []) && (ans.outcome.EmptyChunk? ==> c == [])
    case Flush(_) => ans.Flushed?
    case Read(_) => ans.Got? && (ans.chunk.Some? ==> ans.took)
  }

  predicate Refused(ans: Answer) { !ans.Wrote? && ans.refused }

  /** The chunk that a call asks one side to write. */
  function Offer(op: Op, first: bool): seq<Chunk> { if op.Write? && op.first == first then [op.chunk] else [] }

  /** The same if it is accepted. */
  function Taken(op: Op, ans: Answer, first: bool): seq<Chunk> {
    if ans == Wrote(WriteOutcome.Accepted) then Offer(op, first) else []
  }

  /** The chunk that a call returns to one side. */
  function Gain(op: Op, ans: Answer, first: bool): seq<Chunk> {
    if op.Read? && op.first == first && ans.Got? then Delivered(ans.chunk) else []
  }

  /** The chunks that one side was asked to write in a run. */
  function Offered(ops: seq<Op>, first: bool): seq<Chunk> {
    if ops == [] then [] else var n := |ops| - 1; Offered(ops[..n], first) + Offer(ops[n], first)
  }

  /** Those of them that were accepted. */
  function Accepted(ops: seq<Op>, answers: seq<Answer>, first: bool): seq<Chunk>
    requires |answers| == |ops|
  {
    if ops == [] then []
    else var n := |ops| - 1; Accepted(ops[..n], answers[..n], first) + Taken(ops[n], answers[n], first)
  }

  /** The chunks that reads on one side returned. */
  function Returned(ops: seq<Op>, answers: seq<Answer>, first: bool): seq<Chunk>
    requires |answers| == |ops|
  {
    if ops == [] then []
    else var n := |ops| - 1; Returned(ops[..n], answers[..n], first) + Gain(ops[n], answers[n], first)
  }

  /** The number of parts that reads on one side took. */
  function PartsTaken(ops: seq<Op>, answers: seq<Answer>, first: bool): nat
    requires |answers| == |ops|
  {
    if ops == [] then 0
    else var n := |ops| - 1; PartsTaken(ops[..n], answers[..n], first) + Takes(ops[n], answers[n], first)
  }

  function Takes(op: Op, ans: Answer, first: bool): nat {
    if op.Read? && op.first == first && ans.Got? && ans.took then 1 else 0
  }

  /** How far one side's chunks have come: some may wait to be sent, all were sent, all were read. */
  datatype Stage = Sending | AllSent | AllRead

  /** A flush that is not refused sends everything; a read on the other side that then takes nothing
      without being refused has read everything. */
  function NextStage(stage: Stage, op: Op, ans: Answer, first: bool): Stage {
    if op.first == first && ans == Wrote(WriteOutcome.Accepted) then Sending
    else if op.first == first && ans == Flushed(false) && stage == Sending then AllSent
    else if op.first != first && ans.Got? && !ans.took && !ans.refused && stage == AllSent then AllRead
    else stage
  }

  function StageOf(ops: seq<Op>, answers: seq<Answer>, first: bool): Stage
    requires |answers| == |ops|
  {
    if ops == [] then AllRead
    else var n := |ops| - 1; NextStage(StageOf(ops[..n], answers[..n], first), ops[n], answers[n], first)
  }

  /** What one side has accepted and the other has returned: the chunks completed by as many of the
      accepted parts as its reads took, and that is all of them at the last stage. */
  ghost predicate Conveyed(ops: seq<Op>, answers: seq<Answer>, first: bool)
    requires |answers| == |ops|
  {
    var parts, n := SplitAll(Accepted(ops, answers, first)), PartsTaken(ops, answers, !first);
    && n <= |parts| && Returned(ops, answers, !first) == JoinAll(START, parts[..n]).chunks
    && (StageOf(ops, answers, first) == AllRead ==> n == |parts|)
  }

  /** The same at every moment of a run. */
  ghost predicate RunOk(ops: seq<Op>, answers: seq<Answer>) {
    && |answers| == |ops|
    && forall i, first :: 0 <= i <= |ops| ==> Conveyed(ops[..i], answers[..i], first)
  }

  lemma RunMore(ops: seq<Op>, answers: seq<Answer>, i: nat, ans: Answer)
    requires i < |ops| && |answers| == i && RunOk(ops[..i], answers)
    requires Conveyed(ops[..i + 1], answers + [ans], true) && Conveyed(ops[..i + 1], answers + [ans], false)
    ensures RunOk(ops[..i + 1], answers + [ans])
  {
    hide Conveyed;
    var os, as_ := ops[..i + 1], answers + [ans];
    forall j, first | 0 <= j <= i + 1
      ensures Conveyed(os[..j], as_[..j], first)
    {
      if j <= i {
        assert os[..j] == ops[..i][..j] && as_[..j] == answers[..j];
      } else {
        assert os[..j] == os && as_[..j] == as_;
      }
    }
  }

  /** Chunks are returned in order and whole, and all of them exactly if all parts were taken. */
  lemma ConveyedInOrder(ops: seq<Op>, answers: seq<Answer>, first: bool)
    requires |answers| == |ops| && Conveyed(ops, answers, first)
    ensures Returned(ops, answers, !first) <= Accepted(ops, answers, first)
    ensures Returned(ops, answers, !first) == Accepted(ops, answers, first) <==>
            PartsTaken(ops, answers, !first) == |SplitAll(Accepted(ops, answers, first))|
    ensures StageOf(ops, answers, first) == AllRead ==>
              Returned(ops, answers, !first) == Accepted(ops, answers, first)
  {
    hide SplitAll, JoinAll, Accepted, Returned, PartsTaken, StageOf;
    var cs, n := Accepted(ops, answers, first), PartsTaken(ops, answers, !first);
    var parts := SplitAll(cs);
    assert parts == parts[..n] + parts[n..];
    JoinedIsPrefix(cs, parts[..n], parts[n..]);
    JoinedAll(cs, parts[..n], parts[n..]);
  }

  /** Answers fit their calls, and a write meets a full queue only after more parts of that side have
      been accepted than the queue holds. */
  ghost predicate AnswersOk(ops: seq<Op>, answers: seq<Answer>) {
    && |answers| == |ops|
    && forall i :: 0 <= i < |ops| ==>
         && Fits(ops[i], answers[i])
         && (answers[i] == Wrote(QueueFull) ==>
               |SplitAll(Accepted(ops[..i], answers[..i], ops[i].first))| > MAX_BUFFERED_CHUNKS)
  }

  lemma AnswersMore(ops: seq<Op>, answers: seq<Answer>, i: nat, ans: Answer)
    requires i < |ops| && |answers| == i && AnswersOk(ops[..i], answers) && Fits(ops[i], ans)
    requires ans == Wrote(QueueFull) ==> |SplitAll(Accepted(ops[..i], answers, ops[i].first))| > MAX_BUFFERED_CHUNKS
    ensures AnswersOk(ops[..i + 1], answers + [ans])
  {
    hide SplitAll, Fits, Accepted;
    var os, as_ := ops[..i + 1], answers + [ans];
    assert os[..i] == ops[..i] && as_[..i] == answers;
    forall j | 0 <= j < i
      ensures os[..j] == ops[..i][..j] && as_[..j] == answers[..j] && os[j] == ops[..i][j] && as_[j] == answers[j]
    {}
  }

  lemma TalliesMore(ops: seq<Op>, answers: seq<Answer>, i: nat, ans: Answer)
    requires i < |ops| && |answers| == i
    ensures var os, as_ := ops[..i + 1], answers + [ans];
            forall first ::
              && Accepted(os, as_, first) == Accepted(ops[..i], answers, first) + Taken(ops[i], ans, first)
              && Returned(os, as_, first) == Returned(ops[..i], answers, first) + Gain(ops[i], ans, first)
              && PartsTaken(os, as_, first) == PartsTaken(ops[..i], answers, first) + Takes(ops[i], ans, first)
              && StageOf(os, as_, first) == NextStage(StageOf(ops[..i], answers, first), ops[i], ans, first)
  {
    hide Taken, Gain, Takes, NextStage;
    var os, as_ := ops[..i + 1], answers + [ans];
    assert os[..i] == ops[..i] && as_[..i] == answers;
  }

  lemma OfferParts(cs: seq<Chunk>, op: Op, first: bool)
    ensures |SplitAll(cs)| <= |SplitAll(cs + Offer(op, first))|
  {
    hide Split;
    if Offer(op, first) == [] {
      assert cs + [] == cs;
    } else {
      SplitAllAppend(cs, op.chunk);
    }
  }

  /** A side that offers no empty chunk and no more parts than the queue holds has everything accepted. */
  lemma {:induction false} NoneRefused(ops: seq<Op>, answers: seq<Answer>, first: bool)
    requires AnswersOk(ops, answers) && |SplitAll(Offered(ops, first))| <= MAX_BUFFERED_CHUNKS
    requires [] !in Offered(ops, first)
    ensures Accepted(ops, answers, first) == Offered(ops, first)
  {
    hide SplitAll, AnswersOk;
    if ops != [] {
      var n := |ops| - 1;
      AnswersFewer(ops, answers);
      OfferParts(Offered(ops[..n], first), ops[n], first);
      assert forall c :: c in Offered(ops[..n], first) + Offer(ops[n], first) ==> c in Offered(ops, first);
      NoneRefused(ops[..n], answers[..n], first);
      if ops[n].Write? && ops[n].first == first {
        assert Offer(ops[n], first)[0] == ops[n].chunk;
        assert ops[n].chunk in Offered(ops, first);
      }
    }
  }

  lemma AnswersFewer(ops: seq<Op>, answers: seq<Answer>)
    requires AnswersOk(ops, answers) && ops != []
    ensures |answers| == |ops|
    ensures var n := |ops| - 1;
            && AnswersOk(ops[..n], answers[..n]) && Fits(ops[n], answers[n])
            && (answers[n] == Wrote(QueueFull) ==>
                  |SplitAll(Accepted(ops[..n], answers[..n], ops[n].first))| > MAX_BUFFERED_CHUNKS)
  {
    hide SplitAll, Fits, Accepted;
    var n := |ops| - 1;
    forall j | 0 <= j < n
      ensures ops[..n][..j] == ops[..j] && answers[..n][..j] == answers[..j]
    {}
  }

  lemma StartAnswers(ops: seq<Op>)
    ensures AnswersOk(ops[..0], [])
    ensures forall first :: Accepted(ops[..0], [], first) == [] && Returned(ops[..0], [], first) == []
    ensures forall first :: PartsTaken(ops[..0], [], first) == 0 && StageOf(ops[..0], [], first) == AllRead
    ensures RunOk(ops[..0], [])
  {}

  /** s sends to r. */
  ghost predicate Connected(s: ChunkedIOFd, r: ChunkedIOFd, f: Flow)
    reads s, r, s.writeBuffer, r.readBuffer, s.outgoing
  {
    && s.WriteValid() && r.ReadValid() && s.outgoing == r.incoming && |s.pending| <= |SplitAll(f.accepted)|
    && FlowOk(f, r.Unread() + s.Outbox(), r.partial)
  }

  /** What s and its flow have come to at a stage. */
  ghost predicate StageOk(s: ChunkedIOFd, f: Flow, stage: Stage)
    reads s`writeLen, s`pending
  {
    (stage != Sending ==> s.Clear()) && (stage == AllRead ==> f.todo == [])
  }

  lemma InFlight(s: ChunkedIOFd, r: ChunkedIOFd)
    requires s.WriteValid() && r.ReadValid() && s.outgoing == r.incoming
    ensures r.Unread() + s.Outbox() == r.Inbox() + s.Backlog()
  {
    hide Stream;
  }

  /** The separate objects of two connected end points. */
  ghost predicate Apart(a: ChunkedIOFd, b: ChunkedIOFd)
    reads a, b
  {
    && a.Valid() && b.Valid() && a != b
    && a.outgoing == b.incoming && b.outgoing == a.incoming
    && a.readBuffer != b.readBuffer && a.readBuffer != b.writeBuffer
    && a.writeBuffer != b.readBuffer && a.writeBuffer != b.writeBuffer
  }

  /** A write or flush on s. */
  method Send(s: ChunkedIOFd, r: ChunkedIOFd, op: Op, ghost out: Flow, ghost back: Flow, ghost stage: Stage)
    returns (ans: Answer, ghost out': Flow)
    requires (op.Write? || op.Flush?) && StageOk(s, out, stage)
    requires Apart(s, r) && Connected(s, r, out) && Connected(r, s, back)
    modifies s, s.writeBuffer, s.outgoing
    ensures Apart(s, r) && Connected(s, r, out') && Connected(r, s, back)
    ensures Fits(op, ans) && out'.delivered == out.delivered && out'.done == out.done
    ensures s.outgoing.eager ==> !Refused(ans)
    ensures StageOk(s, out', NextStage(stage, op, ans, op.first))
    ensures out'.accepted == out.accepted + if ans == Wrote(WriteOutcome.Accepted) then [op.chunk] else []
    ensures ans == Wrote(QueueFull) ==> |SplitAll(out.accepted)| > MAX_BUFFERED_CHUNKS
  {
    hide Stream, Split, SplitAll, FlowOk, FirstPart;
    out' := out;
    match op
    case Flush(_) =>
      var refusals := s.outgoing.refusals;
      s.Flush();
      ans := Flushed(s.outgoing.refusals > refusals);
    case Write(_, c) =>
      ghost var before := s.Outbox();
      var w := s.Write(c);
      ans := Wrote(w);
      if w.Accepted? {
        FlowWrite(out, r.Unread() + before, r.partial, c);
        Assoc(r.Unread(), before, Stream(Split(c)));
        SplitAllAppend(out.accepted, c);
        out' := Flow(out.accepted + [c], out.done, out.todo + Split(c), out.delivered);
      }
  }

  /** A full read buffer is never without a frame. */
  lemma NotStuck(s: ChunkedIOFd, r: ChunkedIOFd, f: Flow)
    requires Connected(s, r, f) && FirstPart(r.Unread()).None?
    ensures r.readLen - r.readPos != BUFFER_SIZE
  {
    hide Stream, FirstPart, SplitAll;
    if r.readLen - r.readPos == BUFFER_SIZE { FullBufferHasFrame(f.todo, r.Unread(), s.Outbox()); }
  }

  /** A read on r; it takes nothing only if the pipe is empty or refuses. */
  method Receive(s: ChunkedIOFd, r: ChunkedIOFd, ghost out: Flow, ghost back: Flow)
    returns (chunk: Option<Chunk>, took: bool, refused: bool, ghost out': Flow)
    requires Apart(s, r) && Connected(s, r, out) && Connected(r, s, back)
    modifies r, r.readBuffer, r.writeBuffer, r.incoming, r.outgoing
    ensures Apart(s, r) && Connected(s, r, out') && Connected(r, s, back) && (old(r.Clear()) ==> r.Clear())
    ensures out'.accepted == out.accepted && out'.delivered == out.delivered + Delivered(chunk)
    ensures if took then out.todo != [] && |out'.done| == |out.done| + 1 else out' == out && chunk == None
    ensures !took && !refused ==> r.incoming.data == [] && FirstPart(r.Unread()).None?
    ensures refused <==> r.incoming.refusals > old(r.incoming.refusals)
    ensures refused ==> !r.incoming.eager
  {
    hide Stream, FlowOk, FirstPart, Frame, Join, SplitAll;
    InFlight(s, r);
    ghost var partial := r.partial;
    var refusals := r.incoming.refusals;
    var ok, got;
    ok, chunk, got := r.Read();
    InFlight(s, r);
    took, refused := got.Some?, r.incoming.refusals > refusals;
    if got.Some? {
      Assoc(Frame(got.value), r.Inbox(), s.Backlog());
      FlowRead(out, r.Inbox() + s.Backlog(), got.value, partial, Joined(Delivered(chunk), r.partial));
      out' := Flow(out.accepted, out.done + [got.value], out.todo[1..], out.delivered + Delivered(chunk));
    } else {
      out' := out;
      NotStuck(s, r, out);
    }
  }

  /** Nothing waits, nothing is on the way and no frame is left. */
  lemma Quiet(s: ChunkedIOFd, r: ChunkedIOFd, f: Flow)
    requires Connected(s, r, f) && s.Clear() && s.outgoing.data == [] && FirstPart(r.Unread()).None?
    ensures f.todo == []
  {
    hide Stream, FirstPart, SplitAll;
    StreamEmpty();
    assert r.Unread() + s.Outbox() == r.Unread();
    NothingLost(f, r.Unread(), r.partial);
  }

  /** A read on r with the answer that it gives. */
  method Answered(s: ChunkedIOFd, r: ChunkedIOFd, op: Op, ghost out: Flow, ghost back: Flow,
                  ghost stage: Stage, ghost other: Stage)
    returns (ans: Answer, ghost out': Flow)
    requires op.Read? && Apart(s, r) && Connected(s, r, out) && Connected(r, s, back)
    requires StageOk(s, out, stage) && StageOk(r, back, other)
    modifies r, r.readBuffer, r.writeBuffer, r.incoming, r.outgoing
    ensures Apart(s, r) && Connected(s, r, out') && Connected(r, s, back) && Fits(op, ans)
    ensures out'.accepted == out.accepted && out'.delivered == out.delivered + Gain(op, ans, op.first)
    ensures |out'.done| == |out.done| + Takes(op, ans, op.first) && (r.incoming.eager ==> !Refused(ans))
    ensures StageOk(s, out', NextStage(stage, op, ans, !op.first)) && StageOk(r, back, other)
  {
    hide Stream, FlowOk, FirstPart, Connected, SplitAll;
    var chunk, took, refused;
    chunk, took, refused, out' := Receive(s, r, out, back);
    ans := Got(chunk, took, refused);
    if stage == AllSent && !took && !refused { Quiet(s, r, out'); }
  }

  /** One call on one of the two end points a and b. */
  method Call(a: ChunkedIOFd, b: ChunkedIOFd, op: Op, ghost fa: Flow, ghost fb: Flow, ghost ga: Stage, ghost gb: Stage)
    returns (ans: Answer, ghost fa': Flow, ghost fb': Flow)
    requires Apart(a, b) && Connected(a, b, fa) && Connected(b, a, fb) && StageOk(a, fa, ga) && StageOk(b, fb, gb)
    modifies a, b, a.readBuffer, a.writeBuffer, b.readBuffer, b.writeBuffer, a.incoming, a.outgoing
    ensures Apart(a, b) && Connected(a, b, fa') && Connected(b, a, fb') && Fits(op, ans)
    ensures fa'.accepted == fa.accepted + Taken(op, ans, true) && fa'.delivered == fa.delivered + Gain(op, ans, false)
    ensures fb'.accepted == fb.accepted + Taken(op, ans, false) && fb'.delivered == fb.delivered + Gain(op, ans, true)
    ensures |fa'.done| == |fa.done| + Takes(op, ans, false) && |fb'.done| == |fb.done| + Takes(op, ans, true)
    ensures StageOk(a, fa', NextStage(ga, op, ans, true)) && StageOk(b, fb', NextStage(gb, op, ans, false))
    ensures ans == Wrote(QueueFull) ==> |SplitAll(if op.first then fa.accepted else fb.accepted)| > MAX_BUFFERED_CHUNKS
    ensures a.incoming.eager && a.outgoing.eager ==> !Refused(ans)
  {
    hide FlowOk, Connected, SplitAll;
    fa', fb' := fa, fb;
    if op.Read? {
      if op.first {
        ans, fb' := Answered(b, a, op, fb, fa, gb, ga);
      } else {
        ans, fa' := Answered(a, b, op, fa, fb, ga, gb);
      }
    } else if op.first {
      ans, fa' := Send(a, b, op, fa, fb, ga);
    } else {
      ans, fb' := Send(b, a, op, fb, fa, gb);
    }
  }

  /** Call i of a run. */
  method NextCall(a: ChunkedIOFd, b: ChunkedIOFd, ops: seq<Op>, i: nat, ghost answers: seq<Answer>,
                  ghost fa: Flow, ghost fb: Flow)
    returns (ans: Answer, ghost fa': Flow, ghost fb': Flow)
    requires i < |ops| && |answers| == i && Apart(a, b)
    requires Moment(a, b, fa, ops[..i], answers, true) && Moment(b, a, fb, ops[..i], answers, false)
    requires AnswersOk(ops[..i], answers) && RunOk(ops[..i], answers)
    modifies a, b, a.readBuffer, a.writeBuffer, b.readBuffer, b.writeBuffer, a.incoming, a.outgoing
    ensures Apart(a, b) && (a.incoming.eager && a.outgoing.eager ==> !Refused(ans))
    ensures Moment(a, b, fa', ops[..i + 1], answers + [ans], true)
    ensures Moment(b, a, fb', ops[..i + 1], answers + [ans], false)
    ensures AnswersOk(ops[..i + 1], answers + [ans]) && RunOk(ops[..i + 1], answers + [ans])
  {
    hide FlowOk, Connected, Fits, SplitAll, AnswersOk, RunOk, Accepted, Returned, Taken, Gain, Takes,
         PartsTaken, StageOf, NextStage, StageOk, Conveyed, Refused;
    ghost var ga, gb := StageOf(ops[..i], answers, true), StageOf(ops[..i], answers, false);
    ans, fa', fb' := Call(a, b, ops[i], fa, fb, ga, gb);
    AnswersMore(ops, answers, i, ans);
    TalliesMore(ops, answers, i, ans);
    Conveys(a, b, fa', ops[..i + 1], answers + [ans], true);
    Conveys(b, a, fb', ops[..i + 1], answers + [ans], false);
    RunMore(ops, answers, i, ans);
  }

  /** Any run of calls on two connected end points, whatever the pipes take and deliver at each
      call. At every moment each side has returned, in order and unchanged, the first of the chunks
      the other side accepted, as many as the parts it took make up, and all of them once a flush
      and then a read that takes nothing were not refused. Everything offered is accepted unless a
      chunk is empty or the queue is full. Eager pipes refuse nothing. */
  method Session(ops: seq<Op>, eager: bool) returns (answers: seq<Answer>, idleA: bool, idleB: bool)
    ensures AnswersOk(ops, answers) && RunOk(ops, answers)
    ensures eager ==> forall i :: 0 <= i < |ops| ==> !Refused(answers[i])
    ensures forall first :: Returned(ops, answers, !first) <= Accepted(ops, answers, first)
    ensures forall first :: StageOf(ops, answers, first) == AllRead ==>
              Returned(ops, answers, !first) == Accepted(ops, answers, first)
    ensures idleA <==> Returned(ops, answers, false) == Accepted(ops, answers, true)
    ensures idleB <==> Returned(ops, answers, true) == Accepted(ops, answers, false)
    ensures forall first :: |SplitAll(Offered(ops, first))| <= MAX_BUFFERED_CHUNKS && [] !in Offered(ops, first) ==>
              Accepted(ops, answers, first) == Offered(ops, first)
  {
    hide FlowOk, Connected, SplitAll, AnswersOk, RunOk, Accepted, Returned, Offered, PartsTaken, StageOf, StageOk,
         Conveyed, Refused;
    StartAnswers(ops);
    var ab := new Pipe(eager);
    var ba := new Pipe(eager);
    var a := new ChunkedIOFd(ba, ab);
    var b := new ChunkedIOFd(ab, ba);
    ghost var fa, fb := Flow([], [], [], []), Flow([], [], [], []);
    answers := [];
    Fresh(a, b);
    Fresh(b, a);
    for i := 0 to |ops|
      invariant fresh(a) && fresh(b) && fresh(a.readBuffer) && fresh(a.writeBuffer) && fresh(b.readBuffer)
      invariant fresh(b.writeBuffer) && fresh(a.incoming) && fresh(a.outgoing) && fresh(b.incoming) && fresh(b.outgoing)
      invariant Apart(a, b) && |answers| == i && a.incoming.eager == eager && a.outgoing.eager == eager
      invariant eager ==> forall j :: 0 <= j < i ==> !Refused(answers[j])
      invariant Moment(a, b, fa, ops[..i], answers, true) && Moment(b, a, fb, ops[..i], answers, false)
      invariant AnswersOk(ops[..i], answers) && RunOk(ops[..i], answers)
    {
      var ans;
      ans, fa, fb := NextCall(a, b, ops, i, answers, fa, fb);
      answers := answers + [ans];
    }
    assert ops[..|ops|] == ops;
    Conveys(a, b, fa, ops, answers, true);
    Conveys(b, a, fb, ops, answers, false);
    ConveyedInOrder(ops, answers, true);
    ConveyedInOrder(ops, answers, false);
    idleA := Idle(a, b, fa);
    idleB := Idle(b, a, fb);
    forall first | |SplitAll(Offered(ops, first))| <= MAX_BUFFERED_CHUNKS && [] !in Offered(ops, first)
      ensures Accepted(ops, answers, first) == Offered(ops, first)
    {
      NoneRefused(ops, answers, first);
    }
  }

  /** n reads on one side. */
  function Reads(n: nat, first: bool): seq<Op> { if n == 0 then [] else Reads(n - 1, first) + [Read(first)] }

  /** An unrefused read after everything was sent takes a part, or all have been read. */
  lemma ReadProgress(ops: seq<Op>, answers: seq<Answer>, first: bool)
    requires |answers| == |ops| && ops != []
    requires var n := |ops| - 1; ops[n] == Read(!first) && Fits(ops[n], answers[n]) && !Refused(answers[n])
    requires StageOf(ops[..|ops| - 1], answers[..|ops| - 1], first) != Sending
    ensures var n := |ops| - 1;
            && StageOf(ops, answers, first) != Sending
            && (StageOf(ops, answers, first) == AllSent ==>
                  && StageOf(ops[..n], answers[..n], first) == AllSent
                  && PartsTaken(ops, answers, !first) == PartsTaken(ops[..n], answers[..n], !first) + 1)
  {}

  lemma {:induction false} ReadsProgress(ops: seq<Op>, answers: seq<Answer>, first: bool, k: nat)
    requires |answers| == |ops| + k && AnswersOk(ops + Reads(k, !first), answers)
    requires forall i :: |ops| <= i < |answers| ==> !Refused(answers[i])
    requires StageOf(ops, answers[..|ops|], first) != Sending
    ensures var all := ops + Reads(k, !first);
            && StageOf(all, answers, first) != Sending
            && (StageOf(all, answers, first) == AllSent ==> PartsTaken(all, answers, !first) >= k)
  {
    ReadsStep(ops, k, !first);
    ReadsLength(k, !first);
    hide SplitAll, StageOf, PartsTaken, Fits, Refused, AnswersOk, Reads;
    var all := ops + Reads(k, !first);
    if k == 0 {
      assert answers[..|ops|] == answers;
    } else {
      var n := |all| - 1;
      AnswersFewer(all, answers);
      assert answers[..n][..|ops|] == answers[..|ops|];
      ReadsProgress(ops, answers[..n], first, k - 1);
      ReadProgress(all, answers, first);
    }
  }

  lemma ReadsStep(ops: seq<Op>, k: nat, first: bool)
    ensures if k == 0 then ops + Reads(k, first) == ops
            else var all := ops + Reads(k, first);
                 var n := |all| - 1; n >= 0 && all[..n] == ops + Reads(k - 1, first) && all[n] == Read(first)
  {}

  /** A flush and more reads on the other side than there are parts, none of them refused, deliver
      everything that was accepted. */
  lemma AllDelivered(ops: seq<Op>, answers: seq<Answer>, first: bool, k: nat)
    requires var all := ops + [Flush(first)] + Reads(k, !first);
             AnswersOk(all, answers) && RunOk(all, answers) && k > |SplitAll(Accepted(all, answers, first))|
    requires forall i :: |ops| <= i < |answers| ==> !Refused(answers[i])
    ensures var all := ops + [Flush(first)] + Reads(k, !first);
            Returned(all, answers, !first) == Accepted(all, answers, first)
  {
    var sent := ops + [Flush(first)];
    var all, n := sent + Reads(k, !first), |ops|;
    assert Fits(all[n], answers[n]);
    assert all[n] == Flush(first) && answers[n] == Flushed(false);
    assert sent[..n] == ops;
    hide AnswersOk, SplitAll, Conveyed;
    ReadsLength(k, !first);
    ReadsProgress(sent, answers, first, k);
    assert all[..|all|] == all && answers[..|all|] == answers;
    ConveyedInOrder(all, answers, first);
    TakenFew(all, answers, first);
  }

  lemma {:induction false} ReadsLength(k: nat, first: bool)
    ensures |Reads(k, first)| == k
  {
    if k > 0 { ReadsLength(k - 1, first); }
  }

  lemma TakenFew(ops: seq<Op>, answers: seq<Answer>, first: bool)
    requires |answers| == |ops| && Conveyed(ops, answers, first)
    ensures PartsTaken(ops, answers, !first) <= |SplitAll(Accepted(ops, answers, first))|
  {}

  /** The direction from s to r after a run, s being the first end point or not. */
  ghost predicate Moment(s: ChunkedIOFd, r: ChunkedIOFd, f: Flow, ops: seq<Op>, answers: seq<Answer>, first: bool)
    reads s, r, s.writeBuffer, r.readBuffer, s.outgoing
  {
    && |answers| == |ops| && Connected(s, r, f) && StageOk(s, f, StageOf(ops, answers, first))
    && f.accepted == Accepted(ops, answers, first) && f.delivered == Returned(ops, answers, !first)
    && |f.done| == PartsTaken(ops, answers, !first)
  }

  lemma Conveys(s: ChunkedIOFd, r: ChunkedIOFd, f: Flow, ops: seq<Op>, answers: seq<Answer>, first: bool)
    requires Moment(s, r, f, ops, answers, first)
    ensures Conveyed(ops, answers, first)
  {
    hide SplitAll, JoinAll, Stream, Accepted, Returned, PartsTaken, StageOf;
    assert (f.done + f.todo)[..|f.done|] == f.done;
  }

  /** Whether s has nothing to send and r nothing to return; exactly then everything was delivered. */
  method Idle(s: ChunkedIOFd, r: ChunkedIOFd, ghost f: Flow) returns (idle: bool)
    requires Connected(s, r, f)
    ensures idle <==> f.delivered == f.accepted
  {
    hide Stream;
    var len := r.ChunkAvailable();
    idle := len == 0 && s.writeLen == 0 && s.pending == [] && s.outgoing.data == [];
    if idle {
      StreamEmpty();
      assert r.Unread() + s.Outbox() == r.Unread();
      NothingLost(f, r.Unread(), r.partial);
    } else if f.delivered == f.accepted {
      NoneLeft(s, r, f);
    }
  }

  lemma NoneLeft(s: ChunkedIOFd, r: ChunkedIOFd, f: Flow)
    requires Connected(s, r, f) && f.delivered == f.accepted
    ensures r.Unread() == [] && s.Clear() && s.outgoing.data == []
  {
    hide SplitAll, FirstPart, JoinAll;
    JoinedAll(f.accepted, f.done, f.todo);
    assert Stream(f.todo) == [];
    assert |r.Unread() + s.Outbox()| == 0;
    hide Stream;
    Solid(s.pending);
  }

  lemma Solid(ps: seq<Part>)
    requires Stream(ps) == []
    ensures ps == []
  {
    if ps != [] { StreamLength(ps); }
  }

  lemma Fresh(s: ChunkedIOFd, r: ChunkedIOFd)
    requires s.WriteValid() && r.ReadValid() && s.outgoing == r.incoming && s.outgoing.data == []
    requires s.writeLen == 0 && s.pending == [] && r.readLen == 0 && r.partial == None
    ensures Connected(s, r, Flow([], [], [], [])) && StageOk(s, Flow([], [], [], []), AllRead)
  {
    NoFlow();
  }
}
