/** A poll-based byte stream over promise-based JavaScript reads and writes. */
module JsProxyStream {
  import opened Bytes

  // ---- The JavaScript side ----

  /** How one reader.read() promise settles: a chunk, the end, a rejection, or a
      result without a Uint8Array in it. */
  datatype ReadOutcome = Chunk(bytes: seq<byte>) | EndOfStream | Rejected | Malformed

  /** The reader: the outcomes of its reads, in order. */
  class JsReader {
    var outcomes: seq<ReadOutcome>
    /** Reads asked for and reads settled: at most one is ever outstanding. */
    ghost var issued: nat
    ghost var settled: nat

    constructor (outcomes: seq<ReadOutcome>)
      ensures this.outcomes == outcomes && issued == settled == 0
    {
      this.outcomes, issued, settled := outcomes, 0, 0;
    }

    method Issue()
      requires issued == settled
      modifies this`issued
      ensures issued == old(issued) + 1
    {
      issued := issued + 1;
    }

    /** Poll the outstanding read: it settles when JavaScript gets to it. */
    method Poll() returns (r: Option<ReadOutcome>)
      requires issued == settled + 1
      modifies this`outcomes, this`settled
      ensures r.None? ==> outcomes == old(outcomes) && settled == old(settled)
      ensures r.Some? ==> old(outcomes) == [r.value] + outcomes && settled == old(settled) + 1
    {
      var ready := *;
      if !ready || outcomes == [] {
        return None;
      }
      r := Some(outcomes[0]);
      outcomes := outcomes[1..];
      settled := settled + 1;
    }
  }

  datatype WriteOp = WriteChunk(bytes: seq<byte>) | CloseWriter

  datatype PollUnit = StillPending | Finished | Failed

  /** What JavaScript answers to the next poll. */
  function Next(polls: seq<PollUnit>): PollUnit { if polls == [] then StillPending else polls[0] }

  /** The writer: the operations issued, in order, and how many have settled. */
  class JsWriter {
    /** What polls of outstanding operations will find, one after the other. */
    var polls: seq<PollUnit>
    ghost var log: seq<WriteOp>
    ghost var settled: nat
    ghost var closeRejected: bool

    constructor (polls: seq<PollUnit>)
      ensures this.polls == polls && log == [] && settled == 0 && !closeRejected
    {
      this.polls, log, settled, closeRejected := polls, [], 0, false;
    }

    /** Nothing is issued while an operation is outstanding, and close only once. */
    method Issue(op: WriteOp)
      requires settled == |log|
      requires op.CloseWriter? ==> CloseWriter !in log
      modifies this`log
      ensures log == old(log) + [op]
    {
      log := log + [op];
    }

    method Poll() returns (r: PollUnit)
      requires settled + 1 == |log|
      modifies this`polls, this`settled, this`closeRejected
      ensures r == Next(old(polls))
      ensures r.StillPending? ==> settled == old(settled)
      ensures !r.StillPending? ==> settled == old(settled) + 1
      ensures closeRejected == (old(closeRejected) || (r.Failed? && log[|log| - 1].CloseWriter?))
    {
      r := Next(polls);
      polls := if polls == [] then [] else polls[1..];
      if r.StillPending? {
        return;
      }
      settled := settled + 1;
      closeRejected := closeRejected || (r.Failed? && log[|log| - 1].CloseWriter?);
    }
  }

  // ---- The stream ----

  datatype PollBytes = Pending | Ready(bytes: seq<byte>) | ReadError
  datatype PollCount = WritePending | Accepted(n: nat) | WriteError

  /** The bytes JavaScript has for the reader: chunks up to the end or to a
      rejection; a malformed result is reported and skipped. */
  function Content(outcomes: seq<ReadOutcome>): seq<byte> {
    if outcomes == [] then []
    else match outcomes[0]
      case Chunk(bytes) => bytes + Content(outcomes[1..])
      case Malformed => Content(outcomes[1..])
      case _ => []
  }

  class JsProxyStream {
    const reader: JsReader
    const writer: JsWriter
    var pendingRead: bool
    var readBuf: seq<byte>
    var readDone: bool
    var pendingWrite: bool
    var writeClosing: bool
    var writeClosed: bool

    constructor (reader: JsReader, writer: JsWriter)
      requires reader.issued == reader.settled && writer.log == [] && writer.settled == 0
      ensures this.reader == reader && this.writer == writer
      ensures Valid() && Remaining() == Content(reader.outcomes) && !pendingWrite && !writeClosing
    {
      this.reader, this.writer := reader, writer;
      pendingRead, readBuf, readDone := false, [], false;
      pendingWrite, writeClosing, writeClosed := false, false, false;
    }

    /** Leftover bytes never coexist with an outstanding read, and at most one
        read is outstanding. */
    ghost predicate ReadSide()
      reads `pendingRead, `readBuf, `readDone, reader
    {
      && (readBuf != [] ==> !pendingRead && !readDone)
      && (readDone ==> !pendingRead)
      && reader.issued == reader.settled + (if pendingRead then 1 else 0)
    }

    /** At most one write is outstanding, and close() was issued at most once. */
    ghost predicate WriteSide()
      reads `pendingWrite, `writeClosing, `writeClosed, writer
    {
      && |writer.log| == writer.settled + (if pendingWrite then 1 else 0)
      && (writeClosing <==> CloseWriter in writer.log)
      && (forall i, j :: 0 <= i < j < |writer.log| && writer.log[i].CloseWriter? ==> !writer.log[j].CloseWriter?)
      && (writeClosed ==> writeClosing)
    }

    ghost predicate Valid()
      reads this, reader, writer
    {
      ReadSide() && WriteSide()
    }

    /** The bytes the caller has not been given yet. */
    ghost function Remaining(): seq<byte>
      reads this, reader
    {
      readBuf + if readDone then [] else Content(reader.outcomes)
    }

    method PollRead(capacity: nat) returns (r: PollBytes)
      requires Valid()
      modifies this`pendingRead, this`readBuf, this`readDone, reader
      ensures Valid()
      // Nothing is lost, duplicated or reordered.
      ensures old(Remaining()) == (if r.Ready? then r.bytes else []) + Remaining()
      ensures r.Ready? ==> |r.bytes| <= capacity
      // An empty answer to a real request is the end, and the end is final.
      ensures capacity > 0 && r == Ready([]) ==> readDone && Remaining() == []
      ensures old(readDone) ==> r == Ready([]) && readDone && reader.outcomes == old(reader.outcomes)
      // At most one read is left outstanding, and none beside leftover bytes.
      ensures r.Pending? <==> pendingRead
      ensures old(readBuf) != [] ==> reader.issued == old(reader.issued)
    {
      if readBuf != [] {
        var len := if capacity < |readBuf| then capacity else |readBuf|;
        r := Ready(readBuf[..len]);
        readBuf := readBuf[len..];
        return;
      }
      if readDone {
        return Ready([]);
      }
      r := ReadMore(capacity);
    }

    /** Ask the reader, unless a read is already outstanding, until something settles. */
    method ReadMore(capacity: nat) returns (r: PollBytes)
      requires ReadSide() && readBuf == [] && !readDone
      modifies this`pendingRead, this`readBuf, this`readDone, reader
      ensures ReadSide()
      ensures old(Remaining()) == (if r.Ready? then r.bytes else []) + Remaining()
      ensures r.Ready? ==> |r.bytes| <= capacity
      ensures capacity > 0 && r == Ready([]) ==> readDone && Remaining() == []
      ensures r.Pending? <==> pendingRead
    {
      while true
        invariant ReadSide() && readBuf == [] && !readDone
        invariant Content(reader.outcomes) == old(Remaining())
        decreases |reader.outcomes|
      {
        var poll := AwaitOutcome();
        if poll.None? {
          return Pending;
        }
        match poll.value
        case EndOfStream =>
          readDone := true;
          return Ready([]);
        case Rejected =>
          readDone := true;
          return ReadError;
        case Malformed =>
          return ReadError;
        case Chunk(data) =>
          if data != [] {
            var len := if capacity < |data| then capacity else |data|;
            readBuf := data[len..];
            CutChunk(data, len, Content(reader.outcomes));
            return Ready(data[..len]);
          }
      }
    }

    static lemma CutChunk(data: seq<byte>, len: nat, rest: seq<byte>)
      requires len <= |data|
      ensures data + rest == data[..len] + (data[len..] + rest)
    {
    }

    method AwaitOutcome() returns (r: Option<ReadOutcome>)
      requires ReadSide() && readBuf == [] && !readDone
      modifies this`pendingRead, reader
      ensures ReadSide()
      ensures r.None? ==> pendingRead && reader.outcomes == old(reader.outcomes)
      ensures r.Some? ==> !pendingRead && old(reader.outcomes) == [r.value] + reader.outcomes
    {
      if !pendingRead {
        reader.Issue();
        pendingRead := true;
      }
      r := reader.Poll();
      if r.Some? {
        pendingRead := false;
      }
    }

    /** Any sequence of polls with any buffer sizes: what they return, put
        together, is a prefix of what JavaScript had to deliver. */
    method PollMany(capacities: seq<nat>) returns (collected: seq<byte>)
      requires Valid()
      modifies this`pendingRead, this`readBuf, this`readDone, reader
      ensures Valid()
      ensures old(Remaining()) == collected + Remaining()
    {
      collected := [];
      ghost var total := Remaining();
      for i := 0 to |capacities|
        invariant Valid() && total == collected + Remaining()
      {
        var r := PollRead(capacities[i]);
        var piece := if r.Ready? then r.bytes else [];
        ConcatAssoc(collected, piece, Remaining());
        collected := collected + piece;
      }
    }

    method PollPendingWrite() returns (r: PollUnit)
      requires Valid()
      modifies this`pendingWrite, writer
      ensures Valid() && writer.log == old(writer.log)
      ensures r.StillPending? <==> pendingWrite
      ensures r.Finished? ==> writer.settled == |writer.log|
      ensures if old(pendingWrite) then r == Next(old(writer.polls)) else r.Finished? && writer.polls == old(writer.polls)
      ensures writer.closeRejected && !old(writer.closeRejected) ==> r.Failed?
      ensures old(writer.closeRejected) ==> writer.closeRejected
    {
      if !pendingWrite {
        return Finished;
      }
      r := writer.Poll();
      if !r.StillPending? {
        pendingWrite := false;
      }
    }

    /** One write at a time: a buffer is accepted whole, and only once everything
        before it has settled. */
    method PollWrite(buf: seq<byte>) returns (r: PollCount)
      requires Valid()
      modifies this`pendingWrite, writer
      ensures Valid()
      ensures r.Accepted? ==> r.n == |buf| && writer.log == old(writer.log) + (if buf == [] then [] else [WriteChunk(buf)])
      ensures r.Accepted? ==> writer.settled == |old(writer.log)|
      ensures !r.Accepted? ==> writer.log == old(writer.log)
      ensures r.WritePending? ==> pendingWrite
    {
      var poll := PollPendingWrite();
      if poll.StillPending? {
        return WritePending;
      }
      if poll.Failed? {
        return WriteError;
      }
      if buf == [] {
        return Accepted(0);
      }
      writer.Issue(WriteChunk(buf));
      pendingWrite := true;
      return Accepted(|buf|);
    }

    method PollFlush() returns (r: PollUnit)
      requires Valid()
      modifies this`pendingWrite, writer
      ensures Valid() && writer.log == old(writer.log)
      ensures r.Finished? ==> writer.settled == |writer.log|
    {
      r := PollPendingWrite();
    }

    /** close() goes out once, behind everything written before; the poll succeeds
        only when it has settled, and a rejection of it is reported. */
    method PollClose() returns (r: PollUnit)
      requires Valid()
      modifies this`pendingWrite, this`writeClosing, this`writeClosed, writer
      ensures Valid()
      ensures writer.log == old(writer.log) + (if writeClosing && !old(writeClosing) then [CloseWriter] else [])
      ensures writeClosing && !old(writeClosing) ==> writer.settled >= |old(writer.log)|
      ensures r.Finished? ==> writeClosed && CloseWriter in writer.log && writer.settled == |writer.log|
      // A rejection is reported once, by the poll that meets it; so success means
      // that close() settled without one exactly when no earlier poll met one.
      ensures writer.closeRejected && !old(writer.closeRejected) ==> r.Failed?
      ensures r.Finished? ==> (writer.closeRejected <==> old(writer.closeRejected))
      ensures !old(writeClosing) && !old(pendingWrite) ==> r == Next(old(writer.polls))
      // Once its promise is gone, every later poll succeeds, rejected or not.
      ensures (r.StillPending? <==> pendingWrite) && (old(writeClosing) || !old(pendingWrite) ==> writeClosing)
      ensures old(writeClosing) && !old(pendingWrite) ==> r.Finished?
    {
      while true
        invariant Valid()
        invariant writer.log == old(writer.log) + (if writeClosing && !old(writeClosing) then [CloseWriter] else [])
        invariant old(writeClosing) ==> writeClosing
        invariant writeClosing && !old(writeClosing) ==> writer.settled >= |old(writer.log)|
        invariant writer.closeRejected == old(writer.closeRejected)
        invariant old(writeClosing) && !old(pendingWrite) ==> !pendingWrite
        invariant !old(writeClosing) && !old(pendingWrite) ==>
          pendingWrite == writeClosing && writer.polls == old(writer.polls)
        decreases if writeClosing then 0 else 1
      {
        r := PollPendingWrite();
        if !r.Finished? {
          return;
        }
        if writeClosed {
          return Finished;
        }
        if !writeClosing {
          writer.Issue(CloseWriter);
          pendingWrite := true;
          writeClosing := true;
          continue;
        }
        writeClosed := true;
        return Finished;
      }
    }
  }

  /** A close that JavaScript rejects: one poll reports it, the next one succeeds. */
  method RejectedCloseSucceedsLater() returns (first: PollUnit, second: PollUnit)
    ensures first == Failed && second == Finished
  {
    var reader := new JsReader([]);
    var writer := new JsWriter([Failed]);
    var stream := new JsProxyStream(reader, writer);
    first := stream.PollClose();
    second := stream.PollClose();
  }
}
