/** The incremental body reader. Its methods are proved against BodyFraming:
    the outlook after a call, put behind what the call returned, is the
    outlook before it, so no cut of the wire into reads can change the body. */
module BodyReader {
  import opened Bytes
  import opened Text
  import opened ByteStream
  import opened BodyFraming

  const READ_SIZE: nat := 8192

  datatype ChunkResult = Chunk(bytes: seq<byte>) | Finished | Error(error: BodyError)
  datatype LineResult = NextChunk | Terminator | SizeError(error: BodyError)

  function Min(a: nat, b: nat): nat { if a <= b then a else b }

  class BodyReader {
    const stream: Reader
    const framing: Framing
    var buffer: seq<byte>
    var done: bool
    var totalRead: nat
    var chunkRemaining: nat
    var awaitingChunkCrlf: bool

    constructor (stream: Reader, framing: Framing, overflow: seq<byte>)
      ensures this.stream == stream && this.framing == framing && buffer == overflow
      ensures !done && totalRead == 0
      ensures Expected() == BodyOf(framing, overflow + stream.incoming, stream.tail)
    {
      this.stream, this.framing, buffer := stream, framing, overflow;
      done, totalRead, chunkRemaining, awaitingChunkCrlf := false, 0, 0, false;
    }

    /** Everything not yet consumed: held bytes, then bytes still to come. */
    ghost function Wire(): seq<byte>
      reads this, stream
    {
      buffer + stream.incoming
    }

    ghost function At(): Position
      reads this
    {
      if chunkRemaining > 0 then InData(chunkRemaining)
      else if awaitingChunkCrlf then BeforeCrlf else BeforeSize
    }

    /** What the rest of the calls will deliver. */
    ghost function Expected(): Outlook
      reads this, stream
    {
      if done then Outlook([], Complete) else
        match framing
        case NoBody => Outlook([], Complete)
        case ContentLength(len) => LengthOutlook(totalRead, len, Wire(), stream.tail)
        case Chunked => DecodeChunks(At(), Wire(), stream.tail)
        case UntilEof => EofOutlook(totalRead, Wire(), stream.tail)
    }

    /** Errors that a later call meets again: a bad size line and an I/O error while
        decoding chunks consume nothing from the decoder's point of view. */
    predicate Repeats(e: BodyError) {
      e.SizeNotUtf8? || e.BadChunkSize? || (framing.Chunked? && e.ReadFailed?)
    }

    /** The contract every way of reading a chunk meets. A failure that does not
        repeat ends the reader: later calls report a clean end. */
    ghost predicate Delivers(before: Outlook, r: ChunkResult)
      reads this, stream
    {
      match r
      case Chunk(bytes) => bytes != [] && before == Expected().After(bytes)
      case Finished => before == Outlook([], Complete) && done
      case Error(e) =>
        before == Outlook([], Failed(e)) && done == !Repeats(e) && (!done ==> Expected() == before)
    }

    method ReadChunk() returns (r: ChunkResult)
      modifies this, stream
      ensures Delivers(old(Expected()), r)
      ensures r.Chunk? ==> |Wire()| < |old(Wire())|
      ensures old(done) ==> done
    {
      if done {
        return Finished;
      }
      match framing
      case NoBody =>
        done := true;
        return Finished;
      case ContentLength(len) => r := ReadChunkContentLength(len);
      case Chunked => r := ReadChunkChunked();
      case UntilEof => r := ReadChunkEof();
    }

    /** The whole remaining body, or the error it ends in. */
    method ReadAll() returns (ok: bool, body: seq<byte>, error: BodyError)
      modifies this, stream
      ensures ok == old(Expected()).end.Complete? && body == old(Expected()).body
      ensures !ok ==> Failed(error) == old(Expected()).end
      ensures old(done) || framing.NoBody? ==> ok && body == []
      // A declared length is met, and cut off behind it, or the body is reported short.
      ensures !old(done) && framing.ContentLength? && old(totalRead) <= framing.len ==>
                var owed := framing.len - old(totalRead);
                if owed <= |old(Wire())| then ok && body == old(Wire())[..owed]
                else !ok && body == old(Wire()) &&
                     error == if stream.tail.Closed? then Truncated(old(totalRead + |Wire()|), framing.len) else ReadFailed
      // Without one the stream's end is the body's, but for an error before the first byte.
      ensures !old(done) && framing.UntilEof? ==>
                && body == old(Wire())
                && (ok <==> stream.tail.Closed? || old(totalRead) > 0 || body != [])
                && (!ok ==> error == ReadFailed)
    {
      ok, body, error := true, [], ReadFailed;
      ghost var total := Expected();
      while true
        invariant ok && Expected().After(body) == total
        decreases |Wire()|
      {
        ghost var before := Expected();
        var r := ReadChunk();
        match r
        case Chunk(bytes) =>
          assert before == Expected().After(bytes);
          AfterAfter(Expected(), body, bytes);
          body := body + bytes;
        case Finished => return true, body, ReadFailed;
        case Error(e) => return false, body, e;
      }
    }

    /** Reading on after an error: the same error again, or a clean end, by its kind. */
    method ReadAfterError() returns (first: ChunkResult, second: ChunkResult)
      modifies this, stream
      ensures Delivers(old(Expected()), first) || first.Error?
      ensures first.Error? ==>
                && old(Expected()) == Outlook([], Failed(first.error))
                && (second == Finished <==> !Repeats(first.error))
                && (second.Error? <==> Repeats(first.error)) && (second.Error? ==> second == first)
    {
      first := ReadChunk();
      second := Finished;
      if first.Error? {
        second := ReadChunk();
      }
    }

    method ReadChunkContentLength(len: nat) returns (r: ChunkResult)
      requires !done && framing == ContentLength(len)
      modifies this, stream
      ensures Delivers(old(Expected()), r)
      ensures r.Chunk? ==> |Wire()| < |old(Wire())|
    {
      hide DecodeChunks, EofOutlook;
      var remaining := if totalRead <= len then len - totalRead else 0;
      if remaining == 0 {
        done := true;
        return Finished;
      }
      if buffer != [] {
        var take := Min(|buffer|, remaining);
        var chunk := buffer[..take];
        buffer := buffer[take..];
        totalRead := totalRead + |chunk|;
        if totalRead >= len {
          done := true;
        }
        assert old(Wire()) == chunk + Wire();
        LengthComesInPieces(old(totalRead), len, chunk, Wire(), stream.tail);
        return Chunk(chunk);
      }
      var got := stream.Read(Min(READ_SIZE, remaining));
      match got
      case Eof =>
        done := true;
        return Error(Truncated(totalRead, len));
      case Data(bytes) =>
        var take := Min(|bytes|, remaining);
        totalRead := totalRead + take;
        if totalRead >= len {
          done := true;
        }
        assert old(Wire()) == bytes + Wire() && bytes[..take] == bytes;
        LengthComesInPieces(old(totalRead), len, bytes, Wire(), stream.tail);
        return Chunk(bytes[..take]);
      case IoError =>
        done := true;
        return Error(ReadFailed);
    }

    method ReadChunkEof() returns (r: ChunkResult)
      requires !done && framing.UntilEof?
      modifies this, stream
      ensures Delivers(old(Expected()), r)
      ensures r.Chunk? ==> |Wire()| < |old(Wire())|
    {
      if buffer != [] {
        var chunk := buffer;
        buffer := [];
        totalRead := totalRead + |chunk|;
        return Chunk(chunk);
      }
      var got := stream.Read(READ_SIZE);
      match got
      case Eof =>
        done := true;
        return Finished;
      case Data(bytes) =>
        totalRead := totalRead + |bytes|;
        assert old(Wire()) == bytes + Wire();
        return Chunk(bytes);
      case IoError =>
        done := true;
        return if totalRead > 0 then Finished else Error(ReadFailed);
    }

    method ReadChunkChunked() returns (r: ChunkResult)
      requires !done && framing.Chunked?
      modifies this, stream
      ensures Delivers(old(Expected()), r)
      ensures r.Chunk? ==> |Wire()| < |old(Wire())|
    {
      while true
        invariant !done && Expected() == old(Expected())
        invariant |Wire()| <= |old(Wire())|
        decreases |Wire()|
      {
        if chunkRemaining > 0 {
          r := ReadChunkData();
          return;
        }
        if awaitingChunkCrlf {
          var failure := ConsumeChunkCrlf();
          if failure.Some? {
            return Error(failure.value);
          }
        }
        var line := ReadNextSize();
        match line
        case NextChunk =>
        case Terminator => return Finished;
        case SizeError(e) => return Error(e);
      }
    }

    /** Data of the current chunk, from the buffer if it holds any. */
    method ReadChunkData() returns (r: ChunkResult)
      requires !done && framing.Chunked? && chunkRemaining > 0
      modifies this, stream
      ensures Delivers(old(Expected()), r)
      ensures r.Chunk? ==> |Wire()| < |old(Wire())|
    {
      var chunk;
      if buffer != [] {
        var take := Min(|buffer|, chunkRemaining);
        chunk := buffer[..take];
        buffer := buffer[take..];
      } else {
        var got := stream.Read(Min(READ_SIZE, chunkRemaining));
        match got
        case Data(bytes) => chunk := bytes;
        case Eof =>
          done := true;
          return Error(ClosedInChunk(chunkRemaining));
        case IoError => return Error(ReadFailed);
      }
      chunkRemaining := chunkRemaining - |chunk|;
      if chunkRemaining == 0 {
        awaitingChunkCrlf := true;
      }
      assert old(Wire()) == chunk + Wire();
      DataComesInPieces(old(chunkRemaining), chunk, Wire(), stream.tail);
      return Chunk(chunk);
    }

    /** The CRLF after chunk data. */
    method ConsumeChunkCrlf() returns (failure: Option<BodyError>)
      requires !done && framing.Chunked? && chunkRemaining == 0 && awaitingChunkCrlf
      modifies this, stream
      ensures failure.Some? ==> Delivers(old(Expected()), Error(failure.value))
      ensures failure.None? ==> !done && chunkRemaining == 0 && !awaitingChunkCrlf
      ensures failure.None? ==> Expected() == old(Expected()) && |Wire()| <= |old(Wire())|
    {
      while |buffer| < 2
        invariant !done && chunkRemaining == 0 && awaitingChunkCrlf
        invariant Wire() == old(Wire())
        decreases |stream.incoming|
      {
        var got := FillBuffer();
        if got.Eof? {
          done := true;
          return Some(ClosedBeforeChunkCrlf);
        } else if got.IoError? {
          return Some(ReadFailed);
        }
      }
      assert Wire()[..2] == buffer[..2];
      if buffer[..2] != CRLF {
        done := true;
        return Some(MalformedChunkCrlf);
      }
      buffer := buffer[2..];
      awaitingChunkCrlf := false;
      assert old(Wire())[2..] == Wire();
      return None;
    }

    /** Chunk-size lines up to the first that is not blank. */
    method ReadNextSize() returns (r: LineResult)
      requires !done && framing.Chunked? && chunkRemaining == 0 && !awaitingChunkCrlf
      modifies this, stream
      ensures r.NextChunk? ==> !done && chunkRemaining > 0 && Expected() == old(Expected())
      ensures r.NextChunk? ==> |Wire()| < |old(Wire())|
      ensures r.Terminator? ==> Delivers(old(Expected()), Finished)
      ensures r.SizeError? ==> Delivers(old(Expected()), Error(r.error))
    {
      hide DecodeChunks, ReadSizeLine, FrontLine, FindSubsequence, OccursAt, LengthOutlook, EofOutlook;
      while true
        invariant !done && chunkRemaining == 0 && !awaitingChunkCrlf
        invariant Expected() == old(Expected()) && |Wire()| <= |old(Wire())|
        decreases |Wire()|, |stream.incoming|
      {
        var found := FindSubsequence(buffer, CRLF);
        LineHasArrived(buffer, stream.incoming);
        if found.Some? {
          var pos := found.value;
          UnfoldLine(Wire(), stream.tail);
          var line := ReadSizeLine(buffer[..pos]);
          match line
          case NotUtf8 => return SizeError(SizeNotUtf8);
          case Bad => return SizeError(BadChunkSize);
          case Blank => buffer := buffer[pos + 2..];
          case Size(n) =>
            buffer := buffer[pos + 2..];
            if n == 0 {
              done := true;
              return Terminator;
            }
            chunkRemaining := n;
            return NextChunk;
        } else {
          var got := FillBuffer();
          if !got.Data? {
            assert Wire() == buffer;
            NoLineFails(buffer, stream.tail);
          }
          if got.Eof? {
            done := true;
            return SizeError(ClosedBeforeTerminator);
          } else if got.IoError? {
            return SizeError(ReadFailed);
          }
        }
      }
    }

    method FillBuffer() returns (got: ReadResult)
      modifies this`buffer, stream
      ensures Wire() == old(Wire())
      ensures got.Data? ==> |stream.incoming| < |old(stream.incoming)|
      ensures !got.Data? ==> buffer == old(buffer) && stream.incoming == old(stream.incoming) == []
      ensures !got.Data? ==> got == if stream.tail.Closed? then Eof else IoError
    {
      got := stream.Read(READ_SIZE);
      if got.Data? {
        buffer := buffer + got.bytes;
      }
    }
  }

  /** Taking part of a chunk's data early does not change what the rest means. */
  lemma DataComesInPieces(remaining: nat, piece: seq<byte>, rest: seq<byte>, tail: Tail)
    requires 0 < |piece| <= remaining
    ensures DecodeChunks(InData(remaining), piece + rest, tail) ==
            (if |piece| < remaining then DecodeChunks(InData(remaining - |piece|), rest, tail)
             else DecodeChunks(BeforeCrlf, rest, tail)).After(piece)
  {
    var wire, more := piece + rest, remaining - |piece|;
    if more <= |rest| {
      var next := DecodeChunks(BeforeCrlf, rest[more..], tail);
      UnfoldData(remaining, wire, tail);
      assert wire[remaining..] == rest[more..] && wire[..remaining] == piece + rest[..more];
      AfterAfter(next, piece, rest[..more]);
      if more == 0 {
        assert rest[more..] == rest && piece + rest[..more] == piece;
      } else {
        UnfoldData(more, rest, tail);
      }
    }
  }

  lemma LengthComesInPieces(got: nat, len: nat, piece: seq<byte>, rest: seq<byte>, tail: Tail)
    requires 0 < |piece| && got + |piece| <= len
    ensures LengthOutlook(got, len, piece + rest, tail) ==
            LengthOutlook(got + |piece|, len, rest, tail).After(piece)
    ensures got + |piece| == len ==> LengthOutlook(got + |piece|, len, rest, tail) == Outlook([], Complete)
  {
    var owed := len - got;
    if owed <= |piece + rest| {
      assert (piece + rest)[..owed] == piece + rest[..owed - |piece|];
    }
  }

  /** A body shorter than announced: an error first, then a clean end. */
  method ShortBodyThenEnd(len: nat) returns (first: ChunkResult, second: ChunkResult)
    requires len > 0
    ensures first.Error? && second == Finished
  {
    var stream := new Reader([], Closed, []);
    var reader := new BodyReader(stream, ContentLength(len), []);
    assert reader.Wire() == [];
    first, second := reader.ReadAfterError();
  }
}
