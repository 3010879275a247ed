/** What a response body is, said of the wire itself: every framing, every end and
    every error. */
module BodyMeaning {
  import opened Bytes
  import opened Text
  import opened TextLaws
  import opened ByteStream
  import opened BodyFraming
  import opened ChunkedGrammar
  import opened Reading = BodyReader

  // ---- Size lines ----

  /** White space, a number and white space, and then nothing or an extension. */
  ghost predicate SizeParts(text: string, before: string, number: string, after: string, extension: string) {
    && text == before + number + after + extension && AllWhite(before) && AllWhite(after) && Solid(number)
    && ';' !in before + number + after && (extension != "" ==> extension[0] == ';')
  }

  /** The extension is dropped and the white space with it; nothing left is a blank
      line, a hexadecimal number that fits usize a size, and all else an error. */
  lemma SizeLineSays(line: seq<byte>, before: string, number: string, after: string, extension: string)
    requires Utf8(line).Some? && SizeParts(Utf8(line).value, before, number, after, extension)
    ensures ReadSizeLine(line) ==
            if number == "" then Blank
            else match ParseUnsigned(number, 16, USIZE_MAX) case None => Bad case Some(n) => Size(n)
  {
    var text, front := Utf8(line).value, before + number + after;
    assert text[..|front|] == front;
    FirstIndex(text, ';', |front|);
    TrimIs(before, number, after);
  }

  lemma FirstIndex(s: string, c: char, i: nat)
    requires i <= |s| && (i < |s| ==> s[i] == c) && c !in s[..i]
    ensures IndexOf(s, c) == i
  {
    var j := IndexOf(s, c);
    assert forall k :: 0 <= k < i ==> s[k] in s[..i];
    assert forall k :: 0 <= k < j ==> s[k] in s[..j];
  }

  // ---- What chunked wires give ----

  /** Whole frames deliver their data, and the rest of the wire decides. */
  lemma {:induction false} FramesInFront(frames: seq<Frame>, rest: seq<byte>, tail: Tail)
    requires AllWellFormed(frames)
    ensures DecodeChunks(BeforeSize, FramesBytes(frames) + rest, tail) ==
            DecodeChunks(BeforeSize, rest, tail).After(Payload(frames))
  {
    hide DecodeChunks, WellFormed;
    var o := DecodeChunks(BeforeSize, rest, tail);
    if frames == [] {
      assert FramesBytes(frames) + rest == rest && [] + o.body == o.body;
    } else {
      var f, more := frames[0], FramesBytes(frames[1..]) + rest;
      FramesInFront(frames[1..], rest, tail);
      ConcatAssoc(FrameBytes(f), FramesBytes(frames[1..]), rest);
      DecodeFrame(f, more, tail);
      AfterAfter(o, f.data, Payload(frames[1..]));
    }
  }

  /** How the stream can end in the wrong place: cleanly, which is that error, or broken. */
  function Ended(tail: Tail, error: BodyError): End {
    match tail
    case Closed => Failed(error)
    case Broken => Failed(ReadFailed)
  }

  /** The stream ends before the next size line does. */
  lemma EndsBeforeSizeLine(frames: seq<Frame>, part: seq<byte>, tail: Tail)
    requires AllWellFormed(frames) && FindSubsequence(part, CRLF).None?
    ensures DecodeChunks(BeforeSize, FramesBytes(frames) + part, tail) ==
            Outlook(Payload(frames), Ended(tail, ClosedBeforeTerminator))
  {
    FramesInFront(frames, part, tail);
    NoLineFails(part, tail);
    assert Payload(frames) + [] == Payload(frames);
  }

  /** A size line that is not text, or not a size. */
  lemma BadSizeLine(frames: seq<Frame>, line: seq<byte>, rest: seq<byte>, tail: Tail)
    requires AllWellFormed(frames) && IsLine(line)
    ensures Utf8(line).None? ==>
              DecodeChunks(BeforeSize, FramesBytes(frames) + (line + CRLF + rest), tail) ==
              Outlook(Payload(frames), Failed(SizeNotUtf8))
    ensures ReadSizeLine(line) == Bad ==>
              DecodeChunks(BeforeSize, FramesBytes(frames) + (line + CRLF + rest), tail) ==
              Outlook(Payload(frames), Failed(BadChunkSize))
  {
    hide DecodeChunks, IsLine;
    FramesInFront(frames, line + CRLF + rest, tail);
    LineAtFront(line, rest);
    UnfoldLine(line + CRLF + rest, tail);
    assert Payload(frames) + [] == Payload(frames);
  }

  /** Behind a size: data cut short, or not followed by its CRLF. */
  lemma BadChunk(frames: seq<Frame>, line: seq<byte>, n: nat, data: seq<byte>, tail: Tail)
    requires AllWellFormed(frames) && IsLine(line) && ReadSizeLine(line) == Size(n) && n > 0
    ensures var o := DecodeChunks(BeforeSize, FramesBytes(frames) + (line + CRLF + data), tail);
            && (|data| < n ==> o == Outlook(Payload(frames) + data, Ended(tail, ClosedInChunk(n - |data|))))
            && (n <= |data| < n + 2 ==> o == Outlook(Payload(frames) + data[..n], Ended(tail, ClosedBeforeChunkCrlf)))
            && (n + 2 <= |data| && data[n..n + 2] != CRLF ==>
                  o == Outlook(Payload(frames) + data[..n], Failed(MalformedChunkCrlf)))
  {
    hide DecodeChunks, IsLine, ReadSizeLine, FrontLine, AllWellFormed, FramesBytes, Payload;
    FramesInFront(frames, line + CRLF + data, tail);
    LineAtFront(line, data);
    UnfoldLine(line + CRLF + data, tail);
    ChunkCut(n, data, tail);
    assert n <= |data| ==> data[..n] + [] == data[..n];
  }

  lemma ChunkCut(n: nat, data: seq<byte>, tail: Tail)
    requires n > 0
    ensures var o := DecodeChunks(InData(n), data, tail);
            && (|data| < n ==> o == Outlook(data, Ended(tail, ClosedInChunk(n - |data|))))
            && (n <= |data| < n + 2 ==> o == Outlook(data[..n], Ended(tail, ClosedBeforeChunkCrlf)))
            && (n + 2 <= |data| && data[n..n + 2] != CRLF ==> o == Outlook(data[..n], Failed(MalformedChunkCrlf)))
  {
    if n <= |data| {
      UnfoldData(n, data, tail);
      assert |data| >= n + 2 ==> data[n..][..2] == data[n..n + 2];
      assert data[..n] + [] == data[..n];
    }
  }

  // ---- The whole body ----

  /** What a new reader collects, whatever the cut into reads. */
  method ReadWhole(stream: Reader, framing: Framing, overflow: seq<byte>)
      returns (ok: bool, body: seq<byte>, error: BodyError)
    modifies stream
    ensures var wire := overflow + old(stream.incoming);
            match framing
            case NoBody => ok && body == []
            case ContentLength(len) =>
              && (ok <==> len <= |wire|) && body == (if ok then wire[..len] else wire)
              && (!ok ==> Failed(error) == Ended(stream.tail, Truncated(|wire|, len)))
            case UntilEof =>
              body == wire && (ok <==> stream.tail.Closed? || wire != []) && (!ok ==> error == ReadFailed)
            case Chunked =>
              ok <==> exists frames, last :: AllWellFormed(frames) && IsLast(last) &&
                                             MessageBytes(frames, last) <= wire && Payload(frames) == body
  {
    hide DecodeChunks, MessageBytes, Payload, IsLast, AllWellFormed;
    ghost var wire := overflow + stream.incoming;
    var reader := new Reading.BodyReader(stream, framing, overflow);
    ok, body, error := reader.ReadAll();
    ChunkedIff(wire, stream.tail, body);
  }
}
