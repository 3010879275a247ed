/** Sending a request: the head, then the body, chunked when it is a stream. */
module RequestWriter {
  import opened Bytes
  import opened Text
  import opened ByteStream
  import opened BodyFraming
  import opened ChunkedGrammar

  /** One poll of the body stream: a chunk, or the caller's error. */
  datatype Item = Chunk(bytes: seq<byte>) | ItemError

  datatype RequestBody = NoRequestBody | BytesBody(bytes: seq<byte>) | StreamBody(items: seq<Item>)

  datatype WriteResult = Sent | SendFailed | SourceFailed

  /** "0\r\n\r\n" */
  const TERMINATOR: seq<byte> := [48, 13, 10, 13, 10]

  function EncodeChunk(chunk: seq<byte>): seq<byte> {
    if chunk == [] then [] else Ascii(Hex(|chunk|)) + CRLF + chunk + CRLF
  }

  function EncodeChunks(chunks: seq<seq<byte>>): seq<byte> {
    if chunks == [] then [] else EncodeChunk(chunks[0]) + EncodeChunks(chunks[1..])
  }

  function Concat(chunks: seq<seq<byte>>): seq<byte> {
    if chunks == [] then [] else chunks[0] + Concat(chunks[1..])
  }

  /** The chunks the stream yields before its first error. */
  function Yielded(items: seq<Item>): seq<seq<byte>> {
    if items == [] || items[0].ItemError? then [] else [items[0].bytes] + Yielded(items[1..])
  }

  predicate SourceFails(items: seq<Item>) { ItemError in items }

  /** The bytes a body puts behind the head when nothing goes wrong. */
  function BodyBytes(body: RequestBody): seq<byte> {
    match body
    case NoRequestBody => []
    case BytesBody(b) => b
    case StreamBody(items) => EncodeChunks(Yielded(items)) + (if SourceFails(items) then [] else TERMINATOR)
  }

  /** The head and the whole body go out in order, as far as the network takes them. The
      call succeeds exactly when it takes them all, the source yields no error and the
      flush works; it blames the source exactly when all before the error was taken. */
  method WriteRequest(stream: Writer, head: seq<byte>, body: RequestBody) returns (r: WriteResult)
    modifies stream
    ensures stream.written ==
            old(stream.written) + Accepted(stream.limit, |old(stream.written)|, head + BodyBytes(body))
    ensures var fits := Fits(stream.limit, |old(stream.written)|, |head + BodyBytes(body)|);
            var failing := body.StreamBody? && SourceFails(body.items);
            && (r.Sent? <==> fits && !failing && stream.flushes)
            && (r.SourceFailed? <==> fits && failing)
  {
    hide BodyBytes, SourceFails, Fits, Accepted;
    InTwoParts(stream.limit, stream.written, head, BodyBytes(body));
    var ok := stream.WriteAll(head);
    if !ok {
      return SendFailed;
    }
    r := WriteBody(stream, body);
    if r.Sent? {
      ok := stream.Flush();
      r := if ok then Sent else SendFailed;
    }
  }

  method WriteBody(stream: Writer, body: RequestBody) returns (r: WriteResult)
    modifies stream
    ensures stream.written == old(stream.written) + Accepted(stream.limit, |old(stream.written)|, BodyBytes(body))
    ensures var fits := Fits(stream.limit, |old(stream.written)|, |BodyBytes(body)|);
            r == if !fits then SendFailed
                 else if body.StreamBody? && SourceFails(body.items) then SourceFailed else Sent
  {
    match body
    case NoRequestBody => return Sent;
    case BytesBody(b) =>
      var ok := stream.WriteAll(b);
      return if ok then Sent else SendFailed;
    case StreamBody(items) =>
      r := WriteStreamBody(stream, items);
  }

  method WriteStreamBody(stream: Writer, items: seq<Item>) returns (r: WriteResult)
    modifies stream
    ensures stream.written ==
            old(stream.written) + Accepted(stream.limit, |old(stream.written)|, BodyBytes(StreamBody(items)))
    ensures var fits := Fits(stream.limit, |old(stream.written)|, |BodyBytes(StreamBody(items))|);
            r == if !fits then SendFailed else if SourceFails(items) then SourceFailed else Sent
  {
    ghost var before, total := stream.written, BodyBytes(StreamBody(items));
    ghost var done: seq<byte>, owed := [], total;
    var next := 0;
    assert items[0..] == items;
    hide Fits, Accepted, EncodeChunk, BodyBytes, SourceFails;
    NothingFits(stream.limit, |before|);
    assert done + owed == total && before + done == before;
    while next < |items|
      invariant next <= |items| && ItemError !in items[..next]
      invariant owed == BodyBytes(StreamBody(items[next..])) && done + owed == total
      invariant stream.written == before + done && Fits(stream.limit, |before|, |done|)
    {
      BodyBytesStep(items, next);
      if items[next].ItemError? {
        assert done == total;
        AllAccepted(stream.limit, |before|, total);
        return SourceFailed;
      }
      ghost var chunk := EncodeChunk(items[next].bytes);
      owed := BodyBytes(StreamBody(items[next + 1..]));
      NextPart(stream.limit, before, done, chunk, owed);
      var ok := WriteChunk(stream, items[next].bytes);
      if !ok {
        return SendFailed;
      }
      done := done + chunk;
      next := next + 1;
    }
    assert items[..next] == items && items[next..] == [];
    NothingButTerminator();
    InTwoParts(stream.limit, before, done, TERMINATOR);
    assert SourceFails(items) == false by { NoErrorYet(items); }
    var ok := stream.WriteAll(TERMINATOR);
    return if ok then Sent else SendFailed;
  }

  lemma NoErrorYet(items: seq<Item>)
    requires ItemError !in items
    ensures !SourceFails(items)
  {
  }

  /** Behind what was taken so far, the next part is taken, or the network gives out in it. */
  lemma NextPart(limit: Option<nat>, before: seq<byte>, done: seq<byte>, part: seq<byte>, owed: seq<byte>)
    requires Fits(limit, |before|, |done|)
    ensures done + part + owed == done + (part + owed)
    ensures var total, fits := done + (part + owed), Fits(limit, |before + done|, |part|);
            && (fits <==> Fits(limit, |before|, |done + part|)) && (!fits ==> !Fits(limit, |before|, |total|))
            && before + done + Accepted(limit, |before + done|, part) ==
               before + if fits then done + part else Accepted(limit, |before|, total)
  {
    InTwoParts(limit, before, done, part);
    InTwoParts(limit, before, done + part, owed);
    ConcatAssoc(done, part, owed);
    if Fits(limit, |before|, |done + part|) { AllAccepted(limit, |before|, done + part); }
  }

  lemma NothingFits(limit: Option<nat>, at: nat)
    ensures Fits(limit, at, 0)
  {
  }

  lemma AllAccepted(limit: Option<nat>, at: nat, bytes: seq<byte>)
    requires Fits(limit, at, |bytes|)
    ensures Accepted(limit, at, bytes) == bytes
  {
  }

  lemma NothingButTerminator()
    ensures BodyBytes(StreamBody([])) == TERMINATOR
  {
    assert EncodeChunks(Yielded([])) + TERMINATOR == TERMINATOR;
  }

  lemma BodyBytesStep(items: seq<Item>, next: nat)
    requires next < |items| && ItemError !in items[..next]
    ensures items[next].ItemError? ==> BodyBytes(StreamBody(items[next..])) == [] && SourceFails(items)
    ensures items[next].Chunk? ==>
              BodyBytes(StreamBody(items[next..])) ==
              EncodeChunk(items[next].bytes) + BodyBytes(StreamBody(items[next + 1..]))
    ensures items[next].Chunk? ==> ItemError !in items[..next + 1]
  {
    var rest := items[next + 1..];
    assert items[next..] == [items[next]] + rest;
    assert items[..next + 1] == items[..next] + [items[next]];
    assert ItemError in items[next..] <==> items[next].ItemError? || ItemError in rest;
    var end := if SourceFails(rest) then [] else TERMINATOR;
    if items[next].Chunk? {
      assert [items[next].bytes] + Yielded(rest) == Yielded(items[next..]);
      var e := EncodeChunk(items[next].bytes);
      assert e + EncodeChunks(Yielded(rest)) + end == e + (EncodeChunks(Yielded(rest)) + end);
    }
  }

  /** The three writes of one chunk; an empty chunk would end the body, so it
      is skipped. */
  method WriteChunk(stream: Writer, chunk: seq<byte>) returns (ok: bool)
    modifies stream
    ensures ok <==> Fits(stream.limit, |old(stream.written)|, |EncodeChunk(chunk)|)
    ensures stream.written == old(stream.written) + Accepted(stream.limit, |old(stream.written)|, EncodeChunk(chunk))
  {
    if chunk == [] {
      return true;
    }
    var size := Ascii(Hex(|chunk|)) + CRLF;
    InTwoParts(stream.limit, stream.written, size, chunk);
    InTwoParts(stream.limit, stream.written, size + chunk, CRLF);
    hide Fits, Accepted;
    ok := stream.WriteAll(size);
    if !ok {
      return;
    }
    AllAccepted(stream.limit, |old(stream.written)|, size);
    ok := stream.WriteAll(chunk);
    if !ok {
      return;
    }
    AllAccepted(stream.limit, |old(stream.written)|, size + chunk);
    ok := stream.WriteAll(CRLF);
  }

  // ---- The receiving decoder reads the encoder's output back ----

  /** The frames the encoder emits: one per non-empty chunk. */
  function Frames(chunks: seq<seq<byte>>): seq<Frame> {
    if chunks == [] then []
    else if chunks[0] == [] then Frames(chunks[1..])
    else [Frame(Ascii(Hex(|chunks[0]|)), chunks[0])] + Frames(chunks[1..])
  }

  /** "0" */
  const LAST: seq<byte> := [48]

  predicate FitsUsize(chunks: seq<seq<byte>>) { forall c | c in chunks :: |c| <= USIZE_MAX }

  /** Text without CR, LF, space or ';' stands as a line and keeps its CRLF. */
  lemma SolidTextIsLine(text: string)
    requires forall c | c in text :: c as int < 128 && c != '\r'
    ensures IsLine(Ascii(text))
  {
    var line := Ascii(text);
    assert (line + CRLF)[|line|..|line| + 2] == CRLF;
    forall i | 0 <= i < |line| ensures !OccursAt(line + CRLF, CRLF, i) {
      assert text[i] in text;
      assert (line + CRLF)[i..i + 2][0] == line[i];
    }
    FirstMatchIsUnique(line + CRLF, CRLF, |line|);
  }

  /** A printed length is a size line that says that length. */
  lemma HexIsSizeLine(n: nat)
    requires n <= USIZE_MAX
    ensures IsLine(Ascii(Hex(n))) && ReadSizeLine(Ascii(Hex(n))) == Size(n)
  {
    hide Hex, Ascii, IsLine, ReadSizeLine;
    HexIsLine(n);
    HexSays(n);
  }

  lemma HexIsLine(n: nat)
    ensures IsLine(Ascii(Hex(n)))
  {
    assert DigitValue('\r') == 99;
    hide IsLine, Ascii;
    SolidTextIsLine(Hex(n));
  }

  lemma HexSays(n: nat)
    requires n <= USIZE_MAX
    ensures ReadSizeLine(Ascii(Hex(n))) == Size(n)
  {
    hide Hex, Ascii, Trim, ParseUnsigned, Utf8, DigitValue;
    var text := Hex(n);
    Utf8OfAscii(text);
    HexRoundTrip(n, USIZE_MAX);
    TrimKeepsSolidText(text);
    assert ';' !in text;
    assert text[..IndexOf(text, ';')] == text;
  }

  lemma LastSaysZero()
    ensures IsLast(LAST)
  {
    HexIsSizeLine(0);
    assert Ascii(Hex(0)) == LAST;
  }

  /** The encoder's output is a message of the grammar carrying the chunks. */
  lemma {:induction false} EncodingIsMessage(chunks: seq<seq<byte>>)
    requires FitsUsize(chunks)
    ensures AllWellFormed(Frames(chunks))
    ensures FramesBytes(Frames(chunks)) == EncodeChunks(chunks)
    ensures Payload(Frames(chunks)) == Concat(chunks)
  {
    hide Ascii, Hex, IsLine, ReadSizeLine;
    if chunks != [] {
      var c, rest := chunks[0], chunks[1..];
      EncodingIsMessage(rest);
      if c != [] {
        HexIsSizeLine(|c|);
        var f := Frame(Ascii(Hex(|c|)), c);
        assert Frames(chunks)[1..] == Frames(rest);
        assert FrameBytes(f) == EncodeChunk(c) by {
          assert f.line + CRLF + (c + CRLF) == f.line + CRLF + c + CRLF;
        }
      }
    }
  }

  lemma EncodedMessageBytes(chunks: seq<seq<byte>>)
    requires FitsUsize(chunks)
    ensures EncodeChunks(chunks) + TERMINATOR == MessageBytes(Frames(chunks), LAST) + CRLF
    ensures |MessageBytes(Frames(chunks), LAST)| == |EncodeChunks(chunks)| + 3
  {
    EncodingIsMessage(chunks);
    hide EncodeChunks, Frames, FramesBytes, AllWellFormed, Payload, Concat;
    TerminatorParts(EncodeChunks(chunks));
  }

  lemma TerminatorParts(e: seq<byte>)
    ensures e + TERMINATOR == e + LAST + CRLF + CRLF && |e + LAST + CRLF| == |e| + 3
  {
    assert TERMINATOR == LAST + CRLF + CRLF;
    ConcatAssoc(e, LAST + CRLF, CRLF);
    ConcatAssoc(e, LAST, CRLF);
  }

  /** The receiver's decoder recovers exactly the concatenated chunks, empty
      ones included, whatever follows on the wire. */
  lemma UploadRoundTrip(chunks: seq<seq<byte>>, rest: seq<byte>, tail: Tail)
    requires FitsUsize(chunks)
    ensures BodyOf(Chunked, EncodeChunks(chunks) + TERMINATOR + rest, tail) == Outlook(Concat(chunks), Complete)
  {
    EncodingIsMessage(chunks);
    EncodedMessageBytes(chunks);
    LastSaysZero();
    hide DecodeChunks, EncodeChunks, Frames, MessageBytes, Payload, Concat, AllWellFormed, IsLast;
    var m := MessageBytes(Frames(chunks), LAST);
    ConcatAssoc(m, CRLF, rest);
    MessageDecodes(Frames(chunks), LAST, CRLF + rest, tail);
  }

  lemma FrontOf(cut: seq<byte>, a: seq<byte>, b: seq<byte>)
    requires cut <= a + b && |cut| < |a|
    ensures cut < a
  {
    assert cut == (a + b)[..|cut|] == a[..|cut|];
  }

  /** An upload cut anywhere before the CRLF of its last size line is received
      as an error, never as a shorter body. */
  lemma CutUploadFails(chunks: seq<seq<byte>>, cut: seq<byte>, tail: Tail)
    requires FitsUsize(chunks)
    requires cut <= EncodeChunks(chunks) + TERMINATOR && |cut| < |EncodeChunks(chunks)| + 3
    ensures BodyOf(Chunked, cut, tail).end.Failed?
    ensures BodyOf(Chunked, cut, tail).body <= Concat(chunks)
  {
    EncodingIsMessage(chunks);
    EncodedMessageBytes(chunks);
    LastSaysZero();
    hide DecodeChunks, EncodeChunks, Frames, MessageBytes, Payload, Concat, AllWellFormed, IsLast;
    var m := MessageBytes(Frames(chunks), LAST);
    FrontOf(cut, m, CRLF);
    CutMessageFails(Frames(chunks), LAST, cut, tail);
  }

  /** When the body source fails, what WriteRequest has put behind the head is
      one of those cuts: the server cannot mistake it for a finished upload. */
  lemma FailedSourceIsNotAnUpload(items: seq<Item>, tail: Tail)
    requires SourceFails(items) && FitsUsize(Yielded(items))
    ensures BodyOf(Chunked, BodyBytes(StreamBody(items)), tail).end.Failed?
  {
    var sent := EncodeChunks(Yielded(items));
    assert sent + [] == sent;
    CutUploadFails(Yielded(items), sent, tail);
  }
}
