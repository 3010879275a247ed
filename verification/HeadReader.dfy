/** Reading the response head off the stream, buffering as it goes. */
module HeadReader {
  import opened Bytes
  import opened ByteStream
  import opened HeadFraming
  import opened HeadCuts

  method ReadResponseHeaders(stream: Reader, isHead: bool) returns (r: HeadResult)
    modifies stream
    // What the network's cuts make of the wire, and so what every cut gives.
    ensures Reading(r, stream.incoming) == ReadWith([], old(stream.incoming), old(stream.cuts), isHead, stream.tail)
    ensures Concludes(old(stream.incoming), stream.incoming, isHead, stream.tail, r)
    // It never waits for bytes once the complete final head is held.
    ensures r.Ok? ==> stream.takenBeforeLastRead <
                      old(stream.taken) + |old(stream.incoming)| - |r.overflow + stream.incoming|
    ensures r.Ok? ==> |r.overflow| < READ_SIZE
    // It never holds more than the cap and one read.
    ensures stream.taken <= old(stream.taken) + InterimBytes(old(stream.incoming)) + MAX_HEADER_SIZE + READ_SIZE
  {
    hide ReadWith, Concludes, FrontHead, InterimBytes;
    ghost var wire := stream.incoming;
    EveryCut([], wire, stream.cuts, isHead, stream.tail);
    assert [] + wire == wire;
    var rest, head, failure;
    ghost var start, w;
    rest, head, failure, start, w := SkipInterim(stream, isHead);
    r := if failure.Some? then Err(failure.value) else Decide(head, isHead, rest);
  }

  /** The first head that is not an interim one, or why there is none. The ghost
      results say where on the wire that was. */
  method SkipInterim(stream: Reader, isHead: bool)
      returns (rest: seq<byte>, head: ParsedHead, failure: Option<HeadError>, ghost start: nat, ghost w: seq<byte>)
    modifies stream
    ensures Behind(old(stream.incoming), w, start)
    ensures Taken(stream, w, old(stream.taken) + start, rest, head, failure)
    ensures failure.None? ==> !head.Interim?
    ensures var end := if failure.Some? then Err(failure.value) else Decide(head, isHead, rest);
            Reading(end, stream.incoming) == ReadWith([], old(stream.incoming), old(stream.cuts), isHead, stream.tail)
  {
    hide ReadWith, InterimBytes, ParseHead, FrontHead, Holding, FindSubsequence, OccursAt, Behind, Decide;
    ghost var wire, base := stream.incoming, stream.taken;
    ghost var goal := ReadWith([], wire, stream.cuts, isHead, stream.tail);
    start, w, rest := 0, wire, [];
    HoldingNothing(stream);
    BehindNothing(wire);
    while true
      invariant Behind(wire, w, start)
      invariant Holding(stream, rest, w, base + start)
      invariant ReadWith(rest, stream.incoming, stream.cuts, isHead, stream.tail) == goal
      decreases |w|
    {
      rest, head, failure := TakeHead(stream, rest, w, base + start, isHead);
      if failure.Some? || !head.Interim? {
        return;
      }
      BehindInterim(wire, w, start);
      ghost var size := FrontHead(w).size;
      start, w := start + size, w[size..];
    }
  }

  /** A head was taken from the front of `wire`, or the reader gave up on it. */
  ghost predicate Taken(stream: Reader, wire: seq<byte>, base: nat, rest: seq<byte>, head: ParsedHead,
                        failure: Option<HeadError>)
    reads stream
  {
    && stream.taken <= base + MAX_HEADER_SIZE + READ_SIZE
    && (failure.None? ==>
          && FrontHead(wire).Whole? && head == FrontHead(wire).head
          && FrontHead(wire).size <= MAX_HEADER_SIZE + READ_SIZE
          && Holding(stream, rest, wire[FrontHead(wire).size..], base + FrontHead(wire).size)
          && stream.takenBeforeLastRead < base + FrontHead(wire).size
          && |rest| < READ_SIZE)
  }

  /** One head off the stream: the bytes held behind it, and what it says. */
  method TakeHead(stream: Reader, held: seq<byte>, ghost wire: seq<byte>, ghost base: nat, ghost isHead: bool)
      returns (rest: seq<byte>, head: ParsedHead, failure: Option<HeadError>)
    requires Holding(stream, held, wire, base)
    modifies stream
    ensures Taken(stream, wire, base, rest, head, failure)
    ensures ReadWith(held, old(stream.incoming), old(stream.cuts), isHead, stream.tail) ==
            if failure.Some? then Reading(Err(failure.value), stream.incoming)
            else if head.Interim? then ReadWith(rest, stream.incoming, stream.cuts, isHead, stream.tail)
            else Reading(Decide(head, isHead, rest), stream.incoming)
  {
    hide ParseHead, FrontHead, FindSubsequence, OccursAt, ReadWith, Decide;
    var headerBuf;
    headerBuf, failure := FillHead(stream, held, wire, base, isHead);
    rest, head := [], Interim;
    if failure.None? {
      ReadsOn(headerBuf, stream.incoming, stream.cuts, isHead, stream.tail);
      FrontHeadIsStable(headerBuf, stream.incoming);
      var next := FrontHead(headerBuf);
      rest, head := headerBuf[next.size..], next.head;
      assert rest + stream.incoming == wire[next.size..];
      FrontHeadIsStable(rest, stream.incoming);
    }
  }

  /** Between reads: the held bytes are a bounded front of the wire, and if they
      complete a head, the latest read was issued before they did. */
  ghost predicate Holding(stream: Reader, headerBuf: seq<byte>, wire: seq<byte>, base: nat)
    reads stream
  {
    && headerBuf + stream.incoming == wire
    && |headerBuf| <= MAX_HEADER_SIZE + READ_SIZE
    && stream.taken == base + |headerBuf|
    && (headerBuf != [] ==> stream.taken <= stream.takenBeforeLastRead + READ_SIZE)
    && (FrontHead(headerBuf).Whole? ==> stream.takenBeforeLastRead < base + FrontHead(headerBuf).size)
  }

  lemma HoldingNothing(stream: Reader)
    ensures Holding(stream, [], stream.incoming, stream.taken)
  {
    assert [] + stream.incoming == stream.incoming;
  }

  /** Read until a complete head is held. */
  method FillHead(stream: Reader, held: seq<byte>, ghost wire: seq<byte>, ghost base: nat, ghost isHead: bool)
      returns (headerBuf: seq<byte>, failure: Option<HeadError>)
    requires Holding(stream, held, wire, base)
    modifies stream
    ensures Holding(stream, headerBuf, wire, base)
    ensures failure.None? ==> FrontHead(headerBuf).Whole?
    ensures ReadWith(held, old(stream.incoming), old(stream.cuts), isHead, stream.tail) ==
            if failure.Some? then Reading(Err(failure.value), stream.incoming)
            else ReadWith(headerBuf, stream.incoming, stream.cuts, isHead, stream.tail)
  {
    hide ParseHead, FrontHead, FindSubsequence, OccursAt, ReadWith;
    ghost var goal := ReadWith(held, stream.incoming, stream.cuts, isHead, stream.tail);
    headerBuf := held;
    while FrontHead(headerBuf).Partial?
      invariant Holding(stream, headerBuf, wire, base)
      invariant ReadWith(headerBuf, stream.incoming, stream.cuts, isHead, stream.tail) == goal
      decreases |stream.incoming| + 1
    {
      ReadsOn(headerBuf, stream.incoming, stream.cuts, isHead, stream.tail);
      if |headerBuf| > MAX_HEADER_SIZE {
        return headerBuf, Some(HeadTooLarge);
      }
      ghost var incoming := stream.incoming;
      var got := stream.Read(READ_SIZE);
      match got
      case Eof => return headerBuf, Some(ClosedBeforeHeaders);
      case IoError => return headerBuf, Some(HeadReadFailed);
      case Data(bytes) =>
        assert bytes == incoming[..|bytes|] && stream.incoming == incoming[|bytes|..];
        FrontHeadIsStable(headerBuf, bytes);
        headerBuf := headerBuf + bytes;
    }
    return headerBuf, None;
  }

  /** The heads in front of `rest` were interim. */
  ghost predicate Behind(wire: seq<byte>, rest: seq<byte>, start: nat) {
    start <= |wire| && rest == wire[start..] && InterimBytes(wire) == start + InterimBytes(rest)
  }

  lemma BehindNothing(wire: seq<byte>)
    ensures Behind(wire, wire, 0)
  {
  }

  lemma BehindInterim(wire: seq<byte>, rest: seq<byte>, start: nat)
    ensures var next := FrontHead(rest);
            Behind(wire, rest, start) && next.Whole? && next.head.Interim? ==>
              Behind(wire, rest[next.size..], start + next.size)
  {
    hide FrontHead;
    if Behind(wire, rest, start) && FrontHead(rest).Whole? {
      assert rest[FrontHead(rest).size..] == wire[start + FrontHead(rest).size..];
    }
  }
}
