/** The chunked decoder against the message grammar of section 7.1 of RFC 9112,
    in the dialect the decoder accepts: blank size lines between chunks, no
    trailer section (decoding stops behind the last chunk's size line). */
module ChunkedGrammar {
  import opened Bytes
  import opened ByteStream
  import opened BodyFraming

  /** A size line and the data it announces; blank lines announce none. */
  datatype Frame = Frame(line: seq<byte>, data: seq<byte>)

  /** Followed by a CRLF, the line ends at that CRLF and at no earlier one. */
  ghost predicate IsLine(line: seq<byte>) {
    FindSubsequence(line + CRLF, CRLF) == Some(|line|)
  }

  ghost predicate WellFormed(f: Frame) {
    && IsLine(f.line)
    && match ReadSizeLine(f.line)
       case Blank => f.data == []
       case Size(n) => n > 0 && |f.data| == n
       case _ => false
  }

  ghost predicate IsLast(line: seq<byte>) { IsLine(line) && ReadSizeLine(line) == Size(0) }

  ghost predicate AllWellFormed(frames: seq<Frame>) {
    forall i :: 0 <= i < |frames| ==> WellFormed(frames[i])
  }

  function FrameBytes(f: Frame): seq<byte> {
    f.line + CRLF + (if f.data == [] then [] else f.data + CRLF)
  }

  function FramesBytes(frames: seq<Frame>): seq<byte> {
    if frames == [] then [] else FrameBytes(frames[0]) + FramesBytes(frames[1..])
  }

  function Payload(frames: seq<Frame>): seq<byte> {
    if frames == [] then [] else frames[0].data + Payload(frames[1..])
  }

  /** The bytes the decoder consumes for a message: up to and including the
      CRLF of the last chunk's size line. */
  function MessageBytes(frames: seq<Frame>, last: seq<byte>): seq<byte> {
    FramesBytes(frames) + last + CRLF
  }

  /** A line at the front of the wire is found as such whatever follows it. */
  lemma LineAtFront(line: seq<byte>, rest: seq<byte>)
    requires IsLine(line)
    ensures FrontLine(line + CRLF + rest) == Line(ReadSizeLine(line), rest)
  {
    FindIsStable(line + CRLF, rest, CRLF);
    assert (line + CRLF + rest)[..|line|] == line;
    assert (line + CRLF + rest)[|line| + 2..] == rest;
  }

  /** A wire cut off before a line's CRLF is complete holds no line at all. */
  lemma CutLine(line: seq<byte>, cut: seq<byte>)
    requires IsLine(line)
    requires cut <= line + CRLF && |cut| < |line| + 2
    ensures FrontLine(cut) == NoLine
  {
    var whole := line + CRLF;
    FindIsStable(cut, whole[|cut|..], CRLF);
    assert cut + whole[|cut|..] == whole;
  }

  lemma DecodeData(data: seq<byte>, rest: seq<byte>, tail: Tail)
    requires data != []
    ensures DecodeChunks(InData(|data|), data + CRLF + rest, tail) == DecodeChunks(BeforeSize, rest, tail).After(data)
  {
    var wire := data + CRLF + rest;
    assert wire[|data|..] == CRLF + rest && wire[..|data|] == data;
    UnfoldData(|data|, wire, tail);
    assert (CRLF + rest)[..2] == CRLF && (CRLF + rest)[2..] == rest;
    assert DecodeChunks(BeforeCrlf, CRLF + rest, tail) == DecodeChunks(BeforeSize, rest, tail);
  }

  /** The decoder takes one well-formed frame off the front. */
  lemma DecodeFrame(f: Frame, rest: seq<byte>, tail: Tail)
    requires WellFormed(f)
    ensures DecodeChunks(BeforeSize, FrameBytes(f) + rest, tail) ==
            DecodeChunks(BeforeSize, rest, tail).After(f.data)
  {
    var after := if f.data == [] then rest else f.data + CRLF + rest;
    assert FrameBytes(f) + rest == f.line + CRLF + after;
    LineAtFront(f.line, after);
    UnfoldLine(f.line + CRLF + after, tail);
    if f.data != [] {
      DecodeData(f.data, rest, tail);
    } else {
      assert [] + DecodeChunks(BeforeSize, rest, tail).body == DecodeChunks(BeforeSize, rest, tail).body;
    }
  }

  lemma DecodeLast(last: seq<byte>, rest: seq<byte>, tail: Tail)
    requires IsLast(last)
    ensures DecodeChunks(BeforeSize, last + CRLF + rest, tail) == Outlook([], Complete)
  {
    LineAtFront(last, rest);
    UnfoldLine(last + CRLF + rest, tail);
  }

  lemma MessageSplits(frames: seq<Frame>, last: seq<byte>, rest: seq<byte>)
    ensures frames == [] ==> MessageBytes(frames, last) + rest == last + CRLF + rest
    ensures frames != [] ==>
              MessageBytes(frames, last) + rest == FrameBytes(frames[0]) + (MessageBytes(frames[1..], last) + rest)
  {
    assert frames == [] ==> MessageBytes(frames, last) == last + CRLF;
  }

  /** Completeness: every message decodes to its payload, and neither the bytes
      behind it nor the way the stream ends afterwards can change that. */
  lemma {:induction false} MessageDecodes(frames: seq<Frame>, last: seq<byte>, rest: seq<byte>, tail: Tail)
    requires AllWellFormed(frames) && IsLast(last)
    ensures DecodeChunks(BeforeSize, MessageBytes(frames, last) + rest, tail) ==
            Outlook(Payload(frames), Complete)
  {
    MessageSplits(frames, last, rest);
    if frames == [] {
      DecodeLast(last, rest, tail);
    } else {
      MessageDecodes(frames[1..], last, rest, tail);
      DecodeFrame(frames[0], MessageBytes(frames[1..], last) + rest, tail);
    }
  }

  lemma DataIsClosed(n: nat, wire: seq<byte>, tail: Tail)
    requires n > 0 && DecodeChunks(InData(n), wire, tail).end.Complete?
    ensures n + 2 <= |wire| && wire[n..n + 2] == CRLF
  {
    if n <= |wire| {
      UnfoldData(n, wire, tail);
      assert |wire[n..]| >= 2 ==> wire[n..][..2] == wire[n..n + 2];
    }
  }

  /** What the front of a cleanly decoding wire must be. */
  datatype Front = LastLine(line: seq<byte>) | FirstFrame(frame: Frame)

  lemma FirstLine(wire: seq<byte>) returns (line: seq<byte>, after: seq<byte>)
    requires FrontLine(wire).Line?
    ensures IsLine(line) && wire == line + CRLF + after
    ensures FrontLine(wire) == Line(ReadSizeLine(line), after)
  {
    var pos := FindSubsequence(wire, CRLF).value;
    line, after := wire[..pos], wire[pos + 2..];
    assert wire == line + CRLF + after;
    FindIsStable(line + CRLF, after, CRLF);
    assert OccursAt(line + CRLF, CRLF, pos);
  }

  lemma FrameInFront(wire: seq<byte>, line: seq<byte>, after: seq<byte>, data: seq<byte>, rest: seq<byte>)
    requires wire == line + CRLF + after && data != []
    requires |data| + 2 <= |after| && after[..|data|] == data && after[|data|..|data| + 2] == CRLF && after[|data| + 2..] == rest
    ensures wire == FrameBytes(Frame(line, data)) + rest
  {
    assert after == data + CRLF + rest;
    assert wire == line + CRLF + (data + CRLF + rest);
  }

  lemma PeelFront(wire: seq<byte>, tail: Tail) returns (front: Front, rest: seq<byte>)
    requires DecodeChunks(BeforeSize, wire, tail).end.Complete?
    ensures front.LastLine? ==>
              IsLast(front.line) && wire == front.line + CRLF + rest
              && DecodeChunks(BeforeSize, wire, tail) == Outlook([], Complete)
    ensures front.FirstFrame? ==>
              WellFormed(front.frame) && wire == FrameBytes(front.frame) + rest
  {
    if FrontLine(wire) == NoLine { NoLineFails(wire, tail); }
    hide DecodeChunks, FrontLine, ReadSizeLine, IsLine;
    var line, after := FirstLine(wire);
    UnfoldLine(wire, tail);
    match ReadSizeLine(line)
    case Blank =>
      front, rest := FirstFrame(Frame(line, [])), after;
    case Size(n) =>
      if n == 0 {
        front, rest := LastLine(line), after;
      } else {
        DataIsClosed(n, after, tail);
        var data := after[..n];
        front, rest := FirstFrame(Frame(line, data)), after[n + 2..];
        FrameInFront(wire, line, after, data, rest);
      }
  }

  /** Soundness: whatever decodes cleanly starts with a message of that payload. */
  lemma {:induction false} DecodedIsMessage(wire: seq<byte>, tail: Tail)
      returns (frames: seq<Frame>, last: seq<byte>, rest: seq<byte>)
    requires DecodeChunks(BeforeSize, wire, tail).end.Complete?
    ensures AllWellFormed(frames) && IsLast(last)
    ensures wire == MessageBytes(frames, last) + rest
    ensures Payload(frames) == DecodeChunks(BeforeSize, wire, tail).body
    decreases |wire|
  {
    var front, next := PeelFront(wire, tail);
    match front
    case LastLine(line) =>
      frames, last, rest := [], line, next;
      MessageSplits(frames, last, rest);
    case FirstFrame(frame) =>
      DecodeFrame(frame, next, tail);
      var inner;
      inner, last, rest := DecodedIsMessage(next, tail);
      frames := [frame] + inner;
      assert frames[1..] == inner;
      MessageSplits(frames, last, rest);
  }

  /** The decoder ends cleanly with a given body exactly on the wires that begin
      with a well-formed message of that payload. */
  lemma ChunkedIff(wire: seq<byte>, tail: Tail, body: seq<byte>)
    ensures DecodeChunks(BeforeSize, wire, tail) == Outlook(body, Complete) <==>
            exists frames, last :: AllWellFormed(frames) && IsLast(last) &&
                                   MessageBytes(frames, last) <= wire && Payload(frames) == body
  {
    if DecodeChunks(BeforeSize, wire, tail) == Outlook(body, Complete) {
      var frames, last, rest := DecodedIsMessage(wire, tail);
    }
    forall frames, last | AllWellFormed(frames) && IsLast(last) && MessageBytes(frames, last) <= wire
      ensures DecodeChunks(BeforeSize, wire, tail) == Outlook(Payload(frames), Complete)
    {
      var m := MessageBytes(frames, last);
      assert wire == m + wire[|m|..];
      MessageDecodes(frames, last, wire[|m|..], tail);
    }
  }

  /** No proper prefix of a message decodes cleanly: a connection cut anywhere
      before the end of the last size line is always reported as an error, and
      what was delivered by then is a prefix of the payload. */
  lemma {:induction false} CutMessageFails(frames: seq<Frame>, last: seq<byte>, cut: seq<byte>, tail: Tail)
    requires AllWellFormed(frames) && IsLast(last)
    requires cut < MessageBytes(frames, last)
    ensures DecodeChunks(BeforeSize, cut, tail).end.Failed?
    ensures DecodeChunks(BeforeSize, cut, tail).body <= Payload(frames)
  {
    hide DecodeChunks, FrontLine, ReadSizeLine, IsLine, WellFormed;
    MessageSplits(frames, last, []);
    assert MessageBytes(frames, last) + [] == MessageBytes(frames, last);
    if frames == [] {
      assert last + CRLF + [] == last + CRLF;
      CutLine(last, cut);
      NoLineFails(cut, tail);
    } else {
      var head, inner := FrameBytes(frames[0]), MessageBytes(frames[1..], last);
      assert inner + [] == inner;
      if |cut| < |head| {
        assert cut == (head + inner)[..|cut|] == head[..|cut|];
        CutFrameFails(frames[0], cut, tail);
      } else {
        assert cut == (head + inner)[..|cut|] == head + inner[..|cut| - |head|];
        var innerCut := cut[|head|..];
        assert cut == head + innerCut;
        CutMessageFails(frames[1..], last, innerCut, tail);
        DecodeFrame(frames[0], innerCut, tail);
      }
    }
  }

  /** Data cut short, or with a byte of its CRLF missing. */
  lemma CutDataFails(data: seq<byte>, cut: seq<byte>, tail: Tail)
    requires data != [] && cut < data + CRLF
    ensures DecodeChunks(InData(|data|), cut, tail).end.Failed?
    ensures DecodeChunks(InData(|data|), cut, tail).body <= data
  {
    assert cut == (data + CRLF)[..|cut|];
    if |cut| < |data| {
      assert cut == data[..|cut|];
    } else {
      UnfoldData(|data|, cut, tail);
      assert cut[..|data|] == data;
      assert |cut[|data|..]| < 2;
    }
  }

  lemma CutFrameFails(f: Frame, cut: seq<byte>, tail: Tail)
    requires WellFormed(f) && cut < FrameBytes(f)
    ensures DecodeChunks(BeforeSize, cut, tail).end.Failed?
    ensures DecodeChunks(BeforeSize, cut, tail).body <= f.data
  {
    hide DecodeChunks, FrontLine, ReadSizeLine, IsLine;
    var line := f.line + CRLF;
    if |cut| < |line| {
      assert cut == FrameBytes(f)[..|cut|] == line[..|cut|];
      CutLine(f.line, cut);
      NoLineFails(cut, tail);
    } else {
      var inData := cut[|line|..];
      assert cut == FrameBytes(f)[..|cut|] == line + inData;
      LineAtFront(f.line, inData);
      UnfoldLine(line + inData, tail);
      if f.data != [] {
        assert inData == (f.data + CRLF)[..|inData|];
        CutDataFails(f.data, inData, tail);
      }
    }
  }

  /** A message is delimited by itself: two messages at the front of one wire
      take the same number of bytes. */
  lemma MessageEndIsUnique(frames: seq<Frame>, last: seq<byte>, frames': seq<Frame>, last': seq<byte>, wire: seq<byte>)
    requires AllWellFormed(frames) && IsLast(last) && MessageBytes(frames, last) <= wire
    requires AllWellFormed(frames') && IsLast(last') && MessageBytes(frames', last') <= wire
    ensures |MessageBytes(frames, last)| == |MessageBytes(frames', last')|
  {
    var m, m' := MessageBytes(frames, last), MessageBytes(frames', last');
    MessageDecodes(frames, last, [], Closed);
    MessageDecodes(frames', last', [], Closed);
    assert m + [] == m && m' + [] == m';
    assert |m| < |m'| ==> m == wire[..|m|] == m'[..|m|];
    assert |m'| < |m| ==> m' == wire[..|m'|] == m[..|m'|];
    if m < m' { CutMessageFails(frames', last', m, Closed); }
    if m' < m { CutMessageFails(frames, last, m', Closed); }
  }
}
