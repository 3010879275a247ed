/** What a response body is, as a function of the bytes on the wire.
    Nothing here knows how the network cut those bytes into reads. */
module BodyFraming {
  import opened Bytes
  import opened Text
  import opened ByteStream

  datatype Framing = ContentLength(len: nat) | Chunked | UntilEof | NoBody

  datatype BodyError =
    | Truncated(got: nat, expected: nat)
    | ReadFailed
    | ClosedInChunk(remaining: nat)
    | ClosedBeforeChunkCrlf
    | MalformedChunkCrlf
    | SizeNotUtf8
    | BadChunkSize
    | ClosedBeforeTerminator

  datatype End = Complete | Failed(error: BodyError)

  /** The bytes still to be delivered, and how delivery ends. */
  datatype Outlook = Outlook(body: seq<byte>, end: End) {
    function After(chunk: seq<byte>): Outlook { Outlook(chunk + body, end) }
  }

  /** The error when a read finds nothing where bytes were still owed. */
  function Shortfall(tail: Tail, clean: BodyError): End {
    Failed(if tail.Closed? then clean else ReadFailed)
  }

  /** Content-Length: exactly the bytes owed, or an error after the short body. */
  function LengthOutlook(got: nat, len: nat, wire: seq<byte>, tail: Tail): Outlook {
    var owed := if got <= len then len - got else 0;
    if owed <= |wire| then Outlook(wire[..owed], Complete)
    else Outlook(wire, Shortfall(tail, Truncated(got + |wire|, len)))
  }

  /** Close-delimited: everything. A read error counts as a close once at least
      one byte was delivered. */
  function EofOutlook(got: nat, wire: seq<byte>, tail: Tail): Outlook {
    Outlook(wire, if tail.Broken? && got + |wire| == 0 then Failed(ReadFailed) else Complete)
  }

  // ---- Chunked transfer coding ----

  datatype SizeLine = Blank | Size(n: nat) | NotUtf8 | Bad

  /** What a chunk-size line says: extensions after ';' and surrounding space
      are dropped, and a line with nothing left is skipped by the decoder. */
  function ReadSizeLine(line: seq<byte>): SizeLine {
    match Utf8(line)
    case None => NotUtf8
    case Some(text) =>
      var size := Trim(text[..IndexOf(text, ';')]);
      if size == "" then Blank
      else match ParseUnsigned(size, 16, USIZE_MAX)
        case None => Bad
        case Some(n) => Size(n)
  }

  datatype MaybeLine = NoLine | Line(says: SizeLine, after: seq<byte>)

  /** The line up to the first CRLF, and what follows that CRLF. */
  function FrontLine(wire: seq<byte>): (r: MaybeLine)
    ensures r.Line? ==> |r.after| < |wire|
  {
    match FindSubsequence(wire, CRLF)
    case None => NoLine
    case Some(pos) => Line(ReadSizeLine(wire[..pos]), wire[pos + 2..])
  }

  /** The decoder's position: inside chunk data, before the CRLF that closes a
      chunk, or before a size line. */
  datatype Position = InData(remaining: nat) | BeforeCrlf | BeforeSize

  function DecodeChunks(at: Position, wire: seq<byte>, tail: Tail): Outlook
    decreases |wire|, !at.BeforeSize?
  {
    match at
    case InData(remaining) =>
      if remaining == 0 then DecodeChunks(BeforeSize, wire, tail)
      else if |wire| < remaining then
        Outlook(wire, Shortfall(tail, ClosedInChunk(remaining - |wire|)))
      else DecodeChunks(BeforeCrlf, wire[remaining..], tail).After(wire[..remaining])
    case BeforeCrlf =>
      if |wire| < 2 then Outlook([], Shortfall(tail, ClosedBeforeChunkCrlf))
      else if wire[..2] != CRLF then Outlook([], Failed(MalformedChunkCrlf))
      else DecodeChunks(BeforeSize, wire[2..], tail)
    case BeforeSize =>
      match FrontLine(wire)
      case NoLine => Outlook([], Shortfall(tail, ClosedBeforeTerminator))
      case Line(NotUtf8, _) => Outlook([], Failed(SizeNotUtf8))
      case Line(Bad, _) => Outlook([], Failed(BadChunkSize))
      case Line(Blank, after) => DecodeChunks(BeforeSize, after, tail)
      case Line(Size(n), after) =>
        if n == 0 then Outlook([], Complete) else DecodeChunks(InData(n), after, tail)
  }

  lemma UnfoldData(remaining: nat, wire: seq<byte>, tail: Tail)
    requires 0 < remaining <= |wire|
    ensures DecodeChunks(InData(remaining), wire, tail) ==
            DecodeChunks(BeforeCrlf, wire[remaining..], tail).After(wire[..remaining])
  {
  }

  /** What follows a size line is decoded as the line says. */
  function AfterLine(says: SizeLine, after: seq<byte>, tail: Tail): Outlook {
    match says
    case NotUtf8 => Outlook([], Failed(SizeNotUtf8))
    case Bad => Outlook([], Failed(BadChunkSize))
    case Blank => DecodeChunks(BeforeSize, after, tail)
    case Size(n) => if n == 0 then Outlook([], Complete) else DecodeChunks(InData(n), after, tail)
  }

  lemma UnfoldLine(wire: seq<byte>, tail: Tail)
    requires FrontLine(wire).Line?
    ensures DecodeChunks(BeforeSize, wire, tail) == AfterLine(FrontLine(wire).says, FrontLine(wire).after, tail)
  {
  }

  lemma NoLineFails(wire: seq<byte>, tail: Tail)
    requires FrontLine(wire) == NoLine
    ensures DecodeChunks(BeforeSize, wire, tail) == Outlook([], Shortfall(tail, ClosedBeforeTerminator))
  {
  }

  /** A line that has arrived is the front line of the whole wire. */
  lemma LineHasArrived(held: seq<byte>, later: seq<byte>)
    ensures match FindSubsequence(held, CRLF)
            case None => FrontLine(held) == NoLine
            case Some(pos) =>
              pos + 2 <= |held| && FrontLine(held + later) == Line(ReadSizeLine(held[..pos]), held[pos + 2..] + later)
  {
    hide ReadSizeLine;
    FindIsStable(held, later, CRLF);
    if FindSubsequence(held, CRLF).Some? {
      var pos := FindSubsequence(held, CRLF).value;
      assert (held + later)[..pos] == held[..pos] && (held + later)[pos + 2..] == held[pos + 2..] + later;
    }
  }

  lemma AfterAfter(o: Outlook, a: seq<byte>, b: seq<byte>)
    ensures o.After(b).After(a) == o.After(a + b)
  {
    assert a + (b + o.body) == a + b + o.body;
  }

  /** The body a response carries, read from its first byte. */
  function BodyOf(framing: Framing, wire: seq<byte>, tail: Tail): Outlook {
    match framing
    case NoBody => Outlook([], Complete)
    case ContentLength(len) => LengthOutlook(0, len, wire, tail)
    case Chunked => DecodeChunks(BeforeSize, wire, tail)
    case UntilEof => EofOutlook(0, wire, tail)
  }
}
