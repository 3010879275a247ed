/** What a response head says, and where the body starts, as a function of the
    bytes on the wire. */
module HeadFraming {
  import opened Bytes
  import opened Text
  import opened ByteStream
  import opened BodyFraming

  const MAX_HEADER_SIZE: nat := 65536
  const HEAD_END: seq<byte> := [13, 10, 13, 10]

  datatype HeadError =
    | ClosedBeforeHeaders | HeadReadFailed | HeadTooLarge
    | HeadNotUtf8 | NoStatusLine | BadStatusLine | BadStatusCode
    | SwitchingProtocols | BadContentLength

  datatype Header = Header(key: string, value: string)

  // ---- One head ----

  function StripCr(line: string): string {
    if line != "" && line[|line| - 1] == '\r' then line[..|line| - 1] else line
  }

  /** str::lines: split behind each LF, dropping it and one CR before it. */
  function Lines(s: string): seq<string> {
    var i := IndexOf(s, '\n');
    if s == "" then []
    else if i == |s| then [s]
    else [StripCr(s[..i])] + Lines(s[i + 1..])
  }

  datatype Status = Code(code: nat) | BadLine | BadCode

  /** The second of the space-separated words of the status line, as a u16. */
  function StatusOf(line: string): Status {
    var i := IndexOf(line, ' ');
    if i == |line| then BadLine
    else
      var word := line[i + 1..];
      match ParseUnsigned(word[..IndexOf(word, ' ')], 10, U16_MAX)
      case None => BadCode
      case Some(code) => Code(code)
  }

  /** Lines without ':' are dropped; names are lower-cased, both parts trimmed. */
  function HeadersOf(lines: seq<string>): seq<Header> {
    if lines == [] then []
    else
      var i := IndexOf(lines[0], ':');
      (if i == |lines[0]| then []
       else [Header(LowerAscii(Trim(lines[0][..i])), Trim(lines[0][i + 1..]))]) + HeadersOf(lines[1..])
  }

  datatype ParsedHead = Interim | Final(status: nat, headers: seq<Header>) | Rejected(error: HeadError)

  function ParseHead(bytes: seq<byte>): ParsedHead {
    match Utf8(bytes)
    case None => Rejected(HeadNotUtf8)
    case Some(text) =>
      var lines := Lines(text);
      if lines == [] then Rejected(NoStatusLine)
      else match StatusOf(lines[0])
        case BadLine => Rejected(BadStatusLine)
        case BadCode => Rejected(BadStatusCode)
        case Code(101) => Rejected(SwitchingProtocols)
        case Code(code) => if 100 <= code < 200 then Interim else Final(code, HeadersOf(lines[1..]))
  }

  predicate SaysChunked(headers: seq<Header>) {
    exists h :: h in headers && h.key == "transfer-encoding"
                && FindSubsequence(LowerAscii(h.value), "chunked").Some?
  }

  function FirstValue(headers: seq<Header>, key: string): Option<string> {
    if headers == [] then None
    else if headers[0].key == key then Some(headers[0].value)
    else FirstValue(headers[1..], key)
  }

  /** Section 6.3 of RFC 9112: no body at all, then Transfer-Encoding, then
      Content-Length, then the end of the connection. None: bad Content-Length. */
  function FramingOf(isHead: bool, status: nat, headers: seq<Header>): Option<Framing> {
    if isHead || status == 204 || status == 304 then Some(NoBody)
    else if SaysChunked(headers) then Some(Chunked)
    else match FirstValue(headers, "content-length")
      case None => Some(UntilEof)
      case Some(value) =>
        match ParseUnsigned(value, 10, USIZE_MAX)
        case None => Option.None
        case Some(n) => Some(ContentLength(n))
  }

  // ---- The whole exchange ----

  datatype HeadOutcome =
    | Head(status: nat, headers: seq<Header>, framing: Framing, bodyAt: nat)
    | HeadFailed(error: HeadError)
  {
    function Behind(n: nat): HeadOutcome {
      if Head? then Head(status, headers, framing, n + bodyAt) else this
    }
  }

  datatype NextHead = Partial | Whole(head: ParsedHead, size: nat)

  /** The head at the front of the wire, and its size with the blank line. */
  function FrontHead(wire: seq<byte>): (r: NextHead)
    ensures r.Whole? ==> 4 <= r.size <= |wire| && FindSubsequence(wire, HEAD_END) == Some(r.size - 4)
    ensures r.Partial? ==> FindSubsequence(wire, HEAD_END).None?
  {
    match FindSubsequence(wire, HEAD_END)
    case None => Partial
    case Some(pos) => Whole(ParseHead(wire[..pos]), pos + 4)
  }

  /** The first head that is not an interim 1xx response. A wire that never
      completes a head fails by its size before it can fail by ending. */
  function ReadHead(wire: seq<byte>, isHead: bool, tail: Tail): (r: HeadOutcome)
    ensures r.Head? ==> r.bodyAt <= |wire|
    decreases |wire|
  {
    match FrontHead(wire)
    case Partial =>
      HeadFailed(if |wire| > MAX_HEADER_SIZE then HeadTooLarge
                 else if tail.Closed? then ClosedBeforeHeaders else HeadReadFailed)
    case Whole(Rejected(e), _) => HeadFailed(e)
    case Whole(Interim, size) => ReadHead(wire[size..], isHead, tail).Behind(size)
    case Whole(Final(status, headers), size) =>
      match FramingOf(isHead, status, headers)
      case None => HeadFailed(BadContentLength)
      case Some(framing) => Head(status, headers, framing, size)
  }

  /** Every head up to the deciding one ends at most one byte past the size
      limit: no cut of the wire can then make the reader give up on it. */
  ghost predicate WithinCap(wire: seq<byte>)
    decreases |wire|
  {
    match FrontHead(wire)
    case Partial => true
    case Whole(head, size) =>
      size <= MAX_HEADER_SIZE + 1 && (head.Interim? ==> WithinCap(wire[size..]))
  }

  /** Some head up to the deciding one ends more than one read past the limit:
      every cut of the wire then makes the reader give up on it. */
  ghost predicate OverCap(wire: seq<byte>, readSize: nat)
    decreases |wire|
  {
    match FrontHead(wire)
    case Partial => |wire| > MAX_HEADER_SIZE
    case Whole(head, size) =>
      size > MAX_HEADER_SIZE + readSize || (head.Interim? && OverCap(wire[size..], readSize))
  }

  /** The bytes of the interim heads in front of the head that decides. */
  function InterimBytes(wire: seq<byte>): (n: nat)
    ensures n <= |wire|
    decreases |wire|
  {
    var next := FrontHead(wire);
    if next.Whole? && next.head.Interim? then next.size + InterimBytes(wire[next.size..]) else 0
  }

  /** The deciding head is the first one behind the interim heads, its fields
      are the ones returned, and the body starts right behind its blank line. */
  lemma {:induction false} HeadIsFirstFinal(wire: seq<byte>, isHead: bool, tail: Tail)
    requires ReadHead(wire, isHead, tail).Head?
    ensures var h := ReadHead(wire, isHead, tail);
            && InterimBytes(wire) <= h.bodyAt
            && FrontHead(wire[InterimBytes(wire)..]) == Whole(Final(h.status, h.headers), h.bodyAt - InterimBytes(wire))
            && FramingOf(isHead, h.status, h.headers) == Some(h.framing)
    decreases |wire|
  {
    var next := FrontHead(wire);
    if next.head.Interim? {
      var rest := wire[next.size..];
      assert ReadHead(wire, isHead, tail) == ReadHead(rest, isHead, tail).Behind(next.size);
      assert InterimBytes(wire) == next.size + InterimBytes(rest);
      HeadIsFirstFinal(rest, isHead, tail);
      assert wire[InterimBytes(wire)..] == rest[InterimBytes(rest)..];
    } else {
      assert wire[InterimBytes(wire)..] == wire;
    }
  }

  /** Bytes that have arrived hold a complete head exactly when the whole wire's
      head lies inside them, and then it is the same head. */
  lemma FrontHeadIsStable(arrived: seq<byte>, later: seq<byte>)
    ensures FrontHead(arrived).Whole? ==> FrontHead(arrived + later) == FrontHead(arrived)
    ensures FrontHead(arrived).Partial? && FrontHead(arrived + later).Whole? ==>
              FrontHead(arrived + later).size > |arrived|
  {
    FindIsStable(arrived, later, HEAD_END);
    var next := FrontHead(arrived);
    if next.Whole? {
      assert (arrived + later)[..next.size - 4] == arrived[..next.size - 4];
    }
  }
}
