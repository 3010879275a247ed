/** One exchange of a gateway client over one stream of its connection. */
module GatewayExchange {
  import opened Bytes
  import opened Text
  import opened ByteStream
  import HeadFraming

  // ---- The stream ----

  /** A stream that the connection's teardown may cancel: from then on reads
      report a clean end, and bytes that had not been read are gone. */
  class GatewayStream {
    var incoming: seq<byte>
    const tail: Tail
    /** How many more bytes will be read before the teardown runs, if it does. */
    var teardownIn: Option<nat>

    constructor (wire: seq<byte>, tail: Tail, teardownIn: Option<nat>)
      ensures incoming == wire && this.tail == tail && this.teardownIn == teardownIn
    {
      incoming, this.tail, this.teardownIn := wire, tail, teardownIn;
    }

    /** The bytes that will be read, and how the stream then ends. */
    ghost function Rest(): seq<byte>
      reads this
    {
      Readable(incoming, teardownIn)
    }

    ghost function End(): Tail
      reads this
    {
      EndOf(incoming, tail, teardownIn)
    }

    /** Any piece of what can still be read, or the end. */
    method Read() returns (r: ReadResult)
      modifies this
      ensures match r
              case Data(bytes) => bytes != [] && old(Rest()) == bytes + Rest()
              case Eof => old(Rest()) == [] && old(End()).Closed?
              case IoError => old(Rest()) == [] && old(End()).Broken?
      ensures End() == old(End())
    {
      if teardownIn == Some(0) {
        return Eof;
      }
      if incoming == [] {
        return if tail.Closed? then Eof else IoError;
      }
      var n: nat :| 0 < n <= |incoming| && (teardownIn.Some? ==> n <= teardownIn.value);
      r := Data(incoming[..n]);
      incoming := incoming[n..];
      if teardownIn.Some? {
        teardownIn := Some(teardownIn.value - n);
      }
    }
  }

  function Readable(wire: seq<byte>, teardownIn: Option<nat>): seq<byte> {
    if teardownIn.Some? && teardownIn.value <= |wire| then wire[..teardownIn.value] else wire
  }

  function EndOf(wire: seq<byte>, tail: Tail, teardownIn: Option<nat>): Tail {
    if teardownIn.Some? && teardownIn.value <= |wire| then Closed else tail
  }

  // ---- The status line ----

  /** The \s of a JavaScript regular expression. */
  predicate IsJsSpace(c: char) {
    var u := c as int;
    9 <= u <= 13 || u == 0x20 || u == 0xA0 || u == 0x1680 || 0x2000 <= u <= 0x200A
    || u == 0x2028 || u == 0x2029 || u == 0x202F || u == 0x205F || u == 0x3000 || u == 0xFEFF
  }

  /** What its dot does not match. */
  predicate EndsLine(c: char) { c == '\n' || c == '\r' || c as int == 0x2028 || c as int == 0x2029 }

  /** JavaScript's white space is Unicode's, without the next-line character and with the
      byte order mark; what ends a line is white space, printable ASCII never does. */
  lemma JsSpaceIs(c: char)
    ensures IsJsSpace(c) <==> (IsSpace(c) && c as int != 0x85) || c as int == 0xFEFF
    ensures EndsLine(c) <==> IsJsSpace(c) && c as int in {10, 13, 8232, 8233}
    ensures '!' <= c <= '~' ==> !IsJsSpace(c)
  {
  }

  predicate OnOneLine(s: string) { forall i :: 0 <= i < |s| ==> !EndsLine(s[i]) }

  predicate AllJsSpace(s: string) { forall i :: 0 <= i < |s| ==> IsJsSpace(s[i]) }

  predicate IsDigit(c: char) { '0' <= c <= '9' }

  function SkipJsSpace(s: string): (i: nat)
    ensures i <= |s| && AllJsSpace(s[..i]) && (i < |s| ==> !IsJsSpace(s[i]))
  {
    if s == "" || !IsJsSpace(s[0]) then 0 else
      var i := SkipJsSpace(s[1..]) + 1;
      assert s[..i] == [s[0]] + s[1..][..i - 1];
      i
  }

  function FirstLine(text: string, crlf: string): string
    requires crlf != ""
  {
    match FindSubsequence(text, crlf)
    case None => text
    case Some(i) => text[..i]
  }

  /** Status and reason of a line that starts with `version`. */
  function ReadStatusLine(line: string, version: string): Option<(nat, string)> {
    var n := |version|;
    if |line| < n + 3 || line[..n] != version || !(IsDigit(line[n]) && IsDigit(line[n + 1]) && IsDigit(line[n + 2])) then None
    else
      var rest := line[n + 3..];
      var reason := rest[SkipJsSpace(rest)..];
      if OnOneLine(reason) then Some((DigitsValue(line[n..n + 3], 10), reason)) else None
  }

  /** A line is accepted exactly when it is the version, three digits, white space
      and a reason that stays on one line; leading white space is not part of it. */
  lemma StatusLineIff(line: string, version: string)
    ensures ReadStatusLine(line, version).Some? <==>
            exists digits, space, reason :: StatusParts(line, version, digits, space, reason)
    ensures forall digits, space, reason :: StatusParts(line, version, digits, space, reason) ==>
              ReadStatusLine(line, version) == Some((DigitsValue(digits, 10), reason))
  {
    var n := |version|;
    if ReadStatusLine(line, version).Some? {
      var rest := line[n + 3..];
      var i := SkipJsSpace(rest);
      assert line == version + line[n..n + 3] + rest[..i] + rest[i..];
      assert StatusParts(line, version, line[n..n + 3], rest[..i], rest[i..]);
    }
    forall digits, space, reason | StatusParts(line, version, digits, space, reason)
      ensures ReadStatusLine(line, version) == Some((DigitsValue(digits, 10), reason))
    {
      PartsAreRead(line, version, digits, space, reason);
    }
  }

  ghost predicate StatusParts(line: string, version: string, digits: string, space: string, reason: string) {
    && line == version + digits + space + reason && |digits| == 3 && AllDigits(digits, 10) && AllJsSpace(space)
    && OnOneLine(reason) && (reason != "" ==> !IsJsSpace(reason[0]))
  }

  lemma PartsAreRead(line: string, version: string, digits: string, space: string, reason: string)
    requires StatusParts(line, version, digits, space, reason)
    ensures ReadStatusLine(line, version) == Some((DigitsValue(digits, 10), reason))
  {
    hide DigitsValue, IsJsSpace, EndsLine, SkipJsSpace;
    ThreeParts(version, digits, space + reason);
    ConcatAssoc(version + digits, space, reason);
    SkipsAll(space, reason);
    assert (space + reason)[|space|..] == reason;
    assert digits[0] in digits && digits[1] in digits && digits[2] in digits;
  }

  lemma ThreeParts(version: string, digits: string, rest: string)
    requires |digits| == 3
    ensures var line, n := version + digits + rest, |version|;
            && line[..n] == version && line[n..n + 3] == digits && line[n + 3..] == rest
            && line[n] == digits[0] && line[n + 1] == digits[1] && line[n + 2] == digits[2]
  {
  }

  lemma {:induction false} SkipsAll(space: string, reason: string)
    requires AllJsSpace(space) && (reason != "" ==> !IsJsSpace(reason[0]))
    ensures SkipJsSpace(space + reason) == |space|
  {
    if space == "" {
      assert space + reason == reason;
    } else {
      SkipsAll(space[1..], reason);
      assert (space + reason)[1..] == space[1..] + reason;
    }
  }

  // ---- The exchange ----

  /** The scan of findHeadEnd: -1, or the first offset of the blank line. */
  method FindHeadEnd(buf: seq<byte>) returns (at: int)
    ensures at == -1 <==> FindSubsequence(buf, HeadFraming.HEAD_END).None?
    ensures at != -1 ==> FindSubsequence(buf, HeadFraming.HEAD_END) == Some(at)
  {
    var end := HeadFraming.HEAD_END;
    var i := 0;
    while i + 3 < |buf|
      invariant 0 <= i
      invariant forall j :: 0 <= j < i ==> !OccursAt(buf, end, j)
    {
      ghost var window := buf[i..i + 4];
      assert window[0] == buf[i] && window[1] == buf[i + 1] && window[2] == buf[i + 2] && window[3] == buf[i + 3];
      if buf[i] == 13 && buf[i + 1] == 10 && buf[i + 2] == 13 && buf[i + 3] == 10 {
        assert window == end;
        FirstMatchIsUnique(buf, end, i);
        return i;
      }
      i := i + 1;
    }
    return -1;
  }

  /** The version and the line end that the parser looks for. */
  const VERSION := "HTTP/1.1 "
  const LINE_END := "\r\n"

  type Decoder = seq<byte> -> string

  function StatusOf(head: seq<byte>, decode: Decoder): Option<(nat, string)> {
    ReadStatusLine(FirstLine(decode(head), LINE_END), VERSION)
  }

  /** The status line up to the first line end, if there is one: the version, three digits,
      white space, and a reason that stays on one line. */
  ghost predicate StatusText(text: string, digits: string, space: string, reason: string, more: string) {
    var line := "HTTP/1.1 " + digits + space + reason;
    && text == line + more && (more == "" || "\r\n" <= more) && (forall p :: !OccursAt(line, "\r\n", p))
    && |digits| == 3 && AllDigits(digits, 10) && AllJsSpace(space)
    && OnOneLine(reason) && (reason != "" ==> !IsJsSpace(reason[0]))
  }

  lemma NoMarkAcross(line: string, more: string, p: nat)
    requires (more == "" || "\r\n" <= more) && p < |line|
    ensures OccursAt(line + more, "\r\n", p) ==> OccursAt(line, "\r\n", p)
  {
    var text := line + more;
    if p + 2 <= |line| {
      assert text[p..p + 2] == line[p..p + 2];
    } else if more != "" {
      assert text[p..p + 2][1] == more[0] == "\r\n"[0];
    }
  }

  lemma FirstLineIs(text: string, line: string, more: string)
    requires text == line + more && (more == "" || "\r\n" <= more) && forall p :: !OccursAt(line, "\r\n", p)
    ensures FirstLine(text, "\r\n") == line
  {
    var mark := "\r\n";
    if more == "" {
      assert text == line;
    } else {
      assert text[|line|..|line| + 2] == more[..2] == mark;
      forall p | 0 <= p < |line| ensures !OccursAt(text, mark, p) {
        NoMarkAcross(line, more, p);
      }
      FirstMatchIsUnique(text, mark, |line|);
    }
  }

  lemma FirstLineParts(text: string) returns (line: string, more: string)
    ensures line == FirstLine(text, "\r\n") && text == line + more && (more == "" || "\r\n" <= more)
    ensures forall p :: !OccursAt(line, "\r\n", p)
  {
    line := FirstLine(text, "\r\n");
    more := text[|line|..];
    forall p | OccursAt(line, "\r\n", p) ensures OccursAt(text, "\r\n", p) {
      assert text[p..p + 2] == line[p..p + 2];
    }
    if more != "" {
      assert more[..2] == text[|line|..|line| + 2];
    }
  }

  /** A head has a status exactly when its text begins with such a line. */
  lemma StatusIff(head: seq<byte>, decode: Decoder, code: nat, reason: string)
    ensures StatusOf(head, decode) == Some((code, reason)) <==>
            exists digits, space, more :: StatusText(decode(head), digits, space, reason, more) && DigitsValue(digits, 10) == code
  {
    hide ReadStatusLine, FirstLine, OccursAt;
    var text := decode(head);
    var line, more := FirstLineParts(text);
    StatusLineIff(line, "HTTP/1.1 ");
    if StatusOf(head, decode) == Some((code, reason)) {
      var digits, space, own :| StatusParts(line, "HTTP/1.1 ", digits, space, own);
      assert StatusText(text, digits, space, reason, more);
    }
    forall digits, space, behind | StatusText(text, digits, space, reason, behind) && DigitsValue(digits, 10) == code
      ensures StatusOf(head, decode) == Some((code, reason))
    {
      FirstLineIs(text, "HTTP/1.1 " + digits + space + reason, behind);
      assert StatusParts(line, "HTTP/1.1 ", digits, space, reason);
    }
  }

  /** Printable ASCII that does not begin with a space. */
  predicate Plain(reason: string) {
    (forall i :: 0 <= i < |reason| ==> ' ' <= reason[i] <= '~') && (reason != "" ==> reason[0] != ' ')
  }

  /** The usual head: version, code and plain reason, one space between them. */
  lemma UsualHead(head: seq<byte>, decode: Decoder, digits: string, reason: string, more: string)
    requires |digits| == 3 && AllDigits(digits, 10) && Plain(reason) && (more == "" || "\r\n" <= more)
    requires decode(head) == "HTTP/1.1 " + digits + " " + reason + more
    ensures StatusOf(head, decode) == Some((DigitsValue(digits, 10), reason))
  {
    var line := "HTTP/1.1 " + digits + " " + reason;
    assert forall i :: 0 <= i < 3 ==> digits[i] in digits;
    forall p | OccursAt(line, "\r\n", p) ensures line[p] == '\r' {
      assert line[p] == line[p..p + 2][0];
    }
    assert forall i :: 0 <= i < |line| ==> line[i] != '\r';
    forall i | 0 <= i < |reason| ensures !EndsLine(reason[i]) && (reason[i] != ' ' ==> !IsJsSpace(reason[i])) {
      JsSpaceIs(reason[i]);
    }
    JsSpaceIs(' ');
    hide IsJsSpace, EndsLine, AllDigits, DigitsValue;
    assert StatusText(decode(head), digits, " ", reason, more);
    StatusIff(head, decode, DigitsValue(digits, 10), reason);
  }

  /** A response whose body ends with the stream, or the error of the call. */
  datatype Exchange = NoResponse | Response(status: (nat, string), head: seq<byte>, body: seq<byte>)

  function ExchangeOf(wire: seq<byte>, tail: Tail, decode: Decoder): Exchange {
    match FindSubsequence(wire, HeadFraming.HEAD_END)
    case None => NoResponse
    case Some(p) =>
      match StatusOf(wire[..p], decode)
      case None => Exchange.NoResponse
      case Some(status) => if tail.Closed? then Response(status, wire[..p], wire[p + 4..]) else NoResponse
  }

  datatype HeadRead = NoHead | BadStatus | GoodHead(status: (nat, string), head: seq<byte>, extra: seq<byte>)

  /** readHead: the head, and the body bytes that came along with it. */
  method ReadHead(stream: GatewayStream, decode: Decoder) returns (r: HeadRead)
    modifies stream
    ensures stream.End() == old(stream.End())
    ensures r.NoHead? <==> FindSubsequence(old(stream.Rest()), HeadFraming.HEAD_END).None?
    ensures !r.NoHead? ==>
              var p := FindSubsequence(old(stream.Rest()), HeadFraming.HEAD_END).value;
              && (r.BadStatus? <==> StatusOf(old(stream.Rest())[..p], decode).None?)
              && (r.GoodHead? ==> r.head == old(stream.Rest())[..p] && Some(r.status) == StatusOf(r.head, decode)
                                  && r.extra + stream.Rest() == old(stream.Rest())[p + 4..])
  {
    hide Readable, EndOf, ReadStatusLine, FirstLine;
    ghost var wire, end := stream.Rest(), stream.End();
    var buf: seq<byte> := [];
    while true
      invariant buf + stream.Rest() == wire && stream.End() == end
      decreases |stream.Rest()|
    {
      ghost var rest := stream.Rest();
      FindIsStable(buf, rest, HeadFraming.HEAD_END);
      var sep := FindHeadEnd(buf);
      if sep != -1 {
        assert wire[..sep] == buf[..sep] && wire[sep + 4..] == buf[sep + 4..] + rest;
        var status := StatusOf(buf[..sep], decode);
        if status.None? {
          return BadStatus;
        }
        return GoodHead(status.value, buf[..sep], buf[sep + 4..]);
      }
      var got := stream.Read();
      if !got.Data? {
        assert buf + rest == buf;
        return NoHead;
      }
      assert buf + rest == buf + got.bytes + stream.Rest();
      buf := buf + got.bytes;
    }
  }

  /** fetch: a function of the bytes that could be read and of how reading ended,
      whatever the pieces. A teardown ends it like the peer's own FIN. */
  method Fetch(stream: GatewayStream, decode: Decoder) returns (r: Exchange)
    modifies stream
    ensures r == ExchangeOf(old(stream.Rest()), old(stream.End()), decode)
  {
    hide Readable, EndOf, ReadStatusLine, FirstLine;
    var head := ReadHead(stream, decode);
    if !head.GoodHead? {
      return NoResponse;
    }
    ghost var body, end := head.extra + stream.Rest(), stream.End();
    var collected := head.extra;
    while true
      invariant collected + stream.Rest() == body && stream.End() == end
      decreases |stream.Rest()|
    {
      ghost var rest := stream.Rest();
      var got := stream.Read();
      match got
      case Data(bytes) =>
        assert collected + rest == collected + bytes + stream.Rest();
        collected := collected + bytes;
      case Eof =>
        assert collected + rest == collected;
        return Response(head.status, head.head, collected);
      case IoError => return NoResponse;
    }
  }

  // ---- When is the body whole? ----

  /** What fetch makes of a stream that the teardown cancels after so many bytes. */
  function Fetched(wire: seq<byte>, tail: Tail, teardownIn: Option<nat>, decode: Decoder): Exchange {
    ExchangeOf(Readable(wire, teardownIn), EndOf(wire, tail, teardownIn), decode)
  }

  /** A response is reported exactly when its head was read, its status line parses and
      the end that was read was clean: the peer's FIN, or the teardown. Its body is a
      prefix of the peer's, and all of it exactly when the teardown found nothing unread. */
  lemma BodyIsWholeIff(wire: seq<byte>, tail: Tail, teardownIn: Option<nat>, decode: Decoder)
    ensures var p, cut := FindSubsequence(wire, HeadFraming.HEAD_END), teardownIn.Some? && teardownIn.value <= |wire|;
            var r := Fetched(wire, tail, teardownIn, decode);
            && (r.Response? <==> p.Some? && StatusOf(wire[..p.value], decode).Some? &&
                                 if cut then p.value + 4 <= teardownIn.value else tail.Closed?)
            && (r.Response? ==>
                  && r.head == wire[..p.value] && r.body <= wire[p.value + 4..]
                  && (r.body == wire[p.value + 4..] <==> !(teardownIn.Some? && teardownIn.value < |wire|)))
  {
    var end := HeadFraming.HEAD_END;
    var read := Readable(wire, teardownIn);
    assert wire == read + wire[|read|..];
    FindIsStable(read, wire[|read|..], end);
    var p := FindSubsequence(wire, end);
    if p.Some? && p.value + 4 <= |read| {
      assert read[p.value..p.value + 4] == wire[p.value..p.value + 4];
      assert OccursAt(read, end, p.value);
      assert read[..p.value] == wire[..p.value];
      assert read[p.value + 4..] == wire[p.value + 4..][..|read| - p.value - 4];
    }
  }

  /** A connection that dies inside the body: the part that had been read is
      returned as if it were the response. */
  lemma TruncatedBodySucceeds(head: seq<byte>, got: seq<byte>, lost: seq<byte>, tail: Tail, decode: Decoder)
    requires FindSubsequence(head + HeadFraming.HEAD_END, HeadFraming.HEAD_END) == Some(|head|)
    requires StatusOf(head, decode).Some? && lost != []
    ensures var wire := head + HeadFraming.HEAD_END + (got + lost);
            Fetched(wire, tail, Some(|head| + 4 + |got|), decode) == Response(StatusOf(head, decode).value, head, got)
  {
    var end := HeadFraming.HEAD_END;
    var front, wire := head + end, head + end + (got + lost);
    var n := |head| + 4 + |got|;
    assert wire == front + got + lost && wire[..n] == front + got;
    FindIsStable(front, got, end);
    assert (front + got)[..|head|] == head && (front + got)[|head| + 4..] == got;
  }
}
