/** Building a request head, and what the response parser of the same codec
    would read in it. */
module RequestHead {
  import opened Bytes
  import opened Text
  import opened HeadFraming

  /** The body as the head sees it: None, a known length, or a stream. */
  datatype BodyKind = Absent | Known(length: nat) | Streamed

  datatype Request = Request(
    verb: string,
    path: string,
    query: Option<string>,
    host: string,
    userAgent: Option<string>,     // the browser's, if it has one
    headers: seq<Header>,          // the caller's, in the order the map yields them
    body: BodyKind)

  predicate Clean(s: string) { '\r' !in s && '\n' !in s }

  predicate HasHeader(headers: seq<Header>, name: string) {
    exists h :: h in headers && LowerAscii(h.key) == LowerAscii(name)
  }

  /** Fields the codec sets itself and never takes from the caller. */
  predicate IsOurs(key: string) {
    LowerAscii(key) == "host" || LowerAscii(key) == "content-length" || LowerAscii(key) == "transfer-encoding"
  }

  function Decimal(n: nat): (s: string)
    ensures s != ""
    ensures forall c | c in s :: '0' <= c <= '9'
  {
    var digit := [(n % 10 + '0' as int) as char];
    if n < 10 then digit else Decimal(n / 10) + digit
  }

  function FieldLine(h: Header): string { h.key + ": " + h.value }

  function RequestLine(r: Request): string {
    r.verb + " " + (if r.path == "" then "/" else r.path)
    + (if r.query.Some? then "?" + r.query.value else "") + " HTTP/1.1"
  }

  function UserAgentLine(r: Request): Option<string> {
    if !HasHeader(r.headers, "User-Agent") && r.userAgent.Some? then Some("User-Agent: " + r.userAgent.value) else None
  }

  function DefaultLine(r: Request, name: string, line: string): Option<string> {
    if HasHeader(r.headers, name) then None else Some(line)
  }

  function OneLine(line: Option<string>): seq<string> { if line.Some? then [line.value] else [] }

  /** The lines the codec writes before the caller's. */
  function OpeningLines(r: Request): seq<string> {
    ["Host: " + r.host]
    + OneLine(UserAgentLine(r))
    + OneLine(DefaultLine(r, "Accept", "Accept: */*"))
    + OneLine(DefaultLine(r, "Connection", "Connection: close"))
  }

  function KeptLines(headers: seq<Header>): seq<string> {
    if headers == [] then []
    else (if IsOurs(headers[0].key) then [] else [FieldLine(headers[0])]) + KeptLines(headers[1..])
  }

  function FramingLine(body: BodyKind): Option<string> {
    match body
    case Absent => None
    case Known(n) => Some("Content-Length: " + Decimal(n))
    case Streamed => Some("Transfer-Encoding: chunked")
  }

  function AllLines(r: Request): seq<string> {
    [RequestLine(r)] + OpeningLines(r) + KeptLines(r.headers) + OneLine(FramingLine(r.body))
  }

  function Joined(lines: seq<string>): string {
    if lines == [] then "" else lines[0] + "\r\n" + Joined(lines[1..])
  }

  lemma {:induction false} JoinedSplit(a: seq<string>, b: seq<string>)
    ensures Joined(a + b) == Joined(a) + Joined(b)
  {
    if a == [] {
      assert a + b == b;
    } else {
      assert (a + b)[1..] == a[1..] + b;
      JoinedSplit(a[1..], b);
    }
  }

  lemma JoinedOne(a: seq<string>, line: string)
    ensures Joined(a + [line]) == Joined(a) + (line + "\r\n")
  {
    JoinedSplit(a, [line]);
    assert [line][1..] == [];
    assert Joined([line]) == line + "\r\n" + "";
  }

  predicate CleanHeaders(headers: seq<Header>) {
    forall i :: 0 <= i < |headers| ==> Clean(headers[i].key) && Clean(headers[i].value)
  }

  lemma {:induction false} KeptSplit(a: seq<Header>, b: seq<Header>)
    ensures KeptLines(a + b) == KeptLines(a) + KeptLines(b)
  {
    if a == [] {
      assert a + b == b;
    } else {
      assert (a + b)[1..] == a[1..] + b;
      KeptSplit(a[1..], b);
    }
  }

  lemma KeptOne(a: seq<Header>, h: Header)
    ensures KeptLines(a + [h]) == if IsOurs(h.key) then KeptLines(a) else KeptLines(a) + [FieldLine(h)]
  {
    KeptSplit(a, [h]);
    assert [h][1..] == [];
  }

  /** The caller's headers that are written: refused as a whole when any of
      them holds a CR or LF, those the codec sets itself left out. */
  method AppendHeaders(start: string, ghost lines: seq<string>, headers: seq<Header>) returns (r: Option<string>)
    requires start == Joined(lines)
    ensures r.Some? <==> CleanHeaders(headers)
    ensures r.Some? ==> r.value == Joined(lines + KeptLines(headers))
  {
    var text := start;
    assert lines + KeptLines([]) == lines;
    hide KeptLines, Joined, IsOurs, Clean, FieldLine;
    for i := 0 to |headers|
      invariant CleanHeaders(headers[..i])
      invariant text == Joined(lines + KeptLines(headers[..i]))
    {
      var h := headers[i];
      if !Clean(h.key) || !Clean(h.value) {
        return None;
      }
      assert headers[..i + 1] == headers[..i] + [h];
      KeptOne(headers[..i], h);
      if !IsOurs(h.key) {
        JoinedOne(lines + KeptLines(headers[..i]), FieldLine(h));
        assert lines + (KeptLines(headers[..i]) + [FieldLine(h)]) == lines + KeptLines(headers[..i]) + [FieldLine(h)];
        text := text + (FieldLine(h) + "\r\n");
      }
    }
    assert headers[..|headers|] == headers;
    return Some(text);
  }

  method AppendLine(start: string, ghost lines: seq<string>, line: Option<string>) returns (text: string)
    requires start == Joined(lines)
    ensures text == Joined(lines + OneLine(line))
  {
    if line.Some? {
      JoinedOne(lines, line.value);
      return start + (line.value + "\r\n");
    }
    assert lines + [] == lines;
    return start;
  }

  method Opening(request: Request) returns (text: string)
    ensures text == Joined([RequestLine(request)] + OpeningLines(request))
  {
    ghost var first := [RequestLine(request)];
    text := AppendLine("", [], Some(RequestLine(request)));
    assert [] + first == first;
    text := AppendLine(text, first, Some("Host: " + request.host));
    ghost var second := first + OneLine(Some("Host: " + request.host));
    text := AppendLine(text, second, UserAgentLine(request));
    ghost var third := second + OneLine(UserAgentLine(request));
    var accept := DefaultLine(request, "Accept", "Accept: */*");
    text := AppendLine(text, third, accept);
    var connection := DefaultLine(request, "Connection", "Connection: close");
    text := AppendLine(text, third + OneLine(accept), connection);
    Regroup(first, ["Host: " + request.host], OneLine(UserAgentLine(request)), OneLine(accept), OneLine(connection));
  }

  lemma Regroup(a: seq<string>, b: seq<string>, c: seq<string>, d: seq<string>, e: seq<string>)
    ensures a + b + c + d + e == a + (b + c + d + e)
  {
  }

  /** The head, or nothing when a caller's header holds a CR or LF. */
  method BuildRequestHead(request: Request) returns (r: Option<string>)
    ensures r.Some? <==> CleanHeaders(request.headers)
    ensures r.Some? ==> r.value == Joined(AllLines(request)) + "\r\n"
  {
    var text := Opening(request);
    ghost var lines := [RequestLine(request)] + OpeningLines(request);
    r := AppendHeaders(text, lines, request.headers);
    if r.None? {
      return None;
    }
    text := AppendLine(r.value, lines + KeptLines(request.headers), FramingLine(request.body));
    return Some(text + "\r\n");
  }
}
