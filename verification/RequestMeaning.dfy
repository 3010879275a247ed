/** What a server that reads the request head finds in it: the method, the target and
    every field. */
module RequestMeaning {
  import opened Bytes
  import opened Text
  import opened TextLaws
  import opened HeadFraming
  import opened RequestHead
  import opened RequestHeadReading
  import opened ByteStream
  import opened BodyFraming
  import opened RequestWriter
  import HttpExchange

  // ---- The request line ----

  /** Cutting s at its first c gives these two parts. */
  predicate CutAt(s: string, c: char, before: string, behind: string) { s == before + [c] + behind && c !in before }

  /** A target is the path, "/" for an empty one, and the query behind a question mark. */
  predicate IsTarget(target: string, path: string, query: Option<string>) {
    && (query.Some? ==> CutAt(target, '?', if path == "" then "/" else path, query.value))
    && (query.None? ==> target == if path == "" then "/" else path)
  }

  /** What a URL and a method name look like: no spaces, and no question mark in the path. */
  predicate WellFormedTarget(r: Request) {
    ' ' !in r.verb && ' ' !in r.path && '?' !in r.path && (r.query.Some? ==> ' ' !in r.query.value)
  }

  lemma RequestLineReadsBack(r: Request) returns (target: string)
    requires WellFormedTarget(r)
    ensures CutAt(RequestLine(r), ' ', r.verb, target + " HTTP/1.1")
    ensures CutAt(target + " HTTP/1.1", ' ', target, "HTTP/1.1")
    ensures IsTarget(target, r.path, r.query)
  {
    var path := if r.path == "" then "/" else r.path;
    var query := if r.query.Some? then "?" + r.query.value else "";
    target := path + query;
    assert RequestLine(r) == r.verb + [' '] + (target + " HTTP/1.1");
    assert target + " HTTP/1.1" == target + [' '] + "HTTP/1.1";
    assert r.query.Some? ==> target == path + ['?'] + r.query.value;
  }

  // ---- The fields ----

  /** The values under a name, in order. */
  function ValuesNamed(fields: seq<Header>, name: string): seq<string> {
    if fields == [] then []
    else (if fields[0].key == name then [fields[0].value] else []) + ValuesNamed(fields[1..], name)
  }

  /** The values a caller gives under a name in any letter case, without white space around. */
  function ValuesGiven(headers: seq<Header>, name: string): seq<string> {
    if headers == [] then []
    else (if Lowered(headers[0].key, name) then [Trim(headers[0].value)] else []) + ValuesGiven(headers[1..], name)
  }

  /** Names without colons and without white space at their ends. */
  predicate TidyNames(headers: seq<Header>) {
    forall i :: 0 <= i < |headers| ==> ':' !in headers[i].key && Solid(headers[i].key)
  }

  lemma NoHeaders()
    ensures HeadersOf([]) == []
  {
  }

  lemma HeadersStep(line: string, lines: seq<string>)
    ensures HeadersOf([line] + lines) == HeadersOf([line]) + HeadersOf(lines)
  {
    hide LowerAscii, Trim, IndexOf;
    assert [line][1..] == [] && ([line] + lines)[1..] == lines;
    assert HeadersOf([line][1..]) == [];
  }

  lemma {:induction false} HeadersSplit(a: seq<string>, b: seq<string>)
    ensures HeadersOf(a + b) == HeadersOf(a) + HeadersOf(b)
  {
    hide HeadersOf;
    if a == [] {
      assert a + b == b;
      NoHeaders();
    } else {
      HeadersSplit(a[1..], b);
      assert a + b == [a[0]] + (a[1..] + b) && a == [a[0]] + a[1..];
      HeadersStep(a[0], a[1..] + b);
      HeadersStep(a[0], a[1..]);
      ConcatAssoc(HeadersOf([a[0]]), HeadersOf(a[1..]), HeadersOf(b));
    }
  }

  lemma {:induction false} ValuesSplit(a: seq<Header>, b: seq<Header>, name: string)
    ensures ValuesNamed(a + b, name) == ValuesNamed(a, name) + ValuesNamed(b, name)
  {
    if a == [] {
      assert a + b == b;
    } else {
      ValuesSplit(a[1..], b, name);
      assert (a + b)[0] == a[0] && (a + b)[1..] == a[1..] + b;
      var first := if a[0].key == name then [a[0].value] else [];
      ConcatAssoc(first, ValuesNamed(a[1..], name), ValuesNamed(b, name));
    }
  }

  /** What is read under a name in some lines. */
  function Under(lines: seq<string>, name: string): seq<string> { ValuesNamed(HeadersOf(lines), name) }

  lemma UnderSplit(a: seq<string>, b: seq<string>, name: string)
    ensures Under(a + b, name) == Under(a, name) + Under(b, name)
  {
    HeadersSplit(a, b);
    ValuesSplit(HeadersOf(a), HeadersOf(b), name);
  }

  lemma UnderOne(key: string, value: string, lower: string, name: string)
    requires ':' !in key && Solid(key) && Lowered(key, lower)
    ensures Under([key + ": " + value], name) == if name == lower then [Trim(value)] else []
  {
    hide LowerAscii, Lowered, Solid, AllWhite;
    var line := key + ":" + (" " + value);
    FieldRead(key, " " + value, []);
    assert line == key + ": " + value && [line] + [] == [line];
    SpaceInFront(value);
    hide Trim;
    SolidTrims(key);
    LowerIs(key, lower);
    assert HeadersOf([]) == [];
    hide HeadersOf;
    var h := Header(lower, Trim(value));
    assert HeadersOf([line]) == [h] + [] == [h];
    assert [h][1..] == [];
    assert ValuesNamed([h], name) == if name == lower then [Trim(value)] else [];
    assert [key + ": " + value] == [line];
  }

  lemma SolidTrims(s: string)
    requires Solid(s)
    ensures Trim(s) == s
  {
    TrimIs("", s, "");
    assert "" + s + "" == s;
  }

  lemma {:induction false} KeptValues(headers: seq<Header>, name: string)
    requires TidyNames(headers)
    ensures Under(KeptLines(headers), name) ==
            if name in {"host", "content-length", "transfer-encoding"} then [] else ValuesGiven(headers, name)
  {
    hide Lowered, Solid, LowerAscii, Trim, HeadersOf, ValuesNamed;
    if headers == [] {
      NothingUnder(name);
    } else {
      var h := headers[0];
      assert forall i :: 0 <= i < |headers[1..]| ==> headers[1..][i] == headers[i + 1];
      KeptValues(headers[1..], name);
      LowerIs(h.key, LowerAscii(h.key));
      LowerIs(h.key, name);
      if !IsOurs(h.key) {
        UnderSplit([FieldLine(h)], KeptLines(headers[1..]), name);
        UnderOne(h.key, h.value, LowerAscii(h.key), name);
      } else {
        assert [] + KeptLines(headers[1..]) == KeptLines(headers[1..]);
      }
    }
  }

  lemma NothingUnder(name: string)
    ensures Under([], name) == [] && Under([""], name) == []
  {
    assert HeadersOf([]) == [];
    assert [""][1..] == [];
    assert HeadersOf([""]) == [];
  }

  lemma {:induction false} HasHeaderIs(headers: seq<Header>, name: string, lower: string)
    requires LowerAscii(name) == lower
    ensures HasHeader(headers, name) <==> ValuesGiven(headers, lower) != []
  {
    hide Lowered, LowerAscii, Trim;
    if headers != [] {
      HasHeaderIs(headers[1..], name, lower);
      LowerIs(headers[0].key, lower);
      assert forall h :: h in headers <==> h == headers[0] || h in headers[1..];
    }
  }

  /** A field of the codec's own, or one it leaves to the caller. */
  lemma DefaultUnder(present: bool, key: string, value: string, lower: string, name: string)
    requires ':' !in key && Solid(key) && Lowered(key, lower)
    ensures Under(OneLine(if present then Some(key + ": " + value) else None), name) ==
            if present && name == lower then [Trim(value)] else []
  {
    UnderOne(key, value, lower, name);
    NothingUnder(name);
  }

  // ---- Every kept field, in order ----

  /** The field a server reads in a caller's: what is behind a colon in the name belongs to the value. */
  function AtColon(h: Header): Header {
    if ':' in h.key then Header(h.key[..IndexOf(h.key, ':')], h.key[IndexOf(h.key, ':') + 1..] + ": " + h.value) else h
  }

  /** The caller's fields, those under the codec's own names left out. */
  function Others(headers: seq<Header>): seq<Header> {
    if headers == [] then []
    else if Lowered(headers[0].key, "host") || Lowered(headers[0].key, "content-length")
            || Lowered(headers[0].key, "transfer-encoding") then Others(headers[1..])
    else [AtColon(headers[0])] + Others(headers[1..])
  }

  lemma FieldLineRead(h: Header, rest: seq<string>) returns (read: Header)
    ensures HeadersOf([FieldLine(h)] + rest) == [read] + HeadersOf(rest) && ReadsAs(AtColon(h), read)
  {
    hide LowerAscii, Trim, HeadersOf, ReadsAs;
    var i := IndexOf(h.key, ':');
    if ':' in h.key {
      assert i < |h.key| by { assert h.key[..|h.key|] == h.key; }
      assert FieldLine(h) == h.key[..i] + ":" + AtColon(h).value;
      FieldRead(h.key[..i], AtColon(h).value, rest);
      read := Header(LowerAscii(Trim(h.key[..i])), Trim(AtColon(h).value));
      ReadsAsIff(AtColon(h), read);
    } else {
      assert FieldLine(h) == h.key + ":" + (" " + h.value);
      FieldRead(h.key, " " + h.value, rest);
      SpaceInFront(h.value);
      read := Header(LowerAscii(Trim(h.key)), Trim(h.value));
      ReadsAsIff(h, read);
    }
  }

  lemma SpaceInFront(s: string)
    ensures Trim(" " + s) == Trim(s)
  {
    assert (" " + s)[1..] == s;
  }

  /** Each kept field is read with its own name and value, in the caller's order. */
  lemma {:induction false} KeptReadBack(headers: seq<Header>)
    ensures AllRead(Others(headers), HeadersOf(KeptLines(headers)))
  {
    hide LowerAscii, HeadersOf, ReadsAs, FieldLine, AtColon, Lowered;
    if headers == [] {
      NoHeaders();
    } else {
      var h := headers[0];
      LowerIs(h.key, "host");
      LowerIs(h.key, "content-length");
      LowerIs(h.key, "transfer-encoding");
      KeptReadBack(headers[1..]);
      if IsOurs(h.key) {
        assert KeptLines(headers) == KeptLines(headers[1..]);
      } else {
        var read := FieldLineRead(h, KeptLines(headers[1..]));
      }
    }
  }

  // ---- The codec's own fields ----

  /** The fields a server should find under a name. */
  function Meant(r: Request, name: string): seq<string> {
    match name
    case "host" => [Trim(r.host)]
    case "content-length" => if r.body.Known? then [Numeral(r.body.length, 10)] else []
    case "transfer-encoding" => if r.body.Streamed? then ["chunked"] else []
    case _ => if ValuesGiven(r.headers, name) != [] then ValuesGiven(r.headers, name) else Defaults(r, name)
  }

  function Defaults(r: Request, name: string): seq<string> {
    match name
    case "user-agent" => if r.userAgent.Some? then [Trim(r.userAgent.value)] else []
    case "accept" => ["*/*"]
    case "connection" => ["close"]
    case _ => []
  }

  lemma {:induction false} DecimalIsNumeral(n: nat)
    ensures Decimal(n) == Numeral(n, 10)
  {
    if n >= 10 { DecimalIsNumeral(n / 10); }
  }

  lemma HostUnder(host: string, name: string)
    ensures Under(["Host: " + host], name) == if name == "host" then [Trim(host)] else []
  {
    assert LowerAscii("Host") == "host";
    hide LowerAscii, Lowered, Trim, Under;
    LowerIs("Host", "host");
    assert "Host: " + host == "Host" + ": " + host;
    UnderOne("Host", host, "host", name);
  }

  lemma UserAgentUnder(r: Request, name: string)
    ensures Under(OneLine(UserAgentLine(r)), name) ==
            if name == "user-agent" && ValuesGiven(r.headers, "user-agent") == [] then Defaults(r, "user-agent") else []
  {
    assert LowerAscii("User-Agent") == "user-agent";
    hide LowerAscii, Lowered, Trim, Under, HasHeader, ValuesGiven;
    LowerIs("User-Agent", "user-agent");
    HasHeaderIs(r.headers, "User-Agent", "user-agent");
    var value := if r.userAgent.Some? then r.userAgent.value else "";
    assert "User-Agent: " + value == "User-Agent" + ": " + value;
    DefaultUnder(UserAgentLine(r).Some?, "User-Agent", value, "user-agent", name);
  }

  lemma LiteralsTrimmed()
    ensures Trim("*/*") == "*/*" && Trim("close") == "close" && Trim("chunked") == "chunked"
  {
    SolidTrims("*/*");
    SolidTrims("close");
    SolidTrims("chunked");
  }

  lemma AcceptUnder(r: Request, name: string)
    ensures Under(OneLine(DefaultLine(r, "Accept", "Accept: */*")), name) ==
            if name == "accept" && ValuesGiven(r.headers, "accept") == [] then ["*/*"] else []
  {
    assert LowerAscii("Accept") == "accept";
    hide LowerAscii, Lowered, Trim, Under, HasHeader, ValuesGiven;
    LowerIs("Accept", "accept");
    HasHeaderIs(r.headers, "Accept", "accept");
    LiteralsTrimmed();
    assert "Accept: */*" == "Accept" + ": " + "*/*";
    DefaultUnder(!HasHeader(r.headers, "Accept"), "Accept", "*/*", "accept", name);
  }

  lemma ConnectionLowered()
    ensures LowerAscii("Connection") == "connection"
  {
  }

  lemma ConnectionUnder(r: Request, name: string)
    ensures Under(OneLine(DefaultLine(r, "Connection", "Connection: close")), name) ==
            if name == "connection" && ValuesGiven(r.headers, "connection") == [] then ["close"] else []
  {
    ConnectionLowered();
    hide LowerAscii, Lowered, Trim, Under, HasHeader, ValuesGiven;
    LowerIs("Connection", "connection");
    HasHeaderIs(r.headers, "Connection", "connection");
    LiteralsTrimmed();
    assert "Connection: close" == "Connection" + ": " + "close";
    DefaultUnder(!HasHeader(r.headers, "Connection"), "Connection", "close", "connection", name);
  }

  lemma LengthUnder(n: nat, name: string)
    ensures Under(["Content-Length: " + Decimal(n)], name) == if name == "content-length" then [Numeral(n, 10)] else []
  {
    ContentLengthIsOurs();
    assert forall c :: c in Decimal(n) ==> !IsSpace(c);
    TrimKeepsSolidText(Decimal(n));
    DecimalIsNumeral(n);
    hide LowerAscii, Lowered, Trim, Under, Decimal;
    LowerIs("Content-Length", "content-length");
    assert "Content-Length: " + Decimal(n) == "Content-Length" + ": " + Decimal(n);
    UnderOne("Content-Length", Decimal(n), "content-length", name);
  }

  lemma ChunkedUnder(name: string)
    ensures Under(["Transfer-Encoding: chunked"], name) == if name == "transfer-encoding" then ["chunked"] else []
  {
    TransferEncodingIsOurs();
    hide LowerAscii, Lowered, Trim, Under;
    LowerIs("Transfer-Encoding", "transfer-encoding");
    LiteralsTrimmed();
    assert "Transfer-Encoding: chunked" == "Transfer-Encoding" + ": " + "chunked";
    UnderOne("Transfer-Encoding", "chunked", "transfer-encoding", name);
  }

  lemma FramingUnder(body: BodyKind, name: string)
    ensures Under(OneLine(FramingLine(body)), name) ==
            if name == "content-length" && body.Known? then [Numeral(body.length, 10)]
            else if name == "transfer-encoding" && body.Streamed? then ["chunked"] else []
  {
    hide Under, Decimal, Numeral;
    match body
    case Absent => NothingUnder(name);
    case Known(n) => LengthUnder(n, name);
    case Streamed => ChunkedUnder(name);
  }

  lemma OpeningUnder(r: Request, name: string)
    ensures Under(OpeningLines(r), name) ==
            if name == "host" then [Trim(r.host)]
            else if ValuesGiven(r.headers, name) == [] then Defaults(r, name) else []
  {
    hide Under, Trim, ValuesGiven, UserAgentLine, DefaultLine;
    HostUnder(r.host, name);
    UserAgentUnder(r, name);
    AcceptUnder(r, name);
    ConnectionUnder(r, name);
    var host, agent := ["Host: " + r.host], OneLine(UserAgentLine(r));
    var accept := OneLine(DefaultLine(r, "Accept", "Accept: */*"));
    var connection := OneLine(DefaultLine(r, "Connection", "Connection: close"));
    UnderSplit(host + agent + accept, connection, name);
    UnderSplit(host + agent, accept, name);
    UnderSplit(host, agent, name);
  }

  lemma FieldsUnder(r: Request, name: string)
    requires TidyNames(r.headers)
    ensures Under(AllLines(r)[1..] + [""], name) == Meant(r, name)
  {
    hide Under, Trim, ValuesGiven, OpeningLines, KeptLines, FramingLine, RequestLine, Numeral, TidyNames;
    var opening, kept, framing := OpeningLines(r), KeptLines(r.headers), OneLine(FramingLine(r.body));
    assert AllLines(r)[1..] + [""] == opening + kept + framing + [""];
    UnderSplit(opening + kept + framing, [""], name);
    UnderSplit(opening + kept, framing, name);
    UnderSplit(opening, kept, name);
    NothingUnder(name);
    OpeningUnder(r, name);
    KeptValues(r.headers, name);
    FramingUnder(r.body, name);
  }

  /** A server that reads the head finds the method, the target and the version in its first
      line, and under each name: the host of the URL, the framing of the body, what the
      caller gave, or the default if the caller gave nothing. */
  lemma RequestMeans(r: Request, name: string) returns (target: string)
    requires CleanRequest(r) && TidyNames(r.headers) && WellFormedTarget(r)
    ensures var lines := Lines(Joined(AllLines(r)) + "\r\n");
            && lines != [] && CutAt(lines[0], ' ', r.verb, target + " HTTP/1.1")
            && CutAt(target + " HTTP/1.1", ' ', target, "HTTP/1.1") && IsTarget(target, r.path, r.query)
            && ValuesNamed(HeadersOf(lines[1..]), name) == Meant(r, name)
  {
    hide CutAt, CleanRequest, TidyNames, WellFormedTarget, Meant, HeadersOf, ValuesNamed, RequestLine, AllLines, Lines, Joined;
    LinesAre(r);
    target := RequestLineReadsBack(r);
    FieldsUnder(r, name);
  }

  lemma LinesAre(r: Request)
    requires CleanRequest(r)
    ensures |AllLines(r)| > 0
    ensures var lines := Lines(Joined(AllLines(r)) + "\r\n");
            lines != [] && lines[0] == RequestLine(r) && lines[1..] == AllLines(r)[1..] + [""]
  {
    hide CleanRequest, RequestLine, OpeningLines, KeptLines, FramingLine, Lines, Joined, FindSubsequence;
    RequestHeadReadsBack(r);
    assert (AllLines(r) + [""])[1..] == AllLines(r)[1..] + [""];
  }

  // ---- The body a server reads ----

  lemma {:induction false} FramingNeedsItsFields(fields: seq<Header>)
    ensures SaysChunked(fields) <==> SaysChunked(FramingFields(fields))
    ensures FirstValue(fields, "content-length") == FirstValue(FramingFields(fields), "content-length")
  {
    hide FindSubsequence, LowerAscii;
    if fields != [] {
      var h, rest := fields[0], fields[1..];
      FramingNeedsItsFields(rest);
      assert fields == [h] + rest;
      if IsFramingName(h.key) {
        assert FramingFields(fields) == [h] + FramingFields(rest);
        assert FramingFields(fields)[1..] == FramingFields(rest);
      } else {
        assert FramingFields(fields) == FramingFields(rest);
      }
    }
  }

  /** What a body says when its source yields no error. */
  function Content(body: RequestBody): seq<byte> {
    match body
    case NoRequestBody => []
    case BytesBody(b) => b
    case StreamBody(items) => Concat(Yielded(items))
  }

  predicate BodyFits(body: RequestBody) {
    match body
    case NoRequestBody => true
    case BytesBody(b) => |b| <= USIZE_MAX
    case StreamBody(items) => !SourceFails(items) && FitsUsize(Yielded(items))
  }

  lemma ChunkedNamed()
    ensures SaysChunked([Header("transfer-encoding", "chunked")])
  {
    var h := Header("transfer-encoding", "chunked");
    assert LowerAscii("chunked") == "chunked";
    assert OccursAt("chunked", "chunked", 0);
    assert h in [h];
  }

  lemma LengthNamed(n: nat)
    requires n <= USIZE_MAX
    ensures var fields := [Header("content-length", Decimal(n))];
            !SaysChunked(fields) && FirstValue(fields, "content-length") == Some(Decimal(n))
    ensures ParseUnsigned(Decimal(n), 10, USIZE_MAX) == Some(n)
  {
    LengthReadsBack(n);
  }

  /** A server that frames the request by the rules of the codec's own parser reads exactly
      the body that was sent, whatever follows, as long as no caller's name is a framing
      name in disguise. */
  lemma ServerReadsBody(r: Request, body: RequestBody, rest: seq<byte>, tail: Tail)
    requires CleanRequest(r) && BodyFits(body) && forall i :: 0 <= i < |r.headers| ==> !Disguised(r.headers[i])
    ensures var sent := r.(body := HttpExchange.KindOf(body));
            var read := HeadersOf(Lines(Joined(AllLines(sent)) + "\r\n")[1..]);
            if body.NoRequestBody? then FramingFields(read) == []
            else
              var framing := FramingOf(false, 200, read);
              framing.Some? && BodyOf(framing.value, BodyBytes(body) + rest, tail) == Outlook(Content(body), Complete)
  {
    var sent := r.(body := HttpExchange.KindOf(body));
    hide CleanRequest, Lines, Joined, HeadersOf, Disguised, AllLines, DecodeChunks, EncodeChunks;
    SameCleanness(r, sent);
    LinesAre(sent);
    FramingReadsBackIff(sent);
    var read := HeadersOf(Lines(Joined(AllLines(sent)) + "\r\n")[1..]);
    FramingNeedsItsFields(read);
    match body
    case NoRequestBody =>
    case BytesBody(b) =>
      hide ParseUnsigned, SaysChunked;
      LengthNamed(|b|);
      assert (b + rest)[..|b|] == b;
    case StreamBody(items) =>
      hide ParseUnsigned, SaysChunked, Decimal;
      ChunkedNamed();
      UploadRoundTrip(Yielded(items), rest, tail);
  }

  lemma SameCleanness(r: Request, sent: Request)
    requires CleanRequest(r) && sent == r.(body := sent.body)
    ensures CleanRequest(sent)
  {
  }
}
