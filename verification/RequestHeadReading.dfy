/** What a reader of the same codec finds in a request head. */
module RequestHeadReading {
  import opened Bytes
  import opened Text
  import opened TextLaws
  import opened HeadFraming
  import opened RequestHead

  predicate CleanLine(line: string) { line != "" && Clean(line) }

  predicate CleanLines(lines: seq<string>) { forall i :: 0 <= i < |lines| ==> CleanLine(lines[i]) }

  /** No CR or LF in what comes from the URL, the method and the browser. */
  predicate CleanRequest(r: Request) {
    && Clean(r.verb) && Clean(r.path) && Clean(r.host) && CleanHeaders(r.headers)
    && (r.query.Some? ==> Clean(r.query.value)) && (r.userAgent.Some? ==> Clean(r.userAgent.value))
  }

  // ---- The lines come back ----

  lemma {:induction false} IndexBehind(a: string, c: char, b: string)
    requires c !in a
    ensures IndexOf(a + [c] + b, c) == |a|
  {
    if a != "" {
      assert a[0] in a && forall x :: x in a[1..] ==> x in a;
      IndexBehind(a[1..], c, b);
      assert (a + [c] + b)[1..] == a[1..] + [c] + b;
    }
  }

  lemma {:induction false} LinesOfJoined(lines: seq<string>)
    requires forall i :: 0 <= i < |lines| ==> Clean(lines[i])
    ensures Lines(Joined(lines)) == lines
  {
    if lines != [] {
      var first, rest := lines[0], Joined(lines[1..]);
      var s := Joined(lines);
      assert s == (first + "\r") + ['\n'] + rest;
      IndexBehind(first + "\r", '\n', rest);
      assert s[..|first| + 1] == first + "\r" && s[|first| + 2..] == rest;
      assert StripCr(first + "\r") == first;
      LinesOfJoined(lines[1..]);
    }
  }

  /** The only blank line is the one that ends the head. */
  lemma {:induction false} NoEarlierBlankLine(lines: seq<string>, p: nat)
    requires CleanLines(lines) && OccursAt(Joined(lines) + "\r\n", "\r\n\r\n", p)
    ensures p + 4 == |Joined(lines)| + 2
    decreases |lines|
  {
    var s := Joined(lines) + "\r\n";
    assert s[p..p + 4] == "\r\n\r\n";
    assert s[p] == s[p..p + 4][0] && s[p + 1] == s[p..p + 4][1] && s[p + 2] == s[p..p + 4][2];
    assert lines != [];
    var first := lines[0];
    var rest := Joined(lines[1..]) + "\r\n";
    assert CleanLine(first) && s == first + "\r\n" + rest;
    assert forall k :: 0 <= k < |first| ==> s[k] == first[k];
    assert s[|first| + 2] == rest[0];
    assert |lines| > 1 ==> CleanLine(lines[1]) && rest[0] == lines[1][0];
    if p != |first| {
      assert p >= |first| + 2;
      assert rest[p - |first| - 2..p - |first| + 2] == s[p..p + 4];
      NoEarlierBlankLine(lines[1..], p - |first| - 2);
    }
  }

  lemma {:induction false} BlankLineIsThere(lines: seq<string>)
    requires lines != []
    ensures |Joined(lines)| >= 2 && Joined(lines)[|Joined(lines)| - 2..] == "\r\n"
    decreases |lines|
  {
    if |lines| == 1 {
      assert lines[1..] == [];
    } else {
      BlankLineIsThere(lines[1..]);
      var rest := Joined(lines[1..]);
      assert Joined(lines)[|Joined(lines)| - 2..] == rest[|rest| - 2..];
    }
  }

  lemma {:induction false} KeptAreClean(headers: seq<Header>)
    requires CleanHeaders(headers)
    ensures CleanLines(KeptLines(headers))
  {
    if headers != [] {
      assert forall i :: 0 <= i < |headers[1..]| ==> headers[1..][i] == headers[i + 1];
      KeptAreClean(headers[1..]);
    }
  }

  lemma CleanPlus(a: string, b: string)
    requires Clean(a) && Clean(b)
    ensures Clean(a + b)
  {
  }

  lemma CleanRequestLine(r: Request)
    requires CleanRequest(r)
    ensures CleanLine(RequestLine(r))
  {
    var path := if r.path == "" then "/" else r.path;
    var query := if r.query.Some? then "?" + r.query.value else "";
    CleanPlus(r.verb, " ");
    CleanPlus(r.verb + " ", path);
    CleanPlus(r.verb + " " + path, query);
    CleanPlus(r.verb + " " + path + query, " HTTP/1.1");
  }

  lemma CleanJoin(a: seq<string>, b: seq<string>)
    requires CleanLines(a) && CleanLines(b)
    ensures CleanLines(a + b)
  {
  }

  lemma CleanOpening(r: Request)
    requires CleanRequest(r)
    ensures CleanLines(OpeningLines(r))
  {
    CleanPlus("Host: ", r.host);
    if r.userAgent.Some? { CleanPlus("User-Agent: ", r.userAgent.value); }
    CleanOptions("Host: " + r.host, UserAgentLine(r), DefaultLine(r, "Accept", "Accept: */*"),
                 DefaultLine(r, "Connection", "Connection: close"));
  }

  lemma CleanOptions(first: string, a: Option<string>, b: Option<string>, c: Option<string>)
    requires CleanLine(first)
    requires (a.Some? ==> CleanLine(a.value)) && (b.Some? ==> CleanLine(b.value)) && (c.Some? ==> CleanLine(c.value))
    ensures CleanLines([first] + OneLine(a) + OneLine(b) + OneLine(c))
  {
  }

  lemma CleanFraming(body: BodyKind)
    ensures CleanLines(OneLine(FramingLine(body)))
  {
    if body.Known? {
      CleanPlus("Content-Length: ", Decimal(body.length));
    }
  }

  lemma AllAreClean(r: Request)
    requires CleanRequest(r)
    ensures CleanLines(AllLines(r))
  {
    CleanRequestLine(r);
    CleanOpening(r);
    KeptAreClean(r.headers);
    CleanFraming(r.body);
    CleanAll(RequestLine(r), OpeningLines(r), KeptLines(r.headers), OneLine(FramingLine(r.body)));
  }

  lemma CleanAll(first: string, a: seq<string>, b: seq<string>, c: seq<string>)
    requires CleanLine(first) && CleanLines(a) && CleanLines(b) && CleanLines(c)
    ensures CleanLines([first] + a + b + c)
  {
    CleanJoin([first], a);
    CleanJoin([first] + a, b);
    CleanJoin([first] + a + b, c);
  }

  lemma CleanLinesReadBack(lines: seq<string>)
    requires CleanLines(lines)
    ensures Lines(Joined(lines) + "\r\n") == lines + [""]
  {
    JoinedOne(lines, "");
    assert "" + "\r\n" == "\r\n";
    LinesOfJoined(lines + [""]);
  }

  lemma BlankLineEndsHead(lines: seq<string>, head: string, mark: string)
    requires CleanLines(lines) && lines != [] && mark == "\r\n\r\n" && head == Joined(lines) + "\r\n"
    ensures FindSubsequence(head, mark) == Some(|head| - 4)
  {
    BlankLineIsThere(lines);
    assert OccursAt(head, mark, |head| - 4);
    forall p | 0 <= p < |head| - 4 ensures !OccursAt(head, mark, p) {
      if OccursAt(head, mark, p) { NoEarlierBlankLine(lines, p); }
    }
    FirstMatchIsUnique(head, mark, |head| - 4);
  }

  /** Nothing a caller passes adds a line or ends the head early: a reader gets
      back exactly the lines meant, and finds the blank line at the very end. */
  lemma RequestHeadReadsBack(r: Request)
    requires CleanRequest(r)
    ensures var head := Joined(AllLines(r)) + "\r\n";
            && Lines(head) == AllLines(r) + [""]
            && FindSubsequence(head, "\r\n\r\n") == Some(|head| - 4)
  {
    AllAreClean(r);
    CleanLinesReadBack(AllLines(r));
    BlankLineEndsHead(AllLines(r), Joined(AllLines(r)) + "\r\n", "\r\n\r\n");
  }

  // ---- Fields ----

  /** A field as it is read: its name in small letters, no white space around the parts. */
  ghost predicate ReadsAs(printed: Header, read: Header) {
    exists a, name, b, c, value, d :: PartsAre(printed, read, a, name, b, c, value, d)
  }

  ghost predicate PartsAre(printed: Header, read: Header, a: string, name: string, b: string,
                           c: string, value: string, d: string) {
    && printed == Header(a + name + b, c + value + d)
    && AllWhite(a) && AllWhite(b) && AllWhite(c) && AllWhite(d) && Solid(name) && Solid(value)
    && Lowered(name, read.key) && read.value == value
  }

  /** There is exactly one way to read a field. */
  lemma ReadsAsIff(printed: Header, read: Header)
    ensures ReadsAs(printed, read) <==> read == Header(LowerAscii(Trim(printed.key)), Trim(printed.value))
  {
    hide Trim, Lowered, AllWhite, Solid, LowerAscii;
    forall a, name, b, c, value, d | PartsAre(printed, read, a, name, b, c, value, d)
      ensures read == Header(LowerAscii(Trim(printed.key)), Trim(printed.value))
    {
      TrimIs(a, name, b);
      TrimIs(c, value, d);
      LowerIs(name, read.key);
    }
    if read == Header(LowerAscii(Trim(printed.key)), Trim(printed.value)) {
      var a, b := TrimParts(printed.key);
      var c, d := TrimParts(printed.value);
      LowerIs(Trim(printed.key), read.key);
      assert PartsAre(printed, read, a, Trim(printed.key), b, c, Trim(printed.value), d);
    }
  }

  /** The fields printed are the fields read, in their order, each as it should be. */
  ghost predicate AllRead(printed: seq<Header>, read: seq<Header>) {
    |printed| == |read| && forall i :: 0 <= i < |printed| ==> ReadsAs(printed[i], read[i])
  }

  lemma FieldRead(key: string, value: string, rest: seq<string>)
    requires ':' !in key
    ensures HeadersOf([key + ":" + value] + rest) == [Header(LowerAscii(Trim(key)), Trim(value))] + HeadersOf(rest)
  {
    hide LowerAscii, Trim;
    var line := key + ":" + value;
    assert line == key + [':'] + value;
    IndexBehind(key, ':', value);
    assert line[..|key|] == key && line[|key| + 1..] == value;
    assert ([line] + rest)[1..] == rest;
  }

  // ---- The framing a reader finds ----

  /** The field name a reader sees in a line. */
  function ReadName(line: string): string { LowerAscii(Trim(line[..IndexOf(line, ':')])) }

  predicate IsFramingName(name: string) { name == "content-length" || name == "transfer-encoding" }

  function FramingFields(headers: seq<Header>): seq<Header> {
    if headers == [] then []
    else (if IsFramingName(headers[0].key) then [headers[0]] else []) + FramingFields(headers[1..])
  }

  /** The framing field a reader sees in one line. */
  function FramingIn(line: string): seq<Header> {
    if ':' in line && IsFramingName(ReadName(line)) then [Header(ReadName(line), Trim(line[IndexOf(line, ':') + 1..]))]
    else []
  }

  /** What a line-by-line reading finds, in order. */
  function Gather(f: string -> seq<Header>, lines: seq<string>): seq<Header> {
    if lines == [] then [] else f(lines[0]) + Gather(f, lines[1..])
  }

  lemma {:induction false} GatherSplit(f: string -> seq<Header>, a: seq<string>, b: seq<string>)
    ensures Gather(f, a + b) == Gather(f, a) + Gather(f, b)
  {
    if a == [] {
      assert a + b == b;
    } else {
      GatherSplit(f, a[1..], b);
      assert (a + b)[0] == a[0] && (a + b)[1..] == a[1..] + b;
      ConcatAssoc(f(a[0]), Gather(f, a[1..]), Gather(f, b));
    }
  }

  lemma GatherOne(f: string -> seq<Header>, line: string)
    ensures Gather(f, [line]) == f(line)
  {
    assert [line][1..] == [];
    assert Gather(f, [line]) == f(line) + [];
  }

  lemma GatherParts(f: string -> seq<Header>, a: seq<string>, b: seq<string>, c: seq<string>, d: seq<string>)
    ensures Gather(f, a + b + c + d) == Gather(f, a) + Gather(f, b) + Gather(f, c) + Gather(f, d)
  {
    GatherSplit(f, a + b + c, d);
    GatherSplit(f, a + b, c);
    GatherSplit(f, a, b);
  }

  function FramingRead(lines: seq<string>): seq<Header> { Gather(FramingIn, lines) }

  /** They are the framing fields among those the codec's parser reads. */
  lemma {:induction false} FramingReadIs(lines: seq<string>)
    ensures FramingRead(lines) == FramingFields(HeadersOf(lines))
  {
    if lines != [] {
      FramingReadIs(lines[1..]);
      var line := lines[0];
      var i := IndexOf(line, ':');
      if i < |line| {
        var h := Header(ReadName(line), Trim(line[i + 1..]));
        assert HeadersOf(lines) == [h] + HeadersOf(lines[1..]);
        assert ([h] + HeadersOf(lines[1..]))[1..] == HeadersOf(lines[1..]);
      } else {
        assert line[..i] == line;
        assert HeadersOf(lines) == HeadersOf(lines[1..]);
      }
    }
  }

  /** What a reader should find: the one field that frames the body. */
  function FramingSent(body: BodyKind): seq<Header> {
    match body
    case Absent => []
    case Known(n) => [Header("content-length", Decimal(n))]
    case Streamed => [Header("transfer-encoding", "chunked")]
  }

  /** A caller's name that is not one of the codec's own, but reads as framing. */
  predicate Disguised(h: Header) { !IsOurs(h.key) && IsFramingName(LowerAscii(Trim(h.key[..IndexOf(h.key, ':')]))) }

  lemma ReadNameOfField(h: Header)
    ensures ':' in FieldLine(h) && ReadName(FieldLine(h)) == LowerAscii(Trim(h.key[..IndexOf(h.key, ':')]))
  {
    var i, line := IndexOf(h.key, ':'), FieldLine(h);
    assert line == h.key[..i] + [':'] + line[i + 1..];
    IndexBehind(h.key[..i], ':', line[i + 1..]);
    assert line[..i] == h.key[..i] && line[i] == ':';
  }

  lemma {:induction false} KeptFraming(headers: seq<Header>)
    ensures FramingRead(KeptLines(headers)) == [] <==> forall i :: 0 <= i < |headers| ==> !Disguised(headers[i])
  {
    if headers != [] {
      var h, rest := headers[0], KeptLines(headers[1..]);
      KeptFraming(headers[1..]);
      assert forall i :: 0 <= i < |headers[1..]| ==> headers[1..][i] == headers[i + 1];
      if !IsOurs(h.key) {
        ReadNameOfField(h);
        GatherSplit(FramingIn, [FieldLine(h)], rest);
        GatherOne(FramingIn, FieldLine(h));
      } else {
        assert [] + rest == rest;
      }
      if forall i :: 0 <= i < |headers[1..]| ==> !Disguised(headers[1..][i]) {
        assert Disguised(headers[0]) || forall i :: 0 <= i < |headers| ==> !Disguised(headers[i]);
      }
    }
  }

  lemma PlainField(name: string, value: string)
    requires forall c | c in name :: !IsSpace(c) && c != ':'
    ensures var line := name + ": " + value;
            ':' in line && ReadName(line) == LowerAscii(name) && Trim(line[IndexOf(line, ':') + 1..]) == Trim(value)
  {
    var line := name + ": " + value;
    assert line == name + [':'] + (" " + value);
    IndexBehind(name, ':', " " + value);
    assert line[..|name|] == name && line[|name|] == ':' && line[|name| + 1..] == " " + value;
    TrimKeepsSolidText(name);
    assert (" " + value)[1..] == value;
  }

  /** A line of the codec's own that does not frame the body. */
  lemma NotFraming(line: string, name: string, value: string)
    requires line == name + ": " + value
    requires forall c | c in name :: !IsSpace(c) && c != ':'
    requires |name| != 14 && |name| != 17
    ensures FramingRead([line]) == []
  {
    PlainField(name, value);
    GatherOne(FramingIn, line);
    assert |LowerAscii(name)| == |name|;
  }

  lemma IsFramingLine(line: string, name: string, lower: string, value: string)
    requires line == name + ": " + value
    requires forall c | c in name :: !IsSpace(c) && c != ':'
    requires LowerAscii(name) == lower && IsFramingName(lower) && forall c | c in value :: !IsSpace(c)
    ensures FramingRead([line]) == [Header(lower, value)]
  {
    PlainField(name, value);
    TrimKeepsSolidText(value);
    GatherOne(FramingIn, line);
  }

  lemma HostIsNotFraming(host: string)
    ensures FramingRead(["Host: " + host]) == []
  {
    NotFraming("Host: " + host, "Host", host);
  }

  lemma UserAgentIsNotFraming(r: Request)
    ensures FramingRead(OneLine(UserAgentLine(r))) == []
  {
    if UserAgentLine(r).Some? { NotFraming(UserAgentLine(r).value, "User-Agent", r.userAgent.value); }
  }

  lemma DefaultIsNotFraming(r: Request, name: string, line: string, value: string)
    requires line == name + ": " + value
    requires forall c | c in name :: !IsSpace(c) && c != ':'
    requires |name| != 14 && |name| != 17
    ensures FramingRead(OneLine(DefaultLine(r, name, line))) == []
  {
    NotFraming(line, name, value);
  }

  lemma AcceptIsNotFraming(r: Request)
    ensures FramingRead(OneLine(DefaultLine(r, "Accept", "Accept: */*"))) == []
  {
    DefaultIsNotFraming(r, "Accept", "Accept: */*", "*/*");
  }

  lemma ConnectionIsNotFraming(r: Request)
    ensures FramingRead(OneLine(DefaultLine(r, "Connection", "Connection: close"))) == []
  {
    DefaultIsNotFraming(r, "Connection", "Connection: close", "close");
  }

  lemma SilentParts(a: seq<string>, b: seq<string>, c: seq<string>, d: seq<string>)
    requires FramingRead(a) == [] && FramingRead(b) == [] && FramingRead(c) == [] && FramingRead(d) == []
    ensures FramingRead(a + b + c + d) == []
  {
    GatherParts(FramingIn, a, b, c, d);
  }

  lemma OpeningFraming(r: Request)
    ensures FramingRead(OpeningLines(r)) == []
  {
    HostIsNotFraming(r.host);
    UserAgentIsNotFraming(r);
    AcceptIsNotFraming(r);
    ConnectionIsNotFraming(r);
    SilentParts(["Host: " + r.host], OneLine(UserAgentLine(r)),
                OneLine(DefaultLine(r, "Accept", "Accept: */*")), OneLine(DefaultLine(r, "Connection", "Connection: close")));
  }

  lemma ContentLengthIsOurs()
    ensures LowerAscii("Content-Length") == "content-length"
  {
  }

  lemma TransferEncodingIsOurs()
    ensures LowerAscii("Transfer-Encoding") == "transfer-encoding"
  {
  }

  lemma KnownFraming(n: nat)
    ensures FramingRead(["Content-Length: " + Decimal(n)]) == [Header("content-length", Decimal(n))]
  {
    ContentLengthIsOurs();
    hide LowerAscii;
    assert "Content-Length: " + Decimal(n) == "Content-Length" + ": " + Decimal(n);
    IsFramingLine("Content-Length: " + Decimal(n), "Content-Length", "content-length", Decimal(n));
  }

  lemma StreamedFraming()
    ensures FramingRead(["Transfer-Encoding: chunked"]) == [Header("transfer-encoding", "chunked")]
  {
    TransferEncodingIsOurs();
    hide LowerAscii;
    IsFramingLine("Transfer-Encoding: chunked", "Transfer-Encoding", "transfer-encoding", "chunked");
  }

  lemma OurFraming(body: BodyKind)
    ensures FramingRead(OneLine(FramingLine(body))) == FramingSent(body)
  {
    if body.Known? { KnownFraming(body.length); }
    StreamedFraming();
    assert FramingRead([]) == [];
  }

  lemma FramingOfParts(first: string, opening: seq<string>, kept: seq<string>, framing: seq<string>)
    requires FramingRead(opening) == []
    ensures FramingRead(([first] + opening + kept + framing)[1..] + [""]) == FramingRead(kept) + FramingRead(framing)
  {
    assert ([first] + opening + kept + framing)[1..] + [""] == opening + kept + framing + [""];
    GatherParts(FramingIn, opening, kept, framing, [""]);
    GatherOne(FramingIn, "");
  }

  /** The reader finds the codec's own framing and no other exactly when no
      caller's name reads as a framing name once cut at its colon and trimmed. */
  lemma FramingReadsBackIff(r: Request)
    ensures FramingFields(HeadersOf(AllLines(r)[1..] + [""])) == FramingSent(r.body) <==>
            forall i :: 0 <= i < |r.headers| ==> !Disguised(r.headers[i])
  {
    FramingReadIs(AllLines(r)[1..] + [""]);
    OpeningFraming(r);
    OurFraming(r.body);
    KeptFraming(r.headers);
    FramingOfParts(RequestLine(r), OpeningLines(r), KeptLines(r.headers), OneLine(FramingLine(r.body)));
    SameIffNothingAdded(FramingRead(KeptLines(r.headers)), FramingSent(r.body));
  }

  /** A caller's "Content-Length " is not filtered, and is read as a framing field. */
  lemma TrailingSpaceAddsFraming(r: Request, value: string)
    requires r.headers == [Header("Content-Length ", value)]
    ensures FramingFields(HeadersOf(AllLines(r)[1..] + [""])) != FramingSent(r.body)
  {
    DisguisedBySpace(value);
    hide Disguised;
    assert Disguised(r.headers[0]);
    FramingReadsBackIff(r);
  }

  lemma SpaceIsTrimmed(name: string)
    requires name != "" && forall c | c in name :: !IsSpace(c) && c != ':'
    ensures IndexOf(name + " ", ':') == |name + " "| && Trim(name + " ") == name
  {
    var key := name + " ";
    assert ':' !in key;
    assert name[0] in name && name[|name| - 1] in name && key[0] == name[0] && key[..|name|] == name;
    assert TrimStart(key) == key && TrimEnd(key) == TrimEnd(name) == name;
  }

  lemma NotOurs(key: string)
    requires |key| == 15
    ensures !IsOurs(key)
  {
    assert |LowerAscii(key)| == 15;
  }

  lemma DisguisedBySpace(value: string)
    ensures Disguised(Header("Content-Length ", value))
  {
    var name := "Content-Length";
    var key := name + " ";
    ContentLengthIsOurs();
    SpaceIsTrimmed(name);
    NotOurs(key);
    hide LowerAscii, Trim, IndexOf, IsOurs;
    assert key[..|key|] == key;
    assert Disguised(Header(key, value));
    assert key == "Content-Length ";
  }

  lemma SameIffNothingAdded(a: seq<Header>, b: seq<Header>)
    ensures a + b == b <==> a == []
  {
    assert |a + b| == |a| + |b|;
  }

  // ---- The length a reader computes ----

  lemma {:induction false} DecimalValue(n: nat)
    ensures AllDigits(Decimal(n), 10) && DigitsValue(Decimal(n), 10) == n
  {
    var s := Decimal(n);
    if n < 10 {
      assert s[..0] == "";
    } else {
      DecimalValue(n / 10);
      assert s[..|s| - 1] == Decimal(n / 10);
    }
  }

  /** The announced length is parsed back to the body's own. */
  lemma LengthReadsBack(n: nat)
    requires n <= USIZE_MAX
    ensures ParseUnsigned(FramingSent(Known(n))[0].value, 10, USIZE_MAX) == Some(n)
  {
    DecimalValue(n);
    assert Decimal(n)[0] in Decimal(n);
  }
}
