/** What the codec reads in a response that a server printed: its code, its fields,
    how its body is framed, and the body. */
module ResponseReading {
  import opened Bytes
  import opened Text
  import opened TextLaws
  import opened ByteStream
  import opened BodyFraming
  import opened BodyMeaning
  import opened ChunkedGrammar
  import opened HeadFraming
  import opened RequestHead
  import opened RequestHeadReading
  import opened HttpExchange

  // ---- Printing ----

  function Field(h: Header): string { h.key + ":" + h.value }

  function FieldLines(fields: seq<Header>): seq<string> { seq(|fields|, i requires 0 <= i < |fields| => Field(fields[i])) }

  /** The status line, with a reason or without one. */
  function StatusLine(version: string, word: string, reason: Option<string>): string {
    version + " " + word + (if reason.Some? then " " + reason.value else "")
  }

  predicate CleanStatus(version: string, reason: Option<string>) {
    ' ' !in version && Clean(version) && (reason.Some? ==> Clean(reason.value))
  }

  function Print(first: string, fields: seq<Header>): seq<byte> {
    Encode(Joined([first] + FieldLines(fields)) + "\r\n")
  }

  /** What can be printed as a field: no line break, and no colon in the name. */
  predicate Printable(fields: seq<Header>) {
    forall i :: 0 <= i < |fields| ==> Clean(fields[i].key) && Clean(fields[i].value) && ':' !in fields[i].key
  }

  // ---- Fields ----

  lemma FieldIs(h: Header)
    ensures Field(h) == h.key + ":" + h.value
  {
  }

  lemma OneMoreRead(h: Header, read: Header, rest: seq<Header>, others: seq<Header>)
    requires ReadsAs(h, read) && AllRead(rest, others)
    ensures AllRead([h] + rest, [read] + others)
  {
    hide ReadsAs;
  }

  lemma {:induction false} FieldsRead(fields: seq<Header>)
    requires Printable(fields)
    ensures AllRead(fields, HeadersOf(FieldLines(fields)))
  {
    hide ReadsAs, LowerAscii, Trim, Field, HeadersOf, FieldLines, AllRead;
    if fields == [] {
      NothingRead();
    } else {
      FieldsRead(fields[1..]);
      FirstFieldRead(fields);
    }
  }

  lemma NothingRead()
    ensures AllRead([], HeadersOf(FieldLines([])))
  {
    assert FieldLines([]) == [];
    assert HeadersOf([]) == [];
  }

  lemma FirstFieldRead(fields: seq<Header>)
    requires fields != [] && ':' !in fields[0].key && AllRead(fields[1..], HeadersOf(FieldLines(fields[1..])))
    ensures AllRead(fields, HeadersOf(FieldLines(fields)))
  {
    hide ReadsAs, LowerAscii, Trim, Field, HeadersOf, FieldLines, AllRead;
    var h, rest := fields[0], fields[1..];
    var read := Header(LowerAscii(Trim(h.key)), Trim(h.value));
    FirstFieldLine(fields);
    FieldRead(h.key, h.value, FieldLines(rest));
    ReadsAsIff(h, read);
    OneMoreRead(h, read, rest, HeadersOf(FieldLines(rest)));
    assert fields == [h] + rest;
  }

  lemma FirstFieldLine(fields: seq<Header>)
    requires fields != []
    ensures FieldLines(fields) == [fields[0].key + ":" + fields[0].value] + FieldLines(fields[1..])
  {
    FieldIs(fields[0]);
    hide Field;
  }

  // ---- One head ----

  lemma {:induction false} EncodeJoin(a: string, b: string)
    ensures Encode(a + b) == Encode(a) + Encode(b)
  {
    hide EncodeChar;
    if a == "" {
      assert a + b == b;
    } else {
      assert (a + b)[1..] == a[1..] + b && (a + b)[0] == a[0];
      EncodeJoin(a[1..], b);
      ConcatAssoc(EncodeChar(a[0]), Encode(a[1..]), Encode(b));
    }
  }

  lemma PlainChar(t: string, b: byte)
    requires Encode(t) != [] && Encode(t)[0] == b && b < 0x80
    ensures t != "" && t[0] as int == b && Encode(t)[1..] == Encode(t[1..])
  {
  }

  lemma InsideChar(c: char, i: nat)
    requires 0 < i < |EncodeChar(c)|
    ensures EncodeChar(c)[i] >= 0x80
  {
  }

  lemma MarkAtFront(t: string)
    requires HEAD_END <= Encode(t)
    ensures "\r\n\r\n" <= t
  {
    hide Encode;
    var e := Encode(t);
    assert e[0] == HEAD_END[0] && e[1] == HEAD_END[1] && e[2] == HEAD_END[2] && e[3] == HEAD_END[3];
    PlainChar(t, 13);
    PlainChar(t[1..], 10);
    PlainChar(t[2..], 13);
    PlainChar(t[3..], 10);
    assert t[0] == '\r' && t[1] == '\n' && t[2] == '\r' && t[3] == '\n';
  }

  /** A blank line in the bytes is one in the text. */
  lemma {:induction false} MarkInText(t: string, p: nat) returns (q: nat)
    requires OccursAt(Encode(t), HEAD_END, p)
    ensures OccursAt(t, "\r\n\r\n", q) && p == |Encode(t[..q])|
    decreases |t|
  {
    hide EncodeChar;
    var e := Encode(t);
    assert e[p] == e[p..p + 4][0];
    if p == 0 {
      q := 0;
      assert e[..4] == HEAD_END;
      MarkAtFront(t);
    } else {
      var n := |EncodeChar(t[0])|;
      if p < n {
        InsideChar(t[0], p);
      }
      assert e[n..] == Encode(t[1..]);
      assert e[n..][p - n..p - n + 4] == e[p..p + 4];
      q := MarkInText(t[1..], p - n);
      assert t[1..][q..q + 4] == t[q + 1..q + 5];
      assert t[..q + 1][1..] == t[1..][..q];
      q := q + 1;
    }
  }

  /** The lines of a head whose last line end was taken for the blank line. */
  lemma {:induction false} LinesOfHead(lines: seq<string>, head: string)
    requires CleanLines(lines) && Joined(lines) == head + "\r\n"
    ensures Lines(head) == lines
    decreases |lines|
  {
    hide StripCr, OccursAt;
    assert lines != [] && CleanLine(lines[0]);
    var first, rest := lines[0], Joined(lines[1..]);
    assert first + "\r\n" + rest == head + "\r\n";
    if |lines| == 1 {
      SameFront(first, head);
      FirstIndex(head, '\n', |head|);
    } else {
      BlankLineIsThere(lines[1..]);
      var more := rest[..|rest| - 2];
      assert rest == more + "\r\n";
      assert first + "\r\n" + rest == (first + "\r\n" + more) + "\r\n";
      SameFront(first + "\r\n" + more, head);
      assert head == (first + "\r") + ['\n'] + more;
      IndexBehind(first + "\r", '\n', more);
      assert head[..|first| + 1] == first + "\r" && head[|first| + 2..] == more;
      CrIsStripped(first);
      LinesOfHead(lines[1..], more);
    }
  }

  lemma CrIsStripped(line: string)
    ensures StripCr(line + "\r") == line
  {
  }

  lemma SameFront(a: string, b: string)
    requires a + "\r\n" == b + "\r\n"
    ensures a == b
  {
    assert a == (a + "\r\n")[..|a|] && b == (b + "\r\n")[..|b|];
  }

  /** Lines printed with a blank one behind them are the head in front of the wire. */
  lemma HeadOfLines(lines: seq<string>, rest: seq<byte>) returns (head: string)
    requires CleanLines(lines) && lines != []
    ensures Utf8(Encode(head)) == Some(head) && Lines(head) == lines
    ensures var b := Encode(Joined(lines) + "\r\n");
            FrontHead(b + rest) == Whole(ParseHead(Encode(head)), |b|)
  {
    hide Encode, CleanLines, Utf8, ParseHead, Lines;
    var text := Joined(lines) + "\r\n";
    var b := Encode(text);
    BlankLineIsThere(lines);
    head := Joined(lines)[..|Joined(lines)| - 2];
    assert Joined(lines) == head + "\r\n" && text == head + "\r\n\r\n";
    EncodeJoin(head, "\r\n\r\n");
    MarkIs();
    var at := |Encode(head)|;
    assert OccursAt(b, HEAD_END, at);
    forall p | OccursAt(b, HEAD_END, p) ensures p == at {
      var q := MarkInText(text, p);
      NoEarlierBlankLine(lines, q);
      assert text[..q] == head;
    }
    FirstMatchIsUnique(b, HEAD_END, at);
    FindIsStable(b, rest, HEAD_END);
    assert (b + rest)[..at] == Encode(head);
    Utf8Iff(Encode(head), head);
    LinesOfHead(lines, head);
  }

  lemma MarkIs()
    ensures Encode("\r\n\r\n") == HEAD_END
  {
  }

  lemma StatusIs(version: string, word: string, reason: Option<string>)
    requires ' ' !in version && ' ' !in word
    ensures StatusOf(StatusLine(version, word, reason)) ==
            match ParseUnsigned(word, 10, 65535) case None => BadCode case Some(n) => Code(n)
  {
    hide ParseUnsigned;
    var after := if reason.Some? then " " + reason.value else "";
    var line := StatusLine(version, word, reason);
    assert line == version + [' '] + (word + after);
    IndexBehind(version, ' ', word + after);
    assert line[|version| + 1..] == word + after;
    assert (word + after)[..|word|] == word;
    FirstIndex(word + after, ' ', |word|);
  }

  lemma DecimalDigits(s: string)
    requires AllDigits(s, 10)
    ensures forall c :: c in s ==> '0' <= c <= '9'
  {
  }

  /** What a status word that denotes a number is. */
  lemma NotationParses(word: string, n: nat, max: nat)
    requires IsNotation(word, n, 10)
    ensures ParseUnsigned(word, 10, max) == if n <= max then Some(n) else None
    ensures ' ' !in word && Clean(word)
  {
    hide IsNotation, DigitsValue, AllDigits;
    ParsedIff(word, 10, n, n);
    var digits := if word != "" && word[0] == '+' then word[1..] else word;
    DecimalDigits(digits);
    assert word == digits || word == "+" + digits;
  }

  lemma CleanHead(first: string, fields: seq<Header>)
    requires CleanLine(first) && Printable(fields)
    ensures CleanLines([first] + FieldLines(fields))
  {
    forall i | 0 <= i < |fields| ensures CleanLine(FieldLines(fields)[i]) {
      CleanPlus(fields[i].key, ":");
      CleanPlus(fields[i].key + ":", fields[i].value);
    }
  }

  lemma CleanFirst(version: string, word: string, reason: Option<string>)
    requires CleanStatus(version, reason) && Clean(word)
    ensures CleanLine(StatusLine(version, word, reason))
  {
    CleanPlus(version, " ");
    CleanPlus(version + " ", word);
    var after := if reason.Some? then " " + reason.value else "";
    if reason.Some? { CleanPlus(" ", reason.value); }
    CleanPlus(version + " " + word, after);
  }

  /** A printed head is found with exactly its own bytes. It is interim for 1xx but 101,
      refused for 101 and for numbers no u16 holds, and final with its code and its fields
      for all others. */
  lemma PrintedHeadRead(version: string, word: string, reason: Option<string>, fields: seq<Header>, rest: seq<byte>,
                        code: nat)
    requires CleanStatus(version, reason) && Printable(fields) && IsNotation(word, code, 10)
    ensures var head := Print(StatusLine(version, word, reason), fields);
            var front := FrontHead(head + rest);
            && front.Whole? && front.size == |head|
            && (front.head.Interim? <==> 100 <= code < 200 && code != 101)
            && (front.head == Rejected(SwitchingProtocols) <==> code == 101)
            && (front.head == Rejected(BadStatusCode) <==> code > 65535)
            && (front.head.Final? <==> code < 100 || 200 <= code <= 65535)
            && (front.head.Final? ==> front.head.status == code && AllRead(fields, front.head.headers))
  {
    NotationParses(word, code, 65535);
    hide Encode, Utf8, Lines, StatusOf, IsNotation, StatusLine, ParseUnsigned, FrontHead, ReadsAs, FieldLines, CleanLines, Printable;
    CleanFirst(version, word, reason);
    var first := StatusLine(version, word, reason);
    CleanHead(first, fields);
    var lines := [first] + FieldLines(fields);
    var head := HeadOfLines(lines, rest);
    StatusIs(version, word, reason);
    FieldsRead(fields);
    assert lines[1..] == FieldLines(fields);
  }

  /** Other status lines are refused: one without a space, and one whose second word
      denotes no number that a u16 holds. */
  lemma BadStatus(first: string, version: string, word: string, reason: Option<string>, fields: seq<Header>, rest: seq<byte>)
    requires CleanLine(first) && Printable(fields) && ' ' !in version && ' ' !in word
    ensures ' ' !in first ==> FrontHead(Print(first, fields) + rest) == Whole(Rejected(BadStatusLine), |Print(first, fields)|)
    ensures first == StatusLine(version, word, reason)
            && (forall n | 0 <= n <= 65535 :: !IsNotation(word, n, 10)) ==>
              FrontHead(Print(first, fields) + rest) == Whole(Rejected(BadStatusCode), |Print(first, fields)|)
  {
    hide Encode, Utf8, Lines, IsNotation, StatusLine, ParseUnsigned, FrontHead, FieldLines, CleanLines, Printable;
    CleanHead(first, fields);
    var lines := [first] + FieldLines(fields);
    var head := HeadOfLines(lines, rest);
    if ' ' !in first {
      assert first[..|first|] == first;
      FirstIndex(first, ' ', |first|);
    }
    if first == StatusLine(version, word, reason) {
      hide StatusOf;
      StatusIs(version, word, reason);
      var parsed := ParseUnsigned(word, 10, 65535);
      if parsed.Some? {
        ParsedIff(word, 10, 65535, parsed.value);
      }
    }
  }

  /** Neither is a head that is no text, or no line. */
  lemma NoHead(b: seq<byte>, rest: seq<byte>)
    requires FindSubsequence(b + HEAD_END, HEAD_END) == Some(|b|)
    ensures (forall s :: b != Encode(s)) ==> FrontHead(b + HEAD_END + rest) == Whole(Rejected(HeadNotUtf8), |b| + 4)
    ensures b == [] ==> FrontHead(b + HEAD_END + rest) == Whole(Rejected(NoStatusLine), 4)
  {
    hide Encode;
    FindIsStable(b + HEAD_END, rest, HEAD_END);
    assert (b + HEAD_END + rest)[..|b|] == b;
    if Utf8(b).Some? {
      Utf8Iff(b, Utf8(b).value);
    }
  }

  // ---- The framing ----

  /** "chunked" in any letter case, somewhere in the text. */
  ghost predicate NamesChunked(s: string) { exists p :: ChunkedAt(s, p) }

  ghost predicate ChunkedAt(s: string, p: nat) {
    p + 7 <= |s| && forall k :: 0 <= k < 7 ==> s[p + k] == "chunked"[k] || s[p + k] == "CHUNKED"[k]
  }

  ghost predicate TransfersChunked(headers: seq<Header>) {
    exists i :: 0 <= i < |headers| && headers[i].key == "transfer-encoding" && NamesChunked(headers[i].value)
  }

  /** The first field of that name. */
  predicate IsFirst(headers: seq<Header>, key: string, i: nat) {
    i < |headers| && headers[i].key == key && forall j :: 0 <= j < i ==> headers[j].key != key
  }

  lemma ChunkedAtIs(s: string, p: nat)
    ensures OccursAt(LowerAscii(s), "chunked", p) <==> ChunkedAt(s, p)
  {
    var t := LowerAscii(s);
    if p + 7 <= |s| {
      var window := t[p..p + 7];
      assert window == "chunked" <==> forall k :: 0 <= k < 7 ==> window[k] == "chunked"[k];
    }
  }

  lemma NamesChunkedIs(s: string)
    ensures FindSubsequence(LowerAscii(s), "chunked").Some? <==> NamesChunked(s)
  {
    hide OccursAt, ChunkedAt, LowerAscii;
    forall p: nat ensures OccursAt(LowerAscii(s), "chunked", p) <==> ChunkedAt(s, p) { ChunkedAtIs(s, p); }
  }

  lemma SaysChunkedIs(headers: seq<Header>)
    ensures SaysChunked(headers) <==> TransfersChunked(headers)
  {
    hide FindSubsequence, NamesChunked, LowerAscii;
    forall h | h in headers ensures FindSubsequence(LowerAscii(h.value), "chunked").Some? <==> NamesChunked(h.value) {
      NamesChunkedIs(h.value);
    }
    if SaysChunked(headers) {
      var h :| h in headers && h.key == "transfer-encoding" && FindSubsequence(LowerAscii(h.value), "chunked").Some?;
      var i :| 0 <= i < |headers| && headers[i] == h;
      assert NamesChunked(headers[i].value);
    }
  }

  lemma {:induction false} FirstValueIs(headers: seq<Header>, key: string, i: nat)
    ensures IsFirst(headers, key, i) ==> FirstValue(headers, key) == Some(headers[i].value)
    ensures (forall j :: 0 <= j < |headers| ==> headers[j].key != key) ==> FirstValue(headers, key) == None
  {
    if headers != [] {
      assert forall j :: 0 <= j < |headers[1..]| ==> headers[1..][j] == headers[j + 1];
      FirstValueIs(headers[1..], key, if i > 0 then i - 1 else 0);
    }
  }

  /** Some index is first, or the name is missing. */
  lemma {:induction false} FirstIndexOf(headers: seq<Header>, key: string) returns (i: nat)
    ensures IsFirst(headers, key, i) || (i == |headers| && forall j :: 0 <= j < |headers| ==> headers[j].key != key)
  {
    i := 0;
    while i < |headers| && headers[i].key != key
      invariant i <= |headers| && forall j :: 0 <= j < i ==> headers[j].key != key
    {
      i := i + 1;
    }
  }

  /** The first length given denotes n. */
  ghost predicate GivesLength(headers: seq<Header>, n: nat) {
    exists i :: 0 <= i < |headers| && IsFirst(headers, "content-length", i) && IsNotation(headers[i].value, n, 10)
  }

  predicate GivesNoLength(headers: seq<Header>) { forall i :: 0 <= i < |headers| ==> headers[i].key != "content-length" }

  lemma LengthGiven(headers: seq<Header>, n: nat)
    ensures var v := FirstValue(headers, "content-length");
            && (v.None? <==> GivesNoLength(headers)) && (v.None? ==> !GivesLength(headers, n))
            && (v.Some? && n <= 0xFFFF_FFFF ==>
                  (ParseUnsigned(v.value, 10, 0xFFFF_FFFF) == Some(n) <==> GivesLength(headers, n)))
  {
    hide ParseUnsigned, IsNotation;
    var i := FirstIndexOf(headers, "content-length");
    FirstValueIs(headers, "content-length", i);
    if i < |headers| {
      ParsedIff(headers[i].value, 10, 0xFFFF_FFFF, n);
      assert forall j :: 0 <= j < |headers| && IsFirst(headers, "content-length", j) ==> j == i;
    }
  }

  /** Each framing exactly when it should be: none behind HEAD, 204 and 304; else chunked
      when a transfer coding says so, a length beside it or not; else the first length given,
      which must be a number that fits usize; else until the end of the stream. */
  lemma FramingIff(isHead: bool, status: nat, headers: seq<Header>, n: nat)
    ensures var r, bare := FramingOf(isHead, status, headers), isHead || status in {204, 304};
            var sized := !bare && !TransfersChunked(headers);
            && (r == Some(NoBody) <==> bare)
            && (r == Some(Chunked) <==> !bare && TransfersChunked(headers))
            && (r == Some(UntilEof) <==> sized && GivesNoLength(headers))
            && (r == Some(ContentLength(n)) <==> sized && n <= 0xFFFF_FFFF && GivesLength(headers, n))
            && (r == None <==> sized && !GivesNoLength(headers) &&
                               forall m | 0 <= m <= 0xFFFF_FFFF :: !GivesLength(headers, m))
  {
    hide ParseUnsigned, SaysChunked, TransfersChunked, GivesLength, GivesNoLength, FirstValue;
    SaysChunkedIs(headers);
    LengthGiven(headers, n);
    var v := FirstValue(headers, "content-length");
    if v.Some? {
      var parsed := ParseUnsigned(v.value, 10, 0xFFFF_FFFF);
      ParsedFits(v.value, 0xFFFF_FFFF);
      forall m | 0 <= m <= 0xFFFF_FFFF ensures parsed == Some(m) <==> GivesLength(headers, m) { LengthGiven(headers, m); }
      assert parsed.Some? ==> GivesLength(headers, parsed.value);
    }
  }

  lemma ParsedFits(s: string, max: nat)
    ensures var r := ParseUnsigned(s, 10, max); r.Some? ==> r.value <= max
  {
  }

  // ---- The whole response ----

  lemma {:induction false} SameRead(printed: seq<Header>, a: seq<Header>, b: seq<Header>)
    requires AllRead(printed, a) && AllRead(printed, b)
    ensures a == b
  {
    hide ReadsAs;
    forall i | 0 <= i < |printed| ensures a[i] == b[i] {
      ReadsAsIff(printed[i], a[i]);
      ReadsAsIff(printed[i], b[i]);
    }
  }

  /** Interim responses in front make no difference. */
  lemma InterimIsSkipped(version: string, word: string, reason: Option<string>, fields: seq<Header>, code: nat,
                         wire: seq<byte>, isHead: bool, tail: Tail)
    requires CleanStatus(version, reason) && Printable(fields) && IsNotation(word, code, 10)
    requires 100 <= code < 200 && code != 101
    ensures ResponseOf(Print(StatusLine(version, word, reason), fields) + wire, isHead, tail) == ResponseOf(wire, isHead, tail)
  {
    hide Print, Printable, StatusLine, IsNotation, FrontHead, FramingOf, BodyOf, AllRead, CleanStatus;
    var head := Print(StatusLine(version, word, reason), fields);
    PrintedHeadRead(version, word, reason, fields, wire, code);
    assert (head + wire)[|head|..] == wire;
    var h := ReadHead(wire, isHead, tail);
    assert ReadHead(head + wire, isHead, tail) == h.Behind(|head|);
    if h.Head? {
      assert (head + wire)[|head| + h.bodyAt..] == wire[h.bodyAt..];
    }
  }

  /** The bytes behind the head carry this body. */
  ghost predicate Carries(bare: bool, read: seq<Header>, sent: seq<byte>, tail: Tail, content: seq<byte>) {
    if bare then content == []
    else if TransfersChunked(read) then CarriesChunks(sent, content)
    else if GivesNoLength(read) then content == sent && (tail.Closed? || sent != [])
    else content <= sent && |content| <= 0xFFFF_FFFF && GivesLength(read, |content|)
  }

  ghost predicate CarriesChunks(sent: seq<byte>, content: seq<byte>) {
    exists frames, last :: AllWellFormed(frames) && IsLast(last) && MessageBytes(frames, last) <= sent && Payload(frames) == content
  }

  /** What the client reports of a printed response: the code, the fields, and that body
      exactly if the bytes behind the head carry it. */
  lemma ResponseIff(version: string, word: string, reason: Option<string>, fields: seq<Header>, code: nat,
                    sent: seq<byte>, isHead: bool, tail: Tail, read: seq<Header>, content: seq<byte>)
    requires CleanStatus(version, reason) && Printable(fields) && IsNotation(word, code, 10)
    requires code < 100 || 200 <= code <= 65535
    ensures ResponseOf(Print(StatusLine(version, word, reason), fields) + sent, isHead, tail) ==
            Response(code, read, Outlook(content, Complete)) <==>
            AllRead(fields, read) && Carries(isHead || code in {204, 304}, read, sent, tail, content)
  {
    hide Print, Printable, StatusLine, IsNotation, FrontHead, FramingOf, BodyOf, AllRead, Carries, CleanStatus;
    var head := Print(StatusLine(version, word, reason), fields);
    PrintedHeadRead(version, word, reason, fields, sent, code);
    var own := FrontHead(head + sent).head.headers;
    if AllRead(fields, read) { SameRead(fields, own, read); }
    assert (head + sent)[|head|..] == sent;
    CarriesIff(isHead, code, own, sent, tail, content);
    ReadHeadIs(head + sent, isHead, tail);
  }

  lemma ReadHeadIs(wire: seq<byte>, isHead: bool, tail: Tail)
    ensures var next := FrontHead(wire);
            next.Whole? && next.head.Final? ==>
              ReadHead(wire, isHead, tail) ==
              match FramingOf(isHead, next.head.status, next.head.headers)
              case None => HeadFailed(BadContentLength)
              case Some(framing) => Head(next.head.status, next.head.headers, framing, next.size)
  {
    hide FrontHead, FramingOf;
  }

  lemma CarriesIff(isHead: bool, code: nat, read: seq<Header>, sent: seq<byte>, tail: Tail, content: seq<byte>)
    ensures var framing := FramingOf(isHead, code, read);
            framing.Some? && BodyOf(framing.value, sent, tail) == Outlook(content, Complete) <==>
            Carries(isHead || code in {204, 304}, read, sent, tail, content)
  {
    hide DecodeChunks, TransfersChunked, GivesNoLength, GivesLength, MessageBytes, Payload, IsLast, AllWellFormed, FramingOf;
    var framing := FramingOf(isHead, code, read);
    FramingIff(isHead, code, read, |content|);
    ChunkedIff(sent, tail, content);
    if framing.Some? && framing.value.ContentLength? {
      FramingIff(isHead, code, read, framing.value.len);
    }
  }
}
