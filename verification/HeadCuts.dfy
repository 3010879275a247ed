/** What the header reader makes of a wire for one given cut into reads, and for
    which wires the cut decides. */
module HeadCuts {
  import opened Bytes
  import opened Text
  import opened ByteStream
  import opened BodyFraming
  import opened HeadFraming

  const READ_SIZE: nat := 8192

  datatype HeadResult =
    | Ok(status: nat, headers: seq<Header>, framing: Framing, overflow: seq<byte>)
    | Err(error: HeadError)

  /** What is returned, and the bytes of the wire that were not read. */
  datatype Reading = Reading(result: HeadResult, unread: seq<byte>)

  function Decide(head: ParsedHead, isHead: bool, remaining: seq<byte>): HeadResult
    requires !head.Interim?
  {
    match head
    case Rejected(e) => Err(e)
    case Final(status, headers) =>
      match FramingOf(isHead, status, headers)
      case None => Err(BadContentLength)
      case Some(framing) => Ok(status, headers, framing, remaining)
  }

  /** The reader holding some bytes, when what is still to come is cut that way. */
  function ReadWith(held: seq<byte>, incoming: seq<byte>, cuts: seq<nat>, isHead: bool, tail: Tail): Reading
    decreases |incoming|, |held|
  {
    match FrontHead(held)
    case Whole(head, size) =>
      if head.Interim? then ReadWith(held[size..], incoming, cuts, isHead, tail)
      else Reading(Decide(head, isHead, held[size..]), incoming)
    case Partial =>
      if |held| > MAX_HEADER_SIZE then Reading(Err(HeadTooLarge), incoming)
      else if incoming == [] then Reading(Err(if tail.Closed? then ClosedBeforeHeaders else HeadReadFailed), [])
      else
        var n := Piece(cuts, READ_SIZE, |incoming|);
        ReadWith(held + incoming[..n], incoming[n..], Rest(cuts), isHead, tail)
  }

  /** A complete head is taken off; an incomplete one waits for one more read, or ends it. */
  lemma ReadsOn(held: seq<byte>, incoming: seq<byte>, cuts: seq<nat>, isHead: bool, tail: Tail)
    ensures var next, r := FrontHead(held), ReadWith(held, incoming, cuts, isHead, tail);
            && (next.Whole? ==>
                  r == if next.head.Interim? then ReadWith(held[next.size..], incoming, cuts, isHead, tail)
                       else Reading(Decide(next.head, isHead, held[next.size..]), incoming))
            && (next.Partial? && |held| > MAX_HEADER_SIZE ==> r == Reading(Err(HeadTooLarge), incoming))
            && (next.Partial? && |held| <= MAX_HEADER_SIZE && incoming == [] ==>
                  r == Reading(Err(if tail.Closed? then ClosedBeforeHeaders else HeadReadFailed), []))
            && (next.Partial? && |held| <= MAX_HEADER_SIZE && incoming != [] ==>
                  var n := Piece(cuts, READ_SIZE, |incoming|);
                  r == ReadWith(held + incoming[..n], incoming[n..], Rest(cuts), isHead, tail))
  {
    hide FrontHead, Decide;
  }

  // ---- What every cut gives ----

  /** The outcome computed from the wire, and the bytes behind the head split
      between the overflow handed over and what is still to be read. */
  ghost predicate Agrees(outcome: HeadOutcome, wire: seq<byte>, unread: seq<byte>, r: HeadResult) {
    match outcome
    case Head(status, headers, framing, bodyAt) =>
      && r.Ok? && r.status == status && r.headers == headers && r.framing == framing
      && bodyAt <= |wire| && r.overflow + unread == wire[bodyAt..]
    case HeadFailed(e) => r == Err(e)
  }

  /** The result is the wire's own, whatever the cut into reads, unless a head
      overran the cap; and a head that overran it by a whole read is refused. */
  ghost predicate Concludes(wire: seq<byte>, unread: seq<byte>, isHead: bool, tail: Tail, r: HeadResult) {
    && (Agrees(ReadHead(wire, isHead, tail), wire, unread, r) || (r == Err(HeadTooLarge) && !WithinCap(wire)))
    && (OverCap(wire, READ_SIZE) ==> r == Err(HeadTooLarge))
  }

  lemma {:induction false} EveryCut(held: seq<byte>, incoming: seq<byte>, cuts: seq<nat>, isHead: bool, tail: Tail)
    requires |held| <= MAX_HEADER_SIZE + READ_SIZE
    ensures var r := ReadWith(held, incoming, cuts, isHead, tail);
            Concludes(held + incoming, r.unread, isHead, tail, r.result)
    decreases |incoming|, |held|
  {
    hide ParseHead, FramingOf, Concludes;
    var wire := held + incoming;
    FrontHeadIsStable(held, incoming);
    match FrontHead(held)
    case Whole(head, size) =>
      assert wire[size..] == held[size..] + incoming;
      if head.Interim? {
        EveryCut(held[size..], incoming, cuts, isHead, tail);
        var r := ReadWith(held[size..], incoming, cuts, isHead, tail);
        ConcludesBehind(wire, r.unread, isHead, tail, r.result);
      } else {
        DecidedByHead(wire, incoming, isHead, tail, held[size..]);
      }
    case Partial =>
      if |held| > MAX_HEADER_SIZE || incoming == [] {
        assert incoming == [] ==> wire == held;
        EndedEarly(wire, incoming, isHead, tail);
      } else {
        var n := Piece(cuts, READ_SIZE, |incoming|);
        assert wire == held + incoming[..n] + incoming[n..];
        EveryCut(held + incoming[..n], incoming[n..], Rest(cuts), isHead, tail);
      }
  }

  /** Behind an interim head that fits, the rest of the wire decides. */
  lemma ConcludesBehind(wire: seq<byte>, unread: seq<byte>, isHead: bool, tail: Tail, r: HeadResult)
    ensures var next := FrontHead(wire);
            next.Whole? && next.head.Interim? && next.size <= MAX_HEADER_SIZE + READ_SIZE ==>
              (Concludes(wire[next.size..], unread, isHead, tail, r) ==> Concludes(wire, unread, isHead, tail, r))
  {
    hide FrontHead;
    var next := FrontHead(wire);
    if next.Whole? && next.head.Interim? {
      var h := ReadHead(wire[next.size..], isHead, tail);
      assert ReadHead(wire, isHead, tail) == h.Behind(next.size);
      if h.Head? {
        assert wire[next.size..][h.bodyAt..] == wire[next.size + h.bodyAt..];
      }
    }
  }

  /** A deciding head that fits is the wire's own. */
  lemma DecidedByHead(wire: seq<byte>, unread: seq<byte>, isHead: bool, tail: Tail, overflow: seq<byte>)
    ensures var next := FrontHead(wire);
            next.Whole? && !next.head.Interim? && next.size <= MAX_HEADER_SIZE + READ_SIZE ==>
              (overflow + unread == wire[next.size..] ==>
                 Concludes(wire, unread, isHead, tail, Decide(next.head, isHead, overflow)))
  {
    hide FrontHead, FramingOf;
  }

  /** Giving up is the wire's own outcome, or due to a head that overran the cap. */
  lemma EndedEarly(wire: seq<byte>, unread: seq<byte>, isHead: bool, tail: Tail)
    ensures var next := FrontHead(wire);
            && (|wire| > MAX_HEADER_SIZE && (next.Whole? ==> next.size > MAX_HEADER_SIZE + 1) ==>
                  Concludes(wire, unread, isHead, tail, Err(HeadTooLarge)))
            && (|wire| <= MAX_HEADER_SIZE && next.Partial? ==>
                  Concludes(wire, unread, isHead, tail, Err(if tail.Closed? then ClosedBeforeHeaders else HeadReadFailed)))
  {
    hide FrontHead, FramingOf;
  }

  // ---- Which wires the cut decides ----

  /** Status, fields and framing, or the error; how many body bytes came along is not part of it. */
  function Verdict(r: HeadResult): HeadResult { if r.Ok? then r.(overflow := []) else r }

  /** The wire's own verdict. */
  function Told(wire: seq<byte>, isHead: bool, tail: Tail): HeadResult {
    match ReadHead(wire, isHead, tail)
    case Head(status, headers, framing, _) => Ok(status, headers, framing, [])
    case HeadFailed(e) => Err(e)
  }

  function VerdictOf(wire: seq<byte>, cuts: seq<nat>, isHead: bool, tail: Tail): HeadResult {
    Verdict(ReadWith([], wire, cuts, isHead, tail).result)
  }

  lemma EveryVerdict(wire: seq<byte>, cuts: seq<nat>, isHead: bool, tail: Tail)
    ensures WithinCap(wire) ==> VerdictOf(wire, cuts, isHead, tail) == Told(wire, isHead, tail)
    ensures OverCap(wire, READ_SIZE) ==> VerdictOf(wire, cuts, isHead, tail) == Err(HeadTooLarge)
    ensures VerdictOf(wire, cuts, isHead, tail) in {Told(wire, isHead, tail), Err(HeadTooLarge)}
  {
    hide WithinCap, OverCap, ReadWith, ReadHead;
    EveryCut([], wire, cuts, isHead, tail);
    assert [] + wire == wire;
  }

  /** Reads of one byte notice every head that overruns the cap by two bytes. */
  lemma {:induction false} ByteByByte(held: seq<byte>, incoming: seq<byte>, isHead: bool, tail: Tail)
    requires FrontHead(held).Partial? && |held| <= MAX_HEADER_SIZE + 1
    requires !WithinCap(held + incoming)
    ensures ReadWith(held, incoming, [], isHead, tail).result == Err(HeadTooLarge)
    decreases |incoming|
  {
    hide ParseHead, FramingOf;
    if |held| <= MAX_HEADER_SIZE {
      var wire := held + incoming;
      FrontHeadIsStable(held, incoming);
      assert incoming == [] ==> wire == held;
      var more, rest := held + incoming[..1], incoming[1..];
      assert more + rest == wire;
      FrontHeadIsStable(more, rest);
      assert Rest([]) == [];
      if FrontHead(more).Partial? {
        ByteByByte(more, rest, isHead, tail);
      } else {
        var size := FrontHead(more).size;
        assert size == |more| && more[size..] == [] && wire[size..] == rest && [] + rest == rest;
        ByteByByte([], rest, isHead, tail);
      }
    }
  }

  lemma ParsedIsNoCap(wire: seq<byte>)
    ensures FrontHead(wire).Whole? ==> FrontHead(wire).head != Rejected(HeadTooLarge)
  {
  }

  lemma ToldAtEnd(wire: seq<byte>, isHead: bool, tail: Tail)
    ensures FrontHead(wire).Partial? && !OverCap(wire, READ_SIZE) ==>
              && |wire| <= MAX_HEADER_SIZE
              && Told(wire, isHead, tail) == Err(if tail.Closed? then ClosedBeforeHeaders else HeadReadFailed)
  {
    hide FrontHead, FramingOf;
  }

  lemma ToldByHead(wire: seq<byte>, isHead: bool, tail: Tail)
    ensures FrontHead(wire).Whole? && !FrontHead(wire).head.Interim? ==>
              Told(wire, isHead, tail) == Verdict(Decide(FrontHead(wire).head, isHead, [])) != Err(HeadTooLarge)
  {
    ParsedIsNoCap(wire);
    hide FrontHead, FramingOf;
  }

  lemma ToldBehind(wire: seq<byte>, isHead: bool, tail: Tail)
    ensures FrontHead(wire).Whole? && FrontHead(wire).head.Interim? ==>
              var rest := wire[FrontHead(wire).size..];
              && Told(wire, isHead, tail) == Told(rest, isHead, tail)
              && (!OverCap(wire, READ_SIZE) ==> !OverCap(rest, READ_SIZE))
  {
    hide FrontHead, FramingOf;
    var next := FrontHead(wire);
    if next.Whole? && next.head.Interim? {
      assert ReadHead(wire, isHead, tail) == ReadHead(wire[next.size..], isHead, tail).Behind(next.size);
    }
  }

  /** The wire's own verdict, head by head, when none overruns the cap by more than one read. */
  lemma ToldIs(wire: seq<byte>, isHead: bool, tail: Tail)
    ensures var next, told := FrontHead(wire), Told(wire, isHead, tail);
            !OverCap(wire, READ_SIZE) ==>
              && (next.Partial? ==>
                    |wire| <= MAX_HEADER_SIZE && told == Err(if tail.Closed? then ClosedBeforeHeaders else HeadReadFailed))
              && (next.Whole? ==> next.size <= MAX_HEADER_SIZE + READ_SIZE)
              && (next.Whole? && !next.head.Interim? ==>
                    told == Verdict(Decide(next.head, isHead, [])) != Err(HeadTooLarge))
              && (next.Whole? && next.head.Interim? ==>
                    told == Told(wire[next.size..], isHead, tail) && !OverCap(wire[next.size..], READ_SIZE))
  {
    ToldAtEnd(wire, isHead, tail);
    ToldByHead(wire, isHead, tail);
    ToldBehind(wire, isHead, tail);
    CapOnFront(wire);
    hide FrontHead, Told, OverCap, Decide;
  }

  lemma CapOnFront(wire: seq<byte>)
    ensures !OverCap(wire, READ_SIZE) && FrontHead(wire).Whole? ==> FrontHead(wire).size <= MAX_HEADER_SIZE + READ_SIZE
  {
    hide FrontHead;
  }

  /** Reads that end where a head ends, and are as long as they may be just before it,
      never notice a head that overruns the cap by one read or less. */
  lemma {:induction false} HeadByHead(held: seq<byte>, incoming: seq<byte>, isHead: bool, tail: Tail) returns (cuts: seq<nat>)
    requires FrontHead(held).Partial? && |held| <= MAX_HEADER_SIZE
    requires !OverCap(held + incoming, READ_SIZE)
    ensures Verdict(ReadWith(held, incoming, cuts, isHead, tail).result) == Told(held + incoming, isHead, tail)
    decreases |incoming|
  {
    hide ParseHead, FramingOf, Told, OverCap, FrontHead;
    var wire := held + incoming;
    FrontHeadIsStable(held, incoming);
    ToldIs(wire, isHead, tail);
    if incoming == [] {
      assert wire == held;
      return [];
    }
    var next := FrontHead(wire);
    var n := if next.Whole? && next.size - |held| <= READ_SIZE then next.size - |held| else 1;
    var more, rest := held + incoming[..n], incoming[n..];
    assert more + rest == wire;
    FrontHeadIsStable(more, rest);
    var later: seq<nat> := [];
    if FrontHead(more).Partial? {
      later := HeadByHead(more, rest, isHead, tail);
    } else {
      assert more == wire[..next.size] && more[next.size..] == [] && wire[next.size..] == rest && [] + rest == rest;
      if next.head.Interim? {
        later := HeadByHead([], rest, isHead, tail);
      }
    }
    cuts := [n] + later;
    assert Rest(cuts) == later && Piece(cuts, READ_SIZE, |incoming|) == n;
  }

  lemma {:induction false} OwnVerdictIsNoCap(wire: seq<byte>, isHead: bool, tail: Tail)
    requires !OverCap(wire, READ_SIZE)
    ensures Told(wire, isHead, tail) != Err(HeadTooLarge)
    decreases |wire|
  {
    hide Told, OverCap, FrontHead;
    var next := FrontHead(wire);
    ToldIs(wire, isHead, tail);
    if next.Whole? && next.head.Interim? {
      OwnVerdictIsNoCap(wire[next.size..], isHead, tail);
    }
  }

  ghost predicate Differ(wire: seq<byte>, a: seq<nat>, b: seq<nat>, isHead: bool, tail: Tail) {
    VerdictOf(wire, a, isHead, tail) != VerdictOf(wire, b, isHead, tail)
  }

  /** For every wire: two cuts into reads give different verdicts if and only if some
      head up to the deciding one ends more than one byte past the cap, and none ends
      more than one read past it. */
  lemma CutDecidesIff(wire: seq<byte>, isHead: bool, tail: Tail)
    ensures (exists a, b :: Differ(wire, a, b, isHead, tail)) <==> !WithinCap(wire) && !OverCap(wire, READ_SIZE)
  {
    hide WithinCap, OverCap, ReadWith, ReadHead, Told;
    forall cuts
      ensures WithinCap(wire) ==> VerdictOf(wire, cuts, isHead, tail) == Told(wire, isHead, tail)
      ensures OverCap(wire, READ_SIZE) ==> VerdictOf(wire, cuts, isHead, tail) == Err(HeadTooLarge)
    {
      EveryVerdict(wire, cuts, isHead, tail);
    }
    if !WithinCap(wire) && !OverCap(wire, READ_SIZE) {
      assert [] + wire == wire;
      ByteByByte([], wire, isHead, tail);
      var cuts := HeadByHead([], wire, isHead, tail);
      OwnVerdictIsNoCap(wire, isHead, tail);
      assert Differ(wire, [], cuts, isHead, tail);
    }
  }

  // ---- Such a wire ----

  /** "HTTP/1.1 204 aaa...": a response without a body. */
  function LongHead(n: nat): string { "HTTP/1.1 204 " + seq(n, i requires 0 <= i < n => 'a') }

  lemma IndexOfFirst(s: string, c: char, i: nat)
    requires i <= |s| && (i < |s| ==> s[i] == c) && c !in s[..i]
    ensures IndexOf(s, c) == i
  {
    var j := IndexOf(s, c);
    assert forall k :: 0 <= k < i ==> s[k] in s[..i];
    assert forall k :: 0 <= k < j ==> s[k] in s[..j];
  }

  lemma NoBlankLine(head: seq<byte>)
    requires 13 !in head
    ensures FindSubsequence(head + HEAD_END, HEAD_END) == Some(|head|)
  {
    var wire := head + HEAD_END;
    assert wire[|head|..|head| + 4] == HEAD_END;
    forall i | 0 <= i < |head| ensures !OccursAt(wire, HEAD_END, i) {
      assert wire[i] == head[i] && head[i] in head;
      assert i + 4 <= |wire| ==> wire[i..i + 4][0] == wire[i];
    }
    FirstMatchIsUnique(wire, HEAD_END, |head|);
  }

  lemma LongHeadParses(n: nat)
    ensures var lines := Lines(LongHead(n));
            && lines == [LongHead(n)] && StatusOf(lines[0]) == Code(204) && HeadersOf(lines[1..]) == []
  {
    var text := LongHead(n);
    IndexOfFirst(text, '\n', |text|);
    IndexOfFirst(text, ' ', 8);
    IndexOfFirst(text[9..], ' ', 3);
    assert text[9..][..3] == "204";
    ReadsAs204();
  }

  lemma ReadsAs204()
    ensures ParseUnsigned("204", 10, U16_MAX) == Some(204)
  {
    assert "204"[..2] == "20" && "20"[..1] == "2" && "2"[..0] == "";
    assert AllDigits("204", 10);
    assert DigitsValue("20", 10) == 20;
  }

  lemma LongHeadIsAscii(n: nat)
    ensures |LongHead(n)| == n + 13
    ensures forall c | c in LongHead(n) :: 32 <= c as int < 128
  {
  }

  /** A wire that holds just that head. */
  function LongWire(n: nat): seq<byte> {
    LongHeadIsAscii(n);
    Ascii(LongHead(n)) + HEAD_END
  }

  lemma LongWireFront(n: nat)
    ensures |LongWire(n)| == n + 17 && FrontHead(LongWire(n)) == Whole(Final(204, []), n + 17)
  {
    LongHeadParses(n);
    LongHeadIsAscii(n);
    hide LongHead, StatusOf, HeadersOf, Lines, Utf8, FindSubsequence, OccursAt;
    var text := LongHead(n);
    var head := Ascii(text);
    assert forall i :: 0 <= i < |head| ==> text[i] in text;
    NoBlankLine(head);
    assert LongWire(n)[..|head|] == head;
    Utf8OfAscii(text);
    hide Ascii;
    assert ParseHead(head) == Final(204, []);
  }

  /** From two bytes past the cap to one read past it, the same response is refused
      when it comes in single bytes and accepted when its last read is a full one. */
  lemma LongHeadDepends(n: nat, tail: Tail)
    requires MAX_HEADER_SIZE + 1 < n + 17 <= MAX_HEADER_SIZE + READ_SIZE
    ensures VerdictOf(LongWire(n), [], false, tail) == Err(HeadTooLarge)
    ensures exists cuts :: VerdictOf(LongWire(n), cuts, false, tail) == Ok(204, [], NoBody, [])
  {
    var wire := LongWire(n);
    LongWireFront(n);
    assert !OverCap(wire, READ_SIZE) && !WithinCap(wire);
    ToldIs(wire, false, tail);
    hide LongWire, ReadWith, OverCap, WithinCap, FrontHead, Told;
    assert [] + wire == wire;
    ByteByByte([], wire, false, tail);
    var cuts := HeadByHead([], wire, false, tail);
    assert VerdictOf(wire, cuts, false, tail) == Ok(204, [], NoBody, []);
  }
}
