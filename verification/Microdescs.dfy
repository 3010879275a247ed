/** Microdescriptors: concatenated by the gateway, split and escaped by the client. */
module Microdescs {
  import opened Bytes
  import opened Text

  const MARKER: string := "onion-key\n"

  // ---- Splitting ----

  /** The offsets of the marker, each search starting behind the previous one. */
  function Positions(text: string, marker: string, from: nat): seq<nat>
    requires marker != ""
    decreases |text| - from
  {
    match FindFrom(text, marker, from)
    case None => []
    case Some(p) => [p] + Positions(text, marker, p + |marker|)
  }

  /** The text between a marker and the next one (or the end), trimmed at the end
      but for one character. */
  function SliceEnd(text: string, start: nat, next: nat): (end: nat)
    requires start <= next <= |text|
    ensures start <= end <= |text|
  {
    var end := start + |TrimEnd(text[start..next])| + 1;
    if end < |text| then end else |text|
  }

  /** Slicing behind a trimmed-off character that takes more than one byte in
      UTF-8 would cut it in two, which panics. */
  predicate Panics(text: string, start: nat, next: nat)
    requires start <= next <= |text|
  {
    var last := start + |TrimEnd(text[start..next])|;
    last < |text| && text[last] as int >= 0x80
  }

  function NextStart(text: string, positions: seq<nat>, i: nat): nat {
    if i + 1 < |positions| then positions[i + 1] else |text|
  }

  predicate InOrder(text: string, positions: seq<nat>) {
    forall i :: 0 <= i < |positions| ==> positions[i] <= NextStart(text, positions, i) <= |text|
  }

  function Slices(text: string, positions: seq<nat>, i: nat): Option<seq<string>>
    requires InOrder(text, positions)
    decreases |positions| - i
  {
    if i >= |positions| then Some([])
    else
      var start, next := positions[i], NextStart(text, positions, i);
      if Panics(text, start, next) then None
      else match Slices(text, positions, i + 1)
        case None => Option.None
        case Some(rest) => Some([text[start..SliceEnd(text, start, next)]] + rest)
  }

  lemma {:induction false} PositionsInOrder(text: string, marker: string, from: nat)
    requires marker != ""
    ensures InOrder(text, Positions(text, marker, from))
    ensures forall i :: 0 <= i < |Positions(text, marker, from)| ==> from <= Positions(text, marker, from)[i]
    decreases |text| - from
  {
    var found := FindFrom(text, marker, from);
    if found.Some? {
      PositionsInOrder(text, marker, found.value + |marker|);
    }
  }

  function Split(text: string, marker: string): Option<seq<string>>
    requires marker != ""
  {
    PositionsInOrder(text, marker, 0);
    Slices(text, Positions(text, marker, 0), 0)
  }

  /** The two loops of store_microdescs. */
  method SplitMicrodescs(text: string) returns (r: Option<seq<string>>)
    ensures r == Split(text, MARKER)
  {
    PositionsInOrder(text, MARKER, 0);
    var positions := FindMarkers(text, MARKER);
    r := CutSlices(text, positions);
  }

  method FindMarkers(text: string, marker: string) returns (positions: seq<nat>)
    requires marker != ""
    ensures positions == Positions(text, marker, 0)
  {
    hide FindFrom, Positions;
    ghost var all, rest := Positions(text, marker, 0), Positions(text, marker, 0);
    var from := 0;
    positions := [];
    var found := FindFrom(text, marker, from);
    while found.Some?
      invariant found == FindFrom(text, marker, from)
      invariant rest == Positions(text, marker, from) && positions + rest == all
      decreases |text| - from
    {
      PositionsUnfold(text, marker, from);
      from := found.value + |marker|;
      rest := Positions(text, marker, from);
      ConcatAssoc(positions, [found.value], rest);
      positions := positions + [found.value];
      found := FindFrom(text, marker, from);
    }
    PositionsUnfold(text, marker, from);
  }

  lemma PositionsUnfold(text: string, marker: string, from: nat)
    requires marker != ""
    ensures var found := FindFrom(text, marker, from);
            Positions(text, marker, from) ==
            if found.None? then [] else [found.value] + Positions(text, marker, found.value + |marker|)
  {
  }

  method CutSlices(text: string, positions: seq<nat>) returns (r: Option<seq<string>>)
    requires InOrder(text, positions)
    ensures r == Slices(text, positions, 0)
  {
    ghost var whole := Slices(text, positions, 0);
    var slices: seq<string>, i: nat := [], 0;
    assert whole.Some? ==> slices + whole.value == whole.value;
    while i < |positions|
      invariant i <= |positions|
      invariant whole == match Slices(text, positions, i) case None => None case Some(rest) => Some(slices + rest)
    {
      var start, next := positions[i], NextStart(text, positions, i);
      if Panics(text, start, next) {
        return None;
      }
      var slice := text[start..SliceEnd(text, start, next)];
      ghost var rest := Slices(text, positions, i + 1);
      assert rest.Some? ==> slices + ([slice] + rest.value) == slices + [slice] + rest.value;
      slices := slices + [slice];
      i := i + 1;
    }
    assert slices + [] == slices;
    return Some(slices);
  }

  // ---- What the gateway concatenates ----

  /** A marker is a line: it starts with something other than white space and
      its only newline ends it. */
  predicate IsMarker(marker: string) {
    && |marker| >= 2 && !IsSpace(marker[0]) && marker[|marker| - 1] == '\n'
    && forall i :: 0 <= i < |marker| - 1 ==> marker[i] != '\n'
  }

  /** A microdescriptor: the marker opens it and does not occur again, and it
      ends in one newline behind something that is not white space. */
  ghost predicate IsDocument(d: string, marker: string) {
    && |d| > |marker| && marker != "" && d[..|marker|] == marker
    && (forall i :: 1 <= i ==> !OccursAt(d, marker, i))
    && d[|d| - 1] == '\n' && !IsSpace(d[|d| - 2])
  }

  predicate AllSpace(s: string) { forall i :: 0 <= i < |s| ==> IsSpace(s[i]) }

  /** A document and the white space between it and the next. */
  datatype Piece = Piece(document: string, gap: string)

  ghost predicate AllDocuments(pieces: seq<Piece>, marker: string) {
    forall i :: 0 <= i < |pieces| ==> IsDocument(pieces[i].document, marker) && AllSpace(pieces[i].gap)
  }

  function Joined(pieces: seq<Piece>): string {
    if pieces == [] then "" else pieces[0].document + pieces[0].gap + Joined(pieces[1..])
  }

  function Documents(pieces: seq<Piece>): seq<string> {
    if pieces == [] then [] else [pieces[0].document] + Documents(pieces[1..])
  }

  function Starts(pieces: seq<Piece>, base: nat): seq<nat> {
    if pieces == [] then []
    else [base] + Starts(pieces[1..], base + |pieces[0].document| + |pieces[0].gap|)
  }

  lemma Suffix(text: string, base: nat, front: string, rest: string)
    requires base <= |text| && text[base..] == front + rest
    ensures base + |front| <= |text| && text[base..base + |front|] == front && text[base + |front|..] == rest
  {
    assert text[base..base + |front|] == text[base..][..|front|];
    assert text[base + |front|..] == text[base..][|front|..];
  }

  /** Behind its opening, neither a document nor the gap after it holds a marker,
      nor does one straddle their ends. */
  lemma NoMarkerInside(text: string, marker: string, base: nat, p: Piece, after: string, i: nat)
    requires IsMarker(marker) && IsDocument(p.document, marker) && AllSpace(p.gap)
    requires base <= |text| && text[base..] == p.document + p.gap + after
    requires base < i < base + |p.document| + |p.gap|
    ensures !OccursAt(text, marker, i)
  {
    var d, j := p.document, i - base;
    assert |text[base..]| == |text| - base && text[base..] == d + (p.gap + after);
    if j + |marker| <= |d| {
      SameWindow(text, base, d, p.gap + after, j, |marker|);
      assert !OccursAt(d, marker, j);
    } else if j < |d| {
      assert text[base + |d| - 1] == text[base..][|d| - 1] == '\n';
      OccurrenceAgrees(text, marker, i, |d| - 1 - j);
    } else {
      assert text[i] == text[base..][j] == p.gap[j - |d|];
      OccurrenceAgrees(text, marker, i, 0);
    }
  }

  lemma SameWindow(text: string, base: nat, d: string, rest: string, j: nat, n: nat)
    requires base <= |text| && text[base..] == d + rest && j + n <= |d|
    ensures base + j + n <= |text| && text[base + j..base + j + n] == d[j..j + n]
  {
    var window := text[base + j..base + j + n];
    assert |text[base..]| == |text| - base;
    assert forall k :: 0 <= k < n ==> window[k] == text[base..][j + k] == (d + rest)[j + k];
  }

  lemma OccurrenceAgrees(text: string, marker: string, i: nat, k: nat)
    requires k < |marker|
    ensures OccursAt(text, marker, i) ==> i + k < |text| && text[i + k] == marker[k]
  {
    if OccursAt(text, marker, i) {
      assert text[i + k] == text[i..i + |marker|][k];
    }
  }

  /** A search that starts inside a document or its gap finds what lies behind them. */
  lemma {:induction false} SearchSkips(text: string, marker: string, base: nat, p: Piece, after: string, from: nat)
    requires IsMarker(marker) && IsDocument(p.document, marker) && AllSpace(p.gap)
    requires base <= |text| && text[base..] == p.document + p.gap + after
    requires base < from <= base + |p.document| + |p.gap|
    ensures FindFrom(text, marker, from) == FindFrom(text, marker, base + |p.document| + |p.gap|)
    decreases base + |p.document| + |p.gap| - from
  {
    if from < base + |p.document| + |p.gap| {
      NoMarkerInside(text, marker, base, p, after, from);
      NotHere(text, marker, from);
      SearchSkips(text, marker, base, p, after, from + 1);
    }
  }

  lemma NotHere(text: string, marker: string, from: nat)
    requires marker != "" && !OccursAt(text, marker, from)
    ensures FindFrom(text, marker, from) == FindFrom(text, marker, from + 1)
  {
  }

  lemma BehindPiece(text: string, base: nat, p: Piece, after: string)
    requires base <= |text| && text[base..] == p.document + p.gap + after
    ensures var next := base + |p.document| + |p.gap|;
            next <= |text| && text[next..] == after
  {
    Suffix(text, base, p.document + p.gap, after);
  }

  /** The first marker from a document's start is that start, and the next one
      lies behind the document and its gap. */
  lemma FirstPosition(text: string, marker: string, base: nat, p: Piece, after: string)
    requires IsMarker(marker) && IsDocument(p.document, marker) && AllSpace(p.gap)
    requires base <= |text| && text[base..] == p.document + p.gap + after
    ensures Positions(text, marker, base) == [base] + Positions(text, marker, base + |p.document| + |p.gap|)
  {
    hide FindFrom, Positions, OccursAt;
    OpensWithMarker(text, marker, base, p, after);
    SearchSkips(text, marker, base, p, after, base + |marker|);
    PositionsStep(text, marker, base, base + |p.document| + |p.gap|);
  }

  lemma PositionsStep(text: string, marker: string, base: nat, next: nat)
    requires marker != "" && OccursAt(text, marker, base)
    requires FindFrom(text, marker, base + |marker|) == FindFrom(text, marker, next)
    ensures Positions(text, marker, base) == [base] + Positions(text, marker, next)
  {
    FindHere(text, marker, base);
    PositionsUnfold(text, marker, base);
    PositionsFrom(text, marker, base + |marker|, next);
  }

  lemma FindHere(text: string, marker: string, at: nat)
    requires marker != "" && OccursAt(text, marker, at)
    ensures FindFrom(text, marker, at) == Some(at)
  {
  }

  lemma PositionsFrom(text: string, marker: string, from: nat, to: nat)
    requires marker != "" && FindFrom(text, marker, from) == FindFrom(text, marker, to)
    ensures Positions(text, marker, from) == Positions(text, marker, to)
  {
    PositionsUnfold(text, marker, from);
    PositionsUnfold(text, marker, to);
  }

  lemma OpensWithMarker(text: string, marker: string, base: nat, p: Piece, after: string)
    requires IsDocument(p.document, marker)
    requires base <= |text| && text[base..] == p.document + p.gap + after
    ensures OccursAt(text, marker, base)
  {
    assert p.document + p.gap + after == p.document + (p.gap + after);
    Suffix(text, base, p.document, p.gap + after);
    assert text[base..base + |marker|] == text[base..base + |p.document|][..|marker|];
  }

  /** The markers found are the starts of the documents. */
  lemma NoneAtTheEnd(text: string, marker: string, base: nat)
    requires IsMarker(marker) && base <= |text| && text[base..] == ""
    ensures Positions(text, marker, base) == []
  {
  }

  lemma {:induction false} PositionsAreStarts(text: string, marker: string, base: nat, pieces: seq<Piece>)
    requires IsMarker(marker) && AllDocuments(pieces, marker) && base <= |text| && text[base..] == Joined(pieces)
    ensures Positions(text, marker, base) == Starts(pieces, base)
    decreases |pieces|
  {
    hide FindFrom, OccursAt, Positions, IsMarker, IsDocument, AllSpace;
    if pieces == [] {
      NoneAtTheEnd(text, marker, base);
    } else {
      FirstPosition(text, marker, base, pieces[0], Joined(pieces[1..]));
      BehindPiece(text, base, pieces[0], Joined(pieces[1..]));
      var next := base + |pieces[0].document| + |pieces[0].gap|;
      PositionsAreStarts(text, marker, next, pieces[1..]);
      assert Starts(pieces, base) == [base] + Starts(pieces[1..], next);
    }
  }

  /** Trimming a document and its gap leaves the document without its newline. */
  lemma {:induction false} TrimmedPiece(d: string, gap: string)
    requires |d| >= 2 && d[|d| - 1] == '\n' && !IsSpace(d[|d| - 2]) && AllSpace(gap)
    ensures TrimEnd(d + gap) == d[..|d| - 1]
    decreases |gap|
  {
    if gap == "" {
      assert d + gap == d;
      assert IsSpace(d[|d| - 1]);
    } else {
      var s := d + gap;
      assert s[|s| - 1] == gap[|gap| - 1];
      assert s[..|s| - 1] == d + gap[..|gap| - 1];
      TrimmedPiece(d, gap[..|gap| - 1]);
    }
  }

  lemma StartsShift(pieces: seq<Piece>, base: nat)
    ensures |Starts(pieces, base)| == |pieces|
    ensures pieces != [] ==> Starts(pieces, base)[0] == base
  {
    if pieces != [] {
      StartsShift(pieces[1..], base + |pieces[0].document| + |pieces[0].gap|);
    }
  }

  /** One slice is one document. */
  lemma SliceIsDocument(text: string, marker: string, base: nat, p: Piece, after: string)
    requires IsDocument(p.document, marker) && AllSpace(p.gap)
    requires base <= |text| && text[base..] == p.document + p.gap + after
    ensures var next := base + |p.document| + |p.gap|;
            next <= |text| && text[next..] == after && !Panics(text, base, next)
            && text[base..SliceEnd(text, base, next)] == p.document
  {
    var d := p.document;
    Suffix(text, base, d + p.gap, after);
    assert d + p.gap + after == d + (p.gap + after);
    Suffix(text, base, d, p.gap + after);
    TrimmedPiece(d, p.gap);
    assert text[base + |d| - 1] == text[base..base + |d|][|d| - 1];
  }

  /** From the i-th start on, the slices are the documents. */
  lemma {:induction false} SlicesAreDocuments(text: string, marker: string, positions: seq<nat>, i: nat, base: nat, pieces: seq<Piece>)
    requires AllDocuments(pieces, marker) && base <= |text| && text[base..] == Joined(pieces)
    requires InOrder(text, positions) && i <= |positions| && positions[i..] == Starts(pieces, base)
    ensures Slices(text, positions, i) == Some(Documents(pieces))
    decreases |pieces|
  {
    StartsShift(pieces, base);
    if pieces != [] {
      var p, rest := pieces[0], pieces[1..];
      var next := base + |p.document| + |p.gap|;
      SliceIsDocument(text, marker, base, p, Joined(rest));
      StartsHere(positions, i, base, pieces);
      assert NextStart(text, positions, i) == next;
      SlicesAreDocuments(text, marker, positions, i + 1, next, rest);
      assert Documents(pieces) == [p.document] + Documents(rest);
    }
  }

  lemma StartsHere(positions: seq<nat>, i: nat, base: nat, pieces: seq<Piece>)
    requires pieces != [] && i <= |positions| && positions[i..] == Starts(pieces, base)
    ensures var next := base + |pieces[0].document| + |pieces[0].gap|;
            && i < |positions| && positions[i] == base
            && positions[i + 1..] == Starts(pieces[1..], next)
            && (pieces[1..] == [] ==> i + 1 == |positions|)
            && (pieces[1..] != [] ==> i + 1 < |positions| && positions[i + 1] == next)
  {
    var next := base + |pieces[0].document| + |pieces[0].gap|;
    StartsShift(pieces, base);
    StartsShift(pieces[1..], next);
    assert positions[i] == positions[i..][0];
    assert positions[i + 1..] == positions[i..][1..];
    assert i + 1 < |positions| ==> positions[i + 1] == positions[i + 1..][0];
  }

  /** Splitting undoes concatenation: any documents, with any white space between
      them, come back exactly, in order. */
  lemma SplitUndoesJoin(pieces: seq<Piece>, marker: string)
    requires IsMarker(marker) && AllDocuments(pieces, marker)
    ensures Split(Joined(pieces), marker) == Some(Documents(pieces))
  {
    var text := Joined(pieces);
    assert text[0..] == text;
    PositionsAreStarts(text, marker, 0, pieces);
    PositionsInOrder(text, marker, 0);
    var positions := Positions(text, marker, 0);
    assert positions[0..] == positions;
    SlicesAreDocuments(text, marker, positions, 0, 0, pieces);
  }

  lemma OnionKeyIsMarker()
    ensures IsMarker(MARKER)
  {
  }
}
