/** Which texts make the splitter slice inside a character. */
module MicrodescPanics {
  import opened Bytes
  import opened Text
  import opened Microdescs

  // ---- Trimming ----

  predicate AllSpace(s: string) { forall i :: 0 <= i < |s| ==> IsSpace(s[i]) }

  /** Trimming keeps the front up to the last character that is not white space. */
  lemma {:induction false} TrimEndIs(s: string, n: nat)
    requires n <= |s|
    ensures |TrimEnd(s)| == n <==> AllSpace(s[n..]) && (n > 0 ==> !IsSpace(s[n - 1]))
  {
    if s != "" && IsSpace(s[|s| - 1]) {
      var t := s[..|s| - 1];
      if n < |s| {
        TrimEndIs(t, n);
        assert forall i :: 0 <= i < |t| - n ==> s[n..][i] == t[n..][i];
        assert s[n..][|t| - n] == s[|s| - 1];
      } else {
        TrimmedIsShorter(t);
      }
    } else if n < |s| {
      assert s[n..][|s| - 1 - n] == s[|s| - 1];
    }
  }

  lemma TrimmedIsShorter(s: string)
    ensures |TrimEnd(s)| <= |s|
  {
  }

  // ---- Where the markers are ----

  lemma MarkerChars(text: string, p: nat)
    requires OccursAt(text, MARKER, p)
    ensures text[p] == 'o' && text[p + 1] == 'n' && text[p + 2] == 'i' && text[p + 3] == 'o' && text[p + 4] == 'n'
    ensures text[p + 5] == '-' && text[p + 6] == 'k' && text[p + 7] == 'e' && text[p + 8] == 'y' && text[p + 9] == '\n'
  {
    var w := text[p..p + |MARKER|];
    assert w[0] == text[p] && w[1] == text[p + 1] && w[2] == text[p + 2] && w[3] == text[p + 3] && w[4] == text[p + 4];
    assert w[5] == text[p + 5] && w[6] == text[p + 6] && w[7] == text[p + 7] && w[8] == text[p + 8] && w[9] == text[p + 9];
  }

  /** Two markers do not overlap. */
  lemma MarkersAreApart(text: string, p: nat, q: nat)
    requires OccursAt(text, MARKER, p) && OccursAt(text, MARKER, q) && p < q
    ensures p + |MARKER| <= q
  {
    MarkerChars(text, p);
    MarkerChars(text, q);
  }

  /** A slice goes from a marker to the next one, or to the end. */
  ghost predicate IsSlice(text: string, start: nat, next: nat) {
    && start < next <= |text| && OccursAt(text, MARKER, start)
    && (next == |text| || OccursAt(text, MARKER, next))
    && forall q :: start < q < next ==> !OccursAt(text, MARKER, q)
  }

  lemma FirstSlice(text: string, p: nat)
    requires OccursAt(text, MARKER, p)
    ensures IsSlice(text, p, NextStart(text, [p] + Positions(text, MARKER, p + |MARKER|), 0))
  {
    FindFromIsFirst(text, MARKER, p + |MARKER|);
    forall q | OccursAt(text, MARKER, q) && p < q ensures q >= p + |MARKER| {
      MarkersAreApart(text, p, q);
    }
  }

  lemma {:induction false} SliceAt(text: string, from: nat, i: nat)
    requires i < |Positions(text, MARKER, from)|
    ensures var ps := Positions(text, MARKER, from);
            IsSlice(text, ps[i], NextStart(text, ps, i))
    decreases i
  {
    hide IsSlice;
    FindFromIsFirst(text, MARKER, from);
    PositionsUnfold(text, MARKER, from);
    hide Positions, FindFrom;
    var p := FindFrom(text, MARKER, from).value;
    if i == 0 {
      FirstSlice(text, p);
    } else {
      SliceAt(text, p + |MARKER|, i - 1);
    }
  }

  /** Every marker is found. */
  lemma {:induction false} FoundAt(text: string, from: nat, p: nat) returns (i: nat)
    requires from <= p && OccursAt(text, MARKER, p)
    ensures i < |Positions(text, MARKER, from)| && Positions(text, MARKER, from)[i] == p
    decreases |text| - from
  {
    FindFromIsFirst(text, MARKER, from);
    PositionsUnfold(text, MARKER, from);
    var first := FindFrom(text, MARKER, from).value;
    hide Positions, FindFrom;
    i := 0;
    if p != first {
      MarkersAreApart(text, first, p);
      i := FoundAt(text, first + |MARKER|, p);
      i := i + 1;
    }
  }

  // ---- The texts that panic ----

  predicate SliceFails(text: string, positions: seq<nat>, j: nat)
    requires InOrder(text, positions) && j < |positions|
  {
    Panics(text, positions[j], NextStart(text, positions, j))
  }

  lemma {:induction false} SlicesFailIff(text: string, positions: seq<nat>, i: nat)
    requires InOrder(text, positions)
    ensures Slices(text, positions, i).None? <==>
            exists j :: i <= j < |positions| && SliceFails(text, positions, j)
    decreases |positions| - i
  {
    hide InOrder, Panics, SliceEnd;
    if i < |positions| {
      SlicesFailIff(text, positions, i + 1);
      SlicesStep(text, positions, i);
      hide Slices, SliceFails;
    }
  }

  lemma SlicesStep(text: string, positions: seq<nat>, i: nat)
    requires InOrder(text, positions) && i < |positions|
    ensures Slices(text, positions, i).None? <==> SliceFails(text, positions, i) || Slices(text, positions, i + 1).None?
  {
  }

  /** Behind a marker, white space that begins with a character of several bytes runs
      up to the next marker or the end of the text. */
  ghost predicate CutsCharacter(text: string, p: nat, k: nat, e: nat) {
    && p < k < e <= |text| && OccursAt(text, MARKER, p)
    && text[k] as int >= 0x80 && !IsSpace(text[k - 1]) && AllSpace(text[k..e])
    && (e == |text| || OccursAt(text, MARKER, e))
  }

  lemma PanicCuts(text: string, start: nat, next: nat)
    requires IsSlice(text, start, next) && Panics(text, start, next)
    ensures exists k :: CutsCharacter(text, start, k, next)
  {
    SliceStart(text, start, next);
    var s := text[start..next];
    TrimmedIsShorter(s);
    var n := |TrimEnd(s)|;
    TrimEndIs(s, n);
    MarkerChars(text, start);
    assert s[n..] == text[start + n..next];
    assert n < |s| ==> s[n..][0] == text[start + n];
    if next < |text| { MarkerChars(text, next); }
    assert CutsCharacter(text, start, start + n, next);
  }

  lemma CutPanics(text: string, start: nat, k: nat, next: nat)
    requires start < k && CutsCharacter(text, start, k, next)
    ensures Panics(text, start, next)
  {
    var s, n := text[start..next], k - start;
    assert s[n..] == text[k..next] && s[n - 1] == text[k - 1];
    TrimEndIs(s, n);
  }

  /** The position of the slice that holds offset k. */
  lemma {:induction false} SliceOf(positions: seq<nat>, j: nat, k: nat) returns (i: nat)
    requires j < |positions| && positions[j] < k
    ensures i < |positions| && positions[i] < k && (i + 1 < |positions| ==> positions[i + 1] >= k)
    decreases |positions| - j
  {
    if j + 1 < |positions| && positions[j + 1] < k {
      i := SliceOf(positions, j + 1, k);
    } else {
      i := j;
    }
  }

  /** White space cut like that fills the end of one slice. */
  lemma CutEndsSlice(text: string, start: nat, next: nat, p: nat, k: nat, e: nat)
    requires IsSlice(text, start, next) && start < k <= next && CutsCharacter(text, p, k, e)
    ensures next == e
  {
    forall i | k <= i < e ensures IsSpace(text[i]) { assert text[k..e][i - k] == text[i]; }
    if next < e { MarkerChars(text, next); }
  }

  /** For every text: the splitter panics if and only if, behind some marker, the white
      space in front of the next marker or the end begins with a character of several bytes. */
  lemma PanicsIff(text: string)
    ensures Split(text, MARKER).None? <==> exists p, k, e :: CutsCharacter(text, p, k, e)
  {
    hide Positions, Slices, Panics, CutsCharacter, FindFrom, IsSlice;
    var ps := Positions(text, MARKER, 0);
    PositionsInOrder(text, MARKER, 0);
    SlicesFailIff(text, ps, 0);
    if i :| 0 <= i < |ps| && SliceFails(text, ps, i) {
      SliceAt(text, 0, i);
      PanicCuts(text, ps[i], NextStart(text, ps, i));
    }
    if p, k, e :| CutsCharacter(text, p, k, e) {
      var i := CutIsInSlice(text, p, k, e);
    }
  }

  lemma CutIsInSlice(text: string, p: nat, k: nat, e: nat) returns (i: nat)
    requires CutsCharacter(text, p, k, e) && InOrder(text, Positions(text, MARKER, 0))
    ensures i < |Positions(text, MARKER, 0)| && SliceFails(text, Positions(text, MARKER, 0), i)
  {
    hide Positions, Panics, FindFrom, IsSlice;
    var ps := Positions(text, MARKER, 0);
    var j := FoundAt(text, 0, p);
    i := SliceOf(ps, j, k);
    var next := NextStart(text, ps, i);
    SliceAt(text, 0, i);
    CutEndsSlice(text, ps[i], next, p, k, e);
    assert CutsCharacter(text, ps[i], k, e) by { SliceStart(text, ps[i], next); }
    CutPanics(text, ps[i], k, e);
  }

  lemma SliceStart(text: string, start: nat, next: nat)
    requires IsSlice(text, start, next)
    ensures OccursAt(text, MARKER, start) && (next == |text| || OccursAt(text, MARKER, next))
  {
  }

  /** A document followed by a no-break space. */
  lemma NoBreakSpacePanics()
    ensures Split(MARKER + ['x', 0xA0 as char], MARKER).None?
  {
    var text := MARKER + ['x', 0xA0 as char];
    assert text[..|MARKER|] == MARKER;
    assert text[11..12] == [0xA0 as char];
    assert CutsCharacter(text, 0, 11, 12);
    PanicsIff(text);
  }
}
