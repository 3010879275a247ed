/** The gateway's microdescriptor store, and the trip of its contents through the
    archive to the client. */
module MicrodescStore {
  import opened Bytes
  import opened Shuffle
  import opened Microdescs

  type Digest = nat

  class MicrodescStore {
    var entries: map<Digest, string>

    constructor ()
      ensures entries == map[]
    {
      entries := map[];
    }

    /** The wanted digests that are not stored, in order. */
    method Missing(wanted: seq<Digest>) returns (missing: seq<Digest>)
      ensures missing == Absent(wanted, entries.Keys)
    {
      missing := [];
      for i := 0 to |wanted|
        invariant missing + Absent(wanted[i..], entries.Keys) == Absent(wanted, entries.Keys)
      {
        assert wanted[i..][1..] == wanted[i + 1..];
        if wanted[i] !in entries {
          ghost var rest := Absent(wanted[i + 1..], entries.Keys);
          assert missing + ([wanted[i]] + rest) == missing + [wanted[i]] + rest;
          missing := missing + [wanted[i]];
        }
      }
    }

    /** Keep the first text seen for a digest; count the new ones. */
    method Ingest(items: seq<(Digest, string)>) returns (added: nat)
      modifies this
      ensures forall d :: d in entries <==> d in old(entries) || exists i :: 0 <= i < |items| && items[i].0 == d
      ensures forall d :: d in old(entries) ==> entries[d] == old(entries)[d]
      ensures forall d :: d in entries && d !in old(entries) ==>
                exists i :: 0 <= i < |items| && items[i] == (d, entries[d]) && forall j :: 0 <= j < i ==> items[j].0 != d
      ensures added == |entries| - |old(entries)|
    {
      added := 0;
      for i := 0 to |items|
        invariant forall d :: d in entries <==> d in old(entries) || exists k :: 0 <= k < i && items[k].0 == d
        invariant forall d :: d in old(entries) ==> d in entries && entries[d] == old(entries)[d]
        invariant forall d :: d in entries && d !in old(entries) ==>
                    exists k :: 0 <= k < i && items[k] == (d, entries[d]) && forall j :: 0 <= j < k ==> items[j].0 != d
        invariant added == |entries| - |old(entries)|
      {
        var (digest, raw) := items[i];
        if digest !in entries {
          entries := entries[digest := raw];
          added := added + 1;
        }
      }
    }

    /** Nothing unwanted stays, no wanted text is lost or altered: the next fetch
        has exactly as much to do as before. */
    method Retain(wanted: seq<Digest>)
      modifies this
      ensures forall d :: d in entries ==> d in wanted && d in old(entries) && entries[d] == old(entries)[d]
      ensures Absent(wanted, entries.Keys) == Absent(wanted, old(entries).Keys)
      ensures |entries| + |Absent(Once(wanted), old(entries).Keys)| == |Once(wanted)|
    {
      KeptAreNotAbsent(wanted, wanted, entries.Keys);
      ghost var kept := set d | d in entries && d in wanted;
      OnceIsSet(wanted);
      AbsentCounts(Once(wanted), entries.Keys);
      assert kept == Found(Once(wanted), entries.Keys);
      entries := map d | d in entries && d in wanted :: entries[d];
      assert entries.Keys == kept;
    }

    /** All texts, in whatever order the map iterates. */
    method ToConcatenated(order: seq<Digest>) returns (out: string)
      requires Distinct(order) && forall d :: d in order <==> d in entries
      ensures out == Joined(Pieces(order, entries))
    {
      out := "";
      assert order[0..] == order;
      for i := 0 to |order|
        invariant out + Joined(Pieces(order[i..], entries)) == Joined(Pieces(order, entries))
      {
        JoinedStep(order, entries, i, out);
        out := out + entries[order[i]];
      }
    }
  }

  function Absent(wanted: seq<Digest>, present: set<Digest>): seq<Digest> {
    if wanted == [] then []
    else (if wanted[0] in present then [] else [wanted[0]]) + Absent(wanted[1..], present)
  }

  /** The items at these positions, in order. */
  ghost predicate Picks(list: seq<Digest>, at: seq<nat>, picked: seq<Digest>) {
    && |at| == |picked| && (forall i, j :: 0 <= i < j < |at| ==> at[i] < at[j])
    && forall i :: 0 <= i < |at| ==> at[i] < |list| && picked[i] == list[at[i]]
  }

  function Shifted(at: seq<nat>): seq<nat> { seq(|at|, i requires 0 <= i < |at| => at[i] + 1) }

  lemma ShiftedPicks(list: seq<Digest>, at: seq<nat>, picked: seq<Digest>)
    requires list != [] && Picks(list[1..], at, picked)
    ensures Picks(list, Shifted(at), picked) && Picks(list, [0] + Shifted(at), [list[0]] + picked)
  {
    forall i | 0 <= i < |at| ensures Shifted(at)[i] < |list| && picked[i] == list[Shifted(at)[i]] {
      assert list[1..][at[i]] == list[at[i] + 1];
    }
  }

  lemma ShiftedHas(at: seq<nat>, j: nat)
    ensures j in Shifted(at) <==> j > 0 && j - 1 in at
  {
    if j > 0 && j - 1 in at {
      var i :| 0 <= i < |at| && at[i] == j - 1;
      assert Shifted(at)[i] == j;
    }
  }

  /** What is missing is what is wanted at the positions of digests not present: in order,
      as often as it is wanted. */
  lemma {:induction false} AbsentPicks(wanted: seq<Digest>, present: set<Digest>) returns (at: seq<nat>)
    ensures Picks(wanted, at, Absent(wanted, present))
    ensures forall j :: 0 <= j < |wanted| ==> (j in at <==> wanted[j] !in present)
  {
    at := [];
    if wanted != [] {
      var tail := AbsentPicks(wanted[1..], present);
      hide Picks, Shifted;
      ShiftedPicks(wanted, tail, Absent(wanted[1..], present));
      AbsentStep(wanted, present);
      at := (if wanted[0] in present then [] else [0]) + Shifted(tail);
      hide Absent;
      assert wanted[0] in present ==> at == Shifted(tail);
      forall j | 0 <= j < |wanted| ensures j in at <==> wanted[j] !in present {
        ShiftedHas(tail, j);
        assert j > 0 ==> wanted[1..][j - 1] == wanted[j];
      }
    }
  }

  lemma AbsentStep(wanted: seq<Digest>, present: set<Digest>)
    requires wanted != []
    ensures Absent(wanted, present) ==
            if wanted[0] in present then Absent(wanted[1..], present) else [wanted[0]] + Absent(wanted[1..], present)
  {
  }

  /** Dropping digests that are not wanted changes nothing about what is missing. */
  lemma {:induction false} KeptAreNotAbsent(list: seq<Digest>, wanted: seq<Digest>, present: set<Digest>)
    requires forall d :: d in list ==> d in wanted
    ensures Absent(list, set d | d in present && d in wanted) == Absent(list, present)
  {
    if list != [] {
      assert list[0] in list;
      KeptAreNotAbsent(list[1..], wanted, present);
    }
  }

  /** The digests of a list, each once. */
  function Once(list: seq<Digest>): seq<Digest> {
    if list == [] then [] else (if list[0] in list[1..] then [] else [list[0]]) + Once(list[1..])
  }

  lemma {:induction false} OnceIsSet(list: seq<Digest>)
    ensures Distinct(Once(list)) && forall d :: d in Once(list) <==> d in list
  {
    if list != [] {
      OnceIsSet(list[1..]);
      assert list == [list[0]] + list[1..];
    }
  }

  /** The digests of a list that are present. */
  ghost function Found(list: seq<Digest>, present: set<Digest>): set<Digest> { set d | d in list && d in present }

  lemma FoundFirst(list: seq<Digest>, present: set<Digest>)
    requires list != [] && list[0] !in list[1..]
    ensures |Found(list, present)| == |Found(list[1..], present)| + (if list[0] in present then 1 else 0)
  {
    var others := Found(list[1..], present);
    assert forall d :: d in list <==> d == list[0] || d in list[1..];
    if list[0] in present {
      assert Found(list, present) == others + {list[0]} && list[0] !in others;
    } else {
      assert Found(list, present) == others;
    }
  }

  lemma {:induction false} AbsentCounts(list: seq<Digest>, present: set<Digest>)
    requires Distinct(list)
    ensures |Found(list, present)| + |Absent(list, present)| == |list|
  {
    if list == [] {
      assert Found(list, present) == {};
    } else {
      hide Found;
      AbsentCounts(list[1..], present);
      FoundFirst(list, present);
    }
  }

  function Pieces(order: seq<Digest>, entries: map<Digest, string>): seq<Piece> {
    if order == [] then []
    else [Piece(if order[0] in entries then entries[order[0]] else "", "")] + Pieces(order[1..], entries)
  }

  lemma JoinedStep(order: seq<Digest>, entries: map<Digest, string>, i: nat, out: string)
    requires i < |order| && order[i] in entries
    ensures out + Joined(Pieces(order[i..], entries)) == out + entries[order[i]] + Joined(Pieces(order[i + 1..], entries))
  {
    assert order[i..][1..] == order[i + 1..];
    var text, rest := entries[order[i]], Joined(Pieces(order[i + 1..], entries));
    assert Joined(Pieces(order[i..], entries)) == text + "" + rest;
    assert out + (text + "" + rest) == out + text + rest;
  }

  function Texts(order: seq<Digest>, entries: map<Digest, string>): seq<string> {
    if order == [] then []
    else [if order[0] in entries then entries[order[0]] else ""] + Texts(order[1..], entries)
  }

  lemma {:induction false} PiecesAreDocuments(order: seq<Digest>, entries: map<Digest, string>)
    requires forall d :: d in order ==> d in entries && IsDocument(entries[d], MARKER)
    ensures AllDocuments(Pieces(order, entries), MARKER)
    ensures Documents(Pieces(order, entries)) == Texts(order, entries)
  {
    if order != [] {
      assert order[0] in order;
      PiecesAreDocuments(order[1..], entries);
    }
  }

  /** Whatever order the store is written in, the client's splitter recovers
      exactly its texts, one slice per entry. */
  lemma StoreRoundTrip(order: seq<Digest>, entries: map<Digest, string>)
    requires Distinct(order) && forall d :: d in order <==> d in entries
    requires forall d :: d in entries ==> IsDocument(entries[d], MARKER)
    ensures Split(Joined(Pieces(order, entries)), MARKER) == Some(Texts(order, entries))
    ensures |Texts(order, entries)| == |entries|
    ensures forall d :: d in entries ==> entries[d] in Texts(order, entries)
  {
    OnionKeyIsMarker();
    PiecesAreDocuments(order, entries);
    SplitUndoesJoin(Pieces(order, entries), MARKER);
    TextsOf(order, entries);
    DistinctKeys(order, entries.Keys);
  }

  lemma {:induction false} TextsOf(order: seq<Digest>, entries: map<Digest, string>)
    requires forall d :: d in order ==> d in entries
    ensures |Texts(order, entries)| == |order|
    ensures forall i :: 0 <= i < |order| ==> Texts(order, entries)[i] == entries[order[i]]
  {
    if order != [] {
      assert order[0] in order;
      TextsOf(order[1..], entries);
    }
  }

  lemma {:induction false} DistinctKeys(order: seq<Digest>, keys: set<Digest>)
    requires Distinct(order) && forall d :: d in order <==> d in keys
    ensures |order| == |keys|
  {
    if order == [] {
      assert keys == {};
    } else {
      var last, init := order[|order| - 1], order[..|order| - 1];
      assert order == init + [last] && last !in init;
      DistinctKeys(init, keys - {last});
    }
  }
}
