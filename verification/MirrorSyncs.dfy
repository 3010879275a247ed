/** What a sync of the step machine leaves, with its downloads in any order and
    interleaved with requests and crashes, against the reconcile of one process. */
module MirrorSyncs {
  import opened Bytes
  import opened MirrorPaths
  import opened MirrorRuns
  import opened MirrorSchedules
  import opened Mirror

  ghost function Renames(events: seq<Event>): set<Hash> { set e | e in events && e.Rename? :: e.h }

  ghost function Drops(events: seq<Event>): set<Hash> { set e | e in events && e.DropStale? :: e.h }

  ghost function ClearedPlaces(events: seq<Event>): set<Place> { set e | e in events && e.DropJunk? :: e.p }

  /** The hash's own place was cleared as a stray. */
  ghost predicate WasCleared(events: seq<Event>, h: Hash) { IsHash(h) && ObjectPlace(h) in ClearedPlaces(events) }

  /** The sync works on what its scan found: it downloads only missing objects, drops
      only stale ones, and clears no place that held an object. */
  ghost predicate InScope(s: State, wanted: set<Hash>, had: set<Hash>) {
    s.sync.Idle? ||
    (&& s.sync.stale <= had - wanted
     && (forall h :: h in had && IsHash(h) ==> ObjectPlace(h) !in s.sync.junk)
     && (s.sync.Fetching? ==> s.sync.missing + s.sync.inHand.Keys + s.sync.written <= wanted - had))
  }

  lemma BeginIsInScope(keccak: Keccak, s: State, wanted: set<Hash>)
    requires Enabled(keccak, s, Begin(wanted))
    ensures InScope(Step(keccak, s, Begin(wanted)), wanted, Objects(s.dir))
  {
    forall h | h in Objects(s.dir) && IsHash(h) ensures ObjectPlace(h) !in Junk(s.dir) { ObjectsAre(s.dir, h); }
  }

  lemma StepInScope(keccak: Keccak, s: State, e: Event, wanted: set<Hash>, had: set<Hash>)
    requires Enabled(keccak, s, e) && !e.Begin? && InScope(s, wanted, had)
    ensures InScope(Step(keccak, s, e), wanted, had)
    ensures e.Rename? ==> s.sync.Fetching? && e.h in wanted - had
    ensures e.DropStale? ==> s.sync.Pruning? && e.h in had - wanted
    ensures e.DropJunk? ==> s.sync.Pruning? && forall h :: h in had && IsHash(h) ==> ObjectPlace(h) != e.p
  {
    hide Objects, Junk, IsHash;
  }

  /** What one step does to one object. */
  lemma StepEffect(keccak: Keccak, s: State, e: Event, h: Hash)
    requires HandsHonest(keccak, s.dir, s.sync) && Enabled(keccak, s, e) && !e.Begin?
    ensures h in Objects(Step(keccak, s, e).dir) <==>
            (h in Objects(s.dir) || e == Rename(h)) && e != DropStale(h) && !(IsHash(h) && e == DropJunk(ObjectPlace(h)))
  {
    var r := Step(keccak, s, e);
    ObjectsAre(s.dir, h);
    ObjectsAre(r.dir, h);
    match e
    case WriteSome(g, n) => WriteTmp(s.dir, g, s.sync.inHand[g][..n]);
    case WriteAll(g) => WriteTmp(s.dir, g, s.sync.inHand[g]);
    case Rename(g) => RenameAdds(s.dir, g);
    case DropStale(g) => if IsHash(h) { PlacesAreApart(g, h); }
    case _ =>
  }

  lemma FirstEffects(e: Event, rest: seq<Event>)
    ensures Renames([e] + rest) == (if e.Rename? then {e.h} else {}) + Renames(rest)
    ensures Drops([e] + rest) == (if e.DropStale? then {e.h} else {}) + Drops(rest)
    ensures ClearedPlaces([e] + rest) == (if e.DropJunk? then {e.p} else {}) + ClearedPlaces(rest)
  {
    assert forall x :: x in [e] + rest <==> x == e || x in rest;
  }

  /** What the events of a sync do to one object. */
  lemma {:induction false} Effects(keccak: Keccak, s: State, events: seq<Event>, wanted: set<Hash>, had: set<Hash>, h: Hash)
    requires HandsHonest(keccak, s.dir, s.sync) && InScope(s, wanted, had) && IsRun(keccak, s, events) && OneSync(events)
    ensures h in Objects(Run(keccak, s, events).dir) <==>
            (h in Objects(s.dir) || h in Renames(events)) && h !in Drops(events) && !WasCleared(events, h)
    ensures h in Renames(events) ==> s.sync.Fetching? && h in wanted - had
    ensures h in Drops(events) ==> h in had - wanted
    ensures h in had ==> !WasCleared(events, h)
    decreases |events|
  {
    hide Objects, HandsHonest, InScope, Renames, Drops, ClearedPlaces, Step, Enabled;
    if events == [] {
      NoEffects();
    } else {
      var e, rest := events[0], events[1..];
      assert events == [e] + rest;
      assert forall i :: 0 <= i < |rest| ==> rest[i] == events[i + 1];
      FirstEffects(e, rest);
      StepInScope(keccak, s, e, wanted, had);
      StepKeepsHands(keccak, s, e);
      StepEffect(keccak, s, e, h);
      PhaseGoesOn(keccak, s, e);
      Effects(keccak, Step(keccak, s, e), rest, wanted, had, h);
    }
  }

  lemma NoEffects()
    ensures Renames([]) == {} && Drops([]) == {} && ClearedPlaces([]) == {}
  {
  }

  /** Once pruning, a sync does not fetch again. */
  lemma PhaseGoesOn(keccak: Keccak, s: State, e: Event)
    requires Enabled(keccak, s, e) && !e.Begin?
    ensures Step(keccak, s, e).sync.Fetching? ==> s.sync.Fetching?
    ensures e.DropStale? || e.DropJunk? ==> !Step(keccak, s, e).sync.Fetching?
  {
  }

  /** At every moment of every sync, crashed or not, whatever the order of its steps:
      the objects are the old wanted ones, those renamed in and not cleared away, and
      the stale ones not yet dropped. */
  lemma SyncFormula(keccak: Keccak, s: State, wanted: set<Hash>, events: seq<Event>)
    requires Enabled(keccak, s, Begin(wanted)) && OneSync(events)
    requires IsRun(keccak, Step(keccak, s, Begin(wanted)), events)
    ensures var before, landed := Objects(s.dir), Renames(events);
            && landed <= wanted - before && Drops(events) <= before - wanted
            && Objects(Run(keccak, Step(keccak, s, Begin(wanted)), events).dir) ==
               before * wanted + (landed - (set h | h in landed && WasCleared(events, h))) + (before - wanted - Drops(events))
  {
    var before, begun := Objects(s.dir), Step(keccak, s, Begin(wanted));
    BeginIsInScope(keccak, s, wanted);
    var after := Objects(Run(keccak, begun, events).dir);
    hide Objects, Renames, Drops, WasCleared, InScope;
    forall h ensures h in after <==> (h in before || h in Renames(events)) && h !in Drops(events) && !WasCleared(events, h)
             ensures h in Renames(events) ==> h in wanted - before
             ensures h in Drops(events) ==> h in before - wanted
             ensures h in before ==> !WasCleared(events, h)
    {
      Effects(keccak, begun, events, wanted, before, h);
    }
  }

  /** A run in which the same objects landed, went and were cleared as in a world ends
      with the same objects as the one-at-a-time reconcile of that world. */
  lemma SameAsReconcile(keccak: Keccak, s: State, wanted: set<Hash>, events: seq<Event>, w: World)
    requires Enabled(keccak, s, Begin(wanted)) && OneSync(events)
    requires IsRun(keccak, Step(keccak, s, Begin(wanted)), events)
    requires Renames(events) == Fetched(w, s.dir, wanted - Objects(s.dir))
    requires Drops(events) == Unlinked(w, Objects(s.dir) - wanted)
    requires (set h | h in Renames(events) && WasCleared(events, h)) == Cleared(w, s.dir, Renames(events))
    ensures Objects(Run(keccak, Step(keccak, s, Begin(wanted)), events).dir) == FinalObjects(w, s.dir, wanted)
  {
    SyncFormula(keccak, s, wanted, events);
  }
}
