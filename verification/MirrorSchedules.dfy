/** Which runs the mirror has: schedules built step by step, and the exact
    conditions under which no run goes wrong. */
module MirrorSchedules {
  import opened Bytes
  import opened MirrorPaths
  import opened MirrorRuns

  /** No new sync begins. */
  predicate OneSync(events: seq<Event>) { forall i :: 0 <= i < |events| ==> !events[i].Begin? }

  /** Some events lead from one state to the other; with `quiet`, within one sync. */
  ghost predicate Leads(keccak: Keccak, s: State, t: State, quiet: bool) {
    exists events :: Leading(keccak, s, events, t, quiet)
  }

  ghost predicate Leading(keccak: Keccak, s: State, events: seq<Event>, t: State, quiet: bool) {
    (quiet ==> OneSync(events)) && IsRun(keccak, s, events) && Run(keccak, s, events) == t
  }

  lemma LeadsNowhere(keccak: Keccak, s: State, quiet: bool)
    ensures Leads(keccak, s, s, quiet)
  {
    assert Leading(keccak, s, [], s, quiet);
  }

  /** One step, and then on. */
  lemma LeadsBy(keccak: Keccak, s: State, e: Event, t: State, quiet: bool)
    requires Enabled(keccak, s, e) && (quiet ==> !e.Begin?) && Leads(keccak, Step(keccak, s, e), t, quiet)
    ensures Leads(keccak, s, t, quiet)
  {
    hide Step, Enabled;
    var events :| Leading(keccak, Step(keccak, s, e), events, t, quiet);
    var longer := [e] + events;
    assert longer[1..] == events;
    assert Leading(keccak, s, longer, t, quiet);
  }

  lemma {:induction false} RunsCompose(keccak: Keccak, s: State, a: seq<Event>, b: seq<Event>)
    requires IsRun(keccak, s, a) && IsRun(keccak, Run(keccak, s, a), b)
    ensures IsRun(keccak, s, a + b) && Run(keccak, s, a + b) == Run(keccak, Run(keccak, s, a), b)
    decreases |a|
  {
    hide Step, Enabled;
    if a == [] {
      assert a + b == b;
    } else {
      assert (a + b)[1..] == a[1..] + b;
      RunsCompose(keccak, Step(keccak, s, a[0]), a[1..], b);
    }
  }

  lemma LeadsOn(keccak: Keccak, s: State, t: State, u: State, quiet: bool)
    requires Leads(keccak, s, t, quiet) && Leads(keccak, t, u, quiet)
    ensures Leads(keccak, s, u, quiet)
  {
    hide Step, Enabled;
    var a :| Leading(keccak, s, a, t, quiet);
    var b :| Leading(keccak, t, b, u, quiet);
    RunsCompose(keccak, s, a, b);
    assert Leading(keccak, s, a + b, u, quiet);
  }

  // ---- Parts of a sync ----

  /** Every download still missing is given up. */
  lemma {:induction false} GiveUpAll(keccak: Keccak, s: State)
    requires s.sync.Fetching? && s.sync.inHand == map[] && s.sync.written == {}
    ensures Leads(keccak, s, s.(sync := s.sync.(missing := {})), true)
    decreases if s.sync.Fetching? then s.sync.missing else {}
  {
    hide Leads, Objects, Junk, IsHash;
    if s.sync.missing == {} {
      LeadsNowhere(keccak, s, true);
    } else {
      var h :| h in s.sync.missing;
      var r := s.(sync := s.sync.(missing := s.sync.missing - {h}));
      assert s.sync.inHand - {h} == s.sync.inHand && s.sync.written - {h} == s.sync.written;
      assert Step(keccak, s, GiveUp(h)) == r;
      GiveUpAll(keccak, r);
      LeadsBy(keccak, s, GiveUp(h), s.(sync := s.sync.(missing := {})), true);
    }
  }

  /** Every unlink of a stale object fails. */
  lemma {:induction false} KeepAllStale(keccak: Keccak, s: State)
    requires s.sync.Pruning?
    ensures Leads(keccak, s, s.(sync := Pruning(s.sync.wanted, {}, s.sync.junk)), true)
    decreases if s.sync.Pruning? then s.sync.stale else {}
  {
    hide Leads, Objects, Junk, IsHash;
    var end := s.(sync := Pruning(s.sync.wanted, {}, s.sync.junk));
    if s.sync.stale == {} {
      LeadsNowhere(keccak, s, true);
    } else {
      var h :| h in s.sync.stale;
      var r := Step(keccak, s, KeepStale(h));
      KeepAllStale(keccak, r);
      LeadsBy(keccak, s, KeepStale(h), end, true);
    }
  }

  /** The prune lists name every place. */
  ghost predicate CoversAll(s: State)
    requires s.sync.Pruning?
  {
    && (forall h :: h in s.sync.stale ==> IsHash(h))
    && (forall p :: p in s.dir ==> p in s.sync.junk || exists h :: h in s.sync.stale && ObjectPlace(h) == p)
  }

  lemma StillCovers(s: State, h: Hash)
    requires s.sync.Pruning? && CoversAll(s) && h in s.sync.stale
    ensures IsHash(h)
    ensures CoversAll(s.(dir := s.dir - {ObjectPlace(h)}, sync := Pruning(s.sync.wanted, s.sync.stale - {h}, s.sync.junk)))
  {
    var stale := s.sync.stale - {h};
    forall p | p in s.dir && p != ObjectPlace(h) ensures p in s.sync.junk || exists g :: g in stale && ObjectPlace(g) == p {
      if p !in s.sync.junk {
        var g :| g in s.sync.stale && ObjectPlace(g) == p;
        assert g in stale;
      }
    }
  }

  /** Everything the prune lists name goes. */
  lemma {:induction false} DropAll(keccak: Keccak, s: State)
    requires s.sync.Pruning? && CoversAll(s)
    ensures Leads(keccak, s, s.(dir := map[], sync := Pruning(s.sync.wanted, {}, {})), true)
    decreases if s.sync.Pruning? then |s.sync.stale| + |s.sync.junk| else 0
  {
    hide Leads, Objects, Junk, IsHash;
    var end := s.(dir := map[], sync := Pruning(s.sync.wanted, {}, {}));
    if s.sync.stale != {} {
      var h :| h in s.sync.stale;
      var r := Step(keccak, s, DropStale(h));
      StillCovers(s, h);
      assert r == s.(dir := s.dir - {ObjectPlace(h)}, sync := Pruning(s.sync.wanted, s.sync.stale - {h}, s.sync.junk));
      hide CoversAll;
      DropAll(keccak, r);
      LeadsBy(keccak, s, DropStale(h), end, true);
    } else if s.sync.junk != {} {
      var p :| p in s.sync.junk;
      var r := Step(keccak, s, DropJunk(p));
      DropAll(keccak, r);
      LeadsBy(keccak, s, DropJunk(p), end, true);
    } else {
      assert s.dir == map[];
      LeadsNowhere(keccak, s, true);
    }
  }

  lemma LeadsLoosely(keccak: Keccak, s: State, t: State)
    requires Leads(keccak, s, t, true)
    ensures Leads(keccak, s, t, false)
  {
    var events :| Leading(keccak, s, events, t, true);
    assert Leading(keccak, s, events, t, false);
  }

  // ---- Do all answers hash to their names? ----

  ghost predicate AnswersHash(keccak: Keccak, s: State) {
    forall i :: 0 <= i < |s.served| ==> keccak(s.served[i].1) == s.served[i].0
  }

  /** Over every run from the directory. */
  ghost predicate AllAnswersHash(keccak: Keccak, origin: Directory) {
    forall s :: Leads(keccak, Started(origin), s, false) ==> AnswersHash(keccak, s)
  }

  predicate IsWrong(keccak: Keccak, dir: Directory, h: Hash) {
    Holds(dir, h) && keccak(dir[ObjectPlace(h)].content) != h
  }

  /** Bytes that prove a name whose own file is wrong must have been downloaded. */
  lemma ProvenHasGood(keccak: Keccak, origin: Directory, h: Hash)
    requires IsWrong(keccak, origin, h) && Proven(keccak, origin, h)
    ensures HasGood(keccak, h)
  {
    var proof :| Vouched(keccak, origin, h, proof) && keccak(proof) == h;
  }

  lemma NoGoodNoWrongAnswer(keccak: Keccak, origin: Directory, s: State)
    requires Leads(keccak, Started(origin), s, false)
    requires forall h :: IsWrong(keccak, origin, h) ==> !HasGood(keccak, h)
    ensures AnswersHash(keccak, s)
  {
    var events :| Leading(keccak, Started(origin), events, s, false);
    RunKeepsInv(keccak, origin, Started(origin), events);
    forall i | 0 <= i < |s.served| ensures keccak(s.served[i].1) == s.served[i].0 {
      var (h, content) := s.served[i];
      assert Vouched(keccak, origin, h, content);
      if keccak(content) != h {
        ProvenHasGood(keccak, origin, h);
      }
    }
  }

  /** One object fetched into an empty directory. */
  lemma FetchIntoEmpty(keccak: Keccak, s: State, h: Hash, content: Content)
    requires IsHash(h) && keccak(content) == h && |content| <= MAX_OBJECT_BYTES && s.sync.Idle? && s.dir == map[]
    ensures Leads(keccak, s, s.(dir := map[ObjectPlace(h) := File(content)], sync := Pruning({h}, {}, {})), false)
  {
    hide Leads, Renamed, Run, IsRun;
    assert Objects(map[]) == {} && Junk(map[]) == {};
    hide Objects, Junk;
    PlacesAreApart(h, h);
    var none: set<Hash> := {};
    assert none - {h} == none && {h} - none == {h} && {h} - {h} == none && none + {h} == {h};
    assert map[h := content] - {h} == map[];
    var s1 := s.(sync := Fetching({h}, {}, {}, {h}, map[], {}));
    assert s1 == Step(keccak, s, Begin({h}));
    var s2 := s.(sync := Fetching({h}, {}, {}, {}, map[h := content], {}));
    assert s2 == Step(keccak, s1, Download(h, content));
    var s3 := s.(dir := map[TmpPlace(h) := File(content)], sync := Fetching({h}, {}, {}, {}, map[h := content], {h}));
    assert s3 == Step(keccak, s2, WriteAll(h));
    var s4 := s.(dir := map[ObjectPlace(h) := File(content)], sync := Fetching({h}, {}, {}, {}, map[], {}));
    RenameAlone(h, content);
    assert s4 == Step(keccak, s3, Rename(h));
    var s5 := s4.(sync := Pruning({h}, {}, {}));
    assert s5 == Step(keccak, s4, FetchesDone);
    LeadsNowhere(keccak, s5, false);
    LeadsBy(keccak, s4, FetchesDone, s5, false);
    LeadsBy(keccak, s3, Rename(h), s5, false);
    LeadsBy(keccak, s2, WriteAll(h), s5, false);
    LeadsBy(keccak, s1, Download(h, content), s5, false);
    LeadsBy(keccak, s, Begin({h}), s5, false);
  }

  lemma RenameAlone(h: Hash, content: Content)
    requires IsHash(h)
    ensures Renamed(map[TmpPlace(h) := File(content)], h) == map[ObjectPlace(h) := File(content)]
  {
  }

  /** A request reads; then the branch is emptied, and everything goes. */
  lemma EmptyAfterRead(keccak: Keccak, origin: Directory, h: Hash)
    requires Holds(origin, h)
    ensures var read := (h, origin[ObjectPlace(h)].content);
            Leads(keccak, Started(origin), State(map[], Idle, {}, map[0 := read], []), false)
  {
    hide Leads, Run, IsRun;
    var read := (h, origin[ObjectPlace(h)].content);
    var s0 := Started(origin);
    var s1 := s0.(requests := map[0 := read]);
    assert s1 == Step(keccak, s0, Read(0, h));
    var s2 := Step(keccak, s1, Begin({}));
    assert s2.sync.missing == {} && s2.sync.inHand == map[];
    var s3 := Step(keccak, s2, FetchesDone);
    forall g | g in s3.sync.stale ensures IsHash(g) { ObjectsAre(origin, g); }
    forall p | p in s3.dir && p !in s3.sync.junk ensures exists g :: g in s3.sync.stale && ObjectPlace(g) == p {
      PlaceOfHash(p);
      assert p.shard + p.name in Objects(origin);
    }
    DropAll(keccak, s3);
    var s4 := s3.(dir := map[], sync := Pruning({}, {}, {}));
    LeadsLoosely(keccak, s3, s4);
    var s5 := State(map[], Idle, {}, map[0 := read], []);
    assert s5 == Step(keccak, s4, End);
    LeadsNowhere(keccak, s5, false);
    LeadsBy(keccak, s4, End, s5, false);
    LeadsOn(keccak, s3, s4, s5, false);
    LeadsBy(keccak, s2, FetchesDone, s5, false);
    LeadsBy(keccak, s1, Begin({}), s5, false);
    LeadsBy(keccak, s0, Read(0, h), s5, false);
  }

  /** A wrong file under a name that a good download exists for can be served, from
      any directory: its reader answers after another request cached the hash. */
  lemma WrongFileIsServed(keccak: Keccak, origin: Directory, h: Hash, good: Content)
    requires IsWrong(keccak, origin, h) && |good| <= MAX_OBJECT_BYTES && keccak(good) == h
    ensures exists s :: Leads(keccak, Started(origin), s, false) && !AnswersHash(keccak, s)
  {
    hide Leads, Run, IsRun;
    var bad := origin[ObjectPlace(h)].content;
    EmptyAfterRead(keccak, origin, h);
    var s0 := State(map[], Idle, {}, map[0 := (h, bad)], []);
    FetchIntoEmpty(keccak, s0, h, good);
    var s1 := s0.(dir := map[ObjectPlace(h) := File(good)], sync := Pruning({h}, {}, {}));
    HashOfPlace(h);
    var s2 := s1.(requests := map[0 := (h, bad), 1 := (h, good)]);
    assert s2 == Step(keccak, s1, Read(1, h));
    var s3 := s1.(verified := {h}, served := [(h, good)]);
    assert s3 == Step(keccak, s2, Answer(1)) by {
      assert s2.requests - {1} == s1.requests;
    }
    var s4 := Step(keccak, s3, Answer(0));
    AnswerWrongIff(keccak, s3, 0);
    assert s4.served[1] == (h, bad);
    LeadsNowhere(keccak, s4, false);
    LeadsBy(keccak, s3, Answer(0), s4, false);
    LeadsBy(keccak, s2, Answer(1), s4, false);
    LeadsBy(keccak, s1, Read(1, h), s4, false);
    LeadsOn(keccak, s0, s1, s4, false);
    LeadsOn(keccak, Started(origin), s0, s4, false);
  }

  /** From any directory: all answers of all runs hash to their names if and only if
      every file that does not match its name has a name no download could match. */
  lemma AllAnswersHashIff(keccak: Keccak, origin: Directory)
    ensures AllAnswersHash(keccak, origin) <==> forall h :: IsWrong(keccak, origin, h) ==> !HasGood(keccak, h)
  {
    if forall h :: IsWrong(keccak, origin, h) ==> !HasGood(keccak, h) {
      forall s | Leads(keccak, Started(origin), s, false) ensures AnswersHash(keccak, s) {
        NoGoodNoWrongAnswer(keccak, origin, s);
      }
    } else {
      var h :| IsWrong(keccak, origin, h) && HasGood(keccak, h);
      var good: Content :| |good| <= MAX_OBJECT_BYTES && keccak(good) == h;
      WrongFileIsServed(keccak, origin, h, good);
    }
  }

  // ---- Does a sync ever lose a wanted object? ----

  /** A wanted object present at some moment of the sync is present ever after in it. */
  ghost predicate NeverLoses(keccak: Keccak, begun: State, wanted: set<Hash>) {
    forall t, u, h :: Leads(keccak, begun, t, true) && Leads(keccak, t, u, true) && h in wanted && h in Objects(t.dir) ==>
      h in Objects(u.dir)
  }

  lemma {:induction false} RunKeepsGuarded(keccak: Keccak, s: State, events: seq<Event>, wanted: set<Hash>)
    requires HandsHonest(keccak, s.dir, s.sync) && Guarded(keccak, s, wanted) && IsRun(keccak, s, events) && OneSync(events)
    ensures var t := Run(keccak, s, events);
            HandsHonest(keccak, t.dir, t.sync) && Guarded(keccak, t, wanted)
    decreases |events|
  {
    hide Guarded, HandsHonest, Step, Enabled;
    if events != [] {
      GuardedStep(keccak, s, events[0], wanted);
      StepKeepsHands(keccak, s, events[0]);
      assert forall i :: 0 <= i < |events[1..]| ==> events[1..][i] == events[i + 1];
      RunKeepsGuarded(keccak, Step(keccak, s, events[0]), events[1..], wanted);
    }
  }

  lemma GuardedNeverLoses(keccak: Keccak, begun: State, wanted: set<Hash>)
    requires HandsHonest(keccak, begun.dir, begun.sync) && Guarded(keccak, begun, wanted)
    ensures NeverLoses(keccak, begun, wanted)
  {
    hide Guarded, HandsHonest, Step, Enabled;
    forall t, u, h | Leads(keccak, begun, t, true) && Leads(keccak, t, u, true) && h in wanted && h in Objects(t.dir)
      ensures h in Objects(u.dir)
    {
      var a :| Leading(keccak, begun, a, t, true);
      var b :| Leading(keccak, t, b, u, true);
      RunKeepsGuarded(keccak, begun, a, wanted);
      NoWantedObjectLost(keccak, t, b, wanted, h);
    }
  }

  /** An exposed place: the download replaces the stray there, and the same sync's
      stray list then deletes the download. */
  lemma ExposedIsLost(keccak: Keccak, s: State, wanted: set<Hash>, h: Hash, good: Content)
    requires s.sync.Idle? && (forall g :: g in wanted ==> IsHash(g)) && h in wanted && Exposed(s.dir, h)
    requires |good| <= MAX_OBJECT_BYTES && keccak(good) == h
    ensures !NeverLoses(keccak, Step(keccak, s, Begin(wanted)), wanted)
  {
    hide Leads, Step;
    var begun := Step(keccak, s, Begin(wanted));
    var t := ExposedIsFetched(keccak, s, wanted, h, good);
    StrayCleared(keccak, t, h);
    var u :| Leads(keccak, t, u, true) && h !in Objects(u.dir);
  }

  lemma ExposedIsFetched(keccak: Keccak, s: State, wanted: set<Hash>, h: Hash, good: Content) returns (t: State)
    requires s.sync.Idle? && (forall g :: g in wanted ==> IsHash(g)) && h in wanted && Exposed(s.dir, h)
    requires |good| <= MAX_OBJECT_BYTES && keccak(good) == h
    ensures Leads(keccak, Step(keccak, s, Begin(wanted)), t, true) && h in Objects(t.dir)
    ensures t.sync.Fetching? && t.sync.inHand == map[] && t.sync.written == {} && ObjectPlace(h) in t.sync.junk
  {
    hide Leads, Run, IsRun;
    HashOfPlace(h);
    ObjectsAre(s.dir, h);
    var begun := Step(keccak, s, Begin(wanted));
    assert h in begun.sync.missing && ObjectPlace(h) in begun.sync.junk;
    hide Objects, Junk;
    var s1 := Step(keccak, begun, Download(h, good));
    var s2 := Step(keccak, s1, WriteAll(h));
    assert s2.dir[TmpPlace(h)] == File(good);
    PlacesAreApart(h, h);
    RenameAdds(s2.dir, h);
    t := Step(keccak, s2, Rename(h));
    assert t.sync.inHand == map[] && t.sync.written == {};
    LeadsNowhere(keccak, t, true);
    LeadsBy(keccak, s2, Rename(h), t, true);
    LeadsBy(keccak, s1, WriteAll(h), t, true);
    LeadsBy(keccak, begun, Download(h, good), t, true);
  }

  lemma StrayCleared(keccak: Keccak, t: State, h: Hash)
    requires t.sync.Fetching? && t.sync.inHand == map[] && t.sync.written == {} && IsHash(h) && ObjectPlace(h) in t.sync.junk
    ensures exists u :: Leads(keccak, t, u, true) && h !in Objects(u.dir)
  {
    hide Leads, Run, IsRun;
    GiveUpAll(keccak, t);
    var t1 := t.(sync := t.sync.(missing := {}));
    var t2 := Step(keccak, t1, FetchesDone);
    KeepAllStale(keccak, t2);
    var t3 := t2.(sync := Pruning(t2.sync.wanted, {}, t2.sync.junk));
    var u := Step(keccak, t3, DropJunk(ObjectPlace(h)));
    ObjectsAre(u.dir, h);
    LeadsNowhere(keccak, u, true);
    LeadsBy(keccak, t3, DropJunk(ObjectPlace(h)), u, true);
    LeadsOn(keccak, t2, t3, u, true);
    LeadsBy(keccak, t1, FetchesDone, u, true);
    LeadsOn(keccak, t, t1, u, true);
  }

  /** For every hash function, directory and branch: no run of the sync loses a wanted
      object if and only if no wanted place is exposed whose object could be downloaded. */
  lemma NeverLosesIff(keccak: Keccak, s: State, wanted: set<Hash>)
    requires s.sync.Idle? && forall g :: g in wanted ==> IsHash(g)
    ensures NeverLoses(keccak, Step(keccak, s, Begin(wanted)), wanted) <==>
            forall h :: h in wanted && Exposed(s.dir, h) ==> !HasGood(keccak, h)
  {
    if forall h :: h in wanted && Exposed(s.dir, h) ==> !HasGood(keccak, h) {
      BeginGuardedIff(keccak, s, wanted);
      GuardedNeverLoses(keccak, Step(keccak, s, Begin(wanted)), wanted);
    } else {
      var h :| h in wanted && Exposed(s.dir, h) && HasGood(keccak, h);
      var good: Content :| |good| <= MAX_OBJECT_BYTES && keccak(good) == h;
      ExposedIsLost(keccak, s, wanted, h, good);
    }
  }
}
