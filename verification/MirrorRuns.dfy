/** The mirror as a step machine: one sync at a time, its downloads concurrent,
    crashes anywhere, and bundle requests in between. */
module MirrorRuns {
  import opened Bytes
  import opened MirrorPaths

  type Keccak = Content -> Hash

  const MAX_OBJECT_BYTES: nat := 64 * 1024 * 1024

  datatype Sync =
    | Idle
    // missing: not downloaded yet. inHand: downloaded and checked. written: whole in the temporary file.
    | Fetching(wanted: set<Hash>, stale: set<Hash>, junk: set<Place>,
               missing: set<Hash>, inHand: map<Hash, Content>, written: set<Hash>)
    | Pruning(wanted: set<Hash>, stale: set<Hash>, junk: set<Place>)

  datatype State = State(
    dir: Directory,
    sync: Sync,
    verified: set<Hash>,                   // verified_bundles
    requests: map<nat, (Hash, Content)>,      // requests that have read their file
    served: seq<(Hash, Content)>)          // answers sent

  datatype Event =
    | Begin(branch: set<Hash>)             // the lock is taken, the tree is known, the directory scanned
    | Download(h: Hash, content: Content)  // a body whose hash is the name asked for
    | GiveUp(h: Hash)                      // any failure of one object
    | WriteSome(h: Hash, n: nat)           // part of the temporary file is on disk
    | WriteAll(h: Hash)
    | Rename(h: Hash)
    | FetchesDone
    | DropStale(h: Hash)
    | KeepStale(h: Hash)                   // unlink failed
    | DropJunk(p: Place)
    | KeepJunk(p: Place)
    | End
    | Crash
    | Read(id: nat, h: Hash)               // a request reads the file
    | Answer(id: nat)                      // and answers, after checking unless the hash is cached

  predicate Writable(dir: Directory, p: Place) { p in dir ==> dir[p].File? }

  predicate Enabled(keccak: Keccak, s: State, e: Event) {
    match e
    case Begin(branch) => s.sync.Idle? && forall h :: h in branch ==> IsHash(h)
    case Download(h, content) =>
      s.sync.Fetching? && h in s.sync.missing && keccak(content) == h && |content| <= MAX_OBJECT_BYTES
    case GiveUp(h) => s.sync.Fetching? && (h in s.sync.missing || h in s.sync.inHand)
    case WriteSome(h, n) =>
      && s.sync.Fetching? && h in s.sync.inHand && h !in s.sync.written && n <= |s.sync.inHand[h]|
      && IsHash(h) && Writable(s.dir, TmpPlace(h))
    case WriteAll(h) => s.sync.Fetching? && h in s.sync.inHand && IsHash(h) && Writable(s.dir, TmpPlace(h))
    case Rename(h) =>
      && s.sync.Fetching? && h in s.sync.written && IsHash(h)
      && TmpPlace(h) in s.dir && (ObjectPlace(h) in s.dir ==> !s.dir[ObjectPlace(h)].Folder?)
    case FetchesDone => s.sync.Fetching? && s.sync.missing == {} && s.sync.inHand == map[]
    case DropStale(h) => s.sync.Pruning? && h in s.sync.stale && IsHash(h)
    case KeepStale(h) => s.sync.Pruning? && h in s.sync.stale
    case DropJunk(p) => s.sync.Pruning? && s.sync.stale == {} && p in s.sync.junk
    case KeepJunk(p) => s.sync.Pruning? && s.sync.stale == {} && p in s.sync.junk
    case End => s.sync.Pruning? && s.sync.stale == {} && s.sync.junk == {}
    case Crash => true
    case Read(id, h) => id !in s.requests && Holds(s.dir, h)
    case Answer(id) => id in s.requests
  }

  ghost function Step(keccak: Keccak, s: State, e: Event): State
    requires Enabled(keccak, s, e)
  {
    match e
    case Begin(branch) =>
      var objects := Objects(s.dir);
      s.(sync := Fetching(branch, objects - branch, Junk(s.dir), branch - objects, map[], {}))
    case Download(h, content) =>
      s.(sync := s.sync.(missing := s.sync.missing - {h}, inHand := s.sync.inHand[h := content]))
    case GiveUp(h) =>
      s.(sync := s.sync.(missing := s.sync.missing - {h}, inHand := s.sync.inHand - {h}, written := s.sync.written - {h}))
    case WriteSome(h, n) => s.(dir := s.dir[TmpPlace(h) := File(s.sync.inHand[h][..n])])
    case WriteAll(h) =>
      s.(dir := s.dir[TmpPlace(h) := File(s.sync.inHand[h])], sync := s.sync.(written := s.sync.written + {h}))
    case Rename(h) =>
      s.(dir := Renamed(s.dir, h), sync := s.sync.(inHand := s.sync.inHand - {h}, written := s.sync.written - {h}))
    case FetchesDone => s.(sync := Pruning(s.sync.wanted, s.sync.stale, s.sync.junk))
    case DropStale(h) => s.(dir := s.dir - {ObjectPlace(h)}, sync := s.sync.(stale := s.sync.stale - {h}))
    case KeepStale(h) => s.(sync := s.sync.(stale := s.sync.stale - {h}))
    case DropJunk(p) => s.(dir := s.dir - {p}, sync := s.sync.(junk := s.sync.junk - {p}))
    case KeepJunk(p) => s.(sync := s.sync.(junk := s.sync.junk - {p}))
    case End => s.(sync := Idle)
    case Crash => s.(sync := Idle, verified := {}, requests := map[])
    case Read(id, h) => s.(requests := s.requests[id := (h, s.dir[ObjectPlace(h)].content)])
    case Answer(id) =>
      var (h, content) := s.requests[id];
      var done := s.(requests := s.requests - {id});
      if h in s.verified || keccak(content) == h
      then done.(verified := s.verified + {h}, served := s.served + [(h, content)])
      else done
  }

  /** Whatever the temporary place held moves to the object's place. */
  function Renamed(dir: Directory, h: Hash): Directory
    requires IsHash(h) && TmpPlace(h) in dir
  {
    (dir - {TmpPlace(h)})[ObjectPlace(h) := dir[TmpPlace(h)]]
  }

  ghost predicate IsRun(keccak: Keccak, s: State, events: seq<Event>)
    decreases |events|
  {
    events == [] || (Enabled(keccak, s, events[0]) && IsRun(keccak, Step(keccak, s, events[0]), events[1..]))
  }

  ghost function Run(keccak: Keccak, s: State, events: seq<Event>): State
    requires IsRun(keccak, s, events)
    decreases |events|
  {
    if events == [] then s else Run(keccak, Step(keccak, s, events[0]), events[1..])
  }

  // ---- Every object hashes to its name ----

  /** The bytes passed the download's checks, or lay under the name when the
      process first started. */
  predicate Vouched(keccak: Keccak, origin: Directory, h: Hash, content: Content) {
    || (keccak(content) == h && |content| <= MAX_OBJECT_BYTES)
    || (Holds(origin, h) && origin[ObjectPlace(h)] == File(content))
  }

  ghost predicate Honest(keccak: Keccak, origin: Directory, dir: Directory) {
    forall h :: Holds(dir, h) ==> Vouched(keccak, origin, h, dir[ObjectPlace(h)].content)
  }

  /** What is about to be renamed is whole, and is what was checked. */
  ghost predicate HandsHonest(keccak: Keccak, dir: Directory, sync: Sync) {
    sync.Fetching? ==>
      && (forall h :: h in sync.inHand ==>
            keccak(sync.inHand[h]) == h && |sync.inHand[h]| <= MAX_OBJECT_BYTES && h !in sync.missing)
      && (forall h :: h in sync.written ==>
            h in sync.inHand && IsHash(h) && TmpPlace(h) in dir && dir[TmpPlace(h)] == File(sync.inHand[h]))
  }

  /** Requests hold vouched bytes, so do the answers; and a hash is only cached
      once vouched bytes of that hash were seen. */
  ghost predicate AnswersHonest(keccak: Keccak, origin: Directory, s: State) {
    && (forall id :: id in s.requests ==> Vouched(keccak, origin, s.requests[id].0, s.requests[id].1))
    && (forall i :: 0 <= i < |s.served| ==> Vouched(keccak, origin, s.served[i].0, s.served[i].1))
    && (forall h :: h in s.verified ==> Proven(keccak, origin, h))
    && (forall i :: 0 <= i < |s.served| ==> keccak(s.served[i].1) == s.served[i].0 || Proven(keccak, origin, s.served[i].0))
  }

  ghost predicate Proven(keccak: Keccak, origin: Directory, h: Hash) {
    exists content :: Vouched(keccak, origin, h, content) && keccak(content) == h
  }

  ghost predicate Inv(keccak: Keccak, origin: Directory, s: State) {
    Honest(keccak, origin, s.dir) && HandsHonest(keccak, s.dir, s.sync) && AnswersHonest(keccak, origin, s)
  }

  lemma WriteTmp(dir: Directory, h: Hash, content: Content)
    requires IsHash(h)
    ensures Objects(dir[TmpPlace(h) := File(content)]) == Objects(dir)
    ensures forall g :: IsHash(g) ==> TmpPlace(h) != ObjectPlace(g) && (g != h ==> TmpPlace(g) != TmpPlace(h))
  {
    var after := dir[TmpPlace(h) := File(content)];
    forall g ensures g in Objects(after) <==> g in Objects(dir) {
      ObjectsAre(dir, g);
      ObjectsAre(after, g);
      if IsHash(g) { PlacesAreApart(h, g); }
    }
    forall g | IsHash(g) ensures TmpPlace(h) != ObjectPlace(g) && (g != h ==> TmpPlace(g) != TmpPlace(h)) {
      PlacesAreApart(h, g);
    }
  }

  /** The rename adds exactly one object, and touches no other file. */
  lemma RenameAdds(dir: Directory, h: Hash)
    requires IsHash(h) && TmpPlace(h) in dir && dir[TmpPlace(h)].File?
    ensures Objects(Renamed(dir, h)) == Objects(dir) + {h}
    ensures Renamed(dir, h)[ObjectPlace(h)] == dir[TmpPlace(h)]
    ensures forall g :: IsHash(g) && g != h ==>
              && TmpPlace(g) != TmpPlace(h) && ObjectPlace(g) != ObjectPlace(h)
              && TmpPlace(g) != ObjectPlace(h) && ObjectPlace(g) != TmpPlace(h)
  {
    var after := Renamed(dir, h);
    HashOfPlace(h);
    forall g | IsHash(g) ensures g != h ==> TmpPlace(g) != TmpPlace(h) && ObjectPlace(g) != ObjectPlace(h)
                         ensures TmpPlace(g) != ObjectPlace(h) && ObjectPlace(g) != TmpPlace(h) {
      PlacesAreApart(h, g);
      PlacesAreApart(g, h);
    }
    forall g ensures g in Objects(after) <==> g in Objects(dir) || g == h {
      ObjectsAre(dir, g);
      ObjectsAre(after, g);
    }
  }

  lemma StepKeepsHands(keccak: Keccak, s: State, e: Event)
    requires HandsHonest(keccak, s.dir, s.sync) && Enabled(keccak, s, e)
    ensures HandsHonest(keccak, Step(keccak, s, e).dir, Step(keccak, s, e).sync)
  {
    hide Objects, Junk, IsHash;
    match e
    case WriteSome(h, n) => WriteKeepsHands(keccak, s.dir, s.sync, h, s.sync.inHand[h][..n], false);
    case WriteAll(h) => WriteKeepsHands(keccak, s.dir, s.sync, h, s.sync.inHand[h], true);
    case Rename(h) => RenameKeepsHands(keccak, s.dir, s.sync, h);
    case _ =>
  }

  lemma WriteKeepsHands(keccak: Keccak, dir: Directory, sync: Sync, h: Hash, content: Content, whole: bool)
    requires HandsHonest(keccak, dir, sync) && sync.Fetching? && IsHash(h) && h in sync.inHand
    requires if whole then content == sync.inHand[h] else h !in sync.written
    ensures HandsHonest(keccak, dir[TmpPlace(h) := File(content)],
                        if whole then sync.(written := sync.written + {h}) else sync)
  {
    hide Objects, IsHash;
    WriteTmp(dir, h, content);
  }

  lemma RenameKeepsHands(keccak: Keccak, dir: Directory, sync: Sync, h: Hash)
    requires HandsHonest(keccak, dir, sync) && sync.Fetching? && h in sync.written
    ensures HandsHonest(keccak, Renamed(dir, h), sync.(inHand := sync.inHand - {h}, written := sync.written - {h}))
  {
    hide Objects, IsHash;
    RenameAdds(dir, h);
  }

  lemma RenameKeepsHonest(keccak: Keccak, origin: Directory, dir: Directory, sync: Sync, h: Hash)
    requires Honest(keccak, origin, dir) && HandsHonest(keccak, dir, sync) && sync.Fetching? && h in sync.written
    ensures Honest(keccak, origin, Renamed(dir, h))
  {
    RenameAdds(dir, h);
    forall g | Holds(Renamed(dir, h), g) && g != h
      ensures Holds(dir, g) && Renamed(dir, h)[ObjectPlace(g)] == dir[ObjectPlace(g)] {}
  }

  lemma StepKeepsHonest(keccak: Keccak, origin: Directory, s: State, e: Event)
    requires Honest(keccak, origin, s.dir) && HandsHonest(keccak, s.dir, s.sync) && Enabled(keccak, s, e)
    ensures Honest(keccak, origin, Step(keccak, s, e).dir)
  {
    match e
    case WriteSome(h, n) => WriteTmp(s.dir, h, s.sync.inHand[h][..n]);
    case WriteAll(h) => WriteTmp(s.dir, h, s.sync.inHand[h]);
    case Rename(h) => RenameKeepsHonest(keccak, origin, s.dir, s.sync, h);
    case _ =>
  }

  lemma StepKeepsInv(keccak: Keccak, origin: Directory, s: State, e: Event)
    requires Inv(keccak, origin, s) && Enabled(keccak, s, e)
    ensures Inv(keccak, origin, Step(keccak, s, e))
  {
    StepKeepsHonest(keccak, origin, s, e);
    StepKeepsHands(keccak, s, e);
    StepKeepsAnswers(keccak, origin, s, e);
  }

  lemma Proves(keccak: Keccak, origin: Directory, h: Hash, content: Content)
    requires Vouched(keccak, origin, h, content) && keccak(content) == h
    ensures Proven(keccak, origin, h)
  {
  }

  lemma StepKeepsAnswers(keccak: Keccak, origin: Directory, s: State, e: Event)
    requires Honest(keccak, origin, s.dir) && AnswersHonest(keccak, origin, s) && Enabled(keccak, s, e)
    ensures AnswersHonest(keccak, origin, Step(keccak, s, e))
  {
    hide Vouched, Proven, Objects, Junk, IsHash;
    match e
    case Answer(id) =>
      var (h, content) := s.requests[id];
      assert Vouched(keccak, origin, h, content);
      if keccak(content) == h { Proves(keccak, origin, h, content); }
    case Read(id, h) => assert Vouched(keccak, origin, h, s.dir[ObjectPlace(h)].content);
    case _ => OthersKeepAnswers(keccak, origin, s, e);
  }

  lemma OthersKeepAnswers(keccak: Keccak, origin: Directory, s: State, e: Event)
    requires AnswersHonest(keccak, origin, s) && Enabled(keccak, s, e) && !e.Answer? && !e.Read?
    ensures AnswersHonest(keccak, origin, Step(keccak, s, e))
  {
    var r := Step(keccak, s, e);
    assert r.served == s.served && (r.requests == s.requests || r.requests == map[]);
    assert r.verified == s.verified || r.verified == {};
    hide Vouched, Proven, Step;
  }

  lemma {:induction false} RunKeepsInv(keccak: Keccak, origin: Directory, s: State, events: seq<Event>)
    requires Inv(keccak, origin, s) && IsRun(keccak, s, events)
    ensures Inv(keccak, origin, Run(keccak, s, events))
    decreases |events|
  {
    hide Inv;
    if events != [] {
      StepKeepsInv(keccak, origin, s, events[0]);
      RunKeepsInv(keccak, origin, Step(keccak, s, events[0]), events[1..]);
    }
  }

  function Started(dir: Directory): State { State(dir, Idle, {}, map[], []) }

  ghost predicate AllHash(keccak: Keccak, dir: Directory) {
    forall h :: h in Objects(dir) ==> Holds(dir, h) && keccak(dir[ObjectPlace(h)].content) == h
  }

  /** Over every interleaving of syncs, crashes and requests the mirror puts no
      wrong bytes anywhere: what is stored or served under a hash has that hash,
      or lay there from the start. */
  lemma OnlyOldFilesCanBeWrong(keccak: Keccak, origin: Directory, events: seq<Event>)
    requires IsRun(keccak, Started(origin), events)
    ensures var s := Run(keccak, Started(origin), events);
            && (forall h :: h in Objects(s.dir) ==> Holds(s.dir, h) && Vouched(keccak, origin, h, s.dir[ObjectPlace(h)].content))
            && (forall i :: 0 <= i < |s.served| ==> Vouched(keccak, origin, s.served[i].0, s.served[i].1))
  {
    RunKeepsInv(keccak, origin, Started(origin), events);
    var s := Run(keccak, Started(origin), events);
    forall h | h in Objects(s.dir) ensures Holds(s.dir, h) { ObjectsAre(s.dir, h); }
  }

  /** Started on objects that match their names, every object and every answer
      matches, although a cached hash is not checked again. */
  lemma ObjectsAndAnswersHash(keccak: Keccak, origin: Directory, events: seq<Event>)
    requires AllHash(keccak, origin) && IsRun(keccak, Started(origin), events)
    ensures AllHash(keccak, Run(keccak, Started(origin), events).dir)
    ensures var s := Run(keccak, Started(origin), events);
            forall i :: 0 <= i < |s.served| ==> keccak(s.served[i].1) == s.served[i].0
  {
    OnlyOldFilesCanBeWrong(keccak, origin, events);
    forall h | Holds(origin, h) ensures h in Objects(origin) { ObjectsAre(origin, h); }
  }

  /** An answer, whatever happened since its request read the file, is wrong exactly
      when the hash is cached and the bytes it read are not of that hash. */
  lemma AnswerWrongIff(keccak: Keccak, s: State, id: nat)
    requires Enabled(keccak, s, Answer(id))
    ensures var (h, content) := s.requests[id];
            var sent := Step(keccak, s, Answer(id)).served[|s.served|..];
            (exists answer :: answer in sent && keccak(answer.1) != answer.0) <==> h in s.verified && keccak(content) != h
  {
    var (h, content) := s.requests[id];
    var sent := Step(keccak, s, Answer(id)).served[|s.served|..];
    if h in s.verified || keccak(content) == h {
      assert sent == [(h, content)];
      assert (h, content) in sent;
    } else {
      assert sent == [];
    }
  }

  // ---- Fetch first, prune second ----

  /** Until the fetches are done nothing that is served goes away, wanted or stale:
      crashes and further syncs included. */
  lemma {:induction false} NothingGoesBeforeFetchesDone(keccak: Keccak, s: State, events: seq<Event>)
    requires HandsHonest(keccak, s.dir, s.sync) && !s.sync.Pruning? && IsRun(keccak, s, events)
    requires forall i :: 0 <= i < |events| ==> !events[i].FetchesDone?
    ensures Objects(s.dir) <= Objects(Run(keccak, s, events).dir)
    decreases |events|
  {
    if events != [] {
      var e := events[0];
      StepKeepsHands(keccak, s, e);
      FetchingOnlyAdds(keccak, s, e);
      assert forall i :: 0 <= i < |events[1..]| ==> events[1..][i] == events[i + 1];
      NothingGoesBeforeFetchesDone(keccak, Step(keccak, s, e), events[1..]);
    }
  }

  lemma FetchingOnlyAdds(keccak: Keccak, s: State, e: Event)
    requires HandsHonest(keccak, s.dir, s.sync) && !s.sync.Pruning? && Enabled(keccak, s, e) && !e.FetchesDone?
    ensures Objects(s.dir) <= Objects(Step(keccak, s, e).dir) && !Step(keccak, s, e).sync.Pruning?
  {
    match e
    case WriteSome(h, n) => WriteTmp(s.dir, h, s.sync.inHand[h][..n]);
    case WriteAll(h) => WriteTmp(s.dir, h, s.sync.inHand[h]);
    case Rename(h) => RenameAdds(s.dir, h);
    case _ =>
  }

  // ---- Strays in wanted places ----

  /** Something that is no file lies in the object's place, a rename would replace it,
      and the temporary place can be written. */
  predicate Exposed(dir: Directory, h: Hash) {
    && IsHash(h) && ObjectPlace(h) in dir && dir[ObjectPlace(h)].Special? && Writable(dir, TmpPlace(h))
  }

  /** Some content could pass the checks of a download under that name. */
  ghost predicate HasGood(keccak: Keccak, h: Hash) {
    exists content: Content :: |content| <= MAX_OBJECT_BYTES && keccak(content) == h
  }

  /** The prune lists of a running sync spare every wanted object: a stray in a wanted
      place never becomes an object before it is cleared. */
  ghost predicate Guarded(keccak: Keccak, s: State, wanted: set<Hash>) {
    s.sync.Idle? ||
    (s.sync.wanted == wanted && s.sync.stale !! wanted && forall h :: h in wanted ==> IsHash(h) && Spared(keccak, s, h))
  }

  ghost predicate Spared(keccak: Keccak, s: State, h: Hash)
    requires IsHash(h) && !s.sync.Idle?
  {
    ObjectPlace(h) in s.sync.junk ==>
      && !Holds(s.dir, h)
      && (s.sync.Fetching? ==>
            || !HasGood(keccak, h)
            || (ObjectPlace(h) in s.dir && s.dir[ObjectPlace(h)].Folder?)
            || (!Writable(s.dir, TmpPlace(h)) && h !in s.sync.written))
  }

  /** The one step that takes away a wanted object: pruning, as a stray, a place
      that the object was renamed into after the scan. */
  lemma WantedLostIff(keccak: Keccak, s: State, e: Event, h: Hash)
    requires Enabled(keccak, s, e) && HandsHonest(keccak, s.dir, s.sync)
    requires !s.sync.Idle? && s.sync.stale !! s.sync.wanted && h in s.sync.wanted && h in Objects(s.dir)
    ensures h !in Objects(Step(keccak, s, e).dir) <==> e == DropJunk(ObjectPlace(h))
  {
    var r := Step(keccak, s, e);
    ObjectsAre(s.dir, h);
    ObjectsAre(r.dir, h);
    match e
    case WriteSome(g, n) => WriteTmp(s.dir, g, s.sync.inHand[g][..n]);
    case WriteAll(g) => WriteTmp(s.dir, g, s.sync.inHand[g]);
    case Rename(g) => RenameAdds(s.dir, g);
    case DropStale(g) => PlacesAreApart(g, h);
    case _ =>
  }

  lemma StepSpares(keccak: Keccak, s: State, e: Event, h: Hash)
    requires Enabled(keccak, s, e) && !e.Begin? && HandsHonest(keccak, s.dir, s.sync)
    requires IsHash(h) && !s.sync.Idle? && Spared(keccak, s, h) && !Step(keccak, s, e).sync.Idle?
    ensures Spared(keccak, Step(keccak, s, e), h)
  {
    hide Objects, Junk, IsHash;
    match e
    case WriteSome(g, n) =>
      PlacesAreApart(g, h);
      PlacesAreApart(h, g);
    case WriteAll(g) =>
      PlacesAreApart(g, h);
      PlacesAreApart(h, g);
    case Rename(g) =>
      PlacesAreApart(g, h);
      PlacesAreApart(h, g);
    case _ =>
  }

  lemma GuardedStep(keccak: Keccak, s: State, e: Event, wanted: set<Hash>)
    requires Enabled(keccak, s, e) && !e.Begin? && HandsHonest(keccak, s.dir, s.sync) && Guarded(keccak, s, wanted)
    ensures Guarded(keccak, Step(keccak, s, e), wanted)
    ensures forall h :: h in wanted && h in Objects(s.dir) ==> h in Objects(Step(keccak, s, e).dir)
  {
    var r := Step(keccak, s, e);
    if !s.sync.Idle? {
      forall h | h in wanted ensures h in Objects(s.dir) ==> h in Objects(r.dir)
                             ensures !r.sync.Idle? ==> Spared(keccak, r, h) {
        ObjectsAre(s.dir, h);
        if h in Objects(s.dir) { WantedLostIff(keccak, s, e, h); }
        if !r.sync.Idle? { StepSpares(keccak, s, e, h); }
      }
    }
  }

  /** At every moment of a guarded sync, crashes included, each wanted object that
      was there, or has been fetched, is still there. */
  lemma {:induction false} NoWantedObjectLost(keccak: Keccak, s: State, events: seq<Event>, wanted: set<Hash>, h: Hash)
    requires HandsHonest(keccak, s.dir, s.sync) && Guarded(keccak, s, wanted) && IsRun(keccak, s, events)
    requires forall i :: 0 <= i < |events| ==> !events[i].Begin?
    requires h in wanted && h in Objects(s.dir)
    ensures h in Objects(Run(keccak, s, events).dir)
    decreases |events|
  {
    hide Guarded, HandsHonest;
    if events != [] {
      var e := events[0];
      GuardedStep(keccak, s, e, wanted);
      StepKeepsHands(keccak, s, e);
      assert forall i :: 0 <= i < |events[1..]| ==> events[1..][i] == events[i + 1];
      NoWantedObjectLost(keccak, Step(keccak, s, e), events[1..], wanted, h);
    }
  }

  /** A sync starts guarded exactly when no wanted place is exposed, but for objects
      that no download could match. */
  lemma BeginGuardedIff(keccak: Keccak, s: State, branch: set<Hash>)
    requires Enabled(keccak, s, Begin(branch))
    ensures Guarded(keccak, Step(keccak, s, Begin(branch)), branch) <==>
            forall h :: h in branch && Exposed(s.dir, h) ==> !HasGood(keccak, h)
  {
    var r := Step(keccak, s, Begin(branch));
    forall h | h in branch ensures Spared(keccak, r, h) <==> (Exposed(s.dir, h) ==> !HasGood(keccak, h)) {
      HashOfPlace(h);
    }
  }

  // ---- No sync gets stuck, and what a crash leaves ----

  /** What is left to do when everything from now on fails. */
  function Work(sync: Sync): nat {
    match sync
    case Idle => 0
    case Fetching(_, stale, junk, missing, inHand, _) => 2 + |missing| + |inHand| + |stale| + |junk|
    case Pruning(_, stale, junk) => 1 + |stale| + |junk|
  }

  ghost predicate FailsOn(keccak: Keccak, s: State, e: Event) {
    Enabled(keccak, s, e) && Work(Step(keccak, s, e).sync) < Work(s.sync)
    && Step(keccak, s, e) == s.(sync := Step(keccak, s, e).sync)
  }

  lemma GiveUpFails(keccak: Keccak, s: State, h: Hash)
    requires s.sync.Fetching? && (h in s.sync.missing || h in s.sync.inHand)
    ensures FailsOn(keccak, s, GiveUp(h))
  {
    FewerInHand(s.sync.inHand, h);
    assert |s.sync.missing - {h}| == |s.sync.missing| - if h in s.sync.missing then 1 else 0;
  }

  lemma PruningFails(keccak: Keccak, s: State) returns (e: Event)
    requires s.sync.Pruning?
    ensures FailsOn(keccak, s, e)
  {
    if h :| h in s.sync.stale {
      e := KeepStale(h);
    } else if p :| p in s.sync.junk {
      e := KeepJunk(p);
    } else {
      e := End;
    }
  }

  /** The next thing that can fail, or end. */
  lemma CanFailOn(keccak: Keccak, s: State) returns (e: Event)
    requires !s.sync.Idle?
    ensures FailsOn(keccak, s, e)
  {
    if s.sync.Pruning? {
      e := PruningFails(keccak, s);
    } else if h :| h in s.sync.missing {
      e := GiveUp(h);
      GiveUpFails(keccak, s, h);
    } else if h :| h in s.sync.inHand {
      e := GiveUp(h);
      GiveUpFails(keccak, s, h);
    } else {
      e := FetchesDone;
      assert s.sync.missing == {} && s.sync.inHand == map[];
    }
  }

  lemma FewerInHand(inHand: map<Hash, Content>, h: Hash)
    ensures |inHand - {h}| == |inHand| - if h in inHand then 1 else 0
  {
    assert (inHand - {h}).Keys == inHand.Keys - {h};
    assert |inHand - {h}| == |(inHand - {h}).Keys| && |inHand| == |inHand.Keys|;
  }

  /** A sync can end from every moment, even if all that is left of it fails: then the
      directory stays as it is. */
  lemma {:induction false} CanEnd(keccak: Keccak, s: State) returns (events: seq<Event>)
    ensures IsRun(keccak, s, events) && Run(keccak, s, events) == s.(sync := Idle)
    decreases Work(s.sync)
  {
    events := [];
    if !s.sync.Idle? {
      var e := CanFailOn(keccak, s);
      hide Enabled, Step, Work;
      var rest := CanEnd(keccak, Step(keccak, s, e));
      events := [e] + rest;
      assert events[1..] == rest;
    }
  }

  /** Only the directory and what was sent outlive a crash: a new sync can begin, and the
      first answer for each hash is checked against the file as it is then. */
  lemma CrashForgets(keccak: Keccak, s: State, branch: set<Hash>, id: nat, h: Hash)
    requires forall g :: g in branch ==> IsHash(g)
    ensures var c := Step(keccak, s, Crash);
            && c.dir == s.dir && c.served == s.served && Enabled(keccak, c, Begin(branch))
            && (Holds(s.dir, h) ==>
                  && Enabled(keccak, c, Read(id, h))
                  && var content := s.dir[ObjectPlace(h)].content;
                  Step(keccak, Step(keccak, c, Read(id, h)), Answer(id)).served ==
                  s.served + if keccak(content) == h then [(h, content)] else [])
  {
  }
}
