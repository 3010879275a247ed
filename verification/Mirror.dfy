/** One reconcile of the object directory with the branch, step by step, under
    every pattern of network and file-system failures. */
module Mirror {
  import opened Bytes
  import opened MirrorPaths
  import opened MirrorRuns

  const MAX_TREE_ENTRIES: nat := 100_000

  // ---- The branch ----

  datatype Entry = Entry(path: string, kind: string, size: nat)
  datatype TreeDoc = TreeDoc(entries: seq<Entry>, truncated: bool)

  /** A blob whose path is a hash. */
  predicate IsListed(e: Entry) { ParseObjectPath(e.path).Some? && e.kind == "blob" }

  function Listed(entries: seq<Entry>): (r: seq<(Hash, nat)>)
    ensures |r| <= |entries|
  {
    if entries == [] then []
    else
      var rest, e := Listed(entries[..|entries| - 1]), entries[|entries| - 1];
      if IsListed(e) then rest + [(ParseObjectPath(e.path).value, e.size)] else rest
  }

  function Oversized(objects: seq<(Hash, nat)>): (n: nat)
    ensures n <= |objects|
  {
    if objects == [] then 0
    else Oversized(objects[..|objects| - 1]) + (if objects[|objects| - 1].1 > MAX_OBJECT_BYTES then 1 else 0)
  }

  function WantedOf(objects: seq<(Hash, nat)>): set<Hash> {
    set o | o in objects && o.1 <= MAX_OBJECT_BYTES :: o.0
  }

  /** The branch files the hash under its own path, as a blob of that size. */
  predicate IsBlob(entries: seq<Entry>, h: Hash, size: nat) {
    IsHash(h) && Entry(ObjectPath(h), "blob", size) in entries
  }

  lemma {:induction false} ListedAre(entries: seq<Entry>, h: Hash, size: nat)
    ensures (h, size) in Listed(entries) <==> IsBlob(entries, h, size)
    decreases |entries|
  {
    if entries != [] {
      var rest, e := entries[..|entries| - 1], entries[|entries| - 1];
      assert entries == rest + [e];
      ListedAre(rest, h, size);
      ParseObjectPathIff(e.path, h);
      assert (h, size) in Listed(entries) <==>
        (h, size) in Listed(rest) || (IsListed(e) && ParseObjectPath(e.path).value == h && e.size == size);
    }
  }

  /** The wanted hashes are exactly those of the blobs, within the size limit,
      that are filed under their own hash path. */
  lemma WantedIff(entries: seq<Entry>, h: Hash)
    ensures h in WantedOf(Listed(entries)) <==> exists size: nat :: size <= MAX_OBJECT_BYTES && IsBlob(entries, h, size)
  {
    if h in WantedOf(Listed(entries)) {
      var o :| o in Listed(entries) && o.1 <= MAX_OBJECT_BYTES && o.0 == h;
      ListedAre(entries, h, o.1);
    }
    if size: nat :| size <= MAX_OBJECT_BYTES && IsBlob(entries, h, size) {
      ListedAre(entries, h, size);
      assert (h, size) in Listed(entries) && (h, size).0 == h;
    }
  }

  /** An entry that is no blob filed under a hash path, or one over the size limit. */
  ghost predicate IsIgnored(e: Entry) { e.kind != "blob" || e.size > MAX_OBJECT_BYTES || forall h :: IsHash(h) ==> e.path != ObjectPath(h) }

  ghost function IgnoredAt(entries: seq<Entry>): set<nat> { set i | 0 <= i < |entries| && IsIgnored(entries[i]) }

  lemma ListedIff(e: Entry)
    ensures IsListed(e) && e.size <= MAX_OBJECT_BYTES <==> !IsIgnored(e)
  {
    if IsListed(e) { ParseObjectPathIff(e.path, ParseObjectPath(e.path).value); }
    forall h | IsHash(h) && e.path == ObjectPath(h) ensures ParseObjectPath(e.path).Some? { ParseObjectPathIff(e.path, h); }
  }

  /** What a sync ignores of the branch is counted entry by entry. */
  lemma {:induction false} IgnoredCount(entries: seq<Entry>)
    ensures |entries| - |Listed(entries)| + Oversized(Listed(entries)) == |IgnoredAt(entries)|
    decreases |entries|
  {
    hide IsIgnored, ParseObjectPath;
    if entries == [] {
      assert IgnoredAt(entries) == {};
    } else {
      var n := |entries| - 1;
      var rest, e := entries[..n], entries[n];
      IgnoredCount(rest);
      ListedIff(e);
      if IsListed(e) {
        var o := (ParseObjectPath(e.path).value, e.size);
        assert (Listed(rest) + [o])[..|Listed(rest)|] == Listed(rest);
      }
      assert IgnoredAt(entries) == IgnoredAt(rest) + if IsIgnored(e) then {n} else {};
    }
  }

  // ---- The outside world of one sync ----

  datatype Download = NoBody | Body(announced: Option<nat>, content: Content)

  /** What the file system does with one object. */
  datatype Landing = ShardFails | WriteFails(written: nat) | RenameFails | Lands

  datatype World = World(
    keccak: Keccak,
    download: Hash -> Download,
    landing: Hash -> Landing,
    unlinks: Hash -> bool,
    clears: Place -> bool)

  function NodeAt(dir: Directory, p: Place): Option<Node> { if p in dir then Some(dir[p]) else None }

  /** The body arrived, is small enough, and hashes to the name asked for. */
  predicate Checks(w: World, h: Hash) {
    match w.download(h)
    case NoBody => false
    case Body(announced, content) =>
      && (announced.Some? ==> announced.value <= MAX_OBJECT_BYTES)
      && |content| <= MAX_OBJECT_BYTES && w.keccak(content) == h
  }

  predicate Fetches(w: World, dir: Directory, h: Hash) {
    && IsHash(h) && Checks(w, h) && w.landing(h).Lands? && Writable(dir, TmpPlace(h))
    && (ObjectPlace(h) in dir ==> !dir[ObjectPlace(h)].Folder?)
  }

  datatype Outcome =
    | SyncFailed
    | Synced(commit: string, added: nat, removed: nat, objects: nat, ignored: nat, nothingChanged: bool)

  // ---- What one reconcile leaves ----

  ghost function Fetched(w: World, dir: Directory, missing: set<Hash>): set<Hash> {
    set h | h in missing && Fetches(w, dir, h)
  }

  ghost function Unlinked(w: World, stale: set<Hash>): set<Hash> { set h | h in stale && w.unlinks(h) }

  /** Objects fetched over a stray and then cleared away as that stray. */
  ghost function Cleared(w: World, dir: Directory, fetched: set<Hash>): set<Hash> {
    set h | h in fetched && IsHash(h) && ObjectPlace(h) in Junk(dir) && w.clears(ObjectPlace(h))
  }

  ghost function FinalObjects(w: World, dir: Directory, wanted: set<Hash>): set<Hash> {
    var before := Objects(dir);
    var fetched := Fetched(w, dir, wanted - before);
    before * wanted + (fetched - Cleared(w, dir, fetched)) + (before - wanted - Unlinked(w, before - wanted))
  }

  /** Objects reported, against objects before, added and removed: they balance
      exactly when no download landed on a stray that was then cleared. */
  lemma CountsBalanceIff(w: World, dir: Directory, wanted: set<Hash>)
    ensures var before := Objects(dir);
            var fetched := Fetched(w, dir, wanted - before);
            var lost := Cleared(w, dir, fetched);
            && |FinalObjects(w, dir, wanted)| == |before| + |fetched| - |Unlinked(w, before - wanted)| - |lost|
            && (|FinalObjects(w, dir, wanted)| == |before| + |fetched| - |Unlinked(w, before - wanted)| <==> lost == {})
  {
    hide Objects, Fetches;
    var before := Objects(dir);
    var fetched := Fetched(w, dir, wanted - before);
    var lost, gone := Cleared(w, dir, fetched), Unlinked(w, before - wanted);
    assert gone <= before - wanted && lost <= fetched <= wanted - before;
    SizeOfChange(before, wanted, gone, fetched, lost);
  }

  lemma SizeOfChange(before: set<Hash>, wanted: set<Hash>, gone: set<Hash>, fetched: set<Hash>, lost: set<Hash>)
    requires gone <= before - wanted && lost <= fetched <= wanted - before
    ensures |before * wanted + (fetched - lost) + (before - wanted - gone)| == |before| + |fetched| - |gone| - |lost|
    ensures lost == {} <==> |lost| == 0
  {
    var kept, landed := before - gone, fetched - lost;
    assert before * wanted + landed + (before - wanted - gone) == kept + landed;
    SizeOfParts(before, gone);
    SizeOfParts(fetched, lost);
    assert kept !! landed;
  }

  lemma SizeOfParts(whole: set<Hash>, part: set<Hash>)
    requires part <= whole
    ensures |whole - part| == |whole| - |part|
  {
    assert whole == part + (whole - part);
  }

  /** The server answers with those bytes, announcing their length or none. */
  predicate Answers(w: World, h: Hash, content: Content) {
    w.download(h) == Body(None, content) || w.download(h) == Body(Some(|content|), content)
  }

  /** The server answers with those bytes, and announces no length above the cap. */
  predicate Sends(w: World, h: Hash, content: Content) {
    match w.download(h)
    case NoBody => false
    case Body(announced, sent) => sent == content && (announced.Some? ==> announced.value <= MAX_OBJECT_BYTES)
  }

  /** The object's shard, temporary file and rename give no trouble. */
  predicate PathIsFree(w: World, dir: Directory, h: Hash)
    requires IsHash(h)
  {
    w.landing(h) == Lands && Writable(dir, TmpPlace(h)) && (ObjectPlace(h) in dir ==> !dir[ObjectPlace(h)].Folder?)
  }

  /** Bytes that hash to the name and fit the cap land when the path is free, whether
      the server announces their length or not. */
  lemma HonestDownloadLands(w: World, dir: Directory, h: Hash, content: Content)
    requires IsHash(h) && Answers(w, h, content) && w.keccak(content) == h && |content| <= MAX_OBJECT_BYTES
    requires PathIsFree(w, dir, h)
    ensures h in Fetched(w, dir, {h}) && Landed(w, dir, h) == Some(File(content))
  {
  }

  /** Nothing lands but bytes that hash to the name, fit the cap and were not announced
      as longer than it. */
  lemma OnlyHonestDownloadsLand(w: World, dir: Directory, h: Hash)
    requires h in Fetched(w, dir, {h})
    ensures IsHash(h) && PathIsFree(w, dir, h)
    ensures exists content: Content :: w.keccak(content) == h && |content| <= MAX_OBJECT_BYTES && Sends(w, h, content)
  {
    assert Sends(w, h, w.download(h).content);
  }

  /** When the server sends every wanted object, the paths are free, no stray sits in a
      wanted place and removals work, the directory ends with exactly the wanted objects. */
  lemma AllIoGivesWanted(w: World, dir: Directory, wanted: set<Hash>, contents: map<Hash, Content>)
    requires forall h :: h in wanted ==>
               && IsHash(h) && h in contents && Answers(w, h, contents[h])
               && w.keccak(contents[h]) == h && |contents[h]| <= MAX_OBJECT_BYTES
    requires forall h :: h in wanted ==> w.landing(h) == Lands && Writable(dir, TmpPlace(h)) && Writable(dir, ObjectPlace(h))
    requires forall h :: w.unlinks(h)
    ensures FinalObjects(w, dir, wanted) == wanted
  {
    var before := Objects(dir);
    var fetched := Fetched(w, dir, wanted - before);
    forall h | h in wanted - before ensures h in fetched { HonestDownloadLands(w, dir, h, contents[h]); }
    assert fetched == wanted - before;
    forall h | h in fetched ensures ObjectPlace(h) !in dir { ObjectsAre(dir, h); HashOfPlace(h); }
    assert Cleared(w, dir, fetched) == {};
    assert Unlinked(w, before - wanted) == before - wanted;
  }

  /** What one fetch may change: its own two places. */
  ghost predicate FetchedOne(w: World, before: Directory, after: Directory, h: Hash, ok: bool) {
    && IsHash(h) && (ok <==> Fetches(w, before, h))
    && (forall p :: p != ObjectPlace(h) && p != TmpPlace(h) ==> NodeAt(after, p) == NodeAt(before, p))
    && NodeAt(after, ObjectPlace(h)) == Landed(w, before, h)
  }

  function Landed(w: World, dir: Directory, h: Hash): Option<Node>
    requires IsHash(h)
  {
    if Fetches(w, dir, h) then Some(File(w.download(h).content)) else NodeAt(dir, ObjectPlace(h))
  }

  /** The directory once the hashes in `done` were tried, in whatever order. */
  ghost predicate AfterFetches(w: World, start: Directory, dir: Directory, done: set<Hash>) {
    forall h :: IsHash(h) ==> Tried(w, start, dir, h, h in done)
  }

  ghost predicate Tried(w: World, start: Directory, dir: Directory, h: Hash, done: bool)
    requires IsHash(h)
  {
    if done then NodeAt(dir, ObjectPlace(h)) == Landed(w, start, h)
    else NodeAt(dir, ObjectPlace(h)) == NodeAt(start, ObjectPlace(h)) && NodeAt(dir, TmpPlace(h)) == NodeAt(start, TmpPlace(h))
  }

  /** A hash not tried yet fares as it would have at the start. */
  lemma SameFetch(w: World, start: Directory, dir: Directory, h: Hash)
    requires IsHash(h) && Tried(w, start, dir, h, false)
    ensures Fetches(w, dir, h) <==> Fetches(w, start, h)
    ensures Landed(w, dir, h) == Landed(w, start, h)
  {
  }

  lemma OneMoreFetch(w: World, start: Directory, dir: Directory, after: Directory, done: set<Hash>, h: Hash, ok: bool)
    requires AfterFetches(w, start, dir, done) && h !in done && FetchedOne(w, dir, after, h, ok)
    ensures AfterFetches(w, start, after, done + {h})
    ensures |Fetched(w, start, done + {h})| == |Fetched(w, start, done)| + (if ok then 1 else 0)
  {
    hide Fetches, Landed;
    assert Tried(w, start, dir, h, false);
    SameFetch(w, start, dir, h);
    assert Fetched(w, start, done + {h}) == if ok then Fetched(w, start, done) + {h} else Fetched(w, start, done);
    forall g | IsHash(g) ensures Tried(w, start, after, g, g in done + {h}) {
      assert Tried(w, start, dir, g, g in done);
      if g != h {
        PlacesAreApart(g, h);
        PlacesAreApart(h, g);
      }
    }
  }

  ghost function Places(hashes: set<Hash>): set<Place> { set h | h in hashes && IsHash(h) :: ObjectPlace(h) }

  /** The directory with some stale objects unlinked. */
  ghost function Pruned(w: World, dir: Directory, stale: set<Hash>): Directory { dir - Places(Unlinked(w, stale)) }

  lemma OneMoreUnlinked(w: World, dir: Directory, done: set<Hash>, h: Hash)
    requires h !in done && IsHash(h)
    ensures |Unlinked(w, done + {h})| == |Unlinked(w, done)| + (if w.unlinks(h) then 1 else 0)
    ensures Pruned(w, dir, done + {h}) ==
            if w.unlinks(h) then Pruned(w, dir, done) - {ObjectPlace(h)} else Pruned(w, dir, done)
  {
    if w.unlinks(h) {
      assert Unlinked(w, done + {h}) == Unlinked(w, done) + {h};
      assert Places(Unlinked(w, done + {h})) == Places(Unlinked(w, done)) + {ObjectPlace(h)};
    } else {
      assert Unlinked(w, done + {h}) == Unlinked(w, done);
    }
  }

  ghost function WithoutStrays(w: World, dir: Directory, junk: set<Place>): Directory {
    dir - (set p | p in junk && w.clears(p))
  }

  lemma PrunedAt(w: World, dir: Directory, stale: set<Hash>, h: Hash)
    requires IsHash(h)
    ensures NodeAt(Pruned(w, dir, stale), ObjectPlace(h)) ==
            if h in stale && w.unlinks(h) then None else NodeAt(dir, ObjectPlace(h))
  {
    if ObjectPlace(h) in Places(Unlinked(w, stale)) {
      var g :| g in Unlinked(w, stale) && IsHash(g) && ObjectPlace(g) == ObjectPlace(h);
      PlacesAreApart(g, h);
    } else {
      assert h !in Unlinked(w, stale);
    }
  }

  /** What must be under a name after a sync that wants `wanted`. */
  ghost predicate EndsAs(w: World, start: Directory, wanted: set<Hash>, end: Directory, h: Hash) {
    && (h in Objects(end) <==> h in FinalObjects(w, start, wanted))
    && (h in Objects(end) ==> Holds(end, h))
    && (h in Objects(end) && h in Fetched(w, start, wanted - Objects(start)) ==>
          end[ObjectPlace(h)].content == w.download(h).content)
    && (h in Objects(end) && h in Objects(start) ==> Holds(start, h) && end[ObjectPlace(h)] == start[ObjectPlace(h)])
  }

  /** The directory after a sync: the old wanted objects, the fetched ones and
      those that would not go; fetched contents are the checked ones, others as before. */
  ghost predicate Reconciled(w: World, start: Directory, wanted: set<Hash>, end: Directory) {
    Objects(end) == FinalObjects(w, start, wanted) && forall h :: EndsAs(w, start, wanted, end, h)
  }

  /** What a finished sync says about itself. */
  ghost predicate Reports(r: Outcome, entries: seq<Entry>, w: World, start: Directory, end: Directory) {
    var objects, wanted, before := Listed(entries), WantedOf(Listed(entries)), Objects(start);
    && r.Synced?
    && r.added == |Fetched(w, start, wanted - before)|
    && r.removed == |Unlinked(w, before - wanted)|
    && r.objects == |Objects(end)|
    && r.ignored == |entries| - |objects| + Oversized(objects) + |wanted - before| - r.added
    && (r.nothingChanged <==> r.added == 0 && r.removed == 0)
  }

  /** The commit or the listing cannot be had, or the directory cannot be read. */
  predicate Refused(head: Option<string>, doc: Option<TreeDoc>, readable: bool) {
    || head.None? || !IsLowerHex(head.value, 40)
    || doc.None? || doc.value.truncated || |doc.value.entries| > MAX_TREE_ENTRIES
    || !readable
  }

  /** One sync, from directory to directory. A refused one changes nothing; any other
      leaves the directory reconciled, and reports it unless it cannot be read again. */
  ghost predicate Reconciles(head: Option<string>, doc: Option<TreeDoc>, readable: bool, rereadable: bool,
                             w: World, start: Directory, r: Outcome, end: Directory)
  {
    if Refused(head, doc, readable) then r == SyncFailed && end == start
    else
      && Reconciled(w, start, WantedOf(Listed(doc.value.entries)), end)
      && (r.Synced? <==> rereadable)
      && (r.Synced? ==> r.commit == head.value && Reports(r, doc.value.entries, w, start, end))
  }

  lemma FinallyAt(w: World, start: Directory, fetched: Directory, wanted: set<Hash>, h: Hash)
    requires AfterFetches(w, start, fetched, wanted - Objects(start))
    ensures EndsAs(w, start, wanted, WithoutStrays(w, Pruned(w, fetched, Objects(start) - wanted), Junk(start)), h)
  {
    var end := WithoutStrays(w, Pruned(w, fetched, Objects(start) - wanted), Junk(start));
    ObjectsAre(start, h);
    ObjectsAre(end, h);
    if IsHash(h) {
      HashOfPlace(h);
      assert Tried(w, start, fetched, h, h in wanted - Objects(start));
      PrunedAt(w, fetched, Objects(start) - wanted, h);
    }
  }

  lemma Finally(w: World, start: Directory, fetched: Directory, wanted: set<Hash>)
    requires AfterFetches(w, start, fetched, wanted - Objects(start))
    ensures Reconciled(w, start, wanted, WithoutStrays(w, Pruned(w, fetched, Objects(start) - wanted), Junk(start)))
  {
    var end := WithoutStrays(w, Pruned(w, fetched, Objects(start) - wanted), Junk(start));
    forall h ensures EndsAs(w, start, wanted, end, h) { FinallyAt(w, start, fetched, wanted, h); }
    assert forall h :: EndsAs(w, start, wanted, end, h) ==> (h in Objects(end) <==> h in FinalObjects(w, start, wanted));
  }

  /** A sync keeps every object hashing to its name. */
  lemma ReconcileKeepsHashes(w: World, start: Directory, wanted: set<Hash>, end: Directory)
    requires Reconciled(w, start, wanted, end) && AllHash(w.keccak, start)
    ensures AllHash(w.keccak, end)
  {
    forall h | h in Objects(end) ensures Holds(end, h) && w.keccak(end[ObjectPlace(h)].content) == h {
      assert EndsAs(w, start, wanted, end, h);
    }
  }

  lemma WantedAreHashes(entries: seq<Entry>)
    ensures forall h :: h in WantedOf(Listed(entries)) ==> IsHash(h)
  {
    forall h | h in WantedOf(Listed(entries)) ensures IsHash(h) { WantedIff(entries, h); }
  }

  lemma ObjectNamesAreHashes(dir: Directory)
    ensures forall h :: h in Objects(dir) ==> IsHash(h)
  {
    forall h | h in Objects(dir) ensures IsHash(h) { ObjectsAre(dir, h); }
  }

  lemma FetchedAtMost(w: World, dir: Directory, missing: set<Hash>)
    ensures |Fetched(w, dir, missing)| <= |missing|
  {
    assert missing == Fetched(w, dir, missing) + (missing - Fetched(w, dir, missing));
  }

  // ---- The mirror itself ----

  class Mirror {
    var dir: Directory

    constructor (dir: Directory)
      ensures this.dir == dir
    {
      this.dir := dir;
    }

    /** A branch head that is not a commit hash is refused. */
    method HeadCommit(sha: Option<string>) returns (r: Option<string>)
      ensures r == if sha.Some? && IsLowerHex(sha.value, 40) then sha else None
    {
      r := if sha.Some? && IsLowerHex(sha.value, 40) then sha else None;
    }

    /** The listing of the branch; a truncated or too long one is refused. */
    method Tree(doc: Option<TreeDoc>) returns (r: Option<(seq<(Hash, nat)>, nat)>)
      ensures r.Some? <==> doc.Some? && !doc.value.truncated && |doc.value.entries| <= MAX_TREE_ENTRIES
      ensures r.Some? ==> r.value.0 == Listed(doc.value.entries)
      ensures r.Some? ==> r.value.1 + |r.value.0| == |doc.value.entries|
    {
      if doc.None? || doc.value.truncated || |doc.value.entries| > MAX_TREE_ENTRIES {
        return None;
      }
      var entries := doc.value.entries;
      var objects: seq<(Hash, nat)>, ignored := [], 0;
      for i := 0 to |entries|
        invariant objects == Listed(entries[..i]) && ignored + |objects| == i
      {
        assert entries[..i + 1][..i] == entries[..i];
        if IsListed(entries[i]) {
          objects := objects + [(ParseObjectPath(entries[i].path).value, entries[i].size)];
        } else {
          ignored := ignored + 1;
        }
      }
      assert entries[..|entries|] == entries;
      return Some((objects, ignored));
    }

    method SelectWanted(objects: seq<(Hash, nat)>) returns (wanted: set<Hash>, skipped: nat)
      ensures wanted == WantedOf(objects) && skipped == Oversized(objects)
    {
      wanted, skipped := {}, 0;
      for i := 0 to |objects|
        invariant wanted == WantedOf(objects[..i]) && skipped == Oversized(objects[..i])
      {
        assert objects[..i + 1][..i] == objects[..i];
        assert forall o :: o in objects[..i + 1] <==> o in objects[..i] || o == objects[i];
        if objects[i].1 > MAX_OBJECT_BYTES {
          skipped := skipped + 1;
        } else {
          wanted := wanted + {objects[i].0};
        }
      }
      assert objects[..|objects|] == objects;
    }

    /** Every place is an object or a stray. */
    method ScanObjects() returns (objects: set<Hash>, junk: set<Place>)
      ensures objects == Objects(dir) && junk == Junk(dir)
    {
      objects, junk := {}, {};
      var left := dir.Keys;
      while left != {}
        invariant left <= dir.Keys
        invariant objects == set p | p in dir && p !in left && IsObject(dir, p) :: p.shard + p.name
        invariant junk == set p | p in dir && p !in left && !IsObject(dir, p)
        decreases left
      {
        var p :| p in left;
        if IsObject(dir, p) {
          objects := objects + {p.shard + p.name};
        } else {
          junk := junk + {p};
        }
        left := left - {p};
      }
    }

    /** One object: checked in memory, written beside its place, renamed into it. */
    method FetchObject(w: World, h: Hash) returns (ok: bool)
      requires IsHash(h)
      modifies this
      ensures FetchedOne(w, old(dir), dir, h, ok)
      // It lands exactly when it should, as the bytes that were sent.
      ensures ok <==> PathIsFree(w, old(dir), h) && exists content: Content ::
                w.keccak(content) == h && |content| <= MAX_OBJECT_BYTES && Sends(w, h, content)
      ensures forall content: Content :: ok && Sends(w, h, content) ==>
                ObjectPlace(h) in dir && dir[ObjectPlace(h)] == File(content)
    {
      if w.download(h).Body? { assert Sends(w, h, w.download(h).content) || !Checks(w, h); }
      PlacesAreApart(h, h);
      if !Checks(w, h) {
        return false;
      }
      var content, tmp := w.download(h).content, TmpPlace(h);
      if w.landing(h).ShardFails? || !Writable(dir, tmp) {
        return false;
      }
      if w.landing(h).WriteFails? {
        var written := content[..if w.landing(h).written <= |content| then w.landing(h).written else |content|];
        WriteTmp(dir, h, written);
        dir := dir[tmp := File(written)];
        return false;
      }
      WriteTmp(dir, h, content);
      dir := dir[tmp := File(content)];
      if w.landing(h).RenameFails? || (ObjectPlace(h) in dir && dir[ObjectPlace(h)].Folder?) {
        return false;
      }
      RenameAdds(dir, h);
      dir := Renamed(dir, h);
      return true;
    }

    /** One fetch among those of a sync; `done` were tried before it. */
    method FetchNext(w: World, h: Hash, ghost start: Directory, ghost done: set<Hash>) returns (ok: bool)
      requires IsHash(h) && h !in done && AfterFetches(w, start, dir, done)
      modifies this
      ensures AfterFetches(w, start, dir, done + {h})
      ensures |Fetched(w, start, done + {h})| == |Fetched(w, start, done)| + (if ok then 1 else 0)
    {
      ghost var before := dir;
      ok := FetchObject(w, h);
      OneMoreFetch(w, start, before, dir, done, h, ok);
    }

    /** All missing objects, in any order; one failure does not stop the others. */
    method FetchObjects(w: World, missing: set<Hash>) returns (added: nat)
      requires forall h :: h in missing ==> IsHash(h)
      modifies this
      ensures AfterFetches(w, old(dir), dir, missing)
      ensures added == |Fetched(w, old(dir), missing)|
    {
      added := 0;
      var left := missing;
      ghost var start, done: set<Hash> := dir, {};
      while left != {}
        invariant left <= missing && done == missing - left
        invariant AfterFetches(w, start, dir, done)
        invariant added == |Fetched(w, start, done)|
        decreases left
      {
        var h :| h in left;
        var ok := FetchNext(w, h, start, done);
        left, done := left - {h}, done + {h};
        if ok {
          added := added + 1;
        }
      }
      assert done == missing;
    }

    method PruneStale(w: World, stale: set<Hash>) returns (removed: nat)
      requires forall h :: h in stale ==> IsHash(h)
      modifies this
      ensures removed == |Unlinked(w, stale)|
      ensures dir == Pruned(w, old(dir), stale)
    {
      removed := 0;
      var left := stale;
      ghost var start, done: set<Hash> := dir, {};
      while left != {}
        invariant left <= stale && done == stale - left
        invariant removed == |Unlinked(w, done)| && dir == Pruned(w, start, done)
        decreases left
      {
        var h :| h in left;
        OneMoreUnlinked(w, start, done, h);
        if w.unlinks(h) {
          dir := dir - {ObjectPlace(h)};
          removed := removed + 1;
        }
        left, done := left - {h}, done + {h};
      }
      assert done == stale;
    }

    method PruneStrays(w: World, junk: set<Place>)
      modifies this
      ensures dir == WithoutStrays(w, old(dir), junk)
    {
      var left := junk;
      while left != {}
        invariant left <= junk
        invariant dir == WithoutStrays(w, old(dir), junk - left)
        decreases left
      {
        var p :| p in left;
        if w.clears(p) {
          dir := dir - {p};
        }
        left := left - {p};
      }
      assert junk - left == junk;
    }

    /** Fetch first, prune second. */
    method Apply(w: World, wanted: set<Hash>) returns (added: nat, removed: nat, failed: nat)
      requires forall h :: h in wanted ==> IsHash(h)
      modifies this
      ensures Reconciled(w, old(dir), wanted, dir)
      ensures added == |Fetched(w, old(dir), wanted - Objects(old(dir)))|
      ensures removed == |Unlinked(w, Objects(old(dir)) - wanted)|
      ensures failed + added == |wanted - Objects(old(dir))|
    {
      var objects, junk := ScanObjects();
      var missing, stale := wanted - objects, objects - wanted;
      ghost var start := dir;
      ObjectNamesAreHashes(dir);
      added := FetchObjects(w, missing);
      FetchedAtMost(w, start, missing);
      failed := |missing| - added;
      Finally(w, start, dir, wanted);
      removed := PruneStale(w, stale);
      PruneStrays(w, junk);
    }

    /** One sync. A refused one changes nothing; any other leaves the directory
        reconciled, and reports it unless the directory cannot be read again. */
    method Reconcile(head: Option<string>, doc: Option<TreeDoc>, readable: bool, rereadable: bool, w: World)
      returns (r: Outcome)
      modifies this
      ensures Reconciles(head, doc, readable, rereadable, w, old(dir), r, dir)
    {
      hide Reconciled, Fetched, Unlinked, Objects, Listed, WantedOf, Oversized, IsLowerHex;
      var commit := HeadCommit(head);
      var tree := Tree(doc);
      if commit.None? || tree.None? || !readable {
        return SyncFailed;
      }
      var wanted, skipped := SelectWanted(tree.value.0);
      WantedAreHashes(doc.value.entries);
      var added, removed, failed := Apply(w, wanted);
      if !rereadable {
        return SyncFailed;
      }
      var left, _ := ScanObjects();
      r := Synced(commit.value, added, removed, |left|, tree.value.1 + skipped + failed, added == 0 && removed == 0);
    }
  }
}
