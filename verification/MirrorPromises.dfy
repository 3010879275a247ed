/** What a sync promises about the directory it leaves, and exactly when. A world
    is a pattern of network and file-system outcomes. */
module MirrorPromises {
  import opened Bytes
  import opened MirrorPaths
  import opened MirrorRuns
  import opened Mirror

  // ---- Do the counts balance? ----

  /** Everything fetched is there at the end, and reported objects are old + added - removed. */
  ghost predicate Balances(w: World, dir: Directory, wanted: set<Hash>) {
    var before := Objects(dir);
    var fetched := Fetched(w, dir, wanted - before);
    && fetched <= FinalObjects(w, dir, wanted)
    && |FinalObjects(w, dir, wanted)| == |before| + |fetched| - |Unlinked(w, before - wanted)|
  }

  /** Only a download that lands in an exposed place can be cleared away. */
  lemma ClearedAreExposed(w: World, dir: Directory, wanted: set<Hash>, h: Hash)
    requires h in Cleared(w, dir, Fetched(w, dir, wanted - Objects(dir)))
    ensures h in wanted && Exposed(dir, h) && HasGood(w.keccak, h)
  {
    HashOfPlace(h);
    ObjectsAre(dir, h);
    assert Checks(w, h);
  }

  /** The world in which that content arrives for every name, and all else works. */
  function AllWork(keccak: Keccak, content: Content): World {
    World(keccak, (h: Hash) => Body(None, content), (h: Hash) => Lands, (h: Hash) => true, (p: Place) => true)
  }

  lemma ExposedIsCleared(keccak: Keccak, dir: Directory, wanted: set<Hash>, h: Hash, good: Content)
    requires h in wanted && Exposed(dir, h) && |good| <= MAX_OBJECT_BYTES && keccak(good) == h
    ensures h in Cleared(AllWork(keccak, good), dir, Fetched(AllWork(keccak, good), dir, wanted - Objects(dir)))
    ensures !Balances(AllWork(keccak, good), dir, wanted)
  {
    var w := AllWork(keccak, good);
    HashOfPlace(h);
    ObjectsAre(dir, h);
    assert Checks(w, h) && Fetches(w, dir, h);
    var fetched := Fetched(w, dir, wanted - Objects(dir));
    assert h in fetched && h in Cleared(w, dir, fetched);
    CountsBalanceIff(w, dir, wanted);
  }

  /** For every hash function, directory and branch: the counts balance and no download
      is lost, in every world, if and only if no wanted place is exposed whose object
      could be downloaded. */
  lemma BalancesIff(keccak: Keccak, dir: Directory, wanted: set<Hash>)
    ensures (forall w: World :: w.keccak == keccak ==> Balances(w, dir, wanted)) <==>
            forall h :: h in wanted && Exposed(dir, h) ==> !HasGood(keccak, h)
  {
    hide Exposed, Fetched, Unlinked, Objects, Balances;
    if forall h :: h in wanted && Exposed(dir, h) ==> !HasGood(keccak, h) {
      forall w: World | w.keccak == keccak ensures Balances(w, dir, wanted) {
        BalancesWhenUnexposed(w, dir, wanted);
      }
    } else {
      var h :| h in wanted && Exposed(dir, h) && HasGood(keccak, h);
      var good: Content :| |good| <= MAX_OBJECT_BYTES && keccak(good) == h;
      ExposedIsCleared(keccak, dir, wanted, h, good);
    }
  }

  lemma BalancesWhenUnexposed(w: World, dir: Directory, wanted: set<Hash>)
    requires forall h :: h in wanted && Exposed(dir, h) ==> !HasGood(w.keccak, h)
    ensures Balances(w, dir, wanted)
  {
    hide Exposed, Fetches, Objects;
    var lost := Cleared(w, dir, Fetched(w, dir, wanted - Objects(dir)));
    forall h ensures h !in lost {
      if h in lost { ClearedAreExposed(w, dir, wanted, h); }
    }
    assert lost == {};
    CountsBalanceIff(w, dir, wanted);
  }

  // ---- Did nothing change because nothing had to? ----

  /** A sync that reports no change left the directory's objects as they were; disk and
      branch agreed if and only if no download failed and no unlink failed: that is,
      the report ignores no more than the listing's own misfits and counts as many
      objects as are wanted. */
  lemma NothingChangedIff(r: Outcome, entries: seq<Entry>, w: World, start: Directory, end: Directory)
    requires Reports(r, entries, w, start, end) && Reconciled(w, start, WantedOf(Listed(entries)), end)
    requires r.nothingChanged
    ensures Objects(end) == Objects(start)
    ensures var wanted, before := WantedOf(Listed(entries)), Objects(start);
            var failedDownloads, failedUnlinks := |wanted - before| - r.added, |before - wanted| - r.removed;
            && (before == wanted <==> failedDownloads == 0 && failedUnlinks == 0)
            && (before == wanted <==>
                r.ignored == |entries| - |Listed(entries)| + Oversized(Listed(entries)) && r.objects == |wanted|)
  {
    hide Fetched, Unlinked, FinalObjects, EndsAs, Objects, Listed, WantedOf, Oversized;
    var wanted, before := WantedOf(Listed(entries)), Objects(start);
    NothingDone(w, start, wanted);
    SameSetIff(before, wanted);
  }

  lemma NothingDone(w: World, start: Directory, wanted: set<Hash>)
    requires |Fetched(w, start, wanted - Objects(start))| == 0 && |Unlinked(w, Objects(start) - wanted)| == 0
    ensures FinalObjects(w, start, wanted) == Objects(start)
  {
    hide Fetches, Objects;
    var fetched := Fetched(w, start, wanted - Objects(start));
    assert fetched == {} && Unlinked(w, Objects(start) - wanted) == {};
    assert Cleared(w, start, fetched) == {};
  }

  lemma SameSetIff(a: set<Hash>, b: set<Hash>)
    ensures a == b <==> |b - a| == 0 && |a - b| == 0
    ensures a == b <==> |b - a| == 0 && |a| == |b|
  {
    if |b - a| == 0 {
      forall x | x in b ensures x in a {
        assert x in a || x in b - a;
      }
      assert a == b + (a - b);
      if |a - b| == 0 { assert a - b == {}; }
    }
  }

  /** Every download fails; removals work. */
  function NoDownloads(keccak: Keccak): World {
    World(keccak, (h: Hash) => NoBody, (h: Hash) => Lands, (h: Hash) => true, (p: Place) => true)
  }

  lemma NoDownloadsLeave(keccak: Keccak, dir: Directory, wanted: set<Hash>)
    ensures Fetched(NoDownloads(keccak), dir, wanted - Objects(dir)) == {}
    ensures Unlinked(NoDownloads(keccak), Objects(dir) - wanted) == Objects(dir) - wanted
    ensures FinalObjects(NoDownloads(keccak), dir, wanted) == Objects(dir) * wanted
  {
    hide Objects;
  }

  /** One object listed, and all I/O but the downloads working. */
  ghost predicate OneMissing(keccak: Keccak, head: string, h: Hash, size: nat, r: Outcome, end: Directory)
    requires IsHash(h)
  {
    Reconciles(Some(head), Some(TreeDoc([Entry(ObjectPath(h), "blob", size)], false)), true, true,
               NoDownloads(keccak), map[], r, end)
  }

  /** An empty directory, a branch with one object, and a download that fails: every
      such sync reports no change, and disk and branch differ. */
  lemma UnchangedThoughMissing(keccak: Keccak, head: string, h: Hash, size: nat)
    requires IsLowerHex(head, 40) && IsHash(h) && size <= MAX_OBJECT_BYTES
    ensures WantedOf(Listed([Entry(ObjectPath(h), "blob", size)])) == {h}
    ensures forall r, end :: OneMissing(keccak, head, h, size, r, end) ==>
              r.Synced? && r.nothingChanged && Objects(end) == {}
  {
    OneListed(h, size);
    var dir: Directory := map[];
    assert Objects(dir) == {};
    hide Objects, Listed, WantedOf, Fetches, Fetched, Unlinked, FinalObjects, IsLowerHex;
    NoDownloadsLeave(keccak, dir, {h});
    assert {h} - {} == {h};
  }

  lemma OneListed(h: Hash, size: nat)
    requires IsHash(h) && size <= MAX_OBJECT_BYTES
    ensures WantedOf(Listed([Entry(ObjectPath(h), "blob", size)])) == {h}
  {
    var entries := [Entry(ObjectPath(h), "blob", size)];
    ParseObjectPathIff(ObjectPath(h), h);
    assert entries[..0] == [];
    assert Listed(entries) == [(h, size)];
    assert (h, size) in Listed(entries);
  }

  // ---- Is what we have kept when fetching fails? ----

  /** A sync whose downloads did not all succeed still serves everything it did before. */
  ghost predicate KeepsOldWhenFetchingFails(w: World, dir: Directory, wanted: set<Hash>) {
    var before := Objects(dir);
    Fetched(w, dir, wanted - before) != wanted - before ==> before <= FinalObjects(w, dir, wanted)
  }

  /** The promise holds in every world if and only if there was nothing to fetch or
      nothing to drop. */
  lemma KeepsOldIff(keccak: Keccak, dir: Directory, wanted: set<Hash>)
    ensures (forall w: World :: w.keccak == keccak ==> KeepsOldWhenFetchingFails(w, dir, wanted)) <==>
            wanted <= Objects(dir) || Objects(dir) <= wanted
  {
    hide Objects, Fetches;
    var before := Objects(dir);
    if wanted <= before {
      forall w: World ensures KeepsOldWhenFetchingFails(w, dir, wanted) {
        assert wanted - before == {} && Fetched(w, dir, {}) == {};
      }
    } else if before <= wanted {
      forall w: World ensures KeepsOldWhenFetchingFails(w, dir, wanted) {
        assert before * wanted == before;
      }
    } else {
      NoDownloadsLeave(keccak, dir, wanted);
      var h, g :| h in wanted && h !in before && g in before && g !in wanted;
      assert h in wanted - before && g !in before * wanted;
      assert !KeepsOldWhenFetchingFails(NoDownloads(keccak), dir, wanted);
    }
  }

  ghost predicate Shrinks(w: World, dir: Directory, wanted: set<Hash>) { !(Objects(dir) <= FinalObjects(w, dir, wanted)) }

  /** A sync stops serving something in some world if and only if the branch no longer
      holds all that is on disk. */
  lemma ShrinksIff(keccak: Keccak, dir: Directory, wanted: set<Hash>)
    ensures (exists w: World :: w.keccak == keccak && Shrinks(w, dir, wanted)) <==> !(Objects(dir) <= wanted)
  {
    hide Objects, Fetches;
    var before := Objects(dir);
    if before <= wanted {
      assert before * wanted == before;
    } else {
      NoDownloadsLeave(keccak, dir, wanted);
      var g :| g in before && g !in wanted;
      assert g !in before * wanted;
      assert Shrinks(NoDownloads(keccak), dir, wanted);
    }
  }

  // ---- Does a failed sync leave everything in place? ----

  /** A sync that ends in an error still serves everything it did before. */
  ghost predicate FailureKeeps(head: Option<string>, doc: Option<TreeDoc>, readable: bool, rereadable: bool,
                               w: World, start: Directory)
  {
    forall r, end :: Reconciles(head, doc, readable, rereadable, w, start, r, end) && r.SyncFailed? ==>
      Objects(start) <= Objects(end)
  }

  /** What the sync leaves when every download fails and every removal works. */
  ghost function OnlyRemovals(keccak: Keccak, start: Directory, wanted: set<Hash>): Directory {
    var w := NoDownloads(keccak);
    WithoutStrays(w, Pruned(w, start, Objects(start) - wanted), Junk(start))
  }

  lemma RemovalsReconcile(keccak: Keccak, start: Directory, wanted: set<Hash>)
    ensures Reconciled(NoDownloads(keccak), start, wanted, OnlyRemovals(keccak, start, wanted))
    ensures Objects(OnlyRemovals(keccak, start, wanted)) == Objects(start) * wanted
  {
    hide Objects, Junk, WithoutStrays, Pruned;
    var w := NoDownloads(keccak);
    assert AfterFetches(w, start, start, wanted - Objects(start));
    Finally(w, start, start, wanted);
    NoDownloadsLeave(keccak, start, wanted);
  }

  /** For every directory, branch and failure pattern: a sync that ends in an error keeps
      every object, in every world, if and only if it was refused, or the directory can be
      read again (and then it does not fail), or the branch still holds all that is on disk. */
  lemma FailureKeepsIff(keccak: Keccak, head: Option<string>, doc: Option<TreeDoc>, readable: bool, rereadable: bool,
                        start: Directory)
    ensures (forall w: World :: w.keccak == keccak ==> FailureKeeps(head, doc, readable, rereadable, w, start)) <==>
            Refused(head, doc, readable) || rereadable || Objects(start) <= WantedOf(Listed(doc.value.entries))
  {
    hide Objects, Listed, WantedOf, Fetches, NoDownloads;
    if Refused(head, doc, readable) || rereadable {
    } else {
      var wanted := WantedOf(Listed(doc.value.entries));
      if Objects(start) <= wanted {
        assert Objects(start) * wanted == Objects(start);
      } else {
        FailureDrops(keccak, head, doc, readable, start);
      }
    }
  }

  lemma FailureDrops(keccak: Keccak, head: Option<string>, doc: Option<TreeDoc>, readable: bool, start: Directory)
    requires !Refused(head, doc, readable) && !(Objects(start) <= WantedOf(Listed(doc.value.entries)))
    ensures !FailureKeeps(head, doc, readable, false, NoDownloads(keccak), start)
    ensures NoDownloads(keccak).keccak == keccak
  {
    var wanted := WantedOf(Listed(doc.value.entries));
    var end := OnlyRemovals(keccak, start, wanted);
    hide Objects, Listed, WantedOf, Reconciled, OnlyRemovals;
    RemovalsReconcile(keccak, start, wanted);
    assert Reconciles(head, doc, readable, false, NoDownloads(keccak), start, SyncFailed, end);
  }

  /** An emptied branch, and a directory that cannot be read again: everything goes, and
      the sync reports a failure. */
  lemma FailureEmpties(keccak: Keccak, head: string, start: Directory)
    requires IsLowerHex(head, 40)
    ensures exists end ::
              && Reconciles(Some(head), Some(TreeDoc([], false)), true, false, NoDownloads(keccak), start, SyncFailed, end)
              && Objects(end) == {}
  {
    var end := OnlyRemovals(keccak, start, {});
    assert WantedOf(Listed([])) == {};
    hide Objects, Listed, WantedOf, Reconciled, OnlyRemovals;
    RemovalsReconcile(keccak, start, {});
    assert Objects(start) * {} == {};
    assert Reconciles(Some(head), Some(TreeDoc([], false)), true, false, NoDownloads(keccak), start, SyncFailed, end);
  }
}
