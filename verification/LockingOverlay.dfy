/** Storage with locking: when the real lock is held elsewhere, writes go to an
    in-memory overlay in which None marks a deleted key. */
module LockingOverlay {
  import opened Bytes
  import opened KeyMangling
  import opened Listings
  import opened FS = FilesystemStorage

  type Overlay = map<Key, Option<Value>>

  /** The map a reader sees: the overlay's entries win, its tombstones hide. */
  function Overridden(base: map<Key, Value>, overlay: Overlay): map<Key, Value> {
    map k | k in base.Keys + overlay.Keys && (k in overlay ==> overlay[k].Some?) ::
      if k in overlay then overlay[k].value else base[k]
  }

  /** The same, for the keys a listing shows. */
  function ListedOver(listed: set<Key>, overlay: Overlay): set<Key> {
    set k | k in listed + overlay.Keys && (k in overlay ==> overlay[k].Some?)
  }

  /** One more overlay entry is one more write, or one more delete. */
  lemma OverlayEntry(base: map<Key, Value>, overlay: Overlay, key: Key, entry: Option<Value>)
    ensures Overridden(base, overlay[key := entry]) ==
            if entry.Some? then Overridden(base, overlay)[key := entry.value]
            else Overridden(base, overlay) - {key}
  {
    var after := Overridden(base, overlay[key := entry]);
    var expected := if entry.Some? then Overridden(base, overlay)[key := entry.value]
                    else Overridden(base, overlay) - {key};
    forall k ensures k in after <==> k in expected
             ensures k in after ==> after[k] == expected[k]
    {
    }
  }

  /** get, keys and getAll agree under a prefix exactly when every listed name there
      whose key the overlay does not decide has that key's own file. */
  lemma OverlayAgreesIff(files: Directory, overlay: Overlay, prefix: Key)
    ensures (forall k :: StartsWith(k, prefix) ==>
               (k in ListedOver(Listed(files), overlay) <==> k in Overridden(Decoded(files), overlay))) <==>
            (forall name :: name in files && StartsWith(Unmangle(name), prefix) && Unmangle(name) !in overlay ==>
               Mangle(Unmangle(name)) in files)
  {
    hide Mangle, Unmangle, Decoded;
    forall k ensures k in Decoded(files) <==> Mangle(k) in files
             ensures k in Decoded(files) ==> k in Listed(files) {
      DecodedAt(files, k);
    }
    if forall k :: StartsWith(k, prefix) ==>
         (k in ListedOver(Listed(files), overlay) <==> k in Overridden(Decoded(files), overlay)) {
      forall name | name in files && StartsWith(Unmangle(name), prefix) && Unmangle(name) !in overlay
        ensures Mangle(Unmangle(name)) in files {
        assert Unmangle(name) in ListedOver(Listed(files), overlay);
      }
    }
  }

  /** The overlay entries that a loop has merged so far. */
  ghost function Merged(overlay: Overlay, left: set<Key>): Overlay {
    map k | k in overlay && k !in left :: overlay[k]
  }

  lemma MergeOne(base: map<Key, Value>, overlay: Overlay, left: set<Key>, k: Key, prefix: Key)
    requires k in left && k in overlay
    ensures Under(Overridden(base, Merged(overlay, left - {k})), prefix) ==
            var sofar := Under(Overridden(base, Merged(overlay, left)), prefix);
            if !StartsWith(k, prefix) then sofar
            else if overlay[k].Some? then sofar[k := overlay[k].value] else sofar - {k}
  {
    assert Merged(overlay, left - {k}) == Merged(overlay, left)[k := overlay[k]];
    OverlayEntry(base, Merged(overlay, left), k, overlay[k]);
  }

  /** new Map(entries). */
  method ToMap(entries: seq<(Key, Value)>, ghost m: map<Key, Value>) returns (r: map<Key, Value>)
    requires IsEntries(entries, m)
    ensures r == m
  {
    r := map[];
    for i := 0 to |entries|
      invariant forall k :: k in r <==> exists j :: 0 <= j < i && entries[j].0 == k
      invariant forall k :: k in r ==> k in m && r[k] == m[k]
    {
      assert entries[i] in entries;
      r := r[entries[i].0 := entries[i].1];
    }
    forall k | k in m ensures k in r {
      assert (k, m[k]) in entries;
    }
  }

  /** [...map.entries()]: each key once. */
  method ToEntries(m: map<Key, Value>) returns (r: seq<(Key, Value)>)
    ensures IsEntries(r, m)
    ensures forall i, j :: 0 <= i < j < |r| ==> r[i].0 != r[j].0
  {
    r := [];
    var left := m.Keys;
    while left != {}
      invariant left <= m.Keys
      invariant forall e :: e in r <==> e.0 in m && e.0 !in left && e.1 == m[e.0]
      invariant forall i, j :: 0 <= i < j < |r| ==> r[i].0 != r[j].0
      decreases left
    {
      var k :| k in left;
      assert forall i :: 0 <= i < |r| ==> r[i] in r && r[i].0 != k;
      r := r + [(k, m[k])];
      left := left - {k};
    }
  }

  /** The merging loop of getAll. */
  method MergeEntries(ghost base: map<Key, Value>, start: map<Key, Value>, overlay: Overlay, prefix: Key)
    returns (r: map<Key, Value>)
    requires start == Under(base, prefix)
    ensures r == Under(Overridden(base, overlay), prefix)
  {
    r := start;
    var left := overlay.Keys;
    assert Overridden(base, Merged(overlay, left)) == base;
    while left != {}
      invariant left <= overlay.Keys
      invariant r == Under(Overridden(base, Merged(overlay, left)), prefix)
      decreases left
    {
      hide Under, Overridden, Merged;
      var k :| k in left;
      MergeOne(base, overlay, left, k, prefix);
      if StartsWith(k, prefix) {
        if overlay[k].Some? {
          r := r[k := overlay[k].value];
        } else {
          r := r - {k};
        }
      }
      left := left - {k};
    }
    assert Merged(overlay, left) == overlay;
  }

  /** The merging loop of keys. */
  method MergeKeys(ghost listed: set<Key>, start: set<Key>, overlay: Overlay, prefix: Key) returns (r: set<Key>)
    requires start == set k | k in listed && StartsWith(k, prefix)
    ensures r == set k | k in ListedOver(listed, overlay) && StartsWith(k, prefix)
  {
    r := start;
    var left := overlay.Keys;
    while left != {}
      invariant left <= overlay.Keys
      invariant forall k :: k in r <==>
        StartsWith(k, prefix) && if k in overlay && k !in left then overlay[k].Some? else k in listed
      decreases left
    {
      var k :| k in left;
      if StartsWith(k, prefix) {
        r := if overlay[k].Some? then r + {k} else r - {k};
      }
      left := left - {k};
    }
  }

  class LockedStorage {
    const inner: FS.FilesystemStorage
    /** Whether the lock is a file in the storage's own directory. */
    const lockOnDisk: bool
    var hasRealLock: bool
    var lockPath: bool
    var overlay: Option<Overlay>

    constructor (inner: FS.FilesystemStorage, lockOnDisk: bool)
      ensures this.inner == inner && this.lockOnDisk == lockOnDisk
      ensures !hasRealLock && !lockPath && overlay == None
    {
      this.inner, this.lockOnDisk := inner, lockOnDisk;
      hasRealLock, lockPath, overlay := false, false, None;
    }

    ghost predicate Valid()
      reads this, inner
    {
      inner.Valid() && (hasRealLock ==> overlay.None?) && lockPath == (hasRealLock && lockOnDisk)
    }

    /** What reads see. */
    ghost function Contents(): map<Key, Value>
      reads this, inner
    {
      match overlay
      case None => inner.Contents()
      case Some(o) => Overridden(inner.Contents(), o)
    }

    /** What listings show. */
    ghost function Shown(): set<Key>
      reads this, inner
    {
      match overlay
      case None => Listed(inner.files)
      case Some(o) => ListedOver(Listed(inner.files), o)
    }

    /** Only a read that reaches the directory can fail, on the empty key. */
    method Get(key: Key) returns (r: Result<Option<Value>>)
      requires Valid()
      ensures r == if key == [] && !(overlay.Some? && key in overlay.value) then IsDirectory
                   else Ok(Lookup(Contents(), key))
    {
      if overlay.Some? && key in overlay.value {
        return Ok(overlay.value[key]);
      }
      r := inner.Get(key);
    }

    /** A write is visible at once; in degraded mode it never reaches the disk. */
    method Set(key: Key, value: Value) returns (ok: bool)
      requires Valid()
      modifies this, inner
      ensures Valid() && (ok <==> key != [] || old(overlay).Some?)
      ensures Contents() == if ok then old(Contents())[key := value] else old(Contents())
      ensures old(overlay).Some? ==> overlay.Some? && inner.files == old(inner.files)
      ensures hasRealLock == old(hasRealLock)
    {
      if overlay.Some? {
        OverlayEntry(inner.Contents(), overlay.value, key, Some(value));
        overlay := Some(overlay.value[key := Some(value)]);
        return true;
      }
      ok := inner.Set(key, value);
    }

    method Delete(key: Key) returns (ok: bool)
      requires Valid()
      modifies this, inner
      ensures Valid() && (ok <==> key != [] || old(overlay).Some?)
      ensures Contents() == if ok then old(Contents()) - {key} else old(Contents())
      ensures old(overlay).Some? ==> overlay.Some? && inner.files == old(inner.files)
      ensures hasRealLock == old(hasRealLock)
    {
      if overlay.Some? {
        OverlayEntry(inner.Contents(), overlay.value, key, None);
        overlay := Some(overlay.value[key := None]);
        return true;
      }
      ok := inner.Delete(key);
    }

    /** The sorted keys with a prefix: those a listing shows, each once in degraded mode. */
    method Keys(prefix: Key) returns (r: seq<Key>)
      requires Valid()
      ensures Sorted(r) && forall k :: k in r <==> k in Shown() && StartsWith(k, prefix)
      ensures overlay.Some? ==> IsListing(r, set k | k in Shown() && StartsWith(k, prefix))
    {
      var base := inner.Keys(prefix);
      forall k ensures k in base <==> k in Listed(inner.files) && StartsWith(k, prefix) {
        ListedMembers(base, inner.files, prefix, k);
      }
      if overlay.None? {
        return base;
      }
      var result := MergeKeys(Listed(inner.files), (set k | k in base), overlay.value, prefix);
      r := ListKeys(result);
    }

    /** The entries with a prefix, of the map that reads see. */
    method GetAll(prefix: Key) returns (r: seq<(Key, Value)>)
      requires Valid()
      ensures IsEntries(r, Under(Contents(), prefix))
    {
      r := inner.GetAll(prefix);
      if overlay.None? {
        return;
      }
      var base := ToMap(r, Under(inner.Contents(), prefix));
      var merged := MergeEntries(inner.Contents(), base, overlay.value, prefix);
      r := ToEntries(merged);
    }

    /** tryLock: false only for the holder of the real lock. Getting the lock ends
        degraded mode and drops its writes; not getting it keeps them. A lock on
        disk is a file beside the stored ones: reads do not change, listings do. */
    method TryLock(acquired: bool, pid: Value) returns (locked: bool)
      requires Valid()
      modifies this, inner
      ensures Valid() && locked == !old(hasRealLock) && hasRealLock == (old(hasRealLock) || acquired)
      ensures inner.files == if locked && acquired && lockOnDisk then old(inner.files)[LOCK := pid] else old(inner.files)
      ensures inner.Contents() == old(inner.Contents())
      ensures locked && !acquired ==> overlay.Some? && Contents() == old(Contents())
      ensures locked && acquired ==> overlay.None? && Contents() == inner.Contents()
      ensures !locked ==> Contents() == old(Contents())
    {
      if hasRealLock {
        return false;
      }
      LockFileShows(inner.files, pid);
      assert LOCK != [];
      if acquired && lockOnDisk {
        inner.files := inner.files[LOCK := pid];
        lockPath := true;
      }
      hasRealLock := acquired;
      if acquired {
        overlay := None;
      } else if overlay.None? {
        overlay := Some(map[]);
        assert Overridden(inner.Contents(), map[]) == inner.Contents();
      }
      return true;
    }

    /** unlock: back to the shared storage, whatever the mode was; the holder's
        lock file goes. */
    method Unlock()
      requires Valid()
      modifies this, inner
      ensures Valid() && !hasRealLock && overlay.None?
      ensures inner.files == if old(hasRealLock) && lockOnDisk then old(inner.files) - {LOCK} else old(inner.files)
      ensures Contents() == inner.Contents() == old(inner.Contents())
    {
      LockFileGoes(inner.files);
      if lockPath {
        inner.files := inner.files - {LOCK};
        lockPath := false;
      }
      hasRealLock := false;
      overlay := None;
    }
  }
}
