/** Key-value storage with one file per key, in a directory where other files
    may lie as well. */
module FilesystemStorage {
  import opened Bytes
  import opened KeyMangling
  import opened Listings

  type Value = string

  /** The files of the directory: name to content. */
  type Directory = map<Key, Value>

  /** The error of reading, writing or unlinking the directory itself. */
  datatype Result<+T> = Ok(value: T) | IsDirectory

  function Lookup(m: map<Key, Value>, key: Key): Option<Value> { if key in m then Some(m[key]) else None }

  // ---- What a directory holds ----

  /** What reads find: the keys whose file is there. */
  ghost function Decoded(files: Directory): map<Key, Value> {
    map key | key in (set name | name in files :: Unmangle(name)) && Mangle(key) in files :: files[Mangle(key)]
  }

  /** The file names that a listing shows as a key. */
  ghost function NamesOf(names: set<Key>, key: Key): set<Key> { set name | name in names && Unmangle(name) == key }

  /** What listings show: every name, decoded. */
  ghost function Listed(files: Directory): set<Key> { set name | name in files :: Unmangle(name) }

  lemma DecodedAt(files: Directory, key: Key)
    ensures key in Decoded(files) <==> Mangle(key) in files
    ensures key in Decoded(files) ==> key in Listed(files) && Decoded(files)[key] == files[Mangle(key)]
  {
    RoundTrip(key);
  }

  /** Writing the mangled file is writing the key, and nothing else. */
  lemma WritingAFile(files: Directory, key: Key, value: Value)
    ensures Decoded(files[Mangle(key) := value]) == Decoded(files)[key := value]
    ensures Listed(files[Mangle(key) := value]) == Listed(files) + {key}
  {
    hide Mangle, Unmangle, Decoded;
    RoundTrip(key);
    var after := files[Mangle(key) := value];
    forall k ensures k in Decoded(after) <==> k in Decoded(files)[key := value]
             ensures k in Decoded(after) ==> Decoded(after)[k] == Decoded(files)[key := value][k]
    {
      DecodedAt(files, k);
      DecodedAt(after, k);
      MangleIsInjective(k, key);
    }
  }

  /** Unlinking the mangled file removes the key, and nothing else. */
  lemma UnlinkingAFile(files: Directory, key: Key)
    ensures Decoded(files - {Mangle(key)}) == Decoded(files) - {key}
  {
    hide Mangle, Unmangle, Decoded;
    var after := files - {Mangle(key)};
    forall k ensures k in Decoded(after) <==> k in Decoded(files) && k != key
             ensures k in Decoded(after) ==> Decoded(after)[k] == Decoded(files)[k]
    {
      DecodedAt(files, k);
      DecodedAt(after, k);
      MangleIsInjective(k, key);
    }
  }

  /** Only the empty name decodes to the empty key, and no file has it. */
  lemma DecodedIsNotEmpty(name: Key)
    ensures Unmangle(name) == [] <==> name == []
  {
  }

  // ---- When listings and reads agree ----

  ghost predicate Agree(files: Directory, prefix: Key) {
    forall key :: StartsWith(key, prefix) ==> (key in Listed(files) <==> key in Decoded(files))
  }

  /** Every listed key can be read exactly when each listed name's key has its own file. */
  lemma AgreeIff(files: Directory, prefix: Key)
    ensures Agree(files, prefix) <==>
            forall name :: name in files && StartsWith(Unmangle(name), prefix) ==> Mangle(Unmangle(name)) in files
  {
    hide Mangle, Unmangle, Decoded;
    forall key ensures key in Decoded(files) <==> Mangle(key) in files
               ensures key in Decoded(files) ==> key in Listed(files) {
      DecodedAt(files, key);
    }
    if Agree(files, prefix) {
      forall name | name in files && StartsWith(Unmangle(name), prefix) ensures Mangle(Unmangle(name)) in files {
        assert Unmangle(name) in Listed(files);
      }
    }
  }

  ghost predicate ListedOnce(files: Directory, prefix: Key) {
    forall key :: StartsWith(key, prefix) ==> |NamesOf(files.Keys, key)| == (if key in Decoded(files) then 1 else 0)
  }

  /** A listing is the plain map's own, each key once, exactly when every name under
      the prefix is the encoding of its key. */
  lemma ListedOnceIff(files: Directory, prefix: Key)
    ensures ListedOnce(files, prefix) <==>
            forall name :: name in files && StartsWith(Unmangle(name), prefix) ==> Mangle(Unmangle(name)) == name
  {
    hide Mangle, Unmangle, Decoded;
    forall key ensures key in Decoded(files) <==> Mangle(key) in files
               ensures Unmangle(Mangle(key)) == key {
      DecodedAt(files, key);
      RoundTrip(key);
    }
    if ListedOnce(files, prefix) {
      forall name | name in files && StartsWith(Unmangle(name), prefix) ensures Mangle(Unmangle(name)) == name {
        var key := Unmangle(name);
        assert name in NamesOf(files.Keys, key);
        if Mangle(key) != name {
          TwoMembers(NamesOf(files.Keys, key), name, Mangle(key));
        }
      }
    }
    if forall name :: name in files && StartsWith(Unmangle(name), prefix) ==> Mangle(Unmangle(name)) == name {
      forall key | StartsWith(key, prefix) ensures |NamesOf(files.Keys, key)| == (if key in Decoded(files) then 1 else 0) {
        assert NamesOf(files.Keys, key) == if Mangle(key) in files then {Mangle(key)} else {};
      }
    }
  }

  /** Writes and removals of keys keep it so: a directory that only this storage
      uses is listed like the plain map at all times. */
  lemma WritesKeepListedOnce(files: Directory, key: Key, value: Value, prefix: Key)
    requires ListedOnce(files, prefix)
    ensures ListedOnce(files[Mangle(key) := value], prefix) && ListedOnce(files - {Mangle(key)}, prefix)
  {
    hide Mangle, Unmangle, ListedOnce;
    RoundTrip(key);
    ListedOnceIff(files, prefix);
    ListedOnceIff(files[Mangle(key) := value], prefix);
    ListedOnceIff(files - {Mangle(key)}, prefix);
  }

  lemma TwoMembers<T>(s: set<T>, a: T, b: T)
    requires a != b && a in s
    ensures |s| == 1 ==> b !in s
    ensures |s| >= 1
  {
    assert s == {a} + (s - {a});
    if b in s {
      assert b in s - {a};
    }
  }

  // ---- The lock file in the same directory ----

  /** ".lock" */
  const LOCK: Key := [46, 108, 111, 99, 107]

  /** No key is stored in the lock file, and it decodes to its own name. */
  lemma LockIsNoKey(key: Key)
    ensures Mangle(key) != LOCK && Unmangle(LOCK) == LOCK
  {
    MangledIsSafe(key);
    assert !IsAlnum(LOCK[0]) && LOCK[0] != UNDERSCORE;
    NoEscapes(LOCK);
  }

  /** A name without underscores stands for itself. */
  lemma NoEscapes(name: Key)
    requires UNDERSCORE !in name
    ensures Unmangle(name) == name
  {
    NoEscapesFrom(name, 0);
  }

  lemma {:induction false} NoEscapesFrom(name: Key, i: nat)
    requires i <= |name| && UNDERSCORE !in name
    ensures UnmangleFrom(name, i) == name[i..]
    decreases |name| - i
  {
    if i < |name| {
      assert name[i] in name;
      NoEscapesFrom(name, i + 1);
    }
  }

  /** The lock file changes no read, and shows up in listings as a key of its own. */
  lemma LockFileShows(files: Directory, value: Value)
    ensures Decoded(files[LOCK := value]) == Decoded(files)
    ensures Listed(files[LOCK := value]) == Listed(files) + {LOCK}
  {
    hide Mangle, Unmangle, Decoded;
    LockIsNoKey([]);
    var after := files[LOCK := value];
    forall k ensures k in Decoded(after) <==> k in Decoded(files)
             ensures k in Decoded(after) ==> Decoded(after)[k] == Decoded(files)[k]
    {
      DecodedAt(files, k);
      DecodedAt(after, k);
      LockIsNoKey(k);
    }
  }

  lemma LockFileGoes(files: Directory)
    ensures Decoded(files - {LOCK}) == Decoded(files)
  {
    hide Mangle, Unmangle, Decoded;
    forall k ensures k in Decoded(files - {LOCK}) <==> k in Decoded(files)
             ensures k in Decoded(files) ==> Decoded(files - {LOCK})[k] == Decoded(files)[k]
    {
      DecodedAt(files, k);
      DecodedAt(files - {LOCK}, k);
      LockIsNoKey(k);
    }
  }

  /** With the lock held, an otherwise agreeing directory disagrees exactly on the
      prefixes of the lock file's name, unless that name is also a stored key. */
  lemma LockDisturbsIff(files: Directory, value: Value, prefix: Key)
    requires Agree(files, prefix)
    ensures Agree(files[LOCK := value], prefix) <==> !StartsWith(LOCK, prefix) || LOCK in Decoded(files)
  {
    hide Mangle, Unmangle, Decoded;
    LockFileShows(files, value);
    DecodedAt(files, LOCK);
  }

  /** The directory of a process that holds the lock and has stored nothing:
      ".lock" is listed, but cannot be read. */
  lemma LockIsListedUnread(value: Value)
    ensures Listed(map[LOCK := value]) == {LOCK} && Decoded(map[LOCK := value]) == map[]
    ensures !Agree(map[LOCK := value], [])
  {
    LockFileShows(map[], value);
    assert Decoded(map[]) == map[] && map[][LOCK := value] == map[LOCK := value];
    assert LOCK in Listed(map[LOCK := value]) && StartsWith(LOCK, []);
  }

  // ---- The storage ----

  class FilesystemStorage {
    var files: Directory

    constructor (files: Directory)
      requires [] !in files
      ensures Valid() && this.files == files
    {
      this.files := files;
    }

    /** File names are not empty. */
    ghost predicate Valid()
      reads this
    {
      [] !in files
    }

    /** The plain map that reads see. */
    ghost function Contents(): map<Key, Value>
      reads this
    {
      Decoded(files)
    }

    /** The empty key names the directory itself. */
    method Get(key: Key) returns (r: Result<Option<Value>>)
      requires Valid()
      ensures r == if key == [] then IsDirectory else Ok(Lookup(Contents(), key))
    {
      DecodedAt(files, key);
      DecodedIsNotEmpty(Mangle(key));
      RoundTrip(key);
      var name := MangleKey(key);
      if name == [] {
        return IsDirectory;
      }
      r := Ok(if name in files then Some(files[name]) else None);
    }

    method Set(key: Key, value: Value) returns (ok: bool)
      requires Valid()
      modifies this
      ensures Valid() && (ok <==> key != [])
      ensures ok ==> Contents() == old(Contents())[key := value] && Listed(files) == old(Listed(files)) + {key}
      ensures !ok ==> files == old(files)
    {
      WritingAFile(files, key, value);
      DecodedIsNotEmpty(Mangle(key));
      RoundTrip(key);
      var name := MangleKey(key);
      if name == [] {
        return false;
      }
      files := files[name := value];
      return true;
    }

    method Delete(key: Key) returns (ok: bool)
      requires Valid()
      modifies this
      ensures Valid() && (ok <==> key != [])
      ensures ok ==> Contents() == old(Contents()) - {key}
      ensures files == if ok then old(files) - {Mangle(key)} else old(files)
    {
      UnlinkingAFile(files, key);
      DecodedIsNotEmpty(Mangle(key));
      RoundTrip(key);
      var name := MangleKey(key);
      if name == [] {
        return false;
      }
      files := files - {name};
      return true;
    }

    /** The decoded names with a prefix, in the directory's order. */
    method ListNames(prefix: Key) returns (r: seq<Key>)
      requires Valid()
      ensures forall k :: multiset(r)[k] == if StartsWith(k, prefix) then |NamesOf(files.Keys, k)| else 0
    {
      r := [];
      var left := files.Keys;
      ghost var done: set<Key> := {};
      while left != {}
        invariant left <= files.Keys && done == files.Keys - left
        invariant forall k :: multiset(r)[k] == if StartsWith(k, prefix) then |NamesOf(done, k)| else 0
        decreases left
      {
        hide Unmangle;
        var name :| name in left;
        var key := UnmangleKey(name);
        forall k ensures |NamesOf(done + {name}, k)| == |NamesOf(done, k)| + (if k == key then 1 else 0) {
          OneMoreName(done, name, k);
        }
        if StartsWith(key, prefix) {
          r := r + [key];
        }
        left, done := left - {name}, done + {name};
      }
      assert done == files.Keys;
    }

    /** The keys with a prefix, sorted: one for every name in the directory. */
    method Keys(prefix: Key) returns (r: seq<Key>)
      requires Valid()
      ensures Sorted(r)
      ensures forall k :: multiset(r)[k] == if StartsWith(k, prefix) then |NamesOf(files.Keys, k)| else 0
    {
      var found := ListNames(prefix);
      r := SortKeys(found);
    }

    /** The listed keys that can be read, with their values. */
    method GetAll(prefix: Key) returns (r: seq<(Key, Value)>)
      requires Valid()
      ensures IsEntries(r, Under(Contents(), prefix))
    {
      var keys := ListNames(prefix);
      r := [];
      for i := 0 to |keys|
        invariant forall e :: e in r <==> e.0 in keys[..i] && e.0 in Contents() && e.1 == Contents()[e.0]
      {
        hide Decoded;
        assert keys[..i + 1] == keys[..i] + [keys[i]];
        ListedIsNotEmpty(keys, i, files, prefix);
        var value := Get(keys[i]);
        if value.value.Some? {
          r := r + [(keys[i], value.value.value)];
        }
      }
      assert keys[..|keys|] == keys;
      forall k ensures k in keys <==> k in Listed(files) && StartsWith(k, prefix) {
        ListedMembers(keys, files, prefix, k);
      }
      forall k ensures k in Contents() ==> k in Listed(files) { DecodedAt(files, k); }
    }
  }

  lemma OneMoreName(done: set<Key>, name: Key, k: Key)
    requires name !in done
    ensures |NamesOf(done + {name}, k)| == |NamesOf(done, k)| + (if k == Unmangle(name) then 1 else 0)
  {
    assert NamesOf(done + {name}, k) == NamesOf(done, k) + (if k == Unmangle(name) then {name} else {});
  }

  lemma ListedMembers(keys: seq<Key>, files: Directory, prefix: Key, k: Key)
    requires forall k :: multiset(keys)[k] == if StartsWith(k, prefix) then |NamesOf(files.Keys, k)| else 0
    ensures k in keys <==> k in Listed(files) && StartsWith(k, prefix)
  {
    assert k in keys <==> k in multiset(keys);
    if k in Listed(files) {
      var name :| name in files && Unmangle(name) == k;
      assert name in NamesOf(files.Keys, k);
    }
    if k in multiset(keys) {
      assert NamesOf(files.Keys, k) != {};
    }
  }

  lemma ListedIsNotEmpty(keys: seq<Key>, i: nat, files: Directory, prefix: Key)
    requires i < |keys| && [] !in files
    requires forall k :: multiset(keys)[k] == if StartsWith(k, prefix) then |NamesOf(files.Keys, k)| else 0
    ensures keys[i] != []
  {
    ListedMembers(keys, files, prefix, keys[i]);
    var name :| name in files && Unmangle(name) == keys[i];
    DecodedIsNotEmpty(name);
  }

  /** The entries whose keys have a prefix. */
  function Under(m: map<Key, Value>, prefix: Key): map<Key, Value> {
    map k | k in m && StartsWith(k, prefix) :: m[k]
  }

  /** A list of the map's entries, each at least once. */
  ghost predicate IsEntries(r: seq<(Key, Value)>, m: map<Key, Value>) {
    forall e :: e in r <==> e.0 in m && e.1 == m[e.0]
  }
}
