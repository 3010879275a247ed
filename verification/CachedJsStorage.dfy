/** Synchronous storage over an asynchronous JavaScript store. Every method is
    one step of the write-behind machine. */
module CachedJsStorage {
  import opened Bytes
  import opened WriteBehind

  /** The operations that a batch of entries stands for. */
  function Puts(entries: seq<(Key, Value)>): (ops: Task)
    ensures |ops| == |entries|
  {
    seq(|entries|, i requires 0 <= i < |entries| => Put(entries[i].0, entries[i].1))
  }

  function Min(a: nat, b: nat): nat { if a <= b then a else b }

  lemma ApplyOneMore(m: Store, ops: Task, i: nat)
    requires i < |ops|
    ensures ApplyAll(m, ops[..i + 1]) == Apply(ApplyAll(m, ops[..i]), ops[i])
  {
    assert ops[..i + 1] == ops[..i] + [ops[i]];
    ApplyAllSplit(m, ops[..i], [ops[i]]);
  }

  function KeysOf(ops: Task): set<Key> { set i | 0 <= i < |ops| :: ops[i].key }

  lemma {:induction false} LastWriteIsFinal(ops: Task, key: Key, i: nat)
    requires i < |ops| && ops[i].key == key && key !in KeysOf(ops[i + 1..])
    ensures Owes(ops, key) && FinalValue(ops, key) == match ops[i] case Put(_, v) => Some(v) case Remove(_) => None
  {
    var rest := ops[1..];
    if i == 0 {
      assert rest == ops[i + 1..];
      assert forall j :: 0 <= j < |rest| ==> rest[j].key in KeysOf(rest);
    } else {
      assert rest[i - 1] == ops[i] && rest[i..] == ops[i + 1..];
      LastWriteIsFinal(rest, key, i - 1);
    }
  }

  /** `now` is `before` with these entries over it, the last one of a key winning. */
  ghost predicate Overlays(now: Store, before: Store, entries: seq<(Key, Value)>) {
    forall k :: OverlaysAt(now, before, entries, k)
  }

  ghost predicate OverlaysAt(now: Store, before: Store, entries: seq<(Key, Value)>, k: Key) {
    && (forall i: nat :: IsLast(entries, i, k) ==> Lookup(now, k) == Some(entries[i].1))
    && ((forall i :: 0 <= i < |entries| ==> entries[i].0 != k) ==> Lookup(now, k) == Lookup(before, k))
  }

  predicate IsLast(entries: seq<(Key, Value)>, i: nat, k: Key) {
    i < |entries| && entries[i].0 == k && forall j :: i < j < |entries| ==> entries[j].0 != k
  }

  lemma OneMoreEntry(now: Store, before: Store, entries: seq<(Key, Value)>, n: nat)
    requires n < |entries| && Overlays(now, before, entries[..n])
    ensures Overlays(now[entries[n].0 := entries[n].1], before, entries[..n + 1])
  {
    var key, front, more := entries[n].0, entries[..n], entries[..n + 1];
    var later := now[key := entries[n].1];
    assert forall i :: 0 <= i < n ==> more[i] == front[i];
    forall k ensures OverlaysAt(later, before, more, k) {
      assert OverlaysAt(now, before, front, k);
      assert k != key ==> Lookup(later, k) == Lookup(now, k);
      forall i: nat | IsLast(more, i, k) ensures Lookup(later, k) == Some(more[i].1) {
        assert more[n] == entries[n];
        if i < n { assert IsLast(front, i, k); }
      }
    }
  }

  class CachedJsStorage {
    var cache: Store
    /** Local state of arti's lock protocol; the JavaScript lock is taken before. */
    var locked: bool
    /** The JavaScript store and the tasks spawned to write it. */
    var js: Store
    var queued: seq<Task>
    var started: seq<Task>
    /** What start-up read, and every operation asked for since, in order. */
    ghost const loaded: Store
    ghost var issued: Task

    ghost predicate Valid()
      reads this
    {
      cache == ApplyAll(Preload(loaded), issued)
    }

    /** Start-up: one bulk read for each of the two prefixes. */
    constructor (js: Store)
      ensures Snapshot() == Fresh(js) && locked
      ensures Valid() && loaded == js && issued == []
    {
      this.cache, this.locked, this.js, queued, started := map[], true, js, [], [];
      loaded, issued := js, [];
      new;
      assert ApplyAll(Preload(js), []) == Preload(js);
      hide ApplyAll;
      PreloadPrefix("state:");
      PreloadPrefix("dir:");
      assert cache == Preload(js);
    }

    function Snapshot(): State
      reads this
    {
      State(cache, js, queued, started)
    }

    method PreloadPrefix(prefix: Key)
      modifies this`cache
      ensures cache == old(cache) + map k | k in js && prefix <= k :: js[k]
    {
      var left := set k | k in js && prefix <= k;
      ghost var entries := map k | k in js && prefix <= k :: js[k];
      while left != {}
        invariant left <= entries.Keys
        invariant cache == old(cache) + map k | k in entries && k !in left :: entries[k]
        decreases left
      {
        var k :| k in left;
        cache := cache[k := js[k]];
        left := left - {k};
      }
      assert entries == map k | k in entries && k !in left :: entries[k];
    }

    /** The last write of the key, if there was one since start-up, and else what
        start-up read; the background tasks play no part. */
    method Get(key: Key) returns (r: Option<Value>)
      requires Valid()
      ensures r == if Owes(issued, key) then FinalValue(issued, key) else Lookup(Preload(loaded), key)
      ensures forall i :: 0 <= i < |issued| && issued[i].key == key && key !in KeysOf(issued[i + 1..]) ==>
                r == match issued[i] case Put(_, v) => Some(v) case Remove(_) => None
      // A key of arti's reads as the store had it until it is first written; others are not read.
      ensures (forall i :: 0 <= i < |issued| ==> issued[i].key != key) ==>
                r == if (key[..Min(6, |key|)] == "state:" || key[..Min(4, |key|)] == "dir:") && key in loaded
                     then Some(loaded[key]) else None
    {
      ApplyAllLookup(Preload(loaded), issued, key);
      forall i | 0 <= i < |issued| && issued[i].key == key && key !in KeysOf(issued[i + 1..])
        ensures Owes(issued, key) && FinalValue(issued, key) == match issued[i] case Put(_, v) => Some(v) case Remove(_) => None
      {
        LastWriteIsFinal(issued, key, i);
      }
      r := if key in cache then Some(cache[key]) else None;
    }

    method Set(key: Key, value: Value)
      requires Valid()
      modifies this`cache, this`queued, this`issued
      ensures Valid() && issued == old(issued) + [Put(key, value)]
      ensures Snapshot() == Step(old(Snapshot()), Write([Put(key, value)]))
      ensures cache == old(cache)[key := value] && queued == old(queued) + [[Put(key, value)]]
    {
      ApplyOneMore(cache, [Put(key, value)], 0);
      assert [Put(key, value)][..1] == [Put(key, value)];
      ApplyAllSplit(Preload(loaded), issued, [Put(key, value)]);
      issued := issued + [Put(key, value)];
      cache := cache[key := value];
      queued := queued + [[Put(key, value)]];
    }

    method Delete(key: Key)
      requires Valid()
      modifies this`cache, this`queued, this`issued
      ensures Valid() && issued == old(issued) + [Remove(key)]
      ensures Snapshot() == Step(old(Snapshot()), Write([Remove(key)]))
      ensures cache == old(cache) - {key} && queued == old(queued) + [[Remove(key)]]
    {
      ApplyOneMore(cache, [Remove(key)], 0);
      assert [Remove(key)][..1] == [Remove(key)];
      ApplyAllSplit(Preload(loaded), issued, [Remove(key)]);
      issued := issued + [Remove(key)];
      cache := cache - {key};
      queued := queued + [[Remove(key)]];
    }

    /** All entries enter the cache at once; one task persists them one by one. */
    method SetMany(entries: seq<(Key, Value)>)
      requires Valid()
      modifies this`cache, this`queued, this`issued
      ensures Valid() && issued == old(issued) + Puts(entries)
      ensures Snapshot() == Step(old(Snapshot()), Write(Puts(entries)))
      ensures Overlays(cache, old(cache), entries)
    {
      ghost var ops := Puts(entries);
      for i := 0 to |entries|
        invariant cache == ApplyAll(old(cache), ops[..i]) && queued == old(queued) && issued == old(issued)
        invariant Overlays(cache, old(cache), entries[..i])
      {
        ApplyOneMore(old(cache), ops, i);
        OneMoreEntry(cache, old(cache), entries, i);
        cache := cache[entries[i].0 := entries[i].1];
      }
      assert ops[..|entries|] == ops && entries[..|entries|] == entries;
      ApplyAllSplit(Preload(loaded), issued, ops);
      issued := issued + ops;
      queued := queued + [Puts(entries)];
    }

    /** The cached keys with a prefix, each once. */
    method Keys(prefix: Key) returns (r: seq<Key>)
      ensures forall k :: k in r <==> k in cache && prefix <= k
      ensures forall i, j :: 0 <= i < j < |r| ==> r[i] != r[j]
    {
      r := [];
      var left := cache.Keys;
      while left != {}
        invariant left <= cache.Keys
        invariant forall k :: k in r <==> k in cache && k !in left && prefix <= k
        invariant forall i, j :: 0 <= i < j < |r| ==> r[i] != r[j]
        decreases left
      {
        var k :| k in left;
        if prefix <= k {
          r := r + [k];
        }
        left := left - {k};
      }
    }

    method TryLock() returns (r: bool)
      modifies this`locked
      ensures r == !old(locked) && locked
    {
      if locked {
        return false;
      }
      locked := true;
      return true;
    }

    method Unlock()
      modifies this`locked
      ensures !locked
    {
      locked := false;
    }

    /** The runtime starts the task at the front of its queue. */
    method StartTask()
      requires queued != []
      modifies this`js, this`queued, this`started
      ensures Snapshot() == Step(old(Snapshot()), Start)
      ensures old(Valid()) ==> Valid()
    {
      var task := queued[0];
      queued := queued[1..];
      if task != [] {
        js := Apply(js, task[0]);
        started := started + [task[1..]];
      }
    }

    /** A task's promise settled: its next operation is issued. */
    method ResumeTask(i: nat)
      requires i < |started| && started[i] != []
      modifies this`js, this`started
      ensures Snapshot() == Step(old(Snapshot()), Resume(i))
      ensures old(Valid()) ==> Valid()
    {
      js := Apply(js, started[i][0]);
      started := started[i := started[i][1..]];
    }
  }
}
