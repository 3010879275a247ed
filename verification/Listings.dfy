/** Sorted listings of string keys, as JavaScript's default sort orders them. */
module Listings {
  import opened KeyMangling

  type Key = seq<unit>

  /** Comparison by UTF-16 code units. */
  predicate Less(a: Key, b: Key) {
    if b == [] then false
    else if a == [] then true
    else a[0] < b[0] || (a[0] == b[0] && Less(a[1..], b[1..]))
  }

  /** Alike up to k, and there a ends or has the smaller unit. */
  predicate FirstDifference(a: Key, b: Key, k: nat) {
    k <= |a| && k < |b| && a[..k] == b[..k] && (k < |a| ==> a[k] < b[k])
  }

  /** The first difference decides; a key comes before those it is the beginning of. */
  lemma {:induction false} LessIff(a: Key, b: Key)
    ensures Less(a, b) <==> exists k :: FirstDifference(a, b, k)
  {
    forall k: nat | FirstDifference(a, b, k) && k > 0 ensures a != [] && b != [] && a[0] == b[0] {
      assert a[..k][0] == a[0] && b[..k][0] == b[0];
    }
    if a != [] && b != [] && a[0] == b[0] {
      LessIff(a[1..], b[1..]);
      forall k: nat | FirstDifference(a, b, k) ensures k > 0 && FirstDifference(a[1..], b[1..], k - 1) {
        assert a[1..][..k - 1] == a[..k][1..] && b[1..][..k - 1] == b[..k][1..];
      }
      forall k: nat | FirstDifference(a[1..], b[1..], k) ensures FirstDifference(a, b, k + 1) {
        assert a[..k + 1] == [a[0]] + a[1..][..k] && b[..k + 1] == [b[0]] + b[1..][..k];
      }
    } else if b != [] && (a == [] || a[0] < b[0]) {
      assert FirstDifference(a, b, 0);
    }
  }

  lemma {:induction false} LessIsTotal(a: Key, b: Key)
    ensures Less(a, b) || a == b || Less(b, a)
    ensures !(Less(a, b) && Less(b, a)) && (a == b ==> !Less(a, b))
  {
    if a != [] && b != [] {
      LessIsTotal(a[1..], b[1..]);
      assert a == [a[0]] + a[1..] && b == [b[0]] + b[1..];
    }
  }

  lemma {:induction false} LessIsTransitive(a: Key, b: Key, c: Key)
    requires Less(a, b) && Less(b, c)
    ensures Less(a, c)
  {
    if a != [] && a[0] == b[0] == c[0] {
      LessIsTransitive(a[1..], b[1..], c[1..]);
    }
  }

  predicate StartsWith(key: Key, prefix: Key) { prefix <= key }

  lemma StartsWithIff(key: Key, prefix: Key)
    ensures StartsWith(key, prefix) <==> exists rest :: key == prefix + rest
  {
    if StartsWith(key, prefix) {
      assert key == prefix + key[|prefix|..];
    }
  }

  /** The listing of a set of keys: each once, in order. There is only one. */
  ghost predicate IsListing(r: seq<Key>, keys: set<Key>) {
    && (forall i, j :: 0 <= i < j < |r| ==> Less(r[i], r[j]))
    && (forall k :: k in r <==> k in keys)
  }

  lemma {:induction false} ListingIsUnique(r: seq<Key>, s: seq<Key>, keys: set<Key>)
    requires IsListing(r, keys) && IsListing(s, keys)
    ensures r == s
  {
    EmptyListing(r, keys);
    EmptyListing(s, keys);
    if r != [] && s != [] {
      FirstIsLeast(r, keys, s[0]);
      FirstIsLeast(s, keys, r[0]);
      LessIsTotal(r[0], s[0]);
      var k := r[0];
      RestOfListing(r, keys);
      RestOfListing(s, keys);
      ListingIsUnique(r[1..], s[1..], keys - {k});
    }
  }

  lemma EmptyListing(r: seq<Key>, keys: set<Key>)
    requires IsListing(r, keys)
    ensures r == [] <==> keys == {}
  {
    if r != [] {
      assert r[0] in r;
    }
  }

  lemma FirstIsLeast(r: seq<Key>, keys: set<Key>, k: Key)
    requires IsListing(r, keys) && r != [] && (k in keys || k in r)
    ensures r[0] == k || Less(r[0], k)
  {
    var i :| 0 <= i < |r| && r[i] == k;
  }

  lemma RestOfListing(r: seq<Key>, keys: set<Key>)
    requires IsListing(r, keys) && r != []
    ensures IsListing(r[1..], keys - {r[0]})
  {
    LessIsTotal(r[0], r[0]);
    assert r == [r[0]] + r[1..];
    assert forall i :: 0 < i < |r| ==> Less(r[0], r[i]);
    assert r[0] !in r[1..];
  }

  /** Insert into a listing, keeping it one. */
  function InsertKey(k: Key, sorted: seq<Key>): seq<Key> {
    if sorted == [] || Less(k, sorted[0]) then [k] + sorted
    else [sorted[0]] + InsertKey(k, sorted[1..])
  }

  ghost predicate LessThanAll(k: Key, s: seq<Key>) { forall i :: 0 <= i < |s| ==> Less(k, s[i]) }

  lemma {:induction false} InsertKeepsListing(k: Key, sorted: seq<Key>, keys: set<Key>)
    requires IsListing(sorted, keys) && k !in keys
    ensures IsListing(InsertKey(k, sorted), keys + {k})
    ensures forall w :: LessThanAll(w, sorted) && Less(w, k) ==> LessThanAll(w, InsertKey(k, sorted))
  {
    if sorted == [] {
    } else if Less(k, sorted[0]) {
      forall i | 0 <= i < |sorted| ensures Less(k, sorted[i]) {
        if i > 0 { LessIsTransitive(k, sorted[0], sorted[i]); }
      }
    } else {
      var first, rest := sorted[0], sorted[1..];
      RestOfListing(sorted, keys);
      InsertKeepsListing(k, rest, keys - {first});
      assert first in sorted;
      LessIsTotal(first, k);
      assert LessThanAll(first, rest);
      assert LessThanAll(first, InsertKey(k, rest));
      var r := InsertKey(k, sorted);
      assert r == [first] + InsertKey(k, rest);
      assert forall x :: x in r <==> x == first || x in InsertKey(k, rest);
      forall w | LessThanAll(w, sorted) && Less(w, k) ensures LessThanAll(w, r) {
        assert LessThanAll(w, rest);
      }
    }
  }

  /** Sort a set of keys. */
  method ListKeys(keys: set<Key>) returns (r: seq<Key>)
    ensures IsListing(r, keys)
  {
    r := [];
    var left := keys;
    while left != {}
      invariant left <= keys && IsListing(r, keys - left)
      decreases left
    {
      var k :| k in left;
      InsertKeepsListing(k, r, keys - left);
      assert keys - left + {k} == keys - (left - {k});
      r := InsertKey(k, r);
      left := left - {k};
    }
    assert keys - left == keys;
  }

  // ---- Sorting a list that may repeat keys ----

  predicate AtMost(a: Key, b: Key) { a == b || Less(a, b) }

  ghost predicate AtMostAll(k: Key, s: seq<Key>) { forall i :: 0 <= i < |s| ==> AtMost(k, s[i]) }

  ghost predicate Sorted(r: seq<Key>) { forall i, j :: 0 <= i < j < |r| ==> AtMost(r[i], r[j]) }

  lemma AtMostIsTransitive(a: Key, b: Key, c: Key)
    requires AtMost(a, b) && AtMost(b, c)
    ensures AtMost(a, c)
  {
    if a != b && b != c { LessIsTransitive(a, b, c); }
  }

  lemma FirstAndRest(s: seq<Key>)
    requires s != []
    ensures Sorted(s) <==> AtMostAll(s[0], s[1..]) && Sorted(s[1..])
  {
    hide AtMost;
    assert s == [s[0]] + s[1..];
  }

  lemma BeforeSorted(k: Key, s: seq<Key>)
    requires Sorted(s) && (s != [] ==> AtMost(k, s[0]))
    ensures AtMostAll(k, s)
  {
    forall i | 0 <= i < |s| ensures AtMost(k, s[i]) {
      if i > 0 { AtMostIsTransitive(k, s[0], s[i]); }
    }
  }

  function InsertSorted(k: Key, sorted: seq<Key>): seq<Key> {
    if sorted == [] || k == sorted[0] || Less(k, sorted[0]) then [k] + sorted
    else [sorted[0]] + InsertSorted(k, sorted[1..])
  }

  lemma {:induction false} BeforeInserted(w: Key, k: Key, sorted: seq<Key>)
    requires AtMostAll(w, sorted) && AtMost(w, k)
    ensures AtMostAll(w, InsertSorted(k, sorted))
  {
    hide AtMost, Less;
    if sorted != [] {
      assert AtMost(w, sorted[0]);
      assert forall i :: 0 <= i < |sorted[1..]| ==> sorted[1..][i] == sorted[i + 1];
      BeforeInserted(w, k, sorted[1..]);
    }
  }

  lemma {:induction false} InsertCounts(k: Key, sorted: seq<Key>)
    ensures multiset(InsertSorted(k, sorted)) == multiset(sorted) + multiset{k}
  {
    hide Less;
    if sorted != [] {
      InsertCounts(k, sorted[1..]);
      assert sorted == [sorted[0]] + sorted[1..];
    }
  }

  lemma {:induction false} InsertKeepsSorted(k: Key, sorted: seq<Key>)
    requires Sorted(sorted)
    ensures Sorted(InsertSorted(k, sorted))
  {
    var r := InsertSorted(k, sorted);
    if sorted == [] || AtMost(k, sorted[0]) {
      BeforeSorted(k, sorted);
      assert r == [k] + sorted && r[1..] == sorted;
    } else {
      var first, rest := sorted[0], sorted[1..];
      hide Sorted;
      FirstAndRest(sorted);
      InsertKeepsSorted(k, rest);
      LessIsTotal(first, k);
      BeforeInserted(first, k, rest);
      assert r[1..] == InsertSorted(k, rest);
    }
    FirstAndRest(r);
  }

  /** Array.prototype.sort on a list of keys. */
  method SortKeys(s: seq<Key>) returns (r: seq<Key>)
    ensures Sorted(r) && multiset(r) == multiset(s)
  {
    r := [];
    for i := 0 to |s|
      invariant Sorted(r) && multiset(r) == multiset(s[..i])
    {
      InsertKeepsSorted(s[i], r);
      InsertCounts(s[i], r);
      assert s[..i + 1] == s[..i] + [s[i]];
      r := InsertSorted(s[i], r);
    }
    assert s[..|s|] == s;
  }
}
