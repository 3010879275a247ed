/** How many entries of a map satisfy a predicate, and how updates change that. */
module Counting {

  ghost function Keys<K, V>(m: map<K, V>, p: V -> bool): set<K> {
    set k | k in m && p(m[k])
  }

  ghost function Count<K, V>(m: map<K, V>, p: V -> bool): nat { |Keys(m, p)| }

  /** The count is that of the other keys, and of this one. */
  lemma CountSplit<K, V>(m: map<K, V>, k: K, p: V -> bool)
    ensures Count(m, p) == |Keys(m, p) - {k}| + (if k in m && p(m[k]) then 1 else 0)
  {
    if k in m && p(m[k]) {
      assert k in Keys(m, p);
    } else {
      assert k !in Keys(m, p);
      assert Keys(m, p) - {k} == Keys(m, p);
    }
  }

  lemma CountUpdate<K, V>(m: map<K, V>, k: K, v: V, p: V -> bool)
    ensures Count(m[k := v], p) ==
            Count(m, p) - (if k in m && p(m[k]) then 1 else 0) + (if p(v) then 1 else 0)
  {
    CountSplit(m, k, p);
    CountSplit(m[k := v], k, p);
    assert Keys(m[k := v], p) - {k} == Keys(m, p) - {k};
  }

  lemma CountRemove<K, V>(m: map<K, V>, k: K, p: V -> bool)
    requires k in m
    ensures Count(m - {k}, p) == Count(m, p) - (if p(m[k]) then 1 else 0)
  {
    CountSplit(m, k, p);
    assert Keys(m - {k}, p) == Keys(m, p) - {k};
  }

  lemma CountMember<K, V>(m: map<K, V>, k: K, p: V -> bool)
    requires k in m && p(m[k])
    ensures Count(m, p) >= 1
  {
    assert Keys(m, p) == {k} + (Keys(m, p) - {k});
  }

  lemma CountNone<K, V>(m: map<K, V>, p: V -> bool)
    requires forall k :: k in m ==> !p(m[k])
    ensures Count(m, p) == 0
  {
    assert Keys(m, p) == {};
  }

  lemma CountAtMost<K, V>(m: map<K, V>, p: V -> bool, q: V -> bool)
    requires forall k :: k in m && p(m[k]) ==> q(m[k])
    ensures Count(m, p) <= Count(m, q)
  {
    var rest := Keys(m, q) - Keys(m, p);
    assert Keys(m, q) == Keys(m, p) + rest;
  }
}
