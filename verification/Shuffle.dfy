/** The construction-time shuffle of the gateway list. */
module Shuffle {

  function Swap<T>(s: seq<T>, i: nat, j: nat): (r: seq<T>)
    requires i < |s| && j < |s|
    ensures |r| == |s| && r[i] == s[j] && r[j] == s[i]
    ensures forall k :: 0 <= k < |s| && k != i && k != j ==> r[k] == s[k]
  {
    s[i := s[j]][j := s[i]]
  }

  lemma SwapPermutes<T>(s: seq<T>, i: nat, j: nat)
    requires i < |s| && j < |s|
    ensures multiset(Swap(s, i, j)) == multiset(s)
  {
  }

  /** One choice per position, from the last down to the second; the choice for
      position i is one of 0..i. */
  predicate ValidFrom(i: int, choices: seq<nat>) {
    if i <= 0 then choices == [] else choices != [] && choices[0] <= i && ValidFrom(i - 1, choices[1..])
  }

  predicate ValidChoices(n: nat, choices: seq<nat>) { ValidFrom(n - 1, choices) }

  /** Fisher-Yates from position i downwards. */
  function ShuffleFrom<T>(s: seq<T>, i: int, choices: seq<nat>): (r: seq<T>)
    requires i < |s| && ValidFrom(i, choices)
    ensures |r| == |s|
    decreases i
  {
    if i <= 0 then s else ShuffleFrom(Swap(s, i, choices[0]), i - 1, choices[1..])
  }

  function Shuffled<T>(items: seq<T>, choices: seq<nat>): seq<T>
    requires ValidChoices(|items|, choices)
  {
    ShuffleFrom(items, |items| - 1, choices)
  }

  /** The loop, on a copy: the input is left as it was. */
  method Shuffle<T>(items: array<T>, choices: seq<nat>) returns (out: array<T>)
    requires ValidChoices(items.Length, choices)
    ensures fresh(out) && out[..] == Shuffled(items[..], choices)
    ensures items[..] == old(items[..])
  {
    out := new T[items.Length](k requires 0 <= k < items.Length reads items => items[k]);
    ghost var given := items[..];
    assert out[..] == given;
    var i, rest := out.Length - 1, choices;
    while i > 0
      invariant i < out.Length && ValidFrom(i, rest)
      invariant ShuffleFrom(out[..], i, rest) == Shuffled(given, choices)
    {
      Exchange(out, i, rest[0]);
      i, rest := i - 1, rest[1..];
    }
  }

  method Exchange<T>(a: array<T>, i: nat, j: nat)
    requires i < a.Length && j < a.Length
    modifies a
    ensures a[..] == Swap(old(a[..]), i, j)
  {
    a[i], a[j] := a[j], a[i];
  }

  predicate AgreeBeyond<T(==)>(s: seq<T>, t: seq<T>, i: int) {
    |s| == |t| && forall k: nat :: i < k < |s| ==> s[k] == t[k]
  }

  lemma {:induction false} ShuffleFixesTail<T>(s: seq<T>, i: int, choices: seq<nat>)
    requires i < |s| && ValidFrom(i, choices)
    ensures AgreeBeyond(s, ShuffleFrom(s, i, choices), i)
    decreases i
  {
    if i > 0 {
      ShuffleFixesTail(Swap(s, i, choices[0]), i - 1, choices[1..]);
    }
  }

  predicate Distinct<T(==)>(s: seq<T>) { forall a, b :: 0 <= a < b < |s| ==> s[a] != s[b] }

  /** Nothing is lost or duplicated on the way. */
  lemma {:induction false} ShufflePermutes<T>(s: seq<T>, i: int, choices: seq<nat>)
    requires i < |s| && ValidFrom(i, choices)
    ensures multiset(ShuffleFrom(s, i, choices)) == multiset(s)
    decreases i
  {
    if i > 0 {
      SwapPermutes(s, i, choices[0]);
      ShufflePermutes(Swap(s, i, choices[0]), i - 1, choices[1..]);
    }
  }

  /** Position i of the result shows the choice made for it. */
  lemma ChoiceShows<T>(s: seq<T>, i: int, choices: seq<nat>)
    requires 0 < i < |s| && ValidFrom(i, choices)
    ensures ShuffleFrom(s, i, choices)[i] == s[choices[0]]
  {
    ShuffleFixesTail(Swap(s, i, choices[0]), i - 1, choices[1..]);
  }

  lemma SwapKeepsDistinct<T>(s: seq<T>, i: nat, j: nat)
    requires i < |s| && j < |s| && Distinct(s)
    ensures Distinct(Swap(s, i, j))
  {
  }

  /** Different choice sequences give different orders. */
  lemma {:induction false} ShuffleIsInjective<T>(s: seq<T>, i: int, choices: seq<nat>, others: seq<nat>)
    requires i < |s| && Distinct(s) && ValidFrom(i, choices) && ValidFrom(i, others)
    requires ShuffleFrom(s, i, choices) == ShuffleFrom(s, i, others)
    ensures choices == others
    decreases i
  {
    if i > 0 {
      ChoiceShows(s, i, choices);
      ChoiceShows(s, i, others);
      var c, d := choices[0], others[0];
      assert c == d by {
        assert s[c] == s[d];
      }
      SwapKeepsDistinct(s, i, c);
      ShuffleIsInjective(Swap(s, i, c), i - 1, choices[1..], others[1..]);
      assert choices == [c] + choices[1..] && others == [d] + others[1..];
    }
  }

  /** Every order that agrees with s beyond i is reached. */
  lemma {:induction false} ShuffleIsSurjective<T>(s: seq<T>, i: int, target: seq<T>) returns (choices: seq<nat>)
    requires i < |s| && Distinct(s) && Distinct(target) && multiset(target) == multiset(s)
    requires AgreeBeyond(s, target, i)
    ensures ValidFrom(i, choices) && ShuffleFrom(s, i, choices) == target
    decreases i
  {
    if i <= 0 {
      choices := [];
      assert AgreeBeyond(s, target, 0);
      LastIsForced(s, target);
    } else {
      var j := PlaceOf(s, target, i);
      SwapKeepsDistinct(s, i, j);
      SwapPermutes(s, i, j);
      var swapped := Swap(s, i, j);
      var rest := ShuffleIsSurjective(swapped, i - 1, target);
      choices := [j] + rest;
      assert choices[1..] == rest && choices[0] == j;
      assert ShuffleFrom(s, i, choices) == ShuffleFrom(swapped, i - 1, rest);
    }
  }

  /** Two distinct orders of the same items that agree beyond position 0 are equal. */
  lemma LastIsForced<T>(s: seq<T>, target: seq<T>)
    requires Distinct(s) && Distinct(target) && multiset(target) == multiset(s)
    requires AgreeBeyond(s, target, 0)
    ensures s == target
  {
    if s != [] {
      var j := PlaceOf(s, target, 0);
    }
  }

  /** The item wanted at position i is at i or before it. */
  lemma PlaceOf<T>(s: seq<T>, target: seq<T>, i: nat) returns (j: nat)
    requires i < |s| && Distinct(target) && multiset(target) == multiset(s)
    requires AgreeBeyond(s, target, i)
    ensures j <= i && s[j] == target[i]
  {
    assert target[i] in multiset(target);
    j :| 0 <= j < |s| && s[j] == target[i];
    if j > i {
      assert false;
    }
  }

  lemma DistinctCountsOne<T>(s: seq<T>, x: T)
    requires Distinct(s)
    ensures multiset(s)[x] <= 1
  {
    if x in s {
      var k :| 0 <= k < |s| && s[k] == x;
      assert s == s[..k] + [x] + s[k + 1..];
      assert x !in s[..k] && x !in s[k + 1..];
    }
  }

  lemma RepeatCountsTwo<T>(t: seq<T>, a: nat, b: nat)
    requires a < b < |t| && t[a] == t[b]
    ensures multiset(t)[t[a]] >= 2
  {
    assert t == t[..a] + [t[a]] + t[a + 1..b] + [t[a]] + t[b + 1..];
  }

  lemma SameItemsDistinct<T>(s: seq<T>, t: seq<T>)
    requires Distinct(s) && multiset(s) == multiset(t)
    ensures Distinct(t)
  {
    forall a, b | 0 <= a < b < |t| ensures t[a] != t[b] {
      if t[a] == t[b] {
        DistinctCountsOne(s, t[a]);
        RepeatCountsTwo(t, a, b);
      }
    }
  }

  /** The shuffle is a bijection: every order of distinct gateways comes from
      exactly one sequence of choices, */
  lemma EveryOrderIsReached<T>(items: seq<T>, order: seq<T>) returns (choices: seq<nat>)
    requires Distinct(items) && multiset(order) == multiset(items)
    ensures ValidChoices(|items|, choices) && Shuffled(items, choices) == order
  {
    SameItemsDistinct(items, order);
    assert |items| == |multiset(items)| && |order| == |multiset(order)|;
    choices := ShuffleIsSurjective(items, |items| - 1, order);
  }

  /** and every sequence of choices gives an order of exactly the same items,
      no two of them the same one. */
  lemma NoOrderTwice<T>(items: seq<T>, choices: seq<nat>, others: seq<nat>)
    requires Distinct(items) && ValidChoices(|items|, choices) && ValidChoices(|items|, others)
    ensures multiset(Shuffled(items, choices)) == multiset(items)
    ensures Shuffled(items, choices) == Shuffled(items, others) <==> choices == others
  {
    ShufflePermutes(items, |items| - 1, choices);
    if Shuffled(items, choices) == Shuffled(items, others) {
      ShuffleIsInjective(items, |items| - 1, choices, others);
    }
  }
}
