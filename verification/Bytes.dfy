/** Byte strings and the one search primitive the HTTP codec is built on. */
module Bytes {

  type byte = b: int | 0 <= b < 256

  datatype Option<+T> = None | Some(value: T)

  const CRLF: seq<byte> := [13, 10]

  /** The needle sits in the haystack at offset i. */
  predicate OccursAt<T(==)>(haystack: seq<T>, needle: seq<T>, i: int) {
    0 <= i && i + |needle| <= |haystack| && haystack[i..i + |needle|] == needle
  }

  /** The offset of the first window equal to the needle, scanning from `from`. */
  function FindFrom<T(==)>(haystack: seq<T>, needle: seq<T>, from: nat): (r: Option<nat>)
    requires needle != []
    ensures r.Some? ==> from <= r.value && r.value + |needle| <= |haystack|
    decreases |haystack| - from
  {
    if from + |needle| > |haystack| then None
    else if OccursAt(haystack, needle, from) then Some(from)
    else FindFrom(haystack, needle, from + 1)
  }

  /** It is the least offset with a match, and None means there is none. */
  lemma {:induction false} FindFromIsFirst<T>(haystack: seq<T>, needle: seq<T>, from: nat)
    requires needle != []
    ensures var r := FindFrom(haystack, needle, from);
            && (r.Some? ==> OccursAt(haystack, needle, r.value))
            && (r.Some? ==> forall i :: from <= i < r.value ==> !OccursAt(haystack, needle, i))
            && (r.None? ==> forall i :: from <= i ==> !OccursAt(haystack, needle, i))
    decreases |haystack| - from
  {
    if from + |needle| <= |haystack| && !OccursAt(haystack, needle, from) {
      FindFromIsFirst(haystack, needle, from + 1);
    }
  }

  lemma ConcatAssoc<T>(a: seq<T>, b: seq<T>, c: seq<T>)
    ensures a + (b + c) == a + b + c
  {
  }

  function FindSubsequence<T(==)>(haystack: seq<T>, needle: seq<T>): (r: Option<nat>)
    requires needle != []
    ensures r.Some? ==> OccursAt(haystack, needle, r.value)
    ensures r.Some? ==> forall i :: 0 <= i < r.value ==> !OccursAt(haystack, needle, i)
    ensures r.None? ==> forall i :: !OccursAt(haystack, needle, i)
  {
    FindFromIsFirst(haystack, needle, 0);
    FindFrom(haystack, needle, 0)
  }

  /** A match found in what has arrived so far stays the first match whatever
      arrives later, and nothing that arrives later can create a match lying
      wholly inside what was already searched. */
  lemma FindIsStable<T>(arrived: seq<T>, later: seq<T>, needle: seq<T>)
    requires needle != []
    ensures FindSubsequence(arrived, needle).Some? ==>
              FindSubsequence(arrived + later, needle) == FindSubsequence(arrived, needle)
    ensures FindSubsequence(arrived, needle).None? && FindSubsequence(arrived + later, needle).Some? ==>
              FindSubsequence(arrived + later, needle).value + |needle| > |arrived|
  {
    forall i | 0 <= i && i + |needle| <= |arrived|
      ensures OccursAt(arrived + later, needle, i) <==> OccursAt(arrived, needle, i)
    {
      assert (arrived + later)[i..i + |needle|] == arrived[i..i + |needle|];
    }
  }

  /** The first match is the only offset with a match and none before it. */
  lemma FirstMatchIsUnique<T>(haystack: seq<T>, needle: seq<T>, p: nat)
    requires needle != []
    requires OccursAt(haystack, needle, p)
    requires forall i :: 0 <= i < p ==> !OccursAt(haystack, needle, i)
    ensures FindSubsequence(haystack, needle) == Some(p)
  {
    var r := FindSubsequence(haystack, needle);
    assert r.Some?;
    assert !(r.value < p) && !(p < r.value);
  }

  lemma PrefixTransitive<T>(a: seq<T>, b: seq<T>, c: seq<T>)
    requires a <= b <= c
    ensures a <= c
  {
  }
}
