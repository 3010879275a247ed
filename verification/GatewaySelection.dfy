/** Which gateway to try, in which order, and how failures cool a gateway off. */
module GatewaySelection {
  import opened Shuffle

  const PREFERRED_GATEWAYS: nat := 2

  /** Load, consecutive failures, and the time before which it is passed over. */
  datatype GatewayState = GatewayState(inFlight: int, failures: nat, notBefore: int)

  datatype Timing = Timing(cooldownBaseMs: nat, cooldownMaxMs: nat)

  // ---- The order of candidates ----

  /** The positions from `from` on whose cooldown is over (or is not), in
      construction order. */
  function Select(states: seq<GatewayState>, now: int, ready: bool, from: nat): seq<nat>
    decreases |states| - from
  {
    if from >= |states| then []
    else (if (states[from].notBefore <= now) == ready then [from] else []) + Select(states, now, ready, from + 1)
  }

  function KeyOf(keys: seq<int>, x: nat): int { if x < |keys| then keys[x] else 0 }

  /** Array.prototype.sort on the keys is stable: an element goes in front of the
      first later one whose key is not smaller. */
  function Insert(x: nat, sorted: seq<nat>, keys: seq<int>): seq<nat> {
    if sorted == [] || KeyOf(keys, x) <= KeyOf(keys, sorted[0]) then [x] + sorted
    else [sorted[0]] + Insert(x, sorted[1..], keys)
  }

  function StableSort(s: seq<nat>, keys: seq<int>): seq<nat> {
    if s == [] then [] else Insert(s[0], StableSort(s[1..], keys), keys)
  }

  function Loads(states: seq<GatewayState>): seq<int> {
    seq(|states|, i requires 0 <= i < |states| => states[i].inFlight)
  }

  function ReadyTimes(states: seq<GatewayState>): seq<int> {
    seq(|states|, i requires 0 <= i < |states| => states[i].notBefore)
  }

  function Min(a: nat, b: nat): nat { if a <= b then a else b }

  /** #candidates: the least loaded of the preferred set, the other ready ones in
      construction order, then the cooling ones, soonest first. */
  function Candidates(states: seq<GatewayState>, now: int): seq<nat> {
    var ready := Select(states, now, true, 0);
    var k := Min(PREFERRED_GATEWAYS, |ready|);
    StableSort(ready[..k], Loads(states)) + ready[k..]
    + StableSort(Select(states, now, false, 0), ReadyTimes(states))
  }

  // ---- Sorting ----

  lemma {:induction false} InsertAdds(x: nat, sorted: seq<nat>, keys: seq<int>)
    ensures multiset(Insert(x, sorted, keys)) == multiset(sorted) + multiset{x}
  {
    if sorted != [] && KeyOf(keys, x) > KeyOf(keys, sorted[0]) {
      InsertAdds(x, sorted[1..], keys);
      assert sorted == [sorted[0]] + sorted[1..];
    }
  }

  lemma SameMembers(a: seq<nat>, b: seq<nat>)
    requires multiset(a) == multiset(b)
    ensures |a| == |b| && forall y :: y in a <==> y in b
  {
    assert |a| == |multiset(a)| && |b| == |multiset(b)|;
    forall y ensures y in a <==> y in b {
      assert y in a <==> y in multiset(a);
      assert y in b <==> y in multiset(b);
    }
  }

  lemma {:induction false} SortCounts(s: seq<nat>, keys: seq<int>)
    ensures multiset(StableSort(s, keys)) == multiset(s)
  {
    hide Insert, KeyOf;
    if s != [] {
      SortCounts(s[1..], keys);
      InsertAdds(s[0], StableSort(s[1..], keys), keys);
      assert s == [s[0]] + s[1..];
    }
  }

  lemma SortPermutes(s: seq<nat>, keys: seq<int>)
    ensures multiset(StableSort(s, keys)) == multiset(s)
    ensures |StableSort(s, keys)| == |s|
    ensures forall y :: y in StableSort(s, keys) <==> y in s
  {
    hide StableSort;
    SortCounts(s, keys);
    SameMembers(StableSort(s, keys), s);
  }

  /** Ordered by key, and by position among equal keys. */
  predicate Before(x: nat, y: nat, keys: seq<int>) {
    KeyOf(keys, x) < KeyOf(keys, y) || (KeyOf(keys, x) == KeyOf(keys, y) && x < y)
  }

  predicate StablyOrdered(s: seq<nat>, keys: seq<int>) {
    forall a, b :: 0 <= a < b < |s| ==> Before(s[a], s[b], keys)
  }

  predicate Increasing(s: seq<nat>) { forall a, b :: 0 <= a < b < |s| ==> s[a] < s[b] }

  predicate BelowAll(x: nat, s: seq<nat>) { forall a :: 0 <= a < |s| ==> x < s[a] }

  predicate BeforeAll(x: nat, s: seq<nat>, keys: seq<int>) { forall a :: 0 <= a < |s| ==> Before(x, s[a], keys) }

  lemma {:induction false} InsertStably(x: nat, sorted: seq<nat>, keys: seq<int>)
    requires StablyOrdered(sorted, keys) && BelowAll(x, sorted)
    ensures StablyOrdered(Insert(x, sorted, keys), keys)
    ensures forall w: nat :: BeforeAll(w, sorted, keys) && Before(w, x, keys) ==> BeforeAll(w, Insert(x, sorted, keys), keys)
  {
    if sorted != [] && KeyOf(keys, x) > KeyOf(keys, sorted[0]) {
      var first, rest := sorted[0], sorted[1..];
      InsertStably(x, rest, keys);
      assert BeforeAll(first, rest, keys);
      assert BeforeAll(first, Insert(x, rest, keys), keys);
      forall w: nat | BeforeAll(w, sorted, keys) && Before(w, x, keys)
        ensures BeforeAll(w, Insert(x, sorted, keys), keys)
      {
        assert BeforeAll(w, rest, keys);
        assert BeforeAll(w, Insert(x, rest, keys), keys);
      }
    }
  }

  lemma {:induction false} SortIsStable(s: seq<nat>, keys: seq<int>)
    requires Increasing(s)
    ensures StablyOrdered(StableSort(s, keys), keys)
  {
    if s != [] {
      var rest := StableSort(s[1..], keys);
      SortIsStable(s[1..], keys);
      SortPermutes(s[1..], keys);
      forall a | 0 <= a < |rest| ensures s[0] < rest[a] {
        assert rest[a] in s[1..];
      }
      InsertStably(s[0], rest, keys);
    }
  }

  // ---- What the order promises ----

  predicate IsReady(states: seq<GatewayState>, now: int, g: nat) { g < |states| && states[g].notBefore <= now }

  lemma {:induction false} SelectSelects(states: seq<GatewayState>, now: int, ready: bool, from: nat)
    ensures Increasing(Select(states, now, ready, from))
    ensures forall y: nat :: y in Select(states, now, ready, from) <==>
                             from <= y < |states| && IsReady(states, now, y) == ready
    decreases |states| - from
  {
    if from < |states| {
      SelectSelects(states, now, ready, from + 1);
      var rest := Select(states, now, ready, from + 1);
      assert forall a :: 0 <= a < |rest| ==> rest[a] in rest;
    }
  }

  lemma OrderedIsDistinct(s: seq<nat>, keys: seq<int>)
    requires StablyOrdered(s, keys)
    ensures Distinct(s)
  {
    assert forall a, b :: 0 <= a < b < |s| ==> Before(s[a], s[b], keys);
  }

  lemma IncreasingIsDistinct(s: seq<nat>)
    requires Increasing(s)
    ensures Distinct(s)
  {
  }

  /** The three parts of the order, and what each holds. */
  lemma Parts(states: seq<GatewayState>, now: int) returns (preferred: seq<nat>, rest: seq<nat>, cooling: seq<nat>)
    ensures Candidates(states, now) == preferred + rest + cooling
    ensures StablyOrdered(preferred, Loads(states)) && Increasing(rest) && StablyOrdered(cooling, ReadyTimes(states))
    ensures |preferred| <= PREFERRED_GATEWAYS && (rest != [] ==> |preferred| == PREFERRED_GATEWAYS)
    ensures forall x, y :: x in preferred && y in rest ==> x < y
    ensures forall g: nat :: IsReady(states, now, g) <==> g in preferred || g in rest
    ensures forall g: nat :: g in cooling <==> g < |states| && !IsReady(states, now, g)
  {
    hide StableSort, Select;
    var ready, later := Select(states, now, true, 0), Select(states, now, false, 0);
    SelectSelects(states, now, true, 0);
    SelectSelects(states, now, false, 0);
    var k := Min(PREFERRED_GATEWAYS, |ready|);
    preferred, rest, cooling := StableSort(ready[..k], Loads(states)), ready[k..], StableSort(later, ReadyTimes(states));
    SortIsStable(ready[..k], Loads(states));
    SortPermutes(ready[..k], Loads(states));
    SortIsStable(later, ReadyTimes(states));
    SortPermutes(later, ReadyTimes(states));
    assert ready == ready[..k] + ready[k..];
  }

  lemma DistinctConcat(a: seq<nat>, b: seq<nat>)
    requires Distinct(a) && Distinct(b) && forall x :: x in a ==> x !in b
    ensures Distinct(a + b)
  {
    forall i, j | 0 <= i < j < |a + b| ensures (a + b)[i] != (a + b)[j] {
      assert i < |a| ==> (a + b)[i] in a;
      assert j >= |a| ==> (a + b)[j] in b;
    }
  }

  /** Every gateway is a candidate exactly once. */
  lemma CandidatesCoverAll(states: seq<GatewayState>, now: int)
    ensures Distinct(Candidates(states, now)) && |Candidates(states, now)| == |states|
    ensures forall g: nat :: g in Candidates(states, now) <==> g < |states|
  {
    var preferred, rest, cooling := Parts(states, now);
    OrderedIsDistinct(preferred, Loads(states));
    IncreasingIsDistinct(rest);
    OrderedIsDistinct(cooling, ReadyTimes(states));
    DistinctConcat(preferred, rest);
    DistinctConcat(preferred + rest, cooling);
    AllPositionsOnce(Candidates(states, now), |states|);
  }

  /** No cooling gateway comes before a ready one. */
  lemma ReadyComeFirst(states: seq<GatewayState>, now: int, a: nat, b: nat)
    requires a < b < |Candidates(states, now)| && IsReady(states, now, Candidates(states, now)[b])
    ensures IsReady(states, now, Candidates(states, now)[a])
  {
    var preferred, rest, cooling := Parts(states, now);
    var c := Candidates(states, now);
    WhichPart(preferred, rest, cooling, a);
    WhichPart(preferred, rest, cooling, b);
  }

  lemma WhichPart(a: seq<nat>, b: seq<nat>, c: seq<nat>, i: nat)
    requires i < |a + b + c|
    ensures if i < |a| then (a + b + c)[i] in a else if i < |a + b| then (a + b + c)[i] in b else (a + b + c)[i] in c
  {
  }

  ghost predicate AmongFirstTwoReady(states: seq<GatewayState>, now: int, g: nat) {
    && IsReady(states, now, g)
    && forall e: nat, f: nat :: e < f < g && IsReady(states, now, e) ==> !IsReady(states, now, f)
  }

  lemma TwoReadyBefore(states: seq<GatewayState>, now: int, preferred: seq<nat>, rest: seq<nat>, g: nat)
    requires StablyOrdered(preferred, Loads(states)) && |preferred| == PREFERRED_GATEWAYS && g in rest
    requires forall x, y :: x in preferred && y in rest ==> x < y
    requires forall e: nat :: e in preferred ==> IsReady(states, now, e)
    ensures !AmongFirstTwoReady(states, now, g)
  {
    var e, f := preferred[0], preferred[1];
    assert e in preferred && f in preferred && Before(e, f, Loads(states));
    assert e != f && e < g && f < g;
  }

  /** The first candidate is the least loaded of the first two ready gateways,
      the earlier one on a tie. */
  lemma HeadIsLeastLoaded(states: seq<GatewayState>, now: int, g: nat)
    requires AmongFirstTwoReady(states, now, g)
    ensures var c := Candidates(states, now);
            c != [] && AmongFirstTwoReady(states, now, c[0])
            && (c[0] != g ==> Before(c[0], g, Loads(states)))
  {
    var preferred, rest, cooling := Parts(states, now);
    var c := Candidates(states, now);
    if g in rest {
      TwoReadyBefore(states, now, preferred, rest, g);
    }
    assert g in preferred;
    assert c[0] == preferred[0] && preferred[0] in preferred;
    var i :| 0 <= i < |preferred| && preferred[i] == g;
  }

  /** Cooling gateways are tried soonest-ready first, and only after every ready
      one; beyond the preferred set, ready ones keep their construction order. */
  lemma LaterCandidates(states: seq<GatewayState>, now: int, a: nat, b: nat)
    requires a < b < |Candidates(states, now)|
    ensures var c := Candidates(states, now);
            && (!IsReady(states, now, c[a]) ==> Before(c[a], c[b], ReadyTimes(states)))
            && (IsReady(states, now, c[b]) && b >= PREFERRED_GATEWAYS ==> c[a] < c[b])
  {
    var preferred, rest, cooling := Parts(states, now);
    var c := Candidates(states, now);
    assert a < |preferred| ==> c[a] in preferred;
    assert |preferred| <= a < |preferred + rest| ==> c[a] in rest;
    assert a >= |preferred + rest| ==> c[a] == cooling[a - |preferred + rest|] && c[b] == cooling[b - |preferred + rest|];
    assert |preferred| <= b < |preferred + rest| ==> c[b] in rest && c[b] == rest[b - |preferred|];
    assert b >= |preferred + rest| ==> c[b] in cooling;
  }

  /** Distinct positions that include every one below n are exactly n. */
  lemma AllPositionsOnce(c: seq<nat>, n: nat)
    requires Distinct(c) && forall g: nat :: g in c <==> g < n
    ensures |c| == n
  {
    assert (set g: nat | g in c) == Below(n);
    CardinalityOfDistinct(c);
  }

  lemma {:induction false} CardinalityOfDistinct(c: seq<nat>)
    requires Distinct(c)
    ensures |set g: nat | g in c| == |c|
  {
    if c != [] {
      var init, last := c[..|c| - 1], c[|c| - 1];
      assert c == init + [last];
      CardinalityOfDistinct(init);
      assert (set g: nat | g in c) == (set g: nat | g in init) + {last};
      assert last !in init;
    }
  }

  ghost function Below(n: nat): (r: set<nat>)
    ensures |r| == n && forall g: nat :: g in r <==> g < n
  {
    if n == 0 then {} else Below(n - 1) + {n - 1}
  }

  // ---- Cooldown ----

  function Pow2(n: nat): nat { if n == 0 then 1 else 2 * Pow2(n - 1) }

  function Round(x: real): int { (x + 0.5).Floor }

  /** min(base * 2^(failures - 1), max), before the jitter. */
  function Cooldown(timing: Timing, failures: nat): nat
    requires failures > 0
  {
    Min(timing.cooldownMaxMs, timing.cooldownBaseMs * Pow2(failures - 1))
  }

  function OnSuccess(s: GatewayState): GatewayState { s.(failures := 0, notBefore := 0) }

  /** 50-100% of the cooldown. */
  function Scaled(full: nat, factor: real): int { Round(full as real * factor) }

  function Pause(full: nat, jitter: real): int { Scaled(full, 0.5 + jitter * 0.5) }

  /** The jitter is Math.random(): at least 0 and below 1. */
  function OnFailure(s: GatewayState, timing: Timing, now: int, jitter: real): GatewayState {
    var failures := s.failures + 1;
    s.(failures := failures, notBefore := now + Pause(Cooldown(timing, failures), jitter))
  }

  lemma ScaledBetween(a: real, f: real, x: real)
    requires a >= 0.0 && 0.5 <= f <= 1.0 && x == a * f
    ensures a <= 2.0 * x && x <= a
  {
    assert a * (f - 0.5) >= 0.0 && a * (1.0 - f) >= 0.0;
    assert a * (f - 0.5) == x - a * 0.5 && a * (1.0 - f) == a - x;
  }

  lemma ScaledUp(a: nat, b: nat)
    ensures a * b <= a * (2 * b)
  {
    assert a * (2 * b) == a * b + a * b;
  }

  lemma RoundBetween(full: nat, x: real)
    requires full as real <= 2.0 * x && x <= full as real
    ensures full <= 2 * Round(x) && Round(x) <= full
  {
    var r := Round(x);
    assert r as real <= x + 0.5 < r as real + 1.0;
  }

  /** The cooldown never shrinks from one failure to the next, and never exceeds
      the configured maximum. */
  lemma CooldownGrows(timing: Timing, failures: nat)
    requires failures > 0
    ensures Cooldown(timing, failures) <= Cooldown(timing, failures + 1) <= timing.cooldownMaxMs
  {
    ScaledUp(timing.cooldownBaseMs, Pow2(failures - 1));
  }

  lemma PauseBounds(full: nat, jitter: real)
    requires 0.0 <= jitter < 1.0
    ensures full <= 2 * Pause(full, jitter) && Pause(full, jitter) <= full
  {
    ScaledBounds(full, 0.5 + jitter * 0.5);
  }

  lemma ScaledBounds(full: nat, factor: real)
    requires 0.5 <= factor <= 1.0
    ensures full <= 2 * Scaled(full, factor) && Scaled(full, factor) <= full
  {
    var x := full as real * factor;
    ScaledBetween(full as real, factor, x);
    RoundBetween(full, x);
  }

  /** The pause after a failure is between half of the cooldown and all of it. */
  lemma CooldownBounds(s: GatewayState, timing: Timing, now: int, jitter: real)
    requires 0.0 <= jitter < 1.0
    ensures var after, full := OnFailure(s, timing, now, jitter), Cooldown(timing, s.failures + 1);
            full <= 2 * (after.notBefore - now) && after.notBefore - now <= full
    ensures OnFailure(s, timing, now, jitter).notBefore <= now + timing.cooldownMaxMs
  {
    CooldownGrows(timing, s.failures + 1);
    PauseBounds(Cooldown(timing, s.failures + 1), jitter);
  }
}
