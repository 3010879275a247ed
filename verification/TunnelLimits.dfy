/** How far the limits hold: the exact peak of the total, and when the map of
    addresses is empty again. */
module TunnelLimits {
  import opened Counting
  import opened TunnelTracker

  /** The peer address of each connection: all its tunnels count towards that one. */
  type Peers = Conn -> Ip

  ghost predicate ReachesBy(run: seq<Tracker>, steps: seq<Step>, limits: Limits, peers: Peers,
                            busy: Thread -> bool, n: nat, s: Tracker)
  {
    && IsRun(run, limits, steps) && run[|run| - 1] == s
    && (forall i :: 0 <= i < |steps| && steps[i].Call? ==> steps[i].ip == peers(steps[i].conn))
    && (forall j :: 0 <= j < |run| ==> Count(run[j].threads, busy) <= n)
  }

  /** Some run gets there in which at most n of those acquires overlap at any time. */
  ghost predicate Reaches(limits: Limits, peers: Peers, busy: Thread -> bool, n: nat, s: Tracker) {
    exists run, steps :: ReachesBy(run, steps, limits, peers, busy, n, s)
  }

  lemma ReachStart(limits: Limits, peers: Peers, busy: Thread -> bool, n: nat)
    ensures Reaches(limits, peers, busy, n, Fresh)
  {
    CountNone(Fresh.threads, busy);
    assert ReachesBy([Fresh], [], limits, peers, busy, n, Fresh);
  }

  lemma ReachStep(limits: Limits, peers: Peers, busy: Thread -> bool, n: nat, s: Tracker, step: Step)
    requires Reaches(limits, peers, busy, n, s) && Enabled(s, step)
    requires step.Call? ==> step.ip == peers(step.conn)
    requires Count(Apply(s, limits, step).threads, busy) <= n
    ensures Reaches(limits, peers, busy, n, Apply(s, limits, step))
  {
    hide Apply, Count;
    var run, steps :| ReachesBy(run, steps, limits, peers, busy, n, s);
    var after := Apply(s, limits, step);
    assert ReachesBy(run + [after], steps + [step], limits, peers, busy, n, after);
  }

  // ---- Limits of zero ----

  predicate RefusesAll(limits: Limits) { limits.maxTunnels == 0 || limits.perConn == 0 || limits.perIp == 0 }

  predicate BeforeSlot(pc: Pc) { pc.Start? || pc.TotalChecked? || pc.ConnChecked? }

  /** Nobody gets past the check that refuses everyone. */
  ghost predicate NoneAdmitted(s: Tracker, limits: Limits) {
    && s.total == 0 && s.perConn == map[]
    && (forall id :: id in s.threads ==> BeforeSlot(s.threads[id].pc))
    && (limits.maxTunnels == 0 || limits.perConn == 0 ==>
          s.perIp == map[] && forall id :: id in s.threads ==> !s.threads[id].pc.ConnChecked?)
    && (limits.maxTunnels == 0 ==> forall id :: id in s.threads ==> s.threads[id].pc.Start?)
    && (forall ip: Ip :: Get(s.perIp, ip) == 0)
  }

  lemma StepAdmitsNone(s: Tracker, limits: Limits, step: Step)
    requires RefusesAll(limits) && NoneAdmitted(s, limits) && Enabled(s, step)
    ensures NoneAdmitted(Apply(s, limits, step), limits)
  {
    if step.Advance? {
      var t := s.threads[step.id];
      assert Get(s.perConn, t.conn) == 0 && Get(s.perIp, t.ip) == 0;
      assert BeforeSlot(t.pc);
      var after := Apply(s, limits, step);
      forall ip: Ip ensures Get(after.perIp, ip) == 0 {
        assert Get(s.perIp, ip) == 0;
      }
    }
  }

  lemma {:induction false} ZeroLimitsAdmitNone(run: seq<Tracker>, limits: Limits, steps: seq<Step>, i: nat)
    requires IsRun(run, limits, steps) && i < |run| && RefusesAll(limits)
    ensures NoneAdmitted(run[i], limits)
  {
    if i > 0 {
      ZeroLimitsAdmitNone(run, limits, steps, i - 1);
      assert Enabled(run[i - 1], steps[i - 1]);
      assert run[i - 1 + 1] == Apply(run[i - 1], limits, steps[i - 1]);
      StepAdmitsNone(run[i - 1], limits, steps[i - 1]);
    }
  }

  // ---- The peak of the total ----

  /** The first m callers hold a slot, those up to p passed the check of the total,
      those up to q have just called; each from its own address and connection. */
  ghost predicate IsMix(s: Tracker, m: nat, p: nat, q: nat) {
    && s.total == m
    && (forall id: nat :: id in s.threads <==> id < q)
    && (forall id: nat :: id in s.threads ==> s.threads[id] == Thread(id, id, MixPc(m, p, id)))
    && (forall id: nat :: id in s.perIp <==> id < m) && (forall id: nat :: id in s.perIp ==> s.perIp[id] == 1)
    && (forall id: nat :: id in s.perConn <==> id < m) && (forall id: nat :: id in s.perConn ==> s.perConn[id] == 1)
  }

  function MixPc(m: nat, p: nat, id: nat): Pc {
    if id < m then Holding else if id < p then TotalChecked else Start
  }

  lemma {:induction false} RangeSize(s: set<nat>, lo: nat, hi: nat)
    requires lo <= hi && forall id: nat :: id in s <==> lo <= id < hi
    ensures |s| == hi - lo
    decreases hi
  {
    if lo < hi {
      RangeSize(s - {hi - 1}, lo, hi - 1);
    } else {
      assert s == {};
    }
  }

  lemma MixOverlap(s: Tracker, m: nat, p: nat, q: nat)
    requires IsMix(s, m, p, q) && m <= p <= q
    ensures Count(s.threads, Overlapping()) == q - m
  {
    RangeSize(Keys(s.threads, Overlapping()), m, q);
  }

  ghost function OwnPeers(): Peers { (c: Conn) => c }

  /** Such a state can be reached with at most n overlapping. */
  ghost predicate CanMix(limits: Limits, n: nat, m: nat, p: nat, q: nat) {
    exists s :: IsMix(s, m, p, q) && Reaches(limits, OwnPeers(), Overlapping(), n, s)
  }

  lemma CallNext(limits: Limits, n: nat, m: nat, p: nat, q: nat)
    requires m <= p <= q && q + 1 - m <= n && CanMix(limits, n, m, p, q)
    ensures CanMix(limits, n, m, p, q + 1)
  {
    hide Reaches;
    var s :| IsMix(s, m, p, q) && Reaches(limits, OwnPeers(), Overlapping(), n, s);
    var step := Call(q, q, q);
    var r := Apply(s, limits, step);
    assert IsMix(r, m, p, q + 1);
    MixOverlap(r, m, p, q + 1);
    ReachStep(limits, OwnPeers(), Overlapping(), n, s, step);
  }

  lemma CheckNext(limits: Limits, n: nat, m: nat, p: nat, q: nat)
    requires m <= p < q && q - m <= n && m < limits.maxTunnels && CanMix(limits, n, m, p, q)
    ensures CanMix(limits, n, m, p + 1, q)
  {
    hide Reaches;
    var s :| IsMix(s, m, p, q) && Reaches(limits, OwnPeers(), Overlapping(), n, s);
    var r := Apply(s, limits, Advance(p));
    assert IsMix(r, m, p + 1, q);
    MixOverlap(r, m, p + 1, q);
    ReachStep(limits, OwnPeers(), Overlapping(), n, s, Advance(p));
  }

  /** While caller m goes for the slot, no more than those behind m overlap. */
  lemma EnteringOverlap(s: Tracker, m: nat, p: nat, q: nat, pc: Pc)
    requires IsMix(s, m, p, q) && m < p <= q
    ensures Count(s.threads[m := Thread(m, m, pc)], Overlapping()) <= q - m
  {
    MixOverlap(s, m, p, q);
    CountUpdate(s.threads, m, Thread(m, m, pc), Overlapping());
  }

  /** The four steps of caller m from the check of the total to its slot. */
  lemma Entering(limits: Limits, s0: Tracker, m: nat, p: nat, q: nat)
      returns (s1: Tracker, s2: Tracker, s3: Tracker, s4: Tracker)
    requires IsMix(s0, m, p, q) && m < p <= q && limits.perIp >= 1 && limits.perConn >= 1
    ensures Enabled(s0, Advance(m)) && Apply(s0, limits, Advance(m)) == s1
    ensures Enabled(s1, Advance(m)) && Apply(s1, limits, Advance(m)) == s2
    ensures Enabled(s2, Advance(m)) && Apply(s2, limits, Advance(m)) == s3
    ensures Enabled(s3, Advance(m)) && Apply(s3, limits, Advance(m)) == s4
    ensures s1.threads == s0.threads[m := Thread(m, m, ConnChecked)]
    ensures s2.threads == s0.threads[m := Thread(m, m, IpCounted)]
    ensures s3.threads == s0.threads[m := Thread(m, m, TotalCounted)]
    ensures IsMix(s4, m + 1, p, q)
  {
    var step := Advance(m);
    s1 := Apply(s0, limits, step);
    s2 := Apply(s1, limits, step);
    s3 := Apply(s2, limits, step);
    s4 := Apply(s3, limits, step);
    assert s2.perIp == s0.perIp[m := 1] && s3.total == m + 1;
    assert s4.threads == s0.threads[m := Thread(m, m, Holding)] && s4.perConn == s0.perConn[m := 1];
  }

  lemma AdmitNext(limits: Limits, n: nat, m: nat, p: nat, q: nat)
    requires m < p <= q && q - m <= n && limits.perIp >= 1 && limits.perConn >= 1
    requires CanMix(limits, n, m, p, q)
    ensures CanMix(limits, n, m + 1, p, q)
  {
    hide Reaches, Count, IsMix, Apply;
    var s0 :| IsMix(s0, m, p, q) && Reaches(limits, OwnPeers(), Overlapping(), n, s0);
    var s1, s2, s3, s4 := Entering(limits, s0, m, p, q);
    EnteringOverlap(s0, m, p, q, ConnChecked);
    EnteringOverlap(s0, m, p, q, IpCounted);
    EnteringOverlap(s0, m, p, q, TotalCounted);
    MixOverlap(s4, m + 1, p, q);
    ReachStep(limits, OwnPeers(), Overlapping(), n, s0, Advance(m));
    ReachStep(limits, OwnPeers(), Overlapping(), n, s1, Advance(m));
    ReachStep(limits, OwnPeers(), Overlapping(), n, s2, Advance(m));
    ReachStep(limits, OwnPeers(), Overlapping(), n, s3, Advance(m));
  }

  lemma MixStart(limits: Limits, n: nat)
    ensures CanMix(limits, n, 0, 0, 0)
  {
    hide Reaches;
    ReachStart(limits, OwnPeers(), Overlapping(), n);
    assert IsMix(Fresh, 0, 0, 0);
  }

  /** One acquire after the other fills m slots; then, with one slot left, n callers pass
      the check before any of them is counted. */
  lemma BurstOfTunnels(limits: Limits, n: nat, m: nat)
    requires m < limits.maxTunnels && n >= 1 && limits.perIp >= 1 && limits.perConn >= 1
    ensures CanMix(limits, n, m + n, m + n, m + n)
  {
    MixStart(limits, n);
    hide CanMix;
    for k := 0 to m
      invariant CanMix(limits, n, k, k, k)
    {
      CallNext(limits, n, k, k, k);
      CheckNext(limits, n, k, k, k + 1);
      AdmitNext(limits, n, k, k + 1, k + 1);
    }
    for k := 0 to n
      invariant CanMix(limits, n, m, m, m + k)
    {
      CallNext(limits, n, m, m, m + k);
    }
    for k := 0 to n
      invariant CanMix(limits, n, m, m + k, m + n)
    {
      CheckNext(limits, n, m, m + k, m + n);
    }
    for k := 0 to n
      invariant CanMix(limits, n, m + k, m + n, m + n)
    {
      AdmitNext(limits, n, m + k, m + n, m + n);
    }
  }

  /** The most tunnels there can be with at most n overlapping acquires. */
  function Peak(limits: Limits, n: nat): nat
    requires n >= 1
  {
    if RefusesAll(limits) then 0 else limits.maxTunnels + n - 1
  }

  lemma PeakIsReached(limits: Limits, n: nat)
    requires n >= 1
    ensures exists s :: Reaches(limits, OwnPeers(), Overlapping(), n, s) && s.total == Peak(limits, n)
  {
    hide Reaches;
    if RefusesAll(limits) {
      ReachStart(limits, OwnPeers(), Overlapping(), n);
      assert Fresh.total == 0;
    } else {
      var m := limits.maxTunnels - 1;
      BurstOfTunnels(limits, n, m);
      var s :| IsMix(s, m + n, m + n, m + n) && Reaches(limits, OwnPeers(), Overlapping(), n, s);
      assert s.total == Peak(limits, n);
    }
  }

  /** For all limits and any overlap n: a total of at least k can be reached if and only
      if k is at most max_tunnels + n - 1, or 0 when some limit is 0. */
  lemma TotalReachableIff(limits: Limits, n: nat, k: nat)
    requires n >= 1
    ensures (exists peers, s :: Reaches(limits, peers, Overlapping(), n, s) && s.total >= k) <==> k <= Peak(limits, n)
  {
    PeakIsReached(limits, n);
    forall peers, s | Reaches(limits, peers, Overlapping(), n, s) ensures s.total <= Peak(limits, n) {
      var run, steps :| ReachesBy(run, steps, limits, peers, Overlapping(), n, s);
      if RefusesAll(limits) {
        ZeroLimitsAdmitNone(run, limits, steps, |run| - 1);
      } else {
        TotalOvershoot(run, limits, steps, |run| - 1, n);
      }
    }
  }

  // ---- The map of addresses ----

  /** Every quiescent state of every run has an empty map. */
  ghost predicate MapEmptiesAlways(limits: Limits) {
    forall run: seq<Tracker>, steps: seq<Step>, i: nat ::
      IsRun(run, limits, steps) && i < |run| && run[i].threads == map[] ==> run[i].perIp == map[]
  }

  /** A refused acquire leaves its entry behind when the address limit is what refuses it. */
  lemma RefusedEntryStays(limits: Limits)
    requires limits.perIp == 0 && limits.perConn >= 1 && limits.maxTunnels >= 1
    ensures !MapEmptiesAlways(limits)
  {
    var ip, step := 7, Advance(0);
    var steps := [Call(0, ip, 0), step, step, step];
    var s1 := Fresh.(threads := map[0 := Thread(ip, 0, Start)]);
    var s2 := Fresh.(threads := map[0 := Thread(ip, 0, TotalChecked)]);
    var s3 := Fresh.(threads := map[0 := Thread(ip, 0, ConnChecked)]);
    var s4 := Fresh.(perIp := map[ip := 0]);
    assert s1 == Apply(Fresh, limits, steps[0]);
    assert s2 == Apply(s1, limits, step);
    assert s3 == Apply(s2, limits, step);
    assert s4 == Apply(s3, limits, step);
    var run := [Fresh, s1, s2, s3, s4];
    assert IsRun(run, limits, steps);
    assert run[4].threads == map[] && ip in run[4].perIp;
  }

  /** The map is empty whenever nothing is running if and only if the address limit is
      positive, or an earlier check refuses everyone. */
  lemma MapEmptiesIff(limits: Limits)
    ensures MapEmptiesAlways(limits) <==> limits.perIp >= 1 || limits.perConn == 0 || limits.maxTunnels == 0
  {
    if limits.perIp >= 1 || limits.perConn == 0 || limits.maxTunnels == 0 {
      forall run: seq<Tracker>, steps: seq<Step>, i: nat | IsRun(run, limits, steps) && i < |run| && run[i].threads == map[]
        ensures run[i].perIp == map[]
      {
        if limits.perIp >= 1 {
          QuiescenceIsEmpty(run, limits, steps, i);
        } else {
          ZeroLimitsAdmitNone(run, limits, steps, i);
        }
      }
    } else {
      RefusedEntryStays(limits);
    }
  }

  /** The gateway sets both limits of a client from one number, so its map always empties. */
  lemma OwnLimitsEmptyTheMap(limits: Limits)
    requires limits.perIp == limits.perConn
    ensures MapEmptiesAlways(limits)
  {
    MapEmptiesIff(limits);
  }
}
