/** The exact peak of one connection's counter, whatever its peer address. */
module TunnelConnLimits {
  import opened Counting
  import opened TunnelTracker
  import opened TunnelLimits

  /** Everything happens on one connection. The first m guards are being dropped, with
      only the connection's counter still to go down; caller m, if it is below p, has got
      as far as `pc`; those up to p have passed the check of the connection, and those up
      to q have just called. */
  datatype Queue = Queue(peers: Peers, conn: Conn, m: nat, p: nat, q: nat, pc: Pc) {
    ghost predicate Valid() {
      && m <= p <= q
      && pc !in {Start, TotalChecked} && (m == p ==> pc == ConnChecked)
    }

    function PcOf(id: nat): Pc {
      if id < m then IpReleased else if id >= p then Start else if id == m then pc else ConnChecked
    }

    function Counted(): nat { m + if pc in {Holding, TotalReleased, IpReleased} then 1 else 0 }

    ghost function Threads(): map<nat, Thread> {
      map id: nat | 0 <= id < q :: Thread(peers(conn), conn, PcOf(id))
    }

    ghost function State(): Tracker {
      Tracker(
        if pc in {TotalCounted, Holding} then 1 else 0,
        if pc in {IpCounted, TotalCounted, Holding, TotalReleased} then map[peers(conn) := 1] else map[],
        if Counted() == 0 then map[] else map[conn := Counted()],
        Threads())
    }
  }

  lemma {:induction false} QueueOverlap(x: Queue)
    requires x.Valid()
    ensures Count(x.State().threads, OverlappingOn(x.conn)) <= x.q - x.m
  {
    var keys := Keys(x.State().threads, OverlappingOn(x.conn));
    var range := set id | id in x.State().threads && x.m <= id;
    RangeSize(range, x.m, x.q);
    assert range == keys + (range - keys);
  }

  ghost predicate CanQueue(limits: Limits, n: nat, x: Queue) {
    Reaches(limits, x.peers, OverlappingOn(x.conn), n, x.State())
  }

  lemma QueueCall(limits: Limits, n: nat, x: Queue)
    requires x.Valid() && x.q + 1 - x.m <= n && CanQueue(limits, n, x)
    ensures CanQueue(limits, n, x.(q := x.q + 1))
  {
    hide Reaches, Count;
    var step := Call(x.q, x.peers(x.conn), x.conn);
    var y := x.(q := x.q + 1);
    assert Apply(x.State(), limits, step).threads == y.Threads();
    QueueOverlap(y);
    ReachStep(limits, x.peers, OverlappingOn(x.conn), n, x.State(), step);
  }

  /** The next caller passes the checks of total and connection. */
  lemma QueueCheck(limits: Limits, n: nat, x: Queue)
    requires x.Valid() && x.p < x.q && x.q - x.m <= n && x.pc == ConnChecked && CanQueue(limits, n, x)
    requires limits.maxTunnels >= 1 && x.m < limits.perConn
    ensures CanQueue(limits, n, x.(p := x.p + 1))
  {
    hide Reaches, Count;
    var y := x.(p := x.p + 1);
    var s := x.State();
    var half := At(s, x.p, TotalChecked);
    assert half == Apply(s, limits, Advance(x.p));
    QueueOverlap(x);
    StillOverlaps(s, x.p, TotalChecked, x.conn);
    ReachStep(limits, x.peers, OverlappingOn(x.conn), n, s, Advance(x.p));
    assert Apply(half, limits, Advance(x.p)).threads == y.Threads();
    QueueOverlap(y);
    ReachStep(limits, x.peers, OverlappingOn(x.conn), n, half, Advance(x.p));
  }

  lemma StillOverlaps(s: Tracker, id: nat, pc: Pc, c: Conn)
    requires id in s.threads && Acquiring(s.threads[id]) && Acquiring(s.threads[id].(pc := pc))
    ensures Count(At(s, id, pc).threads, OverlappingOn(c)) == Count(s.threads, OverlappingOn(c))
  {
    Moved(s, id, pc, OverlappingOn(c));
  }

  /** Caller m moves on by one step. */
  lemma QueueAdvance(limits: Limits, n: nat, x: Queue)
    requires x.Valid() && x.m < x.p && x.q - x.m <= n && x.pc != IpReleased && CanQueue(limits, n, x)
    requires limits.perIp >= 1
    ensures x.(pc := NextPc(x.pc)).Valid() && CanQueue(limits, n, x.(pc := NextPc(x.pc)))
  {
    hide Reaches, Count;
    var y := x.(pc := NextPc(x.pc));
    AdvanceState(limits, x);
    QueueOverlap(y);
    ReachStep(limits, x.peers, OverlappingOn(x.conn), n, x.State(), Advance(x.m));
  }

  lemma AdvanceState(limits: Limits, x: Queue)
    requires x.Valid() && x.m < x.p && x.pc != IpReleased && limits.perIp >= 1
    ensures Enabled(x.State(), Advance(x.m))
    ensures Apply(x.State(), limits, Advance(x.m)) == x.(pc := NextPc(x.pc)).State()
  {
    var y := x.(pc := NextPc(x.pc));
    assert At(x.State(), x.m, NextPc(x.pc)).threads == y.Threads();
    var ip := x.peers(x.conn);
    assert map[ip := 1] - {ip} == map[];
  }

  /** Caller m takes its slot, and drops it all but for the connection's counter. */
  lemma QueuePass(limits: Limits, n: nat, x: Queue)
    requires x.Valid() && x.m < x.p && x.q - x.m <= n && x.pc == ConnChecked && CanQueue(limits, n, x)
    requires limits.perIp >= 1
    ensures CanQueue(limits, n, x.(m := x.m + 1))
  {
    hide CanQueue;
    QueueAdvance(limits, n, x);
    QueueAdvance(limits, n, x.(pc := IpCounted));
    QueueAdvance(limits, n, x.(pc := TotalCounted));
    QueueAdvance(limits, n, x.(pc := Holding));
    QueueAdvance(limits, n, x.(pc := TotalReleased));
    SameQueue(limits, n, x.(pc := IpReleased));
  }

  lemma SameQueue(limits: Limits, n: nat, x: Queue)
    requires x.Valid() && x.m < x.p && x.pc == IpReleased && CanQueue(limits, n, x)
    ensures CanQueue(limits, n, x.(m := x.m + 1, pc := ConnChecked))
  {
    hide Reaches;
    assert x.(m := x.m + 1, pc := ConnChecked).Threads() == x.Threads();
  }

  function Idle(peers: Peers, c: Conn, m: nat, p: nat, q: nat): Queue { Queue(peers, c, m, p, q, ConnChecked) }

  /** The most that one connection's counter can show with at most n acquires
      overlapping on the connection. */
  function ConnPeak(limits: Limits, n: nat): nat
    requires n >= 1
  {
    if RefusesAll(limits) then 0 else limits.perConn + n - 1
  }

  /** One tunnel after the other, none of whose drops has finished; then, with one left,
      n callers pass the check before any of them is counted. */
  lemma Burst(limits: Limits, peers: Peers, c: Conn, n: nat, m: nat)
    requires n >= 1 && m < limits.perConn && !RefusesAll(limits) && CanQueue(limits, n, Idle(peers, c, 0, 0, 0))
    ensures CanQueue(limits, n, Idle(peers, c, m + n, m + n, m + n))
  {
    hide CanQueue;
    for k := 0 to m
      invariant CanQueue(limits, n, Idle(peers, c, k, k, k))
    {
      QueueCall(limits, n, Idle(peers, c, k, k, k));
      QueueCheck(limits, n, Idle(peers, c, k, k, k + 1));
      QueuePass(limits, n, Idle(peers, c, k, k + 1, k + 1));
    }
    for k := 0 to n
      invariant CanQueue(limits, n, Idle(peers, c, m, m, m + k))
    {
      QueueCall(limits, n, Idle(peers, c, m, m, m + k));
    }
    for k := 0 to n
      invariant CanQueue(limits, n, Idle(peers, c, m, m + k, m + n))
    {
      QueueCheck(limits, n, Idle(peers, c, m, m + k, m + n));
    }
    for k := 0 to n
      invariant CanQueue(limits, n, Idle(peers, c, m + k, m + n, m + n))
    {
      QueuePass(limits, n, Idle(peers, c, m + k, m + n, m + n));
    }
  }

  lemma ConnPeakIsReached(limits: Limits, peers: Peers, c: Conn, n: nat)
    requires n >= 1
    ensures exists s :: Reaches(limits, peers, OverlappingOn(c), n, s) && Get(s.perConn, c) == ConnPeak(limits, n)
  {
    if RefusesAll(limits) {
      ReachStart(limits, peers, OverlappingOn(c), n);
      assert Get(Fresh.perConn, c) == 0;
    } else {
      var m := limits.perConn - 1;
      var end := Idle(peers, c, m + n, m + n, m + n);
      assert Get(end.State().perConn, c) == ConnPeak(limits, n);
      ReachStart(limits, peers, OverlappingOn(c), n);
      assert Idle(peers, c, 0, 0, 0).State() == Fresh;
      assert CanQueue(limits, n, end) by { Burst(limits, peers, c, n, m); }
    }
  }

  /** For all limits, peer addresses, connections and overlaps n: a count of at least k can
      be reached if and only if k is at most per_conn + n - 1, or 0 when some limit is 0.
      An address limit of 1 does not lower it: a guard being dropped gives its address back
      before its connection. */
  lemma ConnReachableIff(limits: Limits, peers: Peers, c: Conn, n: nat, k: nat)
    requires n >= 1
    ensures (exists s :: Reaches(limits, peers, OverlappingOn(c), n, s) && Get(s.perConn, c) >= k) <==> k <= ConnPeak(limits, n)
  {
    ConnPeakIsReached(limits, peers, c, n);
    forall s | Reaches(limits, peers, OverlappingOn(c), n, s) ensures Get(s.perConn, c) <= ConnPeak(limits, n) {
      var run, steps :| ReachesBy(run, steps, limits, peers, OverlappingOn(c), n, s);
      if RefusesAll(limits) {
        ZeroLimitsAdmitNone(run, limits, steps, |run| - 1);
      } else {
        ConnOvershoot(run, limits, steps, |run| - 1, n, c);
      }
    }
  }
}
