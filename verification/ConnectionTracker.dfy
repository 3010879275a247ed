/** The tracker's own code, called without overlap: each call leaves the counters
    as the machine does when one thread takes all its steps in a row. */
module ConnectionTracker {
  import opened TunnelTracker

  /** Let one thread run until its call returns or its guard is gone. */
  function Solo(s: Tracker, limits: Limits, id: nat, until: Pc, fuel: nat): Tracker
    decreases fuel
  {
    if fuel == 0 || id !in s.threads || s.threads[id].pc == until then s
    else Solo(Apply(s, limits, Advance(id)), limits, id, until, fuel - 1)
  }

  /** One call of acquire whose steps run in a row. */
  function SoloAcquire(s: Tracker, limits: Limits, id: nat, ip: Ip, conn: Conn): Tracker
    requires id !in s.threads
  {
    Solo(Apply(s, limits, Call(id, ip, conn)), limits, id, Holding, 5)
  }

  /** What one acquire does when nothing overlaps it. */
  function Acquired(s: Tracker, limits: Limits, id: nat, ip: Ip, conn: Conn): Tracker {
    var count := Get(s.perIp, ip);
    if s.total >= limits.maxTunnels || Get(s.perConn, conn) >= limits.perConn then s
    else if count >= limits.perIp then s.(perIp := s.perIp[ip := count])
    else Tracker(s.total + 1, s.perIp[ip := count + 1], s.perConn[conn := Get(s.perConn, conn) + 1],
                 s.threads[id := Thread(ip, conn, Holding)])
  }

  function Before(s: Tracker, id: nat, ip: Ip, conn: Conn, pc: Pc): Tracker {
    s.(threads := s.threads[id := Thread(ip, conn, pc)])
  }

  /** From passing both counter checks to holding a slot. */
  lemma SoloFromConnChecked(s: Tracker, limits: Limits, id: nat, ip: Ip, conn: Conn)
    requires id !in s.threads && s.total < limits.maxTunnels && Get(s.perConn, conn) < limits.perConn
    ensures Solo(Before(s, id, ip, conn, ConnChecked), limits, id, Holding, 3) == Acquired(s, limits, id, ip, conn)
  {
    var s1 := Before(s, id, ip, conn, ConnChecked);
    var s2 := Apply(s1, limits, Advance(id));
    assert s1.threads - {id} == s.threads;
    if Get(s.perIp, ip) < limits.perIp {
      var s3 := Apply(s2, limits, Advance(id));
      var s4 := Apply(s3, limits, Advance(id));
      assert s4.threads == s.threads[id := Thread(ip, conn, Holding)];
      assert Solo(s3, limits, id, Holding, 1) == s4;
      assert Solo(s2, limits, id, Holding, 2) == s4;
    } else {
      assert Solo(s2, limits, id, Holding, 2) == s2;
    }
  }

  lemma EntryTouched(m: map<nat, nat>, k: nat, next: nat)
    ensures m[k := Get(m, k)][k := next] == m[k := next]
    ensures forall a: nat :: Get(m[k := Get(m, k)], a) == Get(m, a)
  {
  }

  lemma SoloFromStart(s: Tracker, limits: Limits, id: nat, ip: Ip, conn: Conn)
    requires id !in s.threads
    ensures SoloAcquire(s, limits, id, ip, conn) == Acquired(s, limits, id, ip, conn)
  {
    var s1 := Before(s, id, ip, conn, Start);
    assert s1.threads - {id} == s.threads;
    var s2 := Apply(s1, limits, Advance(id));
    if s.total < limits.maxTunnels {
      assert s2 == Before(s, id, ip, conn, TotalChecked);
      assert s2.threads - {id} == s.threads;
      if Get(s.perConn, conn) < limits.perConn {
        assert Apply(s2, limits, Advance(id)) == Before(s, id, ip, conn, ConnChecked);
        SoloFromConnChecked(s, limits, id, ip, conn);
      } else {
        assert Solo(Apply(s2, limits, Advance(id)), limits, id, Holding, 3) == s;
      }
      assert Solo(s2, limits, id, Holding, 4) == Acquired(s, limits, id, ip, conn);
    } else {
      assert Solo(s2, limits, id, Holding, 4) == s;
    }
  }

  class ConnectionTracker {
    var total: nat
    var perIp: map<Ip, nat>
    var perConn: map<Conn, nat>

    constructor ()
      ensures View(map[]) == Fresh
    {
      total, perIp, perConn := 0, map[], map[];
    }

    ghost function View(threads: map<nat, Thread>): Tracker
      reads this
    {
      Tracker(total, perIp, perConn, threads)
    }

    /** A slot, when the total, the connection and the address are all below
        their limits; otherwise every counter keeps its value. */
    method Acquire(ip: Ip, conn: Conn, limits: Limits, ghost others: map<nat, Thread>, ghost id: nat) returns (ok: bool)
      requires id !in others
      modifies this
      ensures ok <==> old(total) < limits.maxTunnels && Get(old(perConn), conn) < limits.perConn
                      && Get(old(perIp), ip) < limits.perIp
      ensures ok ==> total == old(total) + 1 && perIp == old(perIp)[ip := Get(old(perIp), ip) + 1]
                     && perConn == old(perConn)[conn := Get(old(perConn), conn) + 1]
      ensures !ok ==> total == old(total) && perConn == old(perConn)
                      && forall a: Ip :: Get(perIp, a) == Get(old(perIp), a)
      ensures SoloAcquire(old(View(others)), limits, id, ip, conn) ==
              View(if ok then others[id := Thread(ip, conn, Holding)] else others)
    {
      SoloFromStart(View(others), limits, id, ip, conn);
      hide SoloAcquire, Get;
      EntryTouched(perIp, ip, Get(perIp, ip) + 1);
      if total >= limits.maxTunnels || Get(perConn, conn) >= limits.perConn {
        return false;
      }
      var count := Get(perIp, ip);
      perIp := perIp[ip := count];
      if count >= limits.perIp {
        return false;
      }
      perIp := perIp[ip := count + 1];
      total := total + 1;
      perConn := perConn[conn := Get(perConn, conn) + 1];
      return true;
    }

    /** Dropping a guard: release, then the connection's counter. */
    method Drop(ip: Ip, conn: Conn, ghost limits: Limits, ghost others: map<nat, Thread>, ghost id: nat)
      requires id !in others && total > 0 && Get(perIp, ip) > 0 && Get(perConn, conn) > 0
      modifies this
      ensures total == old(total) - 1 && perConn == old(perConn)[conn := Get(old(perConn), conn) - 1]
      ensures perIp == if old(perIp)[ip] == 1 then old(perIp) - {ip} else old(perIp)[ip := old(perIp)[ip] - 1]
      ensures Solo(old(View(others[id := Thread(ip, conn, Holding)])), limits, id, Start, 3) == View(others)
    {
      ghost var s1 := View(others[id := Thread(ip, conn, Holding)]);
      ghost var s2 := Apply(s1, limits, Advance(id));
      ghost var s3 := Apply(s2, limits, Advance(id));
      ghost var s4 := Apply(s3, limits, Advance(id));
      total := total - 1;
      if perIp[ip] == 1 {
        perIp := perIp - {ip};
      } else {
        perIp := perIp[ip := perIp[ip] - 1];
      }
      perConn := perConn[conn := perConn[conn] - 1];
      assert s3.threads - {id} == others;
      assert s4 == View(others);
      assert Solo(s3, limits, id, Start, 1) == s4;
      assert Solo(s2, limits, id, Start, 2) == s4;
    }
  }

  /** A slot taken and given back leaves the counters as they were. */
  method AcquireThenDrop(tracker: ConnectionTracker, ip: Ip, conn: Conn, limits: Limits) returns (ok: bool)
    modifies tracker
    ensures tracker.total == old(tracker.total)
    ensures forall a: Ip :: Get(tracker.perIp, a) == Get(old(tracker.perIp), a)
    ensures Get(tracker.perConn, conn) == Get(old(tracker.perConn), conn)
  {
    ok := tracker.Acquire(ip, conn, limits, map[], 0);
    if ok {
      tracker.Drop(ip, conn, limits, map[], 0);
    }
  }
}
