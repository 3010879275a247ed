/** Tunnel accounting: three counters checked and updated one atomic operation at
    a time, by any number of overlapping acquires and drops. */
module TunnelTracker {
  import opened Counting

  type Ip = nat
  type Conn = nat

  datatype Limits = Limits(maxTunnels: nat, perIp: nat, perConn: nat)

  /** How far a call to acquire, or the drop of its guard, has got: named after
      the last atomic operation it completed. */
  datatype Pc =
    | Start | TotalChecked | ConnChecked | IpCounted | TotalCounted
    | Holding
    | TotalReleased | IpReleased

  datatype Thread = Thread(ip: Ip, conn: Conn, pc: Pc)

  datatype Tracker = Tracker(total: nat, perIp: map<Ip, nat>, perConn: map<Conn, nat>, threads: map<nat, Thread>)

  const Fresh := Tracker(0, map[], map[], map[])

  /** fetch_sub on a usize wraps. */
  const USIZE_MAX_64: nat := 0xFFFF_FFFF_FFFF_FFFF

  function Dec(n: nat): nat { if n == 0 then USIZE_MAX_64 else n - 1 }

  function Get(m: map<nat, nat>, k: nat): nat { if k in m then m[k] else 0 }

  datatype Step = Call(id: nat, ip: Ip, conn: Conn) | Advance(id: nat)

  predicate Enabled(s: Tracker, step: Step) {
    match step
    case Call(id, _, _) => id !in s.threads
    case Advance(id) => id in s.threads
  }

  function Refuse(s: Tracker, id: nat): Tracker { s.(threads := s.threads - {id}) }

  function At(s: Tracker, id: nat, pc: Pc): Tracker
    requires id in s.threads
  {
    s.(threads := s.threads[id := s.threads[id].(pc := pc)])
  }

  /** The locked section of acquire: the entry is created before it is checked. */
  function CheckIp(s: Tracker, limits: Limits, id: nat): Tracker
    requires id in s.threads
  {
    var ip := s.threads[id].ip;
    var count := Get(s.perIp, ip);
    if count >= limits.perIp then Refuse(s, id).(perIp := s.perIp[ip := count])
    else At(s, id, IpCounted).(perIp := s.perIp[ip := count + 1])
  }

  /** The locked section of release. */
  function ReleaseIp(s: Tracker, id: nat): Tracker
    requires id in s.threads
  {
    var ip := s.threads[id].ip;
    var after := At(s, id, IpReleased);
    if ip !in s.perIp then after
    else if Dec(s.perIp[ip]) == 0 then after.(perIp := s.perIp - {ip})
    else after.(perIp := s.perIp[ip := Dec(s.perIp[ip])])
  }

  function Apply(s: Tracker, limits: Limits, step: Step): Tracker
    requires Enabled(s, step)
  {
    match step
    case Call(id, ip, conn) => s.(threads := s.threads[id := Thread(ip, conn, Start)])
    case Advance(id) =>
      var t := s.threads[id];
      match t.pc
      case Start => if s.total >= limits.maxTunnels then Refuse(s, id) else At(s, id, TotalChecked)
      case TotalChecked => if Get(s.perConn, t.conn) >= limits.perConn then Refuse(s, id) else At(s, id, ConnChecked)
      case ConnChecked => CheckIp(s, limits, id)
      case IpCounted => At(s, id, TotalCounted).(total := s.total + 1)
      case TotalCounted => At(s, id, Holding).(perConn := s.perConn[t.conn := Get(s.perConn, t.conn) + 1])
      case Holding => At(s, id, TotalReleased).(total := Dec(s.total))
      case TotalReleased => ReleaseIp(s, id)
      case IpReleased => Refuse(s, id).(perConn := s.perConn[t.conn := Dec(Get(s.perConn, t.conn))])
  }

  ghost predicate IsRun(run: seq<Tracker>, limits: Limits, steps: seq<Step>) {
    && |run| == |steps| + 1 && run[0] == Fresh
    && forall i :: 0 <= i < |steps| ==> Enabled(run[i], steps[i]) && run[i + 1] == Apply(run[i], limits, steps[i])
  }

  // ---- Who is counted where ----

  predicate Acquiring(t: Thread) { t.pc in {Start, TotalChecked, ConnChecked, IpCounted, TotalCounted} }
  predicate PastTotalCheck(t: Thread) { t.pc in {TotalChecked, ConnChecked, IpCounted} }
  predicate PastConnCheck(t: Thread) { t.pc in {ConnChecked, IpCounted, TotalCounted} }

  ghost function InTotal(): Thread -> bool { (t: Thread) => t.pc in {TotalCounted, Holding} }
  ghost function InIp(ip: Ip): Thread -> bool {
    (t: Thread) => t.ip == ip && t.pc in {IpCounted, TotalCounted, Holding, TotalReleased}
  }
  ghost function InConn(conn: Conn): Thread -> bool {
    (t: Thread) => t.conn == conn && t.pc in {Holding, TotalReleased, IpReleased}
  }
  ghost function Overlapping(): Thread -> bool { (t: Thread) => Acquiring(t) }
  ghost function OverlappingOn(conn: Conn): Thread -> bool { (t: Thread) => t.conn == conn && Acquiring(t) }
  ghost function Committed(): Thread -> bool { (t: Thread) => PastTotalCheck(t) }
  ghost function CommittedOn(conn: Conn): Thread -> bool { (t: Thread) => t.conn == conn && PastConnCheck(t) }

  ghost predicate CountsAreTrue(s: Tracker) {
    && s.total == Count(s.threads, InTotal())
    && (forall ip: Ip :: Get(s.perIp, ip) == Count(s.threads, InIp(ip)))
    && (forall conn: Conn :: Get(s.perConn, conn) == Count(s.threads, InConn(conn)))
  }

  ghost predicate IpsWithinLimit(s: Tracker, limits: Limits) {
    && (forall ip: Ip :: Get(s.perIp, ip) <= limits.perIp)
    && (limits.perIp >= 1 ==> forall ip: Ip :: ip in s.perIp ==> s.perIp[ip] > 0)
  }

  /** What one thread's move does to a count. */
  lemma Moved(s: Tracker, id: nat, pc: Pc, p: Thread -> bool)
    requires id in s.threads
    ensures Count(At(s, id, pc).threads, p) ==
            Count(s.threads, p) - (if p(s.threads[id]) then 1 else 0) + (if p(s.threads[id].(pc := pc)) then 1 else 0)
    ensures Count(s.threads - {id}, p) == Count(s.threads, p) - (if p(s.threads[id]) then 1 else 0)
    ensures p(s.threads[id]) ==> Count(s.threads, p) >= 1
  {
    CountUpdate(s.threads, id, s.threads[id].(pc := pc), p);
    CountRemove(s.threads, id, p);
    if p(s.threads[id]) {
      CountMember(s.threads, id, p);
    }
  }

  function NextPc(pc: Pc): Pc {
    match pc
    case Start => TotalChecked
    case TotalChecked => ConnChecked
    case ConnChecked => IpCounted
    case IpCounted => TotalCounted
    case TotalCounted => Holding
    case Holding => TotalReleased
    case TotalReleased => IpReleased
    case IpReleased => IpReleased
  }

  lemma CallKeepsCounts(s: Tracker, limits: Limits, id: nat, ip: Ip, conn: Conn)
    requires CountsAreTrue(s) && Enabled(s, Call(id, ip, conn))
    ensures CountsAreTrue(Apply(s, limits, Call(id, ip, conn)))
  {
    var t := Thread(ip, conn, Start);
    CountUpdate(s.threads, id, t, InTotal());
    forall i: Ip ensures Count(s.threads[id := t], InIp(i)) == Count(s.threads, InIp(i)) {
      CountUpdate(s.threads, id, t, InIp(i));
    }
    forall c: Conn ensures Count(s.threads[id := t], InConn(c)) == Count(s.threads, InConn(c)) {
      CountUpdate(s.threads, id, t, InConn(c));
    }
  }

  lemma AdvanceKeepsIp(s: Tracker, limits: Limits, id: nat, ip: Ip)
    requires id in s.threads && Get(s.perIp, ip) == Count(s.threads, InIp(ip))
    ensures Get(Apply(s, limits, Advance(id)).perIp, ip) == Count(Apply(s, limits, Advance(id)).threads, InIp(ip))
  {
    Moved(s, id, NextPc(s.threads[id].pc), InIp(ip));
    hide Count;
  }

  lemma AdvanceKeepsConn(s: Tracker, limits: Limits, id: nat, conn: Conn)
    requires id in s.threads && Get(s.perConn, conn) == Count(s.threads, InConn(conn))
    ensures Get(Apply(s, limits, Advance(id)).perConn, conn) == Count(Apply(s, limits, Advance(id)).threads, InConn(conn))
  {
    Moved(s, id, NextPc(s.threads[id].pc), InConn(conn));
    hide Count;
  }

  lemma AdvanceKeepsCounts(s: Tracker, limits: Limits, id: nat)
    requires CountsAreTrue(s) && id in s.threads
    ensures CountsAreTrue(Apply(s, limits, Advance(id)))
  {
    var after := Apply(s, limits, Advance(id));
    AdvanceMovesTotal(s, limits, id);
    forall ip: Ip ensures Get(after.perIp, ip) == Count(after.threads, InIp(ip)) {
      assert Get(s.perIp, ip) == Count(s.threads, InIp(ip));
      AdvanceKeepsIp(s, limits, id, ip);
    }
    forall conn: Conn ensures Get(after.perConn, conn) == Count(after.threads, InConn(conn)) {
      assert Get(s.perConn, conn) == Count(s.threads, InConn(conn));
      AdvanceKeepsConn(s, limits, id, conn);
    }
  }

  lemma StepKeepsIpLimit(s: Tracker, limits: Limits, step: Step)
    requires CountsAreTrue(s) && IpsWithinLimit(s, limits) && Enabled(s, step)
    ensures IpsWithinLimit(Apply(s, limits, step), limits)
  {
    if step.Advance? && s.threads[step.id].pc.TotalReleased? {
      var ip := s.threads[step.id].ip;
      Moved(s, step.id, IpReleased, InIp(ip));
      assert Get(s.perIp, ip) >= 1;
    }
    var after := Apply(s, limits, step);
    forall ip: Ip ensures Get(after.perIp, ip) <= limits.perIp {
      assert Get(s.perIp, ip) <= limits.perIp;
    }
  }

  lemma {:induction false} RunKeeps(run: seq<Tracker>, limits: Limits, steps: seq<Step>, i: nat)
    requires IsRun(run, limits, steps) && i < |run|
    ensures CountsAreTrue(run[i]) && IpsWithinLimit(run[i], limits)
  {
    if i > 0 {
      RunKeeps(run, limits, steps, i - 1);
      match steps[i - 1] {
        case Call(id, ip, conn) => CallKeepsCounts(run[i - 1], limits, id, ip, conn);
        case Advance(id) => AdvanceKeepsCounts(run[i - 1], limits, id);
      }
      StepKeepsIpLimit(run[i - 1], limits, steps[i - 1]);
    } else {
      CountNone(Fresh.threads, InTotal());
      forall ip: Ip ensures Count(Fresh.threads, InIp(ip)) == 0 {
        CountNone(Fresh.threads, InIp(ip));
      }
      forall conn: Conn ensures Count(Fresh.threads, InConn(conn)) == 0 {
        CountNone(Fresh.threads, InConn(conn));
      }
    }
  }

  // ---- What the limits are worth ----

  /** In every interleaving: counters never underflow (a decrement always finds
      its counter positive), and no address ever exceeds its limit. */
  lemma CountersNeverUnderflow(run: seq<Tracker>, limits: Limits, steps: seq<Step>, i: nat, id: nat)
    requires IsRun(run, limits, steps) && i < |run| && id in run[i].threads
    ensures var s, t := run[i], run[i].threads[id];
            && (t.pc == Holding ==> s.total >= 1)
            && (t.pc == TotalReleased ==> t.ip in s.perIp && s.perIp[t.ip] >= 1)
            && (t.pc == IpReleased ==> Get(s.perConn, t.conn) >= 1)
            && Get(s.perIp, t.ip) <= limits.perIp
  {
    RunKeeps(run, limits, steps, i);
    var s, t := run[i], run[i].threads[id];
    Moved(s, id, t.pc, InTotal());
    Moved(s, id, t.pc, InIp(t.ip));
    Moved(s, id, t.pc, InConn(t.conn));
  }

  ghost predicate TotalBounded(s: Tracker, limits: Limits, n: nat) {
    s.total + Count(s.threads, Committed()) <= limits.maxTunnels + n - 1
  }

  ghost predicate ConnBounded(s: Tracker, limits: Limits, n: nat, c: Conn) {
    Get(s.perConn, c) + Count(s.threads, CommittedOn(c)) <= limits.perConn + n - 1
  }

  lemma StepKeepsTotalBound(s: Tracker, limits: Limits, step: Step, n: nat)
    requires Enabled(s, step) && s.total == Count(s.threads, InTotal()) && n >= 1 && TotalBounded(s, limits, n)
    requires Count(Apply(s, limits, step).threads, Overlapping()) <= n
    ensures TotalBounded(Apply(s, limits, step), limits, n)
  {
    var after := Apply(s, limits, step);
    match step
    case Call(id, ip, conn) => CountUpdate(s.threads, id, Thread(ip, conn, Start), Committed());
    case Advance(id) =>
      AdvanceMovesTotal(s, limits, id);
      CountAtMost(after.threads, Committed(), Overlapping());
  }

  /** Only passing the check can add to the commitments. */
  lemma AdvanceMovesTotal(s: Tracker, limits: Limits, id: nat)
    requires id in s.threads && s.total == Count(s.threads, InTotal())
    ensures Apply(s, limits, Advance(id)).total == Count(Apply(s, limits, Advance(id)).threads, InTotal())
    ensures var after := Apply(s, limits, Advance(id));
            var passes := s.threads[id].pc == Start && s.total < limits.maxTunnels;
            && Count(after.threads, InTotal()) + Count(after.threads, Committed()) <=
               Count(s.threads, InTotal()) + Count(s.threads, Committed()) + (if passes then 1 else 0)
            && (passes ==> Count(after.threads, InTotal()) == Count(s.threads, InTotal()))
  {
    Moved(s, id, NextPc(s.threads[id].pc), Committed());
    Moved(s, id, NextPc(s.threads[id].pc), InTotal());
    hide Count;
  }

  lemma StepKeepsConnBound(s: Tracker, limits: Limits, step: Step, n: nat, c: Conn)
    requires Enabled(s, step) && Get(s.perConn, c) == Count(s.threads, InConn(c)) && n >= 1 && ConnBounded(s, limits, n, c)
    requires Count(Apply(s, limits, step).threads, OverlappingOn(c)) <= n
    ensures ConnBounded(Apply(s, limits, step), limits, n, c)
  {
    var after := Apply(s, limits, step);
    match step
    case Call(id, ip, conn) => CountUpdate(s.threads, id, Thread(ip, conn, Start), CommittedOn(c));
    case Advance(id) =>
      AdvanceKeepsConn(s, limits, id, c);
      AdvanceMovesConn(s, limits, id, c);
      CountAtMost(after.threads, CommittedOn(c), OverlappingOn(c));
  }

  /** Only passing the check can add to a connection's commitments. */
  lemma AdvanceMovesConn(s: Tracker, limits: Limits, id: nat, c: Conn)
    requires id in s.threads
    ensures var t, after := s.threads[id], Apply(s, limits, Advance(id));
            var passes := t.pc == TotalChecked && t.conn == c && Get(s.perConn, c) < limits.perConn;
            && Count(after.threads, InConn(c)) + Count(after.threads, CommittedOn(c)) <=
               Count(s.threads, InConn(c)) + Count(s.threads, CommittedOn(c)) + (if passes then 1 else 0)
            && (passes ==> Count(after.threads, InConn(c)) == Count(s.threads, InConn(c)))
  {
    Moved(s, id, NextPc(s.threads[id].pc), CommittedOn(c));
    Moved(s, id, NextPc(s.threads[id].pc), InConn(c));
  }

  /** With at most n acquires overlapping at any time, the total never passes
      max_tunnels + n - 1: exactly the limit when they do not overlap. */
  lemma {:induction false} TotalOvershoot(run: seq<Tracker>, limits: Limits, steps: seq<Step>, i: nat, n: nat)
    requires IsRun(run, limits, steps) && i < |run| && n >= 1
    requires forall j :: 0 <= j <= i ==> Count(run[j].threads, Overlapping()) <= n
    ensures TotalBounded(run[i], limits, n)
    ensures run[i].total <= limits.maxTunnels + n - 1
  {
    if i > 0 {
      TotalOvershoot(run, limits, steps, i - 1, n);
      RunKeeps(run, limits, steps, i - 1);
      assert Enabled(run[i - 1], steps[i - 1]) && run[i - 1 + 1] == Apply(run[i - 1], limits, steps[i - 1]);
      StepKeepsTotalBound(run[i - 1], limits, steps[i - 1], n);
    } else {
      CountNone(Fresh.threads, Committed());
    }
  }

  /** The same for one connection's counter and the acquires overlapping on it. */
  lemma {:induction false} ConnOvershoot(run: seq<Tracker>, limits: Limits, steps: seq<Step>, i: nat, n: nat, c: Conn)
    requires IsRun(run, limits, steps) && i < |run| && n >= 1
    requires forall j :: 0 <= j <= i ==> Count(run[j].threads, OverlappingOn(c)) <= n
    ensures ConnBounded(run[i], limits, n, c)
    ensures Get(run[i].perConn, c) <= limits.perConn + n - 1
  {
    if i > 0 {
      ConnOvershoot(run, limits, steps, i - 1, n, c);
      RunKeeps(run, limits, steps, i - 1);
      assert Enabled(run[i - 1], steps[i - 1]) && run[i - 1 + 1] == Apply(run[i - 1], limits, steps[i - 1]);
      assert Get(run[i - 1].perConn, c) == Count(run[i - 1].threads, InConn(c));
      StepKeepsConnBound(run[i - 1], limits, steps[i - 1], n, c);
    } else {
      CountNone(Fresh.threads, CommittedOn(c));
    }
  }

  /** When every call has been refused or dropped, nothing is left counted; the
      map of addresses is empty too, provided per_ip is at least 1. */
  lemma QuiescenceIsEmpty(run: seq<Tracker>, limits: Limits, steps: seq<Step>, i: nat)
    requires IsRun(run, limits, steps) && i < |run| && run[i].threads == map[]
    ensures run[i].total == 0
    ensures forall conn: Conn :: Get(run[i].perConn, conn) == 0
    ensures limits.perIp >= 1 ==> run[i].perIp == map[]
  {
    RunKeeps(run, limits, steps, i);
    CountNone(run[i].threads, InTotal());
    forall ip: Ip ensures Get(run[i].perIp, ip) == 0 {
      CountNone(run[i].threads, InIp(ip));
    }
    forall conn: Conn ensures Get(run[i].perConn, conn) == 0 {
      CountNone(run[i].threads, InConn(conn));
    }
    if limits.perIp >= 1 {
      forall ip: Ip ensures ip !in run[i].perIp {
        assert Get(run[i].perIp, ip) == 0;
      }
    }
  }
}
