/** Concurrent CONNECTs and fetches over the gateway list. Every await in
    #connectKps and gatewayFetch is a place where other operations run, so a
    step is what happens between two awaits. */
module GatewayConnects {
  import opened Bytes
  import opened Counting
  import opened Shuffle
  import opened GatewaySelection

  datatype Outcome = Running | Succeeded(gateway: nat) | AllFailed

  /** One request put on the wire: to this gateway, for this target. */
  datatype Request = Request(gateway: nat, target: string)

  /** One connect (which counts towards the load) or fetch (which does not):
      the candidates as ordered when it began, how many were given up, and the
      requests it has made. */
  datatype Operation = Operation(
    counts: bool, target: string, order: seq<nat>, tried: nat, outcome: Outcome, requests: seq<Request>)

  datatype Provider = Provider(
    states: seq<GatewayState>,
    timing: Timing,
    operations: map<nat, Operation>,
    tunnels: map<nat, nat>,
    lastFailure: map<nat, int>)

  datatype Step =
    | Begin(id: nat, counts: bool, target: string, now: int)
    | Succeed(id: nat, tunnel: nat)
    | Fail(id: nat, now: int, jitter: real)
    | TunnelCloses(tunnel: nat)

  predicate Enabled(p: Provider, step: Step) {
    match step
    case Begin(id, _, _, _) => id !in p.operations && p.states != []
    case Succeed(id, tunnel) => id in p.operations && p.operations[id].outcome.Running? && tunnel !in p.tunnels
    case Fail(id, _, jitter) => id in p.operations && p.operations[id].outcome.Running? && 0.0 <= jitter < 1.0
    case TunnelCloses(tunnel) => tunnel in p.tunnels
  }

  function Load(states: seq<GatewayState>, g: nat, delta: int): seq<GatewayState> {
    if g < |states| then states[g := states[g].(inFlight := states[g].inFlight + delta)] else states
  }

  /** Try the next candidate, or give up when there is none. */
  function Attempt(op: Operation): Operation {
    if op.tried < |op.order| then
      op.(requests := op.requests + [Request(op.order[op.tried], op.target)])
    else op.(outcome := AllFailed)
  }

  function Weight(op: Operation): int { if op.counts then 1 else 0 }

  function Current(op: Operation): nat { if op.tried < |op.order| then op.order[op.tried] else 0 }

  function DoBegin(p: Provider, id: nat, counts: bool, target: string, now: int): Provider {
    var op := Attempt(Operation(counts, target, Candidates(p.states, now), 0, Running, []));
    p.(operations := p.operations[id := op], states := Load(p.states, Current(op), Weight(op)))
  }

  function DoSucceed(p: Provider, id: nat, tunnel: nat): Provider
    requires Enabled(p, Succeed(id, tunnel))
  {
    var op := p.operations[id];
    var g := Current(op);
    p.(operations := p.operations[id := op.(outcome := Succeeded(g))],
       states := if g < |p.states| then p.states[g := OnSuccess(p.states[g])] else p.states,
       tunnels := if op.counts then p.tunnels[tunnel := g] else p.tunnels)
  }

  function DoFail(p: Provider, id: nat, now: int, jitter: real): Provider
    requires Enabled(p, Fail(id, now, jitter))
  {
    var op := p.operations[id];
    var g := Current(op);
    var next := Attempt(op.(tried := op.tried + 1));
    var released := Load(p.states, g, -Weight(op));
    var cooled := if g < |released| then released[g := OnFailure(released[g], p.timing, now, jitter)] else released;
    p.(operations := p.operations[id := next],
       states := if next.outcome.Running? then Load(cooled, Current(next), Weight(next)) else cooled,
       lastFailure := p.lastFailure[g := now])
  }

  function Apply(p: Provider, step: Step): Provider
    requires Enabled(p, step)
  {
    match step
    case Begin(id, counts, target, now) => DoBegin(p, id, counts, target, now)
    case Succeed(id, tunnel) => DoSucceed(p, id, tunnel)
    case Fail(id, now, jitter) => DoFail(p, id, now, jitter)
    case TunnelCloses(tunnel) =>
      p.(tunnels := p.tunnels - {tunnel}, states := Load(p.states, p.tunnels[tunnel], -1))
  }

  predicate Initial(p: Provider) {
    p.operations == map[] && p.tunnels == map[] && p.lastFailure == map[]
    && forall g :: 0 <= g < |p.states| ==> p.states[g] == GatewayState(0, 0, 0)
  }

  ghost predicate IsRun(run: seq<Provider>, steps: seq<Step>) {
    && |run| == |steps| + 1 && Initial(run[0])
    && forall i :: 0 <= i < |steps| ==> Enabled(run[i], steps[i]) && run[i + 1] == Apply(run[i], steps[i])
  }

  // ---- What every run keeps ----

  predicate Attempting(op: Operation, g: nat) { op.counts && op.outcome.Running? && Current(op) == g }

  ghost function AttemptingOn(g: nat): Operation -> bool { op => Attempting(op, g) }
  ghost function TunnelOn(g: nat): nat -> bool { t => t == g }

  /** Running CONNECT attempts plus open tunnels. */
  ghost function TrueLoad(p: Provider, g: nat): nat {
    Count(p.operations, AttemptingOn(g)) + Count(p.tunnels, TunnelOn(g))
  }

  ghost predicate LoadsAreTrue(p: Provider) {
    forall g: nat :: g < |p.states| ==> p.states[g].inFlight == TrueLoad(p, g)
  }

  /** The order covers each of n gateways once; the requests are, in that order,
      one per gateway tried so far, all for the operation's own target. */
  ghost predicate Honest(op: Operation, n: nat) {
    && Distinct(op.order) && |op.order| == n && (forall g: nat :: g in op.order <==> g < n)
    && (if op.outcome.AllFailed? then op.tried == n else op.tried < n)
    && |op.requests| == (if op.outcome.AllFailed? then n else op.tried + 1)
    && (forall k :: 0 <= k < |op.requests| ==> op.requests[k] == Request(op.order[k], op.target))
    && (op.outcome.Succeeded? ==> op.outcome.gateway == op.order[op.tried])
  }

  ghost predicate AllHonest(p: Provider) {
    && (forall id :: id in p.operations ==> Honest(p.operations[id], |p.states|))
    && (forall t :: t in p.tunnels ==> p.tunnels[t] < |p.states|)
  }

  ghost predicate Cooled(p: Provider) {
    forall g: nat :: g < |p.states| && p.states[g].notBefore != 0 ==>
      g in p.lastFailure && p.states[g].notBefore <= p.lastFailure[g] + p.timing.cooldownMaxMs
  }

  lemma BeginIsHonest(p: Provider, id: nat, counts: bool, target: string, now: int)
    requires AllHonest(p) && Enabled(p, Begin(id, counts, target, now))
    ensures AllHonest(DoBegin(p, id, counts, target, now))
  {
    CandidatesCoverAll(p.states, now);
  }

  lemma SucceedIsHonest(p: Provider, id: nat, tunnel: nat)
    requires AllHonest(p) && Enabled(p, Succeed(id, tunnel))
    ensures AllHonest(DoSucceed(p, id, tunnel))
  {
    assert Current(p.operations[id]) in p.operations[id].order;
  }

  lemma StepIsHonest(p: Provider, step: Step)
    requires AllHonest(p) && Enabled(p, step)
    ensures AllHonest(Apply(p, step)) && |Apply(p, step).states| == |p.states|
  {
    hide Honest, Candidates;
    match step
    case Begin(id, counts, target, now) => BeginIsHonest(p, id, counts, target, now);
    case Succeed(id, tunnel) => SucceedIsHonest(p, id, tunnel);
    case Fail(id, now, jitter) => FailIsHonest(p.operations[id], |p.states|);
    case TunnelCloses(tunnel) => assert Apply(p, step).operations == p.operations;
  }

  lemma FailIsHonest(op: Operation, n: nat)
    requires Honest(op, n) && op.outcome.Running?
    ensures Honest(Attempt(op.(tried := op.tried + 1)), n)
  {
  }

  lemma BeginKeepsLoads(p: Provider, id: nat, counts: bool, target: string, now: int)
    requires LoadsAreTrue(p) && AllHonest(p) && Enabled(p, Begin(id, counts, target, now))
    ensures LoadsAreTrue(DoBegin(p, id, counts, target, now))
  {
    var q := DoBegin(p, id, counts, target, now);
    CandidatesCoverAll(p.states, now);
    forall g: nat | g < |q.states| ensures q.states[g].inFlight == TrueLoad(q, g) {
      CountUpdate(p.operations, id, q.operations[id], AttemptingOn(g));
    }
  }

  lemma SucceedKeepsLoads(p: Provider, id: nat, tunnel: nat)
    requires LoadsAreTrue(p) && AllHonest(p) && Enabled(p, Succeed(id, tunnel))
    ensures LoadsAreTrue(DoSucceed(p, id, tunnel))
  {
    var q := DoSucceed(p, id, tunnel);
    forall g: nat | g < |q.states| ensures q.states[g].inFlight == TrueLoad(q, g) {
      CountUpdate(p.operations, id, q.operations[id], AttemptingOn(g));
      CountUpdate(p.tunnels, tunnel, Current(p.operations[id]), TunnelOn(g));
    }
  }

  lemma FailKeepsLoads(p: Provider, id: nat, now: int, jitter: real)
    requires LoadsAreTrue(p) && AllHonest(p) && Enabled(p, Fail(id, now, jitter))
    ensures LoadsAreTrue(DoFail(p, id, now, jitter))
  {
    var q := DoFail(p, id, now, jitter);
    forall g: nat | g < |q.states| ensures q.states[g].inFlight == TrueLoad(q, g) {
      CountUpdate(p.operations, id, q.operations[id], AttemptingOn(g));
    }
  }

  lemma StepKeepsLoads(p: Provider, step: Step)
    requires LoadsAreTrue(p) && AllHonest(p) && Enabled(p, step)
    ensures LoadsAreTrue(Apply(p, step))
  {
    match step
    case Begin(id, counts, target, now) => BeginKeepsLoads(p, id, counts, target, now);
    case Succeed(id, tunnel) => SucceedKeepsLoads(p, id, tunnel);
    case Fail(id, now, jitter) => FailKeepsLoads(p, id, now, jitter);
    case TunnelCloses(tunnel) =>
      var q := Apply(p, step);
      forall g: nat | g < |q.states| ensures q.states[g].inFlight == TrueLoad(q, g) {
        CountRemove(p.tunnels, tunnel, TunnelOn(g));
      }
  }

  lemma StepKeepsCooled(p: Provider, step: Step)
    requires Cooled(p) && Enabled(p, step)
    ensures Cooled(Apply(p, step))
  {
    hide Candidates, Cooldown, Pause, Attempt;
    if step.Fail? {
      var g := Current(p.operations[step.id]);
      var released := Load(p.states, g, -Weight(p.operations[step.id]));
      if g < |released| {
        CooldownBounds(released[g], p.timing, step.now, step.jitter);
      }
    }
  }

  lemma {:induction false} RunKeeps(run: seq<Provider>, steps: seq<Step>, i: nat)
    requires IsRun(run, steps) && i < |run|
    ensures LoadsAreTrue(run[i]) && AllHonest(run[i]) && Cooled(run[i])
    ensures |run[i].states| == |run[0].states| && run[i].timing == run[0].timing
  {
    if i > 0 {
      RunKeeps(run, steps, i - 1);
      StepIsHonest(run[i - 1], steps[i - 1]);
      StepKeepsLoads(run[i - 1], steps[i - 1]);
      StepKeepsCooled(run[i - 1], steps[i - 1]);
    } else {
      forall g: nat | g < |run[0].states| ensures run[0].states[g].inFlight == TrueLoad(run[0], g) {
        CountNone(run[0].operations, AttemptingOn(g));
        CountNone(run[0].tunnels, TunnelOn(g));
      }
    }
  }

  // ---- What that means ----

  /** In every interleaving a gateway's load is the number of its CONNECT attempts
      and open tunnels, and its cooldown ends at most cooldownMaxMs after its
      latest failure. */
  lemma LoadAndCooldown(run: seq<Provider>, steps: seq<Step>, i: nat, g: nat)
    requires IsRun(run, steps) && i < |run| && g < |run[i].states|
    ensures run[i].states[g].inFlight == TrueLoad(run[i], g)
    ensures run[i].states[g].notBefore == 0
            || (g in run[i].lastFailure
                && run[i].states[g].notBefore <= run[i].lastFailure[g] + run[i].timing.cooldownMaxMs)
  {
    RunKeeps(run, steps, i);
  }

  /** Whom an operation is waiting for: the gateway of its latest request. */
  function Asked(p: Provider, id: nat): Option<nat> {
    if id in p.operations && p.operations[id].requests != [] then
      Some(p.operations[id].requests[|p.operations[id].requests| - 1].gateway)
    else None
  }

  /** The failures of a gateway in a row, up to moment i: since its last success. */
  function Streak(run: seq<Provider>, steps: seq<Step>, i: nat, g: nat): nat
    requires i <= |steps| < |run|
  {
    if i == 0 then 0
    else match steps[i - 1]
      case Fail(id, _, _) => Streak(run, steps, i - 1, g) + (if Asked(run[i - 1], id) == Some(g) then 1 else 0)
      case Succeed(id, _) => if Asked(run[i - 1], id) == Some(g) then 0 else Streak(run, steps, i - 1, g)
      case _ => Streak(run, steps, i - 1, g)
  }

  /** When its latest failure up to moment i was. */
  function FailedAt(run: seq<Provider>, steps: seq<Step>, i: nat, g: nat): Option<int>
    requires i <= |steps| < |run|
  {
    if i == 0 then None
    else match steps[i - 1]
      case Fail(id, now, _) => if Asked(run[i - 1], id) == Some(g) then Some(now) else FailedAt(run, steps, i - 1, g)
      case _ => FailedAt(run, steps, i - 1, g)
  }

  /** After n failures in a row, doubled n - 1 times: the cooldown of base, capped. */
  function Doubled(base: nat, n: nat): nat { if n <= 1 then base else 2 * Doubled(base, n - 1) }

  ghost predicate CoolsByStreak(p: Provider, g: nat, streak: nat, failedAt: Option<int>)
    requires g < |p.states|
  {
    && p.states[g].failures == streak
    && (streak == 0 ==> p.states[g].notBefore == 0)
    && (streak > 0 ==>
          && failedAt.Some?
          && var full, pause := Doubled(p.timing.cooldownBaseMs, streak), p.states[g].notBefore - failedAt.value;
             if full <= p.timing.cooldownMaxMs then full <= 2 * pause <= 2 * full
             else p.timing.cooldownMaxMs <= 2 * pause <= 2 * p.timing.cooldownMaxMs)
  }

  lemma {:induction false} DoubledIs(base: nat, n: nat)
    requires n > 0
    ensures Doubled(base, n) == base * Pow2(n - 1)
  {
    if n > 1 {
      DoubledIs(base, n - 1);
      assert base * (2 * Pow2(n - 2)) == 2 * (base * Pow2(n - 2));
    }
  }

  lemma AskedIsCurrent(p: Provider, id: nat)
    requires AllHonest(p) && id in p.operations && p.operations[id].outcome.Running?
    ensures Asked(p, id) == Some(Current(p.operations[id])) && Current(p.operations[id]) < |p.states|
  {
    assert Honest(p.operations[id], |p.states|);
    var op := p.operations[id];
    assert op.order[op.tried] in op.order;
  }

  lemma FreshIsReady(p: Provider, g: nat)
    requires Initial(p) && g < |p.states|
    ensures CoolsByStreak(p, g, 0, None)
  {
  }

  /** Over every run: a gateway is ready after a success, and after n failures in a row
      it pauses from its latest failure for between half and all of base doubled n - 1
      times, or of the maximum when that is less. */
  lemma {:induction false} PauseAfterFailures(run: seq<Provider>, steps: seq<Step>, i: nat, g: nat)
    requires IsRun(run, steps) && i < |run| && g < |run[i].states|
    ensures CoolsByStreak(run[i], g, Streak(run, steps, i, g), FailedAt(run, steps, i, g))
  {
    hide LoadsAreTrue, AllHonest, Cooled, CoolsByStreak, Apply, Enabled, Asked, Initial;
    if i == 0 {
      FreshIsReady(run[0], g);
    } else {
      RunKeeps(run, steps, i - 1);
      RunKeeps(run, steps, i);
      PauseAfterFailures(run, steps, i - 1, g);
      assert Enabled(run[i - 1], steps[i - 1]) && run[i - 1 + 1] == Apply(run[i - 1], steps[i - 1]);
      StepCools(run[i - 1], steps[i - 1], g, Streak(run, steps, i - 1, g), FailedAt(run, steps, i - 1, g));
    }
  }

  lemma StepCools(p: Provider, step: Step, g: nat, streak: nat, failedAt: Option<int>)
    requires AllHonest(p) && Enabled(p, step) && g < |p.states| && CoolsByStreak(p, g, streak, failedAt)
    ensures |Apply(p, step).states| == |p.states|
    ensures match step
            case Fail(id, now, _) =>
              if Asked(p, id) == Some(g) then CoolsByStreak(Apply(p, step), g, streak + 1, Some(now))
              else CoolsByStreak(Apply(p, step), g, streak, failedAt)
            case Succeed(id, _) =>
              CoolsByStreak(Apply(p, step), g, if Asked(p, id) == Some(g) then 0 else streak, failedAt)
            case _ => CoolsByStreak(Apply(p, step), g, streak, failedAt)
  {
    hide Candidates, AllHonest, CoolsByStreak;
    match step
    case Fail(id, now, jitter) =>
      AskedIsCurrent(p, id);
      FailCools(p, id, now, jitter, g, streak, failedAt);
    case Succeed(id, tunnel) =>
      AskedIsCurrent(p, id);
      SucceedCools(p, id, tunnel, g, streak, failedAt);
    case _ => SameCools(p, Apply(p, step), g, streak, failedAt);
  }

  /** Loads have no part in it. */
  lemma SameCools(p: Provider, q: Provider, g: nat, streak: nat, failedAt: Option<int>)
    requires g < |p.states| == |q.states| && CoolsByStreak(p, g, streak, failedAt) && q.timing == p.timing
    requires q.states[g].failures == p.states[g].failures && q.states[g].notBefore == p.states[g].notBefore
    ensures CoolsByStreak(q, g, streak, failedAt)
  {
  }

  lemma SucceedCools(p: Provider, id: nat, tunnel: nat, g: nat, streak: nat, failedAt: Option<int>)
    requires Enabled(p, Succeed(id, tunnel)) && g < |p.states| && CoolsByStreak(p, g, streak, failedAt)
    ensures |DoSucceed(p, id, tunnel).states| == |p.states|
    ensures CoolsByStreak(DoSucceed(p, id, tunnel), g, if Current(p.operations[id]) == g then 0 else streak, failedAt)
  {
  }

  lemma FailCools(p: Provider, id: nat, now: int, jitter: real, g: nat, streak: nat, failedAt: Option<int>)
    requires Enabled(p, Fail(id, now, jitter)) && g < |p.states| && CoolsByStreak(p, g, streak, failedAt)
    ensures |DoFail(p, id, now, jitter).states| == |p.states|
    ensures if Current(p.operations[id]) == g then CoolsByStreak(DoFail(p, id, now, jitter), g, streak + 1, Some(now))
            else CoolsByStreak(DoFail(p, id, now, jitter), g, streak, failedAt)
  {
    var s := p.states[g];
    var q := DoFail(p, id, now, jitter);
    if Current(p.operations[id]) == g {
      var released := Load(p.states, g, -Weight(p.operations[id]))[g];
      assert q.states[g].failures == streak + 1;
      assert q.states[g].notBefore == OnFailure(released, p.timing, now, jitter).notBefore;
      CooldownBounds(released, p.timing, now, jitter);
      DoubledIs(p.timing.cooldownBaseMs, streak + 1);
      hide OnFailure, Pow2, DoFail;
    } else {
      SameCools(p, q, g, streak, failedAt);
    }
  }

  /** An operation asks each gateway at most once, and always for its own target:
      no gateway can steer it to another one by refusing. */
  lemma OneTargetOneTry(run: seq<Provider>, steps: seq<Step>, i: nat, id: nat, a: nat, b: nat)
    requires IsRun(run, steps) && i < |run| && id in run[i].operations
    requires a < b < |run[i].operations[id].requests|
    ensures var op := run[i].operations[id];
            op.requests[a].gateway != op.requests[b].gateway && op.requests[a].target == op.requests[b].target == op.target
  {
    RunKeeps(run, steps, i);
  }

  /** It gives up only after every configured gateway was asked. */
  lemma GivesUpOnlyAfterAll(run: seq<Provider>, steps: seq<Step>, i: nat, id: nat, g: nat)
    requires IsRun(run, steps) && i < |run| && id in run[i].operations
    requires run[i].operations[id].outcome.AllFailed? && g < |run[i].states|
    ensures Request(g, run[i].operations[id].target) in run[i].operations[id].requests
  {
    RunKeeps(run, steps, i);
    var op := run[i].operations[id];
    assert g in op.order;
    var k :| 0 <= k < |op.order| && op.order[k] == g;
    assert op.requests[k] == Request(g, op.target);
  }

  /** With every connect finished and every tunnel closed, no load is left over. */
  lemma NoLoadLeaks(run: seq<Provider>, steps: seq<Step>, i: nat, g: nat)
    requires IsRun(run, steps) && i < |run| && g < |run[i].states|
    requires run[i].tunnels == map[]
    requires forall id :: id in run[i].operations ==> !run[i].operations[id].outcome.Running?
    ensures run[i].states[g].inFlight == 0
  {
    RunKeeps(run, steps, i);
    CountNone(run[i].operations, AttemptingOn(g));
    CountNone(run[i].tunnels, TunnelOn(g));
  }

  lemma StepKeepsRequests(p: Provider, step: Step, id: nat)
    requires Enabled(p, step) && id in p.operations
    ensures id in Apply(p, step).operations && Apply(p, step).operations[id].order == p.operations[id].order
    ensures p.operations[id].requests <= Apply(p, step).operations[id].requests
  {
    hide Candidates, Load, OnFailure, OnSuccess;
  }

  lemma {:induction false} RequestsStay(run: seq<Provider>, steps: seq<Step>, i: nat, j: nat, id: nat)
    requires IsRun(run, steps) && i <= j < |run| && id in run[i].operations
    ensures id in run[j].operations && run[j].operations[id].order == run[i].operations[id].order
    ensures run[i].operations[id].requests <= run[j].operations[id].requests
    decreases j - i
  {
    hide Enabled, Apply;
    if i < j {
      RequestsStay(run, steps, i, j - 1, id);
      assert Enabled(run[j - 1], steps[j - 1]) && run[j - 1 + 1] == Apply(run[j - 1], steps[j - 1]);
      hide IsRun;
      StepKeepsRequests(run[j - 1], steps[j - 1], id);
    }
  }

  /** Whatever runs beside it, an operation asks first the gateway that was the least loaded
      of the first two ready ones when it began, the earlier one on a tie. */
  lemma FirstChoice(run: seq<Provider>, steps: seq<Step>, i: nat, j: nat, g: nat)
    requires IsRun(run, steps) && i < j < |run| && steps[i].Begin?
    requires AmongFirstTwoReady(run[i].states, steps[i].now, g)
    ensures steps[i].id in run[j].operations && run[j].operations[steps[i].id].requests != []
    ensures var first := run[j].operations[steps[i].id].requests[0].gateway;
            && AmongFirstTwoReady(run[i].states, steps[i].now, first)
            && (first != g ==> Before(first, g, Loads(run[i].states)))
  {
    var p, s := run[i], steps[i];
    assert Enabled(p, s) && run[i + 1] == Apply(p, s);
    RequestsStay(run, steps, i + 1, j, s.id);
    hide Candidates, IsRun, Load, AmongFirstTwoReady, Before;
    HeadIsLeastLoaded(p.states, s.now, g);
    var c := Candidates(p.states, s.now);
    assert run[i + 1].operations[s.id].requests == [] + [Request(c[0], s.target)];
  }

  // ---- Any gateway can be the one that serves ----

  /** A provider as it is constructed. */
  lemma FreshRun(n: nat, timing: Timing)
    ensures IsRun([Provider(seq(n, i requires 0 <= i < n => GatewayState(0, 0, 0)), timing, map[], map[], map[])], [])
  {
  }

  lemma OneMoreStep(run: seq<Provider>, steps: seq<Step>, step: Step)
    requires IsRun(run, steps) && Enabled(run[|steps|], step)
    ensures IsRun(run + [Apply(run[|steps|], step)], steps + [step])
  {
    hide Enabled, Apply, Initial;
    var longer, longerSteps := run + [Apply(run[|steps|], step)], steps + [step];
    forall i | 0 <= i < |longerSteps|
      ensures Enabled(longer[i], longerSteps[i]) && longer[i + 1] == Apply(longer[i], longerSteps[i])
    {
      if i < |steps| {
        assert Enabled(run[i], steps[i]) && run[i + 1] == Apply(run[i], steps[i]);
      }
    }
  }

  ghost predicate WaitsForNth(p: Provider, id: nat, k: nat, n: nat, order: seq<nat>, tunnel: nat) {
    && id in p.operations && p.operations[id].outcome.Running? && p.operations[id].tried == k < n == |order|
    && p.operations[id].order == order && tunnel !in p.tunnels
  }

  lemma FailMovesOn(p: Provider, id: nat, now: int, k: nat, n: nat, order: seq<nat>, tunnel: nat)
    requires WaitsForNth(p, id, k, n, order, tunnel) && k + 1 < n
    ensures Enabled(p, Fail(id, now, 0.0)) && WaitsForNth(Apply(p, Fail(id, now, 0.0)), id, k + 1, n, order, tunnel)
  {
    hide OnFailure, Load;
  }

  lemma {:induction false} CanWaitForNth(run: seq<Provider>, steps: seq<Step>, id: nat, now: int, from: nat, k: nat,
                                         order: seq<nat>, tunnel: nat)
      returns (more: seq<Provider>, moreSteps: seq<Step>)
    requires IsRun(run, steps) && WaitsForNth(run[|steps|], id, from, |order|, order, tunnel) && from <= k < |order|
    ensures run <= more && steps <= moreSteps && IsRun(more, moreSteps)
    ensures WaitsForNth(more[|moreSteps|], id, k, |order|, order, tunnel)
    decreases k - from
  {
    more, moreSteps := run, steps;
    if from < k {
      FailMovesOn(run[|steps|], id, now, from, |order|, order, tunnel);
      hide Enabled, Apply, WaitsForNth;
      var step := Fail(id, now, 0.0);
      OneMoreStep(run, steps, step);
      more, moreSteps := CanWaitForNth(run + [Apply(run[|steps|], step)], steps + [step], id, now, from + 1, k, order, tunnel);
    }
  }

  lemma BeginWaits(p: Provider, id: nat, counts: bool, target: string, now: int, tunnel: nat)
    requires p.states != [] && id !in p.operations && tunnel !in p.tunnels
    ensures var step, order := Begin(id, counts, target, now), Candidates(p.states, now);
            Enabled(p, step) && |order| == |p.states| && WaitsForNth(Apply(p, step), id, 0, |order|, order, tunnel)
  {
    CandidatesCoverAll(p.states, now);
    hide Candidates, Load;
  }

  lemma SucceedServes(p: Provider, id: nat, k: nat, order: seq<nat>, tunnel: nat)
    requires WaitsForNth(p, id, k, |order|, order, tunnel)
    ensures var step := Succeed(id, tunnel);
            && Enabled(p, step) && id in Apply(p, step).operations
            && Apply(p, step).operations[id].outcome == Succeeded(order[k])
            && (p.operations[id].counts ==> tunnel in Apply(p, step).tunnels && Apply(p, step).tunnels[tunnel] == order[k])
  {
    hide OnSuccess;
  }

  /** From every moment of every run a new operation can begin, and it can be served by any
      of its candidates, whichever fail before. */
  lemma ServedByAny(run: seq<Provider>, steps: seq<Step>, id: nat, counts: bool, target: string, now: int, k: nat, tunnel: nat)
      returns (more: seq<Provider>, moreSteps: seq<Step>)
    requires IsRun(run, steps) && k < |run[|steps|].states|
    requires id !in run[|steps|].operations && tunnel !in run[|steps|].tunnels
    ensures run <= more && steps <= moreSteps && IsRun(more, moreSteps)
    ensures var p, last := run[|steps|], more[|moreSteps|];
            && |Candidates(p.states, now)| == |p.states| && id in last.operations
            && last.operations[id].outcome == Succeeded(Candidates(p.states, now)[k])
  {
    hide Enabled, Apply, IsRun, WaitsForNth, Candidates;
    LastState(run, steps);
    var p, step := run[|steps|], Begin(id, counts, target, now);
    var order := Candidates(p.states, now);
    BeginWaits(p, id, counts, target, now, tunnel);
    OneMoreStep(run, steps, step);
    more, moreSteps := CanWaitForNth(run + [Apply(p, step)], steps + [step], id, now, 0, k, order, tunnel);
    LastState(more, moreSteps);
    SucceedServes(more[|moreSteps|], id, k, order, tunnel);
    OneMoreStep(more, moreSteps, Succeed(id, tunnel));
    more, moreSteps := more + [Apply(more[|moreSteps|], Succeed(id, tunnel))], moreSteps + [Succeed(id, tunnel)];
  }

  lemma LastState(run: seq<Provider>, steps: seq<Step>)
    requires IsRun(run, steps)
    ensures |run| == |steps| + 1
  {
  }
}
