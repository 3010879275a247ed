/** The connection life cycle of a KpsGateway as a machine. JavaScript runs one
    callback at a time, so a step is one synchronous stretch of code: a call up
    to its first await, or one promise handler. Dials and connections answer
    when they like, so a run is any sequence of steps. */
module GatewayRuns {
  import opened Bytes

  /** A dial attempt and the connection it becomes. Reaped: its closed promise
      has settled and the handler for it has run. */
  datatype Dial = Dialing | Open | Dead | Reaped | Failed {
    predicate Active() { Dialing? || Open? || Dead? }
    predicate Connected() { Open? || Dead? }
  }

  /** The registries of teardown callbacks, one per connection, the microtask
      queue, and the history of the callbacks. */
  datatype Callbacks = Callbacks(
    teardowns: map<nat, set<nat>>,
    microtasks: multiset<nat>,
    ran: multiset<nat>,
    registered: map<nat, nat>,
    removed: set<nat>)

  /** #closed and #connPromise, the attempts started so far (numbered in order),
      the close() calls connections have received or will receive on opening,
      and the callbacks. */
  datatype Gateway = Gateway(
    closed: bool,
    current: Option<nat>,
    dials: seq<Dial>,
    closeOnOpen: set<nat>,
    closeCalls: set<nat>,
    callbacks: Callbacks)

  const NoCallbacks := Callbacks(map[], multiset{}, multiset{}, map[], {})
  const Fresh := Gateway(false, None, [], {}, {}, NoCallbacks)

  datatype Step =
    | Acquire
    | DialSucceeds(id: nat)
    | DialFails(id: nat)
    | ConnectionDies(id: nat)
    | ConnectionClosed(id: nat)
    | AddTeardown(id: nat, callback: nat)
    | RemoveTeardown(callback: nat)
    | RunMicrotask(callback: nat)
    | Close

  /** What the environment can make happen, and what callers can call. */
  predicate Enabled(g: Gateway, step: Step) {
    match step
    case Acquire => true
    case DialSucceeds(id) => id < |g.dials| && g.dials[id].Dialing?
    case DialFails(id) => id < |g.dials| && g.dials[id].Dialing?
    case ConnectionDies(id) => id < |g.dials| && g.dials[id].Open?
    case ConnectionClosed(id) => id < |g.dials| && g.dials[id].Dead?
    case AddTeardown(id, callback) =>
      id < |g.dials| && (g.dials[id].Connected() || g.dials[id].Reaped?) && callback !in g.callbacks.registered
    case RemoveTeardown(callback) => callback in g.callbacks.registered
    case RunMicrotask(callback) => callback in g.callbacks.microtasks
    case Close => true
  }

  function Forget(g: Gateway, id: nat): Gateway {
    if g.current == Some(id) then g.(current := None) else g
  }

  /** #connection: throw when closed, share the current attempt, or dial. */
  function DoAcquire(g: Gateway): Gateway {
    if g.closed || g.current.Some? then g
    else g.(current := Some(|g.dials|), dials := g.dials + [Dialing])
  }

  function DoDialSucceeds(g: Gateway, id: nat): Gateway
    requires Enabled(g, DialSucceeds(id))
  {
    g.(dials := g.dials[id := Open],
       callbacks := OpenRegistry(g.callbacks, id),
       closeCalls := if id in g.closeOnOpen then g.closeCalls + {id} else g.closeCalls)
  }

  function DoDialFails(g: Gateway, id: nat): Gateway
    requires Enabled(g, DialFails(id))
  {
    Forget(g.(dials := g.dials[id := Failed]), id)
  }

  /** The handler of conn.closed: forget it if current, then run what is left in
      its registry, once the registry itself is gone. */
  function DoConnectionClosed(g: Gateway, id: nat): Gateway
    requires Enabled(g, ConnectionClosed(id))
  {
    Forget(g.(dials := g.dials[id := Reaped], callbacks := RunRegistry(g.callbacks, id)), id)
  }

  function OpenRegistry(c: Callbacks, id: nat): Callbacks { c.(teardowns := c.teardowns[id := {}]) }

  function RunRegistry(c: Callbacks, id: nat): Callbacks {
    var left := if id in c.teardowns then c.teardowns[id] else {};
    c.(teardowns := c.teardowns - {id}, ran := c.ran + multiset(left))
  }

  /** #addTeardown: into the connection's registry, or straight to the queue
      when the registry is gone. */
  function Register(c: Callbacks, id: nat, callback: nat): Callbacks {
    var d := c.(registered := c.registered[callback := id]);
    if id in c.teardowns then d.(teardowns := c.teardowns[id := c.teardowns[id] + {callback}])
    else d.(microtasks := c.microtasks + multiset{callback})
  }

  /** Calling the function that #addTeardown returned. */
  function Unregister(c: Callbacks, callback: nat): Callbacks
    requires callback in c.registered
  {
    var id := c.registered[callback];
    if id in c.teardowns && callback in c.teardowns[id] then
      c.(teardowns := c.teardowns[id := c.teardowns[id] - {callback}], removed := c.removed + {callback})
    else c
  }

  function RunQueued(c: Callbacks, callback: nat): Callbacks {
    c.(microtasks := c.microtasks - multiset{callback}, ran := c.ran + multiset{callback})
  }

  /** close(): an attempt still dialing is closed when it lands. */
  function DoClose(g: Gateway): Gateway {
    var h := g.(closed := true, current := None);
    if g.current.None? || g.current.value >= |g.dials| then h
    else if g.dials[g.current.value].Dialing? then h.(closeOnOpen := g.closeOnOpen + {g.current.value})
    else h.(closeCalls := g.closeCalls + {g.current.value})
  }

  function Apply(g: Gateway, step: Step): Gateway
    requires Enabled(g, step)
  {
    match step
    case Acquire => DoAcquire(g)
    case DialSucceeds(id) => DoDialSucceeds(g, id)
    case DialFails(id) => DoDialFails(g, id)
    case ConnectionDies(id) => g.(dials := g.dials[id := Dead])
    case ConnectionClosed(id) => DoConnectionClosed(g, id)
    case AddTeardown(id, callback) => g.(callbacks := Register(g.callbacks, id, callback))
    case RemoveTeardown(callback) => g.(callbacks := Unregister(g.callbacks, callback))
    case RunMicrotask(callback) => g.(callbacks := RunQueued(g.callbacks, callback))
    case Close => DoClose(g)
  }

  /** A run: each state follows from the one before by an enabled step. */
  ghost predicate IsRun(states: seq<Gateway>, steps: seq<Step>) {
    && |states| == |steps| + 1
    && states[0] == Fresh
    && forall i :: 0 <= i < |steps| ==> Enabled(states[i], steps[i]) && states[i + 1] == Apply(states[i], steps[i])
  }

  // ---- What every run keeps ----

  predicate ActiveAt(g: Gateway, id: nat) { id < |g.dials| && g.dials[id].Active() }

  predicate Waiting(c: Callbacks, callback: nat)
    requires callback in c.registered
  {
    c.registered[callback] in c.teardowns && callback in c.teardowns[c.registered[callback]]
  }

  /** How often a callback is accounted for: run, queued, waiting, removed. */
  function Accounts(c: Callbacks, callback: nat): nat
    requires callback in c.registered
  {
    c.ran[callback] + c.microtasks[callback]
    + (if Waiting(c, callback) then 1 else 0) + (if callback in c.removed then 1 else 0)
  }

  ghost predicate OneConnection(g: Gateway) {
    && (g.closed ==> g.current.None?)
    && (g.current.Some? ==> ActiveAt(g, g.current.value))
    && (!g.closed ==> forall id: nat :: ActiveAt(g, id) ==> g.current == Some(id))
    && (forall id: nat, other: nat :: ActiveAt(g, id) && ActiveAt(g, other) ==> id == other)
    && (g.closed ==> forall id: nat :: ActiveAt(g, id) ==>
                       if g.dials[id].Dialing? then id in g.closeOnOpen else id in g.closeCalls)
  }

  /** A registry only holds callbacks registered with its connection. */
  ghost predicate HeldAreRegistered(c: Callbacks) {
    forall id: nat, f: nat :: id in c.teardowns && f in c.teardowns[id] ==> f in c.registered && c.registered[f] == id
  }

  ghost predicate KnownAreRegistered(c: Callbacks) {
    forall f: nat :: f in c.ran || f in c.microtasks || f in c.removed ==> f in c.registered
  }

  /** Every registered callback is in exactly one place, exactly once. */
  ghost predicate Conserved(c: Callbacks) {
    && HeldAreRegistered(c) && KnownAreRegistered(c)
    && (forall f: nat :: f in c.registered ==> Accounts(c, f) == 1)
  }

  /** Exactly the connections not yet reaped have a registry. */
  ghost predicate Registries(g: Gateway) {
    forall id: nat :: id in g.callbacks.teardowns <==> id < |g.dials| && g.dials[id].Connected()
  }

  ghost predicate Inv(g: Gateway) { OneConnection(g) && Registries(g) && Conserved(g.callbacks) }

  lemma StepKeepsOneConnection(g: Gateway, step: Step)
    requires OneConnection(g) && Enabled(g, step)
    ensures OneConnection(Apply(g, step))
  {
    var h := Apply(g, step);
    match step
    case Acquire => assert forall id: nat :: ActiveAt(h, id) && !ActiveAt(g, id) ==> id == |g.dials|;
    case Close => assert forall id: nat :: ActiveAt(h, id) <==> ActiveAt(g, id);
    case _ => assert forall id: nat :: ActiveAt(h, id) ==> ActiveAt(g, id);
  }

  lemma StepKeepsRegistries(g: Gateway, step: Step)
    requires Registries(g) && Enabled(g, step)
    ensures Registries(Apply(g, step))
  {
    var h := Apply(g, step);
    forall id: nat ensures id in h.callbacks.teardowns <==> id < |h.dials| && h.dials[id].Connected() {
      assert id in g.callbacks.teardowns <==> id < |g.dials| && g.dials[id].Connected();
    }
  }

  lemma OpeningConserves(c: Callbacks, id: nat)
    requires Conserved(c) && id !in c.teardowns
    ensures Conserved(OpenRegistry(c, id))
  {
    var d := OpenRegistry(c, id);
    assert forall f: nat :: f in d.registered ==> Accounts(d, f) == Accounts(c, f);
  }

  lemma RunningConserves(c: Callbacks, id: nat)
    requires Conserved(c) && id in c.teardowns
    ensures Conserved(RunRegistry(c, id))
  {
    var d, left := RunRegistry(c, id), c.teardowns[id];
    forall f: nat | f in d.registered ensures Accounts(d, f) == Accounts(c, f) {
      assert d.ran[f] == c.ran[f] + if f in left then 1 else 0;
    }
  }

  /** Registering a new callback moves no other one. */
  lemma RegisteringMovesNoOther(c: Callbacks, id: nat, callback: nat, f: nat)
    requires callback !in c.registered && f in c.registered
    ensures Accounts(Register(c, id, callback), f) == Accounts(c, f)
  {
  }

  lemma RegisteringAccounts(c: Callbacks, id: nat, callback: nat)
    requires HeldAreRegistered(c) && KnownAreRegistered(c) && callback !in c.registered
    ensures Accounts(Register(c, id, callback), callback) == 1
  {
    assert callback !in c.ran && callback !in c.microtasks && callback !in c.removed;
  }

  lemma RegisteringKnows(c: Callbacks, id: nat, callback: nat)
    requires HeldAreRegistered(c) && KnownAreRegistered(c) && callback !in c.registered
    ensures HeldAreRegistered(Register(c, id, callback)) && KnownAreRegistered(Register(c, id, callback))
  {
    var d := Register(c, id, callback);
    forall i: nat, f: nat | i in d.teardowns && f in d.teardowns[i] ensures f in d.registered && d.registered[f] == i {
      assert i in c.teardowns && f in c.teardowns[i] ==> f in c.registered && c.registered[f] == i;
    }
    forall f: nat | f in d.ran || f in d.microtasks || f in d.removed ensures f in d.registered {
      assert f != callback ==> f in c.ran || f in c.microtasks || f in c.removed;
    }
  }

  lemma RegisteringConserves(c: Callbacks, id: nat, callback: nat)
    requires Conserved(c) && callback !in c.registered
    ensures Conserved(Register(c, id, callback))
  {
    var d := Register(c, id, callback);
    RegisteringKnows(c, id, callback);
    RegisteringAccounts(c, id, callback);
    forall f: nat | f in d.registered ensures Accounts(d, f) == 1 {
      if f != callback {
        RegisteringMovesNoOther(c, id, callback, f);
        assert Accounts(c, f) == 1;
      }
    }
  }

  lemma UnregisteringConserves(c: Callbacks, callback: nat)
    requires Conserved(c) && callback in c.registered
    ensures Conserved(Unregister(c, callback))
  {
    var d := Unregister(c, callback);
    assert Accounts(c, callback) == 1;
    assert forall f: nat :: f in d.registered ==> Accounts(d, f) == Accounts(c, f);
  }

  lemma RunningQueuedConserves(c: Callbacks, callback: nat)
    requires Conserved(c) && callback in c.microtasks
    ensures Conserved(RunQueued(c, callback))
  {
    var d := RunQueued(c, callback);
    assert forall f: nat :: f in d.registered ==> Accounts(d, f) == Accounts(c, f);
  }

  lemma StepConserves(g: Gateway, step: Step)
    requires Conserved(g.callbacks) && Registries(g) && Enabled(g, step)
    ensures Conserved(Apply(g, step).callbacks)
  {
    var c := g.callbacks;
    match step
    case DialSucceeds(id) => OpeningConserves(c, id);
    case ConnectionClosed(id) => RunningConserves(c, id);
    case AddTeardown(id, callback) => RegisteringConserves(c, id, callback);
    case RemoveTeardown(callback) => UnregisteringConserves(c, callback);
    case RunMicrotask(callback) => RunningQueuedConserves(c, callback);
    case _ => assert Apply(g, step).callbacks == c;
  }

  lemma StepKeepsInv(g: Gateway, step: Step)
    requires Inv(g) && Enabled(g, step)
    ensures Inv(Apply(g, step))
  {
    StepKeepsOneConnection(g, step);
    StepKeepsRegistries(g, step);
    StepConserves(g, step);
  }

  lemma {:induction false} RunKeepsInv(states: seq<Gateway>, steps: seq<Step>, i: nat)
    requires IsRun(states, steps) && i < |states|
    ensures Inv(states[i])
  {
    if i > 0 {
      RunKeepsInv(states, steps, i - 1);
      StepKeepsInv(states[i - 1], steps[i - 1]);
    }
  }

  // ---- What that means for callers ----

  /** At any moment at most one attempt is dialing or connected, and unless the
      gateway is closed, that is the one callers share. */
  lemma AtMostOneConnection(states: seq<Gateway>, steps: seq<Step>, i: nat, id: nat, other: nat)
    requires IsRun(states, steps) && i < |states|
    requires ActiveAt(states[i], id) && ActiveAt(states[i], other)
    ensures id == other
    ensures !states[i].closed ==> states[i].current == Some(id)
  {
    RunKeepsInv(states, steps, i);
  }

  /** A handler of one attempt never clears a different current one. */
  lemma StaleHandlerKeepsCurrent(g: Gateway, step: Step, id: nat)
    requires Enabled(g, step)
    requires step in {DialSucceeds(id), DialFails(id), ConnectionDies(id), ConnectionClosed(id)}
    requires g.current != Some(id)
    ensures Apply(g, step).current == g.current
  {
  }

  /** Callers that overlap share the attempt: a new dial starts only when no
      earlier one is dialing or connected, and it becomes the current one. */
  lemma DialsAreShared(states: seq<Gateway>, steps: seq<Step>, i: nat)
    requires IsRun(states, steps) && i < |steps|
    ensures |states[i + 1].dials| > |states[i].dials| ==>
              && steps[i] == Acquire && !states[i].closed
              && (forall id: nat :: !ActiveAt(states[i], id))
              && states[i + 1].current == Some(|states[i].dials|)
    ensures steps[i] == Acquire && !states[i].closed ==>
              states[i + 1].current.Some? && ActiveAt(states[i + 1], states[i + 1].current.value)
  {
    RunKeepsInv(states, steps, i);
    RunKeepsInv(states, steps, i + 1);
  }

  lemma ClosedStays(g: Gateway, step: Step)
    requires Enabled(g, step) && g.closed
    ensures Apply(g, step).closed && |Apply(g, step).dials| == |g.dials|
  {
  }

  /** Once closed, always closed: no dial starts, and a connection that is open
      then, or opens later, has had close() called on it. */
  lemma {:induction false} NothingSurvivesClose(states: seq<Gateway>, steps: seq<Step>, i: nat, j: nat, id: nat)
    requires IsRun(states, steps) && i <= j < |states| && states[i].closed
    ensures states[j].closed && |states[j].dials| == |states[i].dials|
    ensures id < |states[j].dials| && states[j].dials[id].Connected() ==> id in states[j].closeCalls
    decreases j - i
  {
    if i < j {
      NothingSurvivesClose(states, steps, i, j - 1, id);
      assert Enabled(states[j - 1], steps[j - 1]) && states[j - 1 + 1] == Apply(states[j - 1], steps[j - 1]);
      ClosedStays(states[j - 1], steps[j - 1]);
    }
    hide IsRun, Apply, Enabled;
    RunKeepsInv(states, steps, j);
    assert id < |states[j].dials| && states[j].dials[id].Connected() ==> ActiveAt(states[j], id);
  }

  /** A registered callback runs at most once. When its connection has been
      reaped and no microtask is left, it has run exactly once, unless it was
      removed in time: then it never ran. */
  lemma TeardownsRunExactlyOnce(states: seq<Gateway>, steps: seq<Step>, i: nat, callback: nat)
    requires IsRun(states, steps) && i < |states| && callback in states[i].callbacks.registered
    ensures states[i].callbacks.ran[callback] <= 1
    ensures var g, c := states[i], states[i].callbacks;
            c.microtasks == multiset{} && c.registered[callback] < |g.dials| && g.dials[c.registered[callback]].Reaped? ==>
              c.ran[callback] == if callback in c.removed then 0 else 1
  {
    RunKeepsInv(states, steps, i);
    assert Accounts(states[i].callbacks, callback) == 1;
  }

  /** The callbacks still registered when the connection's closed handler runs
      are exactly the ones it runs. */
  lemma ClosingRunsWhatIsRegistered(states: seq<Gateway>, steps: seq<Step>, i: nat, id: nat, callback: nat)
    requires IsRun(states, steps) && i < |steps| && steps[i] == ConnectionClosed(id)
    requires callback in states[i].callbacks.registered && states[i].callbacks.registered[callback] == id
    ensures states[i + 1].callbacks.ran[callback] ==
            states[i].callbacks.ran[callback] + if Waiting(states[i].callbacks, callback) then 1 else 0
  {
    RunKeepsInv(states, steps, i);
  }

  ghost predicate QueuedOrRun(c: Callbacks, callback: nat) {
    callback in c.registered && (callback in c.microtasks || c.ran[callback] == 1)
  }

  lemma QueuedStays(g: Gateway, step: Step, callback: nat)
    requires Inv(g) && Enabled(g, step) && QueuedOrRun(g.callbacks, callback)
    ensures QueuedOrRun(Apply(g, step).callbacks, callback)
  {
    assert Accounts(g.callbacks, callback) == 1;
  }

  /** Registering on a connection that is already reaped still runs the
      callback: it is queued, and nothing can take it off the queue but its run. */
  lemma {:induction false} LateTeardownRuns(states: seq<Gateway>, steps: seq<Step>, i: nat, j: nat, id: nat, callback: nat)
    requires IsRun(states, steps) && i < j < |states| && steps[i] == AddTeardown(id, callback)
    requires states[i].dials[id].Reaped?
    ensures QueuedOrRun(states[j].callbacks, callback)
    decreases j - i
  {
    if j == i + 1 {
      RunKeepsInv(states, steps, i);
    } else {
      LateTeardownRuns(states, steps, i, j - 1, id, callback);
      RunKeepsInv(states, steps, j - 1);
      QueuedStays(states[j - 1], steps[j - 1], callback);
    }
  }

  // ---- Every run can come to rest ----

  lemma OneMoreStep(states: seq<Gateway>, steps: seq<Step>, step: Step)
    requires IsRun(states, steps) && Enabled(states[|steps|], step)
    ensures IsRun(states + [Apply(states[|steps|], step)], steps + [step])
  {
    hide Enabled, Apply;
    var longer, longerSteps := states + [Apply(states[|steps|], step)], steps + [step];
    forall i | 0 <= i < |longerSteps|
      ensures Enabled(longer[i], longerSteps[i]) && longer[i + 1] == Apply(longer[i], longerSteps[i])
    {
      if i < |steps| {
        assert Enabled(states[i], steps[i]) && states[i + 1] == Apply(states[i], steps[i]);
      }
    }
  }

  /** No attempt is dialing or connected. */
  ghost predicate Idle(g: Gateway) { forall id: nat :: !ActiveAt(g, id) }

  /** The step that brings an attempt closer to its end. */
  function Ending(g: Gateway, id: nat): Step
    requires ActiveAt(g, id)
  {
    match g.dials[id]
    case Dialing => DialFails(id)
    case Open => ConnectionDies(id)
    case _ => ConnectionClosed(id)
  }

  /** How many steps an attempt still has to take. */
  function Ahead(d: Dial): nat {
    match d case Open => 2 case Dead => 1 case Dialing => 1 case _ => 0
  }

  lemma {:induction false} CanIdle(states: seq<Gateway>, steps: seq<Step>, id: nat) returns (more: seq<Gateway>, moreSteps: seq<Step>)
    requires IsRun(states, steps) && ActiveAt(states[|steps|], id)
    ensures states <= more && steps <= moreSteps && IsRun(more, moreSteps) && Idle(more[|moreSteps|])
    decreases Ahead(states[|steps|].dials[id])
  {
    var g := states[|steps|];
    RunKeepsInv(states, steps, |steps|);
    var step := Ending(g, id);
    var h := Apply(g, step);
    assert forall other: nat :: ActiveAt(g, other) ==> other == id;
    assert forall other: nat :: ActiveAt(h, other) ==> ActiveAt(g, other);
    OneMoreStep(states, steps, step);
    more, moreSteps := states + [h], steps + [step];
    if ActiveAt(h, id) {
      more, moreSteps := CanIdle(more, moreSteps, id);
    }
  }

  lemma {:induction false} CanDrain(states: seq<Gateway>, steps: seq<Step>) returns (more: seq<Gateway>, moreSteps: seq<Step>)
    requires IsRun(states, steps) && Idle(states[|steps|])
    ensures states <= more && steps <= moreSteps && IsRun(more, moreSteps)
    ensures Idle(more[|moreSteps|]) && more[|moreSteps|].callbacks.microtasks == multiset{}
    decreases |states[|steps|].callbacks.microtasks|
  {
    var g := states[|steps|];
    more, moreSteps := states, steps;
    if f: nat :| f in g.callbacks.microtasks {
      var h := Apply(g, RunMicrotask(f));
      assert |h.callbacks.microtasks| == |g.callbacks.microtasks| - 1;
      assert forall id: nat :: ActiveAt(h, id) <==> ActiveAt(g, id);
      OneMoreStep(states, steps, RunMicrotask(f));
      more, moreSteps := CanDrain(states + [h], steps + [RunMicrotask(f)]);
    }
  }

  /** From every moment of every run the gateway can come to rest, and then every callback
      ever registered has run exactly once, or was removed and has not run. */
  lemma CanSettle(states: seq<Gateway>, steps: seq<Step>) returns (more: seq<Gateway>, moreSteps: seq<Step>)
    requires IsRun(states, steps)
    ensures states <= more && steps <= moreSteps && IsRun(more, moreSteps)
    ensures var last := more[|moreSteps|];
            && Idle(last) && last.callbacks.microtasks == multiset{}
            && forall f: nat :: f in last.callbacks.registered ==>
                 last.callbacks.ran[f] == if f in last.callbacks.removed then 0 else 1
  {
    hide IsRun, Apply, Enabled;
    more, moreSteps := states, steps;
    LastState(states, steps);
    if id: nat :| ActiveAt(states[|steps|], id) {
      more, moreSteps := CanIdle(states, steps, id);
    }
    more, moreSteps := CanDrain(more, moreSteps);
    LastState(more, moreSteps);
    RunKeepsInv(more, moreSteps, |moreSteps|);
    var last := more[|moreSteps|];
    forall f: nat | f in last.callbacks.registered
      ensures last.callbacks.ran[f] == if f in last.callbacks.removed then 0 else 1
    {
      assert Accounts(last.callbacks, f) == 1;
      assert !ActiveAt(last, last.callbacks.registered[f]) && last.callbacks.microtasks[f] == 0;
    }
  }

  lemma LastState(states: seq<Gateway>, steps: seq<Step>)
    requires IsRun(states, steps)
    ensures |states| == |steps| + 1
  {
  }
}
