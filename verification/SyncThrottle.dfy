/** Who may sync the mirror, and when: the throttle on client triggers, the one
    sync lock they share with the poll, and the Retry-After they are told. */
module SyncThrottle {
  import opened Bytes

  /** Nanoseconds in a second; all times are in nanoseconds. */
  const SECOND: nat := 1_000_000_000

  datatype Decision = Disabled | Throttled(retryAfter: nat) | Pass

  function Decide(interval: nat, enabled: bool, last: Option<nat>, now: nat): Decision {
    if !enabled then Disabled
    else if last.Some? && Elapsed(last.value, now) < interval then Throttled(interval - Elapsed(last.value, now))
    else Pass
  }

  function Elapsed(since: nat, now: nat): nat { if now < since then 0 else now - since }

  /** The seconds a throttled client is told to wait. */
  function RetrySeconds(retryAfter: nat): nat { retryAfter / SECOND + 1 }

  // ---- Interleaved triggers and polls ----

  datatype State = State(
    now: nat,
    enabled: bool,
    last: Option<nat>,       // last_manual
    held: bool,              // sync_lock
    running: set<nat>,       // callers inside a sync
    passed: set<nat>,        // triggers past the throttle that have not tried the lock
    stamps: seq<nat>,        // every value last_manual was given
    triggered: nat)          // syncs started by triggers

  datatype Event =
    | Tick(d: nat)
    | Disable
    | Trigger(id: nat, d: nat)   // checks the window now, stamps d later, under one lock
    | TryLock(id: nat)           // a passed trigger: sync, or Busy
    | PollLock(id: nat)          // the poll, once the lock is free
    | Finish(id: nat)            // a sync ends, well or not

  predicate Enabled(s: State, e: Event) {
    match e
    case Tick(_) => true
    case Disable => true
    case Trigger(id, _) => id !in s.passed && id !in s.running
    case TryLock(id) => id in s.passed
    case PollLock(id) => !s.held && id !in s.passed && id !in s.running
    case Finish(id) => id in s.running
  }

  function Step(interval: nat, s: State, e: Event): State
    requires Enabled(s, e)
  {
    match e
    case Tick(d) => s.(now := s.now + d)
    case Disable => s.(enabled := false)
    case Trigger(id, d) =>
      if Decide(interval, s.enabled, s.last, s.now).Pass? then
        s.(now := s.now + d, last := Some(s.now + d), stamps := s.stamps + [s.now + d], passed := s.passed + {id})
      else s
    case TryLock(id) =>
      if s.held then s.(passed := s.passed - {id})
      else s.(passed := s.passed - {id}, held := true, running := s.running + {id}, triggered := s.triggered + 1)
    case PollLock(id) => s.(held := true, running := s.running + {id})
    case Finish(id) => s.(held := false, running := s.running - {id})
  }

  predicate IsRun(interval: nat, s: State, events: seq<Event>)
    decreases |events|
  {
    events == [] || (Enabled(s, events[0]) && IsRun(interval, Step(interval, s, events[0]), events[1..]))
  }

  function Run(interval: nat, s: State, events: seq<Event>): State
    requires IsRun(interval, s, events)
    decreases |events|
  {
    if events == [] then s else Run(interval, Step(interval, s, events[0]), events[1..])
  }

  ghost predicate Spaced(interval: nat, stamps: seq<nat>) {
    forall i :: 0 <= i < |stamps| - 1 ==> stamps[i] + interval <= stamps[i + 1]
  }

  ghost predicate Inv(interval: nat, s: State) {
    && Spaced(interval, s.stamps)
    && (if s.stamps == [] then s.last == None
        else s.last == Some(s.stamps[|s.stamps| - 1]) && s.last.value <= s.now)
    && |s.running| == (if s.held then 1 else 0)
    && s.triggered + |s.passed| <= |s.stamps|
  }

  lemma StepKeepsLock(interval: nat, s: State, e: Event)
    requires Enabled(s, e) && |s.running| == (if s.held then 1 else 0)
    ensures |Step(interval, s, e).running| == (if Step(interval, s, e).held then 1 else 0)
  {
    if e.Finish? {
      assert |s.running - {e.id}| == |s.running| - 1;
    }
  }

  lemma StepKeepsCount(interval: nat, s: State, e: Event)
    requires Enabled(s, e) && s.triggered + |s.passed| <= |s.stamps|
    ensures Step(interval, s, e).triggered + |Step(interval, s, e).passed| <= |Step(interval, s, e).stamps|
  {
    if e.TryLock? {
      assert |s.passed - {e.id}| == |s.passed| - 1;
    }
  }

  lemma StepKeepsInv(interval: nat, s: State, e: Event)
    requires Inv(interval, s) && Enabled(s, e)
    ensures Inv(interval, Step(interval, s, e))
  {
    StepKeepsLock(interval, s, e);
    StepKeepsCount(interval, s, e);
  }

  lemma {:induction false} RunKeepsInv(interval: nat, s: State, events: seq<Event>)
    requires Inv(interval, s) && IsRun(interval, s, events)
    ensures Inv(interval, Run(interval, s, events))
    decreases |events|
  {
    if events != [] {
      StepKeepsInv(interval, s, events[0]);
      RunKeepsInv(interval, Step(interval, s, events[0]), events[1..]);
    }
  }

  function Started(now: nat): State { State(now, true, None, false, {}, {}, [], 0) }

  lemma {:induction false} SpacedSpread(interval: nat, stamps: seq<nat>, i: nat, j: nat)
    requires Spaced(interval, stamps) && i <= j < |stamps|
    ensures stamps[i] + (j - i) * interval <= stamps[j]
    decreases j
  {
    if i < j {
      SpacedSpread(interval, stamps, i, j - 1);
      assert (j - i) * interval == (j - 1 - i) * interval + interval;
    }
  }

  /** Over every interleaving: at most one sync runs, stamps are at least the
      window apart whatever became of their syncs, and so n client-triggered
      syncs take at least n - 1 windows. */
  lemma TriggersAreRateLimited(interval: nat, start: nat, events: seq<Event>)
    requires IsRun(interval, Started(start), events)
    ensures var s := Run(interval, Started(start), events);
            && |s.running| <= 1
            && (forall i, j :: 0 <= i <= j < |s.stamps| ==> s.stamps[i] + (j - i) * interval <= s.stamps[j])
            && (s.triggered > 0 ==> start + (s.triggered - 1) * interval <= s.now)
  {
    RunKeepsInv(interval, Started(start), events);
    StampsAfterStart(interval, Started(start), events, start);
    var s := Run(interval, Started(start), events);
    forall i, j | 0 <= i <= j < |s.stamps| ensures s.stamps[i] + (j - i) * interval <= s.stamps[j] {
      SpacedSpread(interval, s.stamps, i, j);
    }
    if s.triggered > 0 {
      var n := |s.stamps|;
      SpacedSpread(interval, s.stamps, 0, n - 1);
      MoreWindows(s.triggered - 1, n - 1, interval);
    }
  }

  lemma MoreWindows(a: nat, b: nat, interval: nat)
    requires a <= b
    ensures a * interval <= b * interval
  {
  }

  lemma {:induction false} StampsAfterStart(interval: nat, s: State, events: seq<Event>, start: nat)
    requires IsRun(interval, s, events) && start <= s.now
    requires forall i :: 0 <= i < |s.stamps| ==> start <= s.stamps[i]
    ensures forall i :: 0 <= i < |Run(interval, s, events).stamps| ==> start <= Run(interval, s, events).stamps[i]
    decreases |events|
  {
    if events != [] {
      StampsAfterStart(interval, Step(interval, s, events[0]), events[1..], start);
    }
  }

  /** Only a trigger that passes moves the stamp; polls, refusals and the ends of
      syncs never do. */
  lemma OnlyPassingTriggersStamp(interval: nat, s: State, e: Event)
    requires Enabled(s, e)
    ensures Step(interval, s, e).stamps != s.stamps <==>
            e.Trigger? && Decide(interval, s.enabled, s.last, s.now) == Pass
    ensures Step(interval, s, e).stamps == s.stamps ==> Step(interval, s, e).last == s.last
  {
    assert forall x: nat :: |s.stamps + [x]| == |s.stamps| + 1;
  }

  lemma {:induction false} ClockAndStamp(interval: nat, s: State, events: seq<Event>)
    requires IsRun(interval, s, events)
    ensures s.stamps <= Run(interval, s, events).stamps
    ensures Run(interval, s, events).stamps == s.stamps ==> Run(interval, s, events).last == s.last
    ensures s.now <= Run(interval, s, events).now
    decreases |events|
  {
    if events != [] {
      var next := Step(interval, s, events[0]);
      OnlyPassingTriggersStamp(interval, s, events[0]);
      ClockAndStamp(interval, next, events[1..]);
      if Run(interval, s, events).stamps == s.stamps {
        assert |next.stamps| <= |s.stamps|;
      }
    }
  }

  /** A throttled client is let through exactly from the true remaining time on,
      and always after the seconds it was told, if no other trigger passed
      meanwhile; polls and running syncs make no difference. */
  lemma RetryAfterSuffices(interval: nat, s: State, events: seq<Event>)
    requires Inv(interval, s) && IsRun(interval, s, events)
    requires Decide(interval, s.enabled, s.last, s.now).Throttled?
    requires Run(interval, s, events).stamps == s.stamps
    ensures var told := RetrySeconds(Decide(interval, s.enabled, s.last, s.now).retryAfter) * SECOND;
            var remaining := Decide(interval, s.enabled, s.last, s.now).retryAfter;
            var later := Run(interval, s, events);
            && (Decide(interval, later.enabled, later.last, later.now).Throttled? <==>
                later.enabled && later.now < s.now + remaining)
            && remaining < told <= remaining + SECOND
  {
    ClockAndStamp(interval, s, events);
  }

  // ---- When triggers pass ----

  predicate NeverDisabled(events: seq<Event>) { forall i :: 0 <= i < |events| ==> !events[i].Disable? }

  predicate NoTriggers(events: seq<Event>) { forall i :: 0 <= i < |events| ==> !events[i].Trigger? }

  lemma {:induction false} EnabledUntilDisabled(interval: nat, s: State, events: seq<Event>)
    requires IsRun(interval, s, events)
    ensures Run(interval, s, events).enabled <==> s.enabled && NeverDisabled(events)
    ensures NoTriggers(events) ==> Run(interval, s, events).stamps == s.stamps
    decreases |events|
  {
    if events != [] {
      EnabledUntilDisabled(interval, Step(interval, s, events[0]), events[1..]);
      assert forall i :: 0 <= i < |events[1..]| ==> events[1..][i] == events[i + 1];
      assert NeverDisabled(events) <==> !events[0].Disable? && NeverDisabled(events[1..]);
      assert NoTriggers(events) ==> NoTriggers(events[1..]);
    }
  }

  lemma TriggerStep(interval: nat, s: State, id: nat, d: nat)
    requires Inv(interval, s) && id !in s.passed + s.running
    ensures Enabled(s, Trigger(id, d))
    ensures var t, n := Step(interval, s, Trigger(id, d)), |s.stamps|;
            && (t.stamps == s.stamps + [s.now + d] && id in t.passed <==>
                s.enabled && (n == 0 || s.stamps[n - 1] + interval <= s.now))
            && (id in t.passed || t == s)
  {
    assert |s.stamps + [s.now + d]| == |s.stamps| + 1;
  }

  /** After any run: a trigger passes, stamping itself, exactly when triggers were never
      disabled and there is no stamp or the window since the latest one is over; so the
      first trigger passes. */
  lemma TriggerPassesIff(interval: nat, start: nat, events: seq<Event>, id: nat, d: nat)
    requires IsRun(interval, Started(start), events)
    requires var s := Run(interval, Started(start), events); id !in s.passed + s.running
    ensures var s := Run(interval, Started(start), events);
            Enabled(s, Trigger(id, d)) &&
            var t := Step(interval, s, Trigger(id, d));
            var n := |s.stamps|;
            && (t.stamps == s.stamps + [s.now + d] && id in t.passed <==>
                NeverDisabled(events) && (n == 0 || s.stamps[n - 1] + interval <= s.now))
            && (id in t.passed || t == s)
            && (NoTriggers(events) ==> n == 0)
  {
    EnabledUntilDisabled(interval, Started(start), events);
    RunKeepsInv(interval, Started(start), events);
    hide Step, Inv, Run;
    TriggerStep(interval, Run(interval, Started(start), events), id, d);
  }

  /** A trigger that passed starts its sync, unless one is running: then it is turned
      away, and may come again. */
  lemma PassedTriggerSyncs(interval: nat, start: nat, events: seq<Event>, id: nat)
    requires IsRun(interval, Started(start), events)
    requires id in Run(interval, Started(start), events).passed
    ensures var s := Run(interval, Started(start), events);
            Enabled(s, TryLock(id)) &&
            var t := Step(interval, s, TryLock(id));
            && t.running == (if s.running == {} then {id} else s.running)
            && t.triggered == s.triggered + (if s.running == {} then 1 else 0)
            && id !in t.passed
  {
    RunKeepsInv(interval, Started(start), events);
  }

  /** A poll can sync exactly when nobody does, and nothing of it counts against triggers;
      the lock is free again when the sync ends. */
  lemma PollSyncs(interval: nat, start: nat, events: seq<Event>, id: nat)
    requires IsRun(interval, Started(start), events)
    requires id !in Run(interval, Started(start), events).passed
    ensures var s := Run(interval, Started(start), events);
            && (Enabled(s, PollLock(id)) <==> s.running == {})
            && (s.running == {} ==>
                  var t := Step(interval, s, PollLock(id));
                  && t.running == {id} && t.stamps == s.stamps && t.last == s.last && t.triggered == s.triggered
                  && Enabled(t, Finish(id)) && Step(interval, t, Finish(id)).running == {})
  {
    RunKeepsInv(interval, Started(start), events);
    var s := Run(interval, Started(start), events);
    assert s.held <==> s.running != {};
  }

  /** The gate itself. */
  class SyncGate {
    const interval: nat
    var enabled: bool
    var lastManual: Option<nat>
    var held: bool

    constructor (interval: nat)
      ensures this.interval == interval && enabled && lastManual == None && !held
    {
      this.interval, enabled, lastManual, held := interval, true, None, false;
    }

    /** The throttle check, and the stamp of an attempt that passes it. */
    method Check(now: nat, stamp: nat) returns (d: Decision)
      requires now <= stamp
      modifies this`lastManual
      // Disabled means disabled, and an enabled gate lets the first attempt through, and
      // any later one as soon as the window since the latest stamp is over.
      ensures d.Disabled? <==> !enabled
      ensures d.Pass? <==>
                enabled && (old(lastManual).None? || interval == 0 || old(lastManual).value + interval <= now)
      // The time told is what is missing; a clock behind the stamp owes the whole window.
      ensures d.Throttled? ==>
                now + d.retryAfter == if now < old(lastManual).value then now + interval else old(lastManual).value + interval
      ensures d == Decide(interval, enabled, old(lastManual), now)
      ensures lastManual == if d.Pass? then Some(stamp) else old(lastManual)
    {
      if !enabled {
        return Disabled;
      }
      if lastManual.Some? {
        var elapsed := Elapsed(lastManual.value, now);
        if elapsed < interval {
          return Throttled(interval - elapsed);
        }
      }
      lastManual := Some(stamp);
      return Pass;
    }

    /** A passed trigger does not wait for a running sync. */
    method TryStart() returns (started: bool)
      modifies this`held
      ensures started == !old(held) && held
    {
      started := !held;
      held := true;
    }
  }
}
