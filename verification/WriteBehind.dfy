/** The write-behind cache over JavaScript storage: every write is visible at
    once and queues a task that repeats it, later, on the store.

    A task is a list of operations. It starts in queue order; from then on it
    issues one operation each time it is resumed, and started tasks resume in
    any order. A single set or delete is a task of one operation. */
module WriteBehind {
  import opened Bytes

  type Key = string
  type Value = string
  type Store = map<Key, Value>

  datatype Op = Put(key: Key, value: Value) | Remove(key: Key)

  type Task = seq<Op>

  datatype State = State(cache: Store, js: Store, queued: seq<Task>, started: seq<Task>)

  datatype Event =
    | Write(ops: Task)     // set, delete or set_many: the cache now, a task later
    | Start                // the first queued task issues its first operation
    | Resume(i: nat)       // a started task issues its next operation

  // ---- Operations on a map ----

  function Apply(m: Store, op: Op): Store {
    match op
    case Put(k, v) => m[k := v]
    case Remove(k) => m - {k}
  }

  function ApplyAll(m: Store, ops: Task): Store
    decreases |ops|
  {
    if ops == [] then m else ApplyAll(Apply(m, ops[0]), ops[1..])
  }

  function Lookup(m: Store, k: Key): Option<Value> { if k in m then Some(m[k]) else None }

  predicate Owes(t: Task, k: Key) { exists i :: 0 <= i < |t| && t[i].key == k }

  /** What the task finally leaves under a key it writes. */
  function FinalValue(t: Task, k: Key): Option<Value>
    requires Owes(t, k)
    decreases |t|
  {
    if Owes(t[1..], k) then FinalValue(t[1..], k)
    else Lookup(Apply(map[], t[0]), k)
  }

  lemma SplitFirst(t: Task, k: Key)
    requires t != []
    ensures Owes(t, k) <==> t[0].key == k || Owes(t[1..], k)
  {
    if Owes(t[1..], k) {
      var i :| 0 <= i < |t[1..]| && t[1..][i].key == k;
      assert t[i + 1].key == k;
    }
    if Owes(t, k) && t[0].key != k {
      var i :| 0 <= i < |t| && t[i].key == k;
      assert t[1..][i - 1].key == k;
    }
  }

  lemma {:induction false} ApplyAllLookup(m: Store, t: Task, k: Key)
    ensures Lookup(ApplyAll(m, t), k) == if Owes(t, k) then FinalValue(t, k) else Lookup(m, k)
    decreases |t|
  {
    if t != [] {
      SplitFirst(t, k);
      ApplyAllLookup(Apply(m, t[0]), t[1..], k);
    }
  }

  // ---- The machine ----

  predicate Enabled(s: State, e: Event) {
    match e
    case Write(_) => true
    case Start => s.queued != []
    case Resume(i) => i < |s.started| && s.started[i] != []
  }

  function Step(s: State, e: Event): State
    requires Enabled(s, e)
  {
    match e
    case Write(ops) => s.(cache := ApplyAll(s.cache, ops), queued := s.queued + [ops])
    case Start =>
      var t := s.queued[0];
      if t == [] then s.(queued := s.queued[1..])
      else s.(js := Apply(s.js, t[0]), queued := s.queued[1..], started := s.started + [t[1..]])
    case Resume(i) =>
      var t := s.started[i];
      s.(js := Apply(s.js, t[0]), started := s.started[i := t[1..]])
  }

  predicate IsRun(s: State, events: seq<Event>)
    decreases |events|
  {
    events == [] || (Enabled(s, events[0]) && IsRun(Step(s, events[0]), events[1..]))
  }

  function Run(s: State, events: seq<Event>): State
    requires IsRun(s, events)
    decreases |events|
  {
    if events == [] then s else Run(Step(s, events[0]), events[1..])
  }

  predicate Drained(s: State) {
    s.queued == [] && forall i :: 0 <= i < |s.started| ==> s.started[i] == []
  }

  predicate Agrees(s: State, k: Key) { Lookup(s.js, k) == Lookup(s.cache, k) }

  predicate Background(e: Event) { !e.Write? }

  predicate AllBackground(events: seq<Event>) { forall i :: 0 <= i < |events| ==> Background(events[i]) }

  // ---- When does a key end up right? ----

  /** No task that can be the last to write k leaves anything but the cache's
      value. The candidates are: any started task that owes k, any queued task
      that owes k after its first operation, and the last queued task that owes k. */
  ghost predicate StartedRight(s: State, k: Key) {
    forall i :: 0 <= i < |s.started| && Owes(s.started[i], k) ==> FinalValue(s.started[i], k) == Lookup(s.cache, k)
  }

  ghost predicate LateRight(s: State, k: Key) {
    forall i :: 0 <= i < |s.queued| && LateIn(s.queued[i], k) ==> FinalValue(s.queued[i], k) == Lookup(s.cache, k)
  }

  /** The task owes k after its first operation. */
  predicate LateIn(t: Task, k: Key)
    ensures LateIn(t, k) ==> Owes(t, k)
  {
    t != [] && (SplitFirst(t, k); Owes(t[1..], k))
  }

  predicate OwedAfter(queued: seq<Task>, i: int, k: Key)
    requires 0 <= i
  {
    exists j :: i < j < |queued| && Owes(queued[j], k)
  }

  ghost predicate LastRight(s: State, k: Key) {
    forall i :: 0 <= i < |s.queued| && Owes(s.queued[i], k) && !OwedAfter(s.queued, i, k) ==>
      FinalValue(s.queued[i], k) == Lookup(s.cache, k)
  }

  predicate NoneOwed(s: State, k: Key) {
    && (forall i :: 0 <= i < |s.queued| ==> !Owes(s.queued[i], k))
    && (forall i :: 0 <= i < |s.started| ==> !Owes(s.started[i], k))
  }

  ghost predicate Settled(s: State, k: Key) {
    && StartedRight(s, k) && LateRight(s, k) && LastRight(s, k)
    && (NoneOwed(s, k) ==> Agrees(s, k))
  }

  /** Some way of finishing all the queued work leaves the store wrong about k. */
  ghost predicate CanEndWrong(s: State, k: Key) {
    exists events :: EndsWrong(s, events, k)
  }

  ghost predicate EndsWrong(s: State, events: seq<Event>, k: Key) {
    IsRun(s, events) && AllBackground(events) && Drained(Run(s, events)) && !Agrees(Run(s, events), k)
  }

  // ---- Settled is kept, and is enough ----

  lemma FirstOperation(m: Store, t: Task, k: Key)
    requires t != []
    ensures t[0].key != k ==> Lookup(Apply(m, t[0]), k) == Lookup(m, k)
    ensures t[0].key == k ==> Lookup(Apply(m, t[0]), k) == Lookup(Apply(map[], t[0]), k)
    ensures Owes(t, k) ==> if LateIn(t, k) then FinalValue(t, k) == FinalValue(t[1..], k)
                           else FinalValue(t, k) == Lookup(Apply(m, t[0]), k)
    ensures Owes(t, k) <==> t[0].key == k || LateIn(t, k)
  {
    SplitFirst(t, k);
  }

  lemma StartKeepsSettled(s: State, k: Key)
    requires s.queued != [] && Settled(s, k)
    ensures Settled(Step(s, Start), k)
  {
    var t, r := s.queued[0], Step(s, Start);
    assert forall i :: 0 <= i < |r.queued| ==> r.queued[i] == s.queued[i + 1];
    forall i | 0 <= i < |r.queued| ensures OwedAfter(s.queued, i + 1, k) ==> OwedAfter(r.queued, i, k) {
      if OwedAfter(s.queued, i + 1, k) {
        var j :| i + 1 < j < |s.queued| && Owes(s.queued[j], k);
        assert Owes(r.queued[j - 1], k);
      }
    }
    if t != [] {
      FirstOperation(s.js, t, k);
      assert r.started[|s.started|] == t[1..];
      assert forall i :: 0 <= i < |s.started| ==> r.started[i] == s.started[i];
      if NoneOwed(r, k) {
        NoneOwedBefore(s, r, k);
      }
    }
  }

  lemma NoneOwedBefore(s: State, r: State, k: Key)
    requires s.queued != [] && s.queued[0] != [] && r == Step(s, Start) && NoneOwed(r, k)
    ensures !LateIn(s.queued[0], k) && !OwedAfter(s.queued, 0, k)
    ensures !Owes(s.queued[0], k) ==> NoneOwed(s, k)
  {
    assert r.started[|s.started|] == s.queued[0][1..];
    assert forall i :: 0 <= i < |s.started| ==> r.started[i] == s.started[i];
    assert forall i :: 0 < i < |s.queued| ==> s.queued[i] == r.queued[i - 1];
  }

  lemma ResumeKeepsSettled(s: State, i: nat, k: Key)
    requires i < |s.started| && s.started[i] != [] && Settled(s, k)
    ensures Settled(Step(s, Resume(i)), k)
  {
    var t, r := s.started[i], Step(s, Resume(i));
    FirstOperation(s.js, t, k);
    assert forall j :: 0 <= j < |s.started| && j != i ==> r.started[j] == s.started[j];
    assert r.started[i] == t[1..];
    if NoneOwed(r, k) && !Owes(t, k) {
      assert NoneOwed(s, k);
    }
  }

  lemma {:induction false} SettledEndsRight(s: State, events: seq<Event>, k: Key)
    requires IsRun(s, events) && AllBackground(events) && Settled(s, k)
    ensures Settled(Run(s, events), k)
    ensures Drained(Run(s, events)) ==> Agrees(Run(s, events), k)
    decreases |events|
  {
    if events == [] {
      if Drained(s) {
        assert NoneOwed(s, k);
      }
    } else {
      var e := events[0];
      assert Background(e);
      if e.Start? {
        StartKeepsSettled(s, k);
      } else {
        ResumeKeepsSettled(s, e.i, k);
      }
      assert forall i :: 0 <= i < |events[1..]| ==> events[1..][i] == events[i + 1];
      SettledEndsRight(Step(s, e), events[1..], k);
    }
  }

  // ---- All queued work can be finished, and anything unsettled can go wrong ----

  function OpsIn(tasks: seq<Task>): nat {
    if tasks == [] then 0 else |tasks[0]| + OpsIn(tasks[1..])
  }

  lemma {:induction false} OpsInAppend(tasks: seq<Task>, t: Task)
    ensures OpsIn(tasks + [t]) == OpsIn(tasks) + |t|
  {
    if tasks == [] {
      assert [t][1..] == [];
    } else {
      assert (tasks + [t])[1..] == tasks[1..] + [t];
      OpsInAppend(tasks[1..], t);
    }
  }

  lemma {:induction false} OpsInUpdate(tasks: seq<Task>, i: nat, t: Task)
    requires i < |tasks|
    ensures OpsIn(tasks[i := t]) == OpsIn(tasks) - |tasks[i]| + |t|
  {
    if i == 0 {
      assert tasks[i := t][1..] == tasks[1..];
    } else {
      assert tasks[i := t][1..] == tasks[1..][i - 1 := t];
      OpsInUpdate(tasks[1..], i - 1, t);
    }
  }

  /** Work left: operations not issued, and tasks not started. */
  function Pending(s: State): nat { |s.queued| + OpsIn(s.queued) + OpsIn(s.started) }

  lemma BackgroundFinishes(s: State, e: Event)
    requires Background(e) && Enabled(s, e)
    ensures Pending(Step(s, e)) < Pending(s)
  {
    if e.Start? {
      if s.queued[0] != [] { OpsInAppend(s.started, s.queued[0][1..]); }
    } else {
      OpsInUpdate(s.started, e.i, s.started[e.i][1..]);
    }
  }

  /** Without new writes the queue runs dry: no schedule is longer than the work left. */
  lemma {:induction false} BackgroundIsBounded(s: State, events: seq<Event>)
    requires IsRun(s, events) && AllBackground(events)
    ensures |events| <= Pending(s)
    decreases |events|
  {
    if events != [] {
      assert Background(events[0]);
      BackgroundFinishes(s, events[0]);
      assert forall i :: 0 <= i < |events[1..]| ==> events[1..][i] == events[i + 1];
      BackgroundIsBounded(Step(s, events[0]), events[1..]);
    }
  }

  lemma OneStepBefore(s: State, e: Event, k: Key)
    requires Background(e) && Enabled(s, e) && CanEndWrong(Step(s, e), k)
    ensures CanEndWrong(s, k)
  {
    var events :| EndsWrong(Step(s, e), events, k);
    var longer := [e] + events;
    assert longer[1..] == events;
    assert EndsWrong(s, longer, k);
  }

  lemma AlreadyWrong(s: State, k: Key)
    requires Drained(s) && !Agrees(s, k)
    ensures CanEndWrong(s, k)
  {
    assert EndsWrong(s, [], k);
  }

  lemma StartLeavesNoneOwed(s: State, k: Key)
    requires s.queued != [] && (s.queued[0] != [] ==> !LateIn(s.queued[0], k)) && !OwedAfter(s.queued, 0, k)
    requires forall i :: 0 <= i < |s.started| ==> !Owes(s.started[i], k)
    ensures NoneOwed(Step(s, Start), k)
  {
    var r := Step(s, Start);
    if s.queued[0] != [] {
      assert r.started[|s.started|] == s.queued[0][1..];
      assert forall i :: 0 <= i < |s.started| ==> r.started[i] == s.started[i];
    }
    assert forall i :: 0 <= i < |r.queued| ==> r.queued[i] == s.queued[i + 1];
  }

  /** Nothing will write k any more and the store is wrong about it. */
  lemma {:induction false} NobodyRepairs(s: State, k: Key)
    requires NoneOwed(s, k) && !Agrees(s, k)
    ensures CanEndWrong(s, k)
    decreases Pending(s)
  {
    if s.queued != [] {
      var t := s.queued[0];
      if t != [] { FirstOperation(s.js, t, k); }
      assert !OwedAfter(s.queued, 0, k);
      StartLeavesNoneOwed(s, k);
      BackgroundFinishes(s, Start);
      NobodyRepairs(Step(s, Start), k);
      OneStepBefore(s, Start, k);
    } else if i :| 0 <= i < |s.started| && s.started[i] != [] {
      var e := Resume(i);
      FirstOperation(s.js, s.started[i], k);
      assert forall j :: 0 <= j < |s.started| && j != i ==> Step(s, e).started[j] == s.started[j];
      BackgroundFinishes(s, e);
      NobodyRepairs(Step(s, e), k);
      OneStepBefore(s, e, k);
    } else {
      AlreadyWrong(s, k);
    }
  }

  /** A started task that leaves the wrong value can be resumed last. */
  lemma {:induction false} StartedCanBeLast(s: State, i: nat, k: Key)
    requires i < |s.started| && Owes(s.started[i], k) && FinalValue(s.started[i], k) != Lookup(s.cache, k)
    ensures CanEndWrong(s, k)
    decreases Pending(s)
  {
    if s.queued != [] {
      BackgroundFinishes(s, Start);
      assert Step(s, Start).started[i] == s.started[i];
      StartedCanBeLast(Step(s, Start), i, k);
      OneStepBefore(s, Start, k);
    } else if j :| 0 <= j < |s.started| && j != i && s.started[j] != [] {
      var e := Resume(j);
      BackgroundFinishes(s, e);
      assert Step(s, e).started[i] == s.started[i];
      StartedCanBeLast(Step(s, e), i, k);
      OneStepBefore(s, e, k);
    } else {
      var e, t := Resume(i), s.started[i];
      var r := Step(s, e);
      BackgroundFinishes(s, e);
      FirstOperation(s.js, t, k);
      assert r.started[i] == t[1..];
      if LateIn(t, k) {
        StartedCanBeLast(r, i, k);
      } else {
        assert forall j :: 0 <= j < |s.started| && j != i ==> r.started[j] == [];
        NobodyRepairs(r, k);
      }
      OneStepBefore(s, e, k);
    }
  }

  /** A queued batch that owes a wrong value after its first operation can be started, then left for last. */
  lemma {:induction false} LateCanBeLast(s: State, i: nat, k: Key)
    requires i < |s.queued| && LateIn(s.queued[i], k) && FinalValue(s.queued[i], k) != Lookup(s.cache, k)
    ensures CanEndWrong(s, k)
    decreases i
  {
    var r := Step(s, Start);
    if i == 0 {
      FirstOperation(s.js, s.queued[0], k);
      assert r.started[|s.started|] == s.queued[0][1..];
      StartedCanBeLast(r, |s.started|, k);
    } else {
      assert r.queued[i - 1] == s.queued[i];
      LateCanBeLast(r, i - 1, k);
    }
    OneStepBefore(s, Start, k);
  }

  /** With every started task finished early, the last queued writer of k wins. */
  lemma {:induction false} LastCanBeLast(s: State, i: nat, k: Key)
    requires i < |s.queued| && Owes(s.queued[i], k) && !OwedAfter(s.queued, i, k)
    requires FinalValue(s.queued[i], k) != Lookup(s.cache, k)
    ensures CanEndWrong(s, k)
    decreases Pending(s)
  {
    if LateIn(s.queued[i], k) {
      LateCanBeLast(s, i, k);
    } else if j :| 0 <= j < |s.started| && s.started[j] != [] {
      BackgroundFinishes(s, Resume(j));
      LastCanBeLast(Step(s, Resume(j)), i, k);
      OneStepBefore(s, Resume(j), k);
    } else {
      var r := Step(s, Start);
      BackgroundFinishes(s, Start);
      if i == 0 {
        FirstOperation(s.js, s.queued[0], k);
        StartLeavesNoneOwed(s, k);
        NobodyRepairs(r, k);
      } else {
        assert r.queued[i - 1] == s.queued[i];
        if j :| i - 1 < j < |r.queued| && Owes(r.queued[j], k) {
          assert Owes(s.queued[j + 1], k);
        }
        LastCanBeLast(r, i - 1, k);
      }
      OneStepBefore(s, Start, k);
    }
  }

  /** The exact condition: every way of finishing the queued work leaves the
      store right about k if and only if k is settled. */
  lemma SettledIff(s: State, k: Key)
    ensures Settled(s, k) <==> !CanEndWrong(s, k)
  {
    if Settled(s, k) {
      if CanEndWrong(s, k) {
        var events :| EndsWrong(s, events, k);
        SettledEndsRight(s, events, k);
      }
    } else if !StartedRight(s, k) {
      var i :| 0 <= i < |s.started| && Owes(s.started[i], k) && FinalValue(s.started[i], k) != Lookup(s.cache, k);
      StartedCanBeLast(s, i, k);
    } else if !LateRight(s, k) {
      var i :| 0 <= i < |s.queued| && LateIn(s.queued[i], k) && FinalValue(s.queued[i], k) != Lookup(s.cache, k);
      LateCanBeLast(s, i, k);
    } else if !LastRight(s, k) {
      var i :| 0 <= i < |s.queued| && Owes(s.queued[i], k) && !OwedAfter(s.queued, i, k) &&
        FinalValue(s.queued[i], k) != Lookup(s.cache, k);
      LastCanBeLast(s, i, k);
    } else {
      NobodyRepairs(s, k);
    }
  }

  // ---- What a write does ----

  /** A batch still owes k: it has started, or owes k after its first operation. */
  predicate BatchOwes(s: State, k: Key) {
    || (exists i :: 0 <= i < |s.started| && Owes(s.started[i], k))
    || (exists i :: 0 <= i < |s.queued| && LateIn(s.queued[i], k))
  }

  /** Writing k settles it, whatever the store held before, unless a batch still
      owes k and would leave something else there. */
  lemma WriteSettles(s: State, ops: Task, k: Key)
    requires Owes(ops, k)
    ensures var r := Step(s, Write(ops));
            Settled(r, k) <==> StartedRight(s.(cache := r.cache), k) && LateRight(s.(cache := r.cache), k)
    ensures !BatchOwes(s, k) ==> Settled(Step(s, Write(ops)), k)
  {
    var r := Step(s, Write(ops));
    ApplyAllLookup(s.cache, ops, k);
    assert r.queued[|s.queued|] == ops;
    assert forall i :: 0 <= i < |s.queued| ==> r.queued[i] == s.queued[i] && OwedAfter(r.queued, i, k);
  }

  /** Writing other keys does not touch k's prospects. */
  lemma WriteElsewhere(s: State, ops: Task, k: Key)
    requires !Owes(ops, k) && Settled(s, k)
    ensures Settled(Step(s, Write(ops)), k)
  {
    var r := Step(s, Write(ops));
    ApplyAllLookup(s.cache, ops, k);
    assert r.queued[|s.queued|] == ops;
    assert forall i :: 0 <= i < |s.queued| ==> r.queued[i] == s.queued[i];
    forall i | 0 <= i < |s.queued| ensures OwedAfter(s.queued, i, k) ==> OwedAfter(r.queued, i, k) {
      if OwedAfter(s.queued, i, k) {
        var j :| i < j < |s.queued| && Owes(s.queued[j], k);
        assert Owes(r.queued[j], k);
      }
    }
    if NoneOwed(r, k) { assert NoneOwed(s, k); }
  }

  // ---- Whole runs ----

  /** The keys that start-up loads. */
  predicate Preloaded(k: Key) { "state:" <= k || "dir:" <= k }

  function Preload(js: Store): Store { map k | k in js && Preloaded(k) :: js[k] }

  function Fresh(js: Store): State { State(Preload(js), js, [], []) }

  /** Whether k's last write is clean after a step: a write of k is clean when no batch still owes k. */
  predicate NextClean(s: State, e: Event, k: Key, clean: bool) {
    if e.Write? && Owes(e.ops, k) then !BatchOwes(s, k) else clean
  }

  /** No batch owed k when k was last written; if it never was, start-up covered it. */
  predicate LastWriteClean(s: State, events: seq<Event>, k: Key, clean: bool)
    requires IsRun(s, events)
    decreases |events|
  {
    if events == [] then clean
    else LastWriteClean(Step(s, events[0]), events[1..], k, NextClean(s, events[0], k, clean))
  }

  lemma CleanStepSettles(s: State, e: Event, k: Key, clean: bool)
    requires Enabled(s, e) && (clean ==> Settled(s, k))
    ensures NextClean(s, e, k, clean) ==> Settled(Step(s, e), k)
  {
    if NextClean(s, e, k, clean) {
      if e.Write? {
        if Owes(e.ops, k) { WriteSettles(s, e.ops, k); } else { WriteElsewhere(s, e.ops, k); }
      } else if e.Start? {
        StartKeepsSettled(s, k);
      } else {
        ResumeKeepsSettled(s, e.i, k);
      }
    }
  }

  lemma {:induction false} CleanStaysSettled(s: State, events: seq<Event>, k: Key, clean: bool)
    requires IsRun(s, events) && LastWriteClean(s, events, k, clean) && (clean ==> Settled(s, k))
    ensures Settled(Run(s, events), k)
    decreases |events|
  {
    if events != [] {
      CleanStepSettles(s, events[0], k, clean);
      CleanStaysSettled(Step(s, events[0]), events[1..], k, NextClean(s, events[0], k, clean));
    }
  }

  /** Write-behind agreement: over every interleaving of writes and tasks, a
      drained queue leaves store and cache equal on every key whose last write
      came while no batch still owed it. */
  lemma StoreCatchesUp(js: Store, events: seq<Event>, k: Key)
    requires IsRun(Fresh(js), events)
    requires LastWriteClean(Fresh(js), events, k, Preloaded(k) || k !in js)
    ensures !CanEndWrong(Run(Fresh(js), events), k)
    ensures Drained(Run(Fresh(js), events)) ==> Agrees(Run(Fresh(js), events), k)
  {
    CleanStaysSettled(Fresh(js), events, k, Preloaded(k) || k !in js);
    var s := Run(Fresh(js), events);
    SettledIff(s, k);
    if Drained(s) { assert NoneOwed(s, k); }
  }

  /** Overwriting a key that a started batch still owes can lose the newer value for good. */
  lemma OvertakenWriteCanBeLost(s: State, i: nat, k: Key, v: Value)
    requires i < |s.started| && Owes(s.started[i], k) && FinalValue(s.started[i], k) != Some(v)
    ensures CanEndWrong(Step(s, Write([Put(k, v)])), k)
  {
    var ops := [Put(k, v)];
    var r := Step(s, Write(ops));
    assert ops[1..] == [] && r.cache == ApplyAll(Apply(s.cache, ops[0]), []);
    StartedCanBeLast(r, i, k);
  }

  /** A batch writes another key and then k, its task starts, and k is written again. */
  function Overtaking(other: Key, k: Key, older: Value, newer: Value): seq<Event> {
    [Write([Put(other, older), Put(k, older)]), Start, Write([Put(k, newer)])]
  }

  /** Those three steps, from any store, lead to where the newer value can be lost. */
  lemma LostFromTheStart(js: Store, other: Key, k: Key, older: Value, newer: Value)
    requires older != newer
    ensures IsRun(Fresh(js), Overtaking(other, k, older, newer))
    ensures CanEndWrong(Run(Fresh(js), Overtaking(other, k, older, newer)), k)
  {
    hide ApplyAll, CanEndWrong;
    var batch := [Put(other, older), Put(k, older)];
    var events := Overtaking(other, k, older, newer);
    var s1 := Step(Fresh(js), events[0]);
    var s2 := Step(s1, Start);
    var s3 := Step(s2, events[2]);
    assert s1.queued == [batch] && s2.started == [batch[1..]] && batch[1..] == [Put(k, older)];
    assert events[1..] == [Start, events[2]] && events[1..][1..] == [events[2]] && events[1..][1..][1..] == [];
    assert IsRun(s3, []) && Run(s3, []) == s3;
    assert IsRun(s2, [events[2]]) && Run(s2, [events[2]]) == s3;
    assert IsRun(s1, events[1..]) && Run(s1, events[1..]) == s3;
    assert batch[1..][0].key == k && batch[1..][1..] == [];
    assert Owes(s2.started[0], k) && !Owes([], k);
    OvertakenWriteCanBeLost(s2, 0, k, newer);
  }

  /** All the writes of a run, in order. */
  function Issued(events: seq<Event>): Task
    decreases |events|
  {
    if events == [] then []
    else (if events[0].Write? then events[0].ops else []) + Issued(events[1..])
  }

  lemma {:induction false} ApplyAllSplit(m: Store, a: Task, b: Task)
    ensures ApplyAll(m, a + b) == ApplyAll(ApplyAll(m, a), b)
    decreases |a|
  {
    if a == [] {
      assert a + b == b;
    } else {
      assert (a + b)[1..] == a[1..] + b;
      ApplyAllSplit(Apply(m, a[0]), a[1..], b);
    }
  }

  /** Reads see the preload overwritten by every write issued so far, in order,
      whatever the background tasks do. */
  lemma {:induction false} ReadsSeeLastWrite(s: State, events: seq<Event>)
    requires IsRun(s, events)
    ensures Run(s, events).cache == ApplyAll(s.cache, Issued(events))
    decreases |events|
  {
    if events != [] {
      var e := events[0];
      ReadsSeeLastWrite(Step(s, e), events[1..]);
      if e.Write? {
        ApplyAllSplit(s.cache, e.ops, Issued(events[1..]));
      } else {
        assert [] + Issued(events[1..]) == Issued(events[1..]);
      }
    }
  }
}
