/** A tunnel's byte pipe: two directions that run independently until both ends
    have finished or one of them fails. */
module TunnelRelay {
  import opened Bytes
  import opened ByteStream

  const BUFFER: nat := 16384

  datatype Cause = IdleTimeout | MaxLifetime | KpsError | TcpError

  /** One direction: the source's bytes not read yet, the bytes read but not yet
      written, the bytes written, and whether the FIN has been passed on. */
  datatype Pipe = Pipe(unread: seq<byte>, held: seq<byte>, written: seq<byte>, finSent: bool)

  datatype Result = Running | Done | Aborted(cause: Cause)

  /** Bytes the client sent before the hand-over, KPS to TCP, TCP to KPS. */
  datatype Relay = Relay(leftover: seq<byte>, up: Pipe, down: Pipe, result: Result)

  datatype Side = Up | Down

  datatype Step =
    | WriteLeftover(n: nat)
    | Read(side: Side, n: nat)
    | ReadEnd(side: Side)
    | Write(side: Side, n: nat)
    | Fail(cause: Cause)
    | Finish

  function Get(r: Relay, side: Side): Pipe { if side.Up? then r.up else r.down }

  function Put(r: Relay, side: Side, p: Pipe): Relay {
    if side.Up? then r.(up := p) else r.(down := p)
  }

  /** Reading starts once the leftover is out; a direction reads again once what
      it read is written, and no more once it has seen the end. */
  predicate CanRead(r: Relay, side: Side) {
    r.leftover == [] && Get(r, side).held == [] && !Get(r, side).finSent
  }

  predicate Enabled(r: Relay, step: Step) {
    r.result.Running? &&
    match step
    case WriteLeftover(n) => 0 < n <= |r.leftover|
    case Read(side, n) => CanRead(r, side) && 0 < n <= |Get(r, side).unread| && n <= BUFFER
    case ReadEnd(side) => CanRead(r, side) && Get(r, side).unread == []
    case Write(side, n) => 0 < n <= |Get(r, side).held|
    case Fail(_) => true
    case Finish => r.up.finSent && r.down.finSent
  }

  function Apply(r: Relay, step: Step): Relay
    requires Enabled(r, step)
  {
    match step
    case WriteLeftover(n) =>
      r.(leftover := r.leftover[n..], up := r.up.(written := r.up.written + r.leftover[..n]))
    case Read(side, n) =>
      var p := Get(r, side);
      Put(r, side, p.(unread := p.unread[n..], held := p.unread[..n]))
    case ReadEnd(side) => Put(r, side, Get(r, side).(finSent := true))
    case Write(side, n) =>
      var p := Get(r, side);
      Put(r, side, p.(held := p.held[n..], written := p.written + p.held[..n]))
    case Fail(cause) => r.(result := Aborted(cause))
    case Finish => r.(result := Done)
  }

  function Start(leftover: seq<byte>, client: seq<byte>, target: seq<byte>): Relay {
    Relay(leftover, Pipe(client, [], [], false), Pipe(target, [], [], false), Running)
  }

  ghost predicate IsRun(run: seq<Relay>, steps: seq<Step>, leftover: seq<byte>, client: seq<byte>, target: seq<byte>) {
    && |run| == |steps| + 1 && run[0] == Start(leftover, client, target)
    && forall i :: 0 <= i < |steps| ==> Enabled(run[i], steps[i]) && run[i + 1] == Apply(run[i], steps[i])
  }

  ghost predicate Faithful(r: Relay, leftover: seq<byte>, client: seq<byte>, target: seq<byte>) {
    && r.up.written + r.leftover + r.up.held + r.up.unread == leftover + client
    && r.down.written + r.down.held + r.down.unread == target
    && (r.leftover != [] ==> r.up.held == [] && !r.up.finSent)
    && (r.up.finSent ==> r.up.held == [] && r.up.unread == [])
    && (r.down.finSent ==> r.down.held == [] && r.down.unread == [])
    && (r.result.Done? ==> r.up.finSent && r.down.finSent)
  }

  lemma TakeFront(a: seq<byte>, b: seq<byte>, c: seq<byte>, n: nat)
    requires n <= |b|
    ensures (a + b[..n]) + b[n..] + c == a + b + c
  {
    assert b == b[..n] + b[n..];
  }

  lemma LeftoverIsFaithful(r: Relay, n: nat, leftover: seq<byte>, client: seq<byte>, target: seq<byte>)
    requires Faithful(r, leftover, client, target) && Enabled(r, WriteLeftover(n))
    ensures Faithful(Apply(r, WriteLeftover(n)), leftover, client, target)
  {
    TakeFront(r.up.written, r.leftover, r.up.unread, n);
    assert r.up.held == [];
    assert r.up.written + r.leftover + [] == r.up.written + r.leftover;
    var q := Apply(r, WriteLeftover(n));
    assert q.up.written + q.leftover + [] == q.up.written + q.leftover;
  }

  lemma ReadIsFaithful(r: Relay, side: Side, n: nat, leftover: seq<byte>, client: seq<byte>, target: seq<byte>)
    requires Faithful(r, leftover, client, target) && Enabled(r, Read(side, n))
    ensures Faithful(Apply(r, Read(side, n)), leftover, client, target)
  {
    var p := Get(r, side);
    assert p.unread == p.unread[..n] + p.unread[n..];
    assert r.up.written + [] == r.up.written;
  }

  lemma WriteIsFaithful(r: Relay, side: Side, n: nat, leftover: seq<byte>, client: seq<byte>, target: seq<byte>)
    requires Faithful(r, leftover, client, target) && Enabled(r, Write(side, n))
    ensures Faithful(Apply(r, Write(side, n)), leftover, client, target)
  {
    var p := Get(r, side);
    TakeFront(p.written, p.held, p.unread, n);
    var q := Apply(r, Write(side, n));
    assert r.leftover == [] || side.Down?;
    assert r.up.written + [] == r.up.written && q.up.written + [] == q.up.written;
  }

  lemma StepIsFaithful(r: Relay, step: Step, leftover: seq<byte>, client: seq<byte>, target: seq<byte>)
    requires Faithful(r, leftover, client, target) && Enabled(r, step)
    ensures Faithful(Apply(r, step), leftover, client, target)
  {
    match step
    case WriteLeftover(n) => LeftoverIsFaithful(r, n, leftover, client, target);
    case Read(side, n) => ReadIsFaithful(r, side, n, leftover, client, target);
    case Write(side, n) => WriteIsFaithful(r, side, n, leftover, client, target);
    case _ =>
  }

  lemma {:induction false} RunIsFaithful(run: seq<Relay>, steps: seq<Step>, leftover: seq<byte>, client: seq<byte>,
                                         target: seq<byte>, i: nat)
    requires IsRun(run, steps, leftover, client, target) && i < |run|
    ensures Faithful(run[i], leftover, client, target)
  {
    if i > 0 {
      RunIsFaithful(run, steps, leftover, client, target, i - 1);
      StepIsFaithful(run[i - 1], steps[i - 1], leftover, client, target);
    }
  }

  /** At every moment the target has received a prefix of leftover and client
      bytes, the client a prefix of the target's; a FIN went out only behind
      everything; and the relay ends well only when both sides are complete. */
  lemma RelayDelivers(run: seq<Relay>, steps: seq<Step>, leftover: seq<byte>, client: seq<byte>, target: seq<byte>, i: nat)
    requires IsRun(run, steps, leftover, client, target) && i < |run|
    ensures run[i].up.written <= leftover + client && run[i].down.written <= target
    ensures run[i].up.finSent || run[i].result.Done? ==> run[i].up.written == leftover + client
    ensures run[i].down.finSent || run[i].result.Done? ==> run[i].down.written == target
  {
    RunIsFaithful(run, steps, leftover, client, target, i);
    var r := run[i];
    assert r.up.written + r.leftover + r.up.held + r.up.unread == r.up.written + (r.leftover + r.up.held + r.up.unread);
    assert r.down.written + r.down.held + r.down.unread == r.down.written + (r.down.held + r.down.unread);
  }

  lemma StepGrows(r: Relay, step: Step)
    requires Enabled(r, step)
    ensures r.result.Running?
    ensures r.up.written <= Apply(r, step).up.written && r.down.written <= Apply(r, step).down.written
  {
  }

  /** What is written only ever grows, and nothing happens after the end. */
  lemma {:induction false} WrittenOnlyGrows(run: seq<Relay>, steps: seq<Step>, leftover: seq<byte>, client: seq<byte>,
                                            target: seq<byte>, i: nat, j: nat)
    requires IsRun(run, steps, leftover, client, target) && i <= j < |run|
    ensures run[i].up.written <= run[j].up.written && run[i].down.written <= run[j].down.written
    ensures !run[i].result.Running? ==> run[j] == run[i]
    decreases j - i
  {
    if i < j {
      WrittenOnlyGrows(run, steps, leftover, client, target, i, j - 1);
      assert Enabled(run[j - 1], steps[j - 1]) && run[j - 1 + 1] == Apply(run[j - 1], steps[j - 1]);
      StepGrows(run[j - 1], steps[j - 1]);
      hide Apply, Enabled;
      PrefixTransitive(run[i].up.written, run[j - 1].up.written, run[j].up.written);
      PrefixTransitive(run[i].down.written, run[j - 1].down.written, run[j].down.written);
    }
  }

  // ---- Nothing gets stuck ----

  function PipeWork(p: Pipe): nat { 2 * |p.unread| + |p.held| + if p.finSent then 0 else 1 }

  function Work(r: Relay): nat { |r.leftover| + PipeWork(r.up) + PipeWork(r.down) + if r.result.Running? then 1 else 0 }

  /** The work of one direction that can be done next, if there is any. */
  function NextOf(r: Relay, side: Side): Option<Step> {
    var p := Get(r, side);
    if p.held != [] then Some(Write(side, |p.held|))
    else if p.finSent then None
    else if p.unread != [] then Some(Read(side, if |p.unread| < BUFFER then |p.unread| else BUFFER))
    else Some(ReadEnd(side))
  }

  function Next(r: Relay): Step {
    if r.leftover != [] then WriteLeftover(|r.leftover|)
    else match NextOf(r, Up)
      case Some(step) => step
      case None => match NextOf(r, Down) case Some(step) => step case None => Finish
  }

  lemma NextWorks(r: Relay)
    requires r.result.Running?
    ensures Enabled(r, Next(r)) && Work(Apply(r, Next(r))) < Work(r)
    ensures Apply(r, Next(r)).result.Running? || Apply(r, Next(r)).result.Done?
  {
  }

  lemma OneMoreStep(run: seq<Relay>, steps: seq<Step>, leftover: seq<byte>, client: seq<byte>, target: seq<byte>, step: Step)
    requires IsRun(run, steps, leftover, client, target) && Enabled(run[|steps|], step)
    ensures IsRun(run + [Apply(run[|steps|], step)], steps + [step], leftover, client, target)
  {
    hide Enabled, Apply;
    var longer, longerSteps := run + [Apply(run[|steps|], step)], steps + [step];
    forall i | 0 <= i < |longerSteps|
      ensures Enabled(longer[i], longerSteps[i]) && longer[i + 1] == Apply(longer[i], longerSteps[i])
    {
      if i < |steps| {
        assert Enabled(run[i], steps[i]) && run[i + 1] == Apply(run[i], steps[i]);
      }
    }
  }

  /** From every moment of every run on which nothing has failed yet, the relay can still
      deliver everything and end well. */
  lemma {:induction false} CanFinish(run: seq<Relay>, steps: seq<Step>, leftover: seq<byte>, client: seq<byte>, target: seq<byte>)
      returns (more: seq<Relay>, moreSteps: seq<Step>)
    requires IsRun(run, steps, leftover, client, target) && !run[|steps|].result.Aborted?
    ensures run <= more && steps <= moreSteps && IsRun(more, moreSteps, leftover, client, target)
    ensures var last := more[|moreSteps|];
            last.result == Done && last.up.written == leftover + client && last.down.written == target
    decreases Work(run[|steps|])
  {
    var r := run[|steps|];
    if r.result.Done? {
      more, moreSteps := run, steps;
      RelayDelivers(run, steps, leftover, client, target, |steps|);
    } else {
      NextWorks(r);
      hide Enabled, Apply, Next, Work, IsRun;
      OneMoreStep(run, steps, leftover, client, target, Next(r));
      more, moreSteps := CanFinish(run + [Apply(r, Next(r))], steps + [Next(r)], leftover, client, target);
    }
  }

  /** The loop of one direction, run to its end: what the sink takes of the source's
      bytes arrives, and the loop returns without an error exactly when that is all of
      them and the source ended cleanly behind them. */
  method Pump(source: Reader, sink: Writer) returns (ok: bool)
    modifies source, sink
    ensures sink.written == old(sink.written) + Accepted(sink.limit, |old(sink.written)|, old(source.incoming))
    ensures ok <==> Fits(sink.limit, |old(sink.written)|, |old(source.incoming)|) && source.tail.Closed?
    ensures ok ==> source.incoming == []
  {
    ghost var before, total := sink.written, source.incoming;
    ghost var done: seq<byte> := [];
    while true
      invariant done + source.incoming == total
      invariant sink.written == before + done && Fits(sink.limit, |before|, |done|)
      decreases |source.incoming|
    {
      ghost var left := source.incoming;
      var got := source.Read(BUFFER);
      if !got.Data? {
        assert done == total;
        return got.Eof?;
      }
      ConcatAssoc(done, got.bytes, source.incoming);
      InTwoParts(sink.limit, before, done, got.bytes);
      InTwoParts(sink.limit, before, done + got.bytes, source.incoming);
      ok := sink.WriteAll(got.bytes);
      if !ok {
        return;
      }
      done := done + got.bytes;
    }
  }
}
