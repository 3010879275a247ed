/** The gateway client itself: the synchronous stretches of its methods and
    promise handlers, each proved to be one step of the machine. */
module KpsGateway {
  import opened Bytes
  import opened GatewayRuns

  class KpsGateway {
    var closed: bool
    var connPromise: Option<nat>
    var teardowns: map<nat, set<nat>>
    /** The dialer's and the connections' side, and the callbacks' history. */
    ghost var dials: seq<Dial>
    ghost var closeOnOpen: set<nat>
    ghost var closeCalls: set<nat>
    ghost var history: Callbacks
    var nextId: nat

    ghost function View(): Gateway
      reads this
    {
      Gateway(closed, connPromise, dials, closeOnOpen, closeCalls, history.(teardowns := teardowns))
    }

    ghost predicate Valid()
      reads this
    {
      nextId == |dials| && Inv(View())
    }

    constructor ()
      ensures Valid() && View() == Fresh
    {
      closed, connPromise, teardowns, nextId := false, None, map[], 0;
      dials, closeOnOpen, closeCalls := [], {}, {};
      history := NoCallbacks;
    }

    /** #connection: the attempt this caller waits on, or None when it throws. */
    method Connection() returns (attempt: Option<nat>)
      requires Valid()
      modifies this
      ensures Valid() && View() == Apply(old(View()), Acquire)
      ensures attempt.None? <==> old(closed)
      ensures attempt.Some? ==> attempt == connPromise && ActiveAt(View(), attempt.value)
      ensures old(connPromise).Some? ==> View() == old(View())
      ensures !old(closed) && old(connPromise).None? ==>
                connPromise == Some(|old(dials)|) && dials == old(dials) + [Dialing] && !closed
    {
      StepKeepsInv(View(), Acquire);
      if closed {
        return None;
      }
      if connPromise.None? {
        connPromise := Some(nextId);
        nextId := nextId + 1;
        dials := dials + [Dialing];
      }
      return connPromise;
    }

    /** The dial handler on success; close() may have asked to close the result. */
    method OnDialed(id: nat)
      requires Valid() && Enabled(View(), DialSucceeds(id))
      modifies this
      ensures Valid() && View() == Apply(old(View()), DialSucceeds(id))
      ensures id in teardowns && teardowns[id] == {} && dials[id] == Open && closed == old(closed)
      ensures connPromise == old(connPromise) && (id in closeOnOpen ==> id in closeCalls)
    {
      StepKeepsInv(View(), DialSucceeds(id));
      teardowns := teardowns[id := {}];
      dials := dials[id := Open];
      closeCalls := if id in closeOnOpen then closeCalls + {id} else closeCalls;
    }

    method OnDialFailed(id: nat)
      requires Valid() && Enabled(View(), DialFails(id))
      modifies this
      ensures Valid() && View() == Apply(old(View()), DialFails(id))
      ensures connPromise == if old(connPromise) == Some(id) then None else old(connPromise)
    {
      StepKeepsInv(View(), DialFails(id));
      if connPromise == Some(id) {
        connPromise := None;
      }
      dials := dials[id := Failed];
    }

    /** The handler of conn.closed. */
    method OnClosed(id: nat)
      requires Valid() && Enabled(View(), ConnectionClosed(id))
      modifies this
      ensures Valid() && View() == Apply(old(View()), ConnectionClosed(id))
      ensures connPromise == if old(connPromise) == Some(id) then None else old(connPromise)
      ensures id in old(teardowns) ==> history.ran == old(history).ran + multiset(old(teardowns)[id])
      ensures teardowns == old(teardowns) - {id}
    {
      StepKeepsInv(View(), ConnectionClosed(id));
      if connPromise == Some(id) {
        connPromise := None;
      }
      ghost var left := if id in teardowns then teardowns[id] else {};
      teardowns := teardowns - {id};
      history := history.(ran := history.ran + multiset(left));
      dials := dials[id := Reaped];
    }

    method AddTeardownFor(id: nat, callback: nat)
      requires Valid() && Enabled(View(), AddTeardown(id, callback))
      modifies this
      ensures Valid() && View() == Apply(old(View()), AddTeardown(id, callback))
      ensures if id in old(teardowns) then id in teardowns && teardowns[id] == old(teardowns)[id] + {callback}
              else history.microtasks == old(history).microtasks + multiset{callback}
    {
      hide Inv;
      ghost var after := Apply(View(), AddTeardown(id, callback));
      assert Inv(after) && |after.dials| == nextId by { StepKeepsInv(View(), AddTeardown(id, callback)); }
      if id !in teardowns {
        history := history.(microtasks := history.microtasks + multiset{callback});
      } else {
        teardowns := teardowns[id := teardowns[id] + {callback}];
      }
      history := history.(registered := history.registered[callback := id]);
      assert View() == after;
    }

    method Shutdown()
      requires Valid()
      modifies this
      ensures Valid() && View() == Apply(old(View()), Close)
      ensures closed && connPromise.None? && dials == old(dials)
      ensures forall id :: id in closeCalls <==>
                id in old(closeCalls) || (old(connPromise) == Some(id) && !old(dials)[id].Dialing?)
      ensures forall id :: id in closeOnOpen <==>
                id in old(closeOnOpen) || (old(connPromise) == Some(id) && old(dials)[id].Dialing?)
    {
      StepKeepsInv(View(), Close);
      ghost var p := connPromise;
      closed := true;
      connPromise := None;
      if p.Some? {
        if dials[p.value].Dialing? {
          closeOnOpen := closeOnOpen + {p.value};
        } else {
          closeCalls := closeCalls + {p.value};
        }
      }
    }
  }
}
