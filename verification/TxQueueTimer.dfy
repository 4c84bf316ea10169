/** The drop timeout of the transmit queue over whole runs. Putting a frame and the timeout itself
    register it; sending does not need it; bringing sent items back relies on its still being
    registered, which is not always so. */
module TxQueueTimer {
  import opened TxQueueModel
  import opened TxQueueRuns
  import opened TxQueueExamples

  /** Whether a put is accepted. */
  ghost predicate Accepts(q: Tq, op: Op, cap: nat) {
    op.DoPut? && op.priv.linkId < cap && op.priv.ifId < MAX_VIFS && op.priv.rawLinkId < 16 && q.free != []
  }

  /** Whether the timeout is registered after an operation. */
  ghost predicate RegisteredAfter(q: Tq, registered: bool, op: Op, serial: nat, cap: nat)
    requires WellFormed(q, cap)
  {
    if Accepts(q, op, cap) then true
    else if op.DoTimeout? then Apply(q, op, serial, cap).queue != []
    else registered
  }

  /** Whatever waits has a timeout coming. */
  ghost predicate Armed(q: Tq, registered: bool) {
    q.queue != [] ==> registered
  }

  /** An operation that brings sent items back to the queue. */
  ghost predicate Returns(q: Tq, op: Op) {
    match op
    case DoRequeue(x) => x in q.pending && x < |q.pool|
    case DoRequeueAll => q.pending != []
    case _ => false
  }

  /** One operation keeps the queue armed if and only if it brings nothing back, or the timeout
      is registered when it does. */
  lemma StepArmedIff(q: Tq, registered: bool, op: Op, serial: nat, cap: nat)
    requires WellFormed(q, cap) && Armed(q, registered)
    ensures Armed(Apply(q, op, serial, cap), RegisteredAfter(q, registered, op, serial, cap))
            <==> (Returns(q, op) ==> registered)
  {
    hide FirstMatch, Stale, Cleared, BumpedAll, Copies, Identified;
  }

  /** Armed after every operation of a run. */
  ghost predicate AlwaysArmed(q: Tq, registered: bool, ops: seq<Op>, serial: nat, cap: nat)
    requires WellFormed(q, cap)
    decreases ops
  {
    ops == [] ||
    (ApplyKeeps(q, ops[0], serial, cap);
     var q', r' := Apply(q, ops[0], serial, cap), RegisteredAfter(q, registered, ops[0], serial, cap);
     Armed(q', r') && AlwaysArmed(q', r', ops[1..], serial + 1, cap))
  }

  /** Whatever a run brings back comes back while the timeout is registered. */
  ghost predicate ReturnsInTime(q: Tq, registered: bool, ops: seq<Op>, serial: nat, cap: nat)
    requires WellFormed(q, cap)
    decreases ops
  {
    ops == [] ||
    (ApplyKeeps(q, ops[0], serial, cap);
     var q', r' := Apply(q, ops[0], serial, cap), RegisteredAfter(q, registered, ops[0], serial, cap);
     (Returns(q, ops[0]) ==> registered) && ReturnsInTime(q', r', ops[1..], serial + 1, cap))
  }

  /** Over any run, the queue stays armed throughout if and only if every item brought back comes
      back while the timeout is registered. */
  lemma {:induction false} RunArmedIff(q: Tq, registered: bool, ops: seq<Op>, serial: nat, cap: nat)
    requires WellFormed(q, cap) && Armed(q, registered)
    ensures AlwaysArmed(q, registered, ops, serial, cap) <==> ReturnsInTime(q, registered, ops, serial, cap)
    decreases ops
  {
    hide WellFormed, Apply, RegisteredAfter, Armed, Returns;
    if ops != [] {
      ApplyKeeps(q, ops[0], serial, cap);
      StepArmedIff(q, registered, ops[0], serial, cap);
      var q', r' := Apply(q, ops[0], serial, cap), RegisteredAfter(q, registered, ops[0], serial, cap);
      if Armed(q', r') { RunArmedIff(q', r', ops[1..], serial + 1, cap); }
    }
  }

  /** No put of a run is accepted, and no timeout fires in it. */
  ghost predicate NothingRegisters(q: Tq, ops: seq<Op>, serial: nat, cap: nat)
    requires WellFormed(q, cap)
    decreases ops
  {
    ops == [] ||
    (ApplyKeeps(q, ops[0], serial, cap);
     !Accepts(q, ops[0], cap) && !ops[0].DoTimeout?
     && NothingRegisters(Apply(q, ops[0], serial, cap), ops[1..], serial + 1, cap))
  }

  ghost predicate RegisteredBy(q: Tq, registered: bool, ops: seq<Op>, serial: nat, cap: nat)
    requires WellFormed(q, cap)
    decreases ops
  {
    if ops == [] then registered
    else
      ApplyKeeps(q, ops[0], serial, cap);
      RegisteredBy(Apply(q, ops[0], serial, cap), RegisteredAfter(q, registered, ops[0], serial, cap), ops[1..],
                   serial + 1, cap)
  }

  /** Once unregistered, only an accepted put registers the timeout again: until then, whatever
      else happens, what waits is not looked at. */
  lemma {:induction false} UnregisteredUntilPut(q: Tq, ops: seq<Op>, serial: nat, cap: nat)
    requires WellFormed(q, cap) && NothingRegisters(q, ops, serial, cap)
    ensures !RegisteredBy(q, false, ops, serial, cap)
    decreases ops
  {
    hide WellFormed, Apply, Accepts;
    if ops != [] {
      ApplyKeeps(q, ops[0], serial, cap);
      UnregisteredUntilPut(Apply(q, ops[0], serial, cap), ops[1..], serial + 1, cap);
    }
  }

  // ---------------------------------------------------------------- a run that ends unarmed

  /** A frame put and sent, a timeout that finds nothing waiting, and the frame brought back. */
  function PutSendReturn(back: Op): seq<Op> {
    [DoPut(PRIV, 0), DoGet(0, 1), DoTimeout(20, 1000), back]
  }

  lemma ArmedFirst(q: Tq, registered: bool, ops: seq<Op>, serial: nat)
    requires WellFormed(q, 1) && ops != []
    ensures WellFormed(Apply(q, ops[0], serial, 1), 1)
    ensures var q', r' := Apply(q, ops[0], serial, 1), RegisteredAfter(q, registered, ops[0], serial, 1);
      AlwaysArmed(q, registered, ops, serial, 1) <==> Armed(q', r') && AlwaysArmed(q', r', ops[1..], serial + 1, 1)
  {
    ApplyKeeps(q, ops[0], serial, 1);
  }

  /** A timeout with nothing waiting. */
  lemma NothingDropped(q: Tq, serial: nat)
    requires WellFormed(q, 1) && q.queue == []
    ensures var q' := Apply(q, DoTimeout(20, 1000), serial, 1);
      q'.queue == [] && q'.pending == q.pending && |q'.pool| == |q.pool|
  {}

  /** The first three operations leave the frame sent and the timeout unregistered. */
  lemma SentUnregistered(rest: seq<Op>) returns (q: Tq)
    ensures WellFormed(TwoSlots(), 1) && WellFormed(q, 1)
    ensures q.queue == [] && q.pending == [0] && |q.pool| == 2
    ensures AlwaysArmed(TwoSlots(), false, [DoPut(PRIV, 0), DoGet(0, 1), DoTimeout(20, 1000)] + rest, 0, 1)
            <==> AlwaysArmed(q, false, rest, 3, 1)
  {
    hide WellFormed, Apply, AlwaysArmed;
    TwoSlotsFresh();
    var q0, ops := TwoSlots(), [DoPut(PRIV, 0), DoGet(0, 1), DoTimeout(20, 1000)] + rest;
    PutsFirst(q0, 0);
    ArmedFirst(q0, false, ops, 0);
    var q1 := Apply(q0, ops[0], 0, 1);
    assert q1.queue == [0];
    var ops1 := ops[1..];
    assert ops1 == [DoGet(0, 1), DoTimeout(20, 1000)] + rest;
    ArmedFirst(q1, true, ops1, 1);
    GetsFirst(q1);
    var q2 := Apply(q1, ops1[0], 1, 1);
    assert q2.queue == [] && q2.pending == [0];
    var ops2 := ops1[1..];
    assert ops2 == [DoTimeout(20, 1000)] + rest;
    ArmedFirst(q2, true, ops2, 2);
    q := Apply(q2, ops2[0], 2, 1);
    NothingDropped(q2, 2);
    assert ops2[1..] == rest;
  }

  /** Requeueing everything and a single requeue both leave the frame waiting without a timeout. */
  lemma ReturnUnarms(back: Op)
    requires back == DoRequeueAll || back == DoRequeue(0)
    ensures WellFormed(TwoSlots(), 1)
    ensures AlwaysArmed(TwoSlots(), false, PutSendReturn(back)[..3], 0, 1)
    ensures !AlwaysArmed(TwoSlots(), false, PutSendReturn(back), 0, 1)
  {
    hide WellFormed, TwoSlots, BumpedAll, Without;
    var first := [DoPut(PRIV, 0), DoGet(0, 1), DoTimeout(20, 1000)];
    var q3 := SentUnregistered([]);
    assert first + [] == PutSendReturn(back)[..3];
    var q := SentUnregistered([back]);
    assert first + [back] == PutSendReturn(back);
    StepArmedIff(q, false, back, 3, 1);
    ArmedFirst(q, false, [back], 3);
  }
}
