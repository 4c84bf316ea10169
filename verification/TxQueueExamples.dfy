/** Two runs of the transmit queue that show where its promises end: a single requeue that breaks
    the order, and a used identifier that is accepted again. */
module TxQueueExamples {
  import opened Options
  import opened TxQueueModel
  import opened TxQueueSteps
  import opened TxQueueRuns

  const PRIV := TxPriv(0, 0, 0)
  const BLANK := Item(None, 0, PRIV, 0, 0)

  // ---------------------------------------------------------------- a requeue out of order

  /** A fresh queue of two slots. */
  function TwoSlots(): Tq {
    Tq([BLANK, BLANK], [0, 1], [], [], 0, 0)
  }

  /** Two frames put and sent. */
  function PutTwoSendTwo(): seq<Op> {
    [DoPut(PRIV, 0), DoPut(PRIV, 0), DoGet(0, 1), DoGet(0, 1)]
  }

  lemma TwoSlotsFresh()
    ensures WellFormed(TwoSlots(), 1) && Ordered(TwoSlots(), 0)
  {
    var q := TwoSlots();
    forall x | 0 <= x < 2 ensures Copies(q.free, x) == 1 {
      assert q.free[1..] == [1] && q.free[1..][1..] == [];
    }
    forall v, l ensures Flow(q, v, l) == [] {}
  }

  lemma ReplayFirst(q: Tq, ops: seq<Op>, serial: nat, cap: nat)
    requires WellFormed(q, cap) && ops != []
    ensures WellFormed(Apply(q, ops[0], serial, cap), cap)
    ensures Replay(q, ops, serial, cap) == Replay(Apply(q, ops[0], serial, cap), ops[1..], serial + 1, cap)
  {
    ApplyKeeps(q, ops[0], serial, cap);
  }

  lemma GetsFirst(q: Tq)
    requires WellFormed(q, 1) && q.queue != [] && q.pool[q.queue[0]].priv == PRIV
    ensures Apply(q, DoGet(0, 1), 0, 1) == GetAt(q, 0)
    ensures forall serial :: Apply(q, DoGet(0, 1), serial, 1) == GetAt(q, 0)
  {
    assert Bit(0) == 1 && Selects(1, 0);
  }

  /** A put takes the first free slot to the tail of the queue. */
  lemma PutsFirst(q: Tq, serial: nat)
    requires WellFormed(q, 1) && q.free != []
    ensures q.free[0] < |q.pool|
    ensures var q', x := Apply(q, DoPut(PRIV, 0), serial, 1), q.free[0];
      && q'.free == q.free[1..] && q'.queue == q.queue + [x] && q'.pending == q.pending
      && |q'.pool| == |q.pool| && q'.pool[x].priv == PRIV
      && forall y :: 0 <= y < |q.pool| && y != x ==> q'.pool[y] == q.pool[y]
  {
    hide Labelling;
    Labels(q);
  }

  /** After the two puts. */
  lemma BothPut() returns (q2: Tq)
    ensures WellFormed(TwoSlots(), 1) && WellFormed(q2, 1)
    ensures q2.queue == [0, 1] && q2.pending == [] && |q2.pool| == 2 && q2.pool[0].priv == PRIV
      && q2.pool[1].priv == PRIV
    ensures Replay(TwoSlots(), PutTwoSendTwo(), 0, 1) == Replay(q2, [DoGet(0, 1), DoGet(0, 1)], 2, 1)
  {
    hide WellFormed, Apply;
    TwoSlotsFresh();
    var q0, ops := TwoSlots(), PutTwoSendTwo();
    ReplayFirst(q0, ops, 0, 1);
    PutsFirst(q0, 0);
    var q1 := Apply(q0, ops[0], 0, 1);
    assert q1.free == [1] && q1.queue == [0];
    var rest := ops[1..];
    assert rest[0] == ops[1] && rest[1..] == [DoGet(0, 1), DoGet(0, 1)];
    ReplayFirst(q1, rest, 1, 1);
    PutsFirst(q1, 1);
    q2 := Apply(q1, ops[1], 1, 1);
  }

  /** What the four operations leave. */
  lemma BothSent()
    ensures WellFormed(TwoSlots(), 1)
    ensures var q := Replay(TwoSlots(), PutTwoSendTwo(), 0, 1);
      q.pending == [0, 1] && |q.pool| == 2 && q.pool[0].priv == PRIV && q.pool[1].priv == PRIV
  {
    hide WellFormed, FirstMatch, TwoSlots, PutTwoSendTwo;
    var q2 := BothPut();
    var ops := [DoGet(0, 1), DoGet(0, 1)];
    ReplayFirst(q2, ops, 2, 1);
    GetsFirst(q2);
    var q3 := Apply(q2, ops[0], 2, 1);
    assert q3.queue == [1] && q3.pending == [0];
    var rest := ops[1..];
    assert rest == [DoGet(0, 1)] && rest[1..] == [];
    ReplayFirst(q3, rest, 3, 1);
    GetsFirst(q3);
    assert Apply(q3, rest[0], 3, 1).pending == [0] + [1];
  }

  lemma Labels(q: Tq)
    requires WellFormed(q, 1)
    ensures Labelled(q) && Indices(q.pool, q.free)
  {}

  /** Every flow of a well-formed queue is in arrival order. */
  ghost predicate InArrivalOrder(q: Tq, serial: nat) {
    WellFormed(q, 1) && Ordered(q, serial)
  }

  /** A single requeue of the first of two sent frames breaks the order. */
  lemma RequeueBreaksOrder()
    ensures InArrivalOrder(TwoSlots(), 0)
    ensures var q := Replay(TwoSlots(), PutTwoSendTwo(), 0, 1);
      InArrivalOrder(q, 4) && !InArrivalOrder(Apply(q, DoRequeue(0), 4, 1), 4)
  {
    hide WellFormed, Ordered, Replay, LastSentOfFlow, FirstMatch, Labelling, TwoSlots, Stale, BumpedAll, Without,
      Copies;
    TwoSlotsFresh();
    BothSent();
    RunOrdered(TwoSlots(), PutTwoSendTwo(), 0, 1);
    var q := Replay(TwoSlots(), PutTwoSendTwo(), 0, 1);
    Labels(q);
    FirstOfTwo(q);
    WellFormedParts(q);
    RequeueOrderedIff(q, 0, 4);
  }

  lemma WellFormedParts(q: Tq)
    requires WellFormed(q, 1)
    ensures Labelled(q) && Partition(q)
  {}

  lemma FirstOfTwo(q: Tq)
    requires q.pending == [0, 1] && |q.pool| == 2 && q.pool[0].priv == PRIV && q.pool[1].priv == PRIV
    ensures !LastSentOfFlow(q, 0)
  {
    var sel := OfLink(0, 0);
    assert q.pending[1..] == [1] && q.pending[1..][1..] == [];
    assert Chosen(q.pool, [1], sel) == [1];
    assert Sent(q, sel) == [0] + [1];
  }

  // ---------------------------------------------------------------- an identifier that comes back

  /** A queue of one slot whose frame has been sent. */
  ghost predicate OneSent(q: Tq) {
    WellFormed(q, 1) && |q.pool| == 1 && q.pool[0].priv == PRIV && q.pending == [0] && q.queue == [] && q.free == []
  }

  /** Requeued with everything else and sent again, n times over. */
  function Laps(n: nat): seq<Op> {
    if n == 0 then [] else [DoRequeueAll, DoGet(0, 1)] + Laps(n - 1)
  }

  lemma OneLap(q: Tq, serial: nat)
    requires OneSent(q)
    ensures WellFormed(Apply(q, DoRequeueAll, serial, 1), 1)
    ensures OneSent(Apply(Apply(q, DoRequeueAll, serial, 1), DoGet(0, 1), serial + 1, 1))
    ensures Bumps(q, DoRequeueAll, 0) && !Bumps(Apply(q, DoRequeueAll, serial, 1), DoGet(0, 1), 0)
  {
    ApplyKeeps(q, DoRequeueAll, serial, 1);
    var r := Apply(q, DoRequeueAll, serial, 1);
    assert r.queue == [0] && r.pool[0].priv == PRIV;
    GetsFirst(r);
    ApplyKeeps(r, DoGet(0, 1), serial + 1, 1);
  }

  lemma {:induction false} LapsCount(q: Tq, n: nat, serial: nat)
    requires OneSent(q)
    ensures NeverReused(q, Laps(n), 0, serial, 1) && BumpCount(q, Laps(n), 0, serial, 1) == n
    decreases n
  {
    hide WellFormed, Apply, Bumps;
    if n > 0 {
      OneLap(q, serial);
      var r, ops := Apply(q, DoRequeueAll, serial, 1), Laps(n);
      LapsCount(Apply(r, DoGet(0, 1), serial + 1, 1), n - 1, serial + 2);
      assert ops[0] == DoRequeueAll && ops[1..][0] == DoGet(0, 1) && ops[1..][1..] == Laps(n - 1);
      TwoOps(q, ops, serial);
    }
  }

  lemma TwoOps(q: Tq, ops: seq<Op>, serial: nat)
    requires WellFormed(q, 1) && |ops| >= 2
    ensures WellFormed(Apply(q, ops[0], serial, 1), 1)
    ensures var r := Apply(q, ops[0], serial, 1);
      && WellFormed(Apply(r, ops[1], serial + 1, 1), 1)
      && var t, rest := Apply(r, ops[1], serial + 1, 1), ops[1..][1..];
      && BumpCount(q, ops, 0, serial, 1)
         == (if Bumps(q, ops[0], 0) then 1 else 0) + (if Bumps(r, ops[1], 0) then 1 else 0)
           + BumpCount(t, rest, 0, serial + 2, 1)
      && (NeverReused(q, ops, 0, serial, 1)
          <==> !Reuses(q, ops[0], 0, 1) && !Reuses(r, ops[1], 0, 1) && NeverReused(t, rest, 0, serial + 2, 1))
  {
    hide Apply, Bumps, Reuses, WellFormed;
    ApplyKeeps(q, ops[0], serial, 1);
    var r := Apply(q, ops[0], serial, 1);
    ApplyKeeps(r, ops[1], serial + 1, 1);
    assert ops[1..][0] == ops[1];
  }

  /** After 256 laps the identifier the frame was first sent under is found again. */
  lemma FullCircle(q: Tq, serial: nat)
    requires OneSent(q)
    ensures BumpCount(q, Laps(256), 0, serial, 1) == 256
    ensures Find(Replay(q, Laps(256), serial, 1), q.pool[0].packetId) != NoEntry
  {
    hide Laps, Find, BumpCount, Replay;
    LapsCount(q, 256, serial);
    RefusedIff(q, Laps(256), 0, serial, 1);
  }

  /** There is such a queue. */
  lemma OneSentExists()
    ensures OneSent(Tq([Item(Some(0), 0, PRIV, 0, 0)], [], [], [0], 0, 0))
  {
    var q := Tq([Item(Some(0), 0, PRIV, 0, 0)], [], [], [0], 0, 0);
    assert q.pending[1..] == [];
    assert Copies(q.pending, 0) == 1;
  }
}
