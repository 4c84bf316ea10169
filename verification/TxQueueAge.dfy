/** How long a frame may wait in the transmit queue. Frames are told apart by their arrival numbers,
    and their age is counted from the time of the put that brought them, whatever has happened to
    them since. */
module TxQueueAge {
  import opened Options
  import opened TxQueueModel
  import opened TxQueueSteps
  import opened TxQueueRuns

  // ---------------------------------------------------------------- which frames are there

  /** A slot in use holds the n-th frame. */
  ghost predicate InSlot(q: Tq, x: nat, n: nat) {
    x < |q.pool| && x !in q.free && q.pool[x].skb == Some(n)
  }

  ghost predicate Present(q: Tq, n: nat) {
    exists x: nat :: InSlot(q, x, n)
  }

  /** No two slots hold the same frame, and every frame arrived before `serial`. */
  ghost predicate Numbered(q: Tq, serial: nat) {
    && (forall x: nat, n: nat :: InSlot(q, x, n) ==> n < serial)
    && (forall x: nat, y: nat, n: nat :: InSlot(q, x, n) && InSlot(q, y, n) ==> x == y)
  }

  /** The frame in a slot was put at a time. */
  ghost predicate Since(q: Tq, x: nat, n: nat, t: nat) {
    InSlot(q, x, n) && q.pool[x].stamp == t
  }

  // ---------------------------------------------------------------- one operation

  /** An operation that takes the frame in a slot away: its confirmation, or a timeout that finds it
      has waited for its time to live. */
  ghost predicate Ends(op: Op, x: nat, t: nat) {
    match op
    case DoRemove(slot) => slot == x
    case DoTimeout(now, ttl) => t + ttl <= now
    case _ => false
  }

  /** Any other operation leaves it in its slot, and its time with it. */
  lemma StaysPut(q: Tq, op: Op, serial: nat, cap: nat, x: nat, n: nat, t: nat)
    requires WellFormed(q, cap) && Since(q, x, n, t) && !Ends(op, x, t)
    ensures Since(Apply(q, op, serial, cap), x, n, t)
  {
    hide FirstMatch, Copies, Labelling;
    var q' := Apply(q, op, serial, cap);
    match op {
      case DoTimeout(now, ttl) =>
        var k := Stale(q.pool, q.queue, now, ttl);
        assert x !in q.queue[..k];
      case _ =>
    }
  }

  /** An accepted put brings its frame in under the time it is put at. */
  lemma PutSince(q: Tq, p: TxPriv, t: nat, serial: nat, cap: nat)
    requires WellFormed(q, cap) && q.free != [] && p.linkId < cap && p.ifId < MAX_VIFS && p.rawLinkId < 16
    ensures Since(Apply(q, DoPut(p, t), serial, cap), q.free[0], serial, t)
  {
    hide Labelling;
    var x := q.free[0];
    var q' := Apply(q, DoPut(p, t), serial, cap);
    PutKeeps(q, serial, p, t, cap);
    WhereIs(q', x);
    assert x in q'.queue;
  }

  /** Whatever is there after an operation was there before, with its time, or has just been put. */
  lemma WasThere(q: Tq, op: Op, serial: nat, cap: nat, x: nat, n: nat)
    requires WellFormed(q, cap) && InSlot(Apply(q, op, serial, cap), x, n)
    ensures var q' := Apply(q, op, serial, cap);
      || (InSlot(q, x, n) && q'.pool[x].stamp == q.pool[x].stamp)
      || (op.DoPut? && q.free != [] && x == q.free[0] && n == serial && q'.pool[x].stamp == op.now)
  {
    hide FirstMatch, Copies, Labelling, Stale;
    ApplyKeeps(q, op, serial, cap);
    WhereIs(q, x);
    WhereIs(Apply(q, op, serial, cap), x);
  }

  lemma StepNumbered(q: Tq, op: Op, serial: nat, cap: nat)
    requires WellFormed(q, cap) && Numbered(q, serial)
    ensures Numbered(Apply(q, op, serial, cap), serial + 1)
  {
    hide Apply, WellFormed, InSlot;
    var q' := Apply(q, op, serial, cap);
    forall x: nat, n: nat | InSlot(q', x, n) ensures n < serial + 1 {
      WasThere(q, op, serial, cap, x, n);
    }
    forall x: nat, y: nat, n: nat | InSlot(q', x, n) && InSlot(q', y, n) ensures x == y {
      WasThere(q, op, serial, cap, x, n);
      WasThere(q, op, serial, cap, y, n);
    }
  }

  // ---------------------------------------------------------------- runs

  lemma {:induction false} FrameStays(q: Tq, ops: seq<Op>, serial: nat, cap: nat, x: nat, n: nat, t: nat)
    requires WellFormed(q, cap) && Since(q, x, n, t)
    requires forall i :: 0 <= i < |ops| ==> !Ends(ops[i], x, t)
    ensures Since(Replay(q, ops, serial, cap), x, n, t)
    decreases ops
  {
    hide WellFormed, Apply, Since, Ends;
    if ops != [] {
      StaysPut(q, ops[0], serial, cap, x, n, t);
      ApplyKeeps(q, ops[0], serial, cap);
      FrameStays(Apply(q, ops[0], serial, cap), ops[1..], serial + 1, cap, x, n, t);
    }
  }

  /** Over any run from an accepted put at t, no timeout before t plus its time to live drops the
      frame, sent and brought back or not: unless it is confirmed, it is still there, under that time. */
  lemma NoEarlyDrop(q: Tq, p: TxPriv, t: nat, rest: seq<Op>, serial: nat, cap: nat)
    requires WellFormed(q, cap) && q.free != [] && p.linkId < cap && p.ifId < MAX_VIFS && p.rawLinkId < 16
    requires forall i :: 0 <= i < |rest| ==> rest[i] != DoRemove(q.free[0])
    requires forall i :: 0 <= i < |rest| && rest[i].DoTimeout? ==> rest[i].now < t + rest[i].ttl
    ensures Present(Replay(q, [DoPut(p, t)] + rest, serial, cap), serial)
    ensures Since(Replay(q, [DoPut(p, t)] + rest, serial, cap), q.free[0], serial, t)
  {
    hide WellFormed, Apply, Since;
    var ops := [DoPut(p, t)] + rest;
    PutSince(q, p, t, serial, cap);
    ApplyKeeps(q, ops[0], serial, cap);
    assert ops[1..] == rest;
    FrameStays(Apply(q, ops[0], serial, cap), rest, serial + 1, cap, q.free[0], serial, t);
    SinceSlot(Replay(q, ops, serial, cap), q.free[0], serial, t);
  }

  lemma SinceSlot(q: Tq, x: nat, n: nat, t: nat)
    requires Since(q, x, n, t)
    ensures InSlot(q, x, n) && Present(q, n) && x < |q.pool| && q.pool[x].stamp == t
  {}

  lemma {:induction false} RunNumbered(q: Tq, ops: seq<Op>, serial: nat, cap: nat)
    requires WellFormed(q, cap) && Numbered(q, serial)
    ensures Numbered(Replay(q, ops, serial, cap), serial + |ops|)
    decreases ops
  {
    hide WellFormed, Apply, Numbered;
    if ops != [] {
      StepNumbered(q, ops[0], serial, cap);
      ApplyKeeps(q, ops[0], serial, cap);
      RunNumbered(Apply(q, ops[0], serial, cap), ops[1..], serial + 1, cap);
    }
  }

  /** Whatever was put by one of these operations is dated with the time of that operation: the n-th
      frame came with operation number n - first. */
  ghost predicate Dated(q: Tq, ops: seq<Op>, first: nat) {
    forall x: nat, n: nat :: InSlot(q, x, n) && first <= n ==> DatedOne(q, ops, first, x, n)
  }

  ghost predicate DatedOne(q: Tq, ops: seq<Op>, first: nat, x: nat, n: nat) {
    && x < |q.pool| && first <= n < first + |ops|
    && ops[n - first].DoPut? && q.pool[x].stamp == ops[n - first].now
  }

  lemma StepDated(q: Tq, ops: seq<Op>, first: nat, op: Op, cap: nat)
    requires WellFormed(q, cap) && Dated(q, ops, first)
    ensures Dated(Apply(q, op, first + |ops|, cap), ops + [op], first)
  {
    hide WellFormed, Apply, InSlot;
    var serial := first + |ops|;
    var q' := Apply(q, op, serial, cap);
    forall x: nat, n: nat | InSlot(q', x, n) && first <= n ensures DatedOne(q', ops + [op], first, x, n) {
      WasThere(q, op, serial, cap, x, n);
      SlotIsOne(q', x, n);
      if InSlot(q, x, n) { assert DatedOne(q, ops, first, x, n); }
    }
  }

  lemma SlotIsOne(q: Tq, x: nat, n: nat)
    requires InSlot(q, x, n)
    ensures x < |q.pool|
  {}

  lemma {:induction false} RunDated(q: Tq, past: seq<Op>, first: nat, ops: seq<Op>, cap: nat)
    requires WellFormed(q, cap) && Dated(q, past, first)
    ensures Dated(Replay(q, ops, first + |past|, cap), past + ops, first)
    decreases ops
  {
    hide WellFormed, Apply, Dated;
    if ops == [] {
      assert past + ops == past;
    } else {
      StepDated(q, past, first, ops[0], cap);
      ApplyKeeps(q, ops[0], first + |past|, cap);
      RunDated(Apply(q, ops[0], first + |past|, cap), past + [ops[0]], first, ops[1..], cap);
      assert past + [ops[0]] + ops[1..] == past + ops;
    }
  }

  /** Over any run every frame is dated with the time it was put at. */
  lemma FramesDated(q: Tq, ops: seq<Op>, serial: nat, cap: nat)
    requires WellFormed(q, cap) && Numbered(q, serial)
    ensures Dated(Replay(q, ops, serial, cap), ops, serial) && Numbered(Replay(q, ops, serial, cap), serial + |ops|)
  {
    hide WellFormed, Replay;
    RunNumbered(q, ops, serial, cap);
    RunDated(q, [], serial, ops, cap);
    assert [] + ops == ops;
  }

  // ---------------------------------------------------------------- what a timeout drops

  /** How long ago the k-th waiting frame was put, and that it is not yet its time to live. */
  ghost predicate Fresh(q: Tq, ops: seq<Op>, first: nat, k: nat, now: nat, ttl: nat) {
    && k < |q.queue| && q.queue[k] < |q.pool| && q.pool[q.queue[k]].skb.Some?
    && var n := q.pool[q.queue[k]].skb.value;
    && first <= n < first + |ops| && ops[n - first].DoPut? && now < ops[n - first].now + ttl
  }

  /** After any run that starts with an empty queue a timeout drops a waiting frame if and only if
      neither it nor any frame ahead of it is younger than the time to live, by the times they were
      put at. */
  lemma TimeoutDropsIff(q: Tq, ops: seq<Op>, serial: nat, cap: nat, k: nat, now: nat, ttl: nat)
    requires WellFormed(q, cap) && q.queue == [] && q.pending == [] && k < |Replay(q, ops, serial, cap).queue|
    ensures var r := Replay(q, ops, serial, cap);
      && r.queue[k] < |r.pool| && r.pool[r.queue[k]].skb.Some?
      && var n := r.pool[r.queue[k]].skb.value;
      && Present(r, n)
      && (Present(Apply(r, DoTimeout(now, ttl), serial + |ops|, cap), n)
          <==> exists j: nat :: j <= k && Fresh(r, ops, serial, j, now, ttl))
  {
    hide WellFormed, Replay, Apply;
    var r := Replay(q, ops, serial, cap);
    NothingThere(q, serial, cap);
    FramesDated(q, ops, serial, cap);
    NoneOlder(q, ops, serial, cap, serial);
    DropsIff(r, ops, serial, cap, k, now, ttl);
  }

  lemma NothingThere(q: Tq, serial: nat, cap: nat)
    requires WellFormed(q, cap) && q.queue == [] && q.pending == []
    ensures Numbered(q, serial) && forall x: nat, n: nat :: !InSlot(q, x, n)
  {
    forall x: nat, n: nat ensures !InSlot(q, x, n) {
      if x < |q.pool| { WhereIs(q, x); }
    }
  }

  /** Frames that were not there before the run come with it. */
  lemma {:induction false} NoneOlder(q: Tq, ops: seq<Op>, serial: nat, cap: nat, first: nat)
    requires WellFormed(q, cap) && first <= serial && forall x: nat, n: nat :: InSlot(q, x, n) ==> first <= n
    ensures forall x: nat, n: nat :: InSlot(Replay(q, ops, serial, cap), x, n) ==> first <= n
    decreases ops
  {
    hide WellFormed, Apply, InSlot;
    if ops != [] {
      var q' := Apply(q, ops[0], serial, cap);
      ApplyKeeps(q, ops[0], serial, cap);
      forall x: nat, n: nat | InSlot(q', x, n) ensures first <= n {
        WasThere(q, ops[0], serial, cap, x, n);
      }
      NoneOlder(q', ops[1..], serial + 1, cap, first);
    }
  }

  lemma WaitingSlot(r: Tq, cap: nat, k: nat)
    requires WellFormed(r, cap) && k < |r.queue|
    ensures r.queue[k] < |r.pool| && r.pool[r.queue[k]].skb.Some?
    ensures var n := r.pool[r.queue[k]].skb.value; InSlot(r, r.queue[k], n) && Present(r, n)
  {
    WhereIs(r, r.queue[k]);
    assert InSlot(r, r.queue[k], r.pool[r.queue[k]].skb.value);
  }

  lemma FreshIff(r: Tq, ops: seq<Op>, first: nat, cap: nat, k: nat, now: nat, ttl: nat)
    requires WellFormed(r, cap) && Dated(r, ops, first) && k < |r.queue| && r.queue[k] < |r.pool|
    requires forall x: nat, n: nat :: InSlot(r, x, n) ==> first <= n
    ensures Fresh(r, ops, first, k, now, ttl) <==> now < r.pool[r.queue[k]].stamp + ttl
  {
    hide WellFormed, InSlot;
    WaitingSlot(r, cap, k);
    assert DatedOne(r, ops, first, r.queue[k], r.pool[r.queue[k]].skb.value);
  }

  /** The slots a timeout frees are those of the stale prefix. */
  lemma FreedSlots(r: Tq, now: nat, ttl: nat, serial: nat, cap: nat, k: nat, n: nat)
    requires WellFormed(r, cap) && k < |r.queue| && InSlot(r, r.queue[k], n)
    ensures var m, q' := Stale(r.pool, r.queue, now, ttl), Apply(r, DoTimeout(now, ttl), serial, cap);
      if k < m then r.queue[k] in q'.free else InSlot(q', r.queue[k], n)
  {
    hide Copies;
    var m, q' := Stale(r.pool, r.queue, now, ttl), Apply(r, DoTimeout(now, ttl), serial, cap);
    var x := r.queue[k];
    if k < m {
      assert r.queue[..m][k] == x;
    } else {
      ApplyKeeps(r, DoTimeout(now, ttl), serial, cap);
      assert q'.queue[k - m] == x;
      WhereIs(q', x);
    }
  }

  lemma OnlySlot(q: Tq, x: nat, y: nat, n: nat, serial: nat)
    requires Numbered(q, serial) && InSlot(q, x, n) && InSlot(q, y, n)
    ensures x == y
  {}

  lemma NotInSlot(q: Tq, x: nat, n: nat)
    requires x in q.free
    ensures !InSlot(q, x, n)
  {}

  /** The frame at the head of the queue, put at any time during the run, is dropped if and only if it
      was put the time to live ago, or longer. */
  lemma HeadDropsIff(q: Tq, ops: seq<Op>, serial: nat, cap: nat, n: nat, now: nat, ttl: nat)
    requires WellFormed(q, cap) && Numbered(q, serial) && serial <= n
    requires var r := Replay(q, ops, serial, cap); r.queue != [] && InSlot(r, r.queue[0], n)
    ensures n < serial + |ops| && ops[n - serial].DoPut?
    ensures Present(Apply(Replay(q, ops, serial, cap), DoTimeout(now, ttl), serial + |ops|, cap), n)
            <==> now < ops[n - serial].now + ttl
  {
    hide WellFormed, Dated, InSlot, Apply, Numbered, Replay;
    var r, next := Replay(q, ops, serial, cap), serial + |ops|;
    FramesDated(q, ops, serial, cap);
    DateOf(r, ops, serial, r.queue[0], n);
    StampIndices(r, cap);
    FreedSlots(r, now, ttl, next, cap, 0, n);
    var x, q' := r.queue[0], Apply(r, DoTimeout(now, ttl), next, cap);
    if Stale(r.pool, r.queue, now, ttl) > 0 {
      GoneWhenFreed(r, DoTimeout(now, ttl), next, cap, x, n);
    }
  }

  lemma DateOf(q: Tq, ops: seq<Op>, first: nat, x: nat, n: nat)
    requires Dated(q, ops, first) && InSlot(q, x, n) && first <= n
    ensures DatedOne(q, ops, first, x, n)
  {}

  /** A frame whose slot is freed is gone. */
  lemma GoneWhenFreed(r: Tq, op: Op, serial: nat, cap: nat, x: nat, n: nat)
    requires WellFormed(r, cap) && Numbered(r, serial) && InSlot(r, x, n) && !op.DoPut?
    requires x in Apply(r, op, serial, cap).free
    ensures !Present(Apply(r, op, serial, cap), n)
  {
    hide WellFormed, InSlot, Apply, Numbered;
    var q' := Apply(r, op, serial, cap);
    if y: nat :| InSlot(q', y, n) {
      WasThere(r, op, serial, cap, y, n);
      OnlySlot(r, x, y, n, serial);
      NotInSlot(q', x, n);
    }
  }

  /** The timeout on a queue whose frames are dated. */
  lemma DropsIff(r: Tq, ops: seq<Op>, first: nat, cap: nat, k: nat, now: nat, ttl: nat)
    requires WellFormed(r, cap) && Dated(r, ops, first) && Numbered(r, first + |ops|) && k < |r.queue|
    requires forall x: nat, n: nat :: InSlot(r, x, n) ==> first <= n
    ensures r.queue[k] < |r.pool| && r.pool[r.queue[k]].skb.Some?
    ensures var n := r.pool[r.queue[k]].skb.value;
      && Present(r, n)
      && (Present(Apply(r, DoTimeout(now, ttl), first + |ops|, cap), n)
          <==> exists j: nat :: j <= k && Fresh(r, ops, first, j, now, ttl))
  {
    hide WellFormed, Dated, InSlot, Apply, Fresh, Numbered;
    WaitingSlot(r, cap, k);
    StampIndices(r, cap);
    var x, n := r.queue[k], r.pool[r.queue[k]].skb.value;
    var m, q' := Stale(r.pool, r.queue, now, ttl), Apply(r, DoTimeout(now, ttl), first + |ops|, cap);
    FreedSlots(r, now, ttl, first + |ops|, cap, k, n);
    forall j: nat | j <= k ensures Fresh(r, ops, first, j, now, ttl) <==> now < r.pool[r.queue[j]].stamp + ttl {
      FreshIff(r, ops, first, cap, j, now, ttl);
    }
    if k < m {
      GoneWhenFreed(r, DoTimeout(now, ttl), first + |ops|, cap, x, n);
    } else {
      assert Fresh(r, ops, first, m, now, ttl);
    }
  }

  lemma StampIndices(r: Tq, cap: nat)
    requires WellFormed(r, cap)
    ensures Indices(r.pool, r.queue)
  {}

  // ---------------------------------------------------------------- in order of age

  /** The waiting frames, of all interfaces and links together, are in arrival order. */
  ghost predicate WaitInOrder(q: Tq, serial: nat) {
    InOrder(q.pool, q.queue) && Before(q.pool, q.queue, serial)
  }

  lemma SuffixInOrder(pool: seq<Item>, a: seq<nat>, b: seq<nat>, serial: nat)
    requires InOrder(pool, a + b) && Before(pool, a + b, serial)
    ensures InOrder(pool, b) && Before(pool, b, serial)
  {
    assert forall i :: 0 <= i < |b| ==> b[i] == (a + b)[|a| + i];
  }

  lemma GetInOrder(q: Tq, n: nat, serial: nat)
    requires WaitInOrder(q, serial) && n < |q.queue|
    ensures WaitInOrder(GetAt(q, n), serial)
  {
    assert q.queue == q.queue[..n] + [q.queue[n]] + q.queue[n + 1..];
    CutKeepsOrder(q.pool, q.queue[..n], [q.queue[n]], q.queue[n + 1..], serial);
  }

  lemma RemoveInOrder(q: Tq, x: nat, serial: nat, cap: nat)
    requires WellFormed(q, cap) && WaitInOrder(q, serial) && x in q.pending && x < |q.pool|
    ensures WaitInOrder(Remove(q, x), serial)
  {
    hide Copies, Without;
    WhereIs(q, x);
    SameNumbersSameOrder(q.pool, Remove(q, x).pool, q.queue, serial);
  }

  lemma DropInOrder(q: Tq, n: nat, serial: nat, cap: nat)
    requires WellFormed(q, cap) && WaitInOrder(q, serial) && n <= |q.queue|
    ensures WaitInOrder(Dropped(q, n), serial)
  {
    hide Copies, InOrder, Before;
    assert q.queue == q.queue[..n] + q.queue[n..];
    SuffixInOrder(q.pool, q.queue[..n], q.queue[n..], serial);
    KeptSlots(q, n, cap);
    SameNumbersSameOrder(q.pool, Dropped(q, n).pool, q.queue[n..], serial);
  }

  /** Only what is brought back gets ahead of anything. */
  lemma StepInOrder(q: Tq, op: Op, serial: nat, cap: nat)
    requires WellFormed(q, cap) && WaitInOrder(q, serial) && !op.DoRequeue? && !op.DoRequeueAll?
    ensures WaitInOrder(Apply(q, op, serial, cap), serial + 1)
  {
    hide FirstMatch, Stale, Copies, Put, GetAt, Remove, Dropped;
    match op {
      case DoPut(p, now) =>
        if p.linkId < cap && p.ifId < MAX_VIFS && p.rawLinkId < 16 && q.free != [] {
          PutInOrder(q, serial, p, now, cap);
        }
      case DoGet(ifId, links) =>
        var n := FirstMatch(q.pool, q.queue, ifId, links, 0);
        if n < |q.queue| { GetInOrder(q, n, serial); }
      case DoRemove(x) =>
        if x in q.pending && x < |q.pool| { RemoveInOrder(q, x, serial, cap); }
      case DoTimeout(now, ttl) =>
        DropInOrder(q, Stale(q.pool, q.queue, now, ttl), serial, cap);
    }
  }

  lemma PutInOrder(q: Tq, serial: nat, p: TxPriv, now: nat, cap: nat)
    requires WellFormed(q, cap) && WaitInOrder(q, serial)
    requires q.free != [] && p.ifId < MAX_VIFS && p.rawLinkId < 16
    ensures WaitInOrder(Put(q, serial, p, now), serial + 1)
  {
    hide Labelling, Copies;
    var q', x := Put(q, serial, p, now), q.free[0];
    WhereIs(q, x);
    SameNumbersSameOrder(q.pool, q'.pool, q.queue, serial);
    assert Number(q'.pool, x) == serial;
  }

  /** What a timeout does not drop it leaves alone. */
  lemma KeptSlots(q: Tq, n: nat, cap: nat)
    requires WellFormed(q, cap) && n <= |q.queue|
    ensures forall i :: n <= i < |q.queue| ==> Dropped(q, n).pool[q.queue[i]] == q.pool[q.queue[i]]
  {
    var q' := Dropped(q, n);
    DroppedKeeps(q, n, cap);
    forall i | n <= i < |q.queue| ensures q'.pool[q.queue[i]] == q.pool[q.queue[i]] {
      assert q'.queue[i - n] == q.queue[i];
      WhereIs(q', q.queue[i]);
    }
  }

  /** The times of the puts of a run do not go back. */
  ghost predicate PutsInTime(ops: seq<Op>) {
    forall i, j :: 0 <= i < j < |ops| && ops[i].DoPut? && ops[j].DoPut? ==> ops[i].now <= ops[j].now
  }

  lemma {:induction false} RunInOrder(q: Tq, ops: seq<Op>, serial: nat, cap: nat)
    requires WellFormed(q, cap) && WaitInOrder(q, serial)
    requires forall i :: 0 <= i < |ops| ==> !ops[i].DoRequeue? && !ops[i].DoRequeueAll?
    ensures WaitInOrder(Replay(q, ops, serial, cap), serial + |ops|)
    decreases ops
  {
    hide WellFormed, Apply, WaitInOrder;
    if ops != [] {
      StepInOrder(q, ops[0], serial, cap);
      ApplyKeeps(q, ops[0], serial, cap);
      RunInOrder(Apply(q, ops[0], serial, cap), ops[1..], serial + 1, cap);
    }
  }

  /** Over a run in which nothing is brought back, a timeout drops exactly the waiting frames that were
      put the time to live ago, or longer. */
  lemma TimeoutDropsAged(q: Tq, ops: seq<Op>, serial: nat, cap: nat, k: nat, now: nat, ttl: nat)
    requires WellFormed(q, cap) && q.queue == [] && q.pending == [] && PutsInTime(ops)
    requires forall i :: 0 <= i < |ops| ==> !ops[i].DoRequeue? && !ops[i].DoRequeueAll?
    requires k < |Replay(q, ops, serial, cap).queue|
    ensures var r := Replay(q, ops, serial, cap);
      && r.queue[k] < |r.pool| && r.pool[r.queue[k]].skb.Some?
      && var n := r.pool[r.queue[k]].skb.value;
      && (Present(Apply(r, DoTimeout(now, ttl), serial + |ops|, cap), n) <==> Fresh(r, ops, serial, k, now, ttl))
  {
    hide WellFormed, Replay, Apply, InSlot;
    var r := Replay(q, ops, serial, cap);
    TimeoutDropsIff(q, ops, serial, cap, k, now, ttl);
    RunInOrder(q, ops, serial, cap);
    NothingThere(q, serial, cap);
    FramesDated(q, ops, serial, cap);
    NoneOlder(q, ops, serial, cap, serial);
    if j: nat :| j < k && Fresh(r, ops, serial, j, now, ttl) {
      WaitingSlot(r, cap, k);
      DateOf(r, ops, serial, r.queue[k], r.pool[r.queue[k]].skb.value);
      OrderAt(r.pool, r.queue, j, k);
    }
  }
}
