/** The redundant counters of the transmit queue, as values, and why each entry point's
    increments and decrements keep them equal to what they count. */
module TxQueueCounters {
  import opened TxQueueModel
  import opened TxQueueSteps

  /** The counters of one queue, and the per-interface count of waiting items it shares with
      the other queues, an 8-bit field. */
  datatype Counters = Counters(
    numQueued: nat, numPending: nat, numQueuedVif: seq<nat>, numPendingVif: seq<nat>,
    linkMapCache: seq<seq<nat>>, statsQueued: seq<nat>)

  /** The counters agree with the lists; others[v] items of interface v wait in other queues. */
  ghost predicate Counted(q: Tq, c: Counters, others: seq<nat>, cap: nat)
    requires Partition(q)
  {
    && c.numQueued == |q.queue| + |q.pending| && c.numPending == |q.pending|
    && |c.numQueuedVif| == |c.numPendingVif| == |c.linkMapCache| == |c.statsQueued| == |others| == MAX_VIFS
    && (forall v :: 0 <= v < MAX_VIFS ==> VifCounted(q, c, others, v) && |c.linkMapCache[v]| == cap)
    && (forall v, l :: 0 <= v < MAX_VIFS && 0 <= l < cap ==> c.linkMapCache[v][l] == |Waiting(q, OfLink(v, l))|)
  }

  ghost predicate VifCounted(q: Tq, c: Counters, others: seq<nat>, v: nat)
    requires Partition(q) && v < |c.numQueuedVif| && v < |c.numPendingVif| && v < |c.statsQueued| && v < |others|
  {
    && c.numPendingVif[v] == |Sent(q, OfVif(v))|
    && c.numQueuedVif[v] == |Sent(q, OfVif(v))| + |Waiting(q, OfVif(v))|
    && c.statsQueued[v] == (others[v] + |Waiting(q, OfVif(v))|) % 256
  }

  function Up(s: seq<nat>, v: nat): seq<nat>
    requires v < |s|
  {
    s[v := s[v] + 1]
  }

  function Down(s: seq<nat>, v: nat): seq<nat>
    requires v < |s| && s[v] > 0
  {
    s[v := s[v] - 1]
  }

  function UpByte(s: seq<nat>, v: nat): seq<nat>
    requires v < |s|
  {
    s[v := (s[v] + 1) % 256]
  }

  function DownByte(s: seq<nat>, v: nat): seq<nat>
    requires v < |s|
  {
    s[v := (s[v] + 255) % 256]
  }

  function UpLink(m: seq<seq<nat>>, v: nat, l: nat): seq<seq<nat>>
    requires v < |m| && l < |m[v]|
  {
    m[v := Up(m[v], l)]
  }

  function DownLink(m: seq<seq<nat>>, v: nat, l: nat): seq<seq<nat>>
    requires v < |m| && l < |m[v]| && m[v][l] > 0
  {
    m[v := Down(m[v], l)]
  }

  /** What each entry point does to the counters for an item with interface and link p. */
  function AfterPut(c: Counters, p: TxPriv): Counters
    requires Shaped(c, p)
  {
    c.(numQueued := c.numQueued + 1, numQueuedVif := Up(c.numQueuedVif, p.ifId),
       linkMapCache := UpLink(c.linkMapCache, p.ifId, p.linkId), statsQueued := UpByte(c.statsQueued, p.ifId))
  }

  function AfterGet(c: Counters, p: TxPriv): Counters
    requires Shaped(c, p) && c.linkMapCache[p.ifId][p.linkId] > 0
  {
    c.(numPending := c.numPending + 1, numPendingVif := Up(c.numPendingVif, p.ifId),
       linkMapCache := DownLink(c.linkMapCache, p.ifId, p.linkId), statsQueued := DownByte(c.statsQueued, p.ifId))
  }

  function AfterRequeue(c: Counters, p: TxPriv): Counters
    requires Shaped(c, p) && c.numPending > 0 && c.numPendingVif[p.ifId] > 0
  {
    c.(numPending := c.numPending - 1, numPendingVif := Down(c.numPendingVif, p.ifId),
       linkMapCache := UpLink(c.linkMapCache, p.ifId, p.linkId), statsQueued := UpByte(c.statsQueued, p.ifId))
  }

  function AfterRemove(c: Counters, p: TxPriv): Counters
    requires Shaped(c, p) && c.numPending > 0 && c.numPendingVif[p.ifId] > 0
    requires c.numQueued > 0 && c.numQueuedVif[p.ifId] > 0
  {
    c.(numPending := c.numPending - 1, numPendingVif := Down(c.numPendingVif, p.ifId),
       numQueued := c.numQueued - 1, numQueuedVif := Down(c.numQueuedVif, p.ifId))
  }

  function AfterDrop(c: Counters, p: TxPriv): Counters
    requires Shaped(c, p) && c.numQueued > 0 && c.numQueuedVif[p.ifId] > 0 && c.linkMapCache[p.ifId][p.linkId] > 0
  {
    c.(numQueued := c.numQueued - 1, numQueuedVif := Down(c.numQueuedVif, p.ifId),
       linkMapCache := DownLink(c.linkMapCache, p.ifId, p.linkId), statsQueued := DownByte(c.statsQueued, p.ifId))
  }

  ghost predicate Shaped(c: Counters, p: TxPriv) {
    && |c.numQueuedVif| == |c.numPendingVif| == |c.linkMapCache| == |c.statsQueued| == MAX_VIFS
    && p.ifId < MAX_VIFS && p.linkId < |c.linkMapCache[p.ifId]|
  }

  lemma {:induction false} ChosenLength(pool: seq<Item>, list: seq<nat>, sel: Sel)
    requires Indices(pool, list)
    ensures |Chosen(pool, list, sel)| <= |list|
  {
    if list != [] { ChosenLength(pool, list[1..], sel); }
  }

  /** With at most 255 slots every counter of the queue fits the eight bits it has. */
  lemma CountersFit(q: Tq, c: Counters, others: seq<nat>, cap: nat)
    requires WellFormed(q, cap) && Counted(q, c, others, cap)
    ensures c.numQueued < 256 && c.numPending < 256
    ensures forall v :: 0 <= v < MAX_VIFS ==>
      c.numQueuedVif[v] < 256 && c.numPendingVif[v] < 256 && c.statsQueued[v] < 256
  {
    hide Chosen, Copies;
    forall v | 0 <= v < MAX_VIFS ensures c.numQueuedVif[v] < 256 && c.numPendingVif[v] < 256 && c.statsQueued[v] < 256 {
      assert VifCounted(q, c, others, v);
      ChosenLength(q.pool, q.queue, OfVif(v));
      ChosenLength(q.pool, q.pending, OfVif(v));
    }
  }

  // ---------------------------------------------------------------- one lemma per entry point

  lemma CountedPut(q: Tq, c: Counters, others: seq<nat>, cap: nat, skb: nat, p: TxPriv, now: nat)
    requires Labelled(q) && Partition(q) && Counted(q, c, others, cap)
    requires q.free != [] && p.ifId < MAX_VIFS && p.rawLinkId < 16 && p.linkId < cap
    ensures Partition(Put(q, skb, p, now)) && Shaped(c, p)
    ensures Counted(Put(q, skb, p, now), AfterPut(c, p), others, cap)
  {
    var q', c' := Put(q, skb, p, now), AfterPut(c, p);
    PutPartition(q, skb, p, now);
    forall v | 0 <= v < MAX_VIFS ensures VifCounted(q', c', others, v) && |c'.linkMapCache[v]| == cap {
      PutPicks(q, skb, p, now, OfVif(v));
      assert VifCounted(q, c, others, v);
      ByteUp(others[v], |Waiting(q, OfVif(v))|);
    }
    forall v, l | 0 <= v < MAX_VIFS && 0 <= l < cap
      ensures c'.linkMapCache[v][l] == |Waiting(q', OfLink(v, l))|
    {
      PutPicks(q, skb, p, now, OfLink(v, l));
    }
  }

  lemma CountedGet(q: Tq, c: Counters, others: seq<nat>, cap: nat, n: nat)
    requires Partition(q) && Counted(q, c, others, cap) && n < |q.queue|
    requires var p := q.pool[q.queue[n]].priv; p.ifId < MAX_VIFS && p.linkId < cap
    ensures var p := q.pool[q.queue[n]].priv;
      && Partition(GetAt(q, n)) && Shaped(c, p) && c.linkMapCache[p.ifId][p.linkId] > 0
      && Counted(GetAt(q, n), AfterGet(c, p), others, cap)
  {
    var p := q.pool[q.queue[n]].priv;
    var q' := GetAt(q, n);
    GetPartition(q, n);
    GetPicks(q, n, OfLink(p.ifId, p.linkId));
    var c' := AfterGet(c, p);
    forall v | 0 <= v < MAX_VIFS ensures VifCounted(q', c', others, v) && |c'.linkMapCache[v]| == cap {
      GetPicks(q, n, OfVif(v));
      assert VifCounted(q, c, others, v);
      if v == p.ifId { ByteDown(others[v], |Waiting(q, OfVif(v))|); }
    }
    forall v, l | 0 <= v < MAX_VIFS && 0 <= l < cap
      ensures c'.linkMapCache[v][l] == |Waiting(q', OfLink(v, l))|
    {
      GetPicks(q, n, OfLink(v, l));
    }
  }

  lemma CountedRequeue(q: Tq, c: Counters, others: seq<nat>, cap: nat, x: nat)
    requires Labelled(q) && Partition(q) && Counted(q, c, others, cap) && x in q.pending && x < |q.pool|
    requires q.pool[x].priv.ifId < MAX_VIFS && q.pool[x].priv.linkId < cap
    ensures var p := q.pool[x].priv;
      && Partition(Requeue(q, x)) && Shaped(c, p) && c.numPending > 0 && c.numPendingVif[p.ifId] > 0
      && Counted(Requeue(q, x), AfterRequeue(c, p), others, cap)
  {
    var p, q' := q.pool[x].priv, Requeue(q, x);
    RequeuePartition(q, x);
    RequeueVif(q, c, others, x, p.ifId);
    var c' := AfterRequeue(c, p);
    forall v | 0 <= v < MAX_VIFS ensures VifCounted(q', c', others, v) && |c'.linkMapCache[v]| == cap {
      assert VifCounted(q, c, others, v);
      RequeueVif(q, c, others, x, v);
    }
    forall v, l | 0 <= v < MAX_VIFS && 0 <= l < cap
      ensures c'.linkMapCache[v][l] == |Waiting(q', OfLink(v, l))|
    {
      RequeuePicks(q, x, OfLink(v, l));
    }
  }

  lemma RequeueVif(q: Tq, c: Counters, others: seq<nat>, x: nat, v: nat)
    requires Labelled(q) && Partition(q) && x in q.pending && x < |q.pool| && |others| == MAX_VIFS && v < MAX_VIFS
    requires var p := q.pool[x].priv; Shaped(c, p) && c.numPending > 0 && VifCounted(q, c, others, v)
    ensures Partition(Requeue(q, x))
    ensures var p := q.pool[x].priv;
      && (v == p.ifId ==> c.numPendingVif[v] > 0)
      && (c.numPendingVif[p.ifId] > 0 ==> VifCounted(Requeue(q, x), AfterRequeue(c, p), others, v))
  {
    RequeuePicks(q, x, OfVif(v));
    ByteUp(others[v], |Waiting(q, OfVif(v))|);
  }

  lemma VifAfterRemove(q: Tq, c: Counters, others: seq<nat>, x: nat, v: nat)
    requires Partition(q) && x in q.pending && x < |q.pool| && q.pool[x].priv.ifId < MAX_VIFS && v < MAX_VIFS
    requires |c.numQueuedVif| == |c.numPendingVif| == |c.statsQueued| == |others| == MAX_VIFS
      && VifCounted(q, c, others, v)
    requires c.numPending > 0 && c.numPendingVif[q.pool[x].priv.ifId] > 0
    requires c.numQueued > 0 && c.numQueuedVif[q.pool[x].priv.ifId] > 0 && Shaped(c, q.pool[x].priv)
    ensures Partition(Remove(q, x)) && VifCounted(Remove(q, x), AfterRemove(c, q.pool[x].priv), others, v)
  {
    hide Copies, Without;
    RemovePartition(q, x);
    RemovePicks(q, x, OfVif(v));
  }

  lemma CountedRemove(q: Tq, c: Counters, others: seq<nat>, cap: nat, x: nat)
    requires Partition(q) && Counted(q, c, others, cap) && x in q.pending && x < |q.pool|
    requires q.pool[x].priv.ifId < MAX_VIFS && q.pool[x].priv.linkId < cap
    ensures var p := q.pool[x].priv;
      && Partition(Remove(q, x)) && Shaped(c, p) && c.numPending > 0 && c.numPendingVif[p.ifId] > 0
      && c.numQueued > 0 && c.numQueuedVif[p.ifId] > 0
      && Counted(Remove(q, x), AfterRemove(c, p), others, cap)
  {
    hide Copies, Without;
    var p, q' := q.pool[x].priv, Remove(q, x);
    RemovePartition(q, x);
    RemovePicks(q, x, OfVif(p.ifId));
    assert VifCounted(q, c, others, p.ifId);
    var c' := AfterRemove(c, p);
    forall v | 0 <= v < MAX_VIFS ensures VifCounted(q', c', others, v) && |c'.linkMapCache[v]| == cap {
      assert VifCounted(q, c, others, v);
      VifAfterRemove(q, c, others, x, v);
    }
    forall v, l | 0 <= v < MAX_VIFS && 0 <= l < cap
      ensures c'.linkMapCache[v][l] == |Waiting(q', OfLink(v, l))|
    {
      RemovePicks(q, x, OfLink(v, l));
    }
  }

  lemma CountedDrop(q: Tq, c: Counters, others: seq<nat>, cap: nat)
    requires Partition(q) && Counted(q, c, others, cap) && q.queue != []
    requires var p := q.pool[q.queue[0]].priv; p.ifId < MAX_VIFS && p.linkId < cap
    ensures var p := q.pool[q.queue[0]].priv;
      && Partition(Dropped(q, 1)) && Shaped(c, p) && c.numQueued > 0 && c.numQueuedVif[p.ifId] > 0
      && c.linkMapCache[p.ifId][p.linkId] > 0
      && Counted(Dropped(q, 1), AfterDrop(c, p), others, cap)
  {
    var p, q' := q.pool[q.queue[0]].priv, Dropped(q, 1);
    DroppedPartition(q, 1);
    DroppedOne(q, OfLink(p.ifId, p.linkId));
    DropVif(q, c, others, p.ifId);
    var c' := AfterDrop(c, p);
    forall v | 0 <= v < MAX_VIFS ensures VifCounted(q', c', others, v) && |c'.linkMapCache[v]| == cap {
      assert VifCounted(q, c, others, v);
      DropVif(q, c, others, v);
    }
    forall v, l | 0 <= v < MAX_VIFS && 0 <= l < cap
      ensures c'.linkMapCache[v][l] == |Waiting(q', OfLink(v, l))|
    {
      DroppedOne(q, OfLink(v, l));
    }
  }

  lemma DropVif(q: Tq, c: Counters, others: seq<nat>, v: nat)
    requires Partition(q) && q.queue != [] && |others| == MAX_VIFS && v < MAX_VIFS
    requires var p := q.pool[q.queue[0]].priv; Shaped(c, p) && c.numQueued > 0 && VifCounted(q, c, others, v)
    ensures Partition(Dropped(q, 1))
    ensures var p := q.pool[q.queue[0]].priv;
      && (v == p.ifId ==> c.numQueuedVif[v] > 0)
      && (c.numQueuedVif[p.ifId] > 0 && c.linkMapCache[p.ifId][p.linkId] > 0 ==>
            VifCounted(Dropped(q, 1), AfterDrop(c, p), others, v))
  {
    DroppedOne(q, OfVif(v));
    var n := |Waiting(q, OfVif(v))|;
    if v == q.pool[q.queue[0]].priv.ifId { ByteDown(others[v], n); }
  }

  lemma ByteDown(a: nat, n: nat)
    requires n > 0
    ensures ((a + n) % 256 + 255) % 256 == (a + (n - 1)) % 256
  {}

  lemma ByteUp(a: nat, n: nat)
    ensures ((a + n) % 256 + 1) % 256 == (a + (n + 1)) % 256
  {}

  lemma DroppedOne(q: Tq, sel: Sel)
    requires Partition(q) && q.queue != []
    ensures Partition(Dropped(q, 1))
    ensures Waiting(q, sel) == IfPicked(sel, q.pool[q.queue[0]].priv, q.queue[0]) + Waiting(Dropped(q, 1), sel)
    ensures Sent(Dropped(q, 1), sel) == Sent(q, sel)
  {
    DroppedPicks(q, 1, sel);
    assert q.queue[..1] == [q.queue[0]];
    ChosenOne(q.pool, q.queue[0], sel);
  }

  // ---------------------------------------------------------------- reading the counters

  /** What a link map selects among the waiting items of an interface. */
  ghost function Selected(q: Tq, v: nat, links: nat): nat
    requires Partition(q)
  {
    |Chosen(q.pool, q.queue, OfMap(v, links, 256))|
  }

  /** Summing the per-link counts under a map: one more link. */
  lemma {:induction false} OneMoreLink(pool: seq<Item>, list: seq<nat>, v: nat, links: nat, l: nat)
    requires Indices(pool, list)
    ensures |Chosen(pool, list, OfMap(v, links, l + 1))|
            == |Chosen(pool, list, OfMap(v, links, l))|
               + if Selects(links, l) then |Chosen(pool, list, OfLink(v, l))| else 0
  {
    if list != [] { OneMoreLink(pool, list[1..], v, links, l); }
  }

  lemma {:induction false} NoLinkBelowZero(pool: seq<Item>, list: seq<nat>, v: nat, links: nat)
    requires Indices(pool, list)
    ensures Chosen(pool, list, OfMap(v, links, 0)) == []
  {
    if list != [] { NoLinkBelowZero(pool, list[1..], v, links); }
  }

  /** Two selections that agree on every listed item pick the same. */
  lemma {:induction false} SamePicks(pool: seq<Item>, list: seq<nat>, a: Sel, b: Sel)
    requires Indices(pool, list)
    requires forall i :: 0 <= i < |list| ==> (Picks(a, pool[list[i]].priv) <==> Picks(b, pool[list[i]].priv))
    ensures Chosen(pool, list, a) == Chosen(pool, list, b)
  {
    if list != [] {
      assert Picks(a, pool[list[0]].priv) <==> Picks(b, pool[list[0]].priv);
      SamePicks(pool, list[1..], a, b);
    }
  }

  /** The all-ones map selects every link. */
  lemma AllOnesSelects(l: nat)
    requires l < 16
    ensures Selects(ALL_LINKS, l)
  {
    BitValues();
  }

  lemma BitValues()
    ensures Bit(0) == 1 && Bit(1) == 2 && Bit(2) == 4 && Bit(3) == 8
    ensures Bit(4) == 16 && Bit(5) == 32 && Bit(6) == 64 && Bit(7) == 128
    ensures Bit(8) == 256 && Bit(9) == 512 && Bit(10) == 1024 && Bit(11) == 2048
    ensures Bit(12) == 4096 && Bit(13) == 8192 && Bit(14) == 16384 && Bit(15) == 32768
  {
    assert Bit(3) == 8;
    assert Bit(6) == 64;
    assert Bit(9) == 512;
    assert Bit(12) == 4096;
  }
}
