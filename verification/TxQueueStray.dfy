/** What requeue and remove do to whatever slot the lookup finds, and when the queue survives it.
    Neither looks at which list the slot is on, nor compares interface and link. */
module TxQueueStray {
  import opened Options
  import opened TxQueueModel
  import opened TxQueueSteps
  import opened TxQueueCounters

  /** atbmwifi_queue_requeue of the slot found: off whatever list it is on, to the head of the queue,
      under an identifier with the interface and link of the one it was found by. */
  function RequeueFound(q: Tq, x: nat, ifId: nat, linkId: nat): Tq
    requires x < |q.pool| && Labelled(q) && ifId < 16 && linkId < 16
  {
    var g := (q.pool[x].generation + 1) % 256;
    var it := q.pool[x].(generation := g, packetId := MakeId(PacketId(q.generation, linkId, ifId, q.queueId, g, x)));
    q.(pool := q.pool[x := it], free := Without(q.free, x), pending := Without(q.pending, x),
       queue := [x] + Without(q.queue, x))
  }

  /** atbmwifi_queue_remove of the slot found: off whatever list it is on, to the free head. */
  function RemoveFound(q: Tq, x: nat): Tq
    requires x < |q.pool|
  {
    var it := q.pool[x].(skb := None, generation := (q.pool[x].generation + 1) % 256);
    q.(pool := q.pool[x := it], free := [x] + Without(q.free, x), pending := Without(q.pending, x),
       queue := Without(q.queue, x))
  }

  function DownOne(n: nat): nat {
    (n + 255) % 256
  }

  /** The counters of a requeue, eight bits wide; p is the item's own interface and link. */
  function AfterRequeueFound(c: Counters, ifId: nat, p: TxPriv): Counters
    requires Shaped(c, p) && ifId < MAX_VIFS && p.linkId < |c.linkMapCache[ifId]|
  {
    c.(numPending := DownOne(c.numPending), numPendingVif := DownByte(c.numPendingVif, ifId),
       linkMapCache := UpLink(c.linkMapCache, ifId, p.linkId), statsQueued := UpByte(c.statsQueued, p.ifId))
  }

  /** The counters of a removal. */
  function AfterRemoveFound(c: Counters, ifId: nat): Counters
    requires |c.numPendingVif| == |c.numQueuedVif| == MAX_VIFS && ifId < MAX_VIFS
  {
    c.(numPending := DownOne(c.numPending), numPendingVif := DownByte(c.numPendingVif, ifId),
       numQueued := DownOne(c.numQueued), numQueuedVif := DownByte(c.numQueuedVif, ifId))
  }

  // ---------------------------------------------------------------- the partition

  lemma TakenOut(q: Tq, x: nat, y: nat)
    requires Partition(q) && x < |q.pool| && y < |q.pool|
    ensures Copies(Without(q.free, x), y) + Copies(Without(q.queue, x), y) + Copies(Without(q.pending, x), y)
            == if x == y then 0 else 1
  {
    CopiesWithout(q.free, x, y);
    CopiesWithout(q.queue, x, y);
    CopiesWithout(q.pending, x, y);
    assert Copies(q.free, y) + Copies(q.queue, y) + Copies(q.pending, y) == 1;
  }

  lemma OneFewer(q: Tq, x: nat)
    requires Partition(q) && x < |q.pool|
    ensures |Without(q.free, x)| + |Without(q.queue, x)| + |Without(q.pending, x)| + 1 == |q.pool|
    ensures Indices(q.pool, Without(q.free, x)) && Indices(q.pool, Without(q.queue, x))
      && Indices(q.pool, Without(q.pending, x))
  {
    WhereIs(q, x);
    WithoutIndices(q.pool, q.free, x);
    WithoutIndices(q.pool, q.queue, x);
    WithoutIndices(q.pool, q.pending, x);
  }

  /** Whatever slot is found, every slot stays on exactly one list. */
  lemma RequeueFoundPartition(q: Tq, x: nat, ifId: nat, linkId: nat)
    requires Labelled(q) && Partition(q) && x < |q.pool| && ifId < 16 && linkId < 16
    ensures Partition(RequeueFound(q, x, ifId, linkId))
  {
    hide Without, MakeId;
    var q' := RequeueFound(q, x, ifId, linkId);
    OneFewer(q, x);
    forall y | 0 <= y < |q.pool| ensures Copies(q'.free, y) + Copies(q'.queue, y) + Copies(q'.pending, y) == 1 {
      TakenOut(q, x, y);
      CopiesConcat([x], Without(q.queue, x), y);
      CopiesOne(x, y);
    }
  }

  lemma RemoveFoundPartition(q: Tq, x: nat)
    requires Partition(q) && x < |q.pool|
    ensures Partition(RemoveFound(q, x))
  {
    hide Without;
    var q' := RemoveFound(q, x);
    OneFewer(q, x);
    forall y | 0 <= y < |q.pool| ensures Copies(q'.free, y) + Copies(q'.queue, y) + Copies(q'.pending, y) == 1 {
      TakenOut(q, x, y);
      CopiesConcat([x], Without(q.free, x), y);
      CopiesOne(x, y);
    }
  }

  // ---------------------------------------------------------------- the expected case

  /** A pending slot found under its own interface and link is requeued as expected. */
  lemma RequeueFoundExpected(q: Tq, x: nat)
    requires Labelled(q) && Partition(q) && x in q.pending && x < |q.pool|
    ensures q.pool[x].priv.ifId < 16 && q.pool[x].priv.rawLinkId < 16
    ensures RequeueFound(q, x, q.pool[x].priv.ifId, q.pool[x].priv.rawLinkId) == Requeue(q, x)
  {
    WhereIs(q, x);
    assert GoodItem(q.pool[x]);
  }

  lemma RemoveFoundExpected(q: Tq, x: nat)
    requires Partition(q) && x in q.pending && x < |q.pool|
    ensures RemoveFound(q, x) == Remove(q, x)
  {
    WhereIs(q, x);
  }

  lemma BytesDown(n: nat)
    requires 0 < n < 256
    ensures DownOne(n) == n - 1
  {}

  lemma CountersExpected(q: Tq, c: Counters, others: seq<nat>, cap: nat, x: nat)
    requires WellFormed(q, cap) && Counted(q, c, others, cap) && x in q.pending && x < |q.pool|
    ensures var p := q.pool[x].priv;
      && Shaped(c, p) && c.numPending > 0 && c.numPendingVif[p.ifId] > 0 && c.numQueued > 0
      && c.numQueuedVif[p.ifId] > 0
      && AfterRequeueFound(c, p.ifId, p) == AfterRequeue(c, p)
      && AfterRemoveFound(c, p.ifId) == AfterRemove(c, p)
  {
    hide Copies, Without, Chosen;
    assert GoodItem(q.pool[x]);
    CountersFit(q, c, others, cap);
    CountedRemove(q, c, others, cap, x);
    var p := q.pool[x].priv;
    BytesDown(c.numPending);
    BytesDown(c.numPendingVif[p.ifId]);
    BytesDown(c.numQueued);
    BytesDown(c.numQueuedVif[p.ifId]);
  }

  // ---------------------------------------------------------------- when the queue survives

  /** A byte that is counted down no longer counts what it did. */
  lemma DownDiffers(n: nat)
    requires n < 256
    ensures DownOne(n) != n
  {}

  /** What the checks of the lookup leave to be compared. */
  lemma CarriesIff(q: Tq, id: nat, x: nat, cap: nat)
    requires WellFormed(q, cap) && x < |q.pool| && x !in q.free
    requires id < 0x1_0000_0000 && Find(q, id) == Found(x) && ParseId(id).queueId == q.queueId
    ensures q.pool[x].packetId == id <==>
      ParseId(id).ifId == q.pool[x].priv.ifId && ParseId(id).linkId == q.pool[x].priv.rawLinkId
  {
    hide MakeId, Without, Copies;
    OwnIdFound(q, x, cap);
    MakeUndoesParse(id);
    assert q.pool[x].packetId == MakeId(FieldsOf(q, x));
  }

  /** A slot requeued under another interface or link carries an identifier that is not its own. */
  lemma WrongLabel(q: Tq, x: nat, ifId: nat, linkId: nat, cap: nat)
    requires WellFormed(q, cap) && x in q.pending && x < |q.pool| && ifId < 16 && linkId < 16
    requires ifId != q.pool[x].priv.ifId || linkId != q.pool[x].priv.rawLinkId
    ensures !WellFormed(RequeueFound(q, x, ifId, linkId), cap)
  {
    hide MakeId, ParseId, Copies;
    var q' := RequeueFound(q, x, ifId, linkId);
    if WellFormed(q', cap) {
      assert q'.queue[0] == x;
      WhereIs(q', x);
      assert GoodItem(q.pool[x]);
      var g := q'.pool[x].generation;
      ParseUndoesMake(PacketId(q.generation, linkId, ifId, q.queueId, g, x));
      ParseUndoesMake(FieldsOf(q', x));
    }
  }

  /** A count of pending items goes down although none went. */
  lemma WrongCount(q: Tq, q': Tq, c: Counters, c': Counters, others: seq<nat>, cap: nat)
    requires WellFormed(q, cap) && Counted(q, c, others, cap) && q'.pending == q.pending && Partition(q')
    requires c'.numPending == DownOne(c.numPending)
    ensures !Counted(q', c', others, cap)
  {
    CountersFit(q, c, others, cap);
    DownDiffers(c.numPending);
  }

  lemma FoundFits(q: Tq, c: Counters, others: seq<nat>, cap: nat, id: nat, x: nat)
    requires WellFormed(q, cap) && Counted(q, c, others, cap) && Find(q, id) == Found(x) && ParseId(id).ifId < MAX_VIFS
    ensures x < |q.pool| && Shaped(c, q.pool[x].priv) && q.pool[x].priv.linkId < |c.linkMapCache[ParseId(id).ifId]|
  {
    assert GoodItem(q.pool[x]);
  }

  /** Requeueing whatever slot an identifier leads to leaves the queue well formed and its counters in
      agreement if and only if the slot is pending and carries that very identifier. */
  lemma RequeueFoundKeepsIff(q: Tq, c: Counters, others: seq<nat>, cap: nat, id: nat, x: nat)
    requires WellFormed(q, cap) && Counted(q, c, others, cap)
    requires id < 0x1_0000_0000 && Find(q, id) == Found(x) && ParseId(id).queueId == q.queueId
      && ParseId(id).ifId < MAX_VIFS
    ensures x < |q.pool| && Shaped(c, q.pool[x].priv) && q.pool[x].priv.linkId < |c.linkMapCache[ParseId(id).ifId]|
    ensures var p := ParseId(id); var q' := RequeueFound(q, x, p.ifId, p.linkId);
      WellFormed(q', cap) && Counted(q', AfterRequeueFound(c, p.ifId, q.pool[x].priv), others, cap)
      <==> x in q.pending && q.pool[x].packetId == id
  {
    hide Copies, MakeId, ParseId, Identified;
    FoundFits(q, c, others, cap, id, x);
    var p := ParseId(id);
    RequeueFoundPartition(q, x, p.ifId, p.linkId);
    if x !in q.pending {
      WrongCount(q, RequeueFound(q, x, p.ifId, p.linkId), c, AfterRequeueFound(c, p.ifId, q.pool[x].priv), others, cap);
    } else {
      WhereIs(q, x);
      CarriesIff(q, id, x, cap);
      if q.pool[x].packetId == id {
        RequeueFoundExpected(q, x);
        CountersExpected(q, c, others, cap, x);
        RequeueKeeps(q, x, cap);
        CountedRequeue(q, c, others, cap, x);
      } else {
        WrongLabel(q, x, p.ifId, p.linkId, cap);
      }
    }
  }

  /** The count of an interface goes down although none of its items went. */
  lemma WrongInterface(q: Tq, c: Counters, others: seq<nat>, cap: nat, x: nat, ifId: nat)
    requires WellFormed(q, cap) && Counted(q, c, others, cap) && x in q.pending && x < |q.pool|
    requires ifId < MAX_VIFS && ifId != q.pool[x].priv.ifId
    ensures Partition(Remove(q, x)) && !Counted(Remove(q, x), AfterRemoveFound(c, ifId), others, cap)
  {
    hide Copies, Without, Identified;
    CountersFit(q, c, others, cap);
    RemovePicks(q, x, OfVif(ifId));
    assert VifCounted(q, c, others, ifId);
    DownDiffers(c.numPendingVif[ifId]);
    assert !VifCounted(Remove(q, x), AfterRemoveFound(c, ifId), others, ifId);
  }

  /** Removing whatever slot an identifier leads to leaves the queue well formed and its counters in
      agreement if and only if the slot is pending and of the interface named. */
  lemma RemoveFoundKeepsIff(q: Tq, c: Counters, others: seq<nat>, cap: nat, id: nat, x: nat)
    requires WellFormed(q, cap) && Counted(q, c, others, cap)
    requires Find(q, id) == Found(x) && ParseId(id).ifId < MAX_VIFS
    ensures x < |q.pool| && |c.numPendingVif| == |c.numQueuedVif| == MAX_VIFS
    ensures var p, q' := ParseId(id), RemoveFound(q, x);
      WellFormed(q', cap) && Counted(q', AfterRemoveFound(c, p.ifId), others, cap)
      <==> x in q.pending && p.ifId == q.pool[x].priv.ifId
  {
    hide Copies, ParseId, Identified;
    FoundFits(q, c, others, cap, id, x);
    var p := ParseId(id);
    RemoveFoundPartition(q, x);
    if x !in q.pending {
      WrongCount(q, RemoveFound(q, x), c, AfterRemoveFound(c, p.ifId), others, cap);
    } else {
      RemoveFoundExpected(q, x);
      if p.ifId == q.pool[x].priv.ifId {
        CountersExpected(q, c, others, cap, x);
        RemoveKeeps(q, x, cap);
        CountedRemove(q, c, others, cap, x);
      } else {
        WrongInterface(q, c, others, cap, x, p.ifId);
      }
    }
  }
}
