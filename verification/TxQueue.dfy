/** The transmit queue as the driver keeps it (struct atbmwifi_queue): a pool array, three lists
    of pool items, and redundant counters. Every entry point is proved to compute the function of
    TxQueueModel.dfy on the lists while the counters, the flow-control flag and the locks agree. */
module TxQueue {
  import opened Options
  import opened TxQueueModel
  import opened TxQueueSteps
  import opened TxQueueCounters
  import opened TxQueueStray

  datatype Ret = Ok | Einval | Enoent

  /** struct atbmwifi_queue_stats, shared by all queues, and the throttle of its hw_priv. */
  class QueueStats {
    const mapCapacity: nat
    const throttle: nat
    var numQueued: seq<nat>

    constructor (mapCapacity: nat, throttle: nat)
      ensures this.mapCapacity == mapCapacity && this.throttle == throttle
      ensures numQueued == seq(MAX_VIFS, _ => 0) == [0, 0]
    {
      this.mapCapacity, this.throttle := mapCapacity, throttle;
      numQueued := seq(MAX_VIFS, _ => 0);
    }
  }

  /** Hysteresis: the queue stops near the throttle, and stays stopped at least down to half its
      capacity, where the timeout lets it resume. */
  predicate Hysteresis(numQueued: nat, overfull: bool, throttle: nat, capacity: nat) {
    if overfull then numQueued > capacity / 2 else numQueued + 1 < throttle
  }

  /** The sizes that go together. */
  predicate Sized(throttle: nat, capacity: nat) {
    3 <= throttle && capacity / 2 <= throttle / 2
  }

  /** An overfull queue that a removal leaves overfull. */
  predicate StaysOverfull(numQueued: nat, throttle: nat) {
    numQueued > throttle / 2
  }

  /** An overfull queue that the timeout lets resume, whether or not it drops anything. Having dropped
      nothing it knows no interface, and the lock stays: see Queue.Resume. */
  predicate TimeoutResumes(numQueued: nat, capacity: nat) {
    numQueued <= capacity / 2
  }

  /** The timeout may find a queue to resume without dropping anything if and only if the throttle is
      too low for the capacity. */
  lemma LockLostIff(throttle: nat, capacity: nat)
    requires 3 <= throttle
    ensures (exists n: nat :: StaysOverfull(n, throttle) && TimeoutResumes(n, capacity)) <==> !Sized(throttle, capacity)
  {
    if !Sized(throttle, capacity) {
      assert StaysOverfull(capacity / 2, throttle) && TimeoutResumes(capacity / 2, capacity);
    }
  }

  /** The item in a slot is for the interface, and the bit of its link is set in the map. */
  predicate Wanted(pool: seq<Item>, x: nat, ifId: nat, links: nat) {
    x < |pool| && pool[x].priv.ifId == ifId && links / Bit(pool[x].priv.linkId) % 2 == 1
  }

  class Queue {
    const stats: QueueStats
    const pool: array<Item>
    var freePool: seq<nat>
    var queue: seq<nat>
    var pending: seq<nat>
    var numQueued: nat
    var numPending: nat
    var numQueuedVif: seq<nat>
    var numPendingVif: seq<nat>
    var linkMapCache: seq<seq<nat>>
    var txLockedCnt: nat
    var overfull: bool
    var queueId: nat
    var generation: nat
    var queuedFlag: bool

    ghost var others: seq<nat>   // per interface, how many items wait in the other queues
    ghost var external: nat      // locks taken through atbmwifi_queue_lock and not yet released
    ghost var netStopped: bool   // whether the network stack was last told to stop this queue
    ghost var registered: nat    // timeouts registered and not yet fired

    ghost function View(): Tq
      reads `freePool, `queue, `pending, `generation, `queueId, pool
    {
      Tq(pool[..], freePool, queue, pending, generation, queueId)
    }

    ghost function Tally(): Counters
      reads `numQueued, `numPending, `numQueuedVif, `numPendingVif, `linkMapCache, stats
    {
      Counters(numQueued, numPending, numQueuedVif, numPendingVif, linkMapCache, stats.numQueued)
    }

    /** The lock count is the locks from outside plus the one `overfull` stands for. */
    ghost predicate Locked()
      reads `txLockedCnt, `external, `overfull, `netStopped
    {
      txLockedCnt == external + (if overfull then 1 else 0) && (netStopped <==> txLockedCnt > 0)
    }

    /** The flag tells whether a timeout is registered, and there is never a second one. */
    ghost predicate Timed()
      reads `queuedFlag, `registered
    {
      registered == if queuedFlag then 1 else 0
    }

    /** Whatever waits has a timeout coming. */
    ghost predicate Armed()
      reads `queue, `registered
    {
      queue != [] ==> registered > 0
    }

    ghost predicate Listed()
      reads `freePool, `queue, `pending, `generation, `queueId, pool
      reads `numQueued, `numPending, `numQueuedVif, `numPendingVif, `linkMapCache, `others, stats
    {
      && stats.mapCapacity <= 16
      && WellFormed(View(), stats.mapCapacity)
      && Counted(View(), Tally(), others, stats.mapCapacity)
    }

    ghost predicate Valid()
      reads this, pool, stats
    {
      && Listed()
      && Hysteresis(numQueued, overfull, stats.throttle, pool.Length)
      && Locked() && Timed()
      && Sized(stats.throttle, pool.Length)
    }

    /** What no entry point changes. */
    ghost function Settings(): (nat, nat, nat, seq<nat>)
      reads `generation, `queueId, `external, `others
    {
      (generation, queueId, external, others)
    }

    /** The flow-control state, which the list operations leave alone. */
    ghost function Flags(): (bool, nat, bool, bool, nat)
      reads `overfull, `txLockedCnt, `netStopped, `queuedFlag, `registered
    {
      (overfull, txLockedCnt, netStopped, queuedFlag, registered)
    }

    /** atbmwifi_queue_init. */
    constructor (stats: QueueStats, queueId: nat, capacity: nat)
      requires queueId < 16 && 0 < capacity <= 255 && Sized(stats.throttle, capacity) && 0 < stats.mapCapacity <= 16
      requires |stats.numQueued| == MAX_VIFS && forall v :: 0 <= v < MAX_VIFS ==> stats.numQueued[v] < 256
      ensures Valid() && fresh(pool) && this.stats == stats
      ensures queue == [] && pending == [] && |freePool| == capacity
      ensures external == 0 && !overfull && !queuedFlag && others == stats.numQueued
      ensures this.queueId == queueId && generation == 0
    {
      this.stats := stats;
      pool := new Item[capacity](_ => Item(None, 0, TxPriv(0, 0, 0), 0, 0));
      freePool := Identity(capacity);
      queue, pending := [], [];
      numQueued, numPending := 0, 0;
      numQueuedVif, numPendingVif := seq(MAX_VIFS, _ => 0), seq(MAX_VIFS, _ => 0);
      linkMapCache := seq(MAX_VIFS, _ => seq(stats.mapCapacity, _ => 0));
      txLockedCnt, overfull, queuedFlag := 0, false, false;
      this.queueId, generation := queueId, 0;
      others, external, netStopped, registered := stats.numQueued, 0, false, 0;
      new;
      FreshQueue(View(), Tally(), others, stats.mapCapacity);
    }

    /** When another queue has stepped, the same state with the new count of what waits elsewhere. */
    ghost method Follow(elsewhere: seq<nat>)
      requires WellFormed(View(), stats.mapCapacity) && stats.mapCapacity <= 16
      requires Counted(View(), Tally(), elsewhere, stats.mapCapacity)
      requires Hysteresis(numQueued, overfull, stats.throttle, pool.Length) && Locked() && Timed()
      requires Sized(stats.throttle, pool.Length)
      modifies `others
      ensures Valid() && others == elsewhere
    {
      others := elsewhere;
    }

    /** __atbmwifi_queue_lock. */
    method InnerLock(priv: Option<nat>)
      modifies this`txLockedCnt, this`netStopped
      ensures priv.None? ==> txLockedCnt == old(txLockedCnt) && netStopped == old(netStopped)
      ensures priv.Some? ==>
        txLockedCnt == old(txLockedCnt) + 1 && netStopped == (old(netStopped) || old(txLockedCnt) == 0)
    {
      if priv.None? {
        return;
      }
      if txLockedCnt == 0 {
        netStopped := true;
      }
      txLockedCnt := txLockedCnt + 1;
    }

    /** __atbmwifi_queue_unlock. */
    method InnerUnlock(priv: Option<nat>)
      modifies this`txLockedCnt, this`netStopped
      ensures priv.None? || old(txLockedCnt) == 0 ==> txLockedCnt == old(txLockedCnt) && netStopped == old(netStopped)
      ensures priv.Some? && old(txLockedCnt) > 0 ==>
        txLockedCnt == old(txLockedCnt) - 1 && netStopped == (old(netStopped) && old(txLockedCnt) > 1)
    {
      if priv.None? || txLockedCnt == 0 {
        return;
      }
      txLockedCnt := txLockedCnt - 1;
      if txLockedCnt == 0 {
        netStopped := false;
      }
    }

    /** atbmwifi_queue_lock and atbmwifi_queue_unlock, for an interface that is present. */
    method Lock(priv: nat)
      requires Valid()
      modifies this
      ensures Valid() && View() == old(View()) && external == old(external) + 1 && overfull == old(overfull)
      ensures queuedFlag == old(queuedFlag) && others == old(others) && Armed() == old(Armed())
    {
      InnerLock(Some(priv));
      external := external + 1;
    }

    method Unlock(priv: nat)
      requires Valid() && external > 0
      modifies this
      ensures Valid() && View() == old(View()) && external == old(external) - 1 && overfull == old(overfull)
      ensures queuedFlag == old(queuedFlag) && others == old(others) && Armed() == old(Armed())
    {
      InnerUnlock(Some(priv));
      external := external - 1;
    }

    /** atbmwifi_queue_put. */
    method Put(skb: nat, p: TxPriv, now: nat) returns (ret: Ret)
      requires Valid() && p.ifId < MAX_VIFS && (p.rawLinkId == p.linkId || p.rawLinkId == 0)
      modifies this, pool, stats
      ensures Valid() && Settings() == old(Settings())
      ensures ret == if p.linkId >= stats.mapCapacity then Einval else if old(freePool) == [] then Enoent else Ok
      ensures View() == if ret.Ok? then TxQueueModel.Put(old(View()), skb, p, now) else old(View())
      ensures ret.Ok? ==>
        var x := old(freePool)[0];
        && x < pool.Length && queue == old(queue) + [x] && pool[x].skb == Some(skb) && pool[x].priv == p
        && pool[x].generation == 0 && pool[x].stamp == now
      ensures ret.Ok? ==> overfull == (old(overfull) || numQueued + 1 >= stats.throttle) && queuedFlag && Armed()
      ensures !ret.Ok? ==> Flags() == old(Flags())
    {
      hide Counted, WellFormed, TxQueueModel.Put, Labelling;
      Parts(View(), stats.mapCapacity);
      if p.linkId >= stats.mapCapacity {
        return Einval;
      }
      if freePool == [] {
        return Enoent;
      }
      PutItem(View(), skb, p, now);
      ListPut(skb, p, now);
      StopAndArm(p.ifId);
      return Ok;
    }

    /** What put does behind the lists: a queue that is about to fill becomes overfull and is
        locked, and the timeout is registered unless it is already. */
    method StopAndArm(ifId: nat)
      requires Locked() && Timed() && stats.throttle > 0
      modifies `overfull, `txLockedCnt, `netStopped, `queuedFlag, `registered
      ensures Locked() && overfull == (old(overfull) || numQueued + 1 >= stats.throttle)
      ensures Timed() && queuedFlag
    {
      if !overfull && numQueued >= stats.throttle - 1 {
        overfull := true;
        InnerLock(Some(ifId));
      }
      if !queuedFlag {
        registered := registered + 1;
        queuedFlag := true;
      }
    }

    /** The list and counter part of put. */
    method ListPut(skb: nat, p: TxPriv, now: nat)
      requires Listed() && p.ifId < MAX_VIFS && p.rawLinkId < 16 && p.linkId < stats.mapCapacity && freePool != []
      modifies `freePool, `queue, `numQueued, `numQueuedVif, `linkMapCache, pool, stats
      ensures Listed() && Settings() == old(Settings()) && Flags() == old(Flags())
      ensures View() == TxQueueModel.Put(old(View()), skb, p, now) && numQueued == old(numQueued) + 1
    {
      hide WellFormed, Counted, Partition, Labelled, Copies, Find;
      Parts(View(), stats.mapCapacity);
      ghost var q, c := View(), Tally();
      CountedPut(q, c, others, stats.mapCapacity, skb, p, now);
      PutKeeps(q, skb, p, now, stats.mapCapacity);
      MovePut(skb, p, now);
      CountPut(p);
    }

    /** The lists of a put. */
    method MovePut(skb: nat, p: TxPriv, now: nat)
      requires Labelled(View()) && Indices(View().pool, freePool)
      requires freePool != [] && p.ifId < MAX_VIFS && p.rawLinkId < 16
      modifies `freePool, `queue, pool
      ensures View() == TxQueueModel.Put(old(View()), skb, p, now)
    {
      var x := freePool[0];
      freePool, queue := freePool[1..], queue + [x];
      pool[x] := Item(Some(skb), MakeId(PacketId(generation, p.rawLinkId, p.ifId, queueId, 0, x)), p, 0, now);
    }

    /** The counters of a put. */
    method CountPut(p: TxPriv)
      requires Shaped(Tally(), p)
      modifies `numQueued, `numQueuedVif, `linkMapCache, stats
      ensures Tally() == AfterPut(old(Tally()), p)
    {
      numQueued := numQueued + 1;
      numQueuedVif := Up(numQueuedVif, p.ifId);
      linkMapCache := UpLink(linkMapCache, p.ifId, p.linkId);
      stats.numQueued := UpByte(stats.numQueued, p.ifId);
    }

    /** atbmwifi_queue_get: the first waiting item of the interface on a selected link. */
    method Get(ifId: nat, links: nat) returns (found: bool, slot: nat)
      requires Valid()
      modifies this, stats
      ensures Valid() && Settings() == old(Settings()) && Flags() == old(Flags())
      ensures var q := old(View()); var n := FirstMatch(q.pool, q.queue, ifId, links, 0);
        && (found <==> n < |q.queue|)
        && (found ==> slot == q.queue[n] && View() == GetAt(q, n))
        && (!found ==> View() == q)
        && (found ==> Wanted(q.pool, slot, ifId, links))
        && (forall i :: 0 <= i < n ==> !Wanted(q.pool, q.queue[i], ifId, links))
      ensures old(Armed()) ==> Armed()
    {
      hide Counted, Hysteresis;
      ghost var q := View();
      var n := 0;
      slot := 0;
      while n < |queue|
        invariant 0 <= n <= |queue|
        invariant FirstMatch(q.pool, q.queue, ifId, links, 0) == FirstMatch(q.pool, q.queue, ifId, links, n)
        invariant View() == q
      {
        if pool[queue[n]].priv.ifId == ifId && Selects(links, pool[queue[n]].priv.linkId) {
          break;
        }
        n := n + 1;
      }
      found := n < |queue|;
      if found {
        slot := queue[n];
        ListGet(n);
      }
    }

    /** The list and counter part of get. */
    method ListGet(n: nat)
      requires Listed() && n < |queue|
      modifies `queue, `pending, `numPending, `numPendingVif, `linkMapCache, stats
      ensures Listed() && Settings() == old(Settings()) && Flags() == old(Flags())
      ensures View() == GetAt(old(View()), n) && numQueued == old(numQueued)
    {
      hide WellFormed, Counted, Partition, Labelled, Copies, Find;
      Parts(View(), stats.mapCapacity);
      ghost var q, c := View(), Tally();
      LiveItem(q, queue[n], stats.mapCapacity);
      CountedGet(q, c, others, stats.mapCapacity, n);
      GetKeeps(q, n, stats.mapCapacity);
      var x := queue[n];
      var p := pool[x].priv;
      queue, pending := queue[..n] + queue[n + 1..], pending + [x];
      numPending := numPending + 1;
      numPendingVif := Up(numPendingVif, p.ifId);
      linkMapCache := DownLink(linkMapCache, p.ifId, p.linkId);
      stats.numQueued := DownByte(stats.numQueued, p.ifId);
      assert Tally() == AfterGet(c, p);
    }

    /** A pending item carries the identifier. */
    ghost predicate Carries(packetId: nat)
      reads this, pool
    {
      var x := ParseId(packetId).itemId;
      x in pending && x < pool.Length && pool[x].packetId == packetId
    }

    /** What the driver relies on for any identifier: it is one of this queue, of 32 bits, and its
        interface is a known one, since it indexes the counters unchecked. */
    predicate OfThisQueue(packetId: nat)
      reads `queueId
    {
      packetId < 0x1_0000_0000 && ParseId(packetId).queueId == queueId && ParseId(packetId).ifId < MAX_VIFS
    }

    /** The checks of requeue, remove and get_skb. */
    method Lookup(packetId: nat) returns (ret: Ret, slot: nat)
      ensures Find(View(), packetId) == match ret case Ok => Found(slot) case Einval => Invalid case Enoent => NoEntry
      ensures var generations, x := packetId / 0x1000_0000 % 16 == generation, packetId % 0x100;
        && (ret.Einval? <==> generations && x >= pool.Length)
        && (ret.Ok? <==> generations && x < pool.Length && pool[x].generation == packetId / 0x100 % 0x100)
        && (ret.Ok? ==> slot == x)
    {
      var p := ParseId(packetId);
      slot := p.itemId;
      if p.queueGeneration != generation {
        ret := Enoent;
      } else if p.itemId >= pool.Length {
        ret := Einval;
      } else if pool[p.itemId].generation != p.itemGeneration {
        ret := Enoent;
      } else {
        ret := Ok;
      }
    }

    /** atbmwifi_queue_requeue, of whatever slot the identifier leads to. The queue stays valid if and
        only if that slot is pending and carries the identifier. */
    method Requeue(packetId: nat) returns (ret: Ret)
      requires Valid() && OfThisQueue(packetId)
      modifies this, pool, stats
      ensures Valid() <==> (ret.Ok? ==> old(Carries(packetId)))
      ensures Partition(View()) && Settings() == old(Settings()) && Flags() == old(Flags())
      ensures ret.Ok? <==> Find(old(View()), packetId).Found?
      ensures ret.Einval? <==> Find(old(View()), packetId).Invalid?
      ensures var p := ParseId(packetId);
        && (!ret.Ok? ==> View() == old(View()))
        && (ret.Ok? ==> View() == RequeueFound(old(View()), p.itemId, p.ifId, p.linkId))
        && (ret.Ok? && old(Carries(packetId)) ==> View() == TxQueueModel.Requeue(old(View()), p.itemId))
      ensures ret.Ok? ==> Find(View(), packetId) == NoEntry
      ensures Armed() <==> if ret.Ok? then old(queuedFlag) else old(Armed())
    {
      hide Counted, Copies, ParseId, MakeId, Without, Labelled;
      var slot;
      ret, slot := Lookup(packetId);
      if ret.Ok? {
        ghost var q, c := View(), Tally();
        var p := ParseId(packetId);
        RequeueFoundKeepsIff(q, c, others, stats.mapCapacity, packetId, slot);
        RequeueFoundPartition(q, slot, p.ifId, p.linkId);
        RequeueRefuses(q, packetId, slot);
        if Carries(packetId) { RequeueCarried(q, packetId, slot, stats.mapCapacity); }
        RequeueSlot(slot, p.ifId, p.linkId);
      }
    }

    /** What requeue does to a slot; ifId and linkId come from the identifier. */
    method RequeueSlot(x: nat, ifId: nat, linkId: nat)
      requires Labelled(View()) && x < pool.Length && ifId < MAX_VIFS && linkId < 16
      requires Shaped(Tally(), pool[x].priv) && pool[x].priv.linkId < |linkMapCache[ifId]|
      modifies `freePool, `queue, `pending, `numPending, `numPendingVif, `linkMapCache, pool, stats
      ensures View() == RequeueFound(old(View()), x, ifId, linkId)
      ensures Tally() == AfterRequeueFound(old(Tally()), ifId, old(pool[x].priv))
    {
      hide Without, MakeId;
      numPending := DownOne(numPending);
      numPendingVif := DownByte(numPendingVif, ifId);
      linkMapCache := UpLink(linkMapCache, ifId, pool[x].priv.linkId);
      stats.numQueued := UpByte(stats.numQueued, pool[x].priv.ifId);
      MoveRequeued(x, ifId, linkId);
    }

    /** The lists of a requeue, and the item's next identifier. */
    method MoveRequeued(x: nat, ifId: nat, linkId: nat)
      requires Labelled(View()) && x < pool.Length && ifId < 16 && linkId < 16
      modifies `freePool, `pending, `queue, pool
      ensures View() == RequeueFound(old(View()), x, ifId, linkId)
    {
      hide MakeId;
      var g := (pool[x].generation + 1) % 256;
      pool[x] := pool[x].(generation := g, packetId := MakeId(PacketId(generation, linkId, ifId, queueId, g, x)));
      freePool, pending, queue := Without(freePool, x), Without(pending, x), [x] + Without(queue, x);
    }

    /** A requeue of a pending slot under its own interface and link. */
    method ListRequeue(x: nat, ifId: nat, linkId: nat)
      requires Listed() && x in pending && x < pool.Length
      requires ifId == pool[x].priv.ifId && linkId == pool[x].priv.rawLinkId
      modifies `freePool, `queue, `pending, `numPending, `numPendingVif, `linkMapCache, pool, stats
      ensures Listed() && Settings() == old(Settings()) && Flags() == old(Flags())
      ensures View() == TxQueueModel.Requeue(old(View()), x) && numQueued == old(numQueued)
    {
      hide WellFormed, Counted, Partition, Labelled, Copies, Find, AfterRequeueFound, AfterRequeue, RequeueFound;
      Parts(View(), stats.mapCapacity);
      ghost var q, c := View(), Tally();
      LiveItem(q, x, stats.mapCapacity);
      RequeueFoundExpected(q, x);
      CountersExpected(q, c, others, stats.mapCapacity, x);
      CountedRequeue(q, c, others, stats.mapCapacity, x);
      RequeueKeeps(q, x, stats.mapCapacity);
      RequeueSlot(x, ifId, linkId);
    }

    /** atbmwifi_queue_remove, of whatever slot the identifier leads to. The queue stays valid if and
        only if that slot is pending and of the interface named. */
    method Remove(packetId: nat) returns (ret: Ret, released: Option<nat>)
      requires Valid() && OfThisQueue(packetId)
      modifies this, pool, stats
      ensures var p := ParseId(packetId);
        Valid() <==> (ret.Ok? ==> p.itemId in old(pending) && old(View()).pool[p.itemId].priv.ifId == p.ifId)
      ensures old(Carries(packetId)) ==> Valid()
      ensures Partition(View()) && Settings() == old(Settings()) && queuedFlag == old(queuedFlag)
      ensures ret.Ok? <==> Find(old(View()), packetId).Found?
      ensures ret.Einval? <==> Find(old(View()), packetId).Invalid?
      ensures var x := ParseId(packetId).itemId;
        && (!ret.Ok? ==> View() == old(View()))
        && (ret.Ok? ==> View() == RemoveFound(old(View()), x) && released == old(View()).pool[x].skb)
        && (ret.Ok? && Valid() ==> View() == TxQueueModel.Remove(old(View()), x) && released.Some?)
        && (!ret.Ok? ==> released.None?)
      ensures ret.Ok? ==> Find(View(), packetId) == NoEntry
      ensures overfull == (old(overfull) && !(ret.Ok? && numQueued <= stats.throttle / 2))
      ensures (old(Armed()) ==> Armed()) && (Valid() ==> Armed() == old(Armed()))
    {
      hide Counted, WellFormed, Partition, ParseId, MakeId, Without, Labelled, RemoveFound, TxQueueModel.Remove, Find;
      Parts(View(), stats.mapCapacity);
      var slot;
      released := None;
      ret, slot := Lookup(packetId);
      if ret.Ok? {
        ghost var q := View();
        FoundSlot(q, packetId, slot);
        RemoveFoundPartition(q, slot);
        RemoveRefuses(q, packetId, slot);
        RemovedFrame(q, slot, stats.mapCapacity);
        if Carries(packetId) { OwnFields(q, slot, stats.mapCapacity); }
        released := pool[slot].skb;
        RemoveAndResume(slot, ParseId(packetId).ifId, packetId);
      }
    }

    /** The removal itself, and the end of an overfull state. */
    method RemoveAndResume(slot: nat, ifId: nat, ghost packetId: nat)
      requires Valid() && Find(View(), packetId) == Found(slot) && ParseId(packetId).ifId == ifId < MAX_VIFS
      modifies this, pool
      ensures slot < pool.Length
      ensures Valid() <==> slot in old(pending) && old(View()).pool[slot].priv.ifId == ifId
      ensures View() == RemoveFound(old(View()), slot)
      ensures Settings() == old(Settings()) && queuedFlag == old(queuedFlag) && registered == old(registered)
      ensures overfull == (old(overfull) && numQueued > stats.throttle / 2)
    {
      hide Counted, WellFormed, ParseId, RemoveFound, Find;
      FoundSlot(View(), packetId, slot);
      RemoveListed(slot, ifId, packetId);
      Resume(Some(ifId), stats.throttle);
    }

    /** The removal itself: the lists and counters still agree exactly in the expected case. */
    method RemoveListed(slot: nat, ifId: nat, ghost packetId: nat)
      requires Listed() && Find(View(), packetId) == Found(slot) && ParseId(packetId).ifId == ifId < MAX_VIFS
      modifies `freePool, `queue, `pending, `numPending, `numPendingVif, `numQueued, `numQueuedVif, pool
      ensures slot < pool.Length
      ensures var expected := slot in old(pending) && old(View()).pool[slot].priv.ifId == ifId;
        && (Listed() <==> expected)
        && (expected ==> numQueued == old(numQueued) - 1)
      ensures View() == RemoveFound(old(View()), slot)
    {
      hide Counted, WellFormed, ParseId, RemoveFound, AfterRemoveFound, Find;
      ghost var q, c := View(), Tally();
      RemoveFoundKeepsIff(q, c, others, stats.mapCapacity, packetId, slot);
      RemovedOne(q, c, others, stats.mapCapacity, slot, ifId);
      RemoveSlot(slot, ifId);
    }

    /** What remove does to a slot; ifId comes from the identifier. */
    method RemoveSlot(x: nat, ifId: nat)
      requires x < pool.Length && |numPendingVif| == |numQueuedVif| == MAX_VIFS && ifId < MAX_VIFS
      modifies `freePool, `queue, `pending, `numPending, `numPendingVif, `numQueued, `numQueuedVif, pool
      ensures View() == RemoveFound(old(View()), x)
      ensures Tally() == AfterRemoveFound(old(Tally()), ifId)
    {
      hide Without;
      numPending := DownOne(numPending);
      numPendingVif := DownByte(numPendingVif, ifId);
      numQueued := DownOne(numQueued);
      numQueuedVif := DownByte(numQueuedVif, ifId);
      MoveRemoved(x);
    }

    /** The lists of a removal. */
    method MoveRemoved(x: nat)
      requires x < pool.Length
      modifies `freePool, `queue, `pending, pool
      ensures View() == RemoveFound(old(View()), x)
    {
      hide Without;
      pool[x] := pool[x].(skb := None, generation := (pool[x].generation + 1) % 256);
      freePool, pending, queue := [x] + Without(freePool, x), Without(pending, x), Without(queue, x);
    }

    /** An overfull queue resumes once it is half empty. Its lock goes with it, unless the interface
        is null. */
    method Resume(priv: Option<nat>, size: nat)
      requires Locked()
      modifies `overfull, `txLockedCnt, `netStopped
      ensures overfull == (old(overfull) && numQueued > size / 2)
      ensures Locked() <==> (old(overfull) && numQueued <= size / 2 ==> priv.Some?)
    {
      if overfull && numQueued <= size / 2 {
        overfull := false;
        InnerUnlock(priv);
      }
    }

    /** atbmwifi_queue_get_skb: for any identifier of this queue, the frame in the slot found, if
        there is one. */
    method GetSkb(packetId: nat) returns (ret: Ret, skb: Option<nat>)
      requires Valid() && ParseId(packetId).queueId == queueId
      ensures ret.Ok? <==> Find(View(), packetId).Found?
      ensures ret.Einval? <==> Find(View(), packetId).Invalid?
      ensures var x := ParseId(packetId).itemId;
        && (ret.Ok? ==> x < pool.Length && skb == pool[x].skb && (skb.Some? <==> x !in freePool))
        && (ret.Ok? && Carries(packetId) ==> skb.Some?)
    {
      hide Counted, Copies, ParseId, MakeId;
      var slot;
      skb := None;
      ret, slot := Lookup(packetId);
      if ret.Ok? {
        skb := pool[slot].skb;
        if Carries(packetId) { LiveItem(View(), slot, stats.mapCapacity); }
      }
    }

    /** atbmwifi_queue_requeue_all: from the tail of pending, each to the head of the queue. */
    method RequeueAll()
      requires Valid()
      modifies this, pool, stats
      ensures Valid() && Settings() == old(Settings()) && Flags() == old(Flags())
      ensures View() == TxQueueModel.RequeueAll(old(View()))
      ensures Armed() <==> if old(pending) != [] then old(queuedFlag) else old(Armed())
    {
      hide Counted, BumpedAll, Copies, Identified, TxQueueModel.Requeue;
      ghost var q := View();
      ghost var n := |pending|;
      RequeuedNone(q);
      while pending != []
        invariant 0 <= n <= |q.pending| && pending == q.pending[..n]
        invariant Listed() && Settings() == old(Settings()) && Flags() == old(Flags()) && numQueued == old(numQueued)
        invariant View() == RequeuedFrom(q, n)
        decreases n
      {
        var x := pending[|pending| - 1];
        LiveItem(View(), x, stats.mapCapacity);
        NotAhead(View(), x);
        RequeuedOneMore(q, n);
        ListRequeue(x, pool[x].priv.ifId, pool[x].priv.rawLinkId);
        n := n - 1;
      }
      RequeuedEvery(q);
    }

    /** The list and counter part of one turn of the timeout loop. */
    method ListDrop() returns (ifId: nat, released: Option<nat>)
      requires Listed() && queue != []
      modifies `freePool, `queue, `numQueued, `numQueuedVif, `linkMapCache, pool, stats
      ensures Listed() && Settings() == old(Settings()) && Flags() == old(Flags())
      ensures View() == Dropped(old(View()), 1) && numQueued == old(numQueued) - 1
      ensures released == old(View()).pool[old(queue)[0]].skb
    {
      hide Counted, Copies, Cleared, Identified, Find;
      DropTurn(View(), Tally(), others, stats.mapCapacity);
      var x := queue[0];
      var p := pool[x].priv;
      ifId, released := p.ifId, pool[x].skb;
      CountDropped(p);
      MoveDropped();
    }

    /** The lists of a drop. */
    method MoveDropped()
      requires queue != [] && queue[0] < pool.Length
      modifies `freePool, `queue, pool
      ensures var q := old(View()); var x := q.queue[0];
        View() == q.(pool := q.pool[x := q.pool[x].(skb := None)], free := q.free + [x], queue := q.queue[1..])
    {
      var x := queue[0];
      pool[x] := pool[x].(skb := None);
      freePool, queue := freePool + [x], queue[1..];
    }

    /** The counters of a drop. */
    method CountDropped(p: TxPriv)
      requires Shaped(Tally(), p) && numQueued > 0 && numQueuedVif[p.ifId] > 0 && linkMapCache[p.ifId][p.linkId] > 0
      modifies `numQueued, `numQueuedVif, `linkMapCache, stats
      ensures Tally() == AfterDrop(old(Tally()), p)
    {
      numQueued := numQueued - 1;
      numQueuedVif := Down(numQueuedVif, p.ifId);
      linkMapCache := DownLink(linkMapCache, p.ifId, p.linkId);
      stats.numQueued := DownByte(stats.numQueued, p.ifId);
    }

    /** The timeout loop. */
    method DropStale(now: nat, ttl: nat) returns (priv: Option<nat>)
      requires Listed()
      modifies this, pool, stats
      ensures Listed() && Settings() == old(Settings()) && Flags() == old(Flags())
      ensures var q := old(View()); var k := Stale(q.pool, q.queue, now, ttl);
        && View() == Dropped(q, k)
        && numQueued == old(numQueued) - k
        && (k > 0 ==> priv.Some?)
    {
      hide Counted, Cleared, Stale, Dropped;
      ghost var q := View();
      ghost var i, k := 0, Stale(q.pool, q.queue, now, ttl);
      priv := None;
      DroppedNone(q);
      while queue != []
        invariant 0 <= i <= k && queue == q.queue[i..]
        invariant Listed() && Settings() == old(Settings()) && Flags() == old(Flags())
        invariant View() == Dropped(q, i) && numQueued == old(numQueued) - i
        invariant i > 0 ==> priv.Some?
        decreases |queue|
      {
        StaleTurn(q, i, now, ttl);
        if now < pool[queue[0]].stamp + ttl {
          break;
        }
        DroppedOneMore(q, i, stats.mapCapacity);
        var ifId, skb := ListDrop();
        priv := Some(ifId);
        i := i + 1;
        DroppedQueue(q, i);
      }
    }

    /** What the timeout does after its loop: an overfull queue resumes once it is half empty.
        `priv` is the interface of the last dropped item, and is null when nothing was dropped. */
    method ResumeAndRearm(priv: Option<nat>)
      requires Listed() && Locked() && Sized(stats.throttle, pool.Length)
      requires if overfull then numQueued <= pool.Length / 2 ==> priv.Some? else numQueued + 1 < stats.throttle
      requires !queuedFlag && registered == 0
      modifies `overfull, `txLockedCnt, `netStopped, `queuedFlag, `registered
      ensures Valid() && View() == old(View())
      ensures overfull == (old(overfull) && numQueued > pool.Length / 2)
      ensures queuedFlag == (queue != []) && Armed()
    {
      hide Counted, WellFormed, Locked;
      var wasOverfull := overfull;
      Resume(priv, pool.Length);
      if !wasOverfull {
        queuedFlag := false;
      }
      if queue != [] {
        registered := registered + 1;
        queuedFlag := true;
      }
    }

    /** atbmwifi_queued_timeout: drops the items at the head that have waited for ttl or longer. */
    method QueuedTimeout(now: nat, ttl: nat)
      requires Valid()
      modifies this, pool, stats
      ensures Valid() && Settings() == old(Settings())
      ensures View() == Dropped(old(View()), Stale(old(View()).pool, old(View()).queue, now, ttl))
      ensures overfull == (old(overfull) && numQueued > pool.Length / 2)
      ensures queuedFlag == (queue != []) && Armed()
    {
      hide Counted, WellFormed, Stale, Dropped;
      ghost var q := View();
      Labels(q, stats.mapCapacity);
      queuedFlag, registered := false, 0;
      var priv := DropStale(now, ttl);
      ResumeAndRearm(priv);
    }

    /** atbmwifi_queue_get_num_queued: by the shortcut for the all-ones map or by summing the
        per-link counts, the number of waiting items of the interface on the selected links. */
    method GetNumQueued(ifId: nat, links: nat) returns (ret: nat)
      requires Valid() && ifId < MAX_VIFS
      ensures ret == Selected(View(), ifId, links)
    {
      if links == 0 {
        NothingSelected(View(), ifId);
        return 0;
      }
      ghost var q := View();
      assert VifCounted(q, Tally(), others, ifId);
      if links == ALL_LINKS {
        AllSelected(q, ifId, stats.mapCapacity);
        return numQueuedVif[ifId] - numPendingVif[ifId];
      }
      ret := 0;
      NoLinkBelowZero(q.pool, q.queue, ifId, links);
      for i := 0 to stats.mapCapacity
        invariant ret == |Chosen(q.pool, q.queue, OfMap(ifId, links, i))|
      {
        OneMoreLink(q.pool, q.queue, ifId, links, i);
        if Selects(links, i) {
          ret := ret + linkMapCache[ifId][i];
        }
      }
      BoundIrrelevant(q, ifId, links, stats.mapCapacity);
    }
  }

  function Identity(n: nat): (s: seq<nat>)
    ensures |s| == n
  {
    seq(n, i => i)
  }

  /** A fresh queue: every slot free, nothing counted. */
  lemma FreshQueue(q: Tq, c: Counters, others: seq<nat>, cap: nat)
    requires 0 < |q.pool| <= 255 && q.generation == 0 && q.queueId < 16
    requires forall x :: 0 <= x < |q.pool| ==> GoodItem(q.pool[x]) && q.pool[x].skb.None? && q.pool[x].priv.linkId < cap
    requires q.free == Identity(|q.pool|) && q.queue == [] && q.pending == []
    requires |others| == MAX_VIFS && (forall v :: 0 <= v < MAX_VIFS ==> others[v] < 256) && c.statsQueued == others
    requires c.numQueued == c.numPending == 0
    requires c.numQueuedVif == c.numPendingVif == seq(MAX_VIFS, _ => 0)
    requires c.linkMapCache == seq(MAX_VIFS, _ => seq(cap, _ => 0))
    ensures WellFormed(q, cap) && Counted(q, c, others, cap)
  {
    forall x | 0 <= x < |q.pool| ensures Copies(q.free, x) == 1 {
      OnceFrom(|q.pool|, 0, x);
      assert Identity(|q.pool|)[0..] == Identity(|q.pool|);
    }
    assert forall x :: 0 <= x < |q.pool| ==> x in q.free by {
      forall x | 0 <= x < |q.pool| ensures x in q.free { assert Copies(q.free, x) == 1; }
    }
  }

  lemma OnceFrom(n: nat, k: nat, x: nat)
    requires k <= n && x < n
    ensures Copies(Identity(n)[k..], x) == if x >= k then 1 else 0
    decreases n - k
  {
    var s := Identity(n);
    if k < n {
      assert s[k..][0] == k && s[k..][1..] == s[k + 1..];
      OnceFrom(n, k + 1, x);
    }
  }

  /** A live item is on a known link of a known interface. */
  lemma LiveItem(q: Tq, x: nat, cap: nat)
    requires WellFormed(q, cap) && (x in q.queue || x in q.pending)
    ensures x < |q.pool| && x !in q.free && q.pool[x].priv.linkId < cap && GoodItem(q.pool[x]) && q.pool[x].skb.Some?
    ensures x < 256 && q.generation < 16 && q.queueId < 16
  {
    WhereIs(q, x);
  }

  /** If a pending item carries an identifier, the lookup leads to that item and to no other. */
  lemma CarrierFound(q: Tq, id: nat, x: nat, cap: nat)
    requires WellFormed(q, cap) && x in q.pending && x < |q.pool| && q.pool[x].packetId == id
    ensures Find(q, id) == Found(x) && ParseId(id).itemId == x && ParseId(id).queueId == q.queueId
    ensures ParseId(id).ifId == q.pool[x].priv.ifId < MAX_VIFS && id < 0x1_0000_0000
  {
    hide Find, ParseId, MakeId;
    LiveItem(q, x, cap);
    OwnIdFound(q, x, cap);
    ParseUndoesMake(FieldsOf(q, x));
    assert id == MakeId(FieldsOf(q, x));
  }

  lemma Labels(q: Tq, cap: nat)
    requires WellFormed(q, cap)
    ensures Indices(q.pool, q.queue)
  {}

  /** The item a put leaves at the tail of the queue. */
  lemma PutItem(q: Tq, skb: nat, p: TxPriv, now: nat)
    requires Labelled(q) && Indices(q.pool, q.free) && q.free != [] && p.ifId < MAX_VIFS && p.rawLinkId < 16
    ensures var q', x := TxQueueModel.Put(q, skb, p, now), q.free[0];
      && x < |q'.pool| && |q'.pool| == |q.pool| && q'.queue == q.queue + [x] && q'.pool[x].skb == Some(skb)
      && q'.pool[x].priv == p && q'.pool[x].generation == 0 && q'.pool[x].stamp == now
  {
    hide Labelling;
  }

  lemma Parts(q: Tq, cap: nat)
    requires WellFormed(q, cap)
    ensures Partition(q) && Labelled(q) && Indices(q.pool, q.free) && Indices(q.pool, q.queue)
      && Indices(q.pool, q.pending)
  {}

  /** The next generation of a slot refuses the identifier that was just used. */
  lemma BumpedRefuses(q: Tq, q': Tq, id: nat, x: nat)
    requires Find(q, id) == Found(x) && Labelled(q) && q'.generation == q.generation && |q'.pool| == |q.pool|
    requires q'.pool[x].generation == (q.pool[x].generation + 1) % 256
    ensures Find(q', id) == NoEntry
  {
    hide ParseId;
    assert GoodItem(q.pool[x]);
  }

  lemma RequeueRefuses(q: Tq, id: nat, x: nat)
    requires Find(q, id) == Found(x) && Labelled(q) && x < |q.pool|
    ensures Find(RequeueFound(q, x, ParseId(id).ifId, ParseId(id).linkId), id) == NoEntry
  {
    hide ParseId, MakeId, Find, Without;
    BumpedRefuses(q, RequeueFound(q, x, ParseId(id).ifId, ParseId(id).linkId), id, x);
  }

  lemma FoundSlot(q: Tq, id: nat, x: nat)
    requires Find(q, id) == Found(x)
    ensures x == ParseId(id).itemId < |q.pool|
  {
    hide ParseId;
  }

  lemma RemovedOne(q: Tq, c: Counters, others: seq<nat>, cap: nat, x: nat, ifId: nat)
    requires WellFormed(q, cap) && Counted(q, c, others, cap) && x < |q.pool| && ifId < MAX_VIFS
    requires |c.numPendingVif| == |c.numQueuedVif| == MAX_VIFS
    ensures x in q.pending && q.pool[x].priv.ifId == ifId ==> AfterRemoveFound(c, ifId).numQueued == c.numQueued - 1
  {
    hide Counted, WellFormed;
    if x in q.pending && q.pool[x].priv.ifId == ifId { CountersExpected(q, c, others, cap, x); }
  }

  /** The frame of a pending slot, which is removed as expected. */
  lemma RemovedFrame(q: Tq, x: nat, cap: nat)
    requires WellFormed(q, cap) && x < |q.pool|
    ensures x in q.pending ==> q.pool[x].skb.Some? && RemoveFound(q, x) == TxQueueModel.Remove(q, x)
    ensures x in q.pending ==> RemoveFound(q, x).queue == q.queue
    ensures RemoveFound(q, x).queue != [] ==> q.queue != []
  {
    if x in q.pending {
      WhereIs(q, x);
      RemoveFoundExpected(q, x);
      LiveItem(q, x, cap);
    }
  }

  lemma RemoveRefuses(q: Tq, id: nat, x: nat)
    requires Find(q, id) == Found(x) && Labelled(q) && x < |q.pool|
    ensures Find(RemoveFound(q, x), id) == NoEntry
  {
    hide ParseId, Find, Without;
    BumpedRefuses(q, RemoveFound(q, x), id, x);
  }

  /** A pending item found under the identifier it carries is requeued as expected. */
  lemma RequeueCarried(q: Tq, id: nat, x: nat, cap: nat)
    requires WellFormed(q, cap) && x in q.pending && x < |q.pool| && q.pool[x].packetId == id
    ensures RequeueFound(q, x, ParseId(id).ifId, ParseId(id).linkId) == TxQueueModel.Requeue(q, x)
  {
    hide ParseId, MakeId, Without, Copies;
    OwnFields(q, x, cap);
    RequeueFoundExpected(q, x);
  }

  /** An item's identifier carries the item's own interface and link. */
  lemma OwnFields(q: Tq, x: nat, cap: nat)
    requires WellFormed(q, cap) && x in q.pending && x < |q.pool|
    ensures var p := ParseId(q.pool[x].packetId);
      p.ifId == q.pool[x].priv.ifId && p.linkId == q.pool[x].priv.rawLinkId && p.itemId == x
  {
    LiveItem(q, x, cap);
    ParseUndoesMake(PacketId(q.generation, q.pool[x].priv.rawLinkId, q.pool[x].priv.ifId, q.queueId,
      q.pool[x].generation, x));
  }

  // ---------------------------------------------------------------- the two list loops

  /** requeue_all part way: the pending items from position n on are back at the queue's head. */
  ghost function RequeuedFrom(q: Tq, n: nat): Tq
    requires Labelled(q) && n <= |q.pending| && Indices(q.pool, q.pending)
  {
    q.(pool := BumpedAll(q, q.pending[n..]), pending := q.pending[..n], queue := q.pending[n..] + q.queue)
  }

  lemma RequeuedNone(q: Tq)
    requires Labelled(q) && Indices(q.pool, q.pending)
    ensures RequeuedFrom(q, |q.pending|) == q
  {
    assert BumpedAll(q, []) == q.pool;
    assert q.pending[|q.pending|..] == [];
  }

  lemma RequeuedEvery(q: Tq)
    requires Labelled(q) && Indices(q.pool, q.pending)
    ensures RequeuedFrom(q, 0) == TxQueueModel.RequeueAll(q)
  {
    assert q.pending[0..] == q.pending;
  }

  lemma {:induction false} LastOnce(s: seq<nat>)
    requires s != [] && Copies(s, s[|s| - 1]) == 1
    ensures Without(s, s[|s| - 1]) == s[..|s| - 1]
  {
    var x, t := s[|s| - 1], s[1..];
    if |s| > 1 {
      assert t[|t| - 1] == x && x in t;
      assert s[0] != x;
      LastOnce(t);
      assert [s[0]] + t[..|t| - 1] == s[..|s| - 1];
    }
  }

  lemma RequeuedOneMore(q: Tq, n: nat)
    requires Labelled(q) && Indices(q.pool, q.pending) && 0 < n <= |q.pending| && Labelled(RequeuedFrom(q, n))
    requires var x := q.pending[n - 1]; Copies(q.pending[..n], x) == 1 && x !in q.pending[n..]
    ensures TxQueueModel.Requeue(RequeuedFrom(q, n), q.pending[n - 1]) == RequeuedFrom(q, n - 1)
  {
    hide Labelled, BumpedAll, Bumped, Without, Copies;
    var v, x, l := RequeuedFrom(q, n), q.pending[n - 1], q.pending[n - 1..];
    assert l[0] == x && l[1..] == q.pending[n..];
    BumpOneMore(q, l, v);
    LastGone(q.pending, n);
    assert [x] + (q.pending[n..] + q.queue) == l + q.queue;
  }

  lemma LastGone(s: seq<nat>, n: nat)
    requires 0 < n <= |s| && Copies(s[..n], s[n - 1]) == 1
    ensures Without(s[..n], s[n - 1]) == s[..n - 1]
  {
    LastOnce(s[..n]);
    assert s[..n][..n - 1] == s[..n - 1];
  }

  lemma BumpOneMore(q: Tq, l: seq<nat>, v: Tq)
    requires Labelled(q) && Labelled(v) && l != [] && Indices(q.pool, l) && l[0] !in l[1..]
    requires v.pool == BumpedAll(q, l[1..]) && v.generation == q.generation && v.queueId == q.queueId
    ensures v.pool[l[0] := Bumped(v, l[0])] == BumpedAll(q, l)
  {}

  /** A pending item is pending once, and nowhere else. */
  lemma NotAhead(q: Tq, x: nat)
    requires Partition(q) && x in q.pending && x < |q.pool|
    ensures Copies(q.pending, x) == 1 && x !in q.queue
  {
    WhereIs(q, x);
    assert Copies(q.free, x) + Copies(q.queue, x) + Copies(q.pending, x) == 1;
  }

  /** One turn of the timeout loop, on the lists and the counters. */
  lemma DropTurn(q: Tq, c: Counters, others: seq<nat>, cap: nat)
    requires WellFormed(q, cap) && Counted(q, c, others, cap) && q.queue != []
    ensures var x := q.queue[0];
      && x < |q.pool|
      && Dropped(q, 1) == q.(pool := q.pool[x := q.pool[x].(skb := None)], free := q.free + [x], queue := q.queue[1..])
      && WellFormed(Dropped(q, 1), cap)
      && var p := q.pool[x].priv;
      && Shaped(c, p) && c.numQueued > 0 && c.numQueuedVif[p.ifId] > 0 && c.linkMapCache[p.ifId][p.linkId] > 0
      && Counted(Dropped(q, 1), AfterDrop(c, p), others, cap)
  {
    var x := q.queue[0];
    LiveItem(q, x, cap);
    CountedDrop(q, c, others, cap);
    DroppedKeeps(q, 1, cap);
    assert q.queue[..1] == [x] && [x][..0] == [];
    assert Cleared(q.pool, []) == q.pool;
    assert Cleared(q.pool, [x]) == q.pool[x := q.pool[x].(skb := None)];
  }

  lemma DroppedNone(q: Tq)
    requires Indices(q.pool, q.queue)
    ensures Dropped(q, 0) == q
  {
    assert Dropped(q, 0).pool == q.pool;
  }

  lemma DroppedOneMore(q: Tq, i: nat, cap: nat)
    requires WellFormed(q, cap) && i < |q.queue|
    ensures Dropped(Dropped(q, i), 1) == Dropped(q, i + 1)
  {
    var x, v := q.queue[i], Dropped(q, i);
    assert q.queue[..i + 1][..i] == q.queue[..i];
    assert v.queue[..1] == [x] && [x][..0] == [];
    assert q.queue[..i + 1] == q.queue[..i] + [x];
    assert Cleared(v.pool, []) == v.pool;
    assert Cleared(v.pool, [x]) == v.pool[x := v.pool[x].(skb := None)];
  }

  lemma DroppedQueue(q: Tq, i: nat)
    requires Indices(q.pool, q.queue) && i <= |q.queue|
    ensures Dropped(q, i).queue == q.queue[i..] && |Dropped(q, i).pool| == |q.pool|
  {}

  /** Dropping does not touch the stamps, so the loop stops where Stale says. */
  lemma StaleTurn(q: Tq, i: nat, now: nat, ttl: nat)
    requires Partition(q) && i < |q.queue| && i <= Stale(q.pool, q.queue, now, ttl)
    ensures var v := Dropped(q, i);
      && v.queue == q.queue[i..] && v.queue[0] < |v.pool|
      && (now < v.pool[v.queue[0]].stamp + ttl <==> i == Stale(q.pool, q.queue, now, ttl))
  {
    hide Stale, Cleared;
    var v := Dropped(q, i);
    assert v.queue[0] == q.queue[i];
  }

  // ---------------------------------------------------------------- what a link map selects

  lemma NothingSelected(q: Tq, v: nat)
    requires Partition(q)
    ensures Selected(q, v, 0) == 0
  {
    NoneSelectedBelow(q.pool, q.queue, v, 256);
  }

  lemma NoneSelectedBelow(pool: seq<Item>, list: seq<nat>, v: nat, bound: nat)
    requires Indices(pool, list)
    ensures Chosen(pool, list, OfMap(v, 0, bound)) == []
  {
    if list != [] { NoneSelectedBelow(pool, list[1..], v, bound); }
  }

  lemma AllSelected(q: Tq, v: nat, cap: nat)
    requires WellFormed(q, cap) && cap <= 16
    ensures Selected(q, v, ALL_LINKS) == |Waiting(q, OfVif(v))|
  {
    forall i | 0 <= i < |q.queue|
      ensures Picks(OfMap(v, ALL_LINKS, 256), q.pool[q.queue[i]].priv) <==> Picks(OfVif(v), q.pool[q.queue[i]].priv)
    {
      LiveItem(q, q.queue[i], cap);
      AllOnesSelects(q.pool[q.queue[i]].priv.linkId);
    }
    SamePicks(q.pool, q.queue, OfMap(v, ALL_LINKS, 256), OfVif(v));
  }

  lemma BoundIrrelevant(q: Tq, v: nat, links: nat, cap: nat)
    requires WellFormed(q, cap) && cap <= 16
    ensures |Chosen(q.pool, q.queue, OfMap(v, links, cap))| == Selected(q, v, links)
  {
    forall i | 0 <= i < |q.queue|
      ensures Picks(OfMap(v, links, cap), q.pool[q.queue[i]].priv)
        <==> Picks(OfMap(v, links, 256), q.pool[q.queue[i]].priv)
    {
      LiveItem(q, q.queue[i], cap);
    }
    SamePicks(q.pool, q.queue, OfMap(v, links, cap), OfMap(v, links, 256));
  }
}
