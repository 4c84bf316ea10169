/** What every entry point of the transmit queue keeps: the partition of the pool, the labelling
    of its items, and what each selection of an interface, a link or a link map counts. */
module TxQueueSteps {
  import opened TxQueueModel

  // ---------------------------------------------------------------- lists

  lemma CopiesConcat(a: seq<nat>, b: seq<nat>, x: nat)
    ensures Copies(a + b, x) == Copies(a, x) + Copies(b, x)
  {
    if a == [] {
      assert a + b == b;
    } else {
      assert (a + b)[1..] == a[1..] + b;
      CopiesConcat(a[1..], b, x);
    }
  }

  lemma {:induction false} CopiesWithout(s: seq<nat>, x: nat, y: nat)
    ensures Copies(Without(s, x), y) == Copies(s, y) - if x == y && x in s then 1 else 0
  {
    if s != [] && s[0] != x {
      CopiesWithout(s[1..], x, y);
      CopiesConcat([s[0]], Without(s[1..], x), y);
      assert Copies([s[0]], y) == if s[0] == y then 1 else 0;
    }
  }

  lemma CopiesOne(x: nat, y: nat)
    ensures Copies([x], y) == if x == y then 1 else 0
  {}

  lemma {:induction false} ChosenConcat(pool: seq<Item>, a: seq<nat>, b: seq<nat>, sel: Sel)
    requires Indices(pool, a) && Indices(pool, b)
    ensures Indices(pool, a + b)
    ensures Chosen(pool, a + b, sel) == Chosen(pool, a, sel) + Chosen(pool, b, sel)
  {
    hide Picks;
    if a == [] {
      assert a + b == b;
    } else {
      var all := a + b;
      assert all[1..] == a[1..] + b && all[0] == a[0];
      ChosenConcat(pool, a[1..], b, sel);
      var first := if Picks(sel, pool[a[0]].priv) then [a[0]] else [];
      assert first + (Chosen(pool, a[1..], sel) + Chosen(pool, b, sel))
        == (first + Chosen(pool, a[1..], sel)) + Chosen(pool, b, sel);
    }
  }

  /** Only the interface and link of the listed items matter. */
  lemma {:induction false} ChosenFrame(pool: seq<Item>, pool': seq<Item>, list: seq<nat>, sel: Sel)
    requires |pool| == |pool'| && Indices(pool, list)
    requires forall i :: 0 <= i < |list| ==> pool[list[i]].priv == pool'[list[i]].priv
    ensures Indices(pool', list) && Chosen(pool, list, sel) == Chosen(pool', list, sel)
  {
    if list != [] {
      assert pool[list[0]].priv == pool'[list[0]].priv;
      ChosenFrame(pool, pool', list[1..], sel);
    }
  }

  lemma WithoutIndices(pool: seq<Item>, s: seq<nat>, x: nat)
    requires Indices(pool, s)
    ensures Indices(pool, Without(s, x))
  {
    if s != [] && s[0] != x { WithoutIndices(pool, s[1..], x); }
  }

  lemma {:induction false} ChosenWithout(pool: seq<Item>, s: seq<nat>, x: nat, sel: Sel)
    requires Indices(pool, s) && x in s && x < |pool|
    ensures Indices(pool, Without(s, x))
    ensures Chosen(pool, Without(s, x), sel)
            == if Picks(sel, pool[x].priv) then Without(Chosen(pool, s, sel), x) else Chosen(pool, s, sel)
    ensures Picks(sel, pool[x].priv) ==> x in Chosen(pool, s, sel)
  {
    WithoutIndices(pool, s, x);
    if s[0] != x {
      ChosenWithout(pool, s[1..], x, sel);
      ChosenConcat(pool, [s[0]], Without(s[1..], x), sel);
      WithoutBehind(Chosen(pool, [s[0]], sel), Chosen(pool, s[1..], sel), x);
    }
  }

  lemma {:induction false} WithoutBehind(a: seq<nat>, b: seq<nat>, x: nat)
    requires x !in a
    ensures Without(a + b, x) == a + Without(b, x)
  {
    if a == [] {
      assert a + b == b;
    } else {
      assert a[0] != x && (a + b)[1..] == a[1..] + b;
      WithoutBehind(a[1..], b, x);
      assert [a[0]] + (a[1..] + Without(b, x)) == a + Without(b, x);
    }
  }

  // ---------------------------------------------------------------- the partition

  /** Where a slot is, by the partition. */
  lemma WhereIs(q: Tq, x: nat)
    requires Partition(q) && x < |q.pool|
    ensures x in q.free <==> x !in q.queue && x !in q.pending
    ensures x in q.queue ==> x !in q.pending
  {
    assert Copies(q.free, x) + Copies(q.queue, x) + Copies(q.pending, x) == 1;
  }

  lemma PutPartition(q: Tq, skb: nat, p: TxPriv, now: nat)
    requires Labelled(q) && Partition(q) && q.free != [] && p.ifId < MAX_VIFS && p.rawLinkId < 16
    ensures Partition(Put(q, skb, p, now))
  {
    var q' := Put(q, skb, p, now);
    var x := q.free[0];
    forall y | 0 <= y < |q.pool| ensures Copies(q'.free, y) + Copies(q'.queue, y) + Copies(q'.pending, y) == 1 {
      CopiesConcat(q.queue, [x], y);
      CopiesOne(x, y);
      assert Copies(q.free, y) + Copies(q.queue, y) + Copies(q.pending, y) == 1;
    }
  }

  lemma GetPartition(q: Tq, n: nat)
    requires Partition(q) && n < |q.queue|
    ensures Partition(GetAt(q, n))
  {
    var q' := GetAt(q, n);
    var a, x, b := q.queue[..n], q.queue[n], q.queue[n + 1..];
    assert q.queue == a + ([x] + b);
    forall y | 0 <= y < |q.pool| ensures Copies(q'.free, y) + Copies(q'.queue, y) + Copies(q'.pending, y) == 1 {
      CopiesConcat(a, [x] + b, y);
      CopiesConcat([x], b, y);
      CopiesConcat(a, b, y);
      CopiesConcat(q.pending, [x], y);
      assert Copies(q.free, y) + Copies(q.queue, y) + Copies(q.pending, y) == 1;
    }
  }

  lemma RequeuePartition(q: Tq, x: nat)
    requires Labelled(q) && Partition(q) && x in q.pending && x < |q.pool|
    ensures Partition(Requeue(q, x))
  {
    var q' := Requeue(q, x);
    WithoutIndices(q.pool, q.pending, x);
    forall y | 0 <= y < |q.pool| ensures Copies(q'.free, y) + Copies(q'.queue, y) + Copies(q'.pending, y) == 1 {
      CopiesConcat([x], q.queue, y);
      CopiesOne(x, y);
      CopiesWithout(q.pending, x, y);
      assert Copies(q.free, y) + Copies(q.queue, y) + Copies(q.pending, y) == 1;
    }
  }

  lemma RemovePartition(q: Tq, x: nat)
    requires Partition(q) && x in q.pending && x < |q.pool|
    ensures Partition(Remove(q, x))
  {
    var q' := Remove(q, x);
    WithoutIndices(q.pool, q.pending, x);
    forall y | 0 <= y < |q.pool| ensures Copies(q'.free, y) + Copies(q'.queue, y) + Copies(q'.pending, y) == 1 {
      CopiesConcat([x], q.free, y);
      CopiesOne(x, y);
      CopiesWithout(q.pending, x, y);
      assert Copies(q.free, y) + Copies(q.queue, y) + Copies(q.pending, y) == 1;
    }
  }

  lemma RequeueAllPartition(q: Tq)
    requires Labelled(q) && Partition(q)
    ensures Partition(RequeueAll(q))
  {
    var q' := RequeueAll(q);
    forall y | 0 <= y < |q.pool| ensures Copies(q'.free, y) + Copies(q'.queue, y) + Copies(q'.pending, y) == 1 {
      CopiesConcat(q.pending, q.queue, y);
      assert Copies(q.free, y) + Copies(q.queue, y) + Copies(q.pending, y) == 1;
    }
  }

  lemma DroppedPartition(q: Tq, n: nat)
    requires Partition(q) && n <= |q.queue|
    ensures Partition(Dropped(q, n))
  {
    var q' := Dropped(q, n);
    assert q.queue == q.queue[..n] + q.queue[n..];
    forall y | 0 <= y < |q.pool| ensures Copies(q'.free, y) + Copies(q'.queue, y) + Copies(q'.pending, y) == 1 {
      CopiesConcat(q.queue[..n], q.queue[n..], y);
      CopiesConcat(q.free, q.queue[..n], y);
      assert Copies(q.free, y) + Copies(q.queue, y) + Copies(q.pending, y) == 1;
    }
  }

  // ---------------------------------------------------------------- the invariant

  /** Membership after a step, from the copies of two partitions. */
  lemma PutKeeps(q: Tq, skb: nat, p: TxPriv, now: nat, cap: nat)
    requires WellFormed(q, cap) && q.free != [] && p.ifId < MAX_VIFS && p.rawLinkId < 16 && p.linkId < cap
    ensures WellFormed(Put(q, skb, p, now), cap)
  {
    var q' := Put(q, skb, p, now);
    PutPartition(q, skb, p, now);
    var x := q.free[0];
    forall y | 0 <= y < |q.pool|
      ensures y in q'.free <==> y in q.free && y != x
    {
      WhereIs(q, y);
      WhereIs(q', y);
      assert x in q'.queue;
    }
  }

  lemma GetKeeps(q: Tq, n: nat, cap: nat)
    requires WellFormed(q, cap) && n < |q.queue|
    ensures WellFormed(GetAt(q, n), cap)
  {
    GetPartition(q, n);
  }

  lemma RequeueKeeps(q: Tq, x: nat, cap: nat)
    requires WellFormed(q, cap) && x in q.pending && x < |q.pool|
    ensures WellFormed(Requeue(q, x), cap)
  {
    RequeuePartition(q, x);
    WhereIs(q, x);
  }

  lemma RemoveKeeps(q: Tq, x: nat, cap: nat)
    requires WellFormed(q, cap) && x in q.pending && x < |q.pool|
    ensures WellFormed(Remove(q, x), cap)
  {
    RemovePartition(q, x);
    WhereIs(q, x);
  }

  lemma RequeueAllKeeps(q: Tq, cap: nat)
    requires WellFormed(q, cap)
    ensures WellFormed(RequeueAll(q), cap)
  {
    RequeueAllPartition(q);
    forall y | 0 <= y < |q.pool| ensures y in q.free ==> y !in q.pending {
      WhereIs(q, y);
    }
  }

  lemma DroppedKeeps(q: Tq, n: nat, cap: nat)
    requires WellFormed(q, cap) && n <= |q.queue|
    ensures WellFormed(Dropped(q, n), cap)
  {
    DroppedPartition(q, n);
    assert q.queue == q.queue[..n] + q.queue[n..];
    forall y | 0 <= y < |q.pool| ensures y in q.queue[..n] ==> y in q.queue {}
  }

  // ---------------------------------------------------------------- what a selection picks

  function Waiting(q: Tq, sel: Sel): seq<nat>
    requires Indices(q.pool, q.queue)
  {
    Chosen(q.pool, q.queue, sel)
  }

  function Sent(q: Tq, sel: Sel): seq<nat>
    requires Indices(q.pool, q.pending)
  {
    Chosen(q.pool, q.pending, sel)
  }

  function IfPicked(sel: Sel, p: TxPriv, x: nat): seq<nat> {
    if Picks(sel, p) then [x] else []
  }

  lemma ChosenOne(pool: seq<Item>, x: nat, sel: Sel)
    requires x < |pool|
    ensures Chosen(pool, [x], sel) == IfPicked(sel, pool[x].priv, x)
  {
    assert Chosen(pool, [], sel) == [];
    assert [x][1..] == [];
  }

  /** Updating an item outside a list, or without touching its interface and link, changes no selection. */
  lemma ChosenUpdate(pool: seq<Item>, x: nat, it: Item, list: seq<nat>, sel: Sel)
    requires Indices(pool, list) && x < |pool| && (x !in list || it.priv == pool[x].priv)
    ensures Indices(pool[x := it], list) && Chosen(pool[x := it], list, sel) == Chosen(pool, list, sel)
  {
    ChosenFrame(pool, pool[x := it], list, sel);
  }

  lemma PutPicks(q: Tq, skb: nat, p: TxPriv, now: nat, sel: Sel)
    requires Labelled(q) && Partition(q) && q.free != [] && p.ifId < MAX_VIFS && p.rawLinkId < 16
    ensures Partition(Put(q, skb, p, now))
    ensures Waiting(Put(q, skb, p, now), sel) == Waiting(q, sel) + IfPicked(sel, p, q.free[0])
    ensures Sent(Put(q, skb, p, now), sel) == Sent(q, sel)
  {
    var q' := Put(q, skb, p, now);
    var x := q.free[0];
    PutPartition(q, skb, p, now);
    WhereIs(q, x);
    ChosenUpdate(q.pool, x, q'.pool[x], q.queue, sel);
    ChosenUpdate(q.pool, x, q'.pool[x], q.pending, sel);
    ChosenConcat(q'.pool, q.queue, [x], sel);
    ChosenOne(q'.pool, x, sel);
  }

  /** Taking the item at position n out of the waiting list. */
  lemma GetPicks(q: Tq, n: nat, sel: Sel)
    requires Partition(q) && n < |q.queue|
    ensures Partition(GetAt(q, n))
    ensures Indices(q.pool, q.queue[..n]) && Indices(q.pool, q.queue[n + 1..])
    ensures var a, b := Chosen(q.pool, q.queue[..n], sel), Chosen(q.pool, q.queue[n + 1..], sel);
      var one := IfPicked(sel, q.pool[q.queue[n]].priv, q.queue[n]);
      && Waiting(q, sel) == a + one + b
      && Waiting(GetAt(q, n), sel) == a + b
      && Sent(GetAt(q, n), sel) == Sent(q, sel) + one
  {
    GetPartition(q, n);
    var a, x, b := q.queue[..n], q.queue[n], q.queue[n + 1..];
    assert q.queue == a + [x] + b;
    ChosenOne(q.pool, x, sel);
    ChosenConcat(q.pool, a + [x], b, sel);
    ChosenConcat(q.pool, a, [x], sel);
    ChosenConcat(q.pool, a, b, sel);
    ChosenConcat(q.pool, q.pending, [x], sel);
  }

  lemma RequeuePicks(q: Tq, x: nat, sel: Sel)
    requires Labelled(q) && Partition(q) && x in q.pending && x < |q.pool|
    ensures Partition(Requeue(q, x))
    ensures Waiting(Requeue(q, x), sel) == IfPicked(sel, q.pool[x].priv, x) + Waiting(q, sel)
    ensures Sent(Requeue(q, x), sel) == if Picks(sel, q.pool[x].priv) then Without(Sent(q, sel), x) else Sent(q, sel)
    ensures Picks(sel, q.pool[x].priv) ==> x in Sent(q, sel)
  {
    RequeuePartition(q, x);
    var q' := Requeue(q, x);
    ChosenWithout(q.pool, q.pending, x, sel);
    ChosenUpdate(q.pool, x, q'.pool[x], Without(q.pending, x), sel);
    ChosenUpdate(q.pool, x, q'.pool[x], q.queue, sel);
    ChosenConcat(q'.pool, [x], q.queue, sel);
    ChosenOne(q'.pool, x, sel);
  }

  lemma RemovePicks(q: Tq, x: nat, sel: Sel)
    requires Partition(q) && x in q.pending && x < |q.pool|
    ensures Partition(Remove(q, x))
    ensures Waiting(Remove(q, x), sel) == Waiting(q, sel)
    ensures Sent(Remove(q, x), sel) == if Picks(sel, q.pool[x].priv) then Without(Sent(q, sel), x) else Sent(q, sel)
    ensures Picks(sel, q.pool[x].priv) ==> x in Sent(q, sel)
  {
    RemovePartition(q, x);
    var q' := Remove(q, x);
    ChosenWithout(q.pool, q.pending, x, sel);
    ChosenUpdate(q.pool, x, q'.pool[x], Without(q.pending, x), sel);
    ChosenUpdate(q.pool, x, q'.pool[x], q.queue, sel);
  }

  lemma RequeueAllPicks(q: Tq, sel: Sel)
    requires Labelled(q) && Partition(q)
    ensures Partition(RequeueAll(q))
    ensures Waiting(RequeueAll(q), sel) == Sent(q, sel) + Waiting(q, sel)
    ensures Sent(RequeueAll(q), sel) == []
  {
    RequeueAllPartition(q);
    var q' := RequeueAll(q);
    ChosenConcat(q.pool, q.pending, q.queue, sel);
    ChosenFrame(q.pool, q'.pool, q.pending + q.queue, sel);
  }

  lemma DroppedPicks(q: Tq, n: nat, sel: Sel)
    requires Partition(q) && n <= |q.queue|
    ensures Partition(Dropped(q, n))
    ensures Indices(q.pool, q.queue[..n])
    ensures Waiting(q, sel) == Chosen(q.pool, q.queue[..n], sel) + Waiting(Dropped(q, n), sel)
    ensures Sent(Dropped(q, n), sel) == Sent(q, sel)
  {
    DroppedPartition(q, n);
    var q' := Dropped(q, n);
    assert q.queue == q.queue[..n] + q.queue[n..];
    ChosenConcat(q.pool, q.queue[..n], q.queue[n..], sel);
    ChosenFrame(q.pool, q'.pool, q.queue[n..], sel);
    ChosenFrame(q.pool, q'.pool, q.pending, sel);
  }

  // ---------------------------------------------------------------- which slot is used next

  /** The slot that was confirmed last is the first to be used again; slots that a timeout empties come
      after all that were free, in the order they waited. */
  lemma UsedNext(q: Tq, x: nat, n: nat, skb: nat, p: TxPriv, now: nat, cap: nat)
    requires WellFormed(q, cap) && x in q.pending && x < |q.pool| && n <= |q.queue|
    requires p.ifId < MAX_VIFS && p.rawLinkId < 16
    ensures WellFormed(Remove(q, x), cap) && Remove(q, x).free != []
    ensures var q' := Put(Remove(q, x), skb, p, now); q'.queue == q.queue + [x] && q'.free == q.free
    ensures Dropped(q, n).free == q.free + q.queue[..n]
  {
    RemoveKeeps(q, x, cap);
  }

  // ---------------------------------------------------------------- identifiers

  /** The fields an item's identifier is made of. */
  function FieldsOf(q: Tq, x: nat): PacketId
    requires x < |q.pool|
  {
    PacketId(q.generation, q.pool[x].priv.rawLinkId, q.pool[x].priv.ifId, q.queueId, q.pool[x].generation, x)
  }

  /** The identifier of an item in use carries its fields and leads back to it. */
  lemma OwnIdFound(q: Tq, x: nat, cap: nat)
    requires WellFormed(q, cap) && x < |q.pool| && x !in q.free
    ensures Find(q, q.pool[x].packetId) == Found(x)
    ensures ParseId(q.pool[x].packetId) == FieldsOf(q, x)
  {
    assert GoodItem(q.pool[x]);
    ParseUndoesMake(FieldsOf(q, x));
  }
}
