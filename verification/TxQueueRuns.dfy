/** The transmit queue over whole runs: arrival order within each flow, and how long a packet
    identifier stays refused. */
module TxQueueRuns {
  import opened TxQueueModel
  import opened TxQueueSteps

  // ---------------------------------------------------------------- flows

  /** The items of one interface and link, sent ones first, then waiting ones. */
  function Flow(q: Tq, v: nat, l: nat): seq<nat>
    requires Indices(q.pool, q.queue) && Indices(q.pool, q.pending)
  {
    Sent(q, OfLink(v, l)) + Waiting(q, OfLink(v, l))
  }

  lemma ChosenNone(pool: seq<Item>, list: seq<nat>, sel: Sel)
    requires Indices(pool, list)
    requires forall i :: 0 <= i < |list| ==> !Picks(sel, pool[list[i]].priv)
    ensures Chosen(pool, list, sel) == []
  {
    if list != [] { ChosenNone(pool, list[1..], sel); }
  }

  /** Taking the first match under any link map moves an item across without touching its flow. */
  lemma GetKeepsFlow(q: Tq, ifId: nat, links: nat, v: nat, l: nat)
    requires Partition(q)
    ensures var n := FirstMatch(q.pool, q.queue, ifId, links, 0);
      n < |q.queue| ==> Partition(GetAt(q, n)) && Flow(GetAt(q, n), v, l) == Flow(q, v, l)
  {
    hide FirstMatch, Chosen, GetAt;
    var n := FirstMatch(q.pool, q.queue, ifId, links, 0);
    if n < |q.queue| {
      var sel := OfLink(v, l);
      GetPicks(q, n, sel);
      if Picks(sel, q.pool[q.queue[n]].priv) {
        ChosenNone(q.pool, q.queue[..n], sel);
      }
    }
  }

  lemma PutExtendsFlow(q: Tq, skb: nat, p: TxPriv, now: nat, v: nat, l: nat)
    requires Labelled(q) && Partition(q) && q.free != [] && p.ifId < MAX_VIFS && p.rawLinkId < 16
    ensures Partition(Put(q, skb, p, now))
    ensures Flow(Put(q, skb, p, now), v, l) == Flow(q, v, l) + IfPicked(OfLink(v, l), p, q.free[0])
  {
    PutPicks(q, skb, p, now, OfLink(v, l));
  }

  lemma RequeueAllKeepsFlow(q: Tq, v: nat, l: nat)
    requires Labelled(q) && Partition(q)
    ensures Partition(RequeueAll(q)) && Flow(RequeueAll(q), v, l) == Flow(q, v, l)
  {
    RequeueAllPicks(q, OfLink(v, l));
  }

  /** The two halves of a list around the first x. */
  lemma {:induction false} WithoutSplit(s: seq<nat>, x: nat) returns (k: nat)
    requires x in s
    ensures k < |s| && s[k] == x && Without(s, x) == s[..k] + s[k + 1..]
  {
    if s[0] == x {
      k := 0;
    } else {
      var k' := WithoutSplit(s[1..], x);
      k := k' + 1;
      assert s[1..][..k'] == s[1..k] && s[1..][k' + 1..] == s[k + 1..];
      assert [s[0]] + s[1..k] == s[..k];
    }
  }

  // ---------------------------------------------------------------- arrival order

  /** The arrival number of the frame in a slot. */
  function Number(pool: seq<Item>, x: nat): nat
    requires x < |pool|
  {
    if pool[x].skb.Some? then pool[x].skb.value else 0
  }

  ghost predicate InOrder(pool: seq<Item>, f: seq<nat>) {
    && Indices(pool, f)
    && forall i, j :: 0 <= i < j < |f| ==> Number(pool, f[i]) < Number(pool, f[j])
  }

  ghost predicate Before(pool: seq<Item>, f: seq<nat>, serial: nat) {
    Indices(pool, f) && forall i :: 0 <= i < |f| ==> Number(pool, f[i]) < serial
  }

  /** Every flow is in arrival order, and everything in it arrived before `serial`. */
  ghost predicate Ordered(q: Tq, serial: nat)
    requires Indices(q.pool, q.queue) && Indices(q.pool, q.pending)
  {
    forall v, l :: FlowOrdered(q, v, l, serial)
  }

  ghost predicate FlowOrdered(q: Tq, v: nat, l: nat, serial: nat)
    requires Indices(q.pool, q.queue) && Indices(q.pool, q.pending)
  {
    InOrder(q.pool, Flow(q, v, l)) && Before(q.pool, Flow(q, v, l), serial)
  }

  lemma ChosenFrom(pool: seq<Item>, list: seq<nat>, sel: Sel)
    requires Indices(pool, list)
    ensures forall i :: 0 <= i < |Chosen(pool, list, sel)| ==> Chosen(pool, list, sel)[i] in list
  {
    if list != [] {
      ChosenFrom(pool, list[1..], sel);
      var rest := Chosen(pool, list[1..], sel);
      forall i | 0 <= i < |Chosen(pool, list, sel)| ensures Chosen(pool, list, sel)[i] in list {
        var c := Chosen(pool, list, sel)[i];
        assert c == list[0] || c in rest;
        if c != list[0] { assert c in list[1..]; }
      }
    }
  }

  lemma FlowFrom(q: Tq, v: nat, l: nat)
    requires Partition(q)
    ensures forall i :: 0 <= i < |Flow(q, v, l)| ==> Flow(q, v, l)[i] in q.queue || Flow(q, v, l)[i] in q.pending
    ensures forall i :: 0 <= i < |Flow(q, v, l)| ==> Flow(q, v, l)[i] < |q.pool| && Flow(q, v, l)[i] !in q.free
  {
    ChosenFrom(q.pool, q.queue, OfLink(v, l));
    ChosenFrom(q.pool, q.pending, OfLink(v, l));
    var f := Flow(q, v, l);
    forall i | 0 <= i < |f| ensures f[i] < |q.pool| && f[i] !in q.free && (f[i] in q.queue || f[i] in q.pending) {
      assert f[i] in q.queue || f[i] in q.pending;
      WhereIs(q, f[i]);
    }
  }

  lemma CutKeepsOrder(pool: seq<Item>, a: seq<nat>, b: seq<nat>, c: seq<nat>, serial: nat)
    requires InOrder(pool, a + b + c) && Before(pool, a + b + c, serial)
    ensures InOrder(pool, a + c) && Before(pool, a + c, serial)
  {
    var f, g := a + b + c, a + c;
    forall i | 0 <= i < |g| ensures g[i] == f[if i < |a| then i else i + |b|] {}
  }

  lemma CutOut(pool: seq<Item>, s: seq<nat>, w: seq<nat>, x: nat, serial: nat)
    requires x in s && InOrder(pool, s + w) && Before(pool, s + w, serial)
    ensures InOrder(pool, Without(s, x) + w) && Before(pool, Without(s, x) + w, serial)
  {
    var k := WithoutSplit(s, x);
    assert s + w == s[..k] + [x] + (s[k + 1..] + w);
    CutKeepsOrder(pool, s[..k], [x], s[k + 1..] + w, serial);
    assert Without(s, x) + w == s[..k] + (s[k + 1..] + w);
  }

  lemma OrderAt(pool: seq<Item>, f: seq<nat>, i: nat, j: nat)
    requires Indices(pool, f) && i < j < |f|
    ensures InOrder(pool, f) ==> Number(pool, f[i]) < Number(pool, f[j])
  {}

  /** Moving x from its place in s to behind s keeps the order exactly when it was there already. */
  lemma MoveBehind(pool: seq<Item>, s: seq<nat>, w: seq<nat>, x: nat)
    requires x in s && InOrder(pool, s + w)
    ensures InOrder(pool, Without(s, x) + ([x] + w)) <==> s[|s| - 1] == x
    ensures s[|s| - 1] == x ==> Without(s, x) + ([x] + w) == s + w
  {
    hide Without, InOrder;
    var k := WithoutSplit(s, x);
    var f, g := s + w, Without(s, x) + ([x] + w);
    InOrderListed(pool, f);
    assert f[k] == x && f[|s| - 1] == s[|s| - 1];
    if k < |s| - 1 {
      OrderAt(pool, f, k, |s| - 1);
      MovedListed(pool, s, w, k);
      OrderAt(pool, g, |s| - 2, |s| - 1);
    } else {
      assert g == f;
    }
  }

  /** The list with its k-th entry moved behind the first part. */
  lemma MovedListed(pool: seq<Item>, s: seq<nat>, w: seq<nat>, k: nat)
    requires k < |s| - 1 && Indices(pool, s + w)
    ensures var g := s[..k] + s[k + 1..] + ([s[k]] + w);
      Indices(pool, g) && |g| == |s| + |w| && g[|s| - 2] == s[|s| - 1] && g[|s| - 1] == s[k]
  {
    var f, g := s + w, s[..k] + s[k + 1..] + ([s[k]] + w);
    forall i | 0 <= i < |g| ensures g[i] < |pool| {
      assert g[i] == f[if i < k then i else if i < |s| - 1 then i + 1 else if i == |s| - 1 then k else i];
    }
  }

  lemma SameNumbersIff(pool: seq<Item>, pool': seq<Item>, f: seq<nat>)
    requires |pool'| == |pool| && forall x :: 0 <= x < |pool| ==> Number(pool', x) == Number(pool, x)
    ensures InOrder(pool', f) <==> InOrder(pool, f)
    ensures forall serial :: Before(pool', f, serial) <==> Before(pool, f, serial)
  {}

  lemma InOrderListed(pool: seq<Item>, f: seq<nat>)
    requires InOrder(pool, f)
    ensures Indices(pool, f)
  {}

  lemma SameNumbersSameOrder(pool: seq<Item>, pool': seq<Item>, f: seq<nat>, serial: nat)
    requires InOrder(pool, f) && Before(pool, f, serial) && |pool'| == |pool|
    requires forall i :: 0 <= i < |f| ==> Number(pool', f[i]) == Number(pool, f[i])
    ensures InOrder(pool', f) && Before(pool', f, serial)
  {}

  lemma PutFlowOrdered(q: Tq, skb: nat, p: TxPriv, now: nat, v: nat, l: nat)
    requires Labelled(q) && Partition(q) && q.free != [] && p.ifId < MAX_VIFS && p.rawLinkId < 16
    requires FlowOrdered(q, v, l, skb)
    ensures Partition(Put(q, skb, p, now)) && FlowOrdered(Put(q, skb, p, now), v, l, skb + 1)
  {
    var q', x := Put(q, skb, p, now), q.free[0];
    PutExtendsFlow(q, skb, p, now, v, l);
    FlowFrom(q, v, l);
    SameNumbersSameOrder(q.pool, q'.pool, Flow(q, v, l), skb);
    assert Number(q'.pool, x) == skb;
  }

  lemma GetFlowOrdered(q: Tq, ifId: nat, links: nat, v: nat, l: nat, serial: nat)
    requires Partition(q) && FlowOrdered(q, v, l, serial)
    ensures var n := FirstMatch(q.pool, q.queue, ifId, links, 0);
      n < |q.queue| ==> Partition(GetAt(q, n)) && FlowOrdered(GetAt(q, n), v, l, serial)
  {
    GetKeepsFlow(q, ifId, links, v, l);
  }

  lemma RequeueAllFlowOrdered(q: Tq, v: nat, l: nat, serial: nat)
    requires Labelled(q) && Partition(q) && FlowOrdered(q, v, l, serial)
    ensures Partition(RequeueAll(q)) && FlowOrdered(RequeueAll(q), v, l, serial)
  {
    RequeueAllKeepsFlow(q, v, l);
    FlowFrom(q, v, l);
    SameNumbersSameOrder(q.pool, RequeueAll(q).pool, Flow(q, v, l), serial);
  }

  lemma RemoveFlowOrdered(q: Tq, x: nat, v: nat, l: nat, serial: nat)
    requires Partition(q) && x in q.pending && x < |q.pool| && FlowOrdered(q, v, l, serial)
    ensures Partition(Remove(q, x)) && FlowOrdered(Remove(q, x), v, l, serial)
  {
    var q', sel := Remove(q, x), OfLink(v, l);
    RemovePicks(q, x, sel);
    if Picks(sel, q.pool[x].priv) {
      CutOut(q.pool, Sent(q, sel), Waiting(q, sel), x, serial);
    }
    FlowFrom(q', v, l);
    assert x in q'.free;
    SameNumbersSameOrder(q.pool, q'.pool, Flow(q', v, l), serial);
  }

  lemma DroppedFlowOrdered(q: Tq, n: nat, v: nat, l: nat, serial: nat)
    requires Partition(q) && n <= |q.queue| && FlowOrdered(q, v, l, serial)
    ensures Partition(Dropped(q, n)) && FlowOrdered(Dropped(q, n), v, l, serial)
  {
    var q', sel := Dropped(q, n), OfLink(v, l);
    DroppedPicks(q, n, sel);
    var s, d, w := Sent(q, sel), Chosen(q.pool, q.queue[..n], sel), Waiting(q', sel);
    assert Flow(q, v, l) == s + d + w;
    CutKeepsOrder(q.pool, s, d, w, serial);
    FlowFrom(q', v, l);
    SameNumbersSameOrder(q.pool, q'.pool, Flow(q', v, l), serial);
  }

  // ---------------------------------------------------------------- the single requeue

  /** No later item of the same flow has been sent. */
  ghost predicate LastSentOfFlow(q: Tq, x: nat)
    requires Indices(q.pool, q.pending) && x < |q.pool|
  {
    var s := Sent(q, OfLink(q.pool[x].priv.ifId, q.pool[x].priv.linkId));
    s != [] && s[|s| - 1] == x
  }

  /** A single requeue keeps the order of its own flow if and only if it returns the item
      sent last. */
  lemma RequeueFlowOrderedIff(q: Tq, x: nat, v: nat, l: nat, serial: nat)
    requires Labelled(q) && Partition(q) && x in q.pending && x < |q.pool| && FlowOrdered(q, v, l, serial)
    requires Picks(OfLink(v, l), q.pool[x].priv)
    ensures Partition(Requeue(q, x))
    ensures FlowOrdered(Requeue(q, x), v, l, serial) <==> LastSentOfFlow(q, x)
  {
    hide Copies, Without, InOrder, Before, Chosen;
    var q', sel := Requeue(q, x), OfLink(v, l);
    RequeuePicks(q, x, sel);
    var s, w := Sent(q, sel), Waiting(q, sel);
    var f := Flow(q', v, l);
    assert f == Without(s, x) + ([x] + w);
    InOrderListed(q.pool, Flow(q, v, l));
    MoveBehind(q.pool, s, w, x);
    SameNumbersIff(q.pool, q'.pool, f);
    assert LastSentOfFlow(q, x) <==> s[|s| - 1] == x;
  }

  lemma RequeueOtherFlow(q: Tq, x: nat, v: nat, l: nat, serial: nat)
    requires Labelled(q) && Partition(q) && x in q.pending && x < |q.pool| && FlowOrdered(q, v, l, serial)
    requires !Picks(OfLink(v, l), q.pool[x].priv)
    ensures Partition(Requeue(q, x))
    ensures FlowOrdered(Requeue(q, x), v, l, serial)
  {
    hide Copies, InOrder, Before, Chosen, Picks;
    RequeuePicks(q, x, OfLink(v, l));
    FlowFrom(q, v, l);
    assert Flow(Requeue(q, x), v, l) == Flow(q, v, l);
    SameNumbersSameOrder(q.pool, Requeue(q, x).pool, Flow(q, v, l), serial);
  }

  /** So a single requeue keeps every flow in order if and only if it returns the last sent item
      of its flow. */
  lemma RequeueOrderedIff(q: Tq, x: nat, serial: nat)
    requires Labelled(q) && Partition(q) && x in q.pending && x < |q.pool| && Ordered(q, serial)
    ensures Partition(Requeue(q, x))
    ensures Ordered(Requeue(q, x), serial) <==> LastSentOfFlow(q, x)
  {
    var p := q.pool[x].priv;
    assert FlowOrdered(q, p.ifId, p.linkId, serial);
    RequeueFlowOrderedIff(q, x, p.ifId, p.linkId, serial);
    forall v, l | !Picks(OfLink(v, l), p) ensures FlowOrdered(Requeue(q, x), v, l, serial) {
      assert FlowOrdered(q, v, l, serial);
      RequeueOtherFlow(q, x, v, l, serial);
    }
  }

  // ---------------------------------------------------------------- runs

  /** What the driver asks of the queue. The device confirms or returns only sent items, so a
      removal or a requeue of any other slot does nothing here. */
  datatype Op =
    | DoPut(priv: TxPriv, now: nat)
    | DoGet(ifId: nat, links: nat)
    | DoRequeue(slot: nat)
    | DoRequeueAll
    | DoRemove(slot: nat)
    | DoTimeout(now: nat, ttl: nat)

  /** One operation; a put carries the next arrival number as its frame. */
  function Apply(q: Tq, op: Op, serial: nat, cap: nat): Tq
    requires WellFormed(q, cap)
  {
    match op
    case DoPut(p, now) =>
      if p.linkId < cap && p.ifId < MAX_VIFS && p.rawLinkId < 16 && q.free != [] then Put(q, serial, p, now) else q
    case DoGet(ifId, links) =>
      var n := FirstMatch(q.pool, q.queue, ifId, links, 0);
      if n < |q.queue| then GetAt(q, n) else q
    case DoRequeue(x) => if x in q.pending && x < |q.pool| then Requeue(q, x) else q
    case DoRequeueAll => RequeueAll(q)
    case DoRemove(x) => if x in q.pending && x < |q.pool| then Remove(q, x) else q
    case DoTimeout(now, ttl) => Dropped(q, Stale(q.pool, q.queue, now, ttl))
  }

  lemma ApplyKeeps(q: Tq, op: Op, serial: nat, cap: nat)
    requires WellFormed(q, cap)
    ensures WellFormed(Apply(q, op, serial, cap), cap)
  {
    match op {
      case DoPut(p, now) =>
        if p.linkId < cap && p.ifId < MAX_VIFS && p.rawLinkId < 16 && q.free != [] { PutKeeps(q, serial, p, now, cap); }
      case DoGet(ifId, links) =>
        var n := FirstMatch(q.pool, q.queue, ifId, links, 0);
        if n < |q.queue| { GetKeeps(q, n, cap); }
      case DoRequeue(x) => if x in q.pending && x < |q.pool| { RequeueKeeps(q, x, cap); }
      case DoRequeueAll => RequeueAllKeeps(q, cap);
      case DoRemove(x) => if x in q.pending && x < |q.pool| { RemoveKeeps(q, x, cap); }
      case DoTimeout(now, ttl) => DroppedKeeps(q, Stale(q.pool, q.queue, now, ttl), cap);
    }
  }

  ghost function Replay(q: Tq, ops: seq<Op>, serial: nat, cap: nat): (r: Tq)
    requires WellFormed(q, cap)
    ensures WellFormed(r, cap)
    decreases ops
  {
    if ops == [] then q
    else
      ApplyKeeps(q, ops[0], serial, cap);
      Replay(Apply(q, ops[0], serial, cap), ops[1..], serial + 1, cap)
  }

  lemma ApplyOrdered(q: Tq, op: Op, serial: nat, cap: nat)
    requires WellFormed(q, cap) && Ordered(q, serial) && !op.DoRequeue?
    ensures WellFormed(Apply(q, op, serial, cap), cap) && Ordered(Apply(q, op, serial, cap), serial + 1)
  {
    ApplyKeeps(q, op, serial, cap);
    var q', next := Apply(q, op, serial, cap), serial + 1;
    forall v, l ensures FlowOrdered(q', v, l, next) {
      assert FlowOrdered(q, v, l, serial);
      match op {
        case DoPut(p, now) =>
          if q' != q { PutFlowOrdered(q, serial, p, now, v, l); }
        case DoGet(ifId, links) => GetFlowOrdered(q, ifId, links, v, l, serial);
        case DoRequeueAll => RequeueAllFlowOrdered(q, v, l, serial);
        case DoRemove(x) => if x in q.pending && x < |q.pool| { RemoveFlowOrdered(q, x, v, l, serial); }
        case DoTimeout(now, ttl) => DroppedFlowOrdered(q, Stale(q.pool, q.queue, now, ttl), v, l, serial);
      }
    }
  }

  /** Over any run without a single-item requeue every flow stays in arrival order: sent items
      first, then waiting ones, each in the order they were put. */
  lemma {:induction false} RunOrdered(q: Tq, ops: seq<Op>, serial: nat, cap: nat)
    requires WellFormed(q, cap) && Ordered(q, serial)
    requires forall i :: 0 <= i < |ops| ==> !ops[i].DoRequeue?
    ensures Ordered(Replay(q, ops, serial, cap), serial + |ops|)
    decreases ops
  {
    if ops != [] {
      ApplyOrdered(q, ops[0], serial, cap);
      RunOrdered(Apply(q, ops[0], serial, cap), ops[1..], serial + 1, cap);
    }
  }

  // ---------------------------------------------------------------- identifiers

  /** Items in use have distinct identifiers, and looking one up finds the item that carries it. */
  lemma LiveIdsDistinct(q: Tq, x: nat, cap: nat)
    requires WellFormed(q, cap) && x < |q.pool| && x !in q.free
    ensures Find(q, q.pool[x].packetId) == Found(x)
    ensures forall y :: 0 <= y < |q.pool| && y !in q.free && y != x ==> q.pool[y].packetId != q.pool[x].packetId
  {
    OwnIdFound(q, x, cap);
    forall y | 0 <= y < |q.pool| && y !in q.free && y != x ensures q.pool[y].packetId != q.pool[x].packetId {
      OwnIdFound(q, y, cap);
    }
  }

  /** Some item in use carries the identifier. */
  ghost predicate Carried(q: Tq, id: nat) {
    exists y :: 0 <= y < |q.pool| && y !in q.free && q.pool[y].packetId == id
  }

  /** The lookup compares the generations and the slot only: what it finds is an item that carries
      the identifier if and only if the slot is in use and the remaining fields agree. */
  lemma FoundCarriesIdIff(q: Tq, id: nat, x: nat, cap: nat)
    requires WellFormed(q, cap) && id < 0x1_0000_0000 && Find(q, id) == Found(x)
    ensures Carried(q, id) <==> x !in q.free && q.pool[x].packetId == id
    ensures Carried(q, id) <==>
      var p := ParseId(id);
      x !in q.free && p.ifId == q.pool[x].priv.ifId && p.linkId == q.pool[x].priv.rawLinkId && p.queueId == q.queueId
  {
    hide Find, MakeId, ParseId;
    if y :| 0 <= y < |q.pool| && y !in q.free && q.pool[y].packetId == id {
      OwnIdFound(q, y, cap);
    }
    FoundFields(q, id, x);
    if x !in q.free {
      OwnIdFound(q, x, cap);
      MakeUndoesParse(id);
      var own := q.pool[x].packetId;
      assert ParseId(own) == FieldsOf(q, x);
      LabelIsMade(q, x, cap);
    }
  }

  /** What a successful lookup has compared. */
  lemma FoundFields(q: Tq, id: nat, x: nat)
    requires Find(q, id) == Found(x)
    ensures x < |q.pool|
    ensures var p := ParseId(id);
      p.queueGeneration == q.generation && p.itemId == x && p.itemGeneration == q.pool[x].generation
  {
    hide ParseId;
  }

  lemma LabelIsMade(q: Tq, x: nat, cap: nat)
    requires WellFormed(q, cap) && x < |q.pool| && x !in q.free
    ensures InRange(FieldsOf(q, x)) && q.pool[x].packetId == MakeId(FieldsOf(q, x))
  {
    hide MakeId;
    assert GoodItem(q.pool[x]);
  }

  /** A slot confirmed by the device is found again under its next generation, with every field
      in agreement: it is free, holds no frame, and carries another identifier. */
  lemma ConfirmedFoundAgain(q: Tq, x: nat, cap: nat)
    requires WellFormed(q, cap) && x in q.pending && x < |q.pool|
    ensures WellFormed(Remove(q, x), cap)
    ensures var q', p := Remove(q, x), FieldsOf(Remove(q, x), x);
      && InRange(p) && ParseId(MakeId(p)) == p && Find(q', MakeId(p)) == Found(x)
      && p.ifId == q'.pool[x].priv.ifId && p.linkId == q'.pool[x].priv.rawLinkId && p.queueId == q'.queueId
      && x in q'.free && q'.pool[x].skb.None? && q'.pool[x].packetId != MakeId(p)
  {
    hide MakeId, ParseId;
    WhereIs(q, x);
    LabelIsMade(q, x, cap);
    RemoveKeeps(q, x, cap);
    var p := FieldsOf(Remove(q, x), x);
    assert GoodItem(Remove(q, x).pool[x]);
    ParseUndoesMake(p);
    ParseUndoesMake(FieldsOf(q, x));
  }

  /** And an item in use is found under an identifier that names another interface. */
  lemma OtherInterfaceFound(q: Tq, x: nat, v: nat, cap: nat)
    requires WellFormed(q, cap) && x < |q.pool| && x !in q.free && v < 16 && v != q.pool[x].priv.ifId
    ensures var p := FieldsOf(q, x).(ifId := v);
      InRange(p) && Find(q, MakeId(p)) == Found(x) && !Carried(q, MakeId(p))
  {
    hide MakeId, ParseId;
    LabelIsMade(q, x, cap);
    var p := FieldsOf(q, x).(ifId := v);
    ParseUndoesMake(p);
    if y :| 0 <= y < |q.pool| && y !in q.free && q.pool[y].packetId == MakeId(p) {
      OwnIdFound(q, y, cap);
    }
  }

  /** Whether an operation moves slot x on to its next generation. */
  ghost predicate Bumps(q: Tq, op: Op, x: nat)
  {
    (op.DoRequeueAll? || (op.DoRequeue? && op.slot == x) || (op.DoRemove? && op.slot == x)) && x in q.pending
  }

  /** Whether an operation puts a new frame into slot x. */
  ghost predicate Reuses(q: Tq, op: Op, x: nat, cap: nat) {
    op.DoPut? && op.priv.linkId < cap && op.priv.ifId < MAX_VIFS && op.priv.rawLinkId < 16 && q.free != []
      && q.free[0] == x
  }

  /** How often a run moves slot x on to its next generation. */
  ghost function BumpCount(q: Tq, ops: seq<Op>, x: nat, serial: nat, cap: nat): nat
    requires WellFormed(q, cap)
    decreases ops
  {
    if ops == [] then 0
    else
      ApplyKeeps(q, ops[0], serial, cap);
      (if Bumps(q, ops[0], x) then 1 else 0)
      + BumpCount(Apply(q, ops[0], serial, cap), ops[1..], x, serial + 1, cap)
  }

  /** No put of the run lands in slot x. */
  ghost predicate NeverReused(q: Tq, ops: seq<Op>, x: nat, serial: nat, cap: nat)
    requires WellFormed(q, cap)
    decreases ops
  {
    ops == [] ||
    (ApplyKeeps(q, ops[0], serial, cap);
     !Reuses(q, ops[0], x, cap)
     && NeverReused(Apply(q, ops[0], serial, cap), ops[1..], x, serial + 1, cap))
  }

  /** The 8-bit generation n steps on. */
  function Later(g: nat, n: nat): nat
    decreases n
  {
    if n == 0 then g else Later((g + 1) % 256, n - 1)
  }

  lemma {:induction false} LaterWraps(g: nat, n: nat)
    requires g < 256
    ensures Later(g, n) == (g + n) % 256
    decreases n
  {
    if n > 0 { LaterWraps((g + 1) % 256, n - 1); }
  }

  lemma StepGeneration(q: Tq, op: Op, x: nat, serial: nat, cap: nat)
    requires WellFormed(q, cap) && x < |q.pool| && !Reuses(q, op, x, cap)
    ensures var q' := Apply(q, op, serial, cap);
      && |q'.pool| == |q.pool| && q'.generation == q.generation && q'.queueId == q.queueId
      && q'.pool[x].generation == if Bumps(q, op, x) then (q.pool[x].generation + 1) % 256 else q.pool[x].generation
  {
    hide Copies, FirstMatch, Stale, Without, Identified;
  }

  /** A run without reuse of slot x moves its generation on by the number of bumps. */
  lemma {:induction false} RunGeneration(q: Tq, ops: seq<Op>, x: nat, serial: nat, cap: nat)
    requires WellFormed(q, cap) && x < |q.pool| && NeverReused(q, ops, x, serial, cap)
    ensures var q' := Replay(q, ops, serial, cap);
      && |q'.pool| == |q.pool| && q'.generation == q.generation && q'.queueId == q.queueId
      && q'.pool[x].generation == Later(q.pool[x].generation, BumpCount(q, ops, x, serial, cap))
    decreases ops
  {
    if ops != [] {
      StepGeneration(q, ops[0], x, serial, cap);
      ApplyKeeps(q, ops[0], serial, cap);
      RunGeneration(Apply(q, ops[0], serial, cap), ops[1..], x, serial + 1, cap);
    }
  }

  /** An identifier, once its slot has been confirmed or requeued, is refused for as long as the
      slot gets no new frame, except when the 8-bit generation has come full circle. */
  lemma RefusedIff(q: Tq, ops: seq<Op>, x: nat, serial: nat, cap: nat)
    requires WellFormed(q, cap) && x < |q.pool| && x !in q.free && NeverReused(q, ops, x, serial, cap)
    ensures var q' := Replay(q, ops, serial, cap);
      Find(q', q.pool[x].packetId) == NoEntry <==> BumpCount(q, ops, x, serial, cap) % 256 != 0
  {
    OwnIdFound(q, x, cap);
    RunGeneration(q, ops, x, serial, cap);
    var g, n := q.pool[x].generation, BumpCount(q, ops, x, serial, cap);
    FindByGeneration(Replay(q, ops, serial, cap), q.pool[x].packetId, x);
    assert GoodItem(q.pool[x]);
    LaterWraps(g, n);
    GenerationMoved(g, n);
  }

  lemma FindByGeneration(q: Tq, id: nat, x: nat)
    requires x < |q.pool| && ParseId(id).itemId == x && ParseId(id).queueGeneration == q.generation
    ensures Find(q, id) == if q.pool[x].generation == ParseId(id).itemGeneration then Found(x) else NoEntry
  {}

  lemma GenerationMoved(g: nat, n: nat)
    requires g < 256
    ensures (g + n) % 256 == g <==> n % 256 == 0
  {}
}
