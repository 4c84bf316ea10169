/** The transmit queue of hal/atbm_queue.c as a value: a fixed pool of items split over three
    lists, and what each entry point makes of it. TxQueue.dfy proves that the driver's code,
    with its redundant counters, computes these functions; TxQueueRuns.dfy is about runs. */
module TxQueueModel {
  import opened Options

  const MAX_VIFS: nat := 2

  /** struct atbmwifi_txpriv, the fields the queue looks at. */
  datatype TxPriv = TxPriv(ifId: nat, linkId: nat, rawLinkId: nat)

  /** struct atbmwifi_queue_item. */
  datatype Item = Item(skb: Option<nat>, packetId: nat, priv: TxPriv, generation: nat, stamp: nat)

  /** struct atbmwifi_queue without its counters; the lists hold pool indices. */
  datatype Tq = Tq(pool: seq<Item>, free: seq<nat>, queue: seq<nat>, pending: seq<nat>, generation: nat, queueId: nat)

  // ---------------------------------------------------------------- packet identifiers

  datatype PacketId = PacketId(queueGeneration: nat, linkId: nat, ifId: nat, queueId: nat, itemGeneration: nat,
                               itemId: nat)

  /** Each field fits the bits it is given. */
  predicate InRange(p: PacketId) {
    p.queueGeneration < 16 && p.linkId < 16 && p.ifId < 16 && p.queueId < 16
    && p.itemGeneration < 256 && p.itemId < 256
  }

  /** atbmwifi_queue_make_packet_id: the fields do not overlap, so the bitwise or is a sum. */
  function MakeId(p: PacketId): nat
    requires InRange(p)
  {
    p.itemId + 0x100 * p.itemGeneration + 0x1_0000 * p.queueId + 0x10_0000 * p.ifId
    + 0x100_0000 * p.linkId + 0x1000_0000 * p.queueGeneration
  }

  /** atbmwifi_queue_parse_id: shifts and masks. */
  function ParseId(id: nat): (p: PacketId)
    ensures InRange(p)
  {
    PacketId((id / 0x1000_0000) % 16, (id / 0x100_0000) % 16, (id / 0x10_0000) % 16, (id / 0x1_0000) % 16,
             (id / 0x100) % 256, id % 256)
  }

  /** The bits from position log2(unit) on, and the field at the bottom of them. */
  lemma FieldAt(id: nat, low: nat, field: nat, high: nat, unit: nat, size: nat)
    requires low < unit && field < size && id == low + unit * (field + size * high)
    ensures id / unit == field + size * high && (id / unit) % size == field
  {
    DivideOut(low, field + size * high, unit);
    DivideOut(field, high, size);
  }

  lemma DivideOut(low: nat, high: nat, unit: nat)
    requires low < unit
    ensures (low + unit * high) / unit == high && (low + unit * high) % unit == low
  {
    var n := low + unit * high;
    var q, r := n / unit, n % unit;
    assert n == unit * q + r;
    assert q < high ==> unit * (q + 1) <= unit * high;
    assert q > high ==> unit * (high + 1) <= unit * q;
  }

  /** Parsing undoes making, field by field; from the lowest bits on an identifier has the item, its
      generation, the queue, the interface, the link and the generation of the queue. */
  lemma ParseUndoesMake(p: PacketId)
    requires InRange(p)
    ensures ParseId(MakeId(p)) == p && MakeId(p) < 0x1_0000_0000
    ensures var id := MakeId(p);
      && id % 0x100 == p.itemId && id / 0x100 % 0x100 == p.itemGeneration && id / 0x1_0000 % 0x10 == p.queueId
      && id / 0x10_0000 % 0x10 == p.ifId && id / 0x100_0000 % 0x10 == p.linkId && id / 0x1000_0000 == p.queueGeneration
  {
    var id := MakeId(p);
    var h5 := p.queueGeneration;
    var h4 := p.linkId + 16 * h5;
    var h3 := p.ifId + 16 * h4;
    var h2 := p.queueId + 16 * h3;
    var h1 := p.itemGeneration + 256 * h2;
    FieldAt(id, 0, p.itemId, h1, 1, 256);
    FieldAt(id, p.itemId, p.itemGeneration, h2, 0x100, 256);
    var l2 := p.itemId + 0x100 * p.itemGeneration;
    FieldAt(id, l2, p.queueId, h3, 0x1_0000, 16);
    var l3 := l2 + 0x1_0000 * p.queueId;
    FieldAt(id, l3, p.ifId, h4, 0x10_0000, 16);
    var l4 := l3 + 0x10_0000 * p.ifId;
    FieldAt(id, l4, p.linkId, h5, 0x100_0000, 16);
    FieldAt(id, l4 + 0x100_0000 * p.linkId, h5, 0, 0x1000_0000, 16);
  }

  /** Every 32-bit word is what its fields make. */
  lemma MakeUndoesParse(id: nat)
    requires id < 0x1_0000_0000
    ensures MakeId(ParseId(id)) == id
  {
    assert id / 0x100 / 0x100 == id / 0x1_0000;
    assert id / 0x1_0000 / 0x10 == id / 0x10_0000;
    assert id / 0x10_0000 / 0x10 == id / 0x100_0000;
    assert id / 0x100_0000 / 0x10 == id / 0x1000_0000;
  }

  /** The identifier an item in slot x carries. */
  function SlotId(q: Tq, x: nat): nat
    requires x < |q.pool| && Labelled(q)
  {
    Labelling(q, x, q.pool[x].priv, q.pool[x].generation)
  }

  /** Everything that goes into an identifier is in range. */
  ghost predicate Labelled(q: Tq) {
    && |q.pool| <= 255 && q.generation < 16 && q.queueId < 16
    && forall x :: 0 <= x < |q.pool| ==> GoodItem(q.pool[x])
  }

  predicate GoodItem(it: Item) {
    it.generation < 256 && it.priv.ifId < MAX_VIFS && it.priv.rawLinkId < 16
  }

  // ---------------------------------------------------------------- list surgery

  /** The list without its first occurrence of x. */
  function Without(s: seq<nat>, x: nat): (r: seq<nat>)
    ensures x in s ==> |r| == |s| - 1
    ensures x !in s ==> r == s
  {
    if s == [] then [] else if s[0] == x then s[1..] else [s[0]] + Without(s[1..], x)
  }

  /** BIT(l). */
  function Bit(l: nat): (b: nat)
    ensures b > 0
  {
    if l == 0 then 1 else 2 * Bit(l - 1)
  }

  const ALL_LINKS: nat := 0xFFFF_FFFF

  /** Whether a link map selects a link. */
  predicate Selects(map_: nat, l: nat) {
    (map_ / Bit(l)) % 2 == 1
  }

  /** The first waiting item of an interface on a selected link, from position k on. */
  function FirstMatch(pool: seq<Item>, list: seq<nat>, ifId: nat, links: nat, k: nat): (n: nat)
    requires k <= |list| && Indices(pool, list)
    ensures k <= n <= |list|
    ensures forall i :: k <= i < n ==> !Matches(pool[list[i]].priv, ifId, links)
    ensures n < |list| ==> Matches(pool[list[n]].priv, ifId, links)
    decreases |list| - k
  {
    if k == |list| || Matches(pool[list[k]].priv, ifId, links) then k
    else FirstMatch(pool, list, ifId, links, k + 1)
  }

  predicate Matches(p: TxPriv, ifId: nat, links: nat) {
    p.ifId == ifId && Selects(links, p.linkId)
  }

  ghost predicate Indices(pool: seq<Item>, list: seq<nat>) {
    forall i :: 0 <= i < |list| ==> list[i] < |pool|
  }

  /** How often x occurs in a list. */
  function Copies(s: seq<nat>, x: nat): (n: nat)
    ensures n > 0 <==> x in s
  {
    if s == [] then 0 else (if s[0] == x then 1 else 0) + Copies(s[1..], x)
  }

  // ---------------------------------------------------------------- selections

  /** What a counter counts: an interface, one link of it, or the links of a map below a bound. */
  datatype Sel = OfVif(v: nat) | OfLink(v: nat, l: nat) | OfMap(v: nat, links: nat, bound: nat)

  predicate Picks(sel: Sel, p: TxPriv) {
    match sel
    case OfVif(v) => p.ifId == v
    case OfLink(v, l) => p.ifId == v && p.linkId == l
    case OfMap(v, links, bound) => p.ifId == v && p.linkId < bound && Selects(links, p.linkId)
  }

  /** The slots of a list that a selection picks, in list order. */
  function Chosen(pool: seq<Item>, list: seq<nat>, sel: Sel): seq<nat>
    requires Indices(pool, list)
  {
    if list == [] then []
    else (if Picks(sel, pool[list[0]].priv) then [list[0]] else []) + Chosen(pool, list[1..], sel)
  }

  // ---------------------------------------------------------------- invariants

  /** Every pool slot is in exactly one of the three lists, once. */
  ghost predicate Partition(q: Tq) {
    && Indices(q.pool, q.free) && Indices(q.pool, q.queue) && Indices(q.pool, q.pending)
    && |q.free| + |q.queue| + |q.pending| == |q.pool|
    && forall x :: 0 <= x < |q.pool| ==> Copies(q.free, x) + Copies(q.queue, x) + Copies(q.pending, x) == 1
  }

  /** Every slot names a known link; free slots hold no frame, the others hold one, under their own
      identifier. */
  ghost predicate Identified(q: Tq, mapCapacity: nat)
    requires Labelled(q)
  {
    forall x :: 0 <= x < |q.pool| ==>
      && q.pool[x].priv.linkId < mapCapacity
      && if x in q.free then q.pool[x].skb.None? else q.pool[x].skb.Some? && q.pool[x].packetId == SlotId(q, x)
  }

  ghost predicate WellFormed(q: Tq, mapCapacity: nat) {
    Labelled(q) && Partition(q) && Identified(q, mapCapacity)
  }

  // ---------------------------------------------------------------- the entry points

  function Labelling(q: Tq, x: nat, p: TxPriv, generation: nat): (id: nat)
    requires q.generation < 16 && q.queueId < 16 && x < 256 && p.ifId < 16 && p.rawLinkId < 16 && generation < 256
  {
    MakeId(PacketId(q.generation, p.rawLinkId, p.ifId, q.queueId, generation, x))
  }

  /** atbmwifi_queue_put with a free slot: the first free slot goes to the tail of the queue. */
  function Put(q: Tq, skb: nat, p: TxPriv, now: nat): Tq
    requires Labelled(q) && Indices(q.pool, q.free)
    requires q.free != [] && p.ifId < MAX_VIFS && p.rawLinkId < 16
  {
    var x := q.free[0];
    q.(pool := q.pool[x := Item(Some(skb), Labelling(q, x, p, 0), p, 0, now)],
       free := q.free[1..], queue := q.queue + [x])
  }

  /** atbmwifi_queue_get of the item at position n: it goes to the tail of pending. */
  function GetAt(q: Tq, n: nat): Tq
    requires n < |q.queue|
  {
    q.(queue := q.queue[..n] + q.queue[n + 1..], pending := q.pending + [q.queue[n]])
  }

  /** An item under its next generation. */
  function Bumped(q: Tq, x: nat): Item
    requires x < |q.pool| && Labelled(q)
  {
    var it := q.pool[x];
    var g := (it.generation + 1) % 256;
    it.(generation := g, packetId := Labelling(q, x, it.priv, g))
  }

  datatype Lookup = Found(slot: nat) | NoEntry | Invalid

  /** The checks shared by requeue, remove and get_skb. */
  function Find(q: Tq, packetId: nat): Lookup {
    var p := ParseId(packetId);
    if p.queueGeneration != q.generation then NoEntry
    else if p.itemId >= |q.pool| then Invalid
    else if q.pool[p.itemId].generation != p.itemGeneration then NoEntry
    else Found(p.itemId)
  }

  /** atbmwifi_queue_requeue of a pending slot: back to the head of the queue. */
  function Requeue(q: Tq, x: nat): Tq
    requires x < |q.pool| && Labelled(q)
  {
    q.(pool := q.pool[x := Bumped(q, x)], pending := Without(q.pending, x), queue := [x] + q.queue)
  }

  /** atbmwifi_queue_requeue_all. */
  function RequeueAll(q: Tq): Tq
    requires Labelled(q) && Indices(q.pool, q.pending)
  {
    q.(pool := BumpedAll(q, q.pending), pending := [], queue := q.pending + q.queue)
  }

  function BumpedAll(q: Tq, list: seq<nat>): (pool: seq<Item>)
    requires Labelled(q) && Indices(q.pool, list)
    ensures |pool| == |q.pool|
    ensures forall x :: 0 <= x < |q.pool| ==> pool[x] == if x in list then Bumped(q, x) else q.pool[x]
  {
    if list == [] then q.pool else BumpedAll(q, list[1..])[list[0] := Bumped(q, list[0])]
  }

  /** atbmwifi_queue_remove of a pending slot: its frame is released, the slot goes to the free head. */
  function Remove(q: Tq, x: nat): Tq
    requires x < |q.pool|
  {
    q.(pool := q.pool[x := q.pool[x].(skb := None, generation := (q.pool[x].generation + 1) % 256)],
       pending := Without(q.pending, x), free := [x] + q.free)
  }

  /** How many items at the head of the queue have waited for ttl or longer. */
  function Stale(pool: seq<Item>, queue: seq<nat>, now: nat, ttl: nat): (n: nat)
    requires Indices(pool, queue)
    ensures n <= |queue|
    ensures forall i :: 0 <= i < n ==> pool[queue[i]].stamp + ttl <= now
    ensures n < |queue| ==> now < pool[queue[n]].stamp + ttl
  {
    if queue == [] || now < pool[queue[0]].stamp + ttl then 0 else 1 + Stale(pool, queue[1..], now, ttl)
  }

  /** The first n waiting items dropped: their frames released, their slots to the free tail. */
  function Dropped(q: Tq, n: nat): Tq
    requires n <= |q.queue| && Indices(q.pool, q.queue)
  {
    q.(pool := Cleared(q.pool, q.queue[..n]), free := q.free + q.queue[..n], queue := q.queue[n..])
  }

  /** The pool with the frames of the listed items gone. */
  function Cleared(pool: seq<Item>, list: seq<nat>): (r: seq<Item>)
    requires Indices(pool, list)
    ensures |r| == |pool|
    ensures forall x :: 0 <= x < |pool| ==> r[x] == if x in list then pool[x].(skb := None) else pool[x]
  {
    if list == [] then pool
    else
      var x := list[|list| - 1];
      Cleared(pool, list[..|list| - 1])[x := pool[x].(skb := None)]
  }
}
