/** The transmit queues of one device at work on the count they share. */
module TxQueueDevice {
  import opened TxQueueModel
  import opened TxQueueCounters
  import opened TxQueueShared
  import opened TxQueue

  /** Different queues, each with its own pool, on one shared count. */
  ghost predicate Apart(qs: seq<Queue>, stats: QueueStats) {
    && (forall i :: 0 <= i < |qs| ==> qs[i].stats == stats)
    && (forall i, j :: 0 <= i < j < |qs| ==> qs[i] != qs[j] && qs[i].pool != qs[j].pool)
  }

  ghost function Pools(qs: seq<Queue>): set<object> {
    set i | 0 <= i < |qs| :: qs[i].pool
  }

  ghost function Views(qs: seq<Queue>): (vs: seq<Tq>)
    reads qs, Pools(qs)
    ensures |vs| == |qs| && forall i :: 0 <= i < |qs| ==> vs[i] == qs[i].View()
  {
    seq(|qs|, i requires 0 <= i < |qs| reads qs, Pools(qs) => qs[i].View())
  }

  /** The i-th queue is valid, and knows what waits in the others. */
  ghost predicate Knows(q: Queue, views: seq<Tq>, i: nat)
    reads q, q.pool, q.stats
  {
    q.Valid() && AllPartition(views) && i < |views| && views[i] == q.View() && q.others == OthersOf(views, i)
  }

  /** All queues are valid at once. */
  ghost predicate Together(qs: seq<Queue>, stats: QueueStats)
    reads qs, Pools(qs), stats
  {
    Apart(qs, stats) && forall i :: 0 <= i < |qs| ==> Knows(qs[i], Views(qs), i)
  }

  /** What stands of a queue that another one has stepped past. */
  ghost predicate Behind(q: Queue, views: seq<Tq>, i: nat)
    reads q, q.pool, q.stats
  {
    && AllPartition(views) && i < |views| && views[i] == q.View()
    && WellFormed(q.View(), q.stats.mapCapacity) && q.stats.mapCapacity <= 16
    && Counted(q.View(), q.Tally(), OthersOf(views, i), q.stats.mapCapacity)
    && Hysteresis(q.numQueued, q.overfull, q.stats.throttle, q.pool.Length) && q.Locked() && q.Timed()
    && Sized(q.stats.throttle, q.pool.Length)
  }

  /** The step of the i-th queue leaves what it knows of the others in place. */
  lemma OthersStay(qs: seq<Tq>, i: nat, q': Tq)
    requires AllPartition(qs) && i < |qs| && Partition(q')
    ensures AllPartition(qs[i := q']) && OthersOf(qs[i := q'], i) == OthersOf(qs, i)
  {
    var now := qs[i := q'];
    assert now[..i] == qs[..i] && now[i + 1..] == qs[i + 1..];
  }

  /** One queue is told. */
  ghost method Tell(q: Queue, views: seq<Tq>, i: nat)
    requires Behind(q, views, i)
    modifies q`others
    ensures Knows(q, views, i) && q.View() == old(q.View()) && q.Flags() == old(q.Flags())
  {
    q.Follow(OthersOf(views, i));
  }

  /** Every other queue is told of the step of the i-th. */
  ghost method FollowAll(qs: seq<Queue>, stats: QueueStats, i: nat)
    requires Apart(qs, stats) && i < |qs| && Knows(qs[i], Views(qs), i)
    requires forall j :: 0 <= j < |qs| && j != i ==> Behind(qs[j], Views(qs), j)
    modifies qs
    ensures Together(qs, stats) && Views(qs) == old(Views(qs))
    ensures forall j :: 0 <= j < |qs| ==> qs[j].Flags() == old(qs[j].Flags())
  {
    hide Knows, Behind, WellFormed, Counted, AllPartition, OthersOf;
    ghost var views := Views(qs);
    for j := 0 to |qs|
      invariant forall k :: 0 <= k < |qs| && (k < j || k == i) ==> Knows(qs[k], views, k)
      invariant forall k :: j <= k < |qs| && k != i ==> Behind(qs[k], views, k)
      invariant forall k :: 0 <= k < |qs| ==> qs[k].View() == views[k] && qs[k].Flags() == old(qs[k].Flags())
    {
      if j != i {
        Tell(qs[j], views, j);
      }
    }
    assert Views(qs) == views;
  }

  ghost function Tallies(qs: seq<Queue>, stats: QueueStats): (cs: seq<Counters>)
    requires Apart(qs, stats)
    reads qs, stats
    ensures |cs| == |qs| && forall i :: 0 <= i < |qs| ==> cs[i] == qs[i].Tally()
  {
    seq(|qs|, i requires 0 <= i < |qs| && Apart(qs, stats) reads qs, stats => qs[i].Tally())
  }

  /** A queue that was valid before another one stepped and has not been touched since; only the
      shared count may have changed. */
  ghost predicate Passed(q: Queue, stats: QueueStats, before: seq<Tq>, c: Counters, j: nat)
    requires AllPartition(before)
    reads q, q.pool, q.stats, stats
  {
    && j < |before| && before[j] == q.View() && q.stats == stats
    && WellFormed(before[j], stats.mapCapacity) && Counted(before[j], c, OthersOf(before, j), stats.mapCapacity)
    && q.Tally() == c.(statsQueued := stats.numQueued)
    && stats.mapCapacity <= 16
    && Hysteresis(q.numQueued, q.overfull, stats.throttle, q.pool.Length) && q.Locked() && q.Timed()
    && Sized(stats.throttle, q.pool.Length)
  }

  /** After a step of the i-th queue alone, all others can be told. */
  lemma StepsAlone(qs: seq<Queue>, stats: QueueStats, i: nat, before: seq<Tq>, cs: seq<Counters>)
    requires Apart(qs, stats) && i < |qs| == |before| == |cs| && AllPartition(before)
    requires qs[i].Valid() && qs[i].others == OthersOf(before, i)
    requires forall j :: 0 <= j < |qs| && j != i ==> Passed(qs[j], stats, before, cs[j], j)
    ensures Knows(qs[i], Views(qs), i)
    ensures forall j :: 0 <= j < |qs| && j != i ==> Behind(qs[j], Views(qs), j)
  {
    hide Counted, Hysteresis, OthersOf, AllPartition;
    var q', c', cap := qs[i].View(), qs[i].Tally(), stats.mapCapacity;
    assert Partition(q') && Counted(q', c', OthersOf(before, i), cap);
    OthersStay(before, i, q');
    StepKeepsShared(before, i, q', c', cap);
    var now := before[i := q'];
    forall j | 0 <= j < |qs| && j != i ensures Behind(qs[j], now, j) {
      assert Passed(qs[j], stats, before, cs[j], j);
      StepKeepsOthers(before, i, q', c', j, cs[j], cap, cap);
    }
    assert Views(qs) == now by {
      forall j | 0 <= j < |qs| && j != i ensures Views(qs)[j] == now[j] {
        assert Passed(qs[j], stats, before, cs[j], j);
      }
    }
  }

  lemma ValidMember(qs: seq<Queue>, stats: QueueStats, i: nat)
    requires Together(qs, stats) && i < |qs|
    ensures qs[i].Valid() && qs[i].stats == stats
  {
    assert Knows(qs[i], Views(qs), i);
  }

  const QUEUES: nat := 4
  const MAX_QUEUE_SZ: nat := 64   // ATBM_WIFI_MAX_QUEUE_SZ
  const LINK_ID_MAX: nat := 16   // WLAN_LINK_ID_MAX

  lemma {:induction false} NothingWaitsIn(views: seq<Tq>, v: nat)
    requires AllPartition(views) && forall i :: 0 <= i < |views| ==> views[i].queue == []
    ensures WaitingSum(views, v) == 0
  {
    if views != [] { NothingWaitsIn(views[1..], v); }
  }

  /** Nothing waits in any other queue. */
  lemma NothingElsewhere(views: seq<Tq>, i: nat)
    requires AllPartition(views) && i < |views| && forall k :: 0 <= k < |views| ==> views[k].queue == []
    ensures OthersOf(views, i) == NOTHING
  {
    forall v | 0 <= v < MAX_VIFS ensures OthersOf(views, i)[v] == 0 {
      NothingWaitsIn(views[..i], v);
      NothingWaitsIn(views[i + 1..], v);
    }
  }

  const NOTHING := seq(MAX_VIFS, _ => 0)

  /** A queue as it starts, next to others that hold nothing. */
  ghost predicate Started(q: Queue, stats: QueueStats, i: nat)
    reads q, q.pool, q.stats
  {
    q.stats == stats && q.Valid() && q.others == NOTHING && q.queueId == i && q.queue == [] && q.pending == []
  }

  /** One of them. */
  method Start(stats: QueueStats, i: nat) returns (q: Queue)
    requires i < 16 && stats.throttle == MAX_QUEUE_SZ && stats.mapCapacity == LINK_ID_MAX && stats.numQueued == NOTHING
    ensures fresh(q) && fresh(q.pool) && Started(q, stats, i)
  {
    q := new Queue(stats, i, MAX_QUEUE_SZ);
  }

  lemma StartTogether(qs: seq<Queue>, stats: QueueStats)
    requires Apart(qs, stats) && forall i :: 0 <= i < |qs| ==> Started(qs[i], stats, i)
    ensures Together(qs, stats)
    ensures forall i :: 0 <= i < |qs| ==> qs[i].queueId == i && qs[i].queue == [] && qs[i].pending == []
  {
    hide Counted, OthersOf, Hysteresis;
    var views := Views(qs);
    forall i | 0 <= i < |qs| ensures views[i].queue == [] && Partition(views[i]) {
      assert Started(qs[i], stats, i);
    }
    forall i | 0 <= i < |qs| ensures Knows(qs[i], views, i) {
      assert Started(qs[i], stats, i);
      NothingElsewhere(views, i);
    }
  }

  /** The device's four queues as they start. */
  method Init() returns (qs: seq<Queue>, stats: QueueStats)
    ensures |qs| == QUEUES && Together(qs, stats)
    ensures forall i :: 0 <= i < |qs| ==> qs[i].queueId == i && qs[i].queue == [] && qs[i].pending == []
  {
    hide Together, Started;
    stats := new QueueStats(LINK_ID_MAX, MAX_QUEUE_SZ);
    qs := [];
    for i := 0 to QUEUES
      invariant |qs| == i && Apart(qs, stats) && stats.numQueued == NOTHING
      invariant forall k :: 0 <= k < i ==> Started(qs[k], stats, k)
    {
      var q := Start(stats, i);
      qs := qs + [q];
    }
    StartTogether(qs, stats);
  }

  /** atbmwifi_queue_put on one of the device's queues: that queue takes the frame as it does alone,
      and all of them stay valid together. */
  method PutTo(qs: seq<Queue>, stats: QueueStats, i: nat, skb: nat, p: TxPriv, now: nat) returns (ret: Ret)
    requires Together(qs, stats) && i < |qs| && p.ifId < MAX_VIFS && (p.rawLinkId == p.linkId || p.rawLinkId == 0)
    modifies qs, qs[i].pool, stats
    ensures Together(qs, stats)
    ensures ret == if p.linkId >= stats.mapCapacity then Einval else if old(qs[i].freePool) == [] then Enoent else Ok
    ensures qs[i].View() == if ret.Ok? then TxQueueModel.Put(old(qs[i].View()), skb, p, now) else old(qs[i].View())
    ensures forall j :: 0 <= j < |qs| && j != i ==>
      qs[j].View() == old(qs[j].View()) && qs[j].Flags() == old(qs[j].Flags())
  {
    hide WellFormed, Counted;
    ghost var before, cs := Views(qs), Tallies(qs, stats);
    ValidMember(qs, stats, i);
    ret := qs[i].Put(skb, p, now);
    forall j | 0 <= j < |qs| && j != i ensures Passed(qs[j], stats, before, cs[j], j) {
      assert old(Knows(qs[j], before, j));
    }
    StepsAlone(qs, stats, i, before, cs);
    FollowAll(qs, stats, i);
  }
}
