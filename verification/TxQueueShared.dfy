/** The queues of one device share a count of waiting items per interface. It is the sum over all
    the queues, and every step of any one of them keeps it so for all the others. */
module TxQueueShared {
  import opened TxQueueModel
  import opened TxQueueSteps
  import opened TxQueueCounters

  ghost predicate AllPartition(qs: seq<Tq>) {
    forall i :: 0 <= i < |qs| ==> Partition(qs[i])
  }

  /** How many items of an interface wait, in all the queues. */
  ghost function WaitingSum(qs: seq<Tq>, v: nat): nat
    requires AllPartition(qs)
  {
    if qs == [] then 0 else |Waiting(qs[0], OfVif(v))| + WaitingSum(qs[1..], v)
  }

  /** The shared count, eight bits per interface. */
  ghost predicate SharedCounted(qs: seq<Tq>, statsQueued: seq<nat>)
    requires AllPartition(qs)
  {
    |statsQueued| == MAX_VIFS && forall v :: 0 <= v < MAX_VIFS ==> statsQueued[v] == WaitingSum(qs, v) % 256
  }

  /** What waits in every queue but the i-th. */
  ghost function OthersOf(qs: seq<Tq>, i: nat): seq<nat>
    requires AllPartition(qs) && i < |qs|
  {
    seq(MAX_VIFS, v requires 0 <= v < MAX_VIFS => WaitingSum(qs[..i], v) + WaitingSum(qs[i + 1..], v))
  }

  lemma {:induction false} SumConcat(a: seq<Tq>, b: seq<Tq>, v: nat)
    requires AllPartition(a) && AllPartition(b)
    ensures AllPartition(a + b) && WaitingSum(a + b, v) == WaitingSum(a, v) + WaitingSum(b, v)
  {
    if a == [] {
      assert a + b == b;
    } else {
      assert (a + b)[1..] == a[1..] + b;
      SumConcat(a[1..], b, v);
    }
  }

  /** One queue's share of the sum. */
  lemma SumSplit(qs: seq<Tq>, i: nat, v: nat)
    requires AllPartition(qs) && i < |qs| && v < MAX_VIFS
    ensures WaitingSum(qs, v) == OthersOf(qs, i)[v] + |Waiting(qs[i], OfVif(v))|
  {
    var one := [qs[i]];
    assert qs == qs[..i] + one + qs[i + 1..];
    assert one[1..] == [];
    SumConcat(qs[..i], one, v);
    SumConcat(qs[..i] + one, qs[i + 1..], v);
  }

  /** The agreement of one queue's counters says the shared count is the sum. */
  lemma SharedIff(qs: seq<Tq>, i: nat, statsQueued: seq<nat>)
    requires AllPartition(qs) && i < |qs|
    ensures SharedCounted(qs, statsQueued) <==>
      |statsQueued| == MAX_VIFS
      && forall v :: 0 <= v < MAX_VIFS ==> statsQueued[v] == (OthersOf(qs, i)[v] + |Waiting(qs[i], OfVif(v))|) % 256
  {
    forall v | 0 <= v < MAX_VIFS
      ensures WaitingSum(qs, v) == OthersOf(qs, i)[v] + |Waiting(qs[i], OfVif(v))|
    {
      SumSplit(qs, i, v);
    }
  }

  /** After any step of the i-th queue that leaves its own counters in agreement, the shared count
      is again the sum. */
  lemma StepKeepsShared(qs: seq<Tq>, i: nat, q': Tq, c': Counters, cap: nat)
    requires AllPartition(qs) && i < |qs| && Partition(q') && Counted(q', c', OthersOf(qs, i), cap)
    ensures AllPartition(qs[i := q']) && SharedCounted(qs[i := q'], c'.statsQueued)
  {
    hide Copies;
    var now := qs[i := q'];
    assert now[..i] == qs[..i] && now[i + 1..] == qs[i + 1..];
    assert OthersOf(now, i) == OthersOf(qs, i);
    forall v | 0 <= v < MAX_VIFS
      ensures c'.statsQueued[v] == (OthersOf(now, i)[v] + |Waiting(now[i], OfVif(v))|) % 256
    {
      assert VifCounted(q', c', OthersOf(qs, i), v);
    }
    SharedIff(now, i, c'.statsQueued);
  }

  /** And so every other queue's counters stay in agreement, with the new sum over the others. */
  lemma StepKeepsOthers(qs: seq<Tq>, i: nat, q': Tq, c': Counters, j: nat, c: Counters, cap: nat, cap': nat)
    requires AllPartition(qs) && i < |qs| && j < |qs| && i != j
    requires Partition(q') && Counted(q', c', OthersOf(qs, i), cap')
    requires Counted(qs[j], c, OthersOf(qs, j), cap)
    ensures AllPartition(qs[i := q'])
    ensures Counted(qs[j], c.(statsQueued := c'.statsQueued), OthersOf(qs[i := q'], j), cap)
  {
    hide Partition, OthersOf, Waiting, Sent;
    StepKeepsShared(qs, i, q', c', cap');
    var now := qs[i := q'];
    SharedIff(now, j, c'.statsQueued);
    OthersShaped(now, j);
    forall v | 0 <= v < MAX_VIFS ensures VifCounted(qs[j], c.(statsQueued := c'.statsQueued), OthersOf(now, j), v) {
      assert VifCounted(qs[j], c, OthersOf(qs, j), v);
    }
  }

  lemma OthersShaped(qs: seq<Tq>, j: nat)
    requires AllPartition(qs) && j < |qs|
    ensures |OthersOf(qs, j)| == MAX_VIFS
  {}
}
