/** The receive reorder buffer of one traffic identifier, seen without the ring and
    without the 12-bit wrap: a window of 64 slots laid out from an unbounded start number.
    Slot k of a window holds the frame whose unbounded sequence number is start + k.
    ReorderRing.dfy proves that the 64-entry ring of hal/atbm_txrx.c computes these
    functions; ReorderRuns.dfy proves what they guarantee over whole runs. */
module ReorderWindow {
  import opened Options

  const SIZE: nat := 64            // BUFF_STORED_LEN
  const SEQ_MODULUS: nat := 4096   // SEQ_NUM_MASKER + 1
  const HALF_SPACE: nat := 2048    // THE_RETRY_PKG_INEDX

  /** A received frame: its identity and the 12-bit sequence number in its header. */
  datatype Frame = Frame(id: nat, sn: nat)

  /** One ring entry: the buffered frame, if any, and its time stamp (0 when not stamped). */
  datatype Slot = Slot(frame: Option<Frame>, stamp: nat)

  const EMPTY := Slot(None, 0)

  datatype Window = Window(start: nat, slots: seq<Slot>)

  /** A frame handed to the upper layer, with the unbounded number of the slot it came from. */
  datatype Passed = Passed(number: nat, frame: Frame)

  /** What one entry point does: the new window, the frames passed up in order, the frames
      freed, and the frame given back to the caller (return code 0), if any. */
  datatype Outcome = Outcome(window: Window, passed: seq<Passed>, freed: seq<Frame>, returned: Option<Frame>)

  // ---------------------------------------------------------------- building blocks

  function Empties(n: nat): seq<Slot> {
    seq(n, _ => EMPTY)
  }

  /** Moves the window forward by n slots. */
  function Advance(w: Window, n: nat): Window
    requires n <= |w.slots|
  {
    Window(w.start + n, w.slots[n..] + Empties(n))
  }

  function PassedFrom(f: Option<Frame>, number: nat): seq<Passed> {
    if f.Some? then [Passed(number, f.value)] else []
  }

  function FreedFrom(f: Option<Frame>): seq<Frame> {
    if f.Some? then [f.value] else []
  }

  /** The frames held by consecutive slots, numbered from start. */
  function Frames(start: nat, slots: seq<Slot>): seq<Passed>
    decreases slots
  {
    if slots == [] then []
    else PassedFrom(slots[0].frame, start) + Frames(start + 1, slots[1..])
  }

  /** How many slots from offset k on are filled without a gap. */
  function Run(slots: seq<Slot>, k: nat): (n: nat)
    requires k <= |slots|
    ensures k + n <= |slots|
    ensures forall i :: k <= i < k + n ==> slots[i].frame.Some?
    ensures k + n < |slots| ==> slots[k + n].frame.None?
    decreases |slots| - k
  {
    if k == |slots| || slots[k].frame.None? then 0 else 1 + Run(slots, k + 1)
  }

  function Filled(slots: seq<Slot>): (n: nat)
    ensures n <= |slots|
  {
    if slots == [] then 0
    else (if slots[0].frame.Some? then 1 else 0) + Filled(slots[1..])
  }

  /** One past the furthest filled slot among the first n. */
  function ReachBelow(slots: seq<Slot>, n: nat): (r: nat)
    requires n <= |slots|
    ensures r <= n
    ensures r > 0 ==> slots[r - 1].frame.Some?
    ensures forall k :: r <= k < n ==> slots[k].frame.None?
  {
    if n == 0 || slots[n - 1].frame.Some? then n else ReachBelow(slots, n - 1)
  }

  /** One past the furthest filled slot. */
  function Reach(slots: seq<Slot>): nat {
    ReachBelow(slots, |slots|)
  }

  /** The slots with every unstamped one at offsets lo to k stamped now. */
  function StampedFrom(slots: seq<Slot>, lo: nat, k: nat, now: nat): (r: seq<Slot>)
    ensures |r| == |slots|
  {
    seq(|slots|, i requires 0 <= i < |slots| =>
      if lo <= i <= k && slots[i].stamp == 0 then slots[i].(stamp := now) else slots[i])
  }

  /** Buffers a frame at offset k and stamps the trail that leads to it. */
  function Store(slots: seq<Slot>, k: nat, f: Frame, now: nat): (r: seq<Slot>)
    requires k < |slots|
    ensures |r| == |slots|
  {
    StampedFrom(slots[k := slots[k].(frame := Some(f))], 0, k, now)
  }

  /** Passes up the first n slots, then the gapless run that follows. */
  function ReleaseThenDrain(w: Window, n: nat): Outcome
    requires n <= |w.slots|
  {
    var m := n + Run(w.slots, n);
    Outcome(Advance(w, m), Frames(w.start, w.slots[..m]), [], None)
  }

  // ---------------------------------------------------------------- the entry points

  /** How far ahead of the window start a 12-bit number lies, modulo 4096. */
  function Distance(seqNum: nat, start: nat): (d: nat)
    ensures d < SEQ_MODULUS
  {
    (seqNum - start) % SEQ_MODULUS
  }

  function Receive(w: Window, f: Frame, now: nat): Outcome
    requires |w.slots| == SIZE
  {
    var d := Distance(f.sn, w.start);
    if d == 0 && Filled(w.slots) == 0 then
      Outcome(w.(start := w.start + 1), [], [], Some(f))
    else if d >= HALF_SPACE then
      Outcome(w, [], [f], None)
    else if d >= 2 * SIZE - 1 then
      Outcome(w, [], [], Some(f))
    else if d >= SIZE then
      var n := d - SIZE + 1;
      var moved := Advance(w, n);
      var o := ReleaseThenDrain(moved.(slots := Store(moved.slots, SIZE - 1, f, now)), 0);
      o.(passed := Frames(w.start, w.slots[..n]) + o.passed)
    else if w.slots[d].frame.Some? then
      Outcome(w, [], [f], None)
    else
      ReleaseThenDrain(w.(slots := Store(w.slots, d, f, now)), 0)
  }

  /** A frame that is `aside`, a fragment or a QoS null frame, never meets the buffer: it goes
      straight back to the caller. */
  function HandIn(w: Window, f: Frame, aside: bool, now: nat): Outcome
    requires |w.slots| == SIZE
  {
    if aside then Outcome(w, [], [], Some(f)) else Receive(w, f, now)
  }

  /** A BlockAckReq with starting sequence number ssn. One rule for the near and the far branch:
      everything before ssn goes up, then the run from ssn on. */
  function BlockAckRequest(w: Window, ssn: nat): Outcome
    requires |w.slots| == SIZE
  {
    var d := Distance(ssn, w.start);
    if d == 0 || d > HALF_SPACE then
      Outcome(w, [], [], None)
    else if d <= SIZE then
      ReleaseThenDrain(w, d)
    else
      Outcome(Window(w.start + d, Empties(SIZE)), Frames(w.start, w.slots), [], None)
  }

  /** How many slots from offset k on carry an expired stamp without interruption. */
  function ExpiredRun(slots: seq<Slot>, k: nat, now: nat, age: nat): (n: nat)
    requires k <= |slots|
    ensures k + n <= |slots|
    ensures forall i :: k <= i < k + n ==> Expired(slots[i], now, age)
    ensures k + n < |slots| ==> !Expired(slots[k + n], now, age)
    decreases |slots| - k
  {
    if k == |slots| || !Expired(slots[k], now, age) then 0 else 1 + ExpiredRun(slots, k + 1, now, age)
  }

  predicate Expired(s: Slot, now: nat, age: nat) {
    s.stamp > 0 && s.stamp + age <= now
  }

  /** The timeout handler: stamps at least `age` old have expired. */
  function Timeout(w: Window, now: nat, age: nat): Outcome
    requires |w.slots| == SIZE
  {
    ReleaseThenDrain(w, ExpiredRun(w.slots, 0, now, age))
  }

  const AMPDU_REORDER_TIME_INTERVAL: nat := 200

  /** The timeout of a session, from the one its ADDBA asks for. */
  function AgreedTimeout(asked: nat): (t: nat)
    ensures AMPDU_REORDER_TIME_INTERVAL / 2 <= t <= AMPDU_REORDER_TIME_INTERVAL * 2
    ensures t == if asked == 0 then 200 else if asked < 100 then 100 else if asked > 400 then 400 else asked
  {
    if asked == 0 then AMPDU_REORDER_TIME_INTERVAL
    else if asked >= AMPDU_REORDER_TIME_INTERVAL * 2 then AMPDU_REORDER_TIME_INTERVAL * 2
    else if asked < AMPDU_REORDER_TIME_INTERVAL / 2 then AMPDU_REORDER_TIME_INTERVAL / 2
    else asked
  }

  /** The frames held by consecutive slots, without their numbers. */
  function Frees(slots: seq<Slot>): seq<Frame> {
    if slots == [] then []
    else FreedFrom(slots[0].frame) + Frees(slots[1..])
  }

  // ---------------------------------------------------------------- invariants

  /** The stamped slots are exactly the prefix that ends at the furthest buffered frame. */
  ghost predicate Trail(slots: seq<Slot>) {
    forall k :: 0 <= k < |slots| ==> (slots[k].stamp > 0 <==> k < Reach(slots))
  }

  /** Stamps never decrease from head to tail. */
  ghost predicate StampsOrdered(slots: seq<Slot>) {
    forall i, j :: 0 <= i < j < |slots| && slots[j].stamp > 0 ==> slots[i].stamp <= slots[j].stamp
  }

  /** The frame in a slot is the one whose sequence number belongs there. */
  ghost predicate InPlace(w: Window) {
    forall k :: 0 <= k < |w.slots| && w.slots[k].frame.Some? ==>
      w.slots[k].frame.value.sn == (w.start + k) % SEQ_MODULUS
  }

  /** No stamp lies in the future. */
  ghost predicate StampsBy(slots: seq<Slot>, now: nat) {
    forall k :: 0 <= k < |slots| ==> slots[k].stamp <= now
  }

  /** Everything that holds between entry points, except that the head may be filled. */
  ghost predicate Sound(w: Window) {
    |w.slots| == SIZE && Trail(w.slots) && StampsOrdered(w.slots) && InPlace(w)
  }

  /** Everything that holds between entry points. */
  ghost predicate AtRest(w: Window) {
    Sound(w) && w.slots[0].frame.None?
  }

  // ---------------------------------------------------------------- lemmas on the building blocks

  /** Reach is the only number with its two properties. */
  lemma ReachUnique(slots: seq<Slot>, r: nat)
    requires r <= |slots|
    requires r > 0 ==> slots[r - 1].frame.Some?
    requires forall k :: r <= k < |slots| ==> slots[k].frame.None?
    ensures Reach(slots) == r
  {}

  /** Moving the window keeps the trail: it is shortened from the head. */
  lemma AdvanceSound(w: Window, n: nat)
    requires Sound(w) && n <= SIZE
    ensures Sound(Advance(w, n))
    ensures Reach(Advance(w, n).slots) == if Reach(w.slots) <= n then 0 else Reach(w.slots) - n
    ensures forall now :: StampsBy(w.slots, now) ==> StampsBy(Advance(w, n).slots, now)
  {
    hide InPlace;
    var v := Advance(w, n);
    assert forall k :: 0 <= k < SIZE - n ==> v.slots[k] == w.slots[k + n];
    assert forall k :: SIZE - n <= k < SIZE ==> v.slots[k] == EMPTY;
    ReachUnique(v.slots, if Reach(w.slots) <= n then 0 else Reach(w.slots) - n);
    AdvanceInPlace(w, n);
  }

  lemma AdvanceInPlace(w: Window, n: nat)
    requires |w.slots| == SIZE && InPlace(w) && n <= SIZE
    ensures InPlace(Advance(w, n))
  {
    var v := Advance(w, n);
    forall k | 0 <= k < SIZE && v.slots[k].frame.Some?
      ensures v.slots[k].frame.value.sn == (v.start + k) % SEQ_MODULUS
    {
      if k < SIZE - n {
        assert v.slots[k] == w.slots[k + n];
        assert (v.start + k) == w.start + (k + n);
      }
    }
  }

  /** What buffering does to each slot, before anything is known of the stamps. */
  lemma StoreSlot(slots: seq<Slot>, k: nat, f: Frame, now: nat, i: nat)
    requires k < |slots| && i < |slots|
    ensures Store(slots, k, f, now)[i] == Slot(
      if i == k then Some(f) else slots[i].frame,
      if i <= k && slots[i].stamp == 0 then now else slots[i].stamp)
  {}

  lemma StoreReach(slots: seq<Slot>, k: nat, f: Frame, now: nat)
    requires k < |slots|
    ensures Reach(Store(slots, k, f, now)) == if Reach(slots) <= k then k + 1 else Reach(slots)
  {
    var s := Store(slots, k, f, now);
    var r := if Reach(slots) <= k then k + 1 else Reach(slots);
    forall i | 0 <= i < |s| ensures i >= r ==> s[i].frame.None? {
      StoreSlot(slots, k, f, now, i);
    }
    StoreSlot(slots, k, f, now, r - 1);
    ReachUnique(s, r);
  }

  /** Buffering a frame extends the trail to it, or lands inside the trail. */
  lemma StoreTrail(slots: seq<Slot>, k: nat, f: Frame, now: nat)
    requires k < |slots| && Trail(slots) && StampsOrdered(slots) && now > 0 && StampsBy(slots, now)
    ensures Trail(Store(slots, k, f, now)) && StampsOrdered(Store(slots, k, f, now))
    ensures StampsBy(Store(slots, k, f, now), now)
  {
    var s := Store(slots, k, f, now);
    StoreReach(slots, k, f, now);
    forall i | 0 <= i < |s|
      ensures s[i].stamp == if i < Reach(slots) then slots[i].stamp else if i <= k then now else 0
    {
      StoreSlot(slots, k, f, now, i);
    }
  }

  lemma StoreSound(w: Window, k: nat, f: Frame, now: nat)
    requires Sound(w) && k < SIZE
    requires f.sn == (w.start + k) % SEQ_MODULUS
    requires now > 0 && StampsBy(w.slots, now)
    ensures Sound(w.(slots := Store(w.slots, k, f, now)))
    ensures StampsBy(Store(w.slots, k, f, now), now)
  {
    StoreTrail(w.slots, k, f, now);
    var v := w.(slots := Store(w.slots, k, f, now));
    forall i | 0 <= i < SIZE && v.slots[i].frame.Some?
      ensures v.slots[i].frame.value.sn == (v.start + i) % SEQ_MODULUS
    {
      StoreSlot(w.slots, k, f, now, i);
    }
  }

  lemma FilledZero(slots: seq<Slot>)
    ensures Filled(slots) == 0 <==> forall k :: 0 <= k < |slots| ==> slots[k].frame.None?
  {
    if slots != [] {
      FilledZero(slots[1..]);
      if Filled(slots) == 0 {
        forall k | 0 <= k < |slots| ensures slots[k].frame.None? {
          if k > 0 { assert slots[k] == slots[1..][k - 1]; }
        }
      }
    }
  }

  lemma FilledConcat(a: seq<Slot>, b: seq<Slot>)
    ensures Filled(a + b) == Filled(a) + Filled(b)
  {
    if a == [] {
      assert a + b == b;
    } else {
      assert (a + b)[1..] == a[1..] + b;
      FilledConcat(a[1..], b);
    }
  }

  /** Stamping fills no slot. */
  lemma {:induction false} SameFramesSameFilled(a: seq<Slot>, b: seq<Slot>)
    requires |a| == |b| && forall i :: 0 <= i < |a| ==> a[i].frame == b[i].frame
    ensures Filled(a) == Filled(b)
  {
    if a != [] { SameFramesSameFilled(a[1..], b[1..]); }
  }

  lemma FilledStore(slots: seq<Slot>, k: nat, f: Frame, now: nat)
    requires k < |slots| && slots[k].frame.None?
    ensures Filled(Store(slots, k, f, now)) == Filled(slots) + 1
  {
    var put := slots[k := slots[k].(frame := Some(f))];
    SameFramesSameFilled(Store(slots, k, f, now), put);
    var a, b := slots[..k], slots[k + 1..];
    assert slots == a + ([slots[k]] + b) && put == a + ([put[k]] + b);
    FilledConcat(a, [slots[k]] + b);
    FilledConcat(a, [put[k]] + b);
    FilledConcat([slots[k]], b);
    FilledConcat([put[k]], b);
  }

  lemma FramesConcat(start: nat, a: seq<Slot>, b: seq<Slot>)
    ensures Frames(start, a + b) == Frames(start, a) + Frames(start + |a|, b)
    decreases a
  {
    if a == [] {
      assert a + b == b;
    } else {
      assert (a + b)[1..] == a[1..] + b;
      FramesConcat(start + 1, a[1..], b);
    }
  }

  lemma FramesOfNone(start: nat, slots: seq<Slot>)
    requires Filled(slots) == 0
    ensures Frames(start, slots) == []
    decreases slots
  {
    if slots != [] { FramesOfNone(start + 1, slots[1..]); }
  }

  ghost predicate Increasing(ps: seq<Passed>) {
    forall i, j :: 0 <= i < j < |ps| ==> ps[i].number < ps[j].number
  }

  /** The passed frames are exactly those the window holds below number `end`, in order. */
  ghost predicate Delivers(w: Window, end: nat, ps: seq<Passed>) {
    && Increasing(ps)
    && forall p :: p in ps <==>
         w.start <= p.number < end && p.number - w.start < |w.slots|
         && w.slots[p.number - w.start].frame == Some(p.frame)
  }

  /** Frames lists exactly the filled slots, in strictly increasing order of their numbers. */
  lemma {:induction false} FramesSpec(start: nat, slots: seq<Slot>)
    ensures Increasing(Frames(start, slots))
    ensures forall p :: p in Frames(start, slots) <==>
              start <= p.number < start + |slots| && slots[p.number - start].frame == Some(p.frame)
    decreases slots
  {
    if slots != [] {
      var rest: seq<Passed> := Frames(start + 1, slots[1..]);
      FramesSpec(start + 1, slots[1..]);
      var here: seq<Passed> := PassedFrom(slots[0].frame, start);
      assert Frames(start, slots) == here + rest;
      forall i, j | 0 <= i < j < |here + rest| ensures (here + rest)[i].number < (here + rest)[j].number {
        assert (here + rest)[j] == rest[j - |here|];
        assert (here + rest)[j] in rest;
        if i >= |here| { assert (here + rest)[i] == rest[i - |here|]; }
      }
      forall p ensures p in Frames(start, slots) <==>
              start <= p.number < start + |slots| && slots[p.number - start].frame == Some(p.frame)
      {
        if p.number > start {
          assert p.number < start + |slots| ==> slots[p.number - start] == slots[1..][p.number - (start + 1)];
        }
      }
    }
  }
}
