/** The reorder buffer over whole runs: frames of every kind, BlockAckReqs, timeouts, and sessions
    that start and end, in any order. */
module ReorderRuns {
  import opened Options
  import opened ReorderWindow
  import opened ReorderTimers
  import opened ReorderSteps

  // ---------------------------------------------------------------- conservation

  // Frames are counted: how many copies of a frame x each place holds.

  function One(x: Frame, f: Frame): nat {
    if x == f then 1 else 0
  }

  function InSlots(x: Frame, slots: seq<Slot>): nat {
    if slots == [] then 0
    else (if slots[0].frame == Some(x) then 1 else 0) + InSlots(x, slots[1..])
  }

  function InPassed(x: Frame, ps: seq<Passed>): nat {
    if ps == [] then 0 else One(x, ps[0].frame) + InPassed(x, ps[1..])
  }

  function InFreed(x: Frame, fs: seq<Frame>): nat {
    if fs == [] then 0 else One(x, fs[0]) + InFreed(x, fs[1..])
  }

  lemma InPassedConcat(x: Frame, a: seq<Passed>, b: seq<Passed>)
    ensures InPassed(x, a + b) == InPassed(x, a) + InPassed(x, b)
  {
    if a == [] {
      assert a + b == b;
    } else {
      assert (a + b)[1..] == a[1..] + b;
      InPassedConcat(x, a[1..], b);
    }
  }

  lemma InFreedConcat(x: Frame, a: seq<Frame>, b: seq<Frame>)
    ensures InFreed(x, a + b) == InFreed(x, a) + InFreed(x, b)
  {
    if a == [] {
      assert a + b == b;
    } else {
      assert (a + b)[1..] == a[1..] + b;
      InFreedConcat(x, a[1..], b);
    }
  }

  lemma InSlotsConcat(x: Frame, a: seq<Slot>, b: seq<Slot>)
    ensures InSlots(x, a + b) == InSlots(x, a) + InSlots(x, b)
  {
    if a == [] {
      assert a + b == b;
    } else {
      assert (a + b)[1..] == a[1..] + b;
      InSlotsConcat(x, a[1..], b);
    }
  }

  lemma {:induction false} FramesCount(x: Frame, start: nat, slots: seq<Slot>)
    ensures InPassed(x, Frames(start, slots)) == InSlots(x, slots)
    decreases slots
  {
    if slots != [] {
      FramesCount(x, start + 1, slots[1..]);
      var here := PassedFrom(slots[0].frame, start);
      InPassedConcat(x, here, Frames(start + 1, slots[1..]));
    }
  }

  lemma EmptiesHoldNothing(x: Frame, n: nat)
    ensures InSlots(x, Empties(n)) == 0
  {
    if n > 0 {
      assert Empties(n)[1..] == Empties(n - 1);
      EmptiesHoldNothing(x, n - 1);
    }
  }

  /** Stamping changes no frame. */
  lemma {:induction false} SameFramesSameCount(x: Frame, a: seq<Slot>, b: seq<Slot>)
    requires |a| == |b| && forall i :: 0 <= i < |a| ==> a[i].frame == b[i].frame
    ensures InSlots(x, a) == InSlots(x, b)
  {
    if a != [] { SameFramesSameCount(x, a[1..], b[1..]); }
  }

  lemma StoreAddsOne(x: Frame, slots: seq<Slot>, k: nat, f: Frame, now: nat)
    requires k < |slots| && slots[k].frame.None?
    ensures InSlots(x, Store(slots, k, f, now)) == InSlots(x, slots) + One(x, f)
  {
    var put := slots[k := slots[k].(frame := Some(f))];
    SameFramesSameCount(x, Store(slots, k, f, now), put);
    var a, b := slots[..k], slots[k + 1..];
    assert slots == a + ([slots[k]] + b) && put == a + ([put[k]] + b);
    InSlotsConcat(x, a, [slots[k]] + b);
    InSlotsConcat(x, a, [put[k]] + b);
    InSlotsConcat(x, [slots[k]], b);
    InSlotsConcat(x, [put[k]], b);
  }

  lemma AdvanceConserves(x: Frame, w: Window, n: nat)
    requires n <= |w.slots|
    ensures InSlots(x, w.slots) == InPassed(x, Frames(w.start, w.slots[..n])) + InSlots(x, Advance(w, n).slots)
  {
    assert w.slots == w.slots[..n] + w.slots[n..];
    InSlotsConcat(x, w.slots[..n], w.slots[n..]);
    InSlotsConcat(x, w.slots[n..], Empties(n));
    EmptiesHoldNothing(x, n);
    FramesCount(x, w.start, w.slots[..n]);
  }

  lemma ReleaseConserves(x: Frame, w: Window, n: nat)
    requires n <= |w.slots|
    ensures var o := ReleaseThenDrain(w, n);
      InSlots(x, w.slots) == InPassed(x, o.passed) + InSlots(x, o.window.slots)
  {
    hide Run, Frames, InSlots, InPassed;
    AdvanceConserves(x, w, n + Run(w.slots, n));
  }

  lemma StoreAndDrainConserves(x: Frame, w: Window, k: nat, f: Frame, now: nat)
    requires k < |w.slots| && w.slots[k].frame.None?
    ensures var o := ReleaseThenDrain(w.(slots := Store(w.slots, k, f, now)), 0);
      InSlots(x, w.slots) + One(x, f) == InPassed(x, o.passed) + InSlots(x, o.window.slots)
  {
    StoreAddsOne(x, w.slots, k, f, now);
    ReleaseConserves(x, w.(slots := Store(w.slots, k, f, now)), 0);
  }

  lemma OverflowConserves(x: Frame, w: Window, f: Frame, now: nat)
    requires |w.slots| == SIZE && SIZE <= Distance(f.sn, w.start) < 2 * SIZE - 1
    ensures var o := Receive(w, f, now);
      InSlots(x, w.slots) + One(x, f) == InPassed(x, o.passed) + InSlots(x, o.window.slots)
  {
    hide Run, Frames, InSlots, Filled, Store, ReleaseThenDrain;
    var n := Distance(f.sn, w.start) - SIZE + 1;
    var moved := Advance(w, n);
    AdvanceConserves(x, w, n);
    StoreAndDrainConserves(x, moved, SIZE - 1, f, now);
    var a, o := Frames(w.start, w.slots[..n]),
      ReleaseThenDrain(moved.(slots := Store(moved.slots, SIZE - 1, f, now)), 0);
    InPassedConcat(x, a, o.passed);
  }

  /** Every frame handed in is exactly one of passed up, freed, still buffered, or returned;
      a returned frame is the one handed in, and then nothing else happens to any frame. */
  lemma ReceiveConserves(x: Frame, w: Window, f: Frame, now: nat)
    requires |w.slots| == SIZE
    ensures var o := Receive(w, f, now);
      && InSlots(x, w.slots) + One(x, f)
         == InPassed(x, o.passed) + InFreed(x, o.freed) + InSlots(x, o.window.slots)
            + (if o.returned == Some(x) then 1 else 0)
      && (o.returned.Some? ==> o.returned.value == f && o.passed == [] && o.freed == [])
  {
    var d := Distance(f.sn, w.start);
    if SIZE <= d < 2 * SIZE - 1 {
      OverflowConserves(x, w, f, now);
    } else if d < SIZE && w.slots[d].frame.None? && !(d == 0 && Filled(w.slots) == 0) {
      StoreAndDrainConserves(x, w, d, f, now);
    }
  }

  /** A BlockAckReq only moves frames from the buffer to the upper layer. */
  lemma BlockAckConserves(x: Frame, w: Window, ssn: nat)
    requires |w.slots| == SIZE
    ensures var o := BlockAckRequest(w, ssn);
      InSlots(x, w.slots) == InPassed(x, o.passed) + InSlots(x, o.window.slots) && o.freed == []
  {
    var d := Distance(ssn, w.start);
    if 0 < d <= SIZE {
      ReleaseConserves(x, w, d);
    } else if d > SIZE {
      EmptiesHoldNothing(x, SIZE);
      FramesCount(x, w.start, w.slots);
    }
  }

  /** Freeing the whole buffer frees what it holds. */
  lemma FreesCount(x: Frame, slots: seq<Slot>)
    ensures InFreed(x, Frees(slots)) == InSlots(x, slots)
  {
    if slots != [] { InFreedConcat(x, FreedFrom(slots[0].frame), Frees(slots[1..])); }
  }

  // ---------------------------------------------------------------- runs

  /** The block-ack session of one traffic identifier: whether there is one, its window, its
      timeout, and when the registered timeouts are due. Without one the window holds nothing. */
  datatype Session = Session(on: bool, window: Window, timeout: nat, timers: multiset<nat>)

  /** What happens to it. Frames, BlockAckReqs and ADDBAs carry their true, unbounded number; the
      driver sees only the low 12 bits. An expiry is the firing of a timeout that was registered. */
  datatype Event =
    | Arrival(number: nat, id: nat, fragment: bool, qosNull: bool, now: nat)
    | BlockAck(number: nat, now: nat)
    | Expiry(due: nat, now: nat)
    | AddBa(number: nat, asked: nat)
    | DelBa

  function OnAir(e: Event): Frame
    requires e.Arrival?
  {
    Frame(e.id, e.number % SEQ_MODULUS)
  }

  /** A step of the driver and of its caller, who passes up the frames it gets back. */
  datatype Play = Play(session: Session, up: seq<Passed>, freed: seq<Frame>)

  ghost predicate Shaped(s: Session) {
    |s.window.slots| == SIZE && (!s.on ==> Filled(s.window.slots) == 0)
  }

  /** A frame that is handed straight back, for whatever reason before its number is looked at. */
  predicate Aside(s: Session, e: Event)
    requires e.Arrival?
  {
    !s.on || e.fragment || e.qosNull
  }

  function Step(s: Session, e: Event): (r: Play)
    requires |s.window.slots| == SIZE
    ensures |r.session.window.slots| == SIZE
  {
    match e
    case Arrival(number, _, _, _, now) =>
      if Aside(s, e) then Play(s, [Passed(number, OnAir(e))], [])
      else
        var o := Receive(s.window, OnAir(e), now);
        var timers := TimersAfterFrame(s.timers, s.window, o, s.timeout, now);
        Play(s.(window := o.window, timers := timers), Upward(s.window, OnAir(e), o), o.freed)
    case BlockAck(number, now) =>
      if !s.on then Play(s, [], [])
      else
        var ssn := number % SEQ_MODULUS;
        var o := BlockAckRequest(s.window, ssn);
        var timers := TimersAfterBar(s.timers, s.window, ssn, o, s.timeout, now);
        Play(s.(window := o.window, timers := timers), o.passed, o.freed)
    case Expiry(due, now) =>
      if due !in s.timers then Play(s, [], [])
      else if !s.on then Play(s.(timers := s.timers - multiset{due}), [], [])
      else
        var o := Timeout(s.window, now, s.timeout / 2);
        var timers := TimersAfterExpiry(s.timers, due, o, s.timeout, now);
        Play(s.(window := o.window, timers := timers), o.passed, o.freed)
    case AddBa(number, asked) =>
      if s.on then Play(s, [], [])
      else Play(Session(true, Window(number, Empties(SIZE)), AgreedTimeout(asked), s.timers), [], [])
    case DelBa =>
      if !s.on then Play(s, [], [])
      else
        var timers := if Filled(s.window.slots) > 0 then multiset{} else s.timers;
        Play(Session(false, Window(0, Empties(SIZE)), s.timeout, timers), [], Frees(s.window.slots))
  }

  function Replay(s: Session, es: seq<Event>): Play
    requires |s.window.slots| == SIZE
    decreases es
  {
    if es == [] then Play(s, [], [])
    else
      var first := Step(s, es[0]);
      var rest := Replay(first.session, es[1..]);
      Play(rest.session, first.up + rest.up, first.freed + rest.freed)
  }

  /** The clock of a run: positive and never going back. */
  ghost predicate Clocked(es: seq<Event>, clock: nat)
    decreases es
  {
    es == [] || (Timely(es[0], clock) && Clocked(es[1..], Later(es[0], clock)))
  }

  predicate Timely(e: Event, clock: nat) {
    (e.Arrival? ==> e.now > 0 && clock <= e.now) && (e.Expiry? || e.BlockAck? ==> clock <= e.now)
  }

  /** The clock after an event. */
  function Later(e: Event, clock: nat): nat {
    if e.Arrival? || e.BlockAck? || e.Expiry? then e.now else clock
  }

  /** Everything passed up so far lies below this: the window start while there is a session,
      what was reached before otherwise. */
  function Floor(s: Session, reached: nat): nat {
    if s.on then s.window.start else reached
  }

  /** What has been reached after an event. */
  function Reached(s: Session, e: Event, reached: nat): nat {
    if e.Arrival? && !s.on then e.number + 1 else Floor(s, reached)
  }

  /** What has been reached after a run. */
  function ReachedBy(s: Session, es: seq<Event>, reached: nat): nat
    requires |s.window.slots| == SIZE
    decreases es
  {
    if es == [] then reached else ReachedBy(Step(s, es[0]).session, es[1..], Reached(s, es[0], reached))
  }

  /** The events that keep the order: a frame of a session is neither a fragment nor a QoS null
      frame and lies within 2048 of the window start but not 127 or more ahead; outside a session
      frames come in order; and a session starts where the last one left off, or later. */
  predicate Orderly(s: Session, e: Event, reached: nat) {
    match e
    case Arrival(number, _, fragment, qosNull, _) =>
      if s.on then !fragment && !qosNull && s.window.start <= number + HALF_SPACE
        && number < s.window.start + 2 * SIZE - 1
      else reached <= number
    case AddBa(number, _) => s.on || reached <= number
    case _ => true
  }

  ghost predicate AllOrderly(s: Session, es: seq<Event>, reached: nat)
    requires |s.window.slots| == SIZE
    decreases es
  {
    es != [] ==>
      Orderly(s, es[0], reached) && AllOrderly(Step(s, es[0]).session, es[1..], Reached(s, es[0], reached))
  }

  /** Everything that holds between events. */
  ghost predicate Settled(s: Session) {
    AtRest(s.window) && Shaped(s)
  }

  /** Twelve bits are enough: within 2048 of the window start the distance computed from the
      wrapped numbers is the true one, or marks the frame as old. */
  lemma TwelveBitsSuffice(number: nat, start: nat)
    requires start <= number + HALF_SPACE && number < start + HALF_SPACE
    ensures var d := Distance(number % SEQ_MODULUS, start);
      if number >= start then d == number - start else d >= HALF_SPACE
  {}

  /** Where a passed frame comes from: the initial window, or an arrival with that very number. */
  ghost predicate FromRun(s: Session, es: seq<Event>, p: Passed) {
    || Buffered(s.window, p)
    || exists e :: e in es && e.Arrival? && e.number == p.number && OnAir(e) == p.frame
  }

  ghost predicate Buffered(w: Window, p: Passed) {
    w.start <= p.number && p.number - w.start < |w.slots|
    && w.slots[p.number - w.start].frame == Some(p.frame)
  }

  lemma AdvanceBuffered(w: Window, n: nat)
    requires n <= |w.slots|
    ensures forall p :: Buffered(Advance(w, n), p) ==> Buffered(w, p)
  {
    var v := Advance(w, n);
    assert forall k :: 0 <= k < |w.slots| - n ==> v.slots[k] == w.slots[k + n];
  }

  /** The frame itself, under the number the window gives it, or one already buffered. */
  ghost predicate FromBufferOr(w: Window, f: Frame, p: Passed) {
    Buffered(w, p) || p == Passed(w.start + Distance(f.sn, w.start), f)
  }

  /** A frame enters the window, or comes straight back, under its own number. */
  lemma ReceiveSources(w: Window, f: Frame, now: nat)
    requires AtRest(w) && now > 0 && StampsBy(w.slots, now) && f.sn < SEQ_MODULUS
    ensures var o := Receive(w, f, now);
      && (forall p :: p in Upward(w, f, o) ==> FromBufferOr(w, f, p))
      && (forall p :: Buffered(o.window, p) ==> FromBufferOr(w, f, p))
  {
    hide Trail, InPlace, StampsOrdered, StampsBy, Reach, Store, Run, ReleaseThenDrain;
    var d := Distance(f.sn, w.start);
    if d == 0 && Filled(w.slots) == 0 {
      BareWindowRests(w, w.start + 1);
    } else if SIZE <= d < 2 * SIZE - 1 {
      OverflowSources(w, f, now);
    } else if d < SIZE && w.slots[d].frame.None? {
      StoreAndDrainSources(w, d, f, now);
    }
  }

  lemma OverflowSources(w: Window, f: Frame, now: nat)
    requires AtRest(w) && now > 0 && StampsBy(w.slots, now) && f.sn < SEQ_MODULUS
    requires SIZE <= Distance(f.sn, w.start) < 2 * SIZE - 1
    ensures var o := Receive(w, f, now);
      && (forall p :: p in o.passed ==> FromBufferOr(w, f, p))
      && (forall p :: Buffered(o.window, p) ==> FromBufferOr(w, f, p))
  {
    hide Trail, InPlace, StampsOrdered, StampsBy, Reach, Store, Run, ReleaseThenDrain;
    var n := Distance(f.sn, w.start) - SIZE + 1;
    var moved := Advance(w, n);
    AdvanceSound(w, n);
    AdvanceBuffered(w, n);
    StoreAndDrainSources(moved, SIZE - 1, f, now);
    var o := ReleaseThenDrain(moved.(slots := Store(moved.slots, SIZE - 1, f, now)), 0);
    var a: seq<Passed> := Frames(w.start, w.slots[..n]);
    forall p | p in a ensures Buffered(w, p) {
      ReleasesDeliver(w, n);
    }
    assert Receive(w, f, now) == o.(passed := a + o.passed);
  }

  lemma StoreAndDrainSources(w: Window, k: nat, f: Frame, now: nat)
    requires Sound(w) && k < SIZE && f.sn == (w.start + k) % SEQ_MODULUS
    requires now > 0 && StampsBy(w.slots, now)
    ensures var o := ReleaseThenDrain(w.(slots := Store(w.slots, k, f, now)), 0);
      && (forall p :: p in o.passed ==> Buffered(w, p) || p == Passed(w.start + k, f))
      && (forall p :: Buffered(o.window, p) ==> Buffered(w, p) || p == Passed(w.start + k, f))
  {
    var stored := w.(slots := Store(w.slots, k, f, now));
    forall p | Buffered(stored, p) ensures Buffered(w, p) || p == Passed(w.start + k, f) {
      StoreSlot(w.slots, k, f, now, p.number - w.start);
    }
    StoreSound(w, k, f, now);
    ReleaseThenDrainRests(stored, 0);
    AdvanceBuffered(stored, Run(stored.slots, 0));
  }

  /** What one step of a run does, in terms of true numbers. */
  ghost predicate KeepsOrder(s: Session, e: Event, reached: nat, r: Play) {
    && Settled(r.session)
    && var to := Floor(r.session, Reached(s, e, reached));
    && Floor(s, reached) <= to
    && Increasing(r.up)
    && (forall p :: p in r.up ==> Floor(s, reached) <= p.number < to && FromRun(s, [e], p))
    && (forall p :: Buffered(r.session.window, p) ==> FromRun(s, [e], p))
  }

  lemma ArrivalSources(s: Session, e: Event, reached: nat)
    requires Settled(s) && s.on && e.Arrival? && e.now > 0 && StampsBy(s.window.slots, e.now) && Orderly(s, e, reached)
    ensures var r := Step(s, e);
      && (forall p :: p in r.up ==> FromRun(s, [e], p))
      && (forall p :: Buffered(r.session.window, p) ==> FromRun(s, [e], p))
  {
    var f := OnAir(e);
    TwelveBitsSuffice(e.number, s.window.start);
    assert e in [e];
    if e.number >= s.window.start {
      ReceiveSources(s.window, f, e.now);
      assert FromRun(s, [e], Passed(e.number, f));
    } else {
      assert Step(s, e) == Play(s, [], [f]);
    }
  }

  lemma ArrivalOrdered(s: Session, e: Event, reached: nat)
    requires Settled(s) && s.on && e.Arrival? && e.now > 0 && StampsBy(s.window.slots, e.now) && Orderly(s, e, reached)
    ensures var r := Step(s, e); var w := r.session.window;
      && AtRest(w) && StampsBy(w.slots, e.now)
      && s.window.start <= w.start
      && Increasing(r.up)
      && (forall p :: p in r.up ==> s.window.start <= p.number < w.start)
  {
    var f := OnAir(e);
    TwelveBitsSuffice(e.number, s.window.start);
    ReceiveRests(s.window, f, e.now);
    OrderKeptIff(s.window, f, false, false, e.now);
    ReceiveConserves(f, s.window, f, e.now);
  }

  lemma ArrivalInOrder(s: Session, e: Event, reached: nat)
    requires Settled(s) && e.Arrival? && e.now > 0 && StampsBy(s.window.slots, e.now) && Orderly(s, e, reached)
    ensures KeepsOrder(s, e, reached, Step(s, e)) && StampsBy(Step(s, e).session.window.slots, e.now)
  {
    hide AtRest, Receive, Upward, Filled;
    if s.on {
      ArrivalSources(s, e, reached);
      ArrivalOrdered(s, e, reached);
      RestShaped(Step(s, e).session.window);
    } else {
      assert e in [e];
    }
  }

  lemma BlockAckInOrder(w: Window, ssn: nat)
    requires AtRest(w)
    ensures var o := BlockAckRequest(w, ssn);
      && AtRest(o.window) && w.start <= o.window.start && Increasing(o.passed)
      && (forall p :: p in o.passed ==> Buffered(w, p) && p.number < o.window.start)
      && (forall p :: Buffered(o.window, p) ==> Buffered(w, p))
      && (forall now :: StampsBy(w.slots, now) ==> StampsBy(o.window.slots, now))
  {
    BlockAckExact(w, ssn);
    var d := Distance(ssn, w.start);
    if 0 < d <= SIZE {
      AdvanceBuffered(w, d + Run(w.slots, d));
      ReleaseThenDrainRests(w, d);
    } else if d > SIZE {
      ReleasesDeliver(w, SIZE);
      assert w.slots[..SIZE] == w.slots;
    }
  }

  lemma ExpiryInOrder(w: Window, now: nat, age: nat)
    requires AtRest(w)
    ensures var o := Timeout(w, now, age);
      && AtRest(o.window) && w.start <= o.window.start && Increasing(o.passed)
      && (forall p :: p in o.passed ==> Buffered(w, p) && p.number < o.window.start)
      && (forall p :: Buffered(o.window, p) ==> Buffered(w, p))
      && (forall t :: StampsBy(w.slots, t) ==> StampsBy(o.window.slots, t))
  {
    var n := ExpiredRun(w.slots, 0, now, age);
    ReleaseThenDrainRests(w, n);
    AdvanceBuffered(w, n + Run(w.slots, n));
  }

  lemma OlderStamps(slots: seq<Slot>, clock: nat, now: nat)
    requires StampsBy(slots, clock) && clock <= now
    ensures StampsBy(slots, now)
  {}

  lemma EmptyBuffers(start: nat)
    ensures AtRest(Window(start, Empties(SIZE))) && Filled(Empties(SIZE)) == 0
    ensures (forall now :: StampsBy(Empties(SIZE), now)) && (forall p :: !Buffered(Window(start, Empties(SIZE)), p))
  {
    EmptyWindowRests(start);
  }

  /** Events that bring no frame only move what is buffered. */
  lemma ReleaseInOrder(s: Session, e: Event, reached: nat, clock: nat)
    requires Settled(s) && s.on && StampsBy(s.window.slots, clock)
    requires e.BlockAck? || (e.Expiry? && e.due in s.timers)
    ensures KeepsOrder(s, e, reached, Step(s, e))
    ensures StampsBy(Step(s, e).session.window.slots, clock)
  {
    hide AtRest, StampsBy, BlockAckRequest, Timeout, Filled, Buffered, TimersAfterBar, TimersAfterExpiry;
    RestShaped(s.window);
    match e {
      case BlockAck(number, _) => BlockAckInOrder(s.window, number % SEQ_MODULUS);
      case Expiry(_, now) => ExpiryInOrder(s.window, now, s.timeout / 2);
    }
    RestShaped(Step(s, e).session.window);
    BufferedFrom(s.window);
  }

  /** A session that starts or ends has nothing buffered. */
  lemma SessionInOrder(s: Session, e: Event, reached: nat, clock: nat)
    requires Settled(s) && StampsBy(s.window.slots, clock) && (e.AddBa? || e.DelBa?) && Orderly(s, e, reached)
    ensures KeepsOrder(s, e, reached, Step(s, e))
    ensures StampsBy(Step(s, e).session.window.slots, clock)
  {
    hide AtRest, StampsBy, Filled, Buffered, Frees;
    RestShaped(s.window);
    EmptyBuffers(if e.AddBa? then e.number else 0);
    BufferedFrom(s.window);
  }

  lemma StepInOrder(s: Session, e: Event, reached: nat, clock: nat)
    requires Settled(s) && StampsBy(s.window.slots, clock)
    requires Timely(e, clock) && Orderly(s, e, reached)
    ensures KeepsOrder(s, e, reached, Step(s, e))
    ensures StampsBy(Step(s, e).session.window.slots, Later(e, clock))
  {
    hide AtRest, StampsBy, Receive, Upward, BlockAckRequest, Timeout, Filled, Buffered;
    RestShaped(s.window);
    if e.Arrival? {
      OlderStamps(s.window.slots, clock, e.now);
      ArrivalInOrder(s, e, reached);
    } else if e.AddBa? || e.DelBa? {
      SessionInOrder(s, e, reached, clock);
    } else {
      OlderStamps(s.window.slots, clock, e.now);
      if s.on && (e.Expiry? ==> e.due in s.timers) {
        ReleaseInOrder(s, e, reached, e.now);
      }
    }
  }

  /** Any event, orderly or not, keeps everything that holds between events, and none brings a
      stamp from the future. */
  lemma StepSettles(s: Session, e: Event, clock: nat)
    requires Settled(s) && StampsBy(s.window.slots, clock) && Timely(e, clock)
    ensures Settled(Step(s, e).session) && StampsBy(Step(s, e).session.window.slots, Later(e, clock))
  {
    hide AtRest, StampsBy, Receive, BlockAckRequest, Timeout, Filled, TimersAfterFrame, TimersAfterBar,
      TimersAfterExpiry;
    RestShaped(s.window);
    match e {
      case Arrival(_, _, _, _, now) =>
        OlderStamps(s.window.slots, clock, now);
        ReceiveRests(s.window, OnAir(e), now);
        RestShaped(Receive(s.window, OnAir(e), now).window);
      case BlockAck(number, now) =>
        OlderStamps(s.window.slots, clock, now);
        BlockAckInOrder(s.window, number % SEQ_MODULUS);
      case Expiry(_, now) =>
        OlderStamps(s.window.slots, clock, now);
        ExpiryInOrder(s.window, now, s.timeout / 2);
      case AddBa(number, _) => EmptyBuffers(number);
      case DelBa => EmptyBuffers(0);
    }
  }

  lemma BufferedFrom(w: Window)
    ensures forall p :: Buffered(w, p) ==> w.start <= p.number
  {}

  /** Over any run of orderly events, whatever goes up goes up in strictly increasing order of
      true sequence numbers, with no duplicate, and is a frame that arrived under that number;
      and everything that holds between events holds at the end. */
  lemma {:induction false} RunInOrder(s: Session, es: seq<Event>, reached: nat, clock: nat)
    requires Settled(s) && StampsBy(s.window.slots, clock)
    requires Clocked(es, clock) && AllOrderly(s, es, reached)
    ensures var r := Replay(s, es);
      var to := Floor(r.session, ReachedBy(s, es, reached));
      && Settled(r.session)
      && Floor(s, reached) <= to
      && Increasing(r.up)
      && (forall p :: p in r.up ==> Floor(s, reached) <= p.number < to && FromRun(s, es, p))
    decreases es
  {
    hide AtRest, Settled, StampsBy, Step, Buffered, Orderly, Timely;
    if es != [] {
      var first := SettledStep(s, es[0], reached, clock);
      RunInOrder(first.session, es[1..], Reached(s, es[0], reached), Later(es[0], clock));
      var rest := Replay(first.session, es[1..]);
      AppendIncreasing(first.up, rest.up, Floor(first.session, Reached(s, es[0], reached)));
      forall p | p in first.up + rest.up
        ensures Floor(s, reached) <= p.number < Floor(rest.session, ReachedBy(s, es, reached)) && FromRun(s, es, p)
      {
        if p in first.up {
          assert FromRun(s, [es[0]], p);
        } else {
          assert FromRun(first.session, es[1..], p);
          if Buffered(first.session.window, p) { assert FromRun(s, [es[0]], p); }
        }
      }
    }
  }

  lemma SettledStep(s: Session, e: Event, reached: nat, clock: nat) returns (r: Play)
    requires Settled(s) && StampsBy(s.window.slots, clock)
    requires Timely(e, clock) && Orderly(s, e, reached)
    ensures |s.window.slots| == SIZE && r == Step(s, e)
    ensures KeepsOrder(s, e, reached, r) && StampsBy(r.session.window.slots, Later(e, clock))
  {
    hide Step;
    RestShaped(s.window);
    StepInOrder(s, e, reached, clock);
    r := Step(s, e);
  }

  lemma AppendIncreasing(a: seq<Passed>, b: seq<Passed>, mid: nat)
    requires Increasing(a) && Increasing(b)
    requires (forall p :: p in a ==> p.number < mid) && (forall p :: p in b ==> mid <= p.number)
    ensures Increasing(a + b)
  {
    forall i, j | 0 <= i < j < |a + b| ensures (a + b)[i].number < (a + b)[j].number {
      assert i < |a| ==> (a + b)[i] in a;
      assert j >= |a| ==> (a + b)[j] in b;
    }
  }

  function Arrived(x: Frame, es: seq<Event>): nat {
    if es == [] then 0
    else (if es[0].Arrival? then One(x, OnAir(es[0])) else 0) + Arrived(x, es[1..])
  }

  /** Over any run whatever, no frame is lost and none is made up. */
  lemma {:induction false} RunConserves(x: Frame, s: Session, es: seq<Event>)
    requires Shaped(s)
    ensures var r := Replay(s, es);
      InSlots(x, s.window.slots) + Arrived(x, es)
        == InPassed(x, r.up) + InFreed(x, r.freed) + InSlots(x, r.session.window.slots)
    decreases es
  {
    hide Step, Shaped;
    if es != [] {
      var first := ShapedStep(x, s, es[0]);
      RunConserves(x, first.session, es[1..]);
      var rest := Replay(first.session, es[1..]);
      InPassedConcat(x, first.up, rest.up);
      InFreedConcat(x, first.freed, rest.freed);
    }
  }

  lemma ShapedStep(x: Frame, s: Session, e: Event) returns (r: Play)
    requires Shaped(s)
    ensures |s.window.slots| == SIZE && r == Step(s, e) && Shaped(r.session)
    ensures InSlots(x, s.window.slots) + (if e.Arrival? then One(x, OnAir(e)) else 0)
            == InPassed(x, r.up) + InFreed(x, r.freed) + InSlots(x, r.session.window.slots)
  {
    StepConserves(x, s, e);
    r := Step(s, e);
    EmptyWindowRests(0);
  }

  lemma NothingHeld(x: Frame, slots: seq<Slot>)
    requires Filled(slots) == 0
    ensures InSlots(x, slots) == 0
  {
    if slots != [] { NothingHeld(x, slots[1..]); }
  }

  /** Each event accounts for every frame: the one that arrives and those buffered end up passed
      up, freed or buffered, each once. */
  lemma StepConserves(x: Frame, s: Session, e: Event)
    requires Shaped(s)
    ensures var r := Step(s, e);
      InSlots(x, s.window.slots) + (if e.Arrival? then One(x, OnAir(e)) else 0)
      == InPassed(x, r.up) + InFreed(x, r.freed) + InSlots(x, r.session.window.slots)
  {
    hide Receive, BlockAckRequest, Timeout, Filled;
    var w := s.window;
    match e {
      case Arrival(number, _, _, _, now) =>
        var f := OnAir(e);
        if Aside(s, e) {
          assert InPassed(x, [Passed(number, f)]) == One(x, f) + InPassed(x, []);
        } else {
          var o := Receive(w, f, now);
          ReceiveConserves(x, w, f, now);
          var self := Passed(w.start + Distance(f.sn, w.start), f);
          InPassedConcat(x, o.passed, [self]);
          assert InPassed(x, [self]) == One(x, f) + InPassed(x, []);
          assert o.passed + [] == o.passed;
        }
      case BlockAck(number, _) =>
        if s.on { BlockAckConserves(x, w, number % SEQ_MODULUS); }
      case Expiry(due, now) =>
        if s.on && due in s.timers { TimeoutConserves(x, w, now, s.timeout / 2); }
      case AddBa(_, _) =>
        EmptiesHoldNothing(x, SIZE);
        if !s.on { NothingHeld(x, w.slots); }
      case DelBa =>
        EmptiesHoldNothing(x, SIZE);
        FreesCount(x, w.slots);
    }
  }

  lemma TimeoutConserves(x: Frame, w: Window, now: nat, age: nat)
    requires |w.slots| == SIZE
    ensures var o := Timeout(w, now, age);
      InSlots(x, w.slots) == InPassed(x, o.passed) + InSlots(x, o.window.slots) && o.freed == []
  {
    ReleaseConserves(x, w, ExpiredRun(w.slots, 0, now, age));
  }
}
