/** How long a frame may stay in the reorder buffer. The driver registers, cancels and replaces its
    timeouts as the window moves; whatever happens, one of them is always due soon enough, so that
    nothing waits much longer than one and a half times the session's timeout. */
module ReorderStay {
  import opened Options
  import opened ReorderWindow
  import opened ReorderTimers
  import opened ReorderSteps
  import opened ReorderRuns

  // ---------------------------------------------------------------- slots through an entry point

  /** Slot k after a step: its stamp is new, or the one its place had before; its frame is the one
      that came in, or was there before, stamp and all. */
  ghost predicate SlotFrom(w: Window, v: Window, f: Option<Frame>, now: nat, k: nat)
    requires w.start <= v.start && |w.slots| == |v.slots| == SIZE && k < SIZE
  {
    var j := v.start - w.start + k;
    && (v.slots[k].stamp > 0 ==> v.slots[k].stamp == now || (j < SIZE && w.slots[j].stamp == v.slots[k].stamp))
    && (v.slots[k].frame.Some? ==> v.slots[k].frame == f || (j < SIZE && w.slots[j] == v.slots[k]))
  }

  ghost predicate Descends(w: Window, v: Window, f: Option<Frame>, now: nat) {
    && w.start <= v.start && |w.slots| == |v.slots| == SIZE
    && forall k :: 0 <= k < SIZE ==> SlotFrom(w, v, f, now, k)
  }

  /** Moving the window moves its slots. */
  ghost predicate Shifted(w: Window, v: Window) {
    && w.start <= v.start && |w.slots| == |v.slots| == SIZE
    && forall k :: 0 <= k < SIZE ==>
         v.slots[k] == if v.start - w.start + k < SIZE then w.slots[v.start - w.start + k] else EMPTY
  }

  lemma ReleaseShifts(w: Window, n: nat)
    requires |w.slots| == SIZE && n <= SIZE
    ensures Shifted(w, ReleaseThenDrain(w, n).window)
  {}

  lemma FarShifts(w: Window, v: Window)
    requires |w.slots| == SIZE && v.start >= w.start + SIZE && v.slots == Empties(SIZE)
    ensures Shifted(w, v)
  {
    assert forall k :: 0 <= k < SIZE ==> v.slots[k] == EMPTY;
  }

  lemma SelfShifts(w: Window)
    requires |w.slots| == SIZE
    ensures Shifted(w, w)
  {}

  lemma BarShifts(w: Window, ssn: nat)
    requires |w.slots| == SIZE
    ensures Shifted(w, BlockAckRequest(w, ssn).window)
  {
    hide ReleaseThenDrain, Frames, Shifted;
    var d := Distance(ssn, w.start);
    if d == 0 || d > HALF_SPACE {
      SelfShifts(w);
    } else if d <= SIZE {
      ReleaseShifts(w, d);
    } else {
      FarShifts(w, BlockAckRequest(w, ssn).window);
    }
  }

  lemma TimeoutShifts(w: Window, now: nat, age: nat)
    requires |w.slots| == SIZE
    ensures Shifted(w, Timeout(w, now, age).window)
  {
    hide ReleaseThenDrain;
    ReleaseShifts(w, ExpiredRun(w.slots, 0, now, age));
  }

  lemma ShiftedDescends(w: Window, v: Window, f: Option<Frame>, now: nat)
    requires Shifted(w, v)
    ensures Descends(w, v, f, now)
  {}

  /** The window an accepted frame leaves. */
  lemma StoredWindow(w: Window, f: Frame, now: nat) returns (n: nat, moved: Window, at: nat, stored: Window, r: nat)
    requires AtRest(w) && now > 0 && StampsBy(w.slots, now) && f.sn < SEQ_MODULUS
    requires var o := Receive(w, f, now); o.returned.None? && o.freed == []
    ensures n <= SIZE && moved == Advance(w, n) && Sound(moved) && at < SIZE
    ensures stored == moved.(slots := Store(moved.slots, at, f, now)) && r <= SIZE
    ensures Receive(w, f, now).window == Advance(stored, r)
  {
    hide Trail, InPlace, StampsOrdered, StampsBy, Reach, Store, Frames;
    var d := Distance(f.sn, w.start);
    n := if d < SIZE then 0 else d - SIZE + 1;
    moved, at := Advance(w, n), d - n;
    AdvanceSound(w, n);
    assert n == 0 ==> moved == w by { assert w.slots[0..] + Empties(0) == w.slots; }
    stored := moved.(slots := Store(moved.slots, at, f, now));
    r := Run(stored.slots, 0);
  }

  lemma AdvancedSlot(w: Window, n: nat, k: nat)
    requires |w.slots| == SIZE && n <= SIZE && k < SIZE
    ensures |Advance(w, n).slots| == SIZE
    ensures Advance(w, n).slots[k] == if n + k < SIZE then w.slots[n + k] else EMPTY
  {}

  lemma ReceiveDescends(w: Window, f: Frame, now: nat)
    requires AtRest(w) && now > 0 && StampsBy(w.slots, now) && f.sn < SEQ_MODULUS
    ensures Descends(w, Receive(w, f, now).window, Some(f), now) || Filled(Receive(w, f, now).window.slots) == 0
  {
    hide Receive, InPlace, StampsOrdered, Store, Advance;
    var o := Receive(w, f, now);
    if o.returned.Some? || o.freed != [] {
      NotStored(w, f, now);
      SelfShifts(w);
      ShiftedDescends(w, w, Some(f), now);
    } else {
      var n, moved, at, stored, r := StoredWindow(w, f, now);
      var v := o.window;
      StartsAt(w, moved, stored, v, n, r);
      forall k | 0 <= k < SIZE ensures SlotFrom(w, v, Some(f), now, k) {
        AdvancedSlot(stored, r, k);
        if r + k < SIZE {
          StoreSlot(moved.slots, at, f, now, r + k);
          AdvancedSlot(w, n, r + k);
          assert moved.slots[r + k].frame.Some? ==> moved.slots[r + k].stamp > 0;
        }
      }
    }
  }

  lemma StartsAt(w: Window, moved: Window, stored: Window, v: Window, n: nat, r: nat)
    requires |w.slots| == |moved.slots| == |stored.slots| == SIZE && n <= SIZE && r <= SIZE
    requires moved == Advance(w, n) && stored.start == moved.start && v == Advance(stored, r)
    ensures v.start == w.start + n + r && |v.slots| == SIZE
  {}

  /** A frame that is not stored leaves the window alone, or moves one that holds nothing. */
  lemma NotStored(w: Window, f: Frame, now: nat)
    requires |w.slots| == SIZE
    requires var o := Receive(w, f, now); o.returned.Some? || o.freed != []
    ensures var v := Receive(w, f, now).window; v == w || (Filled(w.slots) == 0 && v.slots == w.slots)
  {
    hide Filled, Store, Frames;
  }

  // ---------------------------------------------------------------- what the timeouts cover

  /** What slot k is granted for timeouts served up to `late` late: each time the window moves, one
      that is overdue may be replaced, and slot k is moved at most as often as slots precede it. */
  function Slack(k: nat, late: nat): nat
    requires k < SIZE
  {
    (SIZE - 1 - k) * late
  }

  /** A slot that has moved up has another `late` to spend. */
  lemma SlackGrows(k: nat, j: nat, late: nat)
    requires k <= j < SIZE
    ensures Slack(k, late) >= Slack(j, late)
    ensures k < j ==> Slack(k, late) >= Slack(j, late) + late
  {
    Multiples(SIZE - 1 - j, j - k, late);
  }

  lemma Multiples(a: nat, b: nat, late: nat)
    ensures (a + b) * late == a * late + b * late
    ensures b * late >= if b > 0 then late else 0
  {
    if b > 0 { assert b * late == (b - 1) * late + late; }
  }

  /** By when a slot with this stamp is dealt with. */
  function Deadline(stamp: nat, k: nat, timeout: nat, late: nat): nat
    requires k < SIZE
  {
    stamp + timeout + timeout / 2 + Slack(k, late)
  }

  /** A timeout due at `due` is soon enough for every stamped slot, and not further off than one
      session timeout. */
  ghost predicate Covers(due: nat, slots: seq<Slot>, timeout: nat, clock: nat, late: nat) {
    && due <= clock + timeout
    && forall k :: 0 <= k < |slots| && k < SIZE && slots[k].stamp > 0 ==>
         due <= Deadline(slots[k].stamp, k, timeout, late)
  }

  /** One of the registered timeouts covers whatever is buffered. */
  ghost predicate Covered(timers: multiset<nat>, slots: seq<Slot>, timeout: nat, clock: nat, late: nat) {
    Filled(slots) > 0 ==> timeout > 0 && exists due :: due in timers && Covers(due, slots, timeout, clock, late)
  }

  /** No registered timeout is overdue by more than `late`. */
  ghost predicate Served(timers: multiset<nat>, now: nat, late: nat) {
    forall due :: due in timers ==> now <= due + late
  }

  lemma CoversLater(due: nat, slots: seq<Slot>, timeout: nat, clock: nat, now: nat, late: nat)
    requires Covers(due, slots, timeout, clock, late) && clock <= now
    ensures Covers(due, slots, timeout, now, late)
  {}

  /** A window that only moved is covered by what covered it before. */
  lemma CoversShifted(due: nat, w: Window, v: Window, timeout: nat, clock: nat, late: nat)
    requires Shifted(w, v) && Covers(due, w.slots, timeout, clock, late)
    ensures Covers(due, v.slots, timeout, clock, late)
  {
    hide Slack;
    forall k | 0 <= k < SIZE && v.slots[k].stamp > 0 ensures due <= Deadline(v.slots[k].stamp, k, timeout, late) {
      var j := v.start - w.start + k;
      assert v.slots[k] == w.slots[j];
      SlackGrows(k, j, late);
    }
  }

  lemma ShiftedHolds(w: Window, v: Window)
    requires Shifted(w, v) && Filled(v.slots) > 0
    ensures Filled(w.slots) > 0
  {
    FilledZero(v.slots);
    FilledZero(w.slots);
    var k :| 0 <= k < SIZE && v.slots[k].frame.Some?;
    assert w.slots[v.start - w.start + k].frame.Some?;
  }

  /** With nothing buffered no slot is stamped. */
  lemma NothingStamped(w: Window)
    requires AtRest(w) && Filled(w.slots) == 0
    ensures forall k :: 0 <= k < SIZE ==> w.slots[k].stamp == 0
  {
    BareWindowRests(w, w.start);
  }

  /** The timeout registered for a new head covers the window: the head's stamp is the oldest, and
      if it is overdue already, then so is the one it replaces, and every slot has moved up. */
  lemma DueCovers(w: Window, v: Window, f: Frame, before: nat, timeout: nat, clock: nat, now: nat, late: nat)
    requires Descends(w, v, Some(f), now) && Sound(v) && v.slots[0].stamp > 0 && StampsBy(v.slots, now)
    requires v.start > w.start && Covers(before, w.slots, timeout, clock, late) && now <= before + late
    ensures Covers(Due(v.slots[0].stamp, timeout, now), v.slots, timeout, now, late)
  {
    hide Trail, InPlace, Reach, Slack;
    var due := Due(v.slots[0].stamp, timeout, now);
    forall k | 0 <= k < SIZE && v.slots[k].stamp > 0 ensures due <= Deadline(v.slots[k].stamp, k, timeout, late) {
      assert v.slots[0].stamp <= v.slots[k].stamp;
      assert SlotFrom(w, v, Some(f), now, k);
      if v.slots[k].stamp != now {
        var j := v.start - w.start + k;
        SlackGrows(k, j, late);
      }
    }
  }

  /** A first frame's timeout covers the window: everything in it is stamped now. */
  lemma FirstCovers(w: Window, v: Window, f: Frame, timeout: nat, now: nat, late: nat)
    requires Descends(w, v, Some(f), now) && now > 0 && v.slots[0].stamp > 0
    requires forall k :: 0 <= k < SIZE ==> w.slots[k].stamp == 0
    ensures Covers(Due(v.slots[0].stamp, timeout, now), v.slots, timeout, now, late)
  {
    hide Slack;
    forall k | 0 <= k < SIZE && v.slots[k].stamp > 0 ensures v.slots[k].stamp == now {
      assert SlotFrom(w, v, Some(f), now, k);
    }
  }

  /** A window that has not moved is covered by what covered it before. */
  lemma StillCovers(w: Window, v: Window, f: Frame, due: nat, timeout: nat, clock: nat, now: nat, late: nat)
    requires Descends(w, v, Some(f), now) && v.start == w.start && clock <= now
    requires Covers(due, w.slots, timeout, clock, late)
    ensures Covers(due, v.slots, timeout, now, late)
  {
    hide Slack;
    forall k | 0 <= k < SIZE && v.slots[k].stamp > 0 ensures due <= Deadline(v.slots[k].stamp, k, timeout, late) {
      assert SlotFrom(w, v, Some(f), now, k);
    }
  }

  // ---------------------------------------------------------------- one event

  lemma FrameCovered(timers: multiset<nat>, w: Window, f: Frame, timeout: nat, clock: nat, now: nat, late: nat)
    requires AtRest(w) && now > 0 && StampsBy(w.slots, now) && f.sn < SEQ_MODULUS && timeout > 0 && clock <= now
    requires Covered(timers, w.slots, timeout, clock, late) && Served(timers, now, late)
    ensures var o := Receive(w, f, now);
      && |o.window.slots| == SIZE
      && Covered(TimersAfterFrame(timers, w, o, timeout, now), o.window.slots, timeout, now, late)
  {
    hide Receive, Trail, InPlace, StampsOrdered, Reach, Covers, Descends, StampsBy, Due;
    var o := Receive(w, f, now);
    ReceiveRests(w, f, now);
    RestShaped(o.window);
    if o.returned.Some? || o.freed != [] {
      NotStored(w, f, now);
      if Filled(w.slots) > 0 {
        var due :| due in timers && Covers(due, w.slots, timeout, clock, late);
        CoversLater(due, w.slots, timeout, clock, now, late);
      }
    } else if Filled(o.window.slots) > 0 {
      ReceiveDescends(w, f, now);
      HeadIsStamped(o.window);
      var next := Due(o.window.slots[0].stamp, timeout, now);
      if Filled(w.slots) == 0 {
        NothingStamped(w);
        FirstCovers(w, o.window, f, timeout, now, late);
        assert next in multiset{next};
      } else {
        var due :| due in timers && Covers(due, w.slots, timeout, clock, late);
        if o.window.start != w.start {
          DueCovers(w, o.window, f, due, timeout, clock, now, late);
          assert next in multiset{next};
        } else {
          StillCovers(w, o.window, f, due, timeout, clock, now, late);
        }
      }
    }
  }

  lemma BarCovered(timers: multiset<nat>, w: Window, ssn: nat, timeout: nat, clock: nat, now: nat, late: nat)
    requires AtRest(w) && clock <= now && Covered(timers, w.slots, timeout, clock, late)
    ensures var o := BlockAckRequest(w, ssn);
      Covered(TimersAfterBar(timers, w, ssn, o, timeout, now), o.window.slots, timeout, now, late)
  {
    hide AtRest, BlockAckRequest, Covers, Shifted;
    RestShaped(w);
    var o := BlockAckRequest(w, ssn);
    BarShifts(w, ssn);
    if Filled(o.window.slots) > 0 {
      ShiftedHolds(w, o.window);
      var due :| due in timers && Covers(due, w.slots, timeout, clock, late);
      CoversShifted(due, w, o.window, timeout, clock, late);
      CoversLater(due, o.window.slots, timeout, clock, now, late);
      assert due in TimersAfterBar(timers, w, ssn, o, timeout, now);
    }
  }

  /** What the handler leaves is younger than half the timeout; the next run is one timeout off. */
  lemma ExpiryCovered(timers: multiset<nat>, due: nat, w: Window, timeout: nat, now: nat, late: nat)
    requires AtRest(w) && timeout > 0
    ensures var o := Timeout(w, now, timeout / 2);
      Covered(TimersAfterExpiry(timers, due, o, timeout, now), o.window.slots, timeout, now, late)
  {
    hide Timeout, Trail, InPlace, StampsOrdered, StampsBy, Reach, Slack;
    var o := Timeout(w, now, timeout / 2);
    TimeoutExact(w, now, timeout / 2);
    RestShaped(o.window);
    forall k | 0 <= k < SIZE && o.window.slots[k].stamp > 0
      ensures now + timeout <= Deadline(o.window.slots[k].stamp, k, timeout, late)
    {
      assert !Expired(o.window.slots[k], now, timeout / 2);
    }
    assert Covers(now + timeout, o.window.slots, timeout, now, late);
  }

  // ---------------------------------------------------------------- over runs

  /** Everything buffered belongs to a session with a timeout, and is covered. */
  ghost predicate Watched(s: Session, clock: nat, late: nat) {
    && (s.on ==> s.timeout > 0)
    && Covered(s.timers, s.window.slots, s.timeout, clock, late)
  }

  /** What happens at a known time happens while no timeout is overdue by more than `late`. */
  ghost predicate OnTime(s: Session, e: Event, late: nat) {
    e.Arrival? || e.BlockAck? || e.Expiry? ==> Served(s.timers, e.now, late)
  }

  ghost predicate AllOnTime(s: Session, es: seq<Event>, late: nat)
    requires |s.window.slots| == SIZE
    decreases es
  {
    es == [] || (OnTime(s, es[0], late) && AllOnTime(Step(s, es[0]).session, es[1..], late))
  }

  /** Any event on time leaves whatever is buffered covered. */
  lemma StepWatched(s: Session, e: Event, clock: nat, late: nat)
    requires Settled(s) && StampsBy(s.window.slots, clock) && Timely(e, clock)
    requires Watched(s, clock, late) && OnTime(s, e, late)
    ensures Watched(Step(s, e).session, Later(e, clock), late)
  {
    hide AtRest, StampsBy, Receive, BlockAckRequest, Timeout, Filled, Covers, Served,
      TimersAfterFrame, TimersAfterBar, TimersAfterExpiry;
    RestShaped(s.window);
    if e.AddBa? || e.DelBa? {
      EmptyBuffers(0);
    } else if !s.on {
      assert Step(s, e).session.window == s.window;
    } else if e.Arrival? {
      OlderStamps(s.window.slots, clock, e.now);
      if Aside(s, e) {
        CoveredLater(s, clock, e.now, late);
      } else {
        FrameCovered(s.timers, s.window, OnAir(e), s.timeout, clock, e.now, late);
      }
    } else if e.BlockAck? {
      BarCovered(s.timers, s.window, e.number % SEQ_MODULUS, s.timeout, clock, e.now, late);
    } else if e.due in s.timers {
      ExpiryCovered(s.timers, e.due, s.window, s.timeout, e.now, late);
    } else {
      CoveredLater(s, clock, e.now, late);
    }
  }

  lemma CoveredLater(s: Session, clock: nat, now: nat, late: nat)
    requires Watched(s, clock, late) && clock <= now
    ensures Watched(s, now, late)
  {
    hide Covers;
    if Filled(s.window.slots) > 0 {
      var due :| due in s.timers && Covers(due, s.window.slots, s.timeout, clock, late);
      CoversLater(due, s.window.slots, s.timeout, clock, now, late);
    }
  }

  /** Each buffered frame arrived in one of these events, and its slot was stamped no later. */
  ghost predicate Known(w: Window, es: seq<Event>) {
    forall k :: 0 <= k < |w.slots| && w.slots[k].frame.Some? ==> KnownSlot(w.slots[k], es)
  }

  ghost predicate KnownSlot(slot: Slot, es: seq<Event>)
    requires slot.frame.Some?
  {
    exists e :: e in es && e.Arrival? && OnAir(e) == slot.frame.value && slot.stamp <= e.now
  }

  lemma KnownMore(w: Window, es: seq<Event>, e: Event)
    requires Known(w, es)
    ensures Known(w, es + [e])
  {
    forall k | 0 <= k < |w.slots| && w.slots[k].frame.Some? ensures KnownSlot(w.slots[k], es + [e]) {
      assert KnownSlot(w.slots[k], es);
    }
  }

  lemma ShiftedKnown(w: Window, v: Window, es: seq<Event>)
    requires Shifted(w, v) && Known(w, es)
    ensures Known(v, es)
  {
    forall k | 0 <= k < SIZE && v.slots[k].frame.Some? ensures KnownSlot(v.slots[k], es) {
      assert KnownSlot(w.slots[v.start - w.start + k], es);
    }
  }

  lemma ArrivalKnown(s: Session, e: Event, es: seq<Event>)
    requires Settled(s) && e.Arrival? && e.now > 0 && StampsBy(s.window.slots, e.now) && Known(s.window, es)
    ensures Known(Receive(s.window, OnAir(e), e.now).window, es + [e])
  {
    hide AtRest, Receive;
    var w, f := s.window, OnAir(e);
    RestShaped(w);
    var v := Receive(w, f, e.now).window;
    ReceiveRests(w, f, e.now);
    ReceiveDescends(w, f, e.now);
    FilledZero(v.slots);
    forall k | 0 <= k < |v.slots| && v.slots[k].frame.Some? ensures KnownSlot(v.slots[k], es + [e]) {
      assert SlotFrom(w, v, Some(f), e.now, k);
      if v.slots[k].frame == Some(f) {
        assert e in es + [e];
      } else {
        assert KnownSlot(w.slots[v.start - w.start + k], es);
      }
    }
  }

  lemma StepKnown(s: Session, e: Event, es: seq<Event>, clock: nat)
    requires Settled(s) && StampsBy(s.window.slots, clock) && Timely(e, clock) && Known(s.window, es)
    ensures Known(Step(s, e).session.window, es + [e])
  {
    hide AtRest, StampsBy, Receive, BlockAckRequest, Timeout, Filled, Known, Shifted,
      TimersAfterFrame, TimersAfterBar, TimersAfterExpiry;
    RestShaped(s.window);
    KnownMore(s.window, es, e);
    match e {
      case Arrival(_, _, _, _, now) =>
        OlderStamps(s.window.slots, clock, now);
        ArrivalKnown(s, e, es);
      case BlockAck(number, _) =>
        BarShifts(s.window, number % SEQ_MODULUS);
        ShiftedKnown(s.window, BlockAckRequest(s.window, number % SEQ_MODULUS).window, es + [e]);
      case Expiry(_, now) =>
        TimeoutShifts(s.window, now, s.timeout / 2);
        ShiftedKnown(s.window, Timeout(s.window, now, s.timeout / 2).window, es + [e]);
      case AddBa(number, _) => NothingKnown(number, es + [e]);
      case DelBa => NothingKnown(0, es + [e]);
    }
  }

  lemma NothingKnown(start: nat, es: seq<Event>)
    ensures Known(Window(start, Empties(SIZE)), es)
  {}

  function ClockAfter(es: seq<Event>, clock: nat): nat
    decreases es
  {
    if es == [] then clock else ClockAfter(es[1..], Later(es[0], clock))
  }

  /** Over any run on time, whatever is buffered stays covered, and stays known. */
  lemma {:induction false} RunWatched(s: Session, es: seq<Event>, past: seq<Event>, clock: nat, late: nat)
    requires Settled(s) && StampsBy(s.window.slots, clock) && Clocked(es, clock)
    requires Watched(s, clock, late) && AllOnTime(s, es, late) && Known(s.window, past)
    ensures var r := Replay(s, es).session;
      && Settled(r) && Watched(r, ClockAfter(es, clock), late) && Known(r.window, past + es)
    decreases es
  {
    hide AtRest, Settled, StampsBy, Step, Watched, Known, OnTime, Timely;
    SettledShape(s);
    if es == [] {
      assert past + es == past;
    } else {
      StepSettles(s, es[0], clock);
      StepWatched(s, es[0], clock, late);
      StepKnown(s, es[0], past, clock);
      RunWatched(Step(s, es[0]).session, es[1..], past + [es[0]], Later(es[0], clock), late);
      assert past + [es[0]] + es[1..] == past + es;
    }
  }

  lemma SettledShape(s: Session)
    requires Settled(s)
    ensures |s.window.slots| == SIZE
  {}

  /** The bound on a stay: over any run that starts with nothing buffered and serves every timeout at
      most `late` late, whatever is still buffered arrived no longer ago than one and a half times the
      session's timeout, and 64 times `late`. Served in time, nothing waits longer than that. */
  lemma StayBounded(s: Session, es: seq<Event>, clock: nat, now: nat, late: nat)
    requires Settled(s) && (s.on ==> s.timeout > 0) && Filled(s.window.slots) == 0
    requires Clocked(es, clock) && AllOnTime(s, es, late)
    requires Served(Replay(s, es).session.timers, now, late)
    ensures var r := Replay(s, es).session;
      && |r.window.slots| == SIZE
      && forall k :: 0 <= k < SIZE && r.window.slots[k].frame.Some? ==>
           exists e :: e in es && e.Arrival? && OnAir(e) == r.window.slots[k].frame.value
                       && now <= e.now + r.timeout + r.timeout / 2 + SIZE * late
  {
    hide AtRest, Step, Covers;
    RestShaped(s.window);
    NothingStamped(s.window);
    FilledZero(s.window.slots);
    RunWatched(s, es, [], clock, late);
    assert [] + es == es;
    var r := Replay(s, es).session;
    RestShaped(r.window);
    forall k | 0 <= k < SIZE && r.window.slots[k].frame.Some?
      ensures exists e :: e in es && e.Arrival? && OnAir(e) == r.window.slots[k].frame.value
                          && now <= e.now + r.timeout + r.timeout / 2 + SIZE * late
    {
      StaysUntil(r, ClockAfter(es, clock), k, now, late);
      assert KnownSlot(r.window.slots[k], es);
    }
  }

  /** A buffered frame's slot is stamped, and not for longer than its deadline. */
  lemma StaysUntil(s: Session, clock: nat, k: nat, now: nat, late: nat)
    requires Settled(s) && Watched(s, clock, late) && Served(s.timers, now, late)
    requires k < |s.window.slots| && s.window.slots[k].frame.Some?
    ensures now <= s.window.slots[k].stamp + s.timeout + s.timeout / 2 + SIZE * late
  {
    FilledZero(s.window.slots);
    var due :| due in s.timers && Covers(due, s.window.slots, s.timeout, clock, late);
    assert s.window.slots[k].stamp > 0;
    Multiples(SIZE - 1 - k, 1, late);
    Multiples(SIZE - k, k, late);
  }

  // ---------------------------------------------------------------- not before its time

  /** A timeout that is due no earlier than the session's timeout after the head was stamped, and no
      later than that from now. */
  ghost predicate InTime(w: Window, timeout: nat, due: nat, now: nat) {
    w.slots != [] && w.slots[0].stamp > 0 && w.slots[0].stamp + timeout <= due <= now + timeout
  }

  lemma HeadInTime(w: Window, timeout: nat, now: nat)
    requires AtRest(w) && StampsBy(w.slots, now) && Filled(w.slots) > 0
    ensures InTime(w, timeout, now + timeout, now)
    ensures InTime(w, timeout, Due(w.slots[0].stamp, timeout, now), now)
  {
    HeadIsStamped(w);
  }

  lemma SettledInTime(s: Session, timeout: nat, now: nat)
    requires Settled(s) && StampsBy(s.window.slots, now)
    ensures |s.window.slots| == SIZE
    ensures Filled(s.window.slots) > 0 ==>
      InTime(s.window, timeout, now + timeout, now)
        && InTime(s.window, timeout, Due(s.window.slots[0].stamp, timeout, now), now)
  {
    if Filled(s.window.slots) > 0 { HeadInTime(s.window, timeout, now); }
  }

  /** Every timeout that an event registers is in time for the frames it leaves waiting, and is
      registered once. */
  lemma StepInTime(s: Session, e: Event, clock: nat, due: nat)
    requires Settled(s) && StampsBy(s.window.slots, clock) && Timely(e, clock)
    ensures var r := Step(s, e).session;
      r.timers[due] > s.timers[due] ==>
        r.on && r.timers[due] == s.timers[due] + 1 && InTime(r.window, s.timeout, due, Later(e, clock))
  {
    hide AtRest, StampsBy, Receive, BlockAckRequest, Timeout, Filled, Due, InTime;
    RestShaped(s.window);
    StepSettles(s, e, clock);
    SettledInTime(Step(s, e).session, s.timeout, Later(e, clock));
  }

  /** Whatever empties the buffer cancels every timeout, except a timeout, which only uses itself up. */
  lemma StepCancels(s: Session, e: Event)
    requires Settled(s) && |s.window.slots| == SIZE && Filled(s.window.slots) > 0
    requires Filled(Step(s, e).session.window.slots) == 0
    ensures Step(s, e).session.timers == if e.Expiry? then s.timers - multiset{e.due} else multiset{}
  {
    hide AtRest, Receive, Timeout, Filled, Due, ReleaseThenDrain, Frames;
    RestShaped(s.window);
    if e.Arrival? && s.on {
      var o := Receive(s.window, OnAir(e), e.now);
      if o.returned.Some? || o.freed != [] { NotStored(s.window, OnAir(e), e.now); }
    }
  }

  // ---------------------------------------------------------------- a long stay

  const FIRST := Frame(1, 1)
  const SECOND := Frame(2, 3)

  /** Number 1 arrives at time 1, number 3 at time 102, and the timeout of the first fires in time. */
  const LONG_STAY := [Arrival(1, 1, false, false, 1), Arrival(3, 2, false, false, 102), Expiry(201, 201)]

  /** The slots after each of the three events. */
  function AfterFirst(): seq<Slot> {
    Empties(SIZE)[0 := Slot(None, 1)][1 := Slot(Some(FIRST), 1)]
  }

  function AfterSecond(): seq<Slot> {
    AfterFirst()[2 := Slot(None, 102)][3 := Slot(Some(SECOND), 102)]
  }

  function AfterExpiry(): seq<Slot> {
    Empties(SIZE)[0 := Slot(None, 102)][1 := Slot(Some(SECOND), 102)]
  }

  /** With an empty head a stored frame stays, and nothing goes up. */
  lemma StoredAhead(w: Window, f: Frame, now: nat, slots: seq<Slot>)
    requires |w.slots| == SIZE && 0 < Distance(f.sn, w.start) < SIZE && w.slots[0].frame.None?
    requires w.slots[Distance(f.sn, w.start)].frame.None? && slots == Store(w.slots, Distance(f.sn, w.start), f, now)
    ensures Receive(w, f, now) == Outcome(w.(slots := slots), [], [], None)
  {
    assert slots[0].frame.None?;
    assert slots[0..] + Empties(0) == slots;
  }

  lemma SomethingFilled(slots: seq<Slot>, k: nat)
    requires k < |slots| && slots[k].frame.Some?
    ensures Filled(slots) > 0
  {
    FilledZero(slots);
  }

  lemma FirstArrives(timers: multiset<nat>)
    ensures var w := Window(0, Empties(SIZE)); var o := Receive(w, FIRST, 1);
      o == Outcome(Window(0, AfterFirst()), [], [], None) && TimersAfterFrame(timers, w, o, 200, 1) == multiset{201}
  {
    hide Filled, Run, Frames;
    var w := Window(0, Empties(SIZE));
    assert Store(w.slots, 1, FIRST, 1) == AfterFirst();
    StoredAhead(w, FIRST, 1, AfterFirst());
    EmptyWindowRests(0);
    SomethingFilled(AfterFirst(), 1);
  }

  lemma SecondStored()
    ensures Store(AfterFirst(), 3, SECOND, 102) == AfterSecond()
  {
    forall i | 0 <= i < SIZE ensures Store(AfterFirst(), 3, SECOND, 102)[i] == AfterSecond()[i] {
      StoreSlot(AfterFirst(), 3, SECOND, 102, i);
    }
  }

  lemma SecondArrives(timers: multiset<nat>)
    ensures var w := Window(0, AfterFirst()); var o := Receive(w, SECOND, 102);
      o == Outcome(Window(0, AfterSecond()), [], [], None) && TimersAfterFrame(timers, w, o, 200, 102) == timers
  {
    hide Receive, Store, Filled;
    var w := Window(0, AfterFirst());
    SecondStored();
    StoredAhead(w, SECOND, 102, AfterSecond());
    SomethingFilled(AfterFirst(), 1);
    SomethingFilled(AfterSecond(), 3);
  }

  lemma FirstExpires()
    ensures var w := Window(0, AfterSecond()); var o := Timeout(w, 201, 100);
      o.window == Window(2, AfterExpiry()) && TimersAfterExpiry(multiset{201}, 201, o, 200, 201) == multiset{401}
  {
    var w := Window(0, AfterSecond());
    assert ExpiredRun(w.slots, 2, 201, 100) == 0;
    assert ExpiredRun(w.slots, 1, 201, 100) == 1;
    assert ExpiredRun(w.slots, 0, 201, 100) == 2;
    assert Run(w.slots, 2) == 0;
    assert w.slots[2..] + Empties(2) == AfterExpiry();
    SomethingFilled(AfterExpiry(), 1);
  }

  lemma FirstOfRun(s: Session, es: seq<Event>, late: nat)
    requires |s.window.slots| == SIZE && es != []
    ensures Replay(s, es).session == Replay(Step(s, es[0]).session, es[1..]).session
    ensures AllOnTime(s, es, late) <==> OnTime(s, es[0], late) && AllOnTime(Step(s, es[0]).session, es[1..], late)
  {}

  /** The bound is nearly reached: with every timeout served in time, number 3 is still buffered 299
      after it arrived, where the bound is 300. */
  lemma LongStay()
    ensures var s := Session(true, Window(0, Empties(SIZE)), AgreedTimeout(0), multiset{});
      && Settled(s) && Filled(s.window.slots) == 0 && Clocked(LONG_STAY, 0) && AllOnTime(s, LONG_STAY, 0)
      && var r := Replay(s, LONG_STAY).session;
      && r.timeout + r.timeout / 2 == 300 && Served(r.timers, 102 + 299, 0)
      && |r.window.slots| == SIZE && r.window.slots[1].frame == Some(SECOND)
      && OnAir(LONG_STAY[1]) == SECOND && LONG_STAY[1].now == 102
  {
    hide Receive, Timeout, TimersAfterFrame, TimersAfterExpiry, Replay, AllOnTime, AfterFirst, AfterSecond;
    var s := Session(true, Window(0, Empties(SIZE)), AgreedTimeout(0), multiset{});
    EmptyWindowRests(0);
    var es := LONG_STAY;
    FirstArrives(multiset{});
    FirstOfRun(s, es, 0);
    var s1 := Session(true, Window(0, AfterFirst()), 200, multiset{201});
    assert Step(s, es[0]).session == s1;
    SecondArrives(multiset{201});
    FirstOfRun(s1, es[1..], 0);
    var s2 := Session(true, Window(0, AfterSecond()), 200, multiset{201});
    assert Step(s1, es[1..][0]).session == s2;
    FirstExpires();
    FirstOfRun(s2, es[1..][1..], 0);
    var s3 := Session(true, Window(2, AfterExpiry()), 200, multiset{401});
    assert es[1..][1..][0] == es[2] && es[1..][1..][1..] == [];
    assert Step(s2, es[2]).session == s3;
    NoMoreToCome(s3);
  }

  lemma NoMoreToCome(s: Session)
    requires |s.window.slots| == SIZE
    ensures Replay(s, []).session == s && AllOnTime(s, [], 0)
  {}
}
