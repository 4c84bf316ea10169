/** What each entry point of the reorder buffer guarantees, for every window and every input. */
module ReorderSteps {
  import opened Options
  import opened ReorderWindow

  // ---------------------------------------------------------------- release, then drain

  /** Releasing n slots and then the gapless run leaves an empty head, and passes up exactly
      the frames below the new start, in strictly increasing order. */
  lemma ReleaseThenDrainRests(w: Window, n: nat)
    requires Sound(w) && n <= SIZE
    ensures var o := ReleaseThenDrain(w, n);
      && AtRest(o.window)
      && (forall now :: StampsBy(w.slots, now) ==> StampsBy(o.window.slots, now))
      && w.start + n <= o.window.start <= w.start + SIZE
      && Delivers(w, o.window.start, o.passed)
  {
    var m := n + Run(w.slots, n);
    AdvanceSound(w, m);
    ReleasesDeliver(w, m);
  }

  lemma ReleasesDeliver(w: Window, m: nat)
    requires m <= |w.slots|
    ensures Delivers(w, w.start + m, Frames(w.start, w.slots[..m]))
  {
    FramesSpec(w.start, w.slots[..m]);
  }

  /** The direct hit: with nothing buffered, any window start is as good as another. */
  lemma BareWindowRests(w: Window, start: nat)
    requires AtRest(w) && Filled(w.slots) == 0
    ensures AtRest(Window(start, w.slots))
    ensures forall k :: 0 <= k < SIZE ==> w.slots[k] == EMPTY
  {
    FilledZero(w.slots);
  }

  lemma RestShaped(w: Window)
    requires AtRest(w)
    ensures |w.slots| == SIZE
  {}

  lemma EmptyWindowRests(start: nat)
    ensures AtRest(Window(start, Empties(SIZE)))
    ensures Filled(Empties(SIZE)) == 0
  {
    FilledZero(Empties(SIZE));
  }

  /** Whenever something is buffered the head slot is stamped: the two warnings that test
      for an unstamped head cannot fire. */
  lemma HeadIsStamped(w: Window)
    requires Sound(w) && Filled(w.slots) > 0
    ensures w.slots[0].stamp > 0
  {
    FilledZero(w.slots);
  }

  // ---------------------------------------------------------------- receiving a frame

  /** Receiving a frame keeps every invariant, moves the window only forward, and passes up
      only numbers the window has moved past. */
  lemma ReceiveRests(w: Window, f: Frame, now: nat)
    requires AtRest(w) && now > 0 && StampsBy(w.slots, now) && f.sn < SEQ_MODULUS
    ensures var o := Receive(w, f, now);
      && AtRest(o.window) && StampsBy(o.window.slots, now)
      && w.start <= o.window.start
      && Increasing(o.passed)
      && (forall p :: p in o.passed ==> w.start <= p.number < o.window.start)
  {
    var d := Distance(f.sn, w.start);
    if d == 0 && Filled(w.slots) == 0 {
      BareWindowRests(w, w.start + 1);
    } else if d >= 2 * SIZE - 1 {
    } else if d >= SIZE {
      ReceiveOverflow(w, f, now);
    } else if w.slots[d].frame.None? {
      StoreSound(w, d, f, now);
      ReleaseThenDrainRests(w.(slots := Store(w.slots, d, f, now)), 0);
    }
  }

  /** The overflow case: the window is shifted until the frame fits in its last slot. */
  lemma ReceiveOverflow(w: Window, f: Frame, now: nat)
    requires AtRest(w) && now > 0 && StampsBy(w.slots, now) && f.sn < SEQ_MODULUS
    requires SIZE <= Distance(f.sn, w.start) < 2 * SIZE - 1
    ensures var o := Receive(w, f, now);
      && AtRest(o.window) && StampsBy(o.window.slots, now)
      && w.start <= o.window.start
      && Increasing(o.passed)
      && (forall p :: p in o.passed ==> w.start <= p.number < o.window.start)
  {
    hide Trail, InPlace, StampsOrdered, StampsBy, Reach, Store, Run, Frames;
    var n := Distance(f.sn, w.start) - SIZE + 1;
    var moved := Advance(w, n);
    AdvanceSound(w, n);
    StoreSound(moved, SIZE - 1, f, now);
    var stored := moved.(slots := Store(moved.slots, SIZE - 1, f, now));
    ReleaseThenDrainRests(stored, 0);
    FramesSpec(w.start, w.slots[..n]);
    var a: seq<Passed> := Frames(w.start, w.slots[..n]);
    var b: seq<Passed> := ReleaseThenDrain(stored, 0).passed;
    forall i, j | 0 <= i < j < |a + b| ensures (a + b)[i].number < (a + b)[j].number {
      assert i < |a| ==> (a + b)[i] in a;
      assert j >= |a| ==> (a + b)[j] in b;
    }
  }

  /** Where a frame given back to the caller (who then passes it up) stands in the order. */
  function Upward(w: Window, f: Frame, o: Outcome): seq<Passed> {
    o.passed + if o.returned.Some? then [Passed(w.start + Distance(f.sn, w.start), f)] else []
  }

  /** Order, exactly: everything passed up so far stays below the window start if and only if
      the frame is neither a fragment nor a QoS null frame, and not 127 to 2047 ahead. (An old
      fragment goes up too, late; its distance puts it past the window start as well.) */
  lemma OrderKeptIff(w: Window, f: Frame, fragment: bool, qosNull: bool, now: nat)
    requires AtRest(w) && now > 0 && StampsBy(w.slots, now) && f.sn < SEQ_MODULUS
    ensures var o := HandIn(w, f, fragment || qosNull, now);
      (forall p :: p in Upward(w, f, o) ==> p.number < o.window.start)
      <==> !fragment && !qosNull && !(127 <= (f.sn - w.start) % 4096 < 2048)
  {
    hide StampsBy, Trail, InPlace, StampsOrdered, Store, Run, Frames, Increasing;
    ReceiveRests(w, f, now);
    var o := HandIn(w, f, fragment || qosNull, now);
    var up := Upward(w, f, o);
    if o.returned.Some? {
      assert up[|up| - 1] in up;
      assert up[|up| - 1].number == w.start + Distance(f.sn, w.start);
    }
  }

  /** The frame the window waits for always goes up at once. */
  lemma AwaitedGoesUp(w: Window, f: Frame, now: nat)
    requires AtRest(w) && now > 0 && StampsBy(w.slots, now) && f.sn == w.start % SEQ_MODULUS
    ensures Passed(w.start, f) in Upward(w, f, Receive(w, f, now))
  {
    hide Trail, InPlace, StampsOrdered, StampsBy, Reach, Store, Run;
    assert Distance(f.sn, w.start) == 0 by { NoDistance(w.start); }
    if Filled(w.slots) == 0 {
      assert Upward(w, f, Receive(w, f, now))[0] == Passed(w.start, f);
    } else {
      var stored := w.(slots := Store(w.slots, 0, f, now));
      StoreSound(w, 0, f, now);
      StoreSlot(w.slots, 0, f, now, 0);
      ReleaseThenDrainRests(stored, 0);
      var o := ReleaseThenDrain(stored, 0);
      assert stored.slots[0].frame == Some(f);
      assert o.window.start > w.start by { HeadRuns(stored); }
    }
  }

  lemma NoDistance(start: nat)
    ensures Distance(start % SEQ_MODULUS, start) == 0
  {}

  lemma HeadRuns(w: Window)
    requires |w.slots| == SIZE && w.slots[0].frame.Some?
    ensures ReleaseThenDrain(w, 0).window.start > w.start
  {}

  /** A frame ahead that is handed straight back is always overtaken: whatever comes back at or
      past the window start is followed by the frame the window waits for. */
  lemma HandedBackOvertakes(w: Window, f: Frame, aside: bool, awaited: Frame, now: nat)
    requires AtRest(w) && now > 0 && StampsBy(w.slots, now) && f.sn < SEQ_MODULUS
    requires awaited.sn == w.start % SEQ_MODULUS
    requires Distance(f.sn, w.start) < HALF_SPACE && (aside || 2 * SIZE - 1 <= Distance(f.sn, w.start))
    ensures var first := HandIn(w, f, aside, now);
      var second := HandIn(first.window, awaited, false, now);
      && first.window == w
      && !Increasing(Upward(w, f, first) + Upward(first.window, awaited, second))
  {
    hide Trail, InPlace, StampsOrdered, StampsBy, Reach, Store, Run, ReleaseThenDrain, Filled;
    AwaitedGoesUp(w, awaited, now);
    var up := [Passed(w.start + Distance(f.sn, w.start), f)];
    var next := Upward(w, awaited, Receive(w, awaited, now));
    assert Upward(w, f, HandIn(w, f, aside, now)) == up;
    var j :| 0 <= j < |next| && next[j] == Passed(w.start, awaited);
    assert (up + next)[0] == up[0] && (up + next)[j + 1] == next[j];
  }

  /** A concrete run that goes out of order: number 127 overtakes number 0. */
  lemma BypassOvertakes()
    ensures var w := Window(0, Empties(SIZE));
      var first := HandIn(w, Frame(1, 127), false, 1);
      var second := HandIn(first.window, Frame(2, 0), false, 1);
      AtRest(w)
      && Upward(w, Frame(1, 127), first) == [Passed(127, Frame(1, 127))]
      && Upward(first.window, Frame(2, 0), second) == [Passed(0, Frame(2, 0))]
  {
    EmptyWindowRests(0);
  }

  /** Another one: a fragment with number 5 overtakes number 0. */
  lemma FragmentOvertakes()
    ensures var w := Window(0, Empties(SIZE));
      var first := HandIn(w, Frame(1, 5), true, 1);
      var second := HandIn(first.window, Frame(2, 0), false, 1);
      AtRest(w)
      && Upward(w, Frame(1, 5), first) == [Passed(5, Frame(1, 5))]
      && Upward(first.window, Frame(2, 0), second) == [Passed(0, Frame(2, 0))]
  {
    EmptyWindowRests(0);
  }

  // ---------------------------------------------------------------- BlockAckReq

  /** The buffered frames that come before offset d or that a gapless run from d reaches. */
  ghost predicate BeforeOrInRun(w: Window, d: nat, p: Passed) {
    && w.start <= p.number && p.number - w.start < |w.slots|
    && w.slots[p.number - w.start].frame == Some(p.frame)
    && forall k :: d <= k < p.number - w.start ==> w.slots[k].frame.Some?
  }

  /** Offset m is the first one from n on that holds no frame; past the window there is none. */
  ghost predicate FirstGap(w: Window, n: nat, m: nat) {
    && n <= m && (m < |w.slots| ==> w.slots[m].frame.None?)
    && forall k :: n <= k < m ==> k < |w.slots| && w.slots[k].frame.Some?
  }

  lemma RunEndsAtGap(w: Window, n: nat)
    requires n <= |w.slots|
    ensures FirstGap(w, n, n + Run(w.slots, n))
  {}

  /** An accepted BlockAckReq passes up, in order, exactly the buffered frames before its
      starting number and those in the gapless run from it on; the window then starts at the first
      number from the starting number on that is missing. */
  lemma BlockAckExact(w: Window, ssn: nat)
    requires AtRest(w)
    ensures var o, d := BlockAckRequest(w, ssn), (ssn - w.start) % 4096;
      && AtRest(o.window)
      && (forall now :: StampsBy(w.slots, now) ==> StampsBy(o.window.slots, now))
      && w.start <= o.window.start
      && (d == 0 || d > 2048 ==> o.window == w && o.passed == [])
      && (0 < d <= 2048 ==>
           && FirstGap(w, d, o.window.start - w.start)
           && Increasing(o.passed)
           && forall p :: p in o.passed <==> BeforeOrInRun(w, d, p))
  {
    hide FirstGap, BeforeOrInRun, AtRest, StampsBy;
    var d := Distance(ssn, w.start);
    if 0 < d <= SIZE {
      BlockAckNear(w, d);
    } else if SIZE < d <= HALF_SPACE {
      BlockAckFar(w, d);
    }
  }

  /** The window moves over the slots before the starting number, and over the run. */
  lemma BlockAckNear(w: Window, d: nat)
    requires AtRest(w) && d <= SIZE
    ensures var o := ReleaseThenDrain(w, d);
      && AtRest(o.window)
      && (forall now :: StampsBy(w.slots, now) ==> StampsBy(o.window.slots, now))
      && w.start <= o.window.start && FirstGap(w, d, o.window.start - w.start)
      && Increasing(o.passed)
      && forall p :: p in o.passed <==> BeforeOrInRun(w, d, p)
  {
    hide InPlace, StampsOrdered, Reach, Store, FirstGap;
    ReleaseThenDrainRests(w, d);
    RunEndsAtGap(w, d);
    var o, m := ReleaseThenDrain(w, d), d + Run(w.slots, d);
    assert o.window.start == w.start + m;
    assert m < SIZE ==> w.slots[m].frame.None?;
    forall p ensures p in o.passed <==> BeforeOrInRun(w, d, p) {}
  }

  /** Or it passes up everything and starts anew. */
  lemma BlockAckFar(w: Window, d: nat)
    requires AtRest(w) && SIZE < d
    ensures var v, passed := Window(w.start + d, Empties(SIZE)), Frames(w.start, w.slots);
      && AtRest(v)
      && (forall now :: StampsBy(w.slots, now) ==> StampsBy(v.slots, now))
      && FirstGap(w, d, d)
      && Increasing(passed)
      && forall p :: p in passed <==> BeforeOrInRun(w, d, p)
  {
    hide InPlace, StampsOrdered, Reach, Store, FirstGap;
    EmptyWindowRests(w.start + d);
    PastTheWindow(w, d);
    ReleasesDeliver(w, SIZE);
    assert w.slots[..SIZE] == w.slots;
    forall p ensures p in Frames(w.start, w.slots) <==> BeforeOrInRun(w, d, p) {}
  }

  lemma PastTheWindow(w: Window, d: nat)
    requires |w.slots| <= d
    ensures FirstGap(w, d, d)
  {}

  /** At a distance of exactly half the number space a frame is dropped as old, while a BlockAckReq
      with the same number moves the window all the way there. */
  lemma HalfSpaceDiffers(w: Window, f: Frame, now: nat)
    requires AtRest(w) && (f.sn - w.start) % 4096 == 0x800
    ensures Receive(w, f, now) == Outcome(w, [], [f], None)
    ensures BlockAckRequest(w, f.sn).window == Window(w.start + 0x800, Empties(SIZE))
  {}

  // ---------------------------------------------------------------- the timeout handler

  /** The prefix the handler's loop looks at is the set of expired slots. */
  lemma ExpiredIsPrefix(w: Window, now: nat, age: nat)
    requires Sound(w)
    ensures forall k :: 0 <= k < SIZE ==> (Expired(w.slots[k], now, age) <==> k < ExpiredRun(w.slots, 0, now, age))
  {
    var e := ExpiredRun(w.slots, 0, now, age);
    forall k | e <= k < SIZE ensures !Expired(w.slots[k], now, age) {
      assert w.slots[k].stamp > 0 ==> w.slots[e].stamp > 0;
    }
  }

  /** The buffered frames with no unexpired gap before them. */
  ghost predicate NoLiveGapBefore(w: Window, now: nat, age: nat, p: Passed) {
    && w.start <= p.number && p.number - w.start < |w.slots|
    && w.slots[p.number - w.start].frame == Some(p.frame)
    && forall k :: 0 <= k < p.number - w.start ==> Expired(w.slots[k], now, age) || w.slots[k].frame.Some?
  }

  /** The slots stamped `age` ago or longer are the first e. */
  ghost predicate ExpiredTo(w: Window, now: nat, age: nat, e: nat) {
    e <= |w.slots| && forall k :: 0 <= k < |w.slots| ==> (0 < w.slots[k].stamp <= now - age <==> k < e)
  }

  /** One run of the handler leaves no expired slot behind, and passes up in order exactly the
      frames with no unexpired gap before them: every expired frame is among those. The window then
      starts at the first gap behind the expired slots. */
  lemma TimeoutExact(w: Window, now: nat, age: nat)
    requires AtRest(w)
    ensures var o := Timeout(w, now, age);
      && AtRest(o.window)
      && (forall t :: StampsBy(w.slots, t) ==> StampsBy(o.window.slots, t))
      && (exists e: nat :: ExpiredTo(w, now, age, e) && FirstGap(w, e, o.window.start - w.start))
      && w.start <= o.window.start
      && (forall k :: 0 <= k < SIZE ==> !Expired(o.window.slots[k], now, age))
      && Increasing(o.passed)
      && (forall p :: p in o.passed <==> NoLiveGapBefore(w, now, age, p))
  {
    hide Trail, InPlace, StampsOrdered, StampsBy, Reach, Frames, FirstGap;
    var e := ExpiredRun(w.slots, 0, now, age);
    var o := Timeout(w, now, age);
    ReleaseThenDrainRests(w, e);
    ExpiredIsPrefix(w, now, age);
    RunEndsAtGap(w, e);
    assert ExpiredTo(w, now, age, e);
    var m := e + Run(w.slots, e);
    assert o.window.start == w.start + m;
    assert m < SIZE ==> w.slots[m].frame.None? && !Expired(w.slots[m], now, age);
    forall p ensures p in o.passed <==> NoLiveGapBefore(w, now, age, p) {}
    assert forall k :: 0 <= k < SIZE - m ==> o.window.slots[k] == w.slots[k + m];
  }
}
