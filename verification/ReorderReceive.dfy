/** What becomes of one received frame and of the frames that wait with it, exactly: which go up, which
    stay, and where the window starts afterwards. */
module ReorderReceive {
  import opened Options
  import opened ReorderWindow
  import opened ReorderSteps
  import opened ReorderRuns

  /** The buffered frames and the new one, d ahead of the window start, under their numbers. */
  ghost predicate Waits(w: Window, f: Frame, d: nat, p: Passed) {
    Buffered(w, p) || p == Passed(w.start + d, f)
  }

  /** There is one at offset k. */
  ghost predicate There(w: Window, d: nat, k: nat) {
    k == d || (k < |w.slots| && w.slots[k].frame.Some?)
  }

  /** Offset m is the first one from n on with none. */
  ghost predicate FirstMissing(w: Window, d: nat, n: nat, m: nat) {
    n <= m && !There(w, d, m) && forall k :: n <= k < m ==> There(w, d, k)
  }

  /** A frame that is buffered: the window moves just far enough to hold it, and over the gapless run
      from there on; what it leaves behind goes up, in order, and everything else stays. */
  ghost predicate Buffers(w: Window, f: Frame, d: nat, o: Outcome) {
    && w.start <= o.window.start && o.freed == [] && o.returned.None?
    && FirstMissing(w, d, if d < 64 then 0 else d - 63, o.window.start - w.start)
    && Increasing(o.passed)
    && (forall p: Passed :: p in o.passed <==> Waits(w, f, d, p) && p.number < o.window.start)
    && (forall p: Passed :: Buffered(o.window, p) <==> Waits(w, f, d, p) && p.number >= o.window.start)
  }

  // ---------------------------------------------------------------- the window with the frame in it

  ghost predicate InSlots(w: Window, f: Frame, d: nat, n: nat, v: Window) {
    && |w.slots| == |v.slots| == SIZE && v.start == w.start + n && n <= d < n + SIZE
    && forall k :: 0 <= k < SIZE ==>
         v.slots[k].frame == if n + k == d then Some(f) else if n + k < SIZE then w.slots[n + k].frame else None
  }

  /** The window after its first n slots have gone and the frame is stored. */
  lemma StoredSlots(w: Window, f: Frame, now: nat, d: nat, n: nat)
    requires |w.slots| == SIZE && n <= SIZE && n <= d < n + SIZE
    ensures var moved := Advance(w, n); InSlots(w, f, d, n, moved.(slots := Store(moved.slots, d - n, f, now)))
  {
    var moved := Advance(w, n);
    var v := moved.(slots := Store(moved.slots, d - n, f, now));
    forall k | 0 <= k < SIZE
      ensures v.slots[k].frame == if n + k == d then Some(f) else if n + k < SIZE then w.slots[n + k].frame else None
    {
      StoreSlot(moved.slots, d - n, f, now, k);
    }
  }

  /** Whatever waits at or past the new start is in the window, and nothing else is. */
  lemma WaitsInSlots(w: Window, f: Frame, d: nat, n: nat, v: Window, p: Passed)
    requires InSlots(w, f, d, n, v) && (d < SIZE ==> w.slots[d].frame.None?)
    ensures Buffered(v, p) <==> Waits(w, f, d, p) && p.number >= w.start + n
  {
    if p.number >= v.start && p.number - v.start < SIZE {
      var k := p.number - v.start;
      assert n + k == p.number - w.start;
    }
  }

  lemma InSlotsShape(w: Window, f: Frame, d: nat, n: nat, v: Window)
    requires InSlots(w, f, d, n, v)
    ensures |w.slots| == |v.slots| == SIZE && v.start == w.start + n && n <= d
  {}

  lemma MissingInSlots(w: Window, f: Frame, d: nat, n: nat, v: Window, m: nat)
    requires InSlots(w, f, d, n, v) && FirstGap(v, 0, m) && m <= SIZE
    ensures FirstMissing(w, d, n, n + m)
  {
    forall k | n <= k < n + m ensures There(w, d, k) {
      assert v.slots[k - n].frame.Some?;
    }
    if m < SIZE { assert v.slots[m].frame.None?; }
  }

  /** The release of the gapless run, in terms of what waits. */
  lemma DrainExact(w: Window, f: Frame, d: nat, n: nat, v: Window)
    requires InSlots(w, f, d, n, v) && (d < SIZE ==> w.slots[d].frame.None?)
    ensures var o := ReleaseThenDrain(v, 0);
      && v.start <= o.window.start && FirstMissing(w, d, n, o.window.start - w.start)
      && Increasing(o.passed)
      && (forall p: Passed :: p in o.passed <==> Waits(w, f, d, p) && w.start + n <= p.number < o.window.start)
      && (forall p: Passed :: Buffered(o.window, p) <==> Waits(w, f, d, p) && p.number >= o.window.start)
  {
    hide InSlots, Waits, FirstGap, FirstMissing;
    var o, m := ReleaseThenDrain(v, 0), Run(v.slots, 0);
    InSlotsShape(w, f, d, n, v);
    RunEndsAtGap(v, 0);
    MissingInSlots(w, f, d, n, v, m);
    ReleasesDeliver(v, m);
    forall p: Passed
      ensures p in o.passed <==> Waits(w, f, d, p) && w.start + n <= p.number < o.window.start
      ensures Buffered(o.window, p) <==> Waits(w, f, d, p) && p.number >= o.window.start
    {
      WaitsInSlots(w, f, d, n, v, p);
      AdvancedBuffered(v, m, p);
    }
  }

  lemma AdvancedBuffered(v: Window, m: nat, p: Passed)
    requires m <= |v.slots|
    ensures Buffered(Advance(v, m), p) <==> Buffered(v, p) && p.number >= v.start + m
  {}

  // ---------------------------------------------------------------- every case

  /** What becomes of a frame by how far ahead of the window start it is, modulo 4096. Half the number
      space away or more it is old, and freed, as is a second frame of a number; 127 ahead or more it
      goes straight back; so does the awaited one when nothing is buffered, and the window moves past
      it; any other is buffered. */
  lemma ReceiveExact(w: Window, f: Frame, now: nat)
    requires AtRest(w)
    ensures var d, o := (f.sn - w.start) % 4096, Receive(w, f, now);
      if d >= 2048 || (d < 64 && w.slots[d].frame.Some?) then o == Outcome(w, [], [f], None)
      else if d >= 127 then o == Outcome(w, [], [], Some(f))
      else if d == 0 && forall k :: 0 <= k < 64 ==> w.slots[k].frame.None? then
        o == Outcome(Window(w.start + 1, w.slots), [], [], Some(f))
      else Buffers(w, f, d, o)
  {
    hide Buffers, Store, ReleaseThenDrain, Advance, Trail, InPlace, StampsOrdered;
    var d := Distance(f.sn, w.start);
    FilledZero(w.slots);
    if SIZE <= d < 2 * SIZE - 1 {
      OverflowExact(w, f, now, d);
    } else if d < SIZE && w.slots[d].frame.None? && Filled(w.slots) > 0 {
      InsideExact(w, f, now, d);
    } else if 0 < d < SIZE && w.slots[d].frame.None? {
      InsideExact(w, f, now, d);
    }
  }

  lemma InsideExact(w: Window, f: Frame, now: nat, d: nat)
    requires |w.slots| == SIZE && d == Distance(f.sn, w.start) < SIZE && w.slots[d].frame.None?
    requires !(d == 0 && Filled(w.slots) == 0)
    ensures Buffers(w, f, d, Receive(w, f, now))
  {
    hide Store, InSlots, Waits, FirstMissing, Buffered;
    StoredSlots(w, f, now, d, 0);
    assert Advance(w, 0) == w by { assert w.slots[0..] + Empties(0) == w.slots; }
    DrainExact(w, f, d, 0, w.(slots := Store(w.slots, d, f, now)));
    NothingBelow(w, f, d);
    NothingElse(w.(slots := Store(w.slots, d, f, now)), 0);
  }

  lemma NothingBelow(w: Window, f: Frame, d: nat)
    ensures forall p: Passed :: Waits(w, f, d, p) ==> w.start <= p.number
  {}

  /** What goes up to make room is what waits before the first number that fits. */
  lemma RoomExact(w: Window, f: Frame, d: nat, n: nat)
    requires |w.slots| == SIZE && n <= SIZE && n <= d
    ensures Increasing(Frames(w.start, w.slots[..n]))
    ensures forall p: Passed :: p in Frames(w.start, w.slots[..n]) <==> Waits(w, f, d, p) && p.number < w.start + n
  {
    ReleasesDeliver(w, n);
  }

  lemma OverflowExact(w: Window, f: Frame, now: nat, d: nat)
    requires |w.slots| == SIZE && SIZE <= d == Distance(f.sn, w.start) < 2 * SIZE - 1
    ensures Buffers(w, f, d, Receive(w, f, now))
  {
    hide Store, InSlots, FirstMissing, ReleaseThenDrain, Waits, Increasing, Frames, Buffered;
    var n := d - SIZE + 1;
    var moved := Advance(w, n);
    var v := moved.(slots := Store(moved.slots, SIZE - 1, f, now));
    StoredSlots(w, f, now, d, n);
    InSlotsShape(w, f, d, n, v);
    DrainExact(w, f, d, n, v);
    RoomExact(w, f, d, n);
    NothingBelow(w, f, d);
    NothingElse(v, 0);
    var a, o := Frames(w.start, w.slots[..n]), ReleaseThenDrain(v, 0);
    AppendIncreasing(a, o.passed, w.start + n);
    assert Receive(w, f, now) == o.(passed := a + o.passed);
  }

  lemma NothingElse(v: Window, n: nat)
    requires n <= |v.slots|
    ensures ReleaseThenDrain(v, n).freed == [] && ReleaseThenDrain(v, n).returned.None?
  {}
}
