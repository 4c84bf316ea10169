/** The reorder buffer as the driver keeps it: a ring of 64 entries addressed by the low six
    bits of a 12-bit sequence number (struct atbm_ba_tid_params). Every entry point is proved
    to compute the function of the same name on the unrolled window of ReorderWindow.dfy. */
module ReorderRing {
  import opened Options
  import opened ReorderWindow
  import opened ReorderTimers
  import opened ReorderSteps

  /** BUFF_INDEX_IS_SAFE: the low six bits of a sequence number. */
  function Ix(n: nat): (i: nat)
    ensures i < SIZE
  {
    n % SIZE
  }

  /** The ring entry of offset k from a window start. */
  function RingIx(start: nat, k: nat): (i: nat)
    ensures i < SIZE
  {
    (start + k) % SIZE
  }

  /** The ring shows the window: offset k is entry (start + k) modulo 64. */
  ghost predicate Mirrors(b: seq<Option<Frame>>, t: seq<nat>, w: Window)
    requires |b| == |t| == SIZE
  {
    && |w.slots| == SIZE
    && forall k {:trigger RingIx(w.start, k)} :: 0 <= k < SIZE ==>
         w.slots[k] == Slot(b[RingIx(w.start, k)], t[RingIx(w.start, k)])
  }

  lemma OffsetUnique(start: nat, j: nat, k: nat)
    requires j < SIZE && k < SIZE && RingIx(start, j) == RingIx(start, k)
    ensures j == k
  {}

  /** Every ring entry is some offset's entry. */
  lemma OffsetOf(i: nat, start: nat) returns (k: nat)
    requires i < SIZE
    ensures k < SIZE && RingIx(start, k) == i
  {
    k := (i - start) % SIZE;
  }

  /** The ring index of a 12-bit number is that of the unbounded number it stands for. */
  lemma IndexOfWrapped(n: nat)
    ensures Ix(n % SEQ_MODULUS) == RingIx(n, 0)
  {}

  /** The distance computed from the wrapped window start is the distance from the start. */
  lemma DistanceFromWrapped(sn: nat, start: nat)
    ensures (sn - start % SEQ_MODULUS) % SEQ_MODULUS == Distance(sn, start)
  {}

  lemma WholeRings(a: nat, k: int)
    ensures (a + SIZE * k) % SIZE == a % SIZE
  {}

  /** The frame's ring entry, as an offset from a window start moved by n. */
  lemma IndexOfDistance(sn: nat, start: nat, n: nat)
    requires n <= Distance(sn, start)
    ensures Ix(sn) == RingIx(start + n, Distance(sn, start) - n)
  {
    var d, q := Distance(sn, start), (sn - start) / SEQ_MODULUS;
    assert sn == (start + d) + SIZE * (64 * q);
    WholeRings(start + d, 64 * q);
    assert (start + n) + (d - n) == start + d;
  }

  lemma StepBack(start: nat, j: nat)
    requires 0 < j
    ensures (RingIx(start, j) - 1) % SIZE == RingIx(start, j - 1)
  {}

  /** Clearing the head entry and moving the start by one advances the window. */
  lemma PopHead(b: seq<Option<Frame>>, t: seq<nat>, w: Window)
    requires |b| == |t| == SIZE && Mirrors(b, t, w)
    ensures w.slots[0] == Slot(b[RingIx(w.start, 0)], t[RingIx(w.start, 0)])
    ensures Mirrors(b[RingIx(w.start, 0) := None], t[RingIx(w.start, 0) := 0], Advance(w, 1))
  {
    var v := Advance(w, 1);
    forall k | 0 <= k < SIZE
      ensures v.slots[k] == Slot(b[RingIx(w.start, 0) := None][RingIx(v.start, k)],
        t[RingIx(w.start, 0) := 0][RingIx(v.start, k)])
    {
      assert RingIx(v.start, k) == RingIx(w.start, k + 1);
      if k < SIZE - 1 {
        if RingIx(w.start, k + 1) == RingIx(w.start, 0) { OffsetUnique(w.start, k + 1, 0); }
      } else {
        assert RingIx(w.start, SIZE) == RingIx(w.start, 0);
      }
    }
  }

  /** Writing one ring entry writes one slot. */
  lemma EntryWritten(b: seq<Option<Frame>>, t: seq<nat>, w: Window, k: nat, f: Option<Frame>, stamp: nat)
    requires |b| == |t| == SIZE && k < SIZE && Mirrors(b, t, w)
    ensures var i := RingIx(w.start, k);
      Mirrors(b[i := f], t[i := stamp], w.(slots := w.slots[k := Slot(f, stamp)]))
  {
    forall j | 0 <= j < SIZE && RingIx(w.start, j) == RingIx(w.start, k) ensures j == k {
      OffsetUnique(w.start, j, k);
    }
  }

  // ---------------------------------------------------------------- the book of a window

  /** A window together with everything passed up and everything freed so far. */
  datatype Book = Book(win: Window, passed: seq<Passed>, freed: seq<Frame>)

  /** Releases n slots: their frames go up, or are freed. */
  function Released(k: Book, n: nat, up: bool): Book
    requires n <= |k.win.slots|
  {
    Book(Advance(k.win, n),
         k.passed + if up then Frames(k.win.start, k.win.slots[..n]) else [],
         k.freed + if up then [] else Frees(k.win.slots[..n]))
  }

  /** Passes up the gapless run at the head. */
  function Drained(k: Book): Book {
    Released(k, Run(k.win.slots, 0), true)
  }

  /** Releases the head slot. */
  function Popped(k: Book, up: bool): Book
    requires |k.win.slots| > 0
  {
    Book(Advance(k.win, 1),
         k.passed + if up then PassedFrom(k.win.slots[0].frame, k.win.start) else [],
         k.freed + if up then [] else FreedFrom(k.win.slots[0].frame))
  }

  function Stored(k: Book, at: nat, f: Frame, now: nat): Book
    requires at < |k.win.slots|
  {
    k.(win := k.win.(slots := Store(k.win.slots, at, f, now)))
  }

  /** The book after one entry point. */
  function After(k: Book, o: Outcome): Book {
    Book(o.window, k.passed + o.passed, k.freed + o.freed)
  }

  lemma ReleasedNone(k: Book, up: bool)
    ensures Released(k, 0, up) == k
  {
    assert Advance(k.win, 0).slots == k.win.slots;
  }

  lemma AdvanceTwice(w: Window, m: nat, n: nat)
    requires |w.slots| == SIZE && m + n <= SIZE
    ensures Advance(Advance(w, m), n) == Advance(w, m + n)
  {
    var a, b := Advance(Advance(w, m), n).slots, Advance(w, m + n).slots;
    assert forall k :: 0 <= k < SIZE ==> a[k] == b[k];
  }

  lemma FreesConcat(a: seq<Slot>, b: seq<Slot>)
    ensures Frees(a + b) == Frees(a) + Frees(b)
  {
    if a == [] {
      assert a + b == b;
    } else {
      assert (a + b)[1..] == a[1..] + b;
      FreesConcat(a[1..], b);
    }
  }

  /** What one slot holds. */
  lemma OneSlot(slot: Slot, number: nat)
    ensures Frames(number, [slot]) == PassedFrom(slot.frame, number) && Frees([slot]) == FreedFrom(slot.frame)
  {
    assert Frames(number + 1, []) == [] && Frees([]) == [];
  }

  lemma RegroupPassed(a: seq<Passed>, b: seq<Passed>, c: seq<Passed>)
    ensures (a + b) + c == a + (b + c)
  {}

  lemma RegroupFreed(a: seq<Frame>, b: seq<Frame>, c: seq<Frame>)
    ensures (a + b) + c == a + (b + c)
  {}

  /** One more turn of a release loop. */
  lemma ReleasedOneMore(k: Book, i: nat, up: bool)
    requires |k.win.slots| == SIZE && i < SIZE
    ensures Popped(Released(k, i, up), up) == Released(k, i + 1, up)
    ensures Released(k, i, up).win.slots[0] == k.win.slots[i]
  {
    hide Frames, Frees;
    var w := k.win;
    var done, one := w.slots[..i], [w.slots[i]];
    AdvanceTwice(w, i, 1);
    assert w.slots[..i + 1] == done + one;
    FramesConcat(w.start, done, one);
    FreesConcat(done, one);
    OneSlot(w.slots[i], w.start + i);
    RegroupPassed(k.passed, Frames(w.start, done), Frames(w.start + i, one));
    RegroupFreed(k.freed, Frees(done), Frees(one));
  }

  lemma RunAfterAdvance(w: Window, n: nat)
    requires |w.slots| == SIZE && n <= SIZE
    ensures Run(Advance(w, n).slots, 0) == Run(w.slots, n)
  {
    var v := Advance(w, n);
    var r := Run(w.slots, n);
    assert forall k :: 0 <= k < r ==> v.slots[k] == w.slots[n + k];
    if n + r < SIZE {
      assert v.slots[r] == w.slots[n + r];
    } else if r < SIZE {
      assert v.slots[r] == EMPTY;
    }
    RunUnique(v.slots, 0, r);
  }

  lemma RunUnique(slots: seq<Slot>, k: nat, r: nat)
    requires k + r <= |slots|
    requires forall i :: k <= i < k + r ==> slots[i].frame.Some?
    requires k + r < |slots| ==> slots[k + r].frame.None?
    ensures Run(slots, k) == r
    decreases r
  {
    if r > 0 { RunUnique(slots, k + 1, r - 1); }
  }

  lemma FramesSplit(w: Window, n: nat, r: nat)
    requires |w.slots| == SIZE && n + r <= SIZE
    ensures Frames(w.start, w.slots[..n + r])
            == Frames(w.start, w.slots[..n]) + Frames(w.start + n, Advance(w, n).slots[..r])
  {
    assert Advance(w, n).slots[..r] == w.slots[n..n + r];
    assert w.slots[..n + r] == w.slots[..n] + w.slots[n..n + r];
    FramesConcat(w.start, w.slots[..n], w.slots[n..n + r]);
  }

  /** Draining after a release is one ReleaseThenDrain. */
  lemma DrainAfterRelease(k: Book, n: nat)
    requires |k.win.slots| == SIZE && n <= SIZE
    ensures Drained(Released(k, n, true)) == After(k, ReleaseThenDrain(k.win, n))
  {
    hide Run, Frames;
    var r := Run(k.win.slots, n);
    RunAfterAdvance(k.win, n);
    AdvanceTwice(k.win, n, r);
    FramesSplit(k.win, n, r);
    var a, b, c: seq<Passed> := k.passed, Frames(k.win.start, k.win.slots[..n]),
      Frames(k.win.start + n, Advance(k.win, n).slots[..r]);
    assert (a + b) + c == a + (b + c);
  }

  /** The frame passes every check of atbm_reorder_skb_queue that would turn it away;
      n slots must be released to make room for it. */
  ghost predicate Accepted(w: Window, f: Frame, n: nat)
    requires |w.slots| == SIZE
  {
    var d := Distance(f.sn, w.start);
    && d < 2 * SIZE - 1 && !(d == 0 && Filled(w.slots) == 0)
    && n == (if d < SIZE then 0 else d - SIZE + 1)
    && (d < SIZE ==> w.slots[d].frame.None?)
  }

  /** Where an accepted frame goes once room is made: an empty offset behind a sound trail. */
  lemma RoomMade(w: Window, f: Frame, n: nat)
    requires Sound(w) && Accepted(w, f, n)
    ensures var at, v := Distance(f.sn, w.start) - n, Advance(w, n);
      && 0 <= at < SIZE && Trail(v.slots) && v.slots[at].frame.None? && Ix(f.sn) == RingIx(v.start, at)
  {
    AdvanceSound(w, n);
    IndexOfDistance(f.sn, w.start, n);
    var v, at := Advance(w, n), Distance(f.sn, w.start) - n;
    assert n == 0 ==> v.slots[at] == w.slots[at];
    assert n > 0 ==> at == SIZE - 1 && v.slots[at] == EMPTY;
  }

  /** Release, store and drain, one after the other, are what Receive does with an accepted frame. */
  lemma InsertIsReceive(k: Book, f: Frame, now: nat, n: nat)
    requires |k.win.slots| == SIZE && Accepted(k.win, f, n)
    ensures Drained(Stored(Released(k, n, true), Distance(f.sn, k.win.start) - n, f, now))
      == After(k, Receive(k.win, f, now))
  {
    hide Run, Frames, Filled, Reach, StampedFrom;
    if n == 0 {
      ReleasedNone(k, true);
    } else {
      var v := Advance(k.win, n);
      var o := ReleaseThenDrain(v.(slots := Store(v.slots, SIZE - 1, f, now)), 0);
      var a, b, c: seq<Passed> := k.passed, Frames(k.win.start, k.win.slots[..n]), o.passed;
      assert (a + b) + c == a + (b + c);
      assert Receive(k.win, f, now) == o.(passed := b + c);
    }
  }

  /** What becomes of a frame, case by case. */
  lemma ReceiveCases(w: Window, f: Frame, now: nat)
    requires |w.slots| == SIZE
    ensures var d, o := Distance(f.sn, w.start), Receive(w, f, now);
      if d == 0 && Filled(w.slots) == 0 then o == Outcome(w.(start := w.start + 1), [], [], Some(f))
      else if d >= HALF_SPACE || (d < SIZE && w.slots[d].frame.Some?) then o == Outcome(w, [], [f], None)
      else if d >= 2 * SIZE - 1 then o == Outcome(w, [], [], Some(f))
      else o.returned.None? && o.freed == []
  {
    hide Filled, Store, ReleaseThenDrain, Frames;
    var d := Distance(f.sn, w.start);
    if SIZE <= d < 2 * SIZE - 1 {
      var moved := Advance(w, d - SIZE + 1);
      NothingFreed(moved.(slots := Store(moved.slots, SIZE - 1, f, now)), 0);
    } else if d < SIZE && w.slots[d].frame.None? {
      NothingFreed(w.(slots := Store(w.slots, d, f, now)), 0);
    }
  }

  lemma NothingFreed(w: Window, n: nat)
    requires n <= |w.slots|
    ensures ReleaseThenDrain(w, n).freed == [] && ReleaseThenDrain(w, n).returned.None?
  {}

  /** The window start moves by less than the number space, so that its low bits tell whether it
      moved. */
  lemma ReceiveMoves(w: Window, f: Frame, now: nat)
    requires |w.slots| == SIZE
    ensures var start := Receive(w, f, now).window.start;
      start % SEQ_MODULUS == w.start % SEQ_MODULUS <==> start == w.start
  {
    hide Filled, Store, Frames;
    LowBitsTell(w.start, Receive(w, f, now).window.start);
  }

  lemma LowBitsTell(a: nat, b: nat)
    requires a <= b < a + SEQ_MODULUS
    ensures a % SEQ_MODULUS == b % SEQ_MODULUS <==> a == b
  {}

  /** What is registered for a head with this stamp is what is left of the timeout. */
  lemma DueInTime(stamp: nat, timeout: nat, now: nat)
    requires stamp <= now
    ensures Due(stamp, timeout, now) == now + if timeout > now - stamp then timeout - (now - stamp) else 0
  {}

  lemma NumberAtDistance(sn: nat, start: nat)
    ensures (start + Distance(sn, start)) % SEQ_MODULUS == sn % SEQ_MODULUS
  {}

  /** Moving both numbers by one keeps them equal modulo 4096. */
  lemma NextWrapped(sn: nat, start: nat)
    requires Distance(sn, start) == 0
    ensures (sn + 1) % SEQ_MODULUS == (start + 1) % SEQ_MODULUS
  {}

  /** What the counter of buffered frames loses when the head goes. */
  lemma FilledAdvance(w: Window)
    requires |w.slots| == SIZE
    ensures Filled(w.slots) == Filled(Advance(w, 1).slots) + if w.slots[0].frame.Some? then 1 else 0
  {
    assert w.slots == [w.slots[0]] + w.slots[1..];
    FilledConcat(w.slots[1..], Empties(1));
    FilledZero(Empties(1));
  }

  /** One turn of the drain loop: something is buffered, so the run may go on. */
  lemma DrainTurn(k: Book, i: nat)
    requires |k.win.slots| == SIZE && i <= Run(k.win.slots, 0)
    requires Filled(Released(k, i, true).win.slots) > 0
    ensures i < SIZE
    ensures Popped(Released(k, i, true), true) == Released(k, i + 1, true)
    ensures Released(k, i, true).win.slots[0].frame.Some? ==> i < Run(k.win.slots, 0)
  {
    FilledZero(Released(k, i, true).win.slots);
    ReleasedOneMore(k, i, true);
  }

  /** A drain loop has reached the end of the run once the head is empty or nothing is left. */
  lemma HeadEmptyEndsRun(k: Book, i: nat)
    requires |k.win.slots| == SIZE && i <= Run(k.win.slots, 0)
    requires var v := Released(k, i, true).win; Filled(v.slots) == 0 || v.slots[0].frame.None?
    ensures i == Run(k.win.slots, 0)
  {
    FilledZero(Released(k, i, true).win.slots);
    if i < SIZE { ReleasedOneMore(k, i, true); }
  }

  // ---------------------------------------------------------------- stamping backwards

  /** Stamping offset j when everything after it up to k is stamped. */
  lemma StampOneMore(slots: seq<Slot>, j: nat, k: nat, now: nat)
    requires j <= k < |slots| && slots[j].stamp == 0
    ensures var s := StampedFrom(slots, j + 1, k, now);
      && s[j] == slots[j]
      && s[j := Slot(slots[j].frame, now)] == StampedFrom(slots, j, k, now)
  {}

  /** The window with a frame put at offset k, not yet stamped. */
  function Put(slots: seq<Slot>, k: nat, f: Frame): (r: seq<Slot>)
    requires k < |slots|
    ensures |r| == |slots|
  {
    slots[k := slots[k].(frame := Some(f))]
  }

  lemma FramePut(b: seq<Option<Frame>>, t: seq<nat>, w: Window, k: nat, f: Frame, now: nat)
    requires |b| == |t| == SIZE && k < SIZE && Mirrors(b, t, w)
    ensures Mirrors(b[RingIx(w.start, k) := Some(f)], t, w.(slots := StampedFrom(Put(w.slots, k, f), k + 1, k, now)))
  {
    var i := RingIx(w.start, k);
    EntryWritten(b, t, w, k, Some(f), t[i]);
    assert t[i := t[i]] == t;
    assert StampedFrom(Put(w.slots, k, f), k + 1, k, now) == Put(w.slots, k, f);
  }

  /** One turn of the stamping loop. */
  lemma EntryStamped(b: seq<Option<Frame>>, t: seq<nat>, start: nat, put: seq<Slot>, j: nat, k: nat, now: nat)
    requires |b| == |t| == |put| == SIZE && j <= k < SIZE && t[RingIx(start, j)] == 0
    requires Mirrors(b, t, Window(start, StampedFrom(put, j + 1, k, now)))
    ensures Mirrors(b, t[RingIx(start, j) := now], Window(start, StampedFrom(put, j, k, now)))
  {
    var i := RingIx(start, j);
    EntryWritten(b, t, Window(start, StampedFrom(put, j + 1, k, now)), j, b[i], now);
    assert b[i := b[i]] == b;
    StampOneMore(put, j, k, now);
  }

  /** The backward walk may stop at the first stamped entry: all before it are stamped. */
  lemma WalkMeetsTrail(b: seq<Option<Frame>>, t: seq<nat>, start: nat, slots: seq<Slot>, j: nat, k: nat, f: Frame,
                       now: nat)
    requires |b| == |t| == |slots| == SIZE && j <= k < SIZE && Trail(slots) && t[RingIx(start, j)] > 0
    requires Mirrors(b, t, Window(start, StampedFrom(Put(slots, k, f), j + 1, k, now)))
    ensures StampedFrom(Put(slots, k, f), j + 1, k, now) == Store(slots, k, f, now)
  {
    var put := Put(slots, k, f);
    assert StampedFrom(put, j + 1, k, now)[j] == put[j];
    assert slots[j].stamp > 0;
    forall i | 0 <= i <= j ensures put[i].stamp > 0 {
      assert slots[i].stamp > 0;
    }
    assert StampedFrom(put, j + 1, k, now) == StampedFrom(put, 0, k, now);
  }

  lemma WalkReachesStart(slots: seq<Slot>, k: nat, f: Frame, now: nat)
    requires k < |slots|
    ensures StampedFrom(Put(slots, k, f), 0, k, now) == Store(slots, k, f, now)
  {}

  lemma TimeoutAtRest(w: Window, now: nat, age: nat)
    requires AtRest(w)
    ensures AtRest(Timeout(w, now, age).window)
  {
    TimeoutExact(w, now, age);
  }

  lemma ReceiveAtRest(w: Window, f: Frame, now: nat)
    requires AtRest(w) && now > 0 && StampsBy(w.slots, now) && f.sn < SEQ_MODULUS
    ensures AtRest(Receive(w, f, now).window) && StampsBy(Receive(w, f, now).window.slots, now)
  {
    ReceiveRests(w, f, now);
  }

  /** With nothing buffered no stamp is set, so nothing expires and nothing drains. */
  lemma NothingToTimeOut(w: Window, now: nat, age: nat)
    requires AtRest(w) && Filled(w.slots) == 0
    ensures Timeout(w, now, age) == Outcome(w, [], [], None)
  {
    FilledZero(w.slots);
    assert Advance(w, 0).slots == w.slots;
  }

  /** With nothing buffered the ring is blank, and shows a blank window from any start. */
  lemma BareRing(b: seq<Option<Frame>>, t: seq<nat>, w: Window, start: nat)
    requires |b| == |t| == SIZE && Mirrors(b, t, w)
    requires AtRest(w) && Filled(w.slots) == 0
    ensures Mirrors(b, t, Window(start, w.slots))
  {
    BareWindowRests(w, start);
    forall i | 0 <= i < SIZE ensures b[i].None? && t[i] == 0 {
      var k := OffsetOf(i, w.start);
    }
  }

  // ---------------------------------------------------------------- the driver's state

  predicate TimeoutInRange(timeout: nat) {
    AMPDU_REORDER_TIME_INTERVAL / 2 <= timeout <= AMPDU_REORDER_TIME_INTERVAL * 2
  }

  /** struct atbm_ba_tid_params for one traffic identifier of one link. */
  class ReorderTid {
    const skbReorderBuff: array<Option<Frame>>
    const frameRxTime: array<nat>
    var timerRunning: bool
    var ssn: nat
    var windSize: nat
    var skbBuffed: nat
    var startSeq: nat
    var timeout: nat
    var tidEnabled: bool

    ghost var book: Book  // the window the ring stands for, and what became of the other frames
    var timers: multiset<nat>  // when the timeouts are due that are registered and neither fired nor cancelled

    ghost predicate Valid()
      reads this, skbReorderBuff, frameRxTime
    {
      && skbReorderBuff.Length == frameRxTime.Length == SIZE
      && Mirrors(skbReorderBuff[..], frameRxTime[..], book.win)
      && startSeq == book.win.start % SEQ_MODULUS
      && skbBuffed == Filled(book.win.slots)
    }

    /** The invariant between entry points. */
    ghost predicate Quiet()
      reads this, skbReorderBuff, frameRxTime
    {
      && Valid()
      && AtRest(book.win)
      && (timerRunning <==> skbBuffed > 0)
      && (skbBuffed > 0 ==> tidEnabled && timers != multiset{})
      && (tidEnabled ==> windSize == SIZE && TimeoutInRange(timeout))
    }

    /** The timers and the agreed parameters: what the inner routines leave alone. */
    ghost function Settings(): (bool, nat, nat, nat, bool, multiset<nat>)
      reads this
    {
      (timerRunning, ssn, windSize, timeout, tidEnabled, timers)
    }

    constructor ()
      ensures Quiet() && !tidEnabled && skbBuffed == 0
      ensures book.passed == [] && book.freed == [] && timers == multiset{}
      ensures fresh(skbReorderBuff) && fresh(frameRxTime)
    {
      skbReorderBuff := new Option<Frame>[SIZE](_ => None);
      frameRxTime := new nat[SIZE](_ => 0);
      timerRunning, ssn, windSize, skbBuffed := false, 0, 0, 0;
      startSeq, timeout, tidEnabled := 0, 0, false;
      book, timers := Book(Window(0, Empties(SIZE)), [], []), multiset{};
      new;
      EmptyWindowRests(0);
    }

    /** Puts a frame into the ring and stamps the entries before it. */
    method BuffQueue(index: nat, skb: Frame, now: nat, ghost k: nat)
      requires Valid() && Trail(book.win.slots) && now > 0
      requires k < SIZE && index == RingIx(book.win.start, k) && book.win.slots[k].frame.None?
      modifies this, skbReorderBuff, frameRxTime
      ensures Valid() && Settings() == old(Settings())
      ensures book == Stored(old(book), k, skb, now)
    {
      IndexOfWrapped(book.win.start);
      FramePut(skbReorderBuff[..], frameRxTime[..], book.win, k, skb, now);
      FilledStore(book.win.slots, k, skb, now);
      skbReorderBuff[index] := Some(skb);
      StampBack(index, Ix(startSeq), now, book.win.start, book.win.slots, k, skb);
      book := Stored(book, k, skb, now);
      skbBuffed := skbBuffed + 1;
    }

    /** The stamping loop: backwards to the first stamped entry or to the window start. */
    method StampBack(index: nat, startIndex: nat, now: nat, ghost start: nat, ghost slots: seq<Slot>, ghost k: nat,
                     ghost skb: Frame)
      requires skbReorderBuff.Length == frameRxTime.Length == |slots| == SIZE && Trail(slots) && now > 0
      requires k < SIZE && index == RingIx(start, k) && startIndex == RingIx(start, 0)
      requires Mirrors(skbReorderBuff[..], frameRxTime[..],
        Window(start, StampedFrom(Put(slots, k, skb), k + 1, k, now)))
      modifies frameRxTime
      ensures Mirrors(skbReorderBuff[..], frameRxTime[..], Window(start, Store(slots, k, skb, now)))
    {
      ghost var put := Put(slots, k, skb);
      var i := index;
      ghost var j, atStart := k, false;
      while frameRxTime[i] == 0
        invariant 0 <= j <= k && i == RingIx(start, j) && !atStart
        invariant Mirrors(skbReorderBuff[..], frameRxTime[..], Window(start, StampedFrom(put, j + 1, k, now)))
        decreases j
      {
        EntryStamped(skbReorderBuff[..], frameRxTime[..], start, put, j, k, now);
        frameRxTime[i] := now;
        if startIndex == i {
          OffsetUnique(start, 0, j);
          atStart := true;
          break;
        }
        StepBack(start, j);
        i := (i - 1) % SIZE;
        j := j - 1;
      }
      if atStart {
        WalkReachesStart(slots, k, skb, now);
      } else {
        WalkMeetsTrail(skbReorderBuff[..], frameRxTime[..], start, slots, j, k, skb, now);
      }
    }

    /** Takes one entry out of the ring; a frame in it goes up or is freed. */
    method BuffDequeue(index: nat, uplayer: bool)
      requires skbReorderBuff.Length == frameRxTime.Length == SIZE && index < SIZE
      requires skbReorderBuff[index].Some? ==> skbBuffed > 0
      modifies this, skbReorderBuff, frameRxTime
      ensures skbReorderBuff[..] == old(skbReorderBuff[..])[index := None]
      ensures frameRxTime[..] == old(frameRxTime[..])[index := 0]
      ensures Settings() == old(Settings()) && startSeq == old(startSeq)
      ensures skbBuffed == old(skbBuffed) - if old(skbReorderBuff[index]).Some? then 1 else 0
      ensures book == Book(old(book).win,
        old(book).passed + if uplayer then PassedFrom(old(skbReorderBuff[index]), book.win.start) else [],
        old(book).freed + if uplayer then [] else FreedFrom(old(skbReorderBuff[index])))
    {
      var skb := skbReorderBuff[index];
      if skb.None? {
        frameRxTime[index] := 0;
      } else {
        skbBuffed := skbBuffed - 1;
        frameRxTime[index] := 0;
        skbReorderBuff[index] := None;
        if uplayer {
          book := book.(passed := book.passed + [Passed(book.win.start, skb.value)]);
        } else {
          book := book.(freed := book.freed + [skb.value]);
        }
      }
    }

    /** One turn of every release loop: dequeue the head and move the start by one. */
    method ReleaseHead(uplayer: bool)
      requires Valid()
      modifies this, skbReorderBuff, frameRxTime
      ensures Valid() && Settings() == old(Settings())
      ensures book == Popped(old(book), uplayer)
    {
      hide Trail, InPlace, StampsOrdered, StampsBy, Reach, Run, Frames, Filled, Empties;
      IndexOfWrapped(book.win.start);
      PopHead(skbReorderBuff[..], frameRxTime[..], book.win);
      FilledAdvance(book.win);
      BuffDequeue(Ix(startSeq), uplayer);
      startSeq := (startSeq + 1) % SEQ_MODULUS;
      book := book.(win := Advance(book.win, 1));
    }

    /** Releases the first needFree slots: up (forcefree) or freed (forcedrop). */
    method ForceRelease(needFree: nat, uplayer: bool)
      requires Valid() && needFree <= SIZE
      modifies this, skbReorderBuff, frameRxTime
      ensures Valid() && Settings() == old(Settings())
      ensures book == Released(old(book), needFree, uplayer)
    {
      ghost var k := book;
      ReleasedNone(k, uplayer);
      var i := 0;
      while i < needFree
        invariant 0 <= i <= needFree
        invariant Valid() && Settings() == old(Settings())
        invariant book == Released(k, i, uplayer)
      {
        ReleasedOneMore(k, i, uplayer);
        ReleaseHead(uplayer);
        i := i + 1;
      }
    }

    /** The ring entry at the window start is slot 0. */
    lemma HeadEntry()
      requires Valid()
      ensures book.win.slots[0] == Slot(skbReorderBuff[Ix(startSeq)], frameRxTime[Ix(startSeq)])
    {
      IndexOfWrapped(book.win.start);
    }

    /** Passes up the gapless run at the head. */
    method Uplayer()
      requires Valid()
      modifies this, skbReorderBuff, frameRxTime
      ensures Valid() && Settings() == old(Settings())
      ensures book == Drained(old(book))
    {
      ghost var k := book;
      ghost var i := 0;
      ReleasedNone(k, true);
      var index := Ix(startSeq);
      while skbBuffed > 0
        invariant 0 <= i <= Run(k.win.slots, 0) && index == Ix(startSeq)
        invariant Valid() && Settings() == old(Settings())
        invariant book == Released(k, i, true)
        decreases SIZE - i
      {
        DrainTurn(k, i);
        HeadEntry();
        if skbReorderBuff[index].None? {
          break;
        }
        ReleaseHead(true);
        index := Ix(startSeq);
        i := i + 1;
      }
      HeadEmptyEndsRun(k, i);
    }

    /** The timeout handler's first loop: releases the head while its stamp has expired. */
    method ReleaseExpired(now: nat)
      requires Valid() && windSize == SIZE
      modifies this, skbReorderBuff, frameRxTime
      ensures Valid() && Settings() == old(Settings())
      ensures book == Released(old(book), ExpiredRun(old(book).win.slots, 0, now, old(timeout) / 2), true)
    {
      hide Frames, Frees, Run, Filled, Popped, Advance;
      ghost var k := book;
      ghost var e := ExpiredRun(k.win.slots, 0, now, timeout / 2);
      ReleasedNone(k, true);
      var i := 0;
      var index := Ix(startSeq);
      while i < windSize
        invariant 0 <= i <= e && index == Ix(startSeq)
        invariant Valid() && Settings() == old(Settings())
        invariant book == Released(k, i, true)
      {
        ReleasedOneMore(k, i, true);
        HeadEntry();
        if frameRxTime[index] == 0 {
          break;
        }
        if frameRxTime[index] + timeout / 2 <= now {
          ReleaseHead(true);
        } else {
          break;
        }
        index := Ix(startSeq);
        i := i + 1;
      }
    }

    /** The handler's releases: the expired head slots, then the gapless run. */
    method ReleaseTimedOut(now: nat)
      requires Valid() && windSize == SIZE && AtRest(book.win)
      modifies this, skbReorderBuff, frameRxTime
      ensures Valid() && AtRest(book.win) && Settings() == old(Settings())
      ensures book == After(old(book), Timeout(old(book).win, now, old(timeout) / 2))
    {
      TimeoutAtRest(book.win, now, timeout / 2);
      DrainAfterRelease(book, ExpiredRun(book.win.slots, 0, now, timeout / 2));
      ReleaseExpired(now);
      Uplayer();
    }

    /** atbm_reorder_pkg_timeout, run when a registered timeout fires. */
    method PkgTimeout(due: nat, now: nat)
      requires Quiet() && due in timers
      modifies this, skbReorderBuff, frameRxTime
      ensures Quiet() && tidEnabled == old(tidEnabled) && timeout == old(timeout)
      ensures ssn == old(ssn) && windSize == old(windSize)
      ensures var o := Timeout(old(book).win, now, old(timeout) / 2);
        if tidEnabled
        then book == After(old(book), o) && timers == TimersAfterExpiry(old(timers), due, o, timeout, now)
        else book == old(book) && timers == old(timers) - multiset{due}
    {
      hide Timeout, Mirrors, AtRest, Filled;
      RestShaped(book.win);
      timers := timers - multiset{due};
      if !tidEnabled {
        return;
      }
      if skbBuffed == 0 {
        NothingToTimeOut(book.win, now, timeout / 2);
        return;
      }
      ReleaseTimedOut(now);
      if skbBuffed > 0 {
        timers := timers + multiset{now + timeout};
      } else {
        timerRunning := false;
      }
    }

    /** What atbm_reorder_skb_queue does once the frame is accepted: make room for it,
        buffer it, and pass up the run at the head. */
    method Insert(frame: Frame, now: nat, needFree: nat)
      requires Valid() && Sound(book.win) && now > 0
      requires Accepted(book.win, frame, needFree)
      modifies this, skbReorderBuff, frameRxTime
      ensures Valid() && Settings() == old(Settings())
      ensures book == After(old(book), Receive(old(book).win, frame, now))
    {
      hide Trail, InPlace, StampsOrdered, StampsBy, Reach, Run, Frames, ReleaseThenDrain, Receive;
      RoomMade(book.win, frame, needFree);
      InsertIsReceive(book, frame, now, needFree);
      ReleasedNone(book, true);
      ghost var at := Distance(frame.sn, book.win.start) - needFree;
      if needFree > 0 {
        ForceRelease(needFree, true);
      }
      BuffQueue(Ix(frame.sn), frame, now, at);
      Uplayer();
    }

    /** The frame the window waits for, with nothing buffered: the window just moves on. */
    method DirectHit(frame: Frame)
      requires Valid() && AtRest(book.win) && skbBuffed == 0
      requires frame.sn < SEQ_MODULUS && Distance(frame.sn, book.win.start) == 0
      modifies this
      ensures Valid() && Settings() == old(Settings()) && skbBuffed == 0
      ensures book == old(book).(win := old(book).win.(start := old(book).win.start + 1))
    {
      BareRing(skbReorderBuff[..], frameRxTime[..], book.win, book.win.start + 1);
      NextWrapped(frame.sn, book.win.start);
      startSeq := (frame.sn + 1) % SEQ_MODULUS;
      book := book.(win := book.win.(start := book.win.start + 1));
    }

    /** The locked part of atbm_reorder_skb_queue, up to the timer code:
        `accepted` when the frame went into the ring. */
    method Reorder(frame: Frame, now: nat) returns (res: int, accepted: bool)
      requires Quiet() && tidEnabled && now > 0 && StampsBy(book.win.slots, now) && frame.sn < SEQ_MODULUS
      modifies this, skbReorderBuff, frameRxTime
      ensures Valid() && Settings() == old(Settings())
      ensures book == After(old(book), Receive(old(book).win, frame, now))
      ensures res == if Receive(old(book).win, frame, now).returned.Some? then 0 else -1
      ensures !accepted ==> skbBuffed == old(skbBuffed)
      ensures accepted <==> var o := Receive(old(book).win, frame, now); o.returned.None? && o.freed == []
    {
      hide Receive, Filled, Trail, InPlace, StampsOrdered, Reach, StampsBy;
      ReceiveCases(book.win, frame, now);
      DistanceFromWrapped(frame.sn, book.win.start);
      var index := (frame.sn - startSeq) % SEQ_MODULUS;
      if index == 0 && skbBuffed == 0 {
        DirectHit(frame);
        return 0, false;
      }
      if index >= HALF_SPACE {
        book := book.(freed := book.freed + [frame]);
        return -1, false;
      }
      if index >= windSize {
        var needFree := index - windSize + 1;
        if needFree >= windSize {
          return 0, false;
        }
        Insert(frame, now, needFree);
      } else {
        IndexOfDistance(frame.sn, book.win.start, 0);
        if skbReorderBuff[Ix(frame.sn)].Some? {
          book := book.(freed := book.freed + [frame]);
          return -1, false;
        }
        Insert(frame, now, 0);
      }
      return -1, true;
    }

    /** atbm_reorder_skb_queue: 0 gives the frame back to the caller, -1 keeps it. */
    method SkbQueue(frame: Frame, fragment: bool, qosNull: bool, now: nat) returns (res: int)
      requires Quiet() && now > 0 && StampsBy(book.win.slots, now) && frame.sn < SEQ_MODULUS
      modifies this, skbReorderBuff, frameRxTime
      ensures Quiet() && tidEnabled == old(tidEnabled) && timeout == old(timeout)
      ensures ssn == old(ssn) && windSize == old(windSize)
      ensures fragment || !tidEnabled || qosNull ==> res == 0 && book == old(book) && timers == old(timers)
      ensures !fragment && tidEnabled && !qosNull ==>
        var o := Receive(old(book).win, frame, now);
        && book == After(old(book), o) && res == (if o.returned.Some? then 0 else -1)
        && timers == TimersAfterFrame(old(timers), old(book).win, o, timeout, now)
    {
      hide Mirrors, AtRest, Filled, Receive, Due, StampsBy;
      if fragment || !tidEnabled || qosNull {
        return 0;
      }
      hide Receive, Mirrors, Trail, InPlace, StampsOrdered, Reach, StampsBy, Filled, Due;
      RestShaped(book.win);
      ReceiveAtRest(book.win, frame, now);
      ReceiveMoves(book.win, frame, now);
      var oldStart := startSeq;
      var accepted;
      res, accepted := Reorder(frame, now);
      if accepted {
        FrameTimer(oldStart != startSeq, now);
      }
    }

    /** The timer code behind a frame that went into the ring. */
    method FrameTimer(moved: bool, now: nat)
      requires Valid() && StampsBy(book.win.slots, now)
      modifies `timerRunning, `timers
      ensures timerRunning == (skbBuffed > 0 && (old(timerRunning) || timeout > 0))
      ensures timers == if skbBuffed == 0 then multiset{}
        else if timeout > 0 && (!old(timerRunning) || moved) then multiset{Due(book.win.slots[0].stamp, timeout, now)}
        else old(timers)
    {
      HeadEntry();
      DueInTime(book.win.slots[0].stamp, timeout, now);
      if (!timerRunning || moved) && skbBuffed > 0 && timeout > 0 {
        timerRunning := true;
        var time := now - frameRxTime[Ix(startSeq)];
        timers := multiset{now + if timeout > time then timeout - time else 0};
      } else if skbBuffed == 0 {
        timerRunning := false;
        timers := multiset{};
      }
    }

    /** Passes up a whole window that holds something, then restarts the blank ring elsewhere. */
    method Restart(newSeq: nat, ghost start: nat, uplayer: bool)
      requires Valid() && windSize == SIZE && newSeq == start % SEQ_MODULUS
      modifies this, skbReorderBuff, frameRxTime
      ensures Valid() && Settings() == old(Settings()) && skbBuffed == 0
      ensures book == Book(Window(start, Empties(SIZE)),
        old(book).passed + if uplayer then Frames(old(book).win.start, old(book).win.slots) else [],
        old(book).freed + if uplayer then [] else Frees(old(book).win.slots))
    {
      assert book.win.slots[..SIZE] == book.win.slots;
      assert book.win.slots[SIZE..] + Empties(SIZE) == Empties(SIZE);
      EmptyWindowRests(book.win.start + SIZE);
      ForceRelease(windSize, uplayer);
      BareRing(skbReorderBuff[..], frameRxTime[..], book.win, start);
      startSeq := newSeq;
      book := book.(win := Window(start, Empties(SIZE)));
    }

    /** Moves the start of a window that holds nothing. */
    method Move(newSeq: nat, ghost start: nat)
      requires Valid() && AtRest(book.win) && skbBuffed == 0 && newSeq == start % SEQ_MODULUS
      modifies this
      ensures Valid() && Settings() == old(Settings()) && skbBuffed == 0
      ensures book == old(book).(win := Window(start, Empties(SIZE)))
    {
      BareWindowRests(book.win, start);
      BareRing(skbReorderBuff[..], frameRxTime[..], book.win, start);
      assert book.win.slots == Empties(SIZE);
      startSeq := newSeq;
      book := book.(win := Window(start, Empties(SIZE)));
    }

    /** The releases of an accepted BlockAckReq: the near branch when its number lies within the
        window and something is buffered, the far branch otherwise. */
    method ReleaseBar(newSsn: nat, d: nat)
      requires Valid() && AtRest(book.win) && windSize == SIZE
      requires d == Distance(newSsn, book.win.start) && 0 < d <= HALF_SPACE && newSsn < SEQ_MODULUS
      modifies this, skbReorderBuff, frameRxTime
      ensures Valid() && AtRest(book.win) && Settings() == old(Settings())
      ensures book == After(old(book), BlockAckRequest(old(book).win, newSsn))
    {
      hide Trail, InPlace, StampsOrdered, StampsBy, Reach, Run, Frames, ReleaseThenDrain, Mirrors;
      BlockAckAtRest(book.win, newSsn);
      NumberAtDistance(newSsn, book.win.start);
      if d <= windSize && skbBuffed > 0 {
        DrainAfterRelease(book, d);
        ForceRelease(d, true);
        Uplayer();
      } else if skbBuffed > 0 {
        Restart(newSsn, book.win.start + d, true);
      } else {
        BarOnNothing(book, newSsn);
        Move(newSsn, book.win.start + d);
      }
    }

    /** The BlockAckReq case of atbm_updata_ba_tid_params. */
    method RxBar(newSsn: nat, now: nat)
      requires Quiet() && newSsn < SEQ_MODULUS
      modifies this, skbReorderBuff, frameRxTime
      ensures Quiet() && tidEnabled == old(tidEnabled) && timeout == old(timeout)
      ensures windSize == old(windSize)
        && ssn == if tidEnabled && 0 < (newSsn - old(startSeq)) % 4096 <= 2048 then newSsn else old(ssn)
      ensures var o := BlockAckRequest(old(book).win, newSsn);
        if tidEnabled
        then book == After(old(book), o)
          && timers == TimersAfterBar(old(timers), old(book).win, newSsn, o, timeout, now)
        else book == old(book) && timers == old(timers)
    {
      hide AtRest, BlockAckRequest, Filled, Mirrors;
      RestShaped(book.win);
      if !tidEnabled {
        return;
      }
      DistanceFromWrapped(newSsn, book.win.start);
      var d := (newSsn - startSeq) % SEQ_MODULUS;
      if d > HALF_SPACE || newSsn - startSeq == 0 {
        BarIgnored(book, newSsn);
        return;
      }
      AcceptBar(newSsn, d, now);
    }

    /** A BlockAckReq that is not old. */
    method AcceptBar(newSsn: nat, d: nat, now: nat)
      requires Quiet() && tidEnabled && newSsn < SEQ_MODULUS
      requires d == Distance(newSsn, book.win.start) && 0 < d <= HALF_SPACE
      modifies this, skbReorderBuff, frameRxTime
      ensures Quiet() && tidEnabled && timeout == old(timeout) && windSize == old(windSize) && ssn == newSsn
      ensures var o := BlockAckRequest(old(book).win, newSsn);
        && book == After(old(book), o)
        && timers == TimersAfterBar(old(timers), old(book).win, newSsn, o, timeout, now)
    {
      hide AtRest, BlockAckRequest, Filled, Mirrors;
      RestShaped(book.win);
      BarMoves(book.win, newSsn);
      var preStartSeq := startSeq;
      ReleaseBar(newSsn, d);
      BarTimer(preStartSeq != startSeq, now);
      ssn := newSsn;
    }

    /** The timer code behind an accepted BlockAckReq. */
    method BarTimer(moved: bool, now: nat)
      modifies `timerRunning, `timers
      ensures timerRunning == (skbBuffed > 0 && (old(timerRunning) || timeout > 0))
      ensures timers == if skbBuffed == 0 then multiset{}
        else if timeout > 0 && (!old(timerRunning) || moved) then old(timers) + multiset{now + timeout}
        else old(timers)
    {
      if (!timerRunning || moved) && skbBuffed > 0 && timeout > 0 {
        timerRunning := true;
        timers := timers + multiset{now + timeout};
      } else if skbBuffed == 0 {
        timerRunning := false;
        timers := multiset{};
      }
    }

    /** atbm_reorder_tid_reset: frees whatever is buffered. */
    method TidReset()
      requires Quiet()
      modifies this, skbReorderBuff, frameRxTime
      ensures Quiet() && skbBuffed == 0 && tidEnabled == old(tidEnabled) && timeout == old(timeout)
      ensures ssn == old(ssn) && windSize == old(windSize)
      ensures book == if old(skbBuffed) == 0 then old(book)
        else Book(Window(0, Empties(SIZE)), old(book).passed, old(book).freed + Frees(old(book).win.slots))
      ensures timers == if old(skbBuffed) == 0 then old(timers) else multiset{}
    {
      if !tidEnabled || skbBuffed == 0 {
        return;
      }
      Restart(0, 0, false);
      EmptyWindowRests(0);
      timers := multiset{};
      timerRunning := false;
    }

    /** The DELBA case of atbm_updata_ba_tid_params. */
    method RxDelBa()
      requires Quiet()
      modifies this, skbReorderBuff, frameRxTime
      ensures Quiet() && !tidEnabled && skbBuffed == 0 && timeout == old(timeout)
      ensures if old(tidEnabled) then ssn == 0 && windSize == 0 else ssn == old(ssn) && windSize == old(windSize)
      ensures book == if old(tidEnabled)
        then Book(Window(0, Empties(SIZE)), old(book).passed, old(book).freed + Frees(old(book).win.slots))
        else old(book)
      ensures timers == if old(skbBuffed) == 0 then old(timers) else multiset{}
    {
      FreesOfNone(book.win.slots);
      if !tidEnabled {
        return;
      }
      TidReset();
      tidEnabled := false;
      ssn, windSize := 0, 0;
      EmptyWindowRests(0);
      Move(0, 0);
    }

    /** Empties every entry of the ring. */
    method ClearRing()
      requires skbReorderBuff.Length == frameRxTime.Length == SIZE
      modifies skbReorderBuff, frameRxTime
      ensures forall k :: 0 <= k < SIZE ==> skbReorderBuff[k].None? && frameRxTime[k] == 0
    {
      for i := 0 to SIZE
        invariant forall k :: 0 <= k < i ==> skbReorderBuff[k].None? && frameRxTime[k] == 0
      {
        skbReorderBuff[i] := None;
        frameRxTime[i] := 0;
      }
    }

    /** The timeout of a new session. */
    method Agree(asked: nat)
      modifies `timeout
      ensures timeout == AgreedTimeout(asked)
    {
      timeout := asked;
      if timeout == 0 {
        timeout := AMPDU_REORDER_TIME_INTERVAL;
      } else if timeout >= AMPDU_REORDER_TIME_INTERVAL * 2 {
        timeout := AMPDU_REORDER_TIME_INTERVAL * 2;
      } else if timeout < AMPDU_REORDER_TIME_INTERVAL / 2 {
        timeout := AMPDU_REORDER_TIME_INTERVAL / 2;
      }
    }

    /** The ADDBA case of atbm_updata_ba_tid_params; its only caller asks for the full window. The
        sender's number is `start`, of which the request carries the low bits. */
    method RxAddBa(newSsn: nat, winSize: nat, agreedTimeout: nat, ghost start: nat)
      requires Quiet() && winSize == SIZE && newSsn == start % SEQ_MODULUS
      modifies this, skbReorderBuff, frameRxTime
      ensures Quiet() && tidEnabled && timers == old(timers)
      ensures old(tidEnabled) ==>
        book == old(book) && timeout == old(timeout) && ssn == old(ssn) && windSize == old(windSize)
      ensures !old(tidEnabled) ==>
        skbBuffed == 0 && ssn == newSsn && windSize == winSize && timeout == AgreedTimeout(agreedTimeout)
      ensures !old(tidEnabled) ==> book == old(book).(win := Window(start, Empties(SIZE)))
    {
      hide AtRest, Filled, Mirrors;
      if tidEnabled {
        return;
      }
      ssn := newSsn;
      windSize := winSize;
      Agree(agreedTimeout);
      Blank(newSsn, start);
      tidEnabled := true;
    }

    /** A blank ring at a number. */
    method Blank(newSsn: nat, ghost start: nat)
      requires skbReorderBuff.Length == frameRxTime.Length == SIZE && newSsn == start % SEQ_MODULUS
      modifies `startSeq, `skbBuffed, `book, skbReorderBuff, frameRxTime
      ensures Valid() && AtRest(book.win) && skbBuffed == 0
      ensures book == old(book).(win := Window(start, Empties(SIZE)))
    {
      hide AtRest, Filled;
      startSeq := newSsn % SEQ_MODULUS;
      ClearRing();
      skbBuffed := 0;
      EmptyWindowRests(start);
      book := book.(win := Window(start, Empties(SIZE)));
    }
  }

  lemma BlockAckAtRest(w: Window, ssn: nat)
    requires AtRest(w)
    ensures AtRest(BlockAckRequest(w, ssn).window)
  {
    BlockAckExact(w, ssn);
  }

  lemma FreesOfNone(slots: seq<Slot>)
    ensures Filled(slots) == 0 ==> Frees(slots) == []
  {
    if slots != [] { FreesOfNone(slots[1..]); }
  }

  /** With nothing buffered an accepted BlockAckReq only moves the window. */
  lemma BarOnNothing(k: Book, ssn: nat)
    requires AtRest(k.win) && 0 < Distance(ssn, k.win.start) <= HALF_SPACE && Filled(k.win.slots) == 0
    ensures After(k, BlockAckRequest(k.win, ssn))
            == k.(win := Window(k.win.start + Distance(ssn, k.win.start), Empties(SIZE)))
  {
    var d, w := Distance(ssn, k.win.start), k.win;
    BareWindowRests(w, w.start);
    FramesOfNone(w.start, w.slots);
    if d <= SIZE {
      assert Run(w.slots, d) == 0;
      assert Advance(w, d).slots == Empties(SIZE);
      FilledNoneBelow(w.slots, d);
      FramesOfNone(w.start, w.slots[..d]);
    }
  }

  /** An accepted BlockAckReq always moves the window, by less than the number space. */
  lemma BarMoves(w: Window, ssn: nat)
    requires |w.slots| == SIZE && 0 < Distance(ssn, w.start) <= HALF_SPACE
    ensures BlockAckRequest(w, ssn).window.start % SEQ_MODULUS != w.start % SEQ_MODULUS
  {
    LowBitsTell(w.start, BlockAckRequest(w, ssn).window.start);
  }

  lemma BarIgnored(k: Book, ssn: nat)
    requires |k.win.slots| == SIZE
    requires Distance(ssn, k.win.start) == 0 || Distance(ssn, k.win.start) > HALF_SPACE
    ensures After(k, BlockAckRequest(k.win, ssn)) == k
  {}

  lemma FilledNoneBelow(slots: seq<Slot>, n: nat)
    requires n <= |slots| && Filled(slots) == 0
    ensures Filled(slots[..n]) == 0
  {
    FilledZero(slots);
    FilledZero(slots[..n]);
  }
}
