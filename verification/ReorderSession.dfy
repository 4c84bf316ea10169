/** The driver's state played against the runs of ReorderRuns.dfy: whatever events happen, the ring
    and its caller do what the session model says. */
module ReorderSession {
  import opened Options
  import opened ReorderWindow
  import opened ReorderTimers
  import opened ReorderSteps
  import opened ReorderRuns
  import opened ReorderRing

  /** The session that the driver's state stands for. */
  ghost function SessionOf(t: ReorderTid): Session
    reads t
  {
    Session(t.tidEnabled, t.book.win, t.timeout, t.timers)
  }

  /** The frame handed back for an event, under the number it is passed up with. */
  ghost function HandedBack(s: Session, e: Event, back: Option<Frame>): seq<Passed> {
    match back
    case None => []
    case Some(f) =>
      var number := if e.Arrival? && Aside(s, e) then e.number else s.window.start + Distance(f.sn, s.window.start);
      [Passed(number, f)]
  }

  /** What the ring has released and freed since an earlier state of its book, and what came back,
      are the model's step. */
  ghost predicate Plays(s: Session, e: Event, was: Book, t: ReorderTid, back: Option<Frame>)
    reads t
    requires |s.window.slots| == SIZE
  {
    var r := Step(s, e);
    && SessionOf(t) == r.session
    && t.book.passed + HandedBack(s, e, back) == was.passed + r.up
    && t.book.freed == was.freed + r.freed
  }

  /** A frame from the air. */
  method HandleArrival(t: ReorderTid, e: Event, clock: nat) returns (back: Option<Frame>)
    requires t.Quiet() && e.Arrival? && Timely(e, clock) && StampsBy(t.book.win.slots, clock)
    modifies t, t.skbReorderBuff, t.frameRxTime
    ensures t.Quiet() && |old(SessionOf(t)).window.slots| == SIZE && Plays(old(SessionOf(t)), e, old(t.book), t, back)
  {
    hide AtRest, Receive;
    RestShaped(t.book.win);
    OlderStamps(t.book.win.slots, clock, e.now);
    ghost var s, was := SessionOf(t), t.book;
    var frame := Frame(e.id, e.number % SEQ_MODULUS);
    var res := t.SkbQueue(frame, e.fragment, e.qosNull, e.now);
    back := if res == 0 then Some(frame) else None;
    if !Aside(s, e) {
      ReceiveConserves(frame, s.window, frame, e.now);
      Regroup(was, Receive(s.window, frame, e.now), HandedBack(s, e, back));
    }
  }

  lemma Regroup(was: Book, o: Outcome, back: seq<Passed>)
    ensures After(was, o).passed + back == was.passed + (o.passed + back)
  {}

  /** A BlockAckReq, or the firing of a timeout that is registered. */
  method HandleRelease(t: ReorderTid, e: Event)
    requires t.Quiet() && (e.BlockAck? || (e.Expiry? && e.due in t.timers))
    modifies t, t.skbReorderBuff, t.frameRxTime
    ensures t.Quiet() && |old(SessionOf(t)).window.slots| == SIZE && Plays(old(SessionOf(t)), e, old(t.book), t, None)
  {
    hide BlockAckRequest, Timeout, AtRest, Mirrors, TimersAfterBar, TimersAfterExpiry, Filled;
    RestShaped(t.book.win);
    if e.BlockAck? {
      t.RxBar(e.number % SEQ_MODULUS, e.now);
    } else {
      t.PkgTimeout(e.due, e.now);
    }
  }

  /** Any other event. A timeout fires only while registered. */
  method HandleOther(t: ReorderTid, e: Event, clock: nat)
    requires t.Quiet() && !e.Arrival? && Timely(e, clock)
    modifies t, t.skbReorderBuff, t.frameRxTime
    ensures t.Quiet() && |old(SessionOf(t)).window.slots| == SIZE && Plays(old(SessionOf(t)), e, old(t.book), t, None)
  {
    hide BlockAckRequest, Timeout, AtRest, Mirrors, TimersAfterBar, TimersAfterExpiry;
    RestShaped(t.book.win);
    match e {
      case AddBa(number, asked) =>
        t.RxAddBa(number % SEQ_MODULUS, SIZE, asked, number);
      case DelBa =>
        t.RxDelBa();
      case BlockAck(_, _) =>
        HandleRelease(t, e);
      case Expiry(due, _) =>
        if due in t.timers {
          HandleRelease(t, e);
        }
    }
  }

  /** One event of a run. */
  method Handle(t: ReorderTid, e: Event, clock: nat) returns (back: Option<Frame>)
    requires t.Quiet() && Timely(e, clock) && StampsBy(t.book.win.slots, clock)
    modifies t, t.skbReorderBuff, t.frameRxTime
    ensures t.Quiet() && StampsBy(t.book.win.slots, Later(e, clock))
    ensures |old(SessionOf(t)).window.slots| == SIZE && Plays(old(SessionOf(t)), e, old(t.book), t, back)
  {
    hide Step, StampsBy, Timely;
    SettledState(t);
    StepSettles(SessionOf(t), e, clock);
    if e.Arrival? {
      back := HandleArrival(t, e, clock);
    } else {
      HandleOther(t, e, clock);
      back := None;
    }
  }

  lemma SettledState(t: ReorderTid)
    requires t.Quiet()
    ensures Settled(SessionOf(t)) && |SessionOf(t).window.slots| == SIZE
  {}

  /** The rest of a run after its first event. */
  lemma OneMoreEvent(s: Session, es: seq<Event>, i: nat, up: seq<Passed>, freed: seq<Frame>)
    requires |s.window.slots| == SIZE && i < |es|
    ensures var r, first := Replay(s, es[i..]), Step(s, es[i]);
      var rest := Replay(first.session, es[i + 1..]);
      && r.session == rest.session && up + r.up == (up + first.up) + rest.up
        && freed + r.freed == (freed + first.freed) + rest.freed
  {
    assert es[i..][0] == es[i] && es[i..][1..] == es[i + 1..];
  }

  lemma ClockGoesOn(es: seq<Event>, i: nat, clock: nat)
    requires i < |es| && Clocked(es[i..], clock)
    ensures Timely(es[i], clock) && Clocked(es[i + 1..], Later(es[i], clock))
  {
    assert es[i..][0] == es[i] && es[i..][1..] == es[i + 1..];
  }

  /** What an event adds to what went up. */
  lemma Added(now: seq<Passed>, back: seq<Passed>, was: seq<Passed>, up: seq<Passed>)
    requires now + back == was + up
    ensures |was| <= |now + back| && (now + back)[|was|..] == up
  {}

  /** The driver over a whole run: what goes up, what is freed and the state at the end are the
      model's, from any state between events and for any events whatever. */
  method Drive(t: ReorderTid, es: seq<Event>, clock: nat) returns (ghost up: seq<Passed>)
    requires t.Quiet() && Clocked(es, clock) && StampsBy(t.book.win.slots, clock)
    modifies t, t.skbReorderBuff, t.frameRxTime
    ensures t.Quiet()
    ensures |old(SessionOf(t)).window.slots| == SIZE
    ensures var r := Replay(old(SessionOf(t)), es);
      && SessionOf(t) == r.session && up == r.up && t.book.freed == old(t.book).freed + r.freed
  {
    hide Step, StampsBy, Timely, Replay, Clocked, HandedBack;
    SettledState(t);
    ghost var r, was := Replay(SessionOf(t), es), t.book.freed;
    ghost var freed: seq<Frame> := [];
    up := [];
    var at := clock;
    assert es[0..] == es && [] + r.up == r.up && [] + r.freed == r.freed && was + [] == was;
    for i := 0 to |es|
      invariant t.Quiet() && |SessionOf(t).window.slots| == SIZE
      invariant Clocked(es[i..], at) && StampsBy(t.book.win.slots, at)
      invariant t.book.freed == was + freed
      invariant var rest := Replay(SessionOf(t), es[i..]);
        r.session == rest.session && r.up == up + rest.up && r.freed == freed + rest.freed
    {
      ghost var s, book := SessionOf(t), t.book;
      ClockGoesOn(es, i, at);
      OneMoreEvent(s, es, i, up, freed);
      var back := Handle(t, es[i], at);
      ghost var first := Step(s, es[i]);
      ghost var handed := HandedBack(s, es[i], back);
      Added(t.book.passed, handed, book.passed, first.up);
      up := up + (t.book.passed + handed)[|book.passed|..];
      assert was + (freed + first.freed) == (was + freed) + first.freed;
      freed := freed + first.freed;
      at := Later(es[i], at);
      SettledState(t);
    }
    NoMoreEvents(SessionOf(t), es);
  }

  lemma NoMoreEvents(s: Session, es: seq<Event>)
    requires |s.window.slots| == SIZE
    ensures Replay(s, es[|es|..]) == Play(s, [], [])
  {}
}
