/** The timeouts that the entry points of the reorder buffer register, cancel and replace. */
module ReorderTimers {
  import opened ReorderWindow

  // A timeout is known by the time it is due; several may be registered at once, and cancelling
  // takes all of them.

  /** When the timeout is due that is registered for a head with this stamp: once the session's
      timeout has run out since then, or at once. */
  function Due(stamp: nat, timeout: nat, now: nat): nat {
    if stamp + timeout > now then stamp + timeout else now
  }

  /** A frame that was buffered or let others go up: with nothing left every timeout is cancelled;
      a first frame or a new head replaces them by one. */
  function TimersAfterFrame(timers: multiset<nat>, w: Window, o: Outcome, timeout: nat, now: nat): multiset<nat>
    requires |o.window.slots| == SIZE
  {
    if o.returned.Some? || o.freed != [] then timers
    else if Filled(o.window.slots) == 0 then multiset{}
    else if timeout > 0 && (Filled(w.slots) == 0 || o.window.start != w.start) then
      multiset{Due(o.window.slots[0].stamp, timeout, now)}
    else timers
  }

  /** An accepted BlockAckReq adds one. */
  function TimersAfterBar(timers: multiset<nat>, w: Window, ssn: nat, o: Outcome, timeout: nat,
                          now: nat): multiset<nat> {
    var d := Distance(ssn, w.start);
    if d == 0 || d > HALF_SPACE then timers
    else if Filled(o.window.slots) == 0 then multiset{}
    else if timeout > 0 then timers + multiset{now + timeout}
    else timers
  }

  /** The one that fired is gone; with something left the handler registers the next. */
  function TimersAfterExpiry(timers: multiset<nat>, due: nat, o: Outcome, timeout: nat, now: nat): multiset<nat> {
    timers - multiset{due} + if Filled(o.window.slots) > 0 then multiset{now + timeout} else multiset{}
  }
}
