/** The AP's driver itself: i2c_arbitrator_select() and i2c_arbitrator_deselect() of
    drivers/i2c/muxes/i2c-arb-gpio-challenge.c, run against any behaviour of the EC's line.
    Every call is a run of the steps of module I2cArbitration, and ends in bounded time. */
module I2cDriver {
  import opened I2cArbitration

  /** What the driver meets: what reading the EC's line gives at each time, whether writing the
      own line works then, and how long a pass of a loop takes that starts then. */
  datatype World = World(theirs: nat -> Line, writable: nat -> bool, pass: nat -> nat)

  /** The protocol steps of one call, from the state it was called in. */
  datatype Trail = Called(at: nat, side: Side) | Step(before: Trail, at: nat, side: Side) {
    function Origin(): Trail {
      match this
      case Called(_, _) => this
      case Step(before, _, _) => before.Origin()
    }

    ghost predicate Follows(p: Params, w: World) {
      match this
      case Called(_, _) => true
      case Step(before, t, s) =>
        before.Follows(p, w) && before.at <= t && SideStep(p, t, w.theirs(t), before.side, s)
    }
  }

  /** The readings of one call: all but the last saw the EC's line asserted. */
  ghost predicate BusyBut(w: World, polls: seq<nat>, last: bool) {
    forall i :: 0 <= i < |polls| - (if last then 1 else 0) ==> w.theirs(polls[i]) == Asserted
  }

  /** The readings are in order, and not more than `gap` apart. */
  ghost predicate Spaced(polls: seq<nat>, gap: nat) {
    forall i :: 0 <= i < |polls| - 1 ==> polls[i] <= polls[i + 1] <= polls[i] + gap
  }

  // The readings of a call, the first at `first` and the last not more than `slack` before `now`.
  ghost predicate Dense(polls: seq<nat>, first: nat, gap: nat, now: nat, slack: nat) {
    && polls != [] && polls[0] == first && Spaced(polls, gap)
    && polls[|polls| - 1] <= now <= polls[|polls| - 1] + slack
  }

  // A reading at `now` is the first one, or soon enough after the last one.
  ghost predicate InTime(polls: seq<nat>, first: nat, gap: nat, now: nat) {
    if polls == [] then now == first else Dense(polls, first, gap, now, gap)
  }

  lemma Looked(polls: seq<nat>, first: nat, gap: nat, now: nat)
    requires InTime(polls, first, gap, now)
    ensures Dense(polls + [now], first, gap, now, 0)
  {
    var more := polls + [now];
    forall i | 0 <= i < |more| - 1 ensures more[i] <= more[i + 1] <= more[i] + gap {
      if i + 1 < |polls| { assert more[i + 1] == polls[i + 1]; }
    }
  }

  /** Readings that are close enough do not miss a stretch of time of that length. */
  lemma {:induction false} StretchSeen(polls: seq<nat>, gap: nat, u: nat, n: nat) returns (i: nat)
    requires 0 < gap && Spaced(polls, gap) && n < |polls|
    requires polls[0] < u + gap && u <= polls[n]
    ensures i <= n && u <= polls[i] < u + gap
    decreases n
  {
    if n == 0 || polls[n - 1] < u {
      i := n;
    } else {
      i := StretchSeen(polls, gap, u, n - 1);
    }
  }

  class Arbiter {
    const slewUs: nat
    const retryMs: nat
    const waitMs: nat
    const stepUs: nat           // the longest time that one pass of a loop takes
    const w: World
    var now: nat
    var claim: bool
    ghost var side: Side        // the protocol state this call is in
    ghost var trail: Trail
    ghost var polls: seq<nat>   // when the EC's line was read by the current call

    constructor (slewUs: nat, retryMs: nat, waitMs: nat, stepUs: nat, w: World)
      requires 0 < stepUs
      ensures Valid() && now == 0 && !claim && side == Reset
      ensures P() == DriverParams(slewUs, retryMs, waitMs) && this.w == w && this.stepUs == stepUs
    {
      this.slewUs, this.retryMs, this.waitMs, this.stepUs, this.w := slewUs, retryMs, waitMs, stepUs, w;
      now, claim, side, trail, polls := 0, false, Reset, Called(0, Reset), [];
    }

    ghost predicate Valid()
      reads this
    {
      && 0 < stepUs
      && side.claim == claim
      && Traced()
    }

    // The steps of the current call, up to where it is now.
    ghost predicate Traced()
      reads this
    {
      trail.side == side && trail.at <= now && trail.Follows(P(), w)
    }

    // The time that a pass of a loop takes: not none, and not more than the longest.
    function PassTime(): (us: nat)
      requires 0 < stepUs
      reads this
      ensures 0 < us <= stepUs
    {
      if w.pass(now) == 0 then 1 else if stepUs < w.pass(now) then stepUs else w.pass(now)
    }

    ghost function P(): Params { DriverParams(slewUs, retryMs, waitMs) }

    ghost function End(start: nat): nat {
      start + 1000 * waitMs + slewUs + 2000 * retryMs + 2 * stepUs
    }

    // The own line has been asserted for the slew time, and the last of the readings, all
    // others of which found the EC's line asserted, has just found it released.
    ghost predicate Won()
      reads this
    {
      && side.pc.Owned? && claim && side.changedAt + slewUs <= now
      && BusyBut(w, polls, true)
      && polls != [] && polls[|polls| - 1] == now && w.theirs(now) == Released
    }

    // The longest time between two readings of one call: the passes of both loops at the turn of
    // a round, the back-off and the slew time.
    ghost function Gap(): nat { slewUs + 1000 * retryMs + 2 * stepUs }

    // The readings of the call that started at `start`, with time left for the slew.
    ghost predicate Covered(start: nat)
      reads this
    {
      Dense(polls, start + slewUs, Gap(), now, 1000 * retryMs + 2 * stepUs)
    }

    // Backed off, all readings so far found the EC's line asserted.
    ghost predicate Between(start: nat)
      reads this
    {
      && side.pc.BackingOff? && !claim && side.changedAt <= now
      && side.callStart == start && side.pc.since + 1000 * retryMs <= now
      && BusyBut(w, polls, false)
      && (0 < retryMs ==> Covered(start))
    }

    ghost predicate Flaky() {
      (exists t :: !w.writable(t)) || (exists t :: w.theirs(t) == Unreadable)
    }

    // A call starts here.
    ghost method Restart()
      modifies this`trail, this`polls
      ensures Traced() && trail == Called(now, side) && polls == []
    {
      trail := Called(now, side);
      polls := [];
    }

    // One protocol step, taken at the current time.
    ghost method Record(to: Side)
      requires Traced()
      requires SideStep(P(), now, w.theirs(now), side, to)
      modifies this`side, this`trail
      ensures side == to && trail == Step(old(trail), now, to)
      ensures Traced() && trail.Origin() == old(trail).Origin()
    {
      trail := Step(trail, now, to);
      side := to;
    }

    // dm_gpio_set_value(&priv->ap_claim, on)
    method SetClaim(on: bool) returns (ret: int)
      modifies this`claim
      ensures ret == (if w.writable(now) then 0 else -1)
      ensures claim == (if w.writable(now) then on else old(claim))
    {
      if w.writable(now) { claim := on; ret := 0; } else { ret := -1; }
    }

    // Reads the EC's line once.
    method Look(ghost first: nat) returns (seen: Line)
      requires Valid() && side.pc.Polling? && claim && Ms(now) < Ms(side.pc.since) + retryMs
      requires BusyBut(w, polls, false) && InTime(polls, first, Gap(), now)
      modifies this`side, this`trail, this`polls
      ensures Valid() && trail.Origin() == old(trail).Origin()
      ensures seen == w.theirs(now) && polls == old(polls) + [now] && Dense(polls, first, Gap(), now, 0)
      ensures BusyBut(w, polls, seen != Asserted)
      ensures side == match seen
                      case Asserted => old(side)
                      case Released => old(side).(pc := Owned, ownedAt := now)
                      case Unreadable => old(side).(pc := Faulted)
    {
      Looked(polls, first, Gap(), now);
      polls := polls + [now];
      seen := w.theirs(now);
      if seen == Unreadable {
        Record(side.(pc := Faulted));
      } else if seen == Released {
        Record(side.(pc := Owned, ownedAt := now));
      } else {
        Record(side);
      }
    }

    // Reads the EC's line until it is released, fails to read, or the retry time is over.
    method Watch(ghost first: nat) returns (seen: Line)
      requires Valid() && side.pc == Polling(now) && claim
      requires BusyBut(w, polls, false) && (0 < retryMs ==> InTime(polls, first, Gap(), now))
      modifies this`now, this`side, this`trail, this`polls
      ensures Valid() && trail.Origin() == old(trail).Origin()
      ensures old(now) <= now <= old(now) + 1000 * retryMs + stepUs
      ensures 0 < retryMs ==> old(polls) < polls && polls[|old(polls)|] == old(now)
      ensures 0 < retryMs ==> Dense(polls, first, Gap(), now, stepUs)
      ensures seen == Asserted ==>
                && side == old(side) && Ms(old(now)) + retryMs <= Ms(now) && BusyBut(w, polls, false)
                && (0 < retryMs ==> w.theirs(old(now)) == Asserted)
      ensures seen == Released ==>
                && side == old(side).(pc := Owned, ownedAt := now) && BusyBut(w, polls, true)
                && polls != [] && polls[|polls| - 1] == now && w.theirs(now) == Released
      ensures seen == Unreadable ==>
                side == old(side).(pc := Faulted) && w.theirs(now) == Unreadable && Flaky()
      ensures 0 < retryMs && w.theirs(old(now)) == Released ==> seen == Released && now == old(now)
    {
      var startRetry := Ms(now);
      while Ms(now) < startRetry + retryMs
        invariant Valid() && trail.Origin() == old(trail).Origin() && old(now) <= now
        invariant side == old(side)
        invariant now <= old(now) + 1000 * retryMs + stepUs
        invariant old(polls) <= polls && BusyBut(w, polls, false)
        invariant now == old(now) ==> polls == old(polls)
        invariant old(now) < now ==>
                    && |old(polls)| < |polls| && polls[|old(polls)|] == old(now)
                    && w.theirs(old(now)) == Asserted && Dense(polls, first, Gap(), now, stepUs)
        decreases (startRetry + retryMs) * 1000 - now
      {
        seen := Look(first);
        if seen != Asserted { return; }
        now := now + PassTime();
      }
      seen := Asserted;
    }

    // Asserts the own line and lets the slew time pass.
    method Claim(first: bool) returns (ret: int)
      requires Valid()
      requires if first then side.pc.Idle? || side.pc.Faulted?
               else && side.pc.BackingOff? && side.pc.since + 1000 * retryMs <= now
                    && Ms(now) < Ms(side.callStart) + waitMs
      modifies this`now, this`claim, this`side, this`trail
      ensures Valid() && trail.Origin() == old(trail).Origin()
      ensures ret == 0 <==> w.writable(old(now))
      ensures ret != 0 ==> side.pc.Faulted? && Flaky() && now == old(now)
      ensures ret == 0 ==>
                && claim && side.pc == Polling(now) && now == old(now) + slewUs
                && side.callStart == (if first then old(now) else old(side.callStart))
                && side.changedAt == old(side).SetClaim(true, old(now)).changedAt
    {
      ret := SetClaim(true);
      if ret != 0 {
        Record(side.(pc := Faulted));
        return;
      }
      if first {
        Record(side.SetClaim(true, now).(pc := Slewing(now), callStart := now));
      } else {
        Record(side.SetClaim(true, now).(pc := Slewing(now)));
      }
      now := now + slewUs;
      Record(side.(pc := Polling(now)));
    }

    // Releases the own line again and waits for the retry time.
    method BackOff() returns (ret: int)
      requires Valid() && side.pc.Polling? && Ms(side.pc.since) + retryMs <= Ms(now)
      requires side.changedAt <= now
      modifies this`now, this`claim, this`side, this`trail
      ensures Valid() && trail.Origin() == old(trail).Origin()
      ensures ret == 0 <==> w.writable(old(now))
      ensures ret != 0 ==> side.pc.Faulted? && Flaky() && now == old(now)
      ensures ret == 0 ==>
                && !claim && side.pc == BackingOff(old(now)) && side.callStart == old(side.callStart)
                && old(now) + 1000 * retryMs < now <= old(now) + 1000 * retryMs + stepUs && side.changedAt <= now
    {
      ret := SetClaim(false);
      if ret != 0 {
        Record(side.(pc := Faulted));
        return;
      }
      Record(side.SetClaim(false, now).(pc := BackingOff(now)));
      now := now + 1000 * retryMs + PassTime();
    }

    // One round: assert, watch, back off.  `done` says that the call returns.
    method Round(first: bool) returns (done: bool, ret: int)
      requires Valid() && BusyBut(w, polls, false) && side.changedAt <= now
      requires if first then (side.pc.Idle? || side.pc.Faulted?) && polls == []
               else Between(side.callStart) && side.callStart <= now
                    && Ms(now) < Ms(side.callStart) + waitMs
      modifies this
      ensures Valid() && trail.Origin() == old(trail).Origin()
      ensures old(now) <= now <= old(now) + slewUs + 2000 * retryMs + 2 * stepUs
      ensures !done ==> old(now) < now && Between(if first then old(now) else old(side.callStart))
      ensures !done && 0 < retryMs ==> w.theirs(old(now) + slewUs) == Asserted
      ensures done && ret == 0 ==> Won()
      ensures done && ret != 0 ==> side.pc.Faulted? && Flaky()
      ensures w.writable(old(now)) && 0 < retryMs && w.theirs(old(now) + slewUs) == Released ==>
                done && ret == 0 && claim && now == old(now) + slewUs
    {
      ret := Claim(first);
      if ret != 0 { return true, ret; }
      done, ret := Contend(side.callStart);
    }

    // With the own line asserted: watch, and back off if the EC does not release its line.
    method Contend(ghost start: nat) returns (done: bool, ret: int)
      requires Valid() && BusyBut(w, polls, false) && side.pc == Polling(now) && claim
      requires 0 < retryMs ==> InTime(polls, start + slewUs, Gap(), now)
      requires side.changedAt + slewUs <= now && side.callStart == start <= now
      modifies this
      ensures Valid() && trail.Origin() == old(trail).Origin()
      ensures old(now) <= now <= old(now) + 2000 * retryMs + 2 * stepUs
      ensures !done ==> old(now) < now && Between(start)
      ensures !done && 0 < retryMs ==> w.theirs(old(now)) == Asserted
      ensures done && ret == 0 ==> Won()
      ensures done && ret != 0 ==> side.pc.Faulted? && Flaky()
      ensures 0 < retryMs && w.theirs(old(now)) == Released ==> done && ret == 0 && claim && now == old(now)
    {
      var seen := Watch(start + slewUs);
      if seen == Unreadable { return true, -1; }
      if seen == Released { return true, 0; }
      ret := BackOff();
      done := ret != 0;
    }

    // The wait time is over.
    ghost method GiveUp()
      requires Valid() && side.pc.BackingOff? && side.pc.since + 1000 * retryMs <= now
      requires Ms(side.callStart) + waitMs <= Ms(now)
      modifies this`side, this`trail
      ensures Valid() && trail.Origin() == old(trail).Origin()
      ensures side == old(side).(pc := TimedOut)
    {
      Record(side.(pc := TimedOut));
    }

    /** One claim attempt. */
    method Select() returns (ret: int)
      requires Valid() && (side.pc.Idle? || side.pc.Faulted?) && side.changedAt <= now
      modifies this
      // the call is a run of the protocol, from where it was called to where it returns
      ensures Valid() && trail.Origin() == Called(old(now), old(side))
      // it ends in bounded time
      ensures old(now) <= now <= End(old(now))
      // what the return value says
      ensures ret == 0 <==> side.UsesBus()
      ensures ret != 0 ==> side.pc.Faulted? && Flaky()
      ensures ret == 0 && claim ==> Won()
      ensures ret == 0 && !claim ==>
                side.pc.TimedOut? && BusyBut(w, polls, false) && Ms(old(now)) + waitMs <= Ms(now)
      // a free bus is taken after one slew time
      ensures w.writable(old(now)) && 0 < retryMs && w.theirs(old(now) + slewUs) == Released ==>
                ret == 0 && claim && now == old(now) + slewUs
      // a timeout is not for want of looking: the line was read from the first slew time on, without
      // a gap longer than Gap(), until not long before the end
      ensures ret == 0 && !claim && 0 < retryMs ==> Covered(old(now))
    {
      var start := Ms(now);
      ghost var t0 := now;
      ghost var free := w.writable(now) && 0 < retryMs && w.theirs(now + slewUs) == Released;
      Restart();
      var done;
      done, ret := Round(true);
      while !done && Ms(now) < start + waitMs
        invariant Valid() && trail.Origin() == Called(old(now), old(side))
        invariant t0 <= now <= End(t0)
        invariant !done ==> Between(t0)
        invariant done && ret == 0 ==> Won()
        invariant done && ret != 0 ==> side.pc.Faulted? && Flaky()
        invariant free ==> done && ret == 0 && claim && now == t0 + slewUs
        decreases !done, (start + waitMs) * 1000 - now
      {
        done, ret := Round(false);
      }
      if !done {
        GiveUp();
        ret := 0;
      }
    }

    /** A bus that is free for good from `freeFrom` on, whatever was before, with working lines and
        a retry time of the wait time left by then, is always obtained. */
    method SelectFreed(ghost freeFrom: nat) returns (ret: int)
      requires Valid() && (side.pc.Idle? || side.pc.Faulted?) && side.changedAt <= now
      requires forall t :: w.writable(t)
      requires forall t :: w.theirs(t) != Unreadable && (freeFrom <= t ==> w.theirs(t) == Released)
      requires 0 < retryMs
      requires freeFrom + 1000 * retryMs + 2 * stepUs + 999 <= now + 1000 * waitMs
      modifies this
      ensures Valid() && ret == 0 && claim && side.pc.Owned?
    {
      ret := Select();
    }

    /** A bus that is free for as long as the longest time between two readings, early enough in the
        wait time, is obtained, whatever the line does before and after. */
    method SelectWindow(ghost u: nat) returns (ret: int)
      requires Valid() && (side.pc.Idle? || side.pc.Faulted?) && side.changedAt <= now <= u
      requires forall t :: w.writable(t)
      requires forall t :: w.theirs(t) != Unreadable
      requires forall t :: u <= t < u + Gap() ==> w.theirs(t) == Released
      requires 0 < retryMs && u + 1000 * retryMs + 2 * stepUs + 999 <= now + 1000 * waitMs
      modifies this
      ensures Valid() && ret == 0 && claim && side.pc.Owned?
    {
      ret := Select();
      if !claim {
        ghost var i := StretchSeen(polls, Gap(), u, |polls| - 1);
        assert false;
      }
    }

    /** So the tie with a side that follows the protocol is broken by its back-off, if that shows a
        released line for long enough: it lasts `ecRetryMs` from `since` on and is certain to be
        seen after `visibleUs`. */
    method SelectBackOff(ghost since: nat, ghost ecRetryMs: nat, ghost visibleUs: nat) returns (ret: int)
      requires Valid() && (side.pc.Idle? || side.pc.Faulted?) && side.changedAt <= now <= since + visibleUs
      requires forall t :: w.writable(t)
      requires forall t :: w.theirs(t) != Unreadable
      requires forall t :: since + visibleUs <= t < since + 1000 * ecRetryMs ==> w.theirs(t) == Released
      requires visibleUs + Gap() <= 1000 * ecRetryMs
      requires 0 < retryMs && since + visibleUs + 1000 * retryMs + 2 * stepUs + 999 <= now + 1000 * waitMs
      modifies this
      ensures Valid() && ret == 0 && claim && side.pc.Owned?
    {
      ret := SelectWindow(since + visibleUs);
    }

    /** Giving the bus back. */
    method Deselect() returns (ret: int)
      requires Valid() && side.UsesBus()
      modifies this
      ensures Valid() && trail.Origin() == Called(old(now), old(side))
      ensures now == old(now) + slewUs
      ensures ret == 0 <==> w.writable(old(now))
      ensures ret == 0 ==> !claim && side.pc.Idle?
      ensures ret != 0 ==> claim == old(claim) && side.pc.Faulted?
    {
      Restart();
      ret := SetClaim(false);
      if ret == 0 {
        Record(side.SetClaim(false, now).(pc := Idle));
      } else {
        Record(side.(pc := Faulted));
      }
      now := now + slewUs;
    }
  }
}
