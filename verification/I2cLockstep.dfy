/** A timeout does not mean that the other side hangs: two sides with the same delays that claim the
    bus at the same moment keep each other from it until both give up, and nobody has used it.  What
    breaks the tie is a back-off that is long enough for the other side to look; see the methods
    SelectWindow and SelectBackOff of module I2cDriver. */
module I2cLockstep {
  import opened I2cArbitration

  /** Neither side has used the bus at any moment of the run. */
  predicate Unused(r: Run) {
    && (forall x :: 0 <= x < |r.s.sides| ==> !r.s.sides[x].UsesBus())
    && (r.Then? ==> Unused(r.before))
  }

  function LineOf(s: Side): Line { if s.claim then Asserted else Released }

  /** No resets, and every reading is what the line was at that moment. */
  predicate Truthful(r: Run) {
    match r
    case Start(_) => true
    case Then(before, a, _) =>
      && Truthful(before)
      && match a
         case Pass(_) => true
         case Drive(x, seen) => x < 2 && |before.s.sides| == 2 && seen == LineOf(before.s.sides[Other(x)])
         case PowerCycle(_) => false
  }

  // A run of this kind in which both sides are in state `s` at `now`.
  predicate Together(b: Bus, r: Run, now: nat, s: Side)
    requires b.Valid()
  {
    IsRun(b, r) && Unused(r) && Truthful(r) && r.s == State(now, [s, s])
  }

  ghost predicate Meet(b: Bus, now: nat, s: Side)
    requires b.Valid()
  {
    exists r: Run :: Together(b, r, now, s)
  }

  lemma MeetLater(b: Bus, now: nat, s: Side, us: nat)
    requires b.Valid() && Meet(b, now, s)
    ensures Meet(b, now + us, s)
  {
    var r: Run :| Together(b, r, now, s);
    assert Together(b, Then(r, Pass(us), State(now + us, [s, s])), now + us, s);
  }

  // Both sides take the same step; the reading that counts is one of the line before it.
  lemma MeetStep(b: Bus, now: nat, s: Side, s': Side)
    requires b.Valid() && b.sides[0] == b.sides[1] && Meet(b, now, s) && !s'.UsesBus()
    requires SideStep(b.sides[0], now, LineOf(s), s, s') && SideStep(b.sides[0], now, LineOf(s'), s, s')
    ensures Meet(b, now, s')
  {
    var r: Run :| Together(b, r, now, s);
    var r1 := Then(r, Drive(0, LineOf(s)), State(now, [s', s]));
    assert [s, s][0 := s'] == [s', s] && [s', s][1 := s'] == [s', s'];
    assert IsRun(b, r1) && Unused(r1) && Truthful(r1);
    assert Together(b, Then(r1, Drive(1, LineOf(s')), State(now, [s', s'])), now, s');
  }

  /** One round, from the moment the lines are asserted: both look, find the other line asserted,
      and back off; the state in which the next round starts or both give up. */
  function BackedOffAfter(p: Params, now: nat, s: Side): (nat, Side) {
    var off := now + p.slewUs + 1000 * p.retryMs;
    (off + 1000 * p.retryMs + 1, s.SetClaim(false, off).(pc := BackingOff(off)))
  }

  lemma MeetLook(b: Bus, now: nat, s: Side)
    requires b.Valid() && b.sides[0] == b.sides[1] && Meet(b, now, s) && s.claim && s.pc == Slewing(now)
    ensures var p := b.sides[0];
            var look := now + p.slewUs;
            Meet(b, look + 1000 * p.retryMs, s.(pc := Polling(look)))
  {
    var p := b.sides[0];
    var look := now + p.slewUs;
    MeetLater(b, now, s, p.slewUs);
    var polling := s.(pc := Polling(look));
    MeetStep(b, look, s, polling);
    if 0 < p.retryMs { MeetStep(b, look, polling, polling); }
    MeetLater(b, look, polling, 1000 * p.retryMs);
  }

  lemma MeetRound(b: Bus, now: nat, s: Side)
    requires b.Valid() && b.sides[0] == b.sides[1] && Meet(b, now, s) && s.claim && s.pc == Slewing(now)
    ensures var after := BackedOffAfter(b.sides[0], now, s); Meet(b, after.0, after.1)
  {
    var p := b.sides[0];
    MeetLook(b, now, s);
    var polling := s.(pc := Polling(now + p.slewUs));
    var off := now + p.slewUs + 1000 * p.retryMs;
    var backed := s.SetClaim(false, off).(pc := BackingOff(off));
    MeetStep(b, off, polling, backed);
    MeetLater(b, off, backed, 1000 * p.retryMs + 1);
  }

  /** The wait time is over and the next step is to give up. */
  predicate GivesUp(p: Params, now: nat, s: Side) {
    s.pc.BackingOff? && s.pc.since + 1000 * p.retryMs <= now && Ms(s.callStart) + p.waitMs <= Ms(now)
  }

  lemma {:induction false} MeetRounds(b: Bus, now: nat, s: Side) returns (now': nat, s': Side)
    requires b.Valid() && b.sides[0] == b.sides[1] && Meet(b, now, s) && s.claim && s.pc == Slewing(now)
    ensures Meet(b, now', s') && GivesUp(b.sides[0], now', s')
    decreases 1000 * (Ms(s.callStart) + b.sides[0].waitMs + 1) - now
  {
    MeetRound(b, now, s);
    var after := BackedOffAfter(b.sides[0], now, s);
    now', s' := after.0, after.1;
    if Ms(now') < Ms(s.callStart) + b.sides[0].waitMs {
      var again := s'.SetClaim(true, now').(pc := Slewing(now'));
      MeetStep(b, now', s', again);
      now', s' := MeetRounds(b, now', again);
    }
  }

  /** Whatever the delays, if both sides have the same: a run without resets or faulty readings in
      which both have tried for the whole wait time and give up, and nobody ever used the bus. */
  lemma LockstepRun(b: Bus) returns (r: Run)
    requires b.Valid() && b.sides[0] == b.sides[1]
    ensures IsRun(b, r) && Unused(r) && Truthful(r) && |r.s.sides| == 2
    ensures forall x :: 0 <= x < 2 ==> GivesUp(b.sides[x], r.s.now, r.s.sides[x])
  {
    assert Together(b, Start(State(0, [Reset, Reset])), 0, Reset);
    var s := Reset.SetClaim(true, 0).(pc := Slewing(0), callStart := 0);
    MeetStep(b, 0, Reset, s);
    var now, s' := MeetRounds(b, 0, s);
    r :| Together(b, r, now, s');
  }

  // ---------------------------------------------------------------- what a back-off gives

  predicate BackedOff(s: Side) { s.pc.BackingOff? ==> !s.claim && s.changedAt <= s.pc.since }

  lemma {:induction false} BackOffInv(b: Bus, r: Run)
    requires b.Valid() && IsRun(b, r)
    ensures |r.s.sides| == 2 && forall x :: 0 <= x < 2 ==> BackedOff(r.s.sides[x]) && r.s.sides[x].changedAt <= r.s.now
    decreases r
  {
    match r
    case Start(_) =>
    case Then(before, _, _) => BackOffInv(b, before);
  }

  /** In every run, a side that backs off shows a released line: once that has settled, no reading
      of the other side finds it asserted, until the retry time is over and it may claim again. */
  lemma BackOffShows(b: Bus, r: Run, x: nat, seen: Line)
    requires b.Valid() && IsRun(b, r) && x < 2 && r.s.sides[x].pc.BackingOff?
    requires r.s.sides[x].pc.since + b.visibleUs <= r.s.now && MayRead(b, r.s.sides[x], r.s.now, seen)
    ensures seen != Asserted
    ensures forall s': Side, theirs: Line ::
              SideStep(b.sides[x], r.s.now, theirs, r.s.sides[x], s') && s'.claim ==>
              r.s.sides[x].pc.since + 1000 * b.sides[x].retryMs <= r.s.now
  {
    BackOffInv(b, r);
  }
}
