/** Two masters (AP and EC) sharing one I2C bus through two claim lines.

    A processor asserts its own line, waits for the slew time, and polls the other line;
    see drivers/i2c/muxes/i2c-arb-gpio-challenge.c.  Time is in microseconds; the driver's
    timer counts whole milliseconds.  A change of a line is certain to be visible to the
    other side `visibleUs` after it was made, and until then the other side may read either
    value.  Both sides run the same algorithm, each with delays of its own, and either side
    can be reset at any moment. */
module I2cArbitration {

  /** What one side is configured with.  `reportsTimeout` says whether a claim attempt
      that runs out of time is reported to the caller as an error. */
  datatype Params = Params(slewUs: nat, retryMs: nat, waitMs: nat, reportsTimeout: bool)

  /** The driver in this repository: the error code of the timeout is overwritten with 0. */
  function DriverParams(slewUs: nat, retryMs: nat, waitMs: nat): Params {
    Params(slewUs, retryMs, waitMs, false)
  }

  function Ms(t: nat): nat { t / 1000 }

  datatype Line = Released | Asserted | Unreadable

  /** Where a side is in its claim attempt. */
  datatype Pc =
    | Idle
    | Slewing(since: nat)     // own line asserted, waiting for the slew time
    | Polling(since: nat)     // reading the other line until the retry time is over
    | BackingOff(since: nat)  // own line released again, waiting for the retry time
    | Owned                   // returned 0 from the polling loop
    | TimedOut                // returned 0 after the wait time was over
    | Faulted                 // returned an error; the own line is as it was left

  datatype Side = Side(pc: Pc, claim: bool, changedAt: nat, callStart: nat, ownedAt: nat) {
    function SetClaim(on: bool, now: nat): Side {
      if claim == on then this else this.(claim := on, changedAt := now)
    }

    /** The caller was told 0 and has not given the bus back: it is using the bus. */
    predicate UsesBus() { pc.Owned? || pc.TimedOut? }
  }

  const Reset: Side := Side(Idle, false, 0, 0, 0)

  /** One step of one side's driver at time `now`, the other line reading as `theirs`. */
  predicate SideStep(p: Params, now: nat, theirs: Line, s: Side, s': Side) {
    || Begin(now, s, s')
    || SlewOver(p, now, s, s')
    || Poll(p, now, theirs, s, s')
    || RetryOver(p, now, s, s')
    || RoundOver(p, now, s, s')
    || Deselect(now, s, s')
  }

  // A select call starts: assert the own line, or fail to.
  predicate Begin(now: nat, s: Side, s': Side) {
    && (s.pc.Idle? || s.pc.Faulted?)
    && (|| s' == s.SetClaim(true, now).(pc := Slewing(now), callStart := now)
        || s' == s.(pc := Faulted))
  }

  predicate SlewOver(p: Params, now: nat, s: Side, s': Side) {
    s.pc.Slewing? && s.pc.since + p.slewUs <= now && s' == s.(pc := Polling(now))
  }

  predicate Poll(p: Params, now: nat, theirs: Line, s: Side, s': Side) {
    && s.pc.Polling? && Ms(now) < Ms(s.pc.since) + p.retryMs
    && match theirs
       case Released => s' == s.(pc := Owned, ownedAt := now)
       case Asserted => s' == s
       case Unreadable => s' == s.(pc := Faulted)
  }

  predicate RetryOver(p: Params, now: nat, s: Side, s': Side) {
    && s.pc.Polling? && Ms(s.pc.since) + p.retryMs <= Ms(now)
    && (|| s' == s.SetClaim(false, now).(pc := BackingOff(now))
        || s' == s.(pc := Faulted))
  }

  // The wait after backing off is over: another round, or give up.
  predicate RoundOver(p: Params, now: nat, s: Side, s': Side) {
    && s.pc.BackingOff? && s.pc.since + 1000 * p.retryMs <= now
    && if Ms(now) < Ms(s.callStart) + p.waitMs then
         || s' == s.SetClaim(true, now).(pc := Slewing(now))
         || s' == s.(pc := Faulted)
       else
         s' == s.(pc := if p.reportsTimeout then Idle else TimedOut)
  }

  // The caller gives the bus back.
  predicate Deselect(now: nat, s: Side, s': Side) {
    && s.UsesBus()
    && (|| s' == s.SetClaim(false, now).(pc := Idle)
        || s' == s.(pc := Faulted))
  }

  // ---------------------------------------------------------------- the two sides together

  /** Two sides, 0 and 1, with their parameters, and the time a line needs to settle. */
  datatype Bus = Bus(sides: seq<Params>, visibleUs: nat) {
    predicate Valid() { |sides| == 2 }
  }

  datatype State = State(now: nat, sides: seq<Side>)

  function Other(x: nat): (y: nat)
    requires x < 2
    ensures y < 2 && y != x
  {
    1 - x
  }

  /** A reading of `s`'s line by the other side at time `now`. */
  predicate MayRead(b: Bus, s: Side, now: nat, seen: Line) {
    || seen == Unreadable
    || seen == (if s.claim then Asserted else Released)
    || now < s.changedAt + b.visibleUs
  }

  predicate Init(b: Bus, s: State) {
    s == State(0, [Reset, Reset])
  }

  datatype Action = Pass(us: nat) | Drive(x: nat, seen: Line) | PowerCycle(x: nat)

  predicate Next(b: Bus, s: State, a: Action, s': State)
    requires b.Valid()
  {
    && |s.sides| == 2 && |s'.sides| == 2
    && match a
       case Pass(us) => s' == s.(now := s.now + us)
       case Drive(x, seen) =>
         && x < 2
         && MayRead(b, s.sides[Other(x)], s.now, seen)
         && SideStep(b.sides[x], s.now, seen, s.sides[x], s'.sides[x])
         && s' == s.(sides := s.sides[x := s'.sides[x]])
       case PowerCycle(x) =>
         && x < 2
         && s' == s.(sides := s.sides[x := s.sides[x].SetClaim(false, s.now).(pc := Idle)])
  }

  datatype Run = Start(s: State) | Then(before: Run, a: Action, s: State)

  predicate IsRun(b: Bus, r: Run)
    requires b.Valid()
  {
    match r
    case Start(s) => Init(b, s)
    case Then(before, a, s) => IsRun(b, before) && Next(b, before.s, a, s)
  }

  // ---------------------------------------------------------------- mutual exclusion

  predicate SideInv(p: Params, now: nat, s: Side) {
    && s.changedAt <= now
    && match s.pc
       case Slewing(t) => s.claim && s.changedAt <= t <= now
       case Polling(t) => s.claim && s.changedAt + p.slewUs <= t <= now
       case Owned => s.claim && s.changedAt + p.slewUs <= s.ownedAt <= now && 0 < p.retryMs
       case BackingOff(_) => !s.claim
       case TimedOut => !s.claim && !p.reportsTimeout
       case _ => true
  }

  // An owner read the other line as released: if the other line is asserted, that assertion
  // was not certain to be visible yet when the owner looked, or came later.
  predicate PairInv(b: Bus, x: Side, y: Side) {
    x.pc.Owned? && y.claim ==> x.ownedAt < y.changedAt + b.visibleUs || x.ownedAt <= y.changedAt
  }

  // Of two owners, the later one missed an assertion that was there.
  predicate OwnersInv(b: Bus, x: Side, y: Side) {
    x.pc.Owned? && y.pc.Owned? ==>
      x.ownedAt < y.changedAt + b.visibleUs || y.ownedAt < x.changedAt + b.visibleUs
  }

  predicate Inv(b: Bus, s: State)
    requires b.Valid()
  {
    && |s.sides| == 2
    && (forall x :: 0 <= x < 2 ==> SideInv(b.sides[x], s.now, s.sides[x]))
    && PairInv(b, s.sides[0], s.sides[1])
    && PairInv(b, s.sides[1], s.sides[0])
    && OwnersInv(b, s.sides[0], s.sides[1])
  }

  lemma SideInvStep(b: Bus, p: Params, now: nat, theirs: Line, s: Side, s': Side, other: Side)
    requires SideInv(p, now, s) && SideStep(p, now, theirs, s, s') && other.changedAt <= now
    requires PairInv(b, s, other) && PairInv(b, other, s) && OwnersInv(b, s, other)
    requires other.pc.Owned? ==> other.claim && other.ownedAt <= now
    requires MayRead(b, other, now, theirs)
    ensures SideInv(p, now, s')
    ensures PairInv(b, s', other) && PairInv(b, other, s') && OwnersInv(b, s', other)
  {
  }

  lemma InvStep(b: Bus, s: State, a: Action, s': State)
    requires b.Valid() && Inv(b, s) && Next(b, s, a, s')
    ensures Inv(b, s')
  {
    match a
    case Pass(us) =>
    case Drive(x, seen) =>
      SideInvStep(b, b.sides[x], s.now, seen, s.sides[x], s'.sides[x], s.sides[Other(x)]);
    case PowerCycle(x) =>
  }

  lemma {:induction false} RunInv(b: Bus, r: Run)
    requires b.Valid() && IsRun(b, r)
    ensures Inv(b, r.s)
  {
    match r
    case Start(s) =>
    case Then(before, a, s) =>
      RunInv(b, before);
      InvStep(b, before.s, a, s);
  }

  /** Two rightful owners at once would need both slew times together to fall short of twice
      the settling time. */
  lemma OwnersExclude(b: Bus, s: State)
    requires b.Valid() && Inv(b, s)
    requires 2 * b.visibleUs <= b.sides[0].slewUs + b.sides[1].slewUs + 1
    ensures !(s.sides[0].pc.Owned? && s.sides[1].pc.Owned?)
  {
  }

  predicate BothUseBus(s: State) {
    |s.sides| == 2 && s.sides[0].UsesBus() && s.sides[1].UsesBus()
  }

  ghost predicate MutualExclusion(b: Bus)
    requires b.Valid()
  {
    forall r: Run :: IsRun(b, r) ==> !BothUseBus(r.s)
  }

  /** A side can come to use the bus at all: it polls at least once, or it takes a timeout
      for success. */
  predicate CanUseBus(p: Params) { 0 < p.retryMs || !p.reportsTimeout }

  /** The settings under which the claim lines do their job. */
  predicate Safe(b: Bus)
    requires b.Valid()
  {
    || !CanUseBus(b.sides[0]) || !CanUseBus(b.sides[1])
    || (&& b.sides[0].reportsTimeout && b.sides[1].reportsTimeout
        && 2 * b.visibleUs <= b.sides[0].slewUs + b.sides[1].slewUs + 1)
  }

  lemma SafeRun(b: Bus, r: Run)
    requires b.Valid() && Safe(b) && IsRun(b, r)
    ensures !BothUseBus(r.s)
  {
    RunInv(b, r);
    if CanUseBus(b.sides[0]) && CanUseBus(b.sides[1]) {
      OwnersExclude(b, r.s);
    }
  }

  // ---------------------------------------------------------------- when it fails

  lemma Extend(b: Bus, r: Run, a: Action, s': State) returns (r': Run)
    requires b.Valid() && IsRun(b, r) && Next(b, r.s, a, s')
    ensures IsRun(b, r') && r'.s == s'
  {
    r' := Then(r, a, s');
  }

  lemma Wait(b: Bus, r: Run, us: nat) returns (r': Run)
    requires b.Valid() && IsRun(b, r) && |r.s.sides| == 2
    ensures IsRun(b, r') && r'.s == r.s.(now := r.s.now + us)
  {
    r' := Extend(b, r, Pass(us), r.s.(now := r.s.now + us));
  }

  lemma Move(b: Bus, r: Run, x: nat, seen: Line, to: Side) returns (r': Run)
    requires b.Valid() && IsRun(b, r) && |r.s.sides| == 2 && x < 2
    requires MayRead(b, r.s.sides[Other(x)], r.s.now, seen)
    requires SideStep(b.sides[x], r.s.now, seen, r.s.sides[x], to)
    ensures IsRun(b, r') && r'.s == r.s.(sides := r.s.sides[x := to])
  {
    r' := Extend(b, r, Drive(x, seen), r.s.(sides := r.s.sides[x := to]));
  }

  /** Side `x` claims, and at once polls a line it reads as released. */
  lemma ClaimAt(b: Bus, r: Run, x: nat) returns (r': Run)
    requires b.Valid() && IsRun(b, r) && |r.s.sides| == 2 && x < 2
    requires r.s.sides[x].pc.Slewing? && r.s.sides[x].pc.since + b.sides[x].slewUs <= r.s.now
    requires 0 < b.sides[x].retryMs
    requires MayRead(b, r.s.sides[Other(x)], r.s.now, Released)
    ensures IsRun(b, r')
    ensures r'.s == r.s.(sides := r.s.sides[x := r.s.sides[x].(pc := Owned, ownedAt := r.s.now)])
  {
    var polling := r.s.sides[x].(pc := Polling(r.s.now));
    var r1 := Move(b, r, x, Unreadable, polling);
    r' := Move(b, r1, x, Released, polling.(pc := Owned, ownedAt := r.s.now));
    assert r'.s.sides == r.s.sides[x := polling.(pc := Owned, ownedAt := r.s.now)];
  }

  lemma AssertAt(b: Bus, r: Run, x: nat) returns (r': Run)
    requires b.Valid() && IsRun(b, r) && |r.s.sides| == 2 && x < 2 && r.s.sides[x].pc.Idle?
    ensures IsRun(b, r')
    ensures r'.s == r.s.(sides := r.s.sides[x :=
              r.s.sides[x].SetClaim(true, r.s.now).(pc := Slewing(r.s.now), callStart := r.s.now)])
  {
    r' := Move(b, r, x, Unreadable,
      r.s.sides[x].SetClaim(true, r.s.now).(pc := Slewing(r.s.now), callStart := r.s.now));
  }

  /** Both sides poll before the other's assertion is certain to be visible. */
  lemma RaceRun(b: Bus, x: nat, y: nat) returns (r: Run)
    requires b.Valid() && x < 2 && y == Other(x)
    requires 0 < b.sides[x].retryMs && 0 < b.sides[y].retryMs
    requires b.sides[x].slewUs <= b.sides[y].slewUs
    requires b.sides[x].slewUs + b.sides[y].slewUs + 1 < 2 * b.visibleUs
    ensures IsRun(b, r) && BothUseBus(r.s)
  {
    var tx: nat := if b.visibleUs <= b.sides[y].slewUs then b.sides[y].slewUs + 1 - b.visibleUs else 0;
    r := Start(State(0, [Reset, Reset]));
    r := AssertAt(b, r, y);
    r := Wait(b, r, tx);
    r := AssertAt(b, r, x);
    r := Wait(b, r, b.sides[x].slewUs);
    r := ClaimAt(b, r, x);
    r := Wait(b, r, b.sides[y].slewUs - r.s.now);
    r := ClaimAt(b, r, y);
  }

  /** A side whose timeouts come back as success gives up while the other line is asserted. */
  lemma TimeoutRun(b: Bus, r0: Run, x: nat) returns (r: Run)
    requires b.Valid() && IsRun(b, r0) && |r0.s.sides| == 2 && x < 2
    requires r0.s.sides[x].pc.Idle? && !b.sides[x].reportsTimeout
    ensures IsRun(b, r) && |r.s.sides| == 2
    ensures r.s.sides[x].pc.TimedOut? && r.s.sides[Other(x)] == r0.s.sides[Other(x)]
  {
    var p := b.sides[x];
    r := AssertAt(b, r0, x);
    r := Wait(b, r, p.slewUs);
    r := Move(b, r, x, Unreadable, r.s.sides[x].(pc := Polling(r.s.now)));
    r := Wait(b, r, 1000 * p.retryMs);
    r := Move(b, r, x, Unreadable, r.s.sides[x].SetClaim(false, r.s.now).(pc := BackingOff(r.s.now)));
    r := Wait(b, r, 1000 * (p.retryMs + p.waitMs));
    r := Move(b, r, x, Unreadable, r.s.sides[x].(pc := TimedOut));
  }

  /** Side `x` takes an idle bus. */
  lemma OwnRun(b: Bus, x: nat) returns (r: Run)
    requires b.Valid() && x < 2 && 0 < b.sides[x].retryMs
    ensures IsRun(b, r) && |r.s.sides| == 2
    ensures r.s.sides[x].pc.Owned? && r.s.sides[Other(x)] == Reset
  {
    r := Start(State(0, [Reset, Reset]));
    r := AssertAt(b, r, x);
    r := Wait(b, r, b.sides[x].slewUs);
    r := ClaimAt(b, r, x);
  }

  lemma UnsafeRun(b: Bus) returns (r: Run)
    requires b.Valid() && !Safe(b)
    ensures IsRun(b, r) && BothUseBus(r.s)
  {
    var p, q := b.sides[0], b.sides[1];
    if p.reportsTimeout && q.reportsTimeout {
      if p.slewUs <= q.slewUs { r := RaceRun(b, 0, 1); } else { r := RaceRun(b, 1, 0); }
    } else {
      var x: nat := if p.reportsTimeout then 1 else 0;
      var y := Other(x);
      if 0 < b.sides[y].retryMs {
        r := OwnRun(b, y);
      } else {
        r := TimeoutRun(b, Start(State(0, [Reset, Reset])), y);
      }
      r := TimeoutRun(b, r, x);
    }
  }

  /** The exact settings under which, over every timed interleaving of the two sides and of
      resets, the bus is never used by both. */
  lemma MutualExclusionIffSafe(b: Bus)
    requires b.Valid()
    ensures MutualExclusion(b) <==> Safe(b)
  {
    if Safe(b) {
      forall r: Run | IsRun(b, r) ensures !BothUseBus(r.s) { SafeRun(b, r); }
    } else {
      var r := UnsafeRun(b);
    }
  }

  /** With the driver as it stands on one side, no choice of delays gives mutual exclusion,
      unless the other side can never use the bus. */
  lemma DriverNeverExcludes(b: Bus, slewUs: nat, retryMs: nat, waitMs: nat)
    requires b.Valid() && b.sides[0] == DriverParams(slewUs, retryMs, waitMs)
    requires CanUseBus(b.sides[1])
    ensures !MutualExclusion(b)
  {
    MutualExclusionIffSafe(b);
  }

  /** What the driver does guarantee on every run: two users at once are never both there
      because they read the other line as released. */
  lemma ConflictNeedsTimeout(b: Bus, r: Run)
    requires b.Valid() && IsRun(b, r) && BothUseBus(r.s)
    requires 2 * b.visibleUs <= b.sides[0].slewUs + b.sides[1].slewUs + 1
    ensures exists x :: 0 <= x < 2 && r.s.sides[x].pc.TimedOut? && !r.s.sides[x].claim
  {
    RunInv(b, r);
    OwnersExclude(b, r.s);
    assert r.s.sides[0].pc.TimedOut? || r.s.sides[1].pc.TimedOut?;
  }
}
