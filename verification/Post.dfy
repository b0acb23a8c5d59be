/** Power-on self tests that survive the resets they cause: post/post.c, with the call
    sites in common/board_f.c and common/board_r.c.

    The only thing kept across a reset is the POST word.  Its fields are modelled one by one;
    the eight bits of the stored test number are the saved failure flag (0x80) and seven bits
    of number. */
module Post {

  datatype Mode = Mode(poweron: bool, normal: bool, slow: bool)

  datatype Word = Word(magic: bool, mode: Mode, powertest: bool, coldboot: bool,
                       lastFail: bool, lastId: nat)

  datatype Mem = Rom | Ram

  datatype Test = Test(mode: Mode, rom: bool, ram: bool, reboot: bool, critical: bool, stop: bool)

  datatype Outcome = Passed | Failed | Crashed   // Crashed: the system was reset meanwhile

  /** One execution of a test; `rebooted` is the POST_REBOOT bit of its flags argument. */
  datatype Exec = Exec(test: nat, rebooted: bool, outcome: Outcome)

  /** How the hardware behaves: the outcome of the n-th execution, of this test, with this flag. */
  type Env = (nat, nat, bool) -> Outcome

  /** The POST word, the two failure flags in global data, whether the system is still up,
      and the executions so far. */
  datatype Sys = Sys(word: Word, fail: bool, stop: bool, up: bool, log: seq<Exec>)

  // Bitwise or.
  function BitOr(a: nat, b: nat): nat
    decreases a + b
  {
    if a == 0 then b
    else if b == 0 then a
    else 2 * BitOr(a / 2, b / 2) + (if a % 2 == 1 || b % 2 == 1 then 1 else 0)
  }

  predicate NoMode(m: Mode) { !m.poweron && !m.normal && !m.slow }

  predicate Common(a: Mode, b: Mode) {
    (a.poweron && b.poweron) || (a.normal && b.normal) || (a.slow && b.slow)
  }

  predicate Eligible(t: Test, mode: Mode, mem: Mem) {
    Common(t.mode, mode) && (if mem.Rom? then t.rom else t.ram)
  }

  // ------------------------------------------------------------------ the POST layer, as functions

  const PowerOn := Mode(true, false, false)
  const Normal := Mode(false, true, false)
  const Slow := Mode(false, false, true)

  // post_bootmode_init(): the word at the start of a boot.
  function InitWord(w: Word, hotkeys: bool): Word {
    var mode := if w.magic then w.mode else Mode(false, false, false);
    var powertest := w.magic && w.powertest;
    var none := NoMode(mode) && !powertest;
    var next :=
      if hotkeys && !powertest then Word(true, Slow, false, false, false, 0)
      else if none then Word(true, PowerOn, false, false, false, 0)
      else if !powertest && (mode == PowerOn || mode == Slow) then Word(true, Normal, false, false, false, 0)
      else w.(coldboot := false);
    if none then next.(coldboot := true) else next
  }

  // post_bootmode_test_on() and post_bootmode_test_off()
  function TestOn(w: Word, fail: bool, i: nat): Word {
    w.(powertest := true, lastFail := w.lastFail || fail, lastId := BitOr(w.lastId, i))
  }

  function TestOff(w: Word): Word { w.(powertest := false) }

  // post_run_single()
  function Single(env: Env, tests: seq<Test>, s: Sys, mem: Mem, i: nat, rebooted: bool): Sys
    requires i < |tests|
  {
    var t := tests[i];
    if !Eligible(t, s.word.mode, mem) then s
    else
      var w := if !rebooted && t.reboot then TestOn(s.word, s.fail, i) else s.word;
      var o := env(|s.log|, i, rebooted);
      var s1 := s.(word := w, log := s.log + [Exec(i, rebooted, o)]);
      if o == Crashed then s1.(up := false)
      else
        var bad := o == Failed;
        s1.(fail := s.fail || (bad && t.critical), stop := s.stop || (bad && t.stop),
            word := if t.reboot then TestOff(w) else w)
  }

  // The loop of post_run() over the tests from `i` on.
  function RunFrom(env: Env, tests: seq<Test>, s: Sys, mem: Mem, i: nat): Sys
    decreases |tests| - i
  {
    if |tests| <= i || s.stop || !s.up then s
    else RunFrom(env, tests, Single(env, tests, s, mem, i, false), mem, i + 1)
  }

  // post_run(NULL, ...)
  function PostRun(env: Env, tests: seq<Test>, s: Sys, mem: Mem): Sys {
    if s.stop || !s.up then s
    else if s.word.magic && s.word.powertest then
      var s1 := s.(fail := s.fail || s.word.lastFail);
      var last := s.word.lastId;
      if last < |tests| && Eligible(tests[last], s.word.mode, mem)
      then RunFrom(env, tests, Single(env, tests, s1, mem, last, true), mem, last + 1)
      else s1
    else RunFrom(env, tests, s, mem, 0)
  }

  // The start of a boot: global data is fresh.
  function Begun(s: Sys, hotkeys: bool): Sys {
    s.(word := InitWord(s.word, hotkeys), fail := false, stop := false, up := true)
  }

  /** One boot: the ROM tests run before relocation and the RAM tests after it. */
  function Boot(env: Env, tests: seq<Test>, s: Sys, hotkeys: bool): Sys {
    PostRun(env, tests, PostRun(env, tests, Begun(s, hotkeys), Rom), Ram)
  }

  /** Boots until one of them gets through, at most `k` times. */
  function Boots(env: Env, tests: seq<Test>, s: Sys, hotkeys: nat -> bool, k: nat): Sys
    decreases k
  {
    if k == 0 then s
    else
      var s1 := Boot(env, tests, s, hotkeys(k));
      if s1.up then s1 else Boots(env, tests, s1, hotkeys, k - 1)
  }

  // ------------------------------------------------------------------ the pass as the design has it

  datatype Slot = Slot(mem: Mem, test: nat)

  /** The tests of one pass, in the order they are to run. */
  function SlotsFrom(tests: seq<Test>, mode: Mode, mem: Mem, i: nat): (q: seq<Slot>)
    ensures forall x :: x in q ==> x.mem == mem && i <= x.test < |tests| && Eligible(tests[x.test], mode, mem)
    decreases |tests| - i
  {
    if |tests| <= i then []
    else if Eligible(tests[i], mode, mem) then [Slot(mem, i)] + SlotsFrom(tests, mode, mem, i + 1)
    else SlotsFrom(tests, mode, mem, i + 1)
  }

  function Queue(tests: seq<Test>, mode: Mode): seq<Slot> {
    SlotsFrom(tests, mode, Rom, 0) + SlotsFrom(tests, mode, Ram, 0)
  }

  // Slots one after the other, up to a reset or a failure that stops the sequence.
  function Pass(env: Env, tests: seq<Test>, s: Sys, q: seq<Slot>): Sys
    requires forall x :: x in q ==> x.test < |tests|
    decreases |q|
  {
    if q == [] || s.stop || !s.up then s
    else Pass(env, tests, Single(env, tests, s, q[0].mem, q[0].test, false), q[1..])
  }

  // What a reset leaves, as the resumed test finds it.
  function Resumed(s: Sys): Sys {
    s.(word := s.word.(coldboot := false), fail := s.word.lastFail, stop := false, up := true)
  }

  /** The design: a test that is interrupted by a reset is run again, with the flag that
      tells it so, and the pass goes on behind it. */
  function Ideal(env: Env, tests: seq<Test>, s: Sys, q: seq<Slot>): Sys
    requires forall x :: x in q ==> x.test < |tests|
    decreases |q|
  {
    if q == [] || s.stop then s
    else
      var t := Single(env, tests, s, q[0].mem, q[0].test, false);
      if t.up then Ideal(env, tests, t, q[1..])
      else Ideal(env, tests, Single(env, tests, Resumed(t), q[0].mem, q[0].test, true), q[1..])
  }

  // ------------------------------------------------------------------ assumptions

  /** Resets happen only while a test marked POST_REBOOT executes for the first time. */
  ghost predicate Tame(env: Env, tests: seq<Test>) {
    forall n, i :: 0 <= i < |tests| ==>
      env(n, i, true) != Crashed && (!tests[i].reboot ==> env(n, i, false) != Crashed)
  }

  /** No test that may reset runs in both groups. */
  predicate NoDual(tests: seq<Test>, mode: Mode) {
    forall i :: 0 <= i < |tests| && tests[i].reboot ==>
      !(Eligible(tests[i], mode, Rom) && Eligible(tests[i], mode, Ram))
  }

  /** The numbers of the tests in `q` that may reset. */
  function RebootIds(tests: seq<Test>, q: seq<Slot>): seq<nat>
    requires forall x :: x in q ==> x.test < |tests|
    decreases |q|
  {
    if q == [] then []
    else (if tests[q[0].test].reboot then [q[0].test] else []) + RebootIds(tests, q[1..])
  }

  /** The stored number is or-ed into the word and never cleared: it comes out right when
      each number contains the bits of the ones before it. */
  predicate Nested(acc: nat, ids: seq<nat>)
    decreases |ids|
  {
    ids == [] || (BitOr(acc, ids[0]) == ids[0] && Nested(ids[0], ids[1..]))
  }

  // ------------------------------------------------------------------ a boot follows the slots

  lemma {:induction false} RunFromIsPass(env: Env, tests: seq<Test>, s: Sys, mem: Mem, i: nat)
    ensures RunFrom(env, tests, s, mem, i) == Pass(env, tests, s, SlotsFrom(tests, s.word.mode, mem, i))
    decreases |tests| - i
  {
    if i < |tests| && !s.stop && s.up {
      var t := Single(env, tests, s, mem, i, false);
      RunFromIsPass(env, tests, t, mem, i + 1);
      if Eligible(tests[i], s.word.mode, mem) {
        var q := SlotsFrom(tests, s.word.mode, mem, i);
        assert q[0] == Slot(mem, i) && q[1..] == SlotsFrom(tests, s.word.mode, mem, i + 1);
      }
    }
  }

  lemma {:induction false} PassConcat(env: Env, tests: seq<Test>, s: Sys, p: seq<Slot>, q: seq<Slot>)
    requires forall x :: x in p + q ==> x.test < |tests|
    ensures forall x :: x in p || x in q ==> x in p + q
    ensures Pass(env, tests, s, p + q) == Pass(env, tests, Pass(env, tests, s, p), q)
    decreases |p|
  {
    assert forall x :: x in p || x in q ==> x in p + q;
    if p == [] {
      assert p + q == q;
    } else if !s.stop && s.up {
      assert (p + q)[0] == p[0] && (p + q)[1..] == p[1..] + q;
      PassConcat(env, tests, Single(env, tests, s, p[0].mem, p[0].test, false), p[1..], q);
    }
  }

  lemma {:induction false} PassKeepsMode(env: Env, tests: seq<Test>, s: Sys, q: seq<Slot>)
    requires forall x :: x in q ==> x.test < |tests|
    ensures Pass(env, tests, s, q).word.mode == s.word.mode
    ensures Pass(env, tests, s, q).word.magic == s.word.magic
    ensures Pass(env, tests, s, q).word.coldboot == s.word.coldboot
    ensures !s.word.powertest && Pass(env, tests, s, q).up ==> !Pass(env, tests, s, q).word.powertest
    decreases |q|
  {
    if q != [] && !s.stop && s.up {
      PassKeepsMode(env, tests, Single(env, tests, s, q[0].mem, q[0].test, false), q[1..]);
    }
  }

  /** A boot with no stored test runs the whole pass. */
  lemma FreshBoot(env: Env, tests: seq<Test>, s: Sys)
    requires s.up && !s.stop && !s.word.powertest
    ensures PostRun(env, tests, PostRun(env, tests, s, Rom), Ram)
            == Pass(env, tests, s, Queue(tests, s.word.mode))
  {
    assert PostRun(env, tests, s, Rom) == RunFrom(env, tests, s, Rom, 0);
    RestFrom(env, tests, s, 0);
  }

  // ------------------------------------------------------------------ the modes of successive boots

  ghost predicate NoResets(env: Env) {
    forall n, i, r :: env(n, i, r) != Crashed
  }

  lemma {:induction false} PassStaysUp(env: Env, tests: seq<Test>, s: Sys, q: seq<Slot>)
    requires NoResets(env) && s.up && forall x :: x in q ==> x.test < |tests|
    ensures Pass(env, tests, s, q).up
    decreases |q|
  {
    if q != [] && !s.stop {
      PassStaysUp(env, tests, Single(env, tests, s, q[0].mem, q[0].test, false), q[1..]);
    }
  }

  /** One boot after the other, with or without the hotkeys. */
  function BootEach(env: Env, tests: seq<Test>, s: Sys, hotkeys: seq<bool>): Sys {
    if hotkeys == [] then s
    else Boot(env, tests, BootEach(env, tests, s, hotkeys[..|hotkeys| - 1]), hotkeys[|hotkeys| - 1])
  }

  /** From power-on, without resets by tests: the first boot is a power-on boot and marked as
      cold, each later one is a normal one, and the hotkeys select the slow tests for that boot
      only. */
  lemma {:induction false} BootModes(env: Env, tests: seq<Test>, s: Sys, hotkeys: seq<bool>)
    requires NoResets(env) && !s.word.magic && hotkeys != []
    ensures var t := BootEach(env, tests, s, hotkeys);
            && t.up && t.word.magic && !t.word.powertest
            && t.word.mode == (if hotkeys[|hotkeys| - 1] then Slow else if |hotkeys| == 1 then PowerOn else Normal)
            && (t.word.coldboot <==> |hotkeys| == 1)
    decreases |hotkeys|
  {
    var before := hotkeys[..|hotkeys| - 1];
    if before != [] { BootModes(env, tests, s, before); }
    var b := BootEach(env, tests, s, before);
    var s1 := Begun(b, hotkeys[|hotkeys| - 1]);
    FreshBoot(env, tests, s1);
    PassStaysUp(env, tests, s1, Queue(tests, s1.word.mode));
    PassKeepsMode(env, tests, s1, Queue(tests, s1.word.mode));
  }

  // The slots of the pass from test `i` of group `mem` on.
  function Rest(tests: seq<Test>, mode: Mode, mem: Mem, i: nat): seq<Slot> {
    SlotsFrom(tests, mode, mem, i) + (if mem.Rom? then SlotsFrom(tests, mode, Ram, 0) else [])
  }

  lemma {:induction false} NextSlot(tests: seq<Test>, mode: Mode, mem: Mem, i: nat)
    requires Rest(tests, mode, mem, i) != []
    ensures var q := Rest(tests, mode, mem, i);
            q[0].test < |tests| && q[1..] == Rest(tests, mode, q[0].mem, q[0].test + 1)
    decreases if mem.Rom? then 1 else 0, |tests| - i
  {
    var q := Rest(tests, mode, mem, i);
    if |tests| <= i {
      assert q == Rest(tests, mode, Ram, 0);
      NextSlot(tests, mode, Ram, 0);
    } else if Eligible(tests[i], mode, mem) {
      assert q[1..] == Rest(tests, mode, mem, i + 1);
    } else {
      NextSlot(tests, mode, mem, i + 1);
    }
  }

  // The second group, when nothing is stored any more.
  lemma SecondGroup(env: Env, tests: seq<Test>, v: Sys)
    requires v.up ==> !v.word.powertest
    ensures PostRun(env, tests, v, Ram) == Pass(env, tests, v, SlotsFrom(tests, v.word.mode, Ram, 0))
  {
    RunFromIsPass(env, tests, v, Ram, 0);
  }

  // A second execution clears the stored bit.
  lemma SecondRun(env: Env, tests: seq<Test>, s: Sys, mem: Mem, j: nat)
    requires Tame(env, tests) && j < |tests| && tests[j].reboot && Eligible(tests[j], s.word.mode, mem) && s.up
    ensures var u := Single(env, tests, s, mem, j, true);
            u.up && u.word == s.word.(powertest := false)
  {
  }

  // The group of the stored test goes on with that test.
  lemma ResumedGroup(env: Env, tests: seq<Test>, s: Sys, mem: Mem, u: Sys)
    requires s.up && !s.stop && s.word.magic && s.word.powertest
    requires s.word.lastId < |tests| && Eligible(tests[s.word.lastId], s.word.mode, mem)
    requires u == Single(env, tests, s.(fail := s.fail || s.word.lastFail), mem, s.word.lastId, true)
    ensures PostRun(env, tests, s, mem) == RunFrom(env, tests, u, mem, s.word.lastId + 1)
  {
  }

  lemma ResumeRom(env: Env, tests: seq<Test>, s: Sys, j: nat)
    requires Tame(env, tests) && j < |tests| && tests[j].reboot && Eligible(tests[j], s.word.mode, Rom)
    requires s.up && !s.stop && s.word.magic && s.word.powertest && s.word.lastId == j
    ensures var u := Single(env, tests, s.(fail := s.fail || s.word.lastFail), Rom, j, true);
            PostRun(env, tests, PostRun(env, tests, s, Rom), Ram)
            == Pass(env, tests, u, Rest(tests, s.word.mode, Rom, j + 1))
  {
    var s1 := s.(fail := s.fail || s.word.lastFail);
    var u := Single(env, tests, s1, Rom, j, true);
    SecondRun(env, tests, s1, Rom, j);
    RestFrom(env, tests, u, j + 1);
    ResumedGroup(env, tests, s, Rom, u);
  }

  // The rest of the first group, and the second.
  lemma RestFrom(env: Env, tests: seq<Test>, u: Sys, i: nat)
    requires !u.word.powertest
    ensures PostRun(env, tests, RunFrom(env, tests, u, Rom, i), Ram) == Pass(env, tests, u, Rest(tests, u.word.mode, Rom, i))
  {
    var rom, ram := SlotsFrom(tests, u.word.mode, Rom, i), SlotsFrom(tests, u.word.mode, Ram, 0);
    RunFromIsPass(env, tests, u, Rom, i);
    PassKeepsMode(env, tests, u, rom);
    SecondGroup(env, tests, Pass(env, tests, u, rom));
    PassConcat(env, tests, u, rom, ram);
  }

  lemma RestOfSecond(tests: seq<Test>, mode: Mode, i: nat)
    ensures Rest(tests, mode, Ram, i) == SlotsFrom(tests, mode, Ram, i)
  {
    var q := SlotsFrom(tests, mode, Ram, i);
    assert q + [] == q;
  }

  // A group without the stored test runs nothing.
  lemma OtherGroup(env: Env, tests: seq<Test>, s: Sys, mem: Mem)
    requires s.up && !s.stop && s.word.magic && s.word.powertest
    requires s.word.lastId < |tests| && !Eligible(tests[s.word.lastId], s.word.mode, mem)
    ensures PostRun(env, tests, s, mem) == s.(fail := s.fail || s.word.lastFail)
  {
  }

  lemma ResumeRam(env: Env, tests: seq<Test>, s: Sys, j: nat)
    requires Tame(env, tests) && j < |tests| && tests[j].reboot && Eligible(tests[j], s.word.mode, Ram)
    requires !Eligible(tests[j], s.word.mode, Rom)
    requires s.up && !s.stop && s.word.magic && s.word.powertest && s.word.lastId == j
    ensures var u := Single(env, tests, s.(fail := s.fail || s.word.lastFail), Ram, j, true);
            PostRun(env, tests, PostRun(env, tests, s, Rom), Ram)
            == Pass(env, tests, u, Rest(tests, s.word.mode, Ram, j + 1))
  {
    var u := Single(env, tests, s.(fail := s.fail || s.word.lastFail), Ram, j, true);
    var s1 := s.(fail := s.fail || s.word.lastFail);
    SecondRun(env, tests, s1, Ram, j);
    OtherGroup(env, tests, s, Rom);
    assert s1.(fail := s1.fail || s1.word.lastFail) == s1;
    ResumedGroup(env, tests, s1, Ram, u);
    RunFromIsPass(env, tests, u, Ram, j + 1);
    RestOfSecond(tests, s.word.mode, j + 1);
  }

  /** A boot after a reset during test `j`, its number stored, resumes at that test. */
  lemma ResumeBoot(env: Env, tests: seq<Test>, s: Sys, hotkeys: bool, mem: Mem, j: nat)
    requires Tame(env, tests) && NoDual(tests, s.word.mode) && j < |tests| && tests[j].reboot
    requires Eligible(tests[j], s.word.mode, mem)
    requires s.word.magic && s.word.powertest && s.word.lastId == j
    ensures Boot(env, tests, s, hotkeys)
            == Pass(env, tests, Single(env, tests, Resumed(s), mem, j, true), Rest(tests, s.word.mode, mem, j + 1))
  {
    var s1 := Begun(s, hotkeys);
    assert s1.word == s.word.(coldboot := false);
    if mem.Rom? { ResumeRom(env, tests, s1, j); } else { ResumeRam(env, tests, s1, j); }
  }

  // ------------------------------------------------------------------ the main theorem

  function Finish(env: Env, tests: seq<Test>, s: Sys, hotkeys: nat -> bool, k: nat): Sys {
    if s.up then s else Boots(env, tests, s, hotkeys, k)
  }

  // What the first execution of a slot's test leaves in the word.
  lemma SingleWord(env: Env, tests: seq<Test>, s: Sys, mem: Mem, i: nat)
    requires Tame(env, tests) && i < |tests| && Eligible(tests[i], s.word.mode, mem) && s.up
    requires !s.word.powertest
    ensures var t := Single(env, tests, s, mem, i, false);
            && t.word.magic == s.word.magic && t.word.mode == s.word.mode
            && t.word.lastId == (if tests[i].reboot then BitOr(s.word.lastId, i) else s.word.lastId)
            && t.word.powertest == !t.up && (!t.up ==> tests[i].reboot)
  {
  }

  lemma IdsTail(tests: seq<Test>, q: seq<Slot>)
    requires q != [] && forall x :: x in q ==> x.test < |tests|
    ensures var ids, rest := RebootIds(tests, q), RebootIds(tests, q[1..]);
            ids == if tests[q[0].test].reboot then [q[0].test] + rest else rest
  {
    assert [] + RebootIds(tests, q[1..]) == RebootIds(tests, q[1..]);
  }

  lemma NestedTail(tests: seq<Test>, acc: nat, q: seq<Slot>)
    requires q != [] && forall x :: x in q ==> x.test < |tests|
    ensures var i := q[0].test;
            Nested(acc, RebootIds(tests, q)) <==>
            if tests[i].reboot then BitOr(acc, i) == i && Nested(i, RebootIds(tests, q[1..]))
            else Nested(acc, RebootIds(tests, q[1..]))
  {
    IdsTail(tests, q);
    if tests[q[0].test].reboot {
      assert RebootIds(tests, q)[1..] == RebootIds(tests, q[1..]);
    }
  }

  // One slot of a pass, with the boot that follows it if it is reset: the state behind it.
  lemma SlotDone(env: Env, tests: seq<Test>, s: Sys, hotkeys: nat -> bool, k: nat, q: seq<Slot>) returns (u: Sys, k': nat)
    requires Tame(env, tests) && NoDual(tests, s.word.mode)
    requires s.up && !s.stop && s.word.magic && !s.word.powertest
    requires q != [] && (forall x :: x in q ==> x.test < |tests|)
    requires var m, j := q[0].mem, q[0].test;
             && Eligible(tests[j], s.word.mode, m) && q[1..] == Rest(tests, s.word.mode, m, j + 1)
             && (tests[j].reboot ==> BitOr(s.word.lastId, j) == j && 0 < k)
    ensures u.up && u.word.magic && !u.word.powertest && u.word.mode == s.word.mode
    ensures u.word.lastId == if tests[q[0].test].reboot then q[0].test else s.word.lastId
    ensures k' == k || (tests[q[0].test].reboot && k' == k - 1)
    ensures Ideal(env, tests, s, q) == Ideal(env, tests, u, q[1..])
    ensures Finish(env, tests, Pass(env, tests, s, q), hotkeys, k)
            == Finish(env, tests, Pass(env, tests, u, q[1..]), hotkeys, k')
  {
    var m, j := q[0].mem, q[0].test;
    u, k' := Single(env, tests, s, m, j, false), k;
    SingleWord(env, tests, s, m, j);
    if !u.up {
      u := SlotCrashed(env, tests, s, hotkeys, k, q);
      k' := k - 1;
    }
  }

  lemma SlotCrashed(env: Env, tests: seq<Test>, s: Sys, hotkeys: nat -> bool, k: nat, q: seq<Slot>) returns (u: Sys)
    requires Tame(env, tests) && NoDual(tests, s.word.mode) && 0 < k
    requires s.up && !s.stop && s.word.magic && !s.word.powertest
    requires q != [] && (forall x :: x in q ==> x.test < |tests|)
    requires var m, j := q[0].mem, q[0].test;
             && Eligible(tests[j], s.word.mode, m) && q[1..] == Rest(tests, s.word.mode, m, j + 1)
             && BitOr(s.word.lastId, j) == j && !Single(env, tests, s, m, j, false).up
    ensures u.up && u.word.magic && !u.word.powertest && u.word.mode == s.word.mode
    ensures u.word.lastId == q[0].test
    ensures Ideal(env, tests, s, q) == Ideal(env, tests, u, q[1..])
    ensures Finish(env, tests, Pass(env, tests, s, q), hotkeys, k)
            == Finish(env, tests, Pass(env, tests, u, q[1..]), hotkeys, k - 1)
  {
    var m, j := q[0].mem, q[0].test;
    var t := Single(env, tests, s, m, j, false);
    SingleWord(env, tests, s, m, j);
    u := Single(env, tests, Resumed(t), m, j, true);
    SecondRun(env, tests, Resumed(t), m, j);
    CrashedFinish(env, tests, t, u, hotkeys, k, m, j, q[1..]);
  }

  lemma CrashedFinish(env: Env, tests: seq<Test>, t: Sys, u: Sys, hotkeys: nat -> bool, k: nat,
                      mem: Mem, j: nat, rest: seq<Slot>)
    requires Tame(env, tests) && NoDual(tests, t.word.mode) && 0 < k && !t.up && j < |tests| && tests[j].reboot
    requires Eligible(tests[j], t.word.mode, mem) && t.word.magic && t.word.powertest && t.word.lastId == j
    requires u == Single(env, tests, Resumed(t), mem, j, true) && rest == Rest(tests, t.word.mode, mem, j + 1)
    ensures Finish(env, tests, t, hotkeys, k) == Finish(env, tests, Pass(env, tests, u, rest), hotkeys, k - 1)
  {
    ResumeBoot(env, tests, t, hotkeys(k), mem, j);
  }

  lemma {:induction false} RestIsIdeal(env: Env, tests: seq<Test>, s: Sys, hotkeys: nat -> bool, k: nat,
                                       mem: Mem, i: nat, q: seq<Slot>)
    requires Tame(env, tests) && NoDual(tests, s.word.mode)
    requires s.up && s.word.magic && !s.word.powertest
    requires q == Rest(tests, s.word.mode, mem, i)
    requires Nested(s.word.lastId, RebootIds(tests, q)) && |RebootIds(tests, q)| <= k
    ensures Finish(env, tests, Pass(env, tests, s, q), hotkeys, k) == Ideal(env, tests, s, q)
    ensures Ideal(env, tests, s, q).up
    decreases |q|
  {
    if q != [] && !s.stop {
      NextSlot(tests, s.word.mode, mem, i);
      assert q[0] in q;
      NestedTail(tests, s.word.lastId, q);
      var u, k' := SlotDone(env, tests, s, hotkeys, k, q);
      RestIsIdeal(env, tests, u, hotkeys, k', q[0].mem, q[0].test + 1, q[1..]);
    }
  }

  /** Over every tame behaviour of the hardware, the boots of one pass together do what the
      design says, in at most one boot more than there are tests that may reset. */
  lemma PassSurvivesResets(env: Env, tests: seq<Test>, s: Sys, hotkeys: nat -> bool, k: nat)
    requires Tame(env, tests) && !(s.word.magic && s.word.powertest)
    requires var w := InitWord(s.word, hotkeys(k));
             && NoDual(tests, w.mode) && Nested(w.lastId, RebootIds(tests, Queue(tests, w.mode)))
             && k == 1 + |RebootIds(tests, Queue(tests, w.mode))|
    ensures var s1 := Begun(s, hotkeys(k));
            var q := Queue(tests, s1.word.mode);
            Boots(env, tests, s, hotkeys, k) == Ideal(env, tests, s1, q) && Ideal(env, tests, s1, q).up
  {
    var s1 := Begun(s, hotkeys(k));
    FreshBoot(env, tests, s1);
    RestIsIdeal(env, tests, s1, hotkeys, k - 1, Rom, 0, Queue(tests, s1.word.mode));
  }

  // ------------------------------------------------------------------ what the design gives

  /** Executions in the order of the slots: each test once, or twice if it may reset and was
      reset the first time; a failure that stops the sequence is the last execution. */
  predicate Shaped(tests: seq<Test>, q: seq<Slot>, l: seq<Exec>)
    requires forall x :: x in q ==> x.test < |tests|
    decreases |q|
  {
    if q == [] then l == []
    else
      var i := q[0].test;
      && l != [] && l[0].test == i && !l[0].rebooted
      && if l[0].outcome == Crashed then
           && tests[i].reboot && 2 <= |l|
           && l[1].test == i && l[1].rebooted && l[1].outcome != Crashed
           && (if Stops(tests, l[1]) then l[2..] == [] else Shaped(tests, q[1..], l[2..]))
         else
           (if Stops(tests, l[0]) then l[1..] == [] else Shaped(tests, q[1..], l[1..]))
  }

  predicate Stops(tests: seq<Test>, e: Exec) {
    e.test < |tests| && tests[e.test].stop && e.outcome == Failed
  }

  predicate Critical(tests: seq<Test>, e: Exec) {
    e.test < |tests| && tests[e.test].critical && e.outcome == Failed
  }

  ghost predicate AnyCrashed(l: seq<Exec>) {
    exists e :: e in l && e.outcome == Crashed
  }

  ghost predicate AnyCritical(tests: seq<Test>, l: seq<Exec>) {
    exists e :: e in l && Critical(tests, e)
  }

  // The executions come from the hardware as described.
  ghost predicate FromEnv(env: Env, l: seq<Exec>, from: nat) {
    forall n :: 0 <= n < |l| ==> l[n].outcome == env(from + n, l[n].test, l[n].rebooted)
  }

  // The executions of the first slot.
  function FirstSlot(env: Env, s: Sys, i: nat): seq<Exec> {
    var e := Exec(i, false, env(|s.log|, i, false));
    if e.outcome == Crashed then [e, Exec(i, true, env(|s.log| + 1, i, true))] else [e]
  }

  lemma IdealFirst(env: Env, tests: seq<Test>, s: Sys, q: seq<Slot>) returns (t: Sys)
    requires Tame(env, tests) && s.up && !s.stop
    requires q != [] && forall x :: x in q ==> x.test < |tests|
    requires Eligible(tests[q[0].test], s.word.mode, q[0].mem)
    ensures var first := FirstSlot(env, s, q[0].test);
            && Ideal(env, tests, s, q) == Ideal(env, tests, t, q[1..])
            && t.log == s.log + first && t.up && t.word.mode == s.word.mode
            && t.stop == Stops(tests, first[|first| - 1])
            && t.fail == (s.fail || Critical(tests, first[|first| - 1]) || (first[0].outcome == Crashed && s.word.lastFail))
            && t.word.lastFail == (s.word.lastFail || (tests[q[0].test].reboot && s.fail))
  {
    var m, i := q[0].mem, q[0].test;
    t := Single(env, tests, s, m, i, false);
    if !t.up {
      var r := Resumed(t);
      t := Single(env, tests, r, m, i, true);
    }
  }

  // Executions `l` lead from `s` to `t`.
  ghost predicate Logged(env: Env, tests: seq<Test>, s: Sys, t: Sys, l: seq<Exec>) {
    && t.log == s.log + l && FromEnv(env, l, |s.log|)
    && (t.fail <==> s.fail || AnyCritical(tests, l) || (s.word.lastFail && AnyCrashed(l)))
    && (s.word.lastFail ==> t.word.lastFail)
    && (t.word.lastFail ==> s.word.lastFail || s.fail || AnyCritical(tests, l))
  }

  lemma LoggedConcat(env: Env, tests: seq<Test>, s: Sys, t: Sys, z: Sys, a: seq<Exec>, b: seq<Exec>)
    requires Logged(env, tests, s, t, a) && Logged(env, tests, t, z, b)
    ensures Logged(env, tests, s, z, a + b)
  {
    assert s.log + (a + b) == t.log + b;
  }

  /** The executions of the design, and the failure flag left for the boot command: it says
      whether a critical test failed, in this boot or before a reset, or an earlier pass had
      left the saved failure in the word and there was a reset. */
  lemma {:induction false} IdealShaped(env: Env, tests: seq<Test>, s: Sys, q: seq<Slot>) returns (l: seq<Exec>)
    requires Tame(env, tests) && s.up && !s.stop
    requires forall x :: x in q ==> x.test < |tests| && Eligible(tests[x.test], s.word.mode, x.mem)
    ensures Logged(env, tests, s, Ideal(env, tests, s, q), l) && Shaped(tests, q, l)
    decreases |q|
  {
    if q == [] {
      l := [];
    } else {
      assert q[0] in q;
      var t := IdealFirst(env, tests, s, q);
      var first := FirstSlot(env, s, q[0].test);
      FirstCritical(tests, first);
      var rest: seq<Exec> := [];
      if !t.stop { rest := IdealShaped(env, tests, t, q[1..]); }
      ShapedCons(env, tests, s, q, rest);
      LoggedConcat(env, tests, s, t, Ideal(env, tests, t, q[1..]), first, rest);
      l := first + rest;
    }
  }

  lemma ShapedCons(env: Env, tests: seq<Test>, s: Sys, q: seq<Slot>, rest: seq<Exec>)
    requires Tame(env, tests) && q != [] && forall x :: x in q ==> x.test < |tests|
    requires var first := FirstSlot(env, s, q[0].test);
             if Stops(tests, first[|first| - 1]) then rest == [] else Shaped(tests, q[1..], rest)
    ensures Shaped(tests, q, FirstSlot(env, s, q[0].test) + rest)
  {
    var first := FirstSlot(env, s, q[0].test);
    var l := first + rest;
    assert q[0] in q;
    if first[0].outcome == Crashed {
      assert l[0] == first[0] && l[1] == first[1] && l[2..] == rest;
    } else {
      assert l[0] == first[0] && l[1..] == rest;
    }
  }

  lemma FirstCritical(tests: seq<Test>, first: seq<Exec>)
    requires |first| == 1 || (|first| == 2 && first[0].outcome == Crashed)
    requires first[|first| - 1].outcome != Crashed
    ensures AnyCritical(tests, first) <==> Critical(tests, first[|first| - 1])
    ensures AnyCrashed(first) <==> first[0].outcome == Crashed
  {
    assert first[0] in first;
  }

  /** The tests that ran to their end, in the order they did. */
  function Finished(l: seq<Exec>): seq<nat> {
    if l == [] then []
    else (if l[0].outcome == Crashed then [] else [l[0].test]) + Finished(l[1..])
  }

  function Tests(q: seq<Slot>): seq<nat> {
    if q == [] then [] else [q[0].test] + Tests(q[1..])
  }

  /** Every test of the pass is finished exactly once, in table order, as far as the pass gets. */
  lemma {:induction false} FinishedInOrder(tests: seq<Test>, q: seq<Slot>, l: seq<Exec>)
    requires (forall x :: x in q ==> x.test < |tests|) && Shaped(tests, q, l)
    ensures Finished(l) <= Tests(q)
    ensures (forall e :: e in l ==> !Stops(tests, e)) ==> Finished(l) == Tests(q)
    decreases |q|
  {
    if q != [] {
      if l[0].outcome == Crashed {
        assert l[1..][0] == l[1] && l[1..][1..] == l[2..];
        assert Finished(l) == [l[1].test] + Finished(l[2..]);
        if !Stops(tests, l[1]) { FinishedInOrder(tests, q[1..], l[2..]); }
      } else {
        if !Stops(tests, l[0]) { FinishedInOrder(tests, q[1..], l[1..]); }
      }
    }
  }

  /** The watchdog test: passes when told of a reset, and otherwise is either reset or fails. */
  ghost predicate IsWatchdog(env: Env, i: nat) {
    forall n :: env(n, i, true) == Passed && env(n, i, false) != Passed
  }

  lemma FromEnvTail(env: Env, l: seq<Exec>, from: nat, n: nat)
    requires FromEnv(env, l, from) && n <= |l|
    ensures FromEnv(env, l[n..], from + n)
  {
    forall m | 0 <= m < |l| - n
      ensures l[n..][m].outcome == env(from + n + m, l[n..][m].test, l[n..][m].rebooted)
    {
      assert l[n..][m] == l[n + m] && from + n + m == from + (n + m);
    }
  }

  ghost predicate PassedIn(l: seq<Exec>, i: nat) { exists r :: Exec(i, r, Passed) in l }

  lemma PassedConcat(a: seq<Exec>, b: seq<Exec>, i: nat)
    ensures PassedIn(a + b, i) <==> PassedIn(a, i) || PassedIn(b, i)
    ensures forall e :: e in a + b <==> e in a || e in b
  {
  }

  // The executions of one slot.
  lemma WatchdogSlot(env: Env, a: seq<Exec>, from: nat, i: nat)
    requires IsWatchdog(env, i) && FromEnv(env, a, from) && a != [] && !a[0].rebooted
    requires if a[0].outcome == Crashed then |a| == 2 && a[1].rebooted && a[1].test == a[0].test else |a| == 1
    ensures PassedIn(a, i) <==> Exec(i, false, Crashed) in a
  {
    assert a[0].outcome == env(from + 0, a[0].test, a[0].rebooted);
    if a[0].outcome == Crashed {
      assert a[1].outcome == env(from + 1, a[1].test, a[1].rebooted);
      if a[0].test == i {
        assert a[0] == Exec(i, false, Crashed) && a[1] == Exec(i, true, Passed);
      }
    }
  }

  /** The watchdog test is reported as passed exactly when it was reset. */
  lemma {:induction false} WatchdogPassesIffReset(env: Env, tests: seq<Test>, q: seq<Slot>, l: seq<Exec>, from: nat, i: nat)
    requires (forall x :: x in q ==> x.test < |tests|) && Shaped(tests, q, l)
    requires IsWatchdog(env, i) && FromEnv(env, l, from)
    ensures PassedIn(l, i) <==> Exec(i, false, Crashed) in l
    decreases |q|
  {
    if q != [] {
      var n := if l[0].outcome == Crashed then 2 else 1;
      var first, rest := l[..n], l[n..];
      assert first + rest == l;
      FromEnvTail(env, l, from, n);
      WatchdogSlot(env, first, from, i);
      PassedConcat(first, rest, i);
      if !Stops(tests, l[n - 1]) {
        WatchdogPassesIffReset(env, tests, q[1..], rest, from + n, i);
      }
    }
  }

  /** End to end: the executions of all boots of a pass. */
  lemma PassReport(env: Env, tests: seq<Test>, s: Sys, hotkeys: nat -> bool, k: nat) returns (l: seq<Exec>)
    requires Tame(env, tests) && !(s.word.magic && s.word.powertest)
    requires var w := InitWord(s.word, hotkeys(k));
             && NoDual(tests, w.mode) && Nested(w.lastId, RebootIds(tests, Queue(tests, w.mode)))
             && k == 1 + |RebootIds(tests, Queue(tests, w.mode))|
    ensures var t := Boots(env, tests, s, hotkeys, k);
            var q := Queue(tests, InitWord(s.word, hotkeys(k)).mode);
            && t.up && t.log == s.log + l && Shaped(tests, q, l) && FromEnv(env, l, |s.log|)
            && Finished(l) <= Tests(q)
            && ((forall e :: e in l ==> !Stops(tests, e)) ==> Finished(l) == Tests(q))
            && (t.fail <==> AnyCritical(tests, l) || (InitWord(s.word, hotkeys(k)).lastFail && AnyCrashed(l)))
    ensures forall i :: IsWatchdog(env, i) ==>
              (PassedIn(l, i) <==> Exec(i, false, Crashed) in l)
  {
    var s1 := Begun(s, hotkeys(k));
    var q := Queue(tests, s1.word.mode);
    PassSurvivesResets(env, tests, s, hotkeys, k);
    l := IdealShaped(env, tests, s1, q);
    FinishedInOrder(tests, q, l);
    forall i | IsWatchdog(env, i)
      ensures PassedIn(l, i) <==> Exec(i, false, Crashed) in l
    {
      WatchdogPassesIffReset(env, tests, q, l, |s.log|, i);
    }
  }

  // ------------------------------------------------------------------ the stored number must nest

  /** Hardware on which everything passes but the n-th execution, if that is the first one
      of a test that may reset. */
  function CrashAt(tests: seq<Test>, n: nat): Env {
    (m: nat, i: nat, r: bool) =>
      if m == n && !r && i < |tests| && tests[i].reboot then Crashed else Passed
  }

  lemma {:induction false} RunFromExtends(env: Env, tests: seq<Test>, s: Sys, mem: Mem, i: nat)
    ensures s.log <= RunFrom(env, tests, s, mem, i).log
    decreases |tests| - i
  {
    if i < |tests| && !s.stop && s.up {
      RunFromExtends(env, tests, Single(env, tests, s, mem, i, false), mem, i + 1);
    }
  }

  // A resumed group runs the stored test first, or nothing.
  lemma ResumedRun(env: Env, tests: seq<Test>, s: Sys, mem: Mem)
    requires s.word.magic && s.word.powertest
    ensures var t := PostRun(env, tests, s, mem);
            && s.log <= t.log
            && (|s.log| < |t.log| ==> t.log[|s.log|].test == s.word.lastId)
            && (|s.log| == |t.log| ==> t.word == s.word && t.up == s.up)
  {
    if !s.stop && s.up {
      var s1 := s.(fail := s.fail || s.word.lastFail);
      var last := s.word.lastId;
      if last < |tests| && Eligible(tests[last], s.word.mode, mem) {
        RunFromExtends(env, tests, Single(env, tests, s1, mem, last, true), mem, last + 1);
      }
    }
  }

  lemma PostRunExtends(env: Env, tests: seq<Test>, s: Sys, mem: Mem)
    ensures s.log <= PostRun(env, tests, s, mem).log
  {
    if s.word.magic && s.word.powertest {
      ResumedRun(env, tests, s, mem);
    } else {
      RunFromExtends(env, tests, s, mem, 0);
    }
  }

  lemma ResumedBoot(env: Env, tests: seq<Test>, s: Sys, hotkeys: bool)
    requires s.word.magic && s.word.powertest
    ensures var t := Boot(env, tests, s, hotkeys);
            && s.log <= t.log
            && (|s.log| < |t.log| ==> t.log[|s.log|].test == s.word.lastId)
            && (|s.log| == |t.log| ==> t.up)
  {
    var s1 := Begun(s, hotkeys);
    var s2 := PostRun(env, tests, s1, Rom);
    ResumedRun(env, tests, s1, Rom);
    if |s1.log| == |s2.log| {
      ResumedRun(env, tests, s2, Ram);
    } else {
      PostRunExtends(env, tests, s2, Ram);
    }
  }

  lemma BootExtends(env: Env, tests: seq<Test>, s: Sys, hotkeys: bool)
    ensures s.log <= Boot(env, tests, s, hotkeys).log
  {
    var s1 := Begun(s, hotkeys);
    PostRunExtends(env, tests, s1, Rom);
    PostRunExtends(env, tests, PostRun(env, tests, s1, Rom), Ram);
  }

  lemma {:induction false} BootsExtend(env: Env, tests: seq<Test>, s: Sys, hotkeys: nat -> bool, k: nat)
    ensures s.log <= Boots(env, tests, s, hotkeys, k).log
    decreases k
  {
    if k != 0 {
      BootExtends(env, tests, s, hotkeys(k));
      BootsExtend(env, tests, Boot(env, tests, s, hotkeys(k)), hotkeys, k - 1);
    }
  }

  // A stored number that is not the interrupted test's: that test is not what runs next.
  lemma LostTest(env: Env, tests: seq<Test>, s: Sys, hotkeys: nat -> bool, k: nat, d: seq<Exec>)
    requires s.word.magic && s.word.powertest && |s.log| < |d| && s.word.lastId != d[|s.log|].test
    ensures Boots(env, tests, s, hotkeys, k).log != d
  {
    if k != 0 {
      var t := Boot(env, tests, s, hotkeys(k));
      ResumedBoot(env, tests, s, hotkeys(k));
      BootsExtend(env, tests, t, hotkeys, k - 1);
    }
  }

  // The n-th execution is interrupted, test `j` should come next, and another number is stored.
  predicate BadAt(tests: seq<Test>, s: Sys, q: seq<Slot>, n: nat, j: nat)
    requires forall x :: x in q ==> x.test < |tests|
  {
    var t, d := Pass(CrashAt(tests, n), tests, s, q), Ideal(CrashAt(tests, n), tests, s, q);
    && !t.up && |t.log| == n + 1 && t.word.magic && t.word.powertest && t.word.lastId != j
    && n + 1 < |d.log| && d.log[n + 1].test == j
  }

  // The first test whose number does not come out right, interrupted.
  lemma {:induction false} BadCrash(tests: seq<Test>, s: Sys, mem: Mem, i: nat, q: seq<Slot>) returns (n: nat, j: nat)
    requires s.up && !s.stop && s.word.magic && !s.word.powertest
    requires q == Rest(tests, s.word.mode, mem, i) && !Nested(s.word.lastId, RebootIds(tests, q))
    ensures |s.log| <= n && BadAt(tests, s, q, n, j)
    decreases |q|
  {
    NextSlot(tests, s.word.mode, mem, i);
    var m, x := q[0].mem, q[0].test;
    assert q[0] in q;
    NestedTail(tests, s.word.lastId, q);
    if tests[x].reboot && BitOr(s.word.lastId, x) != x {
      n, j := |s.log|, x;
      BadHere(tests, s, q);
    } else {
      // any hardware that does not reset here leaves this state
      var t := Single(CrashAt(tests, |s.log| + 1), tests, s, m, x, false);
      PassedHere(tests, s, m, x, |s.log| + 1);
      n, j := BadCrash(tests, t, m, x + 1, q[1..]);
      SameHere(tests, s, m, x, |s.log| + 1, n);
      BadLater(tests, s, t, q, n, j);
    }
  }

  lemma SameHere(tests: seq<Test>, s: Sys, mem: Mem, i: nat, n: nat, n': nat)
    requires i < |tests| && Eligible(tests[i], s.word.mode, mem) && |s.log| < n && |s.log| < n'
    requires s.up && !s.stop && !s.word.powertest
    ensures Single(CrashAt(tests, n), tests, s, mem, i, false) == Single(CrashAt(tests, n'), tests, s, mem, i, false)
  {
    PassedHere(tests, s, mem, i, n);
    PassedHere(tests, s, mem, i, n');
  }

  lemma BadLater(tests: seq<Test>, s: Sys, t: Sys, q: seq<Slot>, n: nat, j: nat)
    requires q != [] && (forall x :: x in q ==> x.test < |tests|) && s.up && !s.stop && t.up
    requires t == Single(CrashAt(tests, n), tests, s, q[0].mem, q[0].test, false)
    requires BadAt(tests, t, q[1..], n, j)
    ensures BadAt(tests, s, q, n, j)
  {
  }

  lemma PassedHere(tests: seq<Test>, s: Sys, mem: Mem, i: nat, n: nat)
    requires i < |tests| && Eligible(tests[i], s.word.mode, mem) && |s.log| < n
    requires s.up && !s.stop && !s.word.powertest
    ensures var t := Single(CrashAt(tests, n), tests, s, mem, i, false);
            var w := s.word.(lastFail := t.word.lastFail,
                             lastId := if tests[i].reboot then BitOr(s.word.lastId, i) else s.word.lastId);
            && t == s.(word := w, log := s.log + [Exec(i, false, Passed)])
            && t.word.lastFail == (s.word.lastFail || (tests[i].reboot && s.fail))
  {
  }

  lemma BadHere(tests: seq<Test>, s: Sys, q: seq<Slot>)
    requires s.up && !s.stop && s.word.magic && !s.word.powertest
    requires q != [] && forall x :: x in q ==> x.test < |tests| && Eligible(tests[x.test], s.word.mode, x.mem)
    requires tests[q[0].test].reboot && BitOr(s.word.lastId, q[0].test) != q[0].test
    ensures BadAt(tests, s, q, |s.log|, q[0].test)
  {
    var env := CrashAt(tests, |s.log|);
    assert q[0] in q;
    var t := Single(env, tests, s, q[0].mem, q[0].test, false);
    assert Pass(env, tests, t, q[1..]) == t;
    IdealExtends(env, tests, Single(env, tests, Resumed(t), q[0].mem, q[0].test, true), q[1..]);
  }

  lemma {:induction false} IdealExtends(env: Env, tests: seq<Test>, s: Sys, q: seq<Slot>)
    requires forall x :: x in q ==> x.test < |tests|
    ensures s.log <= Ideal(env, tests, s, q).log
    decreases |q|
  {
    if q != [] && !s.stop {
      var t := Single(env, tests, s, q[0].mem, q[0].test, false);
      if t.up {
        IdealExtends(env, tests, t, q[1..]);
      } else {
        IdealExtends(env, tests, Single(env, tests, Resumed(t), q[0].mem, q[0].test, true), q[1..]);
      }
    }
  }

  // The slots around test `j` of a group.
  lemma {:induction false} SlotSplit(tests: seq<Test>, mode: Mode, mem: Mem, i: nat, j: nat) returns (a: seq<Slot>)
    requires i <= j < |tests| && Eligible(tests[j], mode, mem)
    ensures SlotsFrom(tests, mode, mem, i) == a + [Slot(mem, j)] + SlotsFrom(tests, mode, mem, j + 1)
    decreases j - i
  {
    if i == j {
      a := [];
    } else {
      a := SlotSplit(tests, mode, mem, i + 1, j);
      if Eligible(tests[i], mode, mem) { a := [Slot(mem, i)] + a; }
    }
  }

  // Slots before the n-th execution just pass, for the boots and for the design.
  lemma {:induction false} QuietSlots(tests: seq<Test>, s: Sys, p: seq<Slot>, q: seq<Slot>, n: nat) returns (v: Sys)
    requires s.up && !s.stop && !s.word.powertest && |s.log| + |p| <= n
    requires forall x :: x in p + q ==> x.test < |tests| && Eligible(tests[x.test], s.word.mode, x.mem)
    requires Nested(s.word.lastId, RebootIds(tests, p + q))
    ensures forall x :: x in q ==> x in p + q
    ensures v.up && !v.stop && !v.word.powertest && |v.log| == |s.log| + |p|
    ensures v.word.mode == s.word.mode && v.word.magic == s.word.magic
    ensures Nested(v.word.lastId, RebootIds(tests, q))
    ensures Pass(CrashAt(tests, n), tests, s, p + q) == Pass(CrashAt(tests, n), tests, v, q)
    ensures Ideal(CrashAt(tests, n), tests, s, p + q) == Ideal(CrashAt(tests, n), tests, v, q)
    decreases |p|
  {
    assert forall x :: x in q ==> x in p + q;
    if p == [] {
      assert p + q == q;
      v := s;
    } else {
      var r := p + q;
      assert r[0] == p[0] && r[1..] == p[1..] + q && r[0] in r;
      var t := Single(CrashAt(tests, n), tests, s, p[0].mem, p[0].test, false);
      PassedHere(tests, s, p[0].mem, p[0].test, n);
      NestedTail(tests, s.word.lastId, r);
      v := QuietSlots(tests, t, p[1..], q, n);
    }
  }

  // Slots behind the n-th execution just pass too.
  lemma {:induction false} LateSlots(tests: seq<Test>, s: Sys, q: seq<Slot>, n: nat)
    requires s.up && !s.stop && n < |s.log|
    requires forall x :: x in q ==> x.test < |tests| && Eligible(tests[x.test], s.word.mode, x.mem)
    ensures var t := Pass(CrashAt(tests, n), tests, s, q);
            t.up && |t.log| == |s.log| + |q| && Ideal(CrashAt(tests, n), tests, s, q) == t
    decreases |q|
  {
    if q != [] {
      assert q[0] in q;
      LateSlots(tests, Single(CrashAt(tests, n), tests, s, q[0].mem, q[0].test, false), q[1..], n);
    }
  }

  // The pass up to the reset of test `j` in the second group, and the design's executions.
  lemma DualPass(tests: seq<Test>, s: Sys, j: nat) returns (n: nat)
    requires s.up && !s.stop && s.word.magic && !s.word.powertest && j < |tests| && tests[j].reboot
    requires Eligible(tests[j], s.word.mode, Ram)
    requires Nested(s.word.lastId, RebootIds(tests, Queue(tests, s.word.mode)))
    ensures var env, q := CrashAt(tests, n), Queue(tests, s.word.mode);
            var t := Pass(env, tests, s, q);
            && !t.up && |t.log| == n + 1
            && t.word.magic && t.word.powertest && t.word.lastId == j && t.word.mode == s.word.mode
            && |Ideal(env, tests, s, q).log| == n + 2 + |SlotsFrom(tests, s.word.mode, Ram, j + 1)|
  {
    var mode := s.word.mode;
    var a := SlotSplit(tests, mode, Ram, 0, j);
    var p := SlotsFrom(tests, mode, Rom, 0) + a;
    var b := SlotsFrom(tests, mode, Ram, j + 1);
    var q := [Slot(Ram, j)] + b;
    assert Queue(tests, mode) == p + q;
    n := |s.log| + |p|;
    var v := QuietSlots(tests, s, p, q, n);
    assert q[1..] == b && q[0] in q;
    NestedTail(tests, v.word.lastId, q);
    var t := Single(CrashAt(tests, n), tests, v, Ram, j, false);
    assert Pass(CrashAt(tests, n), tests, v, q) == t by { assert Pass(CrashAt(tests, n), tests, t, b) == t; }
    DualIdeal(tests, v, q, n);
  }

  /** A test that may reset and runs in both groups, reset in the second one: the boots run
      more than the design has. */
  lemma DualCrash(tests: seq<Test>, s: Sys, hotkeys: nat -> bool, k: nat, j: nat) returns (n: nat)
    requires !(s.word.magic && s.word.powertest) && 2 <= k && j < |tests| && tests[j].reboot
    requires var w := InitWord(s.word, hotkeys(k));
             && Eligible(tests[j], w.mode, Rom) && Eligible(tests[j], w.mode, Ram)
             && Nested(w.lastId, RebootIds(tests, Queue(tests, w.mode)))
    ensures var s1 := Begun(s, hotkeys(k));
            |Ideal(CrashAt(tests, n), tests, s1, Queue(tests, s1.word.mode)).log|
            < |Boots(CrashAt(tests, n), tests, s, hotkeys, k).log|
  {
    var s1 := Begun(s, hotkeys(k));
    n := DualPass(tests, s1, j);
    var t := Pass(CrashAt(tests, n), tests, s1, Queue(tests, s1.word.mode));
    FreshBoot(CrashAt(tests, n), tests, s1);
    DualBoot(tests, t, hotkeys(k - 1), j, n);
    var a := SlotSplit(tests, s1.word.mode, Ram, 0, j);
  }

  lemma DualIdeal(tests: seq<Test>, v: Sys, q: seq<Slot>, n: nat)
    requires v.up && !v.stop && |v.log| == n && q != [] && q[0].test < |tests| && tests[q[0].test].reboot
    requires forall x :: x in q ==> x.test < |tests| && Eligible(tests[x.test], v.word.mode, x.mem)
    ensures |Ideal(CrashAt(tests, n), tests, v, q).log| == n + 1 + |q|
  {
    var env := CrashAt(tests, n);
    assert q[0] in q;
    var t := Single(env, tests, v, q[0].mem, q[0].test, false);
    LateSlots(tests, Single(env, tests, Resumed(t), q[0].mem, q[0].test, true), q[1..], n);
  }

  lemma DualBoot(tests: seq<Test>, t: Sys, hotkeys: bool, j: nat, n: nat)
    requires j < |tests| && tests[j].reboot && Eligible(tests[j], t.word.mode, Rom)
    requires t.word.magic && t.word.powertest && t.word.lastId == j && |t.log| == n + 1
    ensures var u := Boot(CrashAt(tests, n), tests, t, hotkeys);
            u.up && |u.log| == n + 2 + |Rest(tests, t.word.mode, Rom, j + 1)|
  {
    var env := CrashAt(tests, n);
    var t1 := t.(word := t.word.(coldboot := false), fail := false, stop := false, up := true);
    ResumeRom(env, tests, t1, j);
    var u := Single(env, tests, t1.(fail := t1.fail || t1.word.lastFail), Rom, j, true);
    LateSlots(tests, u, Rest(tests, t.word.mode, Rom, j + 1), n);
  }

  // The boots of a pass give the executions of the design on all tame hardware.
  ghost predicate Faithful(tests: seq<Test>, s: Sys, hotkeys: nat -> bool, k: nat)
    requires 0 < k
  {
    var s1 := Begun(s, hotkeys(k));
    forall env: Env :: Tame(env, tests) ==>
      Boots(env, tests, s, hotkeys, k).log == Ideal(env, tests, s1, Queue(tests, s1.word.mode)).log
  }

  lemma WrongNumber(env: Env, tests: seq<Test>, s: Sys, hotkeys: nat -> bool, k: nat, t: Sys, d: seq<Exec>)
    requires 0 < k && t == Boot(env, tests, s, hotkeys(k)) && !t.up && t.word.magic && t.word.powertest
    requires |t.log| < |d| && t.word.lastId != d[|t.log|].test
    ensures Boots(env, tests, s, hotkeys, k).log != d
  {
    LostTest(env, tests, t, hotkeys, k - 1, d);
  }

  // An execution interrupted with the wrong number stored: the boots part from the design.
  lemma BadBoots(tests: seq<Test>, s: Sys, hotkeys: nat -> bool, k: nat, s1: Sys, n: nat, j: nat)
    requires !(s.word.magic && s.word.powertest) && 0 < k
    requires s1 == Begun(s, hotkeys(k))
    requires BadAt(tests, s1, Queue(tests, s1.word.mode), n, j)
    ensures Boots(CrashAt(tests, n), tests, s, hotkeys, k).log
            != Ideal(CrashAt(tests, n), tests, s1, Queue(tests, s1.word.mode)).log
  {
    var env, q := CrashAt(tests, n), Queue(tests, s1.word.mode);
    var t, d := Pass(env, tests, s1, q), Ideal(env, tests, s1, q);
    FreshBoot(env, tests, s1);
    WrongNumber(env, tests, s, hotkeys, k, t, d.log);
  }

  lemma UnnestedUnfaithful(tests: seq<Test>, s: Sys, hotkeys: nat -> bool, k: nat)
    requires !(s.word.magic && s.word.powertest) && 0 < k
    requires var w := InitWord(s.word, hotkeys(k)); !Nested(w.lastId, RebootIds(tests, Queue(tests, w.mode)))
    ensures !Faithful(tests, s, hotkeys, k)
  {
    var s1 := Begun(s, hotkeys(k));
    var q := Queue(tests, s1.word.mode);
    assert q == Rest(tests, s1.word.mode, Rom, 0);
    var n, j := BadCrash(tests, s1, Rom, 0, q);
    BadBoots(tests, s, hotkeys, k, s1, n, j);
    CrashAtTame(tests, n);
  }

  lemma DualUnfaithful(tests: seq<Test>, s: Sys, hotkeys: nat -> bool, k: nat)
    requires !(s.word.magic && s.word.powertest)
    requires var w := InitWord(s.word, hotkeys(k));
             && !NoDual(tests, w.mode) && Nested(w.lastId, RebootIds(tests, Queue(tests, w.mode)))
             && k == 1 + |RebootIds(tests, Queue(tests, w.mode))|
    ensures !Faithful(tests, s, hotkeys, k)
  {
    var mode := InitWord(s.word, hotkeys(k)).mode;
    var j :| 0 <= j < |tests| && tests[j].reboot && Eligible(tests[j], mode, Rom) && Eligible(tests[j], mode, Ram);
    SomeId(tests, mode, j);
    var n := DualCrash(tests, s, hotkeys, k, j);
    CrashAtTame(tests, n);
  }

  lemma CrashAtTame(tests: seq<Test>, n: nat)
    ensures Tame(CrashAt(tests, n), tests)
  {
  }

  /** Resets are survived on all tame hardware exactly when the numbers of the tests that may
      reset contain each other's bits in order, and none of these tests runs in both groups. */
  lemma FaithfulIff(tests: seq<Test>, s: Sys, hotkeys: nat -> bool, k: nat)
    requires !(s.word.magic && s.word.powertest)
    requires k == 1 + |RebootIds(tests, Queue(tests, InitWord(s.word, hotkeys(k)).mode))|
    ensures Faithful(tests, s, hotkeys, k) <==>
            var w := InitWord(s.word, hotkeys(k));
            NoDual(tests, w.mode) && Nested(w.lastId, RebootIds(tests, Queue(tests, w.mode)))
  {
    var s1 := Begun(s, hotkeys(k));
    var mode := s1.word.mode;
    var q := Queue(tests, mode);
    if !Nested(s1.word.lastId, RebootIds(tests, q)) {
      UnnestedUnfaithful(tests, s, hotkeys, k);
    } else if !NoDual(tests, mode) {
      DualUnfaithful(tests, s, hotkeys, k);
    } else {
      forall env: Env | Tame(env, tests)
        ensures Boots(env, tests, s, hotkeys, k).log == Ideal(env, tests, s1, q).log
      {
        PassSurvivesResets(env, tests, s, hotkeys, k);
      }
    }
  }

  lemma SomeId(tests: seq<Test>, mode: Mode, j: nat)
    requires j < |tests| && tests[j].reboot && Eligible(tests[j], mode, Ram)
    ensures 0 < |RebootIds(tests, Queue(tests, mode))|
  {
    var a := SlotSplit(tests, mode, Ram, 0, j);
    var p := SlotsFrom(tests, mode, Rom, 0) + a;
    assert Queue(tests, mode) == p + ([Slot(Ram, j)] + SlotsFrom(tests, mode, Ram, j + 1));
    SomeIdIn(tests, p, [Slot(Ram, j)] + SlotsFrom(tests, mode, Ram, j + 1));
  }

  lemma {:induction false} SomeIdIn(tests: seq<Test>, p: seq<Slot>, q: seq<Slot>)
    requires (forall x :: x in p + q ==> x.test < |tests|) && q != [] && q[0].test < |tests| && tests[q[0].test].reboot
    ensures 0 < |RebootIds(tests, p + q)|
    decreases |p|
  {
    if p == [] {
      assert p + q == q;
    } else {
      assert (p + q)[0] == p[0] && (p + q)[1..] == p[1..] + q;
      SomeIdIn(tests, p[1..], q);
    }
  }
}
