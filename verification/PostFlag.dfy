/** The failure flag that a pass leaves for the boot command, for every table of tests: whether the
    stored numbers nest or not.  A failure is saved in the POST word with the number of a test that
    may reset, taken over by the boot after a reset, and never cleared. */
module PostFlag {
  import opened Post
  import opened PostLifetime

  // ------------------------------------------------------------------ what every boot keeps

  // `l` are the executions of the pass so far, `saved` says that the word held a failure before it.
  ghost predicate Accounts(tests: seq<Test>, s: Sys, base: seq<Exec>, l: seq<Exec>, saved: bool) {
    && s.log == base + l && s.word.magic
    && (saved ==> s.word.lastFail) && (s.word.lastFail ==> saved || AnyCritical(tests, l))
  }

  // While a boot is running.
  ghost predicate Balanced(tests: seq<Test>, s: Sys, base: seq<Exec>, l: seq<Exec>, saved: bool) {
    && s.up && Accounts(tests, s, base, l, saved)
    && (s.fail <==> AnyCritical(tests, l) || (saved && AnyCrashed(l)))
    && (s.word.powertest ==> AnyCrashed(l))
  }

  // After a reset.
  ghost predicate Interrupted(tests: seq<Test>, s: Sys, base: seq<Exec>, l: seq<Exec>, saved: bool) {
    && !s.up && Accounts(tests, s, base, l, saved)
    && s.word.powertest && AnyCrashed(l) && (s.word.lastFail <==> saved || AnyCritical(tests, l))
  }

  ghost predicate Kept(tests: seq<Test>, s: Sys, base: seq<Exec>, l: seq<Exec>, saved: bool) {
    if s.up then Balanced(tests, s, base, l, saved) else Interrupted(tests, s, base, l, saved)
  }

  lemma OneMore(tests: seq<Test>, l: seq<Exec>, e: Exec)
    ensures AnyCritical(tests, l + [e]) <==> AnyCritical(tests, l) || Critical(tests, e)
    ensures AnyCrashed(l + [e]) <==> AnyCrashed(l) || e.outcome == Crashed
  {
    assert e in [e];
  }

  // For some list of executions since `base`.
  ghost predicate Sound(tests: seq<Test>, s: Sys, base: seq<Exec>, saved: bool) {
    exists l: seq<Exec> :: Kept(tests, s, base, l, saved)
  }

  lemma SingleKeeps(env: Env, tests: seq<Test>, s: Sys, mem: Mem, i: nat, rebooted: bool, base: seq<Exec>, saved: bool)
    requires Tame(env, tests) && i < |tests| && s.up && Sound(tests, s, base, saved)
    ensures Sound(tests, Single(env, tests, s, mem, i, rebooted), base, saved)
  {
    var l: seq<Exec> :| Kept(tests, s, base, l, saved);
    if Eligible(tests[i], s.word.mode, mem) {
      var e := Exec(i, rebooted, env(|s.log|, i, rebooted));
      OneMore(tests, l, e);
      assert s.log + [e] == base + (l + [e]);
      assert Kept(tests, Single(env, tests, s, mem, i, rebooted), base, l + [e], saved);
    }
  }

  lemma {:induction false} RunKeeps(env: Env, tests: seq<Test>, s: Sys, mem: Mem, i: nat, base: seq<Exec>, saved: bool)
    requires Tame(env, tests) && Sound(tests, s, base, saved)
    ensures Sound(tests, RunFrom(env, tests, s, mem, i), base, saved)
    decreases |tests| - i
  {
    if i < |tests| && !s.stop && s.up {
      SingleKeeps(env, tests, s, mem, i, false, base, saved);
      RunKeeps(env, tests, Single(env, tests, s, mem, i, false), mem, i + 1, base, saved);
    }
  }

  lemma GroupKeeps(env: Env, tests: seq<Test>, s: Sys, mem: Mem, base: seq<Exec>, saved: bool)
    requires Tame(env, tests) && Sound(tests, s, base, saved)
    ensures Sound(tests, PostRun(env, tests, s, mem), base, saved)
  {
    if s.stop || !s.up {
    } else if s.word.magic && s.word.powertest {
      var l: seq<Exec> :| Kept(tests, s, base, l, saved);
      var s1 := s.(fail := s.fail || s.word.lastFail);
      assert Kept(tests, s1, base, l, saved);
      var last := s.word.lastId;
      if last < |tests| && Eligible(tests[last], s.word.mode, mem) {
        SingleKeeps(env, tests, s1, mem, last, true, base, saved);
        RunKeeps(env, tests, Single(env, tests, s1, mem, last, true), mem, last + 1, base, saved);
      }
    } else {
      RunKeeps(env, tests, s, mem, 0, base, saved);
    }
  }

  // A boot after a reset takes the saved failure over before it runs anything.
  lemma BootKeeps(env: Env, tests: seq<Test>, s: Sys, hotkeys: bool, base: seq<Exec>, saved: bool)
    requires Tame(env, tests) && !s.up && Sound(tests, s, base, saved)
    ensures Sound(tests, Boot(env, tests, s, hotkeys), base, saved)
  {
    var l: seq<Exec> :| Kept(tests, s, base, l, saved);
    var b := Begun(s, hotkeys);
    var b' := b.(fail := b.word.lastFail);
    assert Kept(tests, b', base, l, saved);
    GroupKeeps(env, tests, b', Rom, base, saved);
    GroupKeeps(env, tests, PostRun(env, tests, b, Rom), Ram, base, saved);
  }

  lemma {:induction false} BootsKeep(env: Env, tests: seq<Test>, s: Sys, hotkeys: nat -> bool, k: nat,
                                     base: seq<Exec>, saved: bool)
    requires Tame(env, tests) && !s.up && Sound(tests, s, base, saved)
    ensures Sound(tests, Boots(env, tests, s, hotkeys, k), base, saved)
    decreases k
  {
    if k != 0 {
      BootKeeps(env, tests, s, hotkeys(k), base, saved);
      var t := Boot(env, tests, s, hotkeys(k));
      if !t.up { BootsKeep(env, tests, t, hotkeys, k - 1, base, saved); }
    }
  }

  /** For every table and all tame hardware, however the resets and the numbers stored fall: once a
      boot gets through, the flag says whether a critical test failed in the pass, or the word held
      a saved failure and there was a reset. */
  lemma FlagSays(env: Env, tests: seq<Test>, s: Sys, hotkeys: nat -> bool, k: nat) returns (l: seq<Exec>)
    requires Tame(env, tests) && !(s.word.magic && s.word.powertest) && 0 < k
    ensures var t, saved := Boots(env, tests, s, hotkeys, k), InitWord(s.word, hotkeys(k)).lastFail;
            && t.log == s.log + l
            && (t.up ==> (t.fail <==> AnyCritical(tests, l) || (saved && AnyCrashed(l))))
  {
    var b := Begun(s, hotkeys(k));
    var saved := b.word.lastFail;
    assert s.log == s.log + [];
    assert Kept(tests, b, s.log, [], saved);
    GroupKeeps(env, tests, b, Rom, s.log, saved);
    GroupKeeps(env, tests, PostRun(env, tests, b, Rom), Ram, s.log, saved);
    var t := Boot(env, tests, s, hotkeys(k));
    if !t.up { BootsKeep(env, tests, t, hotkeys, k - 1, s.log, saved); }
    l :| Kept(tests, Boots(env, tests, s, hotkeys, k), s.log, l, saved);
  }

  // ------------------------------------------------------------------ when it is right

  /** Whatever the hardware does, the flag left by a pass that gets through says whether a critical
      test failed in it. */
  ghost predicate FlagRight(tests: seq<Test>, s: Sys, hotkeys: nat -> bool, k: nat) {
    forall env: Env :: Tame(env, tests) ==> FlagRightOn(env, tests, s, hotkeys, k)
  }

  ghost predicate FlagRightOn(env: Env, tests: seq<Test>, s: Sys, hotkeys: nat -> bool, k: nat) {
    var t := Boots(env, tests, s, hotkeys, k);
    t.up ==> |s.log| <= |t.log| && (t.fail <==> AnyCritical(tests, t.log[|s.log|..]))
  }

  // A pass in one boot is either reset or has no reset in its executions.
  lemma {:induction false} PassUpIff(env: Env, tests: seq<Test>, s: Sys, q: seq<Slot>) returns (l: seq<Exec>)
    requires s.up && forall x :: x in q ==> x.test < |tests| && Eligible(tests[x.test], s.word.mode, x.mem)
    ensures Pass(env, tests, s, q).log == s.log + l && (Pass(env, tests, s, q).up <==> !AnyCrashed(l))
    decreases |q|
  {
    if q == [] || s.stop {
      l := [];
      assert s.log + [] == s.log;
    } else {
      assert q[0] in q;
      var e := Exec(q[0].test, false, env(|s.log|, q[0].test, false));
      var t := Single(env, tests, s, q[0].mem, q[0].test, false);
      var rest: seq<Exec> := [];
      if t.up { rest := PassUpIff(env, tests, t, q[1..]); }
      l := [e] + rest;
    }
  }

  // Without a test that may reset it gets through.
  lemma {:induction false} PassUp(env: Env, tests: seq<Test>, s: Sys, q: seq<Slot>)
    requires Tame(env, tests) && s.up && forall x :: x in q ==> x.test < |tests|
    requires RebootIds(tests, q) == []
    ensures Pass(env, tests, s, q).up
    decreases |q|
  {
    if q != [] && !s.stop {
      assert q[0] in q;
      IdsTail(tests, q);
      PassUp(env, tests, Single(env, tests, s, q[0].mem, q[0].test, false), q[1..]);
    }
  }

  // The slots up to the first test that may reset.
  lemma {:induction false} FirstReboot(tests: seq<Test>, q: seq<Slot>) returns (p: seq<Slot>, r: seq<Slot>)
    requires (forall x :: x in q ==> x.test < |tests|) && RebootIds(tests, q) != []
    ensures q == p + r && r != [] && r[0].test < |tests| && tests[r[0].test].reboot
    decreases |q|
  {
    assert q[0] in q;
    IdsTail(tests, q);
    if tests[q[0].test].reboot {
      p, r := [], q;
    } else {
      p, r := FirstReboot(tests, q[1..]);
      p := [q[0]] + p;
      assert q == [q[0]] + q[1..];
    }
  }

  // Slots before the n-th execution just pass.
  lemma {:induction false} QuietPrefix(tests: seq<Test>, s: Sys, p: seq<Slot>, r: seq<Slot>, n: nat) returns (v: Sys)
    requires s.up && !s.stop && !s.word.powertest && |s.log| + |p| <= n
    requires forall x :: x in p + r ==> x.test < |tests| && Eligible(tests[x.test], s.word.mode, x.mem)
    ensures forall x :: x in r ==> x in p + r
    ensures v.up && !v.stop && !v.word.powertest && |v.log| == |s.log| + |p| && v.word.mode == s.word.mode
    ensures Pass(CrashAt(tests, n), tests, s, p + r) == Pass(CrashAt(tests, n), tests, v, r)
    decreases |p|
  {
    assert forall x :: x in r ==> x in p + r;
    if p == [] {
      assert p + r == r;
      v := s;
    } else {
      assert (p + r)[0] == p[0] && (p + r)[1..] == p[1..] + r && p[0] in p + r;
      PassedHere(tests, s, p[0].mem, p[0].test, n);
      v := QuietPrefix(tests, Single(CrashAt(tests, n), tests, s, p[0].mem, p[0].test, false), p[1..], r, n);
    }
  }

  // Hardware on which everything passes but the first execution of a test that may reset.
  lemma FirstCrash(tests: seq<Test>, s: Sys, q: seq<Slot>) returns (n: nat)
    requires s.up && !s.stop && !s.word.powertest
    requires forall x :: x in q ==> x.test < |tests| && Eligible(tests[x.test], s.word.mode, x.mem)
    requires RebootIds(tests, q) != []
    ensures |s.log| <= n && |Pass(CrashAt(tests, n), tests, s, q).log| == n + 1
    ensures !Pass(CrashAt(tests, n), tests, s, q).up
  {
    var p, r := FirstReboot(tests, q);
    n := |s.log| + |p|;
    var v := QuietPrefix(tests, s, p, r, n);
    assert r[0] in p + r;
  }

  lemma {:induction false} LateRun(tests: seq<Test>, s: Sys, mem: Mem, i: nat, n: nat)
    requires s.up && n < |s.log|
    ensures RunFrom(CrashAt(tests, n), tests, s, mem, i).up
    decreases |tests| - i
  {
    RunFromExtends(CrashAt(tests, n), tests, s, mem, i);
    if i < |tests| && !s.stop {
      LateRun(tests, Single(CrashAt(tests, n), tests, s, mem, i, false), mem, i + 1, n);
    }
  }

  lemma LateGroup(tests: seq<Test>, s: Sys, mem: Mem, n: nat)
    requires s.up && n < |s.log|
    ensures var t := PostRun(CrashAt(tests, n), tests, s, mem); t.up && n < |t.log|
  {
    PostRunExtends(CrashAt(tests, n), tests, s, mem);
    if s.stop {
    } else if s.word.magic && s.word.powertest {
      var s1 := s.(fail := s.fail || s.word.lastFail);
      var last := s.word.lastId;
      if last < |tests| && Eligible(tests[last], s.word.mode, mem) {
        LateRun(tests, Single(CrashAt(tests, n), tests, s1, mem, last, true), mem, last + 1, n);
      }
    } else {
      LateRun(tests, s, mem, 0, n);
    }
  }

  // A boot behind the n-th execution gets through.
  lemma LateBoot(tests: seq<Test>, s: Sys, hotkeys: bool, n: nat)
    requires n < |s.log|
    ensures Boot(CrashAt(tests, n), tests, s, hotkeys).up
  {
    var b := Begun(s, hotkeys);
    LateGroup(tests, b, Rom, n);
    LateGroup(tests, PostRun(CrashAt(tests, n), tests, b, Rom), Ram, n);
  }

  // On such hardware nothing fails.
  ghost predicate NoneFailed(l: seq<Exec>) { forall e :: e in l ==> e.outcome != Failed }

  lemma SingleNoneFailed(tests: seq<Test>, s: Sys, mem: Mem, i: nat, rebooted: bool, n: nat) returns (l: seq<Exec>)
    requires i < |tests|
    ensures Single(CrashAt(tests, n), tests, s, mem, i, rebooted).log == s.log + l && NoneFailed(l)
  {
    l := [];
    assert s.log + [] == s.log;
    if Eligible(tests[i], s.word.mode, mem) { l := [Exec(i, rebooted, CrashAt(tests, n)(|s.log|, i, rebooted))]; }
  }

  lemma {:induction false} RunNoneFailed(tests: seq<Test>, s: Sys, mem: Mem, i: nat, n: nat) returns (l: seq<Exec>)
    ensures RunFrom(CrashAt(tests, n), tests, s, mem, i).log == s.log + l && NoneFailed(l)
    decreases |tests| - i
  {
    if i < |tests| && !s.stop && s.up {
      var one := SingleNoneFailed(tests, s, mem, i, false, n);
      var rest := RunNoneFailed(tests, Single(CrashAt(tests, n), tests, s, mem, i, false), mem, i + 1, n);
      l := one + rest;
      assert s.log + l == s.log + one + rest;
    } else {
      l := [];
      assert s.log + [] == s.log;
    }
  }

  lemma GroupNoneFailed(tests: seq<Test>, s: Sys, mem: Mem, n: nat) returns (l: seq<Exec>)
    ensures PostRun(CrashAt(tests, n), tests, s, mem).log == s.log + l && NoneFailed(l)
  {
    l := [];
    assert s.log + [] == s.log;
    if s.stop || !s.up {
    } else if s.word.magic && s.word.powertest {
      var s1 := s.(fail := s.fail || s.word.lastFail);
      var last := s.word.lastId;
      if last < |tests| && Eligible(tests[last], s.word.mode, mem) {
        var one := SingleNoneFailed(tests, s1, mem, last, true, n);
        var rest := RunNoneFailed(tests, Single(CrashAt(tests, n), tests, s1, mem, last, true), mem, last + 1, n);
        l := one + rest;
        assert s.log + l == s.log + one + rest;
      }
    } else {
      l := RunNoneFailed(tests, s, mem, 0, n);
    }
  }

  lemma BootNoneFailed(tests: seq<Test>, s: Sys, hotkeys: bool, n: nat) returns (l: seq<Exec>)
    ensures Boot(CrashAt(tests, n), tests, s, hotkeys).log == s.log + l && NoneFailed(l)
  {
    var b := Begun(s, hotkeys);
    var l1 := GroupNoneFailed(tests, b, Rom, n);
    var l2 := GroupNoneFailed(tests, PostRun(CrashAt(tests, n), tests, b, Rom), Ram, n);
    l := l1 + l2;
    assert s.log + l == s.log + l1 + l2;
  }

  lemma FlagWrong(tests: seq<Test>, s: Sys, hotkeys: nat -> bool, k: nat)
    requires !(s.word.magic && s.word.powertest) && 2 <= k
    requires var w := InitWord(s.word, hotkeys(k));
             w.lastFail && RebootIds(tests, Queue(tests, w.mode)) != []
    ensures !FlagRight(tests, s, hotkeys, k)
  {
    var b := Begun(s, hotkeys(k));
    var q := Queue(tests, b.word.mode);
    var n := FirstCrash(tests, b, q);
    var env := CrashAt(tests, n);
    CrashAtTame(tests, n);
    FreshBoot(env, tests, b);
    var t1 := Boot(env, tests, s, hotkeys(k));
    var t2 := Boot(env, tests, t1, hotkeys(k - 1));
    LateBoot(tests, t1, hotkeys(k - 1), n);
    assert Boots(env, tests, s, hotkeys, k) == t2;
    CrashedAndQuiet(tests, s, hotkeys, k, n, t1, t2);
    var l := FlagSays(env, tests, s, hotkeys, k);
    assert t2.log[|s.log|..] == l;
    assert !FlagRightOn(env, tests, s, hotkeys, k);
  }

  // The executions of the two boots have a reset and no failure.
  lemma CrashedAndQuiet(tests: seq<Test>, s: Sys, hotkeys: nat -> bool, k: nat, n: nat, t1: Sys, t2: Sys)
    requires 2 <= k && t1 == Boot(CrashAt(tests, n), tests, s, hotkeys(k)) && !t1.up
    requires t2 == Boot(CrashAt(tests, n), tests, t1, hotkeys(k - 1))
    requires !(s.word.magic && s.word.powertest)
    ensures |s.log| <= |t2.log| && AnyCrashed(t2.log[|s.log|..]) && !AnyCritical(tests, t2.log[|s.log|..])
  {
    var b := Begun(s, hotkeys(k));
    var q := Queue(tests, b.word.mode);
    FreshBoot(CrashAt(tests, n), tests, b);
    var l1 := PassUpIff(CrashAt(tests, n), tests, b, q);
    var l1' := BootNoneFailed(tests, s, hotkeys(k), n);
    assert l1 == t1.log[|s.log|..] == l1';
    var l2 := BootNoneFailed(tests, t1, hotkeys(k - 1), n);
    assert t2.log[|s.log|..] == l1 + l2;
  }

  lemma FlagRightWhen(env: Env, tests: seq<Test>, s: Sys, hotkeys: nat -> bool, k: nat)
    requires Tame(env, tests) && !(s.word.magic && s.word.powertest) && 0 < k
    requires var w := InitWord(s.word, hotkeys(k));
             !w.lastFail || k == 1 || RebootIds(tests, Queue(tests, w.mode)) == []
    ensures FlagRightOn(env, tests, s, hotkeys, k)
  {
    var b := Begun(s, hotkeys(k));
    var l := FlagSays(env, tests, s, hotkeys, k);
    var t := Boots(env, tests, s, hotkeys, k);
    assert t.log[|s.log|..] == l;
    FreshBoot(env, tests, b);
    var l1 := PassUpIff(env, tests, b, Queue(tests, b.word.mode));
    if RebootIds(tests, Queue(tests, b.word.mode)) == [] { PassUp(env, tests, b, Queue(tests, b.word.mode)); }
    if b.word.lastFail && t.up {
      assert t == Boot(env, tests, s, hotkeys(k));
      assert l == l1;
    }
  }

  /** The flag is right on all hardware, for every table, exactly when no failure was saved by an
      earlier pass, or there is no test that may reset, or no boot after a reset, to bring it back. */
  lemma FlagRightIff(tests: seq<Test>, s: Sys, hotkeys: nat -> bool, k: nat)
    requires !(s.word.magic && s.word.powertest) && 0 < k
    ensures FlagRight(tests, s, hotkeys, k) <==>
            var w := InitWord(s.word, hotkeys(k));
            !w.lastFail || k == 1 || RebootIds(tests, Queue(tests, w.mode)) == []
  {
    var w := InitWord(s.word, hotkeys(k));
    if w.lastFail && k != 1 && RebootIds(tests, Queue(tests, w.mode)) != [] {
      FlagWrong(tests, s, hotkeys, k);
    } else {
      forall env: Env | Tame(env, tests) ensures FlagRightOn(env, tests, s, hotkeys, k) {
        FlagRightWhen(env, tests, s, hotkeys, k);
      }
    }
  }

  // A critical test and one that may reset, both for normal boots; the first execution fails.
  const TWO_TESTS: seq<Test> :=
    [Test(Normal, true, false, false, true, false), Test(Normal, true, false, true, false, false)]

  function FailFirst(): Env { (n: nat, i: nat, r: bool) => if n == 0 then Failed else Passed }

  lemma TwoSlots()
    ensures Queue(TWO_TESTS, Normal) == [Slot(Rom, 0), Slot(Rom, 1)]
    ensures RebootIds(TWO_TESTS, Queue(TWO_TESTS, Normal)) == [1]
  {
    var tests := TWO_TESTS;
    assert SlotsFrom(tests, Normal, Rom, 2) == [] && SlotsFrom(tests, Normal, Ram, 2) == [];
    assert SlotsFrom(tests, Normal, Rom, 1) == [Slot(Rom, 1)] && SlotsFrom(tests, Normal, Ram, 1) == [];
    assert SlotsFrom(tests, Normal, Rom, 0) == [Slot(Rom, 0), Slot(Rom, 1)];
    assert [Slot(Rom, 0), Slot(Rom, 1)][1..] == [Slot(Rom, 1)] && [Slot(Rom, 1)][1..] == [];
    assert RebootIds(tests, [Slot(Rom, 1)]) == [1];
  }

  /** It happens: a normal pass in which the critical test fails leaves a word from which the
      flag of the next pass is not right any more. */
  lemma StaleFailure(s: Sys) returns (t: Sys)
    requires s.word == Word(true, PowerOn, false, true, false, 0) && s.log == []
    ensures t == Boots(FailFirst(), TWO_TESTS, s, NoKeys(), 2) && t.up
    ensures !FlagRight(TWO_TESTS, t, NoKeys(), 2)
  {
    var env, tests := FailFirst(), TWO_TESTS;
    var s1 := Begun(s, false);
    TwoSlots();
    assert [1][1..] == [];
    assert BitOr(0, 1) == 1 && BitOr(1, 1) == 1;
    FreshBoot(env, tests, s1);
    t := Boots(env, tests, s, NoKeys(), 2);
    var q := [Slot(Rom, 0), Slot(Rom, 1)];
    var a := Single(env, tests, s1, Rom, 0, false);
    var b := Single(env, tests, a, Rom, 1, false);
    assert q[1..] == [Slot(Rom, 1)] && q[1..][1..] == [];
    assert Pass(env, tests, b, []) == b;
    assert Pass(env, tests, a, [Slot(Rom, 1)]) == b;
    assert Pass(env, tests, s1, q) == b;
    assert b.word == Word(true, Normal, false, false, true, 1);
    FlagWrong(tests, t, NoKeys(), 2);
  }
}
