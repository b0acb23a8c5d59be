/** The number that the POST word carries from one pass to the next.  Only
    post_bootmode_test_off() touches the word at the end of a test, and it clears one bit: the
    number stays, and a normal boot keeps the word. */
module PostLifetime {
  import opened Post

  function NoKeys(): nat -> bool { k => false }

  // ------------------------------------------------------------------ the number, in one pass

  /** From power-on, one test that may reset is handled right, unless it runs in both groups. */
  lemma OneRebootTest(tests: seq<Test>, s: Sys, hotkeys: nat -> bool, k: nat, i: nat)
    requires !(s.word.magic && s.word.powertest) && k == 2
    requires var w := InitWord(s.word, hotkeys(k));
             w.lastId == 0 && RebootIds(tests, Queue(tests, w.mode)) == [i]
    ensures Faithful(tests, s, hotkeys, k) <==> NoDual(tests, InitWord(s.word, hotkeys(k)).mode)
  {
    assert [i][1..] == [];
    FaithfulIff(tests, s, hotkeys, k);
  }

  /** Two of them need not be: with tests 1 and 2, a reset during test 2 is taken for one
      during test 3. */
  lemma OneAndTwo(tests: seq<Test>, s: Sys, hotkeys: nat -> bool, k: nat)
    requires !(s.word.magic && s.word.powertest) && k == 3
    requires var w := InitWord(s.word, hotkeys(k));
             w.lastId == 0 && RebootIds(tests, Queue(tests, w.mode)) == [1, 2]
    ensures BitOr(1, 2) == 3 && !Faithful(tests, s, hotkeys, k)
  {
    assert BitOr(0, 1) == 1;
    assert [1, 2][1..] == [2];
    FaithfulIff(tests, s, hotkeys, k);
  }

  // ------------------------------------------------------------------ the number, over all passes

  /** Pass after pass, without the hotkeys. */
  function Passes(env: Env, tests: seq<Test>, s: Sys, k: nat, p: nat): Sys {
    if p == 0 then s else Boots(env, tests, Passes(env, tests, s, k, p - 1), NoKeys(), k)
  }

  ghost predicate FaithfulPass(env: Env, tests: seq<Test>, s: Sys, k: nat) {
    var s1 := Begun(s, false);
    Boots(env, tests, s, NoKeys(), k).log == Ideal(env, tests, s1, Queue(tests, s1.word.mode)).log
  }

  /** Every pass from now on gives the executions of the design, on all tame hardware. */
  ghost predicate FaithfulForever(tests: seq<Test>, s: Sys, k: nat) {
    forall env: Env, p: nat :: Tame(env, tests) ==> FaithfulPass(env, tests, Passes(env, tests, s, k, p), k)
  }

  lemma {:induction false} BitOrGrows(a: nat, b: nat)
    ensures a <= BitOr(a, b)
    decreases a + b
  {
    if a != 0 && b != 0 { BitOrGrows(a / 2, b / 2); }
  }

  lemma {:induction false} BitOrSame(a: nat)
    ensures BitOr(a, a) == a
  {
    if a != 0 { BitOrSame(a / 2); }
  }

  // Numbers that nest do not decrease.
  lemma {:induction false} NestedGrows(acc: nat, ids: seq<nat>)
    requires Nested(acc, ids) && ids != []
    ensures acc <= ids[0] <= ids[|ids| - 1]
    decreases |ids|
  {
    BitOrGrows(acc, ids[0]);
    if 1 < |ids| { NestedGrows(ids[0], ids[1..]); }
  }

  // The last of two or more different numbers does not nest with them again.
  lemma NotTwice(acc: nat, ids: seq<nat>)
    requires 2 <= |ids| && ids[0] != ids[1] && Nested(acc, ids)
    ensures !Nested(ids[|ids| - 1], ids)
  {
    NestedGrows(ids[0], ids[1..]);
    if Nested(ids[|ids| - 1], ids) { NestedGrows(ids[|ids| - 1], ids); }
  }

  // The numbers of one group increase.
  lemma {:induction false} IdsOfGroup(tests: seq<Test>, mode: Mode, mem: Mem, i: nat)
    ensures var ids := RebootIds(tests, SlotsFrom(tests, mode, mem, i));
            && (forall x :: x in ids ==> i <= x < |tests| && tests[x].reboot && Eligible(tests[x], mode, mem))
            && (2 <= |ids| ==> ids[0] < ids[1])
    decreases |tests| - i
  {
    if i < |tests| {
      IdsOfGroup(tests, mode, mem, i + 1);
      if Eligible(tests[i], mode, mem) {
        var q := SlotsFrom(tests, mode, mem, i);
        var rest := RebootIds(tests, SlotsFrom(tests, mode, mem, i + 1));
        assert q[1..] == SlotsFrom(tests, mode, mem, i + 1);
        IdsTail(tests, q);
        assert rest != [] ==> rest[0] in rest;
      }
    }
  }

  lemma {:induction false} IdsConcat(tests: seq<Test>, p: seq<Slot>, q: seq<Slot>)
    requires forall x :: x in p + q ==> x.test < |tests|
    ensures forall x :: x in p || x in q ==> x in p + q
    ensures RebootIds(tests, p + q) == RebootIds(tests, p) + RebootIds(tests, q)
    decreases |p|
  {
    assert forall x :: x in p || x in q ==> x in p + q;
    if p == [] {
      assert p + q == q;
    } else {
      assert (p + q)[0] == p[0] && (p + q)[1..] == p[1..] + q;
      IdsConcat(tests, p[1..], q);
    }
  }

  lemma FirstTwoDiffer(tests: seq<Test>, mode: Mode)
    requires NoDual(tests, mode) && 2 <= |RebootIds(tests, Queue(tests, mode))|
    ensures var ids := RebootIds(tests, Queue(tests, mode)); ids[0] != ids[1]
  {
    var rom, ram := SlotsFrom(tests, mode, Rom, 0), SlotsFrom(tests, mode, Ram, 0);
    IdsConcat(tests, rom, ram);
    IdsOfGroup(tests, mode, Rom, 0);
    IdsOfGroup(tests, mode, Ram, 0);
    var a, b := RebootIds(tests, rom), RebootIds(tests, ram);
    if |a| == 1 { assert a[0] in a && b[0] in b; }
  }

  // ------------------------------------------------------------------ at most one such test

  // The number after a pass is one of the tests', or as it was.
  lemma {:induction false} IdealWord(env: Env, tests: seq<Test>, s: Sys, q: seq<Slot>)
    requires Tame(env, tests) && s.up && s.word.magic && !s.word.powertest
    requires forall x :: x in q ==> x.test < |tests| && Eligible(tests[x.test], s.word.mode, x.mem)
    requires Nested(s.word.lastId, RebootIds(tests, q))
    ensures var w := Ideal(env, tests, s, q).word;
            && w.magic && !w.powertest && w.mode == s.word.mode
            && (w.lastId == s.word.lastId || w.lastId in RebootIds(tests, q))
    decreases |q|
  {
    if q != [] && !s.stop {
      assert q[0] in q;
      IdsTail(tests, q);
      NestedTail(tests, s.word.lastId, q);
      var m, i := q[0].mem, q[0].test;
      var t := Single(env, tests, s, m, i, false);
      SingleWord(env, tests, s, m, i);
      if !t.up {
        SecondRun(env, tests, Resumed(t), m, i);
        t := Single(env, tests, Resumed(t), m, i, true);
      }
      assert t.word.lastId == if tests[i].reboot then i else s.word.lastId;
      IdealWord(env, tests, t, q[1..]);
    }
  }

  // The word between passes.
  ghost predicate Settled(tests: seq<Test>, w: Word) {
    && w.magic && !w.powertest
    && (w.mode == PowerOn || w.mode == Slow
        || (w.mode == Normal && (w.lastId == 0 || w.lastId in RebootIds(tests, Queue(tests, Normal)))))
  }

  lemma SettledNests(tests: seq<Test>, w: Word)
    requires Settled(tests, w) && |RebootIds(tests, Queue(tests, Normal))| <= 1
    ensures var w1 := InitWord(w, false);
            && w1.magic && !w1.powertest && w1.mode == Normal
            && (w1.lastId == 0 || w1.lastId in RebootIds(tests, Queue(tests, Normal)))
            && Nested(w1.lastId, RebootIds(tests, Queue(tests, Normal)))
  {
    var ids := RebootIds(tests, Queue(tests, Normal));
    if ids != [] {
      assert ids == [ids[0]] && ids[1..] == [];
      BitOrSame(ids[0]);
    }
  }

  lemma SettledPass(env: Env, tests: seq<Test>, s: Sys, k: nat)
    requires Tame(env, tests) && NoDual(tests, Normal) && Settled(tests, s.word)
    requires |RebootIds(tests, Queue(tests, Normal))| <= 1 && k == 1 + |RebootIds(tests, Queue(tests, Normal))|
    ensures FaithfulPass(env, tests, s, k) && Settled(tests, Boots(env, tests, s, NoKeys(), k).word)
  {
    var s1, q := Begun(s, false), Queue(tests, Normal);
    SettledNests(tests, s.word);
    PassSurvivesResets(env, tests, s, NoKeys(), k);
    IdealWord(env, tests, s1, q);
  }

  lemma {:induction false} SettledPasses(env: Env, tests: seq<Test>, s: Sys, k: nat, p: nat)
    requires Tame(env, tests) && NoDual(tests, Normal) && Settled(tests, s.word)
    requires |RebootIds(tests, Queue(tests, Normal))| <= 1 && k == 1 + |RebootIds(tests, Queue(tests, Normal))|
    ensures Settled(tests, Passes(env, tests, s, k, p).word)
  {
    if p != 0 {
      SettledPasses(env, tests, s, k, p - 1);
      SettledPass(env, tests, Passes(env, tests, s, k, p - 1), k);
    }
  }

  // ------------------------------------------------------------------ two or more

  // A pass in which nothing is reset does not depend on which later execution would be.
  lemma {:induction false} PassSame(tests: seq<Test>, s: Sys, q: seq<Slot>, n: nat, n': nat)
    requires s.up && !s.stop && !s.word.powertest && |s.log| + |q| <= n && |s.log| + |q| <= n'
    requires forall x :: x in q ==> x.test < |tests| && Eligible(tests[x.test], s.word.mode, x.mem)
    ensures Pass(CrashAt(tests, n), tests, s, q) == Pass(CrashAt(tests, n'), tests, s, q)
    decreases |q|
  {
    if q != [] {
      assert q[0] in q;
      SameHere(tests, s, q[0].mem, q[0].test, n, n');
      PassedHere(tests, s, q[0].mem, q[0].test, n);
      PassSame(tests, Single(CrashAt(tests, n), tests, s, q[0].mem, q[0].test, false), q[1..], n, n');
    }
  }

  // It leaves the number of the last test that may reset.
  lemma {:induction false} QuietPass(tests: seq<Test>, s: Sys, q: seq<Slot>, n: nat)
    requires s.up && !s.stop && !s.word.powertest && |s.log| + |q| <= n
    requires forall x :: x in q ==> x.test < |tests| && Eligible(tests[x.test], s.word.mode, x.mem)
    requires Nested(s.word.lastId, RebootIds(tests, q))
    ensures var t, ids := Pass(CrashAt(tests, n), tests, s, q), RebootIds(tests, q);
            && t.up && !t.word.powertest && t.word.magic == s.word.magic && t.word.mode == s.word.mode
            && |t.log| == |s.log| + |q|
            && t.word.lastId == if ids == [] then s.word.lastId else ids[|ids| - 1]
    decreases |q|
  {
    if q != [] {
      assert q[0] in q;
      IdsTail(tests, q);
      NestedTail(tests, s.word.lastId, q);
      PassedHere(tests, s, q[0].mem, q[0].test, n);
      QuietPass(tests, Single(CrashAt(tests, n), tests, s, q[0].mem, q[0].test, false), q[1..], n);
    }
  }

  // The second pass after a quiet first one goes wrong on some hardware.
  lemma SecondPassWrong(tests: seq<Test>, s: Sys, k: nat) returns (n: nat)
    requires Fresh(s) && NoDual(tests, Normal)
    requires var ids := RebootIds(tests, Queue(tests, Normal));
             2 <= |ids| && Nested(0, ids) && k == 1 + |ids|
    ensures !FaithfulPass(CrashAt(tests, n), tests, Passes(CrashAt(tests, n), tests, s, k, 1), k)
  {
    var s1, q := Begun(s, false), Queue(tests, Normal);
    var ids, m := RebootIds(tests, q), |s1.log| + |q|;
    var v := Pass(CrashAt(tests, m), tests, s1, q);
    QuietPass(tests, s1, q, m);
    FirstTwoDiffer(tests, Normal);
    NotTwice(0, ids);
    var v1 := Begun(v, false);
    assert v1.word == v.word.(coldboot := false);
    assert q == Rest(tests, Normal, Rom, 0);
    var j;
    n, j := BadCrash(tests, v1, Rom, 0, q);
    FirstPassIs(tests, s, k, v, m, n);
    BadBoots(tests, v, NoKeys(), k, v1, n, j);
  }

  // The word after the power-on boot: the next pass starts with a fresh one.
  predicate Fresh(s: Sys) {
    s.word.magic && !s.word.powertest && (s.word.mode == PowerOn || s.word.mode == Slow)
  }

  lemma FirstPassIs(tests: seq<Test>, s: Sys, k: nat, v: Sys, m: nat, n: nat)
    requires Fresh(s) && 0 < k
    requires var s1, q := Begun(s, false), Queue(tests, Normal);
             m == |s1.log| + |q| <= n && v == Pass(CrashAt(tests, m), tests, s1, q) && v.up
    ensures Passes(CrashAt(tests, n), tests, s, k, 1) == v
  {
    var s1, q := Begun(s, false), Queue(tests, Normal);
    PassSame(tests, s1, q, m, n);
    FreshBoot(CrashAt(tests, n), tests, s1);
    assert Passes(CrashAt(tests, n), tests, s, k, 0) == s;
    assert Boot(CrashAt(tests, n), tests, s, NoKeys()(k)) == v;
  }

  /** After the power-on boot, all normal passes survive resets on all hardware exactly when at
      most one test of the normal mode may reset, and not in both groups: the number of the
      last one stays in the word. */
  lemma FaithfulForeverIff(tests: seq<Test>, s: Sys, k: nat)
    requires Fresh(s) && k == 1 + |RebootIds(tests, Queue(tests, Normal))|
    ensures FaithfulForever(tests, s, k) <==>
            NoDual(tests, Normal) && |RebootIds(tests, Queue(tests, Normal))| <= 1
  {
    var ids := RebootIds(tests, Queue(tests, Normal));
    if !NoDual(tests, Normal) || !Nested(0, ids) {
      FirstPassWrong(tests, s, k);
      if |ids| <= 1 { SettledNests(tests, s.word); }
    } else if 2 <= |ids| {
      var n := SecondPassWrong(tests, s, k);
      CrashAtTame(tests, n);
    } else {
      forall env: Env, p: nat | Tame(env, tests)
        ensures FaithfulPass(env, tests, Passes(env, tests, s, k, p), k)
      {
        SettledPasses(env, tests, s, k, p);
        SettledPass(env, tests, Passes(env, tests, s, k, p), k);
      }
    }
  }

  lemma FirstPassWrong(tests: seq<Test>, s: Sys, k: nat)
    requires Fresh(s) && k == 1 + |RebootIds(tests, Queue(tests, Normal))|
    requires !NoDual(tests, Normal) || !Nested(0, RebootIds(tests, Queue(tests, Normal)))
    ensures !FaithfulForever(tests, s, k)
  {
    FaithfulIff(tests, s, NoKeys(), k);
    var s1 := Begun(s, false);
    var env: Env :| Tame(env, tests) &&
      Boots(env, tests, s, NoKeys(), k).log != Ideal(env, tests, s1, Queue(tests, s1.word.mode)).log;
    assert Passes(env, tests, s, k, 0) == s;
    assert !FaithfulPass(env, tests, Passes(env, tests, s, k, 0), k);
  }
}
