/** The POST layer as it runs: the loops of post/post.c over the test table, changing the
    POST word and the flags in global data in place, proved to be the functions of module
    Post. */
module PostLayer {
  import opened Post

  class Layer {
    const tests: seq<Test>
    const env: Env
    var word: Word
    var fail: bool       // GD_FLG_POSTFAIL
    var stop: bool       // GD_FLG_POSTSTOP
    var up: bool
    var log: seq<Exec>

    constructor (tests: seq<Test>, env: Env, word: Word)
      ensures this.tests == tests && this.env == env && State() == Sys(word, false, false, true, [])
    {
      this.tests, this.env, this.word := tests, env, word;
      fail, stop, up, log := false, false, true, [];
    }

    function State(): Sys
      reads this
    {
      Sys(word, fail, stop, up, log)
    }

    // post_bootmode_init()
    method BootmodeInit(hotkeys: bool)
      modifies this
      ensures State() == old(State()).(word := InitWord(old(word), hotkeys))
    {
      var bootmode, powertest := Mode(false, false, false), false;
      if word.magic { bootmode, powertest := word.mode, word.powertest; }
      var zero := NoMode(bootmode) && !powertest;
      var next;
      if hotkeys && !powertest {
        next := Word(true, Slow, false, false, false, 0);
      } else if zero {
        next := Word(true, PowerOn, false, false, false, 0);
      } else if !powertest && (bootmode == PowerOn || bootmode == Slow) {
        next := Word(true, Normal, false, false, false, 0);
      } else {
        next := word.(coldboot := false);
      }
      if zero { next := next.(coldboot := true); }
      word := next;
    }

    // post_run_single(); true if the test was run
    method RunSingle(mem: Mem, i: nat, rebooted: bool) returns (ran: bool)
      requires i < |tests|
      modifies this
      ensures State() == Single(env, tests, old(State()), mem, i, rebooted)
      ensures ran <==> Eligible(tests[i], old(word).mode, mem)
    {
      var t := tests[i];
      ran := Eligible(t, word.mode, mem);
      if !ran { return; }
      if !rebooted && t.reboot { word := TestOn(word, fail, i); }
      var o := env(|log|, i, rebooted);
      log := log + [Exec(i, rebooted, o)];
      if o == Crashed {
        up := false;
        return;
      }
      if o == Failed {
        if t.critical { fail := true; }
        if t.stop { stop := true; }
      }
      if t.reboot { word := TestOff(word); }
    }

    // post_run(NULL, flags); a reset ends it at once
    method Run(mem: Mem)
      modifies this
      ensures State() == PostRun(env, tests, old(State()), mem)
    {
      if stop || !up { return; }
      var i := 0;
      if word.magic && word.powertest {
        var last := word.lastId;
        if word.lastFail { fail := true; }
        if !(last < |tests| && Eligible(tests[last], word.mode, mem)) { return; }
        var _ := RunSingle(mem, last, true);
        i := last + 1;
      }
      ghost var s := State();
      ghost var from := i;
      while i < |tests| && !stop && up
        invariant RunFrom(env, tests, State(), mem, i) == RunFrom(env, tests, s, mem, from)
        invariant up || RunFrom(env, tests, s, mem, from) == State()
        decreases |tests| - i
      {
        var _ := RunSingle(mem, i, false);
        i := i + 1;
      }
    }

    /** One boot: the word is set up, then the two groups run. */
    method Boot(hotkeys: bool)
      modifies this
      ensures State() == Post.Boot(env, tests, old(State()), hotkeys)
    {
      fail, stop, up := false, false, true;
      BootmodeInit(hotkeys);
      Run(Rom);
      Run(Ram);
    }

    // Boots, at most `k` times, until the tests get through.
    method BootUpTo(hotkeys: nat -> bool, k: nat)
      modifies this
      ensures State() == Boots(env, tests, old(State()), hotkeys, k)
    {
      ghost var s := State();
      var n: nat := k;
      var done := false;
      while 0 < n && !done
        invariant n <= k
        invariant !done ==> Boots(env, tests, State(), hotkeys, n) == Boots(env, tests, s, hotkeys, k)
        invariant done ==> State() == Boots(env, tests, s, hotkeys, k)
        decreases n, !done
      {
        Boot(hotkeys(n));
        done := up;
        n := n - 1;
      }
    }

    /** Booting until the tests get through: on hardware that resets only during the first
        execution of tests marked for it, and with numbers that nest, at most one boot more
        than there are such tests, and the log shows each test finished once, in order. The
        failure flag is set by a critical failure, or by a reset if the word holds an old one. */
    method BootThrough(hotkeys: nat -> bool, k: nat)
      requires Tame(env, tests) && !(word.magic && word.powertest)
      requires var w := InitWord(word, hotkeys(k));
               && NoDual(tests, w.mode)
               && Nested(w.lastId, RebootIds(tests, Queue(tests, w.mode)))
               && k == 1 + |RebootIds(tests, Queue(tests, w.mode))|
      modifies this
      ensures up && State() == Boots(env, tests, old(State()), hotkeys, k)
      ensures exists l: seq<Exec> ::
                && log == old(log) + l
                && Shaped(tests, Queue(tests, InitWord(old(word), hotkeys(k)).mode), l)
                && (fail <==> AnyCritical(tests, l) || (InitWord(old(word), hotkeys(k)).lastFail && AnyCrashed(l)))
    {
      ghost var l := PassReport(env, tests, State(), hotkeys, k);
      BootUpTo(hotkeys, k);
    }
  }
}
