/** Stopping autoboot with a key string: passwd_abort() of common/autoboot.c, and the rule
    that doc/README.autoboot gives for it.

    The code keeps the last characters received in a window and compares its end with each
    key; the documentation describes a single match counter that starts over on a mismatch.
    The code finds a key wherever it occurs in the input; the documented rule does so exactly
    for the keys characterised by NoFallback. */
module Autoboot {
  import opened Basics

  const MAX_DELAY_STOP_STR: nat := 32

  /** What getc() delivered in each pass of the loop; passes without a character wait. */
  function Received(input: seq<Option<char>>): string {
    if input == [] then ""
    else
      var before := Received(input[..|input| - 1]);
      match input[|input| - 1]
      case None => before
      case Some(c) => before + [c]
  }

  // A key as it is compared.
  function Key(s: string): string {
    if |s| <= MAX_DELAY_STOP_STR then s else s[..MAX_DELAY_STOP_STR]
  }

  predicate Ends(s: string, k: string) {
    |k| <= |s| && s[|s| - |k|..] == k
  }

  /** The key has just been completed. */
  predicate Hit(s: string, k: string) { k != "" && Ends(s, k) }

  /** The key occurs somewhere in the input. */
  ghost predicate Occurs(s: string, k: string) {
    k != "" && exists n :: 0 <= n <= |s| && Ends(s[..n], k)
  }

  function Max(a: nat, b: nat): nat { if a < b then b else a }

  lemma TailEnds(s: string, max: nat, k: string)
    requires |k| <= max
    ensures Ends(Tail(s, max), k) <==> Ends(s, k)
  {
    if max < |s| {
      assert s[|s| - max..][max - |k|..] == s[|s| - |k|..];
    }
  }

  lemma TailPush(s: string, max: nat, c: char)
    requires 0 < max
    ensures Tail(s + [c], max) == if |s| < max then Tail(s, max) + [c] else Tail(s, max)[1..] + [c]
  {
  }

  class Window {
    var chars: array<char>   // presskey
    var len: nat             // presskey_len
    const max: nat           // presskey_max

    constructor (max: nat)
      requires max <= MAX_DELAY_STOP_STR
      ensures Valid() && Contents() == "" && this.max == max && fresh(chars)
    {
      chars := new char[MAX_DELAY_STOP_STR];
      len := 0;
      this.max := max;
    }

    predicate Valid()
      reads this
    {
      len <= max <= MAX_DELAY_STOP_STR == chars.Length
    }

    function Contents(): string
      requires Valid()
      reads this, chars
    {
      chars[..len]
    }

    /** Takes one more character; a full window loses its first one. */
    method Push(c: char, ghost received: string)
      requires Valid() && 0 < max && Contents() == Tail(received, max)
      modifies this`len, chars
      ensures Valid() && Contents() == Tail(received + [c], max)
    {
      TailPush(received, max, c);
      if len < max {
        chars[len] := c;
        len := len + 1;
        assert chars[..len] == old(chars[..len]) + [c];
      } else {
        var i := 0;
        while i < max - 1
          invariant 0 <= i <= max - 1 && len == old(len)
          invariant forall j :: 0 <= j < i ==> chars[j] == old(chars[j + 1])
          invariant forall j :: i <= j < max ==> chars[j] == old(chars[j])
        {
          chars[i] := chars[i + 1];
          i := i + 1;
        }
        chars[i] := c;
        assert chars[..len] == old(chars[..len])[1..] + [c];
      }
    }

    /** memcmp() of the end of the window with a key. */
    method Matches(k: string, ghost received: string) returns (hit: bool)
      requires Valid() && |k| <= max && Contents() == Tail(received, max)
      ensures hit <==> Hit(received, k)
    {
      TailEnds(received, max, k);
      hit := 0 < |k| <= len && chars[len - |k|..len] == k;
      assert |k| <= len ==> Contents()[len - |k|..] == chars[len - |k|..len];
    }
  }

  /** passwd_abort(): `delay` and `stop` are the key strings, empty if not set; the loop is
      passed once for each element of `input` unless a key ends it.  A character may come
      only if there is a key: without one the window has no room. */
  method PasswdAbort(delay: string, stop: string, input: seq<Option<char>>)
    returns (abort: bool, dontRetry: bool, used: nat)
    requires 0 < |input|
    requires delay != "" || stop != "" || forall t :: t in input ==> t == None
    ensures used <= |input|
    // a key is found exactly when it occurs in what was received
    ensures abort <==> Occurs(Received(input), Key(delay)) || Occurs(Received(input), Key(stop))
    // the loop ends with the first completed key
    ensures forall n :: 0 <= n < used ==> !Hit(Received(input[..n]), Key(delay)) && !Hit(Received(input[..n]), Key(stop))
    ensures abort ==> Hit(Received(input[..used]), Key(delay)) || Hit(Received(input[..used]), Key(stop))
    ensures !abort ==> used == |input|
    // boot retry is disabled exactly by the stop key
    ensures dontRetry <==> abort && Hit(Received(input[..used]), Key(stop))
  {
    var d, s := Key(delay), Key(stop);
    var max := Max(|d|, |s|);
    var window := new Window(max);
    abort, dontRetry, used := false, false, 0;
    ghost var received := "";
    assert input[..0] == [];
    while used < |input| && !abort
      invariant used <= |input| && received == Received(input[..used])
      invariant fresh(window) && fresh(window.chars) && window.Valid() && window.max == max
      invariant window.Contents() == Tail(received, max)
      invariant Missed(input, used, d, s)
      invariant abort <==> Hit(received, d) || Hit(received, s)
      invariant dontRetry <==> Hit(received, s)
      decreases |input| - used, !abort
    {
      ReceivedStep(input, used);
      MissedStep(input, used, d, s);
      if input[used].Some? {
        assert input[used] in input;
        window.Push(input[used].value, received);
        received := received + [input[used].value];
      }
      used := used + 1;
      var hitDelay := window.Matches(d, received);
      dontRetry := window.Matches(s, received);
      abort := hitDelay || dontRetry;
    }
    Conclude(input, used, d, s);
  }

  // No key was completed by the first `used` - 1 characters, or none at all.
  ghost predicate Missed(input: seq<Option<char>>, used: nat, d: string, s: string)
    requires used <= |input|
  {
    forall n :: 0 <= n < used ==> !Hit(Received(input[..n]), d) && !Hit(Received(input[..n]), s)
  }

  lemma ReceivedStep(input: seq<Option<char>>, n: nat)
    requires n < |input|
    ensures Received(input[..n + 1]) ==
            Received(input[..n]) + (match input[n] case None => "" case Some(c) => [c])
  {
    assert input[..n + 1][..n] == input[..n];
  }

  lemma MissedStep(input: seq<Option<char>>, n: nat, d: string, s: string)
    requires n < |input| && Missed(input, n, d, s)
    requires !Hit(Received(input[..n]), d) && !Hit(Received(input[..n]), s)
    ensures Missed(input, n + 1, d, s)
  {
  }

  lemma Conclude(input: seq<Option<char>>, used: nat, d: string, s: string)
    requires used <= |input| && Missed(input, used, d, s)
    requires used < |input| ==> Hit(Received(input[..used]), d) || Hit(Received(input[..used]), s)
    ensures Hit(Received(input[..used]), d) || Hit(Received(input[..used]), s) <==>
            Occurs(Received(input), d) || Occurs(Received(input), s)
  {
    ConcludeFor(input, used, d, d, s);
    ConcludeFor(input, used, s, d, s);
  }

  // One of the keys.
  lemma ConcludeFor(input: seq<Option<char>>, used: nat, k: string, d: string, s: string)
    requires used <= |input| && Missed(input, used, d, s) && (k == d || k == s)
    ensures Hit(Received(input[..used]), k) ==> Occurs(Received(input), k)
    ensures used == |input| && Occurs(Received(input), k) ==> Hit(Received(input[..used]), k)
  {
    OccursIff(input, k);
    if used == |input| && Occurs(Received(input), k) {
      var n :| 0 <= n <= |input| && Hit(Received(input[..n]), k);
      assert n == used;
    }
  }

  lemma {:induction false} ReceivedPrefix(input: seq<Option<char>>, n: nat)
    requires n <= |input|
    ensures Received(input[..n]) <= Received(input)
    decreases |input|
  {
    if n == |input| {
      assert input[..n] == input;
    } else {
      assert input[..|input| - 1][..n] == input[..n];
      ReceivedPrefix(input[..|input| - 1], n);
    }
  }

  // A prefix of what was received was received after some number of passes.
  lemma {:induction false} ReceivedAt(input: seq<Option<char>>, m: nat) returns (n: nat)
    requires m <= |Received(input)|
    ensures n <= |input| && Received(input[..n]) == Received(input)[..m]
    decreases |input|
  {
    var r := Received(input);
    if m == |r| {
      n := |input|;
      assert input[..n] == input && r[..m] == r;
    } else {
      var before := input[..|input| - 1];
      n := ReceivedAt(before, m);
      assert before[..n] == input[..n];
      ReceivedPrefix(input, |input| - 1);
    }
  }

  lemma OccursIff(input: seq<Option<char>>, k: string)
    ensures Occurs(Received(input), k) <==> exists n :: 0 <= n <= |input| && Hit(Received(input[..n]), k)
  {
    var r := Received(input);
    if Occurs(r, k) {
      var m :| 0 <= m <= |r| && Ends(r[..m], k);
      var n := ReceivedAt(input, m);
      assert Hit(Received(input[..n]), k);
    }
    if n :| 0 <= n <= |input| && Hit(Received(input[..n]), k) {
      ReceivedPrefix(input, n);
      var m := |Received(input[..n])|;
      assert r[..m] == Received(input[..n]);
    }
  }

  // ------------------------------------------------------------------ the documented rule

  /** The match counter of the documentation after input `s`: on a mismatch, only the
      mismatching character itself is tried as the start of a new match. */
  function Counter(k: string, s: string): (m: nat)
    requires k != ""
    ensures m <= |k| && m <= |s|
  {
    if s == "" then 0
    else
      var m, c := Counter(k, s[..|s| - 1]), s[|s| - 1];
      if m == |k| then m   // recognised
      else if k[m] == c then m + 1
      else if k[0] == c then 1
      else 0
  }

  predicate Recognised(k: string, s: string)
    requires k != ""
  {
    Counter(k, s) == |k|
  }

  lemma EndsStep(s: string, k: string)
    requires 0 < |k| && 0 < |s|
    ensures Ends(s, k) <==> Ends(s[..|s| - 1], k[..|k| - 1]) && s[|s| - 1] == k[|k| - 1]
  {
    if |k| <= |s| {
      var t := s[|s| - |k|..];
      assert t[..|k| - 1] == s[..|s| - 1][|s| - |k|..];
      assert t == t[..|k| - 1] + [t[|k| - 1]] && k == k[..|k| - 1] + [k[|k| - 1]];
    }
  }

  /** The counter is always the length of a part of the key that the input ends with, so what
      is recognised is there: the documented rule is sound for every key. */
  lemma {:induction false} CounterSound(k: string, s: string)
    requires k != ""
    ensures !Recognised(k, s) ==> Ends(s, k[..Counter(k, s)])
    ensures Recognised(k, s) ==> Occurs(s, k)
    decreases |s|
  {
    if s != "" {
      var t := s[..|s| - 1];
      var m, n := Counter(k, t), Counter(k, s);
      CounterSound(k, t);
      if m == |k| {
        var p :| 0 <= p <= |t| && Ends(t[..p], k);
        assert s[..p] == t[..p];
      } else {
        if n == m + 1 {
          EndsStep(s, k[..n]);
          assert k[..n][..n - 1] == k[..m];
        } else if n == 1 {
          EndsStep(s, k[..1]);
        }
        assert Ends(s, k[..n]);
        if n == |k| { assert s[..|s|] == s && k[..n] == k; }
      }
    }
  }

  /** No proper part of the key that starts the key again is followed by anything else than
      what follows it at the start: a mismatch never hides a shorter match of two or more. */
  predicate NoFallback(k: string) {
    forall j, b :: 1 <= b < j < |k| && Ends(k[..j], k[..b]) ==> k[b] == k[j]
  }

  lemma EndsEnds(s: string, a: string, b: string)
    requires Ends(s, a) && Ends(s, b) && |b| <= |a|
    ensures Ends(a, b)
  {
    assert a[|a| - |b|..] == s[|s| - |b|..];
  }

  /** For such a key the counter is the longest part of the key that the input ends with. */
  lemma {:induction false} CounterLongest(k: string, s: string, p: nat)
    requires k != "" && NoFallback(k) && p <= |k| && Ends(s, k[..p])
    ensures p <= Counter(k, s)
    decreases |s|
  {
    if s != "" && 0 < p {
      var t, c := s[..|s| - 1], s[|s| - 1];
      var m := Counter(k, t);
      EndsStep(s, k[..p]);
      assert k[..p][..p - 1] == k[..p - 1];
      CounterLongest(k, t, p - 1);
      if m < |k| && k[m] != c && 1 < p {
        CounterSound(k, t);
        EndsEnds(t, k[..m], k[..p - 1]);
      }
    }
  }

  lemma {:induction false} RecognisedLater(k: string, s: string, n: nat)
    requires k != "" && n <= |s| && Recognised(k, s[..n])
    ensures Recognised(k, s)
    decreases |s|
  {
    if n == |s| {
      assert s[..n] == s;
    } else {
      assert s[..|s| - 1][..n] == s[..n];
      RecognisedLater(k, s[..|s| - 1], n);
    }
  }

  lemma {:induction false} CounterOfPrefix(k: string, j: nat)
    requires j <= |k| && k != ""
    ensures Counter(k, k[..j]) == j
    decreases j
  {
    if j != 0 {
      assert k[..j][..j - 1] == k[..j - 1];
      CounterOfPrefix(k, j - 1);
    }
  }

  // The counter gains at most one with each character.
  lemma {:induction false} CounterGain(k: string, s: string, t: string)
    requires k != "" && Counter(k, s) + |t| < |k|
    ensures Counter(k, s + t) <= Counter(k, s) + |t|
    decreases |t|
  {
    if t == "" {
      assert s + t == s;
    } else {
      assert (s + t)[..|s + t| - 1] == s + t[..|t| - 1];
      CounterGain(k, s, t[..|t| - 1]);
    }
  }

  // Character `b` of the key, read where `j` was due.
  lemma CounterBack(k: string, j: nat, b: nat, head: string)
    requires b < j < |k| && k[b] != k[j] && head == k[..j] + [k[b]]
    ensures Counter(k, head) <= 1
  {
    assert head[..|head| - 1] == k[..j] && head[|head| - 1] == k[b];
    CounterOfPrefix(k, j);
  }

  lemma Overlap(k: string, j: nat, b: nat, head: string, tail: string)
    requires 1 <= b < j < |k| && Ends(k[..j], k[..b]) && head == k[..j] + [k[b]] && tail == k[b + 1..]
    ensures Ends(head + tail, k)
  {
    var s := head + tail;
    assert s == k[..j] + k[b..];
    assert k[..j][j - b..] == k[..b];
    assert s[|s| - |k|..] == k[..j][j - b..] + k[b..];
    assert k == k[..b] + k[b..];
  }

  lemma EndsOccurs(s: string, k: string)
    requires k != "" && Ends(s, k)
    ensures Occurs(s, k)
  {
    assert s[..|s|] == s;
  }

  /** For any other key there is input that contains it and is not recognised. */
  lemma MissedInput(k: string, j: nat, b: nat) returns (s: string)
    requires 1 <= b < j < |k| && Ends(k[..j], k[..b]) && k[b] != k[j]
    ensures Occurs(s, k) && !Recognised(k, s)
  {
    var head, tail := k[..j] + [k[b]], k[b + 1..];
    s := head + tail;
    CounterBack(k, j, b, head);
    CounterGain(k, head, tail);
    Overlap(k, j, b, head, tail);
    EndsOccurs(s, k);
  }

  ghost predicate Complete(k: string)
    requires k != ""
  {
    forall s :: Occurs(s, k) ==> Recognised(k, s)
  }

  /** The documented rule recognises every occurrence of a key exactly when the key has no
      such part; then it agrees with the window of the code on all input. */
  lemma CompleteIffNoFallback(k: string)
    requires k != ""
    ensures Complete(k) <==> NoFallback(k)
    ensures NoFallback(k) ==> forall s :: Recognised(k, s) <==> Occurs(s, k)
  {
    if NoFallback(k) {
      forall s ensures Recognised(k, s) <==> Occurs(s, k) {
        CounterSound(k, s);
        if Occurs(s, k) {
          var n :| 0 <= n <= |s| && Ends(s[..n], k);
          assert k[..|k|] == k;
          CounterLongest(k, s[..n], |k|);
          RecognisedLater(k, s, n);
        }
      }
    } else {
      var j, b :| 1 <= b < j < |k| && Ends(k[..j], k[..b]) && k[b] != k[j];
      var s := MissedInput(k, j, b);
    }
  }

  /** The advice of the documentation is enough: a first character that does not come again. */
  lemma FreshFirstCharacter(k: string)
    requires k != "" && forall i :: 0 < i < |k| ==> k[i] != k[0]
    ensures NoFallback(k)
  {
    forall j, b | 1 <= b < j < |k| ensures !Ends(k[..j], k[..b]) {
      assert k[..j][j - b..][0] == k[j - b] && k[..b][0] == k[0];
    }
  }

  /** It is not necessary: this key has its first character twice and is still safe. */
  lemma AdviceNotNecessary()
    ensures NoFallback("aa") && "aa"[1] == "aa"[0]
    ensures !NoFallback("aab")
  {
    var k := "aab";
    assert k[..2][1..] == k[..1];
    assert Ends(k[..2], k[..1]) && k[1] != k[2];
  }
}
