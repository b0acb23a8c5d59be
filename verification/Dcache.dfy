/** A write-back data cache beside a DMA engine: the rules of doc/README.arm-caches, for
    every interleaving of CPU writes, cache maintenance, device transfers, and the fills and
    replacements that the cache does on its own. */
module Dcache {

  type Byte = bv8

  /** Memory and cache, byte by byte.  `cached[a]` is meaningful while the line of `a` is
      valid; a dirty line holds writes that memory has not seen. */
  datatype Sys = Sys(lineLen: nat, mem: seq<Byte>, cached: seq<Byte>, valid: set<nat>, dirty: set<nat>) {
    predicate Ok() {
      0 < lineLen && |cached| == |mem| && dirty <= valid
    }

    function LineOf(a: nat): nat
      requires 0 < lineLen
    {
      a / lineLen
    }

    /** What the CPU reads at `a`. */
    function View(a: nat): Byte
      requires Ok() && a < |mem|
    {
      if LineOf(a) in valid then cached[a] else mem[a]
    }
  }

  datatype Event =
    | CpuWrite(a: nat, v: Byte, allocate: bool)
    | DmaWrite(a: nat, v: Byte)
    | Fill(l: nat)        // speculative, or for a read
    | WriteBack(l: nat)   // a dirty line written to memory, and kept
    | Replace(l: nat)     // a line given up, written back first if dirty
    | Inval(l: nat)       // invalidate by address: dropped, dirty or not
    | CleanInval(l: nat)  // flush by address: written back if dirty, then dropped

  /** The bytes of line `l` taken from `src`, all others from `dst`. */
  function CopyLine(lineLen: nat, l: nat, src: seq<Byte>, dst: seq<Byte>): (r: seq<Byte>)
    requires 0 < lineLen && |src| == |dst|
    ensures |r| == |dst|
    ensures forall a :: 0 <= a < |r| ==> r[a] == if a / lineLen == l then src[a] else dst[a]
  {
    seq(|dst|, a requires 0 <= a < |dst| => if a / lineLen == l then src[a] else dst[a])
  }

  function Filled(s: Sys, l: nat): (r: Sys)
    requires s.Ok()
    ensures r.Ok()
  {
    if l in s.valid then s
    else s.(cached := CopyLine(s.lineLen, l, s.mem, s.cached), valid := s.valid + {l})
  }

  function WrittenBack(s: Sys, l: nat): (r: Sys)
    requires s.Ok()
    ensures r.Ok()
  {
    if l !in s.dirty then s
    else s.(mem := CopyLine(s.lineLen, l, s.cached, s.mem), dirty := s.dirty - {l})
  }

  function Dropped(s: Sys, l: nat): (r: Sys)
    requires s.Ok()
    ensures r.Ok()
  {
    s.(valid := s.valid - {l}, dirty := s.dirty - {l})
  }

  function Apply(s: Sys, e: Event): (r: Sys)
    requires s.Ok()
    ensures r.Ok() && r.lineLen == s.lineLen && |r.mem| == |s.mem|
  {
    match e
    case CpuWrite(a, v, allocate) =>
      if |s.mem| <= a then s
      else
        var l := s.LineOf(a);
        if l in s.valid || allocate then
          var f := Filled(s, l);
          f.(cached := f.cached[a := v], dirty := f.dirty + {l})
        else
          s.(mem := s.mem[a := v])
    case DmaWrite(a, v) => if |s.mem| <= a then s else s.(mem := s.mem[a := v])
    case Fill(l) => Filled(s, l)
    case WriteBack(l) => WrittenBack(s, l)
    case Replace(l) => Dropped(WrittenBack(s, l), l)
    case Inval(l) => Dropped(s, l)
    case CleanInval(l) => Dropped(WrittenBack(s, l), l)
  }

  function Run(s: Sys, es: seq<Event>): (r: Sys)
    requires s.Ok()
    ensures r.Ok() && r.lineLen == s.lineLen && |r.mem| == |s.mem|
    decreases |es|
  {
    if es == [] then s else Run(Apply(s, es[0]), es[1..])
  }

  lemma {:induction false} RunConcat(s: Sys, xs: seq<Event>, ys: seq<Event>)
    requires s.Ok()
    ensures Run(s, xs + ys) == Run(Run(s, xs), ys)
    decreases |xs|
  {
    if xs == [] {
      assert xs + ys == ys;
    } else {
      assert (xs + ys)[1..] == xs[1..] + ys;
      RunConcat(Apply(s, xs[0]), xs[1..], ys);
    }
  }

  // ------------------------------------------------------------------ what a run contains

  predicate CpuWritesLine(e: Event, lineLen: nat, l: nat)
    requires 0 < lineLen
  {
    e.CpuWrite? && e.a / lineLen == l
  }

  predicate DmaWritesLine(e: Event, lineLen: nat, l: nat)
    requires 0 < lineLen
  {
    e.DmaWrite? && e.a / lineLen == l
  }

  predicate NoCpuWrite(es: seq<Event>, lineLen: nat, l: nat)
    requires 0 < lineLen
  {
    forall e :: e in es ==> !CpuWritesLine(e, lineLen, l)
  }

  predicate NoDmaWrite(es: seq<Event>, lineLen: nat, l: nat)
    requires 0 < lineLen
  {
    forall e :: e in es ==> !DmaWritesLine(e, lineLen, l)
  }

  /** The device's last word on byte `a`, or `v` if it has not written it. */
  function Delivered(es: seq<Event>, a: nat, v: Byte): Byte {
    if es == [] then v
    else Delivered(es[1..], a, if es[0].DmaWrite? && es[0].a == a then es[0].v else v)
  }

  /** The CPU's last word on byte `a`, or `v` if it has not written it. */
  function Stored(es: seq<Event>, a: nat, v: Byte): Byte {
    if es == [] then v
    else Stored(es[1..], a, if es[0].CpuWrite? && es[0].a == a then es[0].v else v)
  }

  // ------------------------------------------------------------------ peripheral to memory

  predicate CleanLine(s: Sys, l: nat) { l !in s.dirty }

  // A clean line that holds, at `a`, what memory holds.
  predicate Agrees(s: Sys, a: nat)
    requires s.Ok() && a < |s.mem|
  {
    s.LineOf(a) in s.valid - s.dirty ==> s.cached[a] == s.mem[a]
  }

  lemma CleanStep(s: Sys, e: Event, a: nat)
    requires s.Ok() && a < |s.mem| && CleanLine(s, s.LineOf(a))
    requires !CpuWritesLine(e, s.lineLen, s.LineOf(a))
    ensures CleanLine(Apply(s, e), s.LineOf(a))
    ensures Apply(s, e).mem[a] == if e.DmaWrite? && e.a == a then e.v else s.mem[a]
  {
  }

  lemma QuietStep(s: Sys, e: Event, a: nat)
    requires s.Ok() && a < |s.mem| && CleanLine(s, s.LineOf(a)) && Agrees(s, a)
    requires !CpuWritesLine(e, s.lineLen, s.LineOf(a)) && !DmaWritesLine(e, s.lineLen, s.LineOf(a))
    ensures CleanLine(Apply(s, e), s.LineOf(a)) && Agrees(Apply(s, e), a)
    ensures Apply(s, e).mem[a] == s.mem[a]
  {
    CleanStep(s, e, a);
    if e.CpuWrite? && e.a < |s.mem| {
      assert s.LineOf(e.a) != s.LineOf(a) && e.a != a;
    }
  }

  // While the CPU leaves a clean line alone it stays clean, and memory only has the device's data.
  lemma {:induction false} CleanRun(s: Sys, es: seq<Event>, a: nat)
    requires s.Ok() && a < |s.mem| && CleanLine(s, s.LineOf(a))
    requires NoCpuWrite(es, s.lineLen, s.LineOf(a))
    ensures CleanLine(Run(s, es), s.LineOf(a))
    ensures Run(s, es).mem[a] == Delivered(es, a, s.mem[a])
    decreases |es|
  {
    if es != [] {
      CleanStep(s, es[0], a);
      CleanRun(Apply(s, es[0]), es[1..], a);
    }
  }

  // ... and while the device leaves it alone too, the CPU reads what is in memory.
  lemma {:induction false} QuietRun(s: Sys, es: seq<Event>, a: nat)
    requires s.Ok() && a < |s.mem| && CleanLine(s, s.LineOf(a)) && Agrees(s, a)
    requires NoCpuWrite(es, s.lineLen, s.LineOf(a)) && NoDmaWrite(es, s.lineLen, s.LineOf(a))
    ensures Run(s, es).View(a) == Run(s, es).mem[a] == s.mem[a]
    decreases |es|
  {
    if es != [] {
      QuietStep(s, es[0], a);
      QuietRun(Apply(s, es[0]), es[1..], a);
    }
  }

  // One line: invalidated, written by the device, invalidated again, read.
  lemma LineReceived(s: Sys, pre: seq<Event>, mid: seq<Event>, post: seq<Event>, a: nat)
    requires s.Ok() && a < |s.mem|
    requires NoCpuWrite(mid, s.lineLen, s.LineOf(a))
    requires NoCpuWrite(post, s.lineLen, s.LineOf(a)) && NoDmaWrite(post, s.lineLen, s.LineOf(a))
    ensures var l := s.LineOf(a);
            var es := pre + [Inval(l)] + mid + [Inval(l)] + post;
            Run(s, es).View(a) == Delivered(mid, a, Run(s, pre).mem[a])
  {
    var l := s.LineOf(a);
    var s0 := Run(s, pre);
    var s1 := Apply(s0, Inval(l));
    var s2 := Run(s1, mid);
    var s3 := Apply(s2, Inval(l));
    RunConcat(s, pre + [Inval(l)] + mid + [Inval(l)], post);
    RunConcat(s, pre + [Inval(l)] + mid, [Inval(l)]);
    RunConcat(s, pre + [Inval(l)], mid);
    RunConcat(s, pre, [Inval(l)]);
    assert Run(s0, [Inval(l)]) == s1 by { assert Run(s1, []) == s1; }
    assert Run(s2, [Inval(l)]) == s3 by { assert Run(s3, []) == s3; }
    CleanRun(s1, mid, a);
    QuietRun(s3, post, a);
  }

  /** A transfer into the lines `lines`: from event `k` on the CPU does not write them; each
      is invalidated in `k..i`; the device writes them in `i..j` only; each is invalidated
      again after `j`.  Nothing else is asked of the run. */
  ghost predicate Receives(es: seq<Event>, lineLen: nat, lines: set<nat>, k: nat, i: nat, j: nat)
    requires 0 < lineLen
  {
    && k <= i <= j <= |es|
    && forall l :: l in lines ==>
         && NoCpuWrite(es[k..], lineLen, l)
         && Inval(l) in es[k..i] && Inval(l) in es[j..]
         && NoDmaWrite(es[k..i], lineLen, l) && NoDmaWrite(es[j..], lineLen, l)
  }

  lemma IndexOf(es: seq<Event>, lo: nat, hi: nat, e: Event) returns (n: nat)
    requires lo <= hi <= |es| && e in es[lo..hi]
    ensures lo <= n < hi && es[n] == e
  {
    var m :| 0 <= m < hi - lo && es[lo..hi][m] == e;
    n := lo + m;
  }

  lemma Cut(es: seq<Event>, p: nat, i: nat, j: nat, q: nat)
    requires p < i <= j <= q < |es|
    ensures es == es[..p] + [es[p]] + es[p + 1..q] + [es[q]] + es[q + 1..]
    ensures es[p + 1..q] == es[p + 1..i] + es[i..j] + es[j..q]
    ensures es[..i] == es[..p] + [es[p]] + es[p + 1..i]
  {
  }

  lemma {:induction false} DeliveredConcat(xs: seq<Event>, ys: seq<Event>, a: nat, v: Byte)
    ensures Delivered(xs + ys, a, v) == Delivered(ys, a, Delivered(xs, a, v))
  {
    if xs == [] {
      assert xs + ys == ys;
    } else {
      assert (xs + ys)[1..] == xs[1..] + ys;
      DeliveredConcat(xs[1..], ys, a, if xs[0].DmaWrite? && xs[0].a == a then xs[0].v else v);
    }
  }

  lemma {:induction false} DeliveredNothing(es: seq<Event>, lineLen: nat, a: nat, v: Byte)
    requires 0 < lineLen && NoDmaWrite(es, lineLen, a / lineLen)
    ensures Delivered(es, a, v) == v
  {
    if es != [] {
      assert es[0] in es;
      assert forall e :: e in es[1..] ==> e in es;
      DeliveredNothing(es[1..], lineLen, a, v);
    }
  }

  // From its first invalidation to the start of the transfer, memory keeps the line.
  lemma MemoryHeld(s: Sys, pre: seq<Event>, head: seq<Event>, a: nat)
    requires s.Ok() && a < |s.mem|
    requires NoCpuWrite(head, s.lineLen, s.LineOf(a)) && NoDmaWrite(head, s.lineLen, s.LineOf(a))
    ensures Run(s, pre + [Inval(s.LineOf(a))] + head).mem[a] == Run(s, pre).mem[a]
  {
    var l := s.LineOf(a);
    var s1 := Apply(Run(s, pre), Inval(l));
    RunConcat(s, pre + [Inval(l)], head);
    RunConcat(s, pre, [Inval(l)]);
    assert Run(Run(s, pre), [Inval(l)]) == s1 by { assert Run(s1, []) == s1; }
    CleanRun(s1, head, a);
    DeliveredNothing(head, s.lineLen, a, s1.mem[a]);
  }

  lemma DeliveredBetween(head: seq<Event>, xs: seq<Event>, tail: seq<Event>, lineLen: nat, a: nat, v: Byte)
    requires 0 < lineLen
    requires NoDmaWrite(head, lineLen, a / lineLen) && NoDmaWrite(tail, lineLen, a / lineLen)
    ensures Delivered(head + xs + tail, a, v) == Delivered(xs, a, v)
  {
    DeliveredConcat(head + xs, tail, a, v);
    DeliveredConcat(head, xs, a, v);
    DeliveredNothing(head, lineLen, a, v);
    DeliveredNothing(tail, lineLen, a, Delivered(xs, a, v));
  }

  /** Coherence of a received buffer: after the run the CPU reads, at every byte of the
      buffer, the device's last write to it, or what memory had when the transfer began. */
  lemma ReceivedCoherent(s: Sys, es: seq<Event>, lines: set<nat>, k: nat, i: nat, j: nat, a: nat)
    requires s.Ok() && a < |s.mem| && s.LineOf(a) in lines
    requires Receives(es, s.lineLen, lines, k, i, j)
    ensures Run(s, es).View(a) == Delivered(es[i..j], a, Run(s, es[..i]).mem[a])
  {
    var l, ll := s.LineOf(a), s.lineLen;
    var p := IndexOf(es, k, i, Inval(l));
    var q := IndexOf(es, j, |es|, Inval(l));
    var pre, head, xs, tail, post := es[..p], es[p + 1..i], es[i..j], es[j..q], es[q + 1..];
    var mid := es[p + 1..q];
    Cut(es, p, i, j, q);
    LineReceived(s, pre, mid, post, a);
    DeliveredBetween(head, xs, tail, ll, a, Run(s, pre).mem[a]);
    MemoryHeld(s, pre, head, a);
  }

  // ------------------------------------------------------------------ neighbours of a buffer

  // Fills and write-backs do not change what the CPU reads.
  lemma FillKeeps(s: Sys, l: nat, a: nat)
    requires s.Ok() && a < |s.mem| && Agrees(s, a)
    ensures Agrees(Filled(s, l), a) && Filled(s, l).View(a) == s.View(a)
  {
  }

  lemma WriteBackKeeps(s: Sys, l: nat, a: nat)
    requires s.Ok() && a < |s.mem| && Agrees(s, a)
    ensures Agrees(WrittenBack(s, l), a) && WrittenBack(s, l).View(a) == s.View(a)
    ensures Agrees(Dropped(WrittenBack(s, l), l), a) && Dropped(WrittenBack(s, l), l).View(a) == s.View(a)
  {
  }

  lemma StoreKeeps(s: Sys, b: nat, v: Byte, allocate: bool, a: nat)
    requires s.Ok() && a < |s.mem| && b < |s.mem| && Agrees(s, a)
    ensures var t := Apply(s, CpuWrite(b, v, allocate));
            Agrees(t, a) && t.View(a) == if b == a then v else s.View(a)
  {
    FillKeeps(s, s.LineOf(b), a);
  }

  lemma NeighbourStep(s: Sys, e: Event, a: nat)
    requires s.Ok() && a < |s.mem| && Agrees(s, a)
    requires e != Inval(s.LineOf(a)) && !(e.DmaWrite? && e.a == a)
    ensures Agrees(Apply(s, e), a)
    ensures Apply(s, e).View(a) == if e.CpuWrite? && e.a == a then e.v else s.View(a)
  {
    match e
    case CpuWrite(b, v, allocate) => if b < |s.mem| { StoreKeeps(s, b, v, allocate, a); }
    case DmaWrite(_, _) =>
    case Fill(l) => FillKeeps(s, l, a);
    case WriteBack(l) => WriteBackKeeps(s, l, a);
    case Replace(l) => WriteBackKeeps(s, l, a);
    case Inval(_) =>
    case CleanInval(l) => WriteBackKeeps(s, l, a);
  }

  /** Bytes the device does not write and whose line is not invalidated keep what the CPU
      wrote, whatever else goes on in their line. */
  lemma {:induction false} NeighbourKept(s: Sys, es: seq<Event>, a: nat)
    requires s.Ok() && a < |s.mem| && Agrees(s, a)
    requires Inval(s.LineOf(a)) !in es
    requires forall e :: e in es ==> !(e.DmaWrite? && e.a == a)
    ensures Run(s, es).View(a) == Stored(es, a, s.View(a))
    ensures Agrees(Run(s, es), a)
    decreases |es|
  {
    if es != [] {
      NeighbourStep(s, es[0], a);
      NeighbourKept(Apply(s, es[0]), es[1..], a);
    }
  }

  // ------------------------------------------------------------------ memory to peripheral

  /** A flushed buffer that nobody writes afterwards: memory, which is what the device
      reads, has the CPU's last writes, at every later moment. */
  lemma FlushedCoherent(s: Sys, es: seq<Event>, p: nat, a: nat)
    requires s.Ok() && a < |s.mem| && p < |es|
    requires Agrees(s, a) && Inval(s.LineOf(a)) !in es[..p]
    requires forall e :: e in es ==> !(e.DmaWrite? && e.a == a)
    requires es[p] == CleanInval(s.LineOf(a)) && NoCpuWrite(es[p..], s.lineLen, s.LineOf(a))
    ensures Run(s, es).mem[a] == Stored(es[..p], a, s.View(a))
  {
    var l := s.LineOf(a);
    var pre, post := es[..p], es[p + 1..];
    var s0 := Run(s, pre);
    var s1 := Apply(s0, CleanInval(l));
    assert es == pre + [CleanInval(l)] + post;
    RunConcat(s, pre + [CleanInval(l)], post);
    RunConcat(s, pre, [CleanInval(l)]);
    assert Run(s0, [CleanInval(l)]) == s1 by { assert Run(s1, []) == s1; }
    NeighbourKept(s, pre, a);
    assert forall e :: e in post ==> e in es[p..] && e in es;
    CleanRun(s1, post, a);
    DeliveredUntouched(post, a, s1.mem[a]);
  }

  lemma {:induction false} DeliveredUntouched(es: seq<Event>, a: nat, v: Byte)
    requires forall e :: e in es ==> !(e.DmaWrite? && e.a == a)
    ensures Delivered(es, a, v) == v
  {
    if es != [] {
      assert es[0] in es;
      assert forall e :: e in es[1..] ==> e in es;
      DeliveredUntouched(es[1..], a, v);
    }
  }

  // ------------------------------------------------------------------ neither invalidation can be left out

  /** Without the first invalidation: a dirty line replaced during the transfer overwrites
      the device's data in memory, whatever the state and the values. */
  lemma FirstInvalidationNeeded(s: Sys, a: nat, stale: Byte, sent: Byte)
    requires s.Ok() && a < |s.mem| && stale != sent
    ensures var l := s.LineOf(a);
            var es := [CpuWrite(a, stale, true), DmaWrite(a, sent), Replace(l), Inval(l)];
            Run(s, es).View(a) == stale != Delivered(es, a, stale)
  {
    var l := s.LineOf(a);
    var e0, e1, e2, e3 := CpuWrite(a, stale, true), DmaWrite(a, sent), Replace(l), Inval(l);
    var s3 := Apply(Apply(Apply(Apply(s, e0), e1), e2), e3);
    RunFour(s, e0, e1, e2, e3);
    assert s3.View(a) == stale;
    DeliveredFour(e0, e1, e2, e3, a, stale);
  }

  /** Without the second one: a line filled speculatively before the device wrote is what
      the CPU reads. */
  lemma SecondInvalidationNeeded(s: Sys, a: nat, sent: Byte)
    requires s.Ok() && a < |s.mem| && s.mem[a] != sent
    ensures var l := s.LineOf(a);
            var es := [Inval(l), Fill(l), DmaWrite(a, sent), WriteBack(l)];
            Run(s, es).View(a) == s.mem[a] != Delivered(es, a, s.mem[a])
  {
    var l := s.LineOf(a);
    var e0, e1, e2, e3 := Inval(l), Fill(l), DmaWrite(a, sent), WriteBack(l);
    var s3 := Apply(Apply(Apply(Apply(s, e0), e1), e2), e3);
    RunFour(s, e0, e1, e2, e3);
    assert s3.View(a) == s.mem[a];
    DeliveredFour(e0, e1, e2, e3, a, s.mem[a]);
  }

  lemma DeliveredFour(e0: Event, e1: Event, e2: Event, e3: Event, a: nat, v: Byte)
    requires !e0.DmaWrite? && !e3.DmaWrite?
    requires (e1.DmaWrite? && e1.a == a && !e2.DmaWrite?) || (e2.DmaWrite? && e2.a == a)
    ensures Delivered([e0, e1, e2, e3], a, v) == if e2.DmaWrite? then e2.v else e1.v
  {
    assert [e0, e1, e2, e3] == [e0, e1] + [e2, e3];
    DeliveredConcat([e0, e1], [e2, e3], a, v);
    assert [e0, e1][1..] == [e1] && [e2, e3][1..] == [e3];
    var v1 := if e1.DmaWrite? && e1.a == a then e1.v else v;
    var v2 := if e2.DmaWrite? then e2.v else v1;
    assert Delivered([e1], a, v) == v1 && Delivered([e3], a, v2) == v2;
  }

  lemma RunFour(s: Sys, e0: Event, e1: Event, e2: Event, e3: Event)
    requires s.Ok()
    ensures Run(s, [e0, e1, e2, e3]) == Apply(Apply(Apply(Apply(s, e0), e1), e2), e3)
  {
    RunTwo(s, e0, e1);
    RunTwo(Apply(Apply(s, e0), e1), e2, e3);
    assert [e0, e1, e2, e3] == [e0, e1] + [e2, e3];
    RunConcat(s, [e0, e1], [e2, e3]);
  }

  lemma RunTwo(s: Sys, e0: Event, e1: Event)
    requires s.Ok()
    ensures Run(s, [e0, e1]) == Apply(Apply(s, e0), e1)
  {
    assert [e0, e1][1..] == [e1];
    assert Run(Apply(s, e0), [e1]) == Apply(Apply(s, e0), e1);
  }

  // ------------------------------------------------------------------ turning the cache off

  lemma InTail(es: seq<Event>, e: Event)
    requires es != []
    ensures e in es <==> e == es[0] || e in es[1..]
  {
    assert es == [es[0]] + es[1..];
  }

  // The cache on its own: no accesses, no invalidation without a flush.
  predicate Idle(es: seq<Event>) {
    forall e :: e in es ==> !e.CpuWrite? && !e.DmaWrite? && !e.Inval?
  }

  lemma {:induction false} IdleCleans(s: Sys, es: seq<Event>, l: nat)
    requires s.Ok() && Idle(es) && (l in s.dirty ==> CleanInval(l) in es || Replace(l) in es)
    ensures l !in Run(s, es).dirty
    decreases |es|
  {
    if es != [] {
      InTail(es, CleanInval(l));
      InTail(es, Replace(l));
      IdleCleans(Apply(s, es[0]), es[1..], l);
    }
  }

  // With the cache off nothing comes in any more.
  predicate Off(es: seq<Event>) {
    forall e :: e in es ==> e.Inval? || e.Replace? || e.WriteBack?
  }

  lemma {:induction false} OffEmpties(s: Sys, es: seq<Event>, l: nat)
    requires s.Ok() && Off(es) && (l in s.valid ==> Inval(l) in es)
    ensures l !in Run(s, es).valid
    decreases |es|
  {
    if es != [] {
      InTail(es, Inval(l));
      OffEmpties(Apply(s, es[0]), es[1..], l);
    }
  }

  /** Flush, turn off, invalidate: whatever came in between the flush and the switch-off,
      no line is left valid and memory holds every byte as the CPU last saw it. */
  lemma DisabledCoherent(s: Sys, cleaning: seq<Event>, dropping: seq<Event>, a: nat)
    requires s.Ok() && a < |s.mem| && Agrees(s, a)
    requires Idle(cleaning) && Off(dropping)
    requires forall l :: l in s.dirty ==> CleanInval(l) in cleaning || Replace(l) in cleaning
    requires forall l :: l in Run(s, cleaning).valid ==> Inval(l) in dropping
    ensures Run(s, cleaning + dropping).valid == {}
    ensures Run(s, cleaning + dropping).mem[a] == s.View(a)
  {
    var s1 := Run(s, cleaning);
    RunConcat(s, cleaning, dropping);
    forall l | l in Run(s1, dropping).valid ensures false { OffEmpties(s1, dropping, l); }
    IdleCleans(s, cleaning, s.LineOf(a));
    NeighbourKept(s, cleaning, a);
    StoredNothing(cleaning, a, s.View(a));
    CleanRun(s1, dropping, a);
    DeliveredUntouched(dropping, a, s1.mem[a]);
  }

  lemma {:induction false} StoredNothing(es: seq<Event>, a: nat, v: Byte)
    requires forall e :: e in es ==> !e.CpuWrite?
    ensures Stored(es, a, v) == v
  {
    if es != [] {
      assert es[0] in es;
      assert forall e :: e in es[1..] ==> e in es;
      StoredNothing(es[1..], a, v);
    }
  }
}
