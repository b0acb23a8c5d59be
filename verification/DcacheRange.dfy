/** Which cache lines the range operations of arch/arm/cpu/armv7/cache_v7.c work on, with
    the 32-bit address arithmetic of the original. */
module DcacheRange {
  import opened Dcache
  import opened Multiples

  const SPACE: nat := 0x1_0000_0000   // addresses are u32

  /** A line length divides the address space. */
  predicate LineLen(ll: nat) { 0 < ll < SPACE && SPACE % ll == 0 }

  // Where invalidation starts: at `start`, or at the next line if that is not aligned.
  function InvalFrom(start: nat, ll: nat): nat
    requires LineLen(ll)
  {
    if start % ll == 0 then start else Down((start + ll - 1) % SPACE, ll)
  }

  function FirstInval(start: nat, ll: nat): nat
    requires LineLen(ll)
  {
    InvalFrom(start, ll) / ll
  }

  /** The line lies wholly inside start..stop. */
  predicate Inside(start: nat, stop: nat, ll: nat, l: nat) {
    start <= l * ll && l * ll + ll <= stop
  }

  /** The line has a byte of start..stop. */
  predicate Touches(start: nat, stop: nat, ll: nat, l: nat) {
    l * ll < stop && start < l * ll + ll
  }

  // The addresses lo * ll, (lo + 1) * ll, ... below hi * ll.
  ghost predicate Lines(mvas: seq<nat>, lo: nat, hi: nat, ll: nat) {
    && |mvas| == (if lo <= hi then hi - lo else 0)
    && forall i :: 0 <= i < |mvas| ==> mvas[i] == (lo + i) * ll
  }

  /** What invalidating start..stop issues. */
  ghost predicate InvalMvas(mvas: seq<nat>, start: nat, stop: nat, ll: nat) {
    LineLen(ll) && Lines(mvas, FirstInval(start, ll), stop / ll, ll)
  }

  // The loop of both operations; `stop` is the first address not reached.
  method Walk(start: nat, stop: nat, ll: nat, ghost lo: nat, ghost hi: nat) returns (mvas: seq<nat>)
    requires LineLen(ll) && start == lo * ll && start < SPACE
    requires (hi - 1) * ll < stop <= hi * ll < SPACE
    ensures Lines(mvas, lo, hi, ll)
  {
    mvas := [];
    var mva := start;
    ghost var n := lo;
    while mva < stop
      invariant mva == n * ll && n == lo + |mvas|
      invariant lo < hi ==> n <= hi
      invariant hi <= lo ==> mvas == []
      invariant forall i :: 0 <= i < |mvas| ==> mvas[i] == (lo + i) * ll
      decreases hi - n
    {
      MulLess(n, hi, ll);
      MulLess(n + 1, hi, ll);
      MulLess(hi, n + 1, ll);
      mvas := mvas + [mva];
      mva := (mva + ll) % SPACE;
      n := n + 1;
      assert n * ll == (n - 1) * ll + ll;
    }
    MulLess(n, hi, ll);
    MulLess(hi - 1, n, ll);
  }

  lemma SpaceLines(ll: nat) returns (n: nat)
    requires LineLen(ll)
    ensures n * ll == SPACE && 1 < n
  {
    n := SPACE / ll;
    assert SPACE == n * ll + SPACE % ll;
    if n <= 1 { MulLess(n, 2, ll); }
  }

  lemma BelowSpace(a: nat, ll: nat)
    requires LineLen(ll) && a < SPACE
    ensures Down(a, ll) + ll <= SPACE
  {
    var n := SpaceLines(ll);
    DivDown(a, ll);
    MulLess(a / ll, n, ll);
    MulLess(n, a / ll + 1, ll);
    assert (a / ll + 1) * ll == (a / ll) * ll + ll;
  }

  /** v7_dcache_inval_range(): the addresses given to the invalidate operation, in order. */
  method InvalRange(start: nat, stop: nat, ll: nat) returns (mvas: seq<nat>)
    requires LineLen(ll) && start < SPACE && stop < SPACE
    ensures InvalMvas(mvas, start, stop, ll)
  {
    var from, to := start, stop;
    if from % ll != 0 { from := Down((from + ll - 1) % SPACE, ll); }
    if to % ll != 0 { to := Down(to, ll); }
    InvalBounds(start, stop, ll);
    mvas := Walk(from, to, ll, FirstInval(start, ll), stop / ll);
  }

  /** v7_dcache_clean_inval_range(): the addresses given to the flush operation, in order.
      With `stop` in the last line of the address space the loop does not end; see FlushEnds. */
  method FlushRange(start: nat, stop: nat, ll: nat) returns (mvas: seq<nat>)
    requires LineLen(ll) && start < SPACE && stop <= SPACE - ll
    ensures Lines(mvas, start / ll, (stop + ll - 1) / ll, ll)
  {
    var from := Down(start, ll);
    DivDown(start, ll);
    DivDown(stop + ll - 1, ll);
    var hi := (stop + ll - 1) / ll;
    assert (hi - 1) * ll == hi * ll - ll;
    mvas := Walk(from, stop, ll, start / ll, hi);
  }

  // ------------------------------------------------------------------ what the ranges cover

  /** Rounding the start up runs off the end of the address space. */
  predicate Wraps(start: nat, ll: nat) { SPACE - ll < start }

  // Rounding up an address that is not aligned.
  lemma RoundUp(start: nat, ll: nat)
    requires 0 < ll && start % ll != 0
    ensures Down(start + ll - 1, ll) == Down(start, ll) + ll
  {
    var q, r := start / ll, start % ll;
    DivDown(start, ll);
    assert (q + 1) * ll == q * ll + ll;
    DivUnique(q + 1, r - 1, ll);
    assert start + ll - 1 == (q + 1) * ll + (r - 1);
  }

  lemma InvalFromValue(start: nat, ll: nat)
    requires LineLen(ll) && start < SPACE
    ensures InvalFrom(start, ll) == if start % ll == 0 then start else if Wraps(start, ll) then 0 else Down(start, ll) + ll
    ensures start % ll == 0 ==> !Wraps(start, ll)
  {
    BelowSpace(start, ll);
    if start % ll != 0 {
      RoundUp(start, ll);
      var x := start + ll - 1;
      if Wraps(start, ll) {
        assert x % SPACE == x - SPACE;
        DivUnique(0, x - SPACE, ll);
      } else {
        assert x % SPACE == x;
      }
    }
  }

  lemma InvalBounds(start: nat, stop: nat, ll: nat)
    requires LineLen(ll) && start < SPACE && stop < SPACE
    ensures var lo, hi := FirstInval(start, ll), stop / ll;
            && InvalFrom(start, ll) == lo * ll && hi * ll == Down(stop, ll)
            && hi * ll <= stop < hi * ll + ll && (hi - 1) * ll == hi * ll - ll
            && (if Wraps(start, ll) then lo == 0 else start <= lo * ll < start + ll)
  {
    InvalFromValue(start, ll);
    DivDown(start, ll);
    DivDown(stop, ll);
    DownDown(start, ll);
    var from := InvalFrom(start, ll);
    if start % ll != 0 && !Wraps(start, ll) {
      assert (start / ll + 1) * ll == (start / ll) * ll + ll;
      DivUnique(start / ll + 1, 0, ll);
    } else {
      DivDown(from, ll);
      DivUnique(0, 0, ll);
    }
    Below(stop / ll, ll);
  }

  lemma Below(q: nat, ll: nat)
    ensures (q - 1) * ll == q * ll - ll
  {
  }

  lemma LineBound(l: nat, q: nat, ll: nat)
    requires 0 < ll
    ensures l < q <==> l * ll + ll <= q * ll
  {
    MulLess(l, q, ll);
    if l < q { MulGap(l, q, ll); }
  }

  // Lines from the first at or above `start` to the last below `stop`.
  lemma InsideLines(start: nat, stop: nat, ll: nat, lo: nat, hi: nat, l: nat)
    requires 0 < ll && start <= lo * ll < start + ll && hi * ll <= stop < hi * ll + ll
    ensures lo <= l < hi <==> Inside(start, stop, ll, l)
  {
    StopLines(stop, ll, hi, l);
    LineBound(l, lo, ll);
    MulLess(l, lo, ll);
  }

  lemma StopLines(stop: nat, ll: nat, hi: nat, l: nat)
    requires 0 < ll && hi * ll <= stop < hi * ll + ll
    ensures l < hi <==> l * ll + ll <= stop
  {
    LineBound(l, hi, ll);
    MulLess(l, hi, ll);
    MulLess(hi, l, ll);
  }

  lemma InvalLines(start: nat, stop: nat, ll: nat, l: nat)
    requires LineLen(ll) && start < SPACE && stop < SPACE
    ensures var hit := FirstInval(start, ll) <= l < stop / ll;
            && (!Wraps(start, ll) ==> (hit <==> Inside(start, stop, ll, l)))
            && (Wraps(start, ll) ==> (hit <==> l * ll + ll <= stop) && !Inside(start, stop, ll, l))
  {
    InvalBounds(start, stop, ll);
    StopLines(stop, ll, stop / ll, l);
    if !Wraps(start, ll) { InsideLines(start, stop, ll, FirstInval(start, ll), stop / ll, l); }
  }

  lemma InMvas(mvas: seq<nat>, lo: nat, hi: nat, ll: nat, l: nat)
    requires 0 < ll && Lines(mvas, lo, hi, ll)
    ensures l * ll in mvas <==> lo <= l < hi
  {
    if lo <= l < hi { assert mvas[l - lo] == l * ll; }
    if l * ll in mvas {
      var i :| 0 <= i < |mvas| && mvas[i] == l * ll;
      MulLess(l, lo + i, ll);
      MulLess(lo + i, l, ll);
    }
  }

  /** Invalidation is restricted to the lines wholly inside the buffer, and misses none of
      them, exactly when rounding the start up does not wrap around; the wrap-around matters
      as soon as there is a line below `stop`. */
  lemma InvalExactlyInside(start: nat, stop: nat, ll: nat, mvas: seq<nat>)
    requires LineLen(ll) && start < SPACE && stop < SPACE
    requires InvalMvas(mvas, start, stop, ll)
    ensures (forall l: nat :: l * ll in mvas <==> Inside(start, stop, ll, l))
            <==> !(Wraps(start, ll) && ll <= stop)
  {
    forall l: nat
      ensures !(Wraps(start, ll) && ll <= stop) ==> (l * ll in mvas <==> Inside(start, stop, ll, l))
    {
      InvalHit(start, stop, ll, mvas, l);
    }
    if Wraps(start, ll) && ll <= stop {
      InvalHit(start, stop, ll, mvas, 0);
      assert 0 * ll in mvas && !Inside(start, stop, ll, 0);
    }
  }

  lemma InvalHit(start: nat, stop: nat, ll: nat, mvas: seq<nat>, l: nat)
    requires LineLen(ll) && start < SPACE && stop < SPACE && InvalMvas(mvas, start, stop, ll)
    ensures !(Wraps(start, ll) && ll <= stop) ==> (l * ll in mvas <==> Inside(start, stop, ll, l))
    ensures Wraps(start, ll) && ll <= stop && l == 0 ==> l * ll in mvas && !Inside(start, stop, ll, l)
  {
    InvalLines(start, stop, ll, l);
    InMvas(mvas, FirstInval(start, ll), stop / ll, ll, l);
    MulLess(0, l, ll);
  }

  // Lines from the one of `start` to the last one below `stop`.
  lemma TouchedLines(start: nat, stop: nat, ll: nat, lo: nat, hi: nat, l: nat)
    requires 0 < ll && lo * ll <= start < lo * ll + ll && hi * ll < stop + ll <= hi * ll + ll
    ensures lo <= l < hi <==> Touches(start, stop, ll, l)
  {
    LineBound(l, lo, ll);
    MulLess(l, lo, ll);
    MulLess(l, hi, ll);
    if hi <= l { NotBelow(hi, l, ll); }
    if l < hi { LineBound(l, hi, ll); }
    if lo <= l { NotBelow(lo, l, ll); }
  }

  lemma NotBelow(x: nat, y: nat, ll: nat)
    requires x <= y
    ensures x * ll <= y * ll
  {
    if x < y { MulGap(x, y, ll); }
  }

  /** The flush covers every line that the buffer touches, and no other. */
  lemma FlushExactlyTouched(start: nat, stop: nat, ll: nat, mvas: seq<nat>)
    requires LineLen(ll) && start < stop <= SPACE - ll
    requires Lines(mvas, start / ll, (stop + ll - 1) / ll, ll)
    ensures forall l: nat :: l * ll in mvas <==> Touches(start, stop, ll, l)
  {
    var lo, hi := start / ll, (stop + ll - 1) / ll;
    forall l: nat ensures l * ll in mvas <==> Touches(start, stop, ll, l) {
      InMvas(mvas, lo, hi, ll, l);
      TouchedLines(start, stop, ll, lo, hi, l);
    }
  }

  // The loop variable of the flush after `k` passes.
  function FlushMva(start: nat, ll: nat, k: nat): nat
    requires LineLen(ll)
  {
    if k == 0 then Down(start, ll) else (FlushMva(start, ll, k - 1) + ll) % SPACE
  }

  lemma {:induction false} FlushMvaAligned(start: nat, ll: nat, k: nat)
    requires LineLen(ll) && start < SPACE
    ensures FlushMva(start, ll, k) <= SPACE - ll && FlushMva(start, ll, k) % ll == 0
  {
    if k == 0 {
      BelowSpace(start, ll);
      DownDown(start, ll);
    } else {
      FlushMvaAligned(start, ll, k - 1);
      NextLine(FlushMva(start, ll, k - 1), ll);
    }
  }

  lemma NextLine(x: nat, ll: nat)
    requires LineLen(ll) && x <= SPACE - ll && x % ll == 0
    ensures (x + ll) % SPACE <= SPACE - ll && (x + ll) % SPACE % ll == 0
  {
    DivDown(x, ll);
    assert (x / ll + 1) * ll == (x / ll) * ll + ll;
    DivUnique(x / ll + 1, 0, ll);
    DivUnique(0, 0, ll);
    var y := (x + ll) % SPACE;
    assert y == if x + ll == SPACE then 0 else x + ll;
    BelowSpace(y, ll);
  }

  /** The flush loop ends exactly when `stop` is not in the last line of the address space. */
  lemma FlushEnds(start: nat, stop: nat, ll: nat)
    requires LineLen(ll) && start < SPACE && stop < SPACE
    ensures (exists k :: stop <= FlushMva(start, ll, k)) <==> stop <= SPACE - ll
  {
    forall k ensures SPACE - ll < stop ==> FlushMva(start, ll, k) < stop {
      FlushMvaAligned(start, ll, k);
    }
    if stop <= SPACE - ll {
      var k := FlushLast(start, ll);
      assert stop <= FlushMva(start, ll, k);
    }
  }

  lemma FlushLast(start: nat, ll: nat) returns (k: nat)
    requires LineLen(ll) && start < SPACE
    ensures FlushMva(start, ll, k) == SPACE - ll
  {
    var n := SpaceLines(ll);
    var q := start / ll;
    DivDown(start, ll);
    MulLess(q, n, ll);
    k := n - 1 - q;
    assert (n - 1 - q) * ll == n * ll - ll - q * ll;
    FlushReaches(start, ll, k);
  }

  lemma {:induction false} FlushReaches(start: nat, ll: nat, k: nat)
    requires LineLen(ll) && start < SPACE && Down(start, ll) + k * ll <= SPACE - ll
    ensures FlushMva(start, ll, k) == Down(start, ll) + k * ll
  {
    if k != 0 {
      OneMore(k - 1, ll);
      FlushReaches(start, ll, k - 1);
      NoWrapBelow(FlushMva(start, ll, k - 1) + ll);
    }
  }

  lemma OneMore(k: nat, ll: nat)
    ensures (k + 1) * ll == k * ll + ll
  {
  }

  lemma NoWrapBelow(x: nat)
    requires x < SPACE
    ensures x % SPACE == x
  {
  }

  // ------------------------------------------------------------------ buffers of any alignment

  /** However the buffer is aligned, a byte outside it that the device does not write keeps
      the CPU's last write, when the only invalidations are those of the range operation. */
  lemma NeighbourSafe(s: Sys, es: seq<Event>, start: nat, stop: nat, mvas: seq<nat>, a: nat)
    requires s.Ok() && a < |s.mem| && Agrees(s, a) && LineLen(s.lineLen)
    requires start < SPACE && stop < SPACE && !Wraps(start, s.lineLen)
    requires InvalMvas(mvas, start, stop, s.lineLen)
    requires forall l: nat :: Inval(l) in es ==> l * s.lineLen in mvas
    requires forall e :: e in es ==> !(e.DmaWrite? && e.a == a)
    requires a < start || stop <= a
    ensures Run(s, es).View(a) == Stored(es, a, s.View(a))
  {
    var l := s.LineOf(a);
    DivDown(a, s.lineLen);
    InvalExactlyInside(start, stop, s.lineLen, mvas);
    NeighbourKept(s, es, a);
  }

  ghost function LineSet(mvas: seq<nat>, ll: nat): set<nat> {
    set l: nat | l < SPACE && l * ll in mvas
  }

  /** Bytes of the lines wholly inside an unaligned buffer are still received correctly. */
  lemma InsideReceived(s: Sys, es: seq<Event>, start: nat, stop: nat, mvas: seq<nat>,
                       k: nat, i: nat, j: nat, a: nat)
    requires s.Ok() && a < |s.mem| && LineLen(s.lineLen)
    requires start < SPACE && stop < SPACE && !Wraps(start, s.lineLen)
    requires InvalMvas(mvas, start, stop, s.lineLen)
    requires Receives(es, s.lineLen, LineSet(mvas, s.lineLen), k, i, j)
    requires Inside(start, stop, s.lineLen, s.LineOf(a))
    ensures Run(s, es).View(a) == Delivered(es[i..j], a, Run(s, es[..i]).mem[a])
  {
    var l := s.LineOf(a);
    InvalExactlyInside(start, stop, s.lineLen, mvas);
    MulGap(0, s.lineLen, l);
    assert l < SPACE;
    ReceivedCoherent(s, es, LineSet(mvas, s.lineLen), k, i, j, a);
  }

  /** The wrap-around loses writes: a write to the first line, far from the buffer, is gone
      once the range operation has invalidated that line. */
  lemma WrappedLosesWrite(s: Sys, start: nat, stop: nat, v: Byte)
    requires s.Ok() && 0 < |s.mem| && LineLen(s.lineLen) && v != s.mem[0] && 0 !in s.valid
    requires start <= stop < SPACE && Wraps(start, s.lineLen)
    ensures forall mvas :: InvalMvas(mvas, start, stop, s.lineLen) ==> 0 in mvas
    ensures Run(s, [CpuWrite(0, v, true), Inval(0)]).View(0) == s.mem[0] != v
  {
    forall mvas | InvalMvas(mvas, start, stop, s.lineLen) ensures 0 in mvas {
      WrappedHitsFirst(start, stop, s.lineLen, mvas);
    }
    RunTwo(s, CpuWrite(0, v, true), Inval(0));
  }

  lemma WrappedHitsFirst(start: nat, stop: nat, ll: nat, mvas: seq<nat>)
    requires LineLen(ll) && start <= stop < SPACE && Wraps(start, ll) && InvalMvas(mvas, start, stop, ll)
    ensures 0 in mvas
  {
    InvalHit(start, stop, ll, mvas, 0);
    var n := SpaceLines(ll);
    MulGap(1, n, ll);
  }
}
