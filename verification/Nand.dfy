/** NAND flash with bad blocks that are skipped: the address translation behind
    `nand read`, `nand write` and `nand erase`, and what it gives for round trips.

    Programming can only clear bits, so it leaves the bitwise and of the old contents and the
    data; erasing sets all bytes of a block to 0xff. */
module Nand {
  import opened Multiples

  type Byte = bv8
  const FF: Byte := 0xff

  /** A device: its size, which blocks are bad, the block an offset lies in, and where that
      block ends. */
  datatype Dev = Dev(size: nat, bad: set<nat>, blockOf: nat -> nat, endOf: nat -> nat) {
    ghost predicate Ok() {
      && (forall off: nat :: off < size ==> off < endOf(off) <= size)
      && (forall off: nat, a: nat :: off <= a < endOf(off) && off < size ==> blockOf(a) == blockOf(off))
    }

    predicate IsBad(off: nat) { blockOf(off) in bad }
  }

  /** Blocks of `block` bytes each, one after the other. */
  function Geometry(block: nat, size: nat, bad: set<nat>): Dev
    requires 0 < block
  {
    Dev(size, bad, off => off / block, off => Down(off, block) + block)
  }

  lemma GeometryOk(block: nat, size: nat, bad: set<nat>)
    requires 0 < block && size % block == 0
    ensures Geometry(block, size, bad).Ok()
  {
    var d := Geometry(block, size, bad);
    forall off: nat | off < size ensures off < d.endOf(off) <= size {
      BlockInside(block, size, off);
    }
    forall off: nat, a: nat | off <= a < d.endOf(off) && off < size ensures d.blockOf(a) == d.blockOf(off) {
      DivDown(off, block);
      DivUnique(off / block, a - Down(off, block), block);
    }
  }

  lemma BlockInside(block: nat, size: nat, off: nat)
    requires 0 < block && size % block == 0 && off < size
    ensures off < Down(off, block) + block <= size
  {
    DivDown(off, block);
    DivDown(size, block);
    MulLess(off / block, size / block, block);
    if off / block < size / block { MulGap(off / block, size / block, block); }
  }

  /** Where byte number `k` goes when writing or reading starts at `off` and bad blocks are
      left out; a number at or beyond the size says that there is no room for it. */
  ghost function Phys(d: Dev, off: nat, k: nat): (a: nat)
    requires d.Ok()
    ensures off + k <= a
    decreases d.size - off
  {
    var end := d.endOf(off);
    if d.size <= off then off + k
    else if d.IsBad(off) then Phys(d, end, k)
    else if k < end - off then off + k
    else Phys(d, end, k - (end - off))
  }

  /** `n` bytes have room from `off` on. */
  ghost predicate Fits(d: Dev, off: nat, n: nat)
    requires d.Ok()
  {
    n == 0 || Phys(d, off, n - 1) < d.size
  }

  /** The translation keeps the order of the bytes. */
  lemma {:induction false} PhysIncreasing(d: Dev, off: nat, j: nat, k: nat)
    requires d.Ok() && j < k
    ensures Phys(d, off, j) < Phys(d, off, k)
    decreases d.size - off
  {
    if off < d.size {
      var end := d.endOf(off);
      if d.IsBad(off) {
        PhysIncreasing(d, end, j, k);
      } else if end - off <= j {
        PhysIncreasing(d, end, j - (end - off), k - (end - off));
      }
    }
  }

  /** It never enters a bad block. */
  lemma {:induction false} PhysGood(d: Dev, off: nat, k: nat)
    requires d.Ok() && Phys(d, off, k) < d.size
    ensures !d.IsBad(Phys(d, off, k))
    decreases d.size - off
  {
    var end := d.endOf(off);
    if d.IsBad(off) {
      PhysGood(d, end, k);
    } else if k < end - off {
      assert d.blockOf(off + k) == d.blockOf(off);
    } else {
      PhysGood(d, end, k - (end - off));
    }
  }

  lemma PhysFits(d: Dev, off: nat, n: nat, k: nat)
    requires d.Ok() && Fits(d, off, n) && k < n
    ensures Phys(d, off, k) < d.size
  {
    if k < n - 1 { PhysIncreasing(d, off, k, n - 1); }
  }

  /** The first `done` bytes from `off` have been dealt with, and the rest starts at `at`. */
  ghost predicate Ahead(d: Dev, off: nat, done: nat, at: nat)
    requires d.Ok()
  {
    forall i: nat :: Phys(d, at, i) == Phys(d, off, done + i)
  }

  lemma AheadSkip(d: Dev, off: nat, done: nat, at: nat)
    requires d.Ok() && Ahead(d, off, done, at) && at < d.size && d.IsBad(at)
    ensures Ahead(d, off, done, d.endOf(at))
  {
    forall i: nat ensures Phys(d, d.endOf(at), i) == Phys(d, off, done + i) {
      assert Phys(d, at, i) == Phys(d, off, done + i);
    }
  }

  // A piece of a good block; after less than the whole rest of the block, within the block.
  lemma AheadPiece(d: Dev, off: nat, done: nat, at: nat, c: nat)
    requires d.Ok() && Ahead(d, off, done, at) && at < d.size && !d.IsBad(at) && c == d.endOf(at) - at
    ensures Ahead(d, off, done + c, d.endOf(at))
  {
    forall i: nat ensures Phys(d, d.endOf(at), i) == Phys(d, off, done + c + i) {
      assert Phys(d, at, c + i) == Phys(d, off, done + (c + i));
    }
  }

  lemma AheadAt(d: Dev, off: nat, done: nat, at: nat, i: nat)
    requires d.Ok() && Ahead(d, off, done, at) && at < d.size && !d.IsBad(at) && at + i < d.endOf(at)
    ensures Phys(d, off, done + i) == at + i < d.size
  {
    assert Phys(d, at, i) == Phys(d, off, done + i);
  }

  // ------------------------------------------------------------------ programming

  function Program(data: seq<Byte>, off: nat, buf: seq<Byte>): (r: seq<Byte>)
    requires off + |buf| <= |data|
    ensures |r| == |data|
    ensures forall a {:trigger r[a]} :: 0 <= a < |data| ==>
              r[a] == if off <= a < off + |buf| then data[a] & buf[a - off] else data[a]
  {
    seq(|data|, a requires 0 <= a < |data| =>
      if off <= a < off + |buf| then data[a] & buf[a - off] else data[a])
  }

  /** The addresses of the first `n` bytes. */
  ghost function Touched(d: Dev, off: nat, n: nat): set<nat>
    requires d.Ok()
  {
    set k | 0 <= k < n :: Phys(d, off, k)
  }

  /** `data` is `old` with the first `n` bytes of `buf` written at `off`: those bytes are at
      their places, and every other byte is as it was. */
  ghost predicate Written(d: Dev, was: seq<Byte>, off: nat, buf: seq<Byte>, n: nat, data: seq<Byte>)
    requires d.Ok()
  {
    && |data| == |was| == d.size && n <= |buf| && Fits(d, off, n)
    && (forall k :: 0 <= k < n ==> WrittenAt(d, was, off, buf, data, k))
    && (forall a :: 0 <= a < |was| && a !in Touched(d, off, n) ==> data[a] == was[a])
  }

  ghost predicate WrittenAt(d: Dev, was: seq<Byte>, off: nat, buf: seq<Byte>, data: seq<Byte>, k: nat)
    requires d.Ok() && |data| == |was| && k < |buf|
  {
    var a := Phys(d, off, k);
    a < |was| && data[a] == was[a] & buf[k]
  }

  lemma NotTouched(d: Dev, off: nat, n: nat, k: nat)
    requires d.Ok() && n <= k
    ensures Phys(d, off, k) !in Touched(d, off, n)
  {
    forall j | 0 <= j < n ensures Phys(d, off, j) != Phys(d, off, k) {
      PhysIncreasing(d, off, j, k);
    }
  }

  lemma WrittenNothing(d: Dev, was: seq<Byte>, off: nat, buf: seq<Byte>)
    requires d.Ok() && |was| == d.size
    ensures Written(d, was, off, buf, 0, was)
  {
  }

  /** One piece more, inside a good block. */
  lemma WrittenPiece(d: Dev, was: seq<Byte>, off: nat, buf: seq<Byte>, n: nat, data: seq<Byte>, at: nat, c: nat)
    requires d.Ok() && Written(d, was, off, buf, n, data) && Ahead(d, off, n, at)
    requires at < d.size && !d.IsBad(at) && 0 < c <= d.endOf(at) - at && n + c <= |buf|
    ensures Written(d, was, off, buf, n + c, Program(data, at, buf[n..n + c]))
  {
    var data' := Program(data, at, buf[n..n + c]);
    forall k | 0 <= k < n + c ensures WrittenAt(d, was, off, buf, data', k) {
      if k < n { EarlierByte(d, was, off, buf, n, data, at, c, k); } else { PieceByte(d, was, off, buf, n, data, at, c, k); }
    }
    forall a | 0 <= a < |was| && a !in Touched(d, off, n + c) ensures data'[a] == was[a] {
      OtherByte(d, was, off, buf, n, data, at, c, a);
    }
    AheadAt(d, off, n, at, c - 1);
  }

  lemma EarlierByte(d: Dev, was: seq<Byte>, off: nat, buf: seq<Byte>, n: nat, data: seq<Byte>, at: nat, c: nat, k: nat)
    requires d.Ok() && Written(d, was, off, buf, n, data) && Ahead(d, off, n, at) && k < n
    requires at < d.size && !d.IsBad(at) && 0 < c <= d.endOf(at) - at && n + c <= |buf|
    ensures WrittenAt(d, was, off, buf, Program(data, at, buf[n..n + c]), k)
  {
    assert WrittenAt(d, was, off, buf, data, k);
    AheadAt(d, off, n, at, 0);
    PhysIncreasing(d, off, k, n);
  }

  lemma PieceByte(d: Dev, was: seq<Byte>, off: nat, buf: seq<Byte>, n: nat, data: seq<Byte>, at: nat, c: nat, k: nat)
    requires d.Ok() && Written(d, was, off, buf, n, data) && Ahead(d, off, n, at) && n <= k < n + c
    requires at < d.size && !d.IsBad(at) && 0 < c <= d.endOf(at) - at && n + c <= |buf|
    ensures WrittenAt(d, was, off, buf, Program(data, at, buf[n..n + c]), k)
  {
    AheadAt(d, off, n, at, k - n);
    NotTouched(d, off, n, k);
  }

  lemma OtherByte(d: Dev, was: seq<Byte>, off: nat, buf: seq<Byte>, n: nat, data: seq<Byte>, at: nat, c: nat, a: nat)
    requires d.Ok() && Written(d, was, off, buf, n, data) && Ahead(d, off, n, at)
    requires at < d.size && !d.IsBad(at) && 0 < c <= d.endOf(at) - at && n + c <= |buf|
    requires a < |was|
    ensures a in Touched(d, off, n + c) || Program(data, at, buf[n..n + c])[a] == was[a]
  {
    assert Touched(d, off, n) <= Touched(d, off, n + c);
    if at <= a < at + c {
      AheadAt(d, off, n, at, a - at);
      assert Phys(d, off, n + (a - at)) in Touched(d, off, n + c);
    }
  }

  /** In particular, bad blocks keep their contents. */
  lemma BadBlocksKept(d: Dev, was: seq<Byte>, off: nat, buf: seq<Byte>, n: nat, data: seq<Byte>, a: nat)
    requires d.Ok() && Written(d, was, off, buf, n, data) && a < d.size && d.IsBad(a)
    ensures data[a] == was[a]
  {
    forall k | 0 <= k < n ensures Phys(d, off, k) != a {
      PhysFits(d, off, n, k);
      PhysGood(d, off, k);
    }
  }

  // ------------------------------------------------------------------ reading back

  /** `r` is what reading `n` bytes from `off` gives. */
  ghost predicate Reads(d: Dev, data: seq<Byte>, off: nat, n: nat, r: seq<Byte>)
    requires d.Ok()
  {
    && |data| == d.size && |r| == n && Fits(d, off, n)
    && (forall k :: 0 <= k < n ==> ReadAt(d, data, off, r, k))
  }

  ghost predicate ReadAt(d: Dev, data: seq<Byte>, off: nat, r: seq<Byte>, k: nat)
    requires d.Ok() && k < |r|
  {
    var a := Phys(d, off, k);
    a < |data| && r[k] == data[a]
  }

  lemma ReadsPiece(d: Dev, data: seq<Byte>, off: nat, n: nat, r: seq<Byte>, at: nat, c: nat)
    requires d.Ok() && Reads(d, data, off, n, r) && Ahead(d, off, n, at)
    requires at < d.size && !d.IsBad(at) && 0 < c <= d.endOf(at) - at
    ensures Reads(d, data, off, n + c, r + data[at..at + c])
  {
    var r' := r + data[at..at + c];
    AheadAt(d, off, n, at, c - 1);
    forall k | 0 <= k < n + c ensures ReadAt(d, data, off, r', k) {
      if k < n {
        assert ReadAt(d, data, off, r, k);
      } else {
        AheadAt(d, off, n, at, k - n);
      }
    }
  }

  /** The old contents can take the data: no bit of it has been cleared already. */
  ghost predicate Takes(d: Dev, was: seq<Byte>, off: nat, buf: seq<Byte>)
    requires d.Ok()
  {
    forall k :: 0 <= k < |buf| ==> TakesAt(d, was, off, buf, k)
  }

  ghost predicate TakesAt(d: Dev, was: seq<Byte>, off: nat, buf: seq<Byte>, k: nat)
    requires d.Ok() && k < |buf|
  {
    var a := Phys(d, off, k);
    a < |was| && was[a] & buf[k] == buf[k]
  }

  /** Reading back what was written gives the data exactly when the old contents could take
      it, for every map of bad blocks. */
  lemma RoundTripIff(d: Dev, was: seq<Byte>, off: nat, buf: seq<Byte>, data: seq<Byte>, r: seq<Byte>)
    requires d.Ok() && Written(d, was, off, buf, |buf|, data) && Reads(d, data, off, |buf|, r)
    ensures r == buf <==> Takes(d, was, off, buf)
  {
    forall k | 0 <= k < |buf| ensures r[k] == buf[k] <==> TakesAt(d, was, off, buf, k) {
      assert WrittenAt(d, was, off, buf, data, k) && ReadAt(d, data, off, r, k);
    }
    if Takes(d, was, off, buf) {
      forall k | 0 <= k < |buf| ensures r[k] == buf[k] { assert TakesAt(d, was, off, buf, k); }
    }
  }

  /** What is written is determined: plain and trimmed writes leave the same flash. */
  lemma WrittenUnique(d: Dev, was: seq<Byte>, off: nat, buf: seq<Byte>, n: nat, x: seq<Byte>, y: seq<Byte>)
    requires d.Ok() && Written(d, was, off, buf, n, x) && Written(d, was, off, buf, n, y)
    ensures x == y
  {
    forall a | 0 <= a < |was| ensures x[a] == y[a] {
      if a in Touched(d, off, n) {
        var k :| 0 <= k < n && a == Phys(d, off, k);
        assert WrittenAt(d, was, off, buf, x, k) && WrittenAt(d, was, off, buf, y, k);
      }
    }
  }

  // ------------------------------------------------------------------ erasing

  /** `data` is `was` with the good blocks of off..to erased. */
  ghost predicate Erased(d: Dev, was: seq<Byte>, off: nat, to: nat, data: seq<Byte>) {
    && |data| == |was| == d.size
    && forall a :: 0 <= a < |was| ==> data[a] == if off <= a < to && !d.IsBad(a) then FF else was[a]
  }

  /** Flash erased as far as the data will go can take any data. */
  lemma ErasedTakes(d: Dev, was: seq<Byte>, off: nat, to: nat, data: seq<Byte>, buf: seq<Byte>)
    requires d.Ok() && Erased(d, was, off, to, data) && Fits(d, off, |buf|)
    requires buf == [] || Phys(d, off, |buf| - 1) < to
    ensures Takes(d, data, off, buf)
  {
    forall k | 0 <= k < |buf| ensures TakesAt(d, data, off, buf, k) {
      PhysFits(d, off, |buf|, k);
      PhysGood(d, off, k);
      if k < |buf| - 1 { PhysIncreasing(d, off, k, |buf| - 1); }
    }
  }

  /** A bad block on the way pushes everything behind it out by its length. */
  lemma {:induction false} PhysSkips(d: Dev, off: nat, k: nat, s: nat)
    requires d.Ok() && s < d.size && d.IsBad(s) && off <= s
    requires forall a: nat :: s <= a < d.endOf(s) ==> d.IsBad(a)
    requires off < s ==> d.endOf(off) <= s
    requires forall x: nat :: off <= x < s ==> d.endOf(x) <= s
    requires s <= Phys(d, off, k)
    ensures off + k + (d.endOf(s) - s) <= Phys(d, off, k)
    decreases d.size - off
  {
    var end := d.endOf(off);
    if off == s {
    } else if d.IsBad(off) {
      PhysSkips(d, end, k, s);
    } else if end - off <= k {
      PhysSkips(d, end, k - (end - off), s);
    }
  }

  ghost predicate PreparesAll(d: Dev, off: nat, to: nat, n: nat)
    requires d.Ok()
  {
    forall was: seq<Byte>, data, buf ::
      |buf| == n && Erased(d, was, off, to, data) ==> Takes(d, data, off, buf)
  }

  lemma NoneBadPrepares(d: Dev, off: nat, to: nat, n: nat)
    requires d.Ok() && 0 < n && off + n <= to <= d.size && Fits(d, off, n)
    requires forall s: nat :: off <= s < to ==> !d.IsBad(s)
    ensures PreparesAll(d, off, to, n)
  {
    StraightAhead(d, off, to, n - 1);
    forall was: seq<Byte>, data, buf | |buf| == n && Erased(d, was, off, to, data)
      ensures Takes(d, data, off, buf)
    {
      ErasedTakes(d, was, off, to, data, buf);
    }
  }

  lemma OneBadDoesNot(d: Dev, off: nat, to: nat, n: nat, b: nat)
    requires d.Ok() && 0 < n && off + n <= to <= d.size && Fits(d, off, n)
    requires BadBlock(d, off, to, n, b)
    ensures !PreparesAll(d, off, to, n)
  {
    PhysSkips(d, off, n - 1, b);
    var zero: Byte := 0;
    var was := seq(d.size, i => zero);
    var data := seq(d.size, i requires 0 <= i < d.size => if off <= i < to && !d.IsBad(i) then FF else zero);
    var buf := seq(n, i => FF);
    assert Erased(d, was, off, to, data);
    LastNotTaken(d, off, to, data, buf);
  }

  lemma LastNotTaken(d: Dev, off: nat, to: nat, data: seq<Byte>, buf: seq<Byte>)
    requires d.Ok() && |data| == d.size && buf != [] && buf[|buf| - 1] == FF
    requires to <= Phys(d, off, |buf| - 1)
    requires forall a :: to <= a < d.size ==> data[a] == 0
    ensures !Takes(d, data, off, buf)
  {
    assert !TakesAt(d, data, off, buf, |buf| - 1);
  }

  /** Erasing just the length of the data, bad blocks counted, prepares the flash for all
      data of that length exactly when there is no bad block among those erased.  `blocks` is
      the length in blocks, rounded up. */
  lemma PlainEraseIff(d: Dev, block: nat, bad: set<nat>, off: nat, n: nat, blocks: nat)
    requires 0 < block && off % block == 0
    requires 0 < n <= blocks * block < n + block && off + blocks * block <= d.size
    requires d == Geometry(block, d.size, bad) && d.Ok() && Fits(d, off, n)
    ensures PreparesAll(d, off, off + blocks * block, n) <==>
            forall s: nat :: off <= s < off + blocks * block ==> !d.IsBad(s)
  {
    var to := off + blocks * block;
    if s: nat :| off <= s < to && d.IsBad(s) {
      BadBlockAt(block, d.size, bad, off, n, blocks, s);
      OneBadDoesNot(d, off, to, n, Down(s, block));
    } else {
      NoneBadPrepares(d, off, to, n);
    }
  }

  lemma BadBlockAt(block: nat, size: nat, bad: set<nat>, off: nat, n: nat, blocks: nat, s: nat)
    requires 0 < block && off % block == 0 && 0 < n <= blocks * block < n + block && off + blocks * block <= size
    requires off <= s < off + blocks * block && Geometry(block, size, bad).IsBad(s)
    ensures BadBlock(Geometry(block, size, bad), off, off + blocks * block, n, Down(s, block))
  {
    var d := Geometry(block, size, bad);
    var p, q := off / block, s / block;
    var b := Down(s, block);
    DivDown(s, block);
    DivDown(off, block);
    DivUnique(q, 0, block);
    assert (p + blocks) * block == off + blocks * block;
    MulLess(q, p + blocks, block);
    MulGap(q, p + blocks, block);
    MulLess(q, p, block);
    if q < p { MulGap(q, p, block); }
    assert d.endOf(b) == b + block by { DivDown(b, block); }
    forall a: nat | b <= a < d.endOf(b) ensures d.IsBad(a) { DivUnique(q, a - b, block); }
    forall x: nat | off <= x < b ensures d.endOf(x) <= b {
      DivDown(x, block);
      MulLess(x / block, q, block);
      MulGap(x / block, q, block);
    }
  }

  // A bad block in off..to such that the room before it and after it is less than `n`.
  ghost predicate BadBlock(d: Dev, off: nat, to: nat, n: nat, b: nat) {
    && off <= b < d.size && d.IsBad(b) && d.endOf(b) <= to
    && (forall a: nat :: b <= a < d.endOf(b) ==> d.IsBad(a))
    && (forall x: nat :: off <= x < b ==> d.endOf(x) <= b)
    && to - off < n + (d.endOf(b) - b)
  }

  lemma {:induction false} StraightAhead(d: Dev, off: nat, to: nat, k: nat)
    requires d.Ok() && off + k < to <= d.size && forall s: nat :: off <= s < to ==> !d.IsBad(s)
    ensures Phys(d, off, k) == off + k
    decreases d.size - off
  {
    var end := d.endOf(off);
    if end - off <= k { StraightAhead(d, end, to, k - (end - off)); }
  }
}
