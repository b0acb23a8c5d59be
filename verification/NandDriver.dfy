/** The commands on NAND flash: check_skip_len(), drop_ffs(), nand_write_skip_bad(),
    nand_read_skip_bad() and nand_erase_opts() of drivers/mtd/nand/nand_util.c. */
module NandDriver {
  import opened Multiples
  import opened Nand

  const EIO := 5
  const EINVAL := 22
  const EFBIG := 27

  /** One call of the driver below: where, and what. */
  datatype Call = Call(at: nat, bytes: seq<Byte>) {
    predicate Programs(a: nat) { at <= a < at + |bytes| }
  }

  /** One of the calls from number `n` on programs the byte at `a`. */
  ghost predicate InCalls(calls: seq<Call>, n: nat, a: nat) {
    exists i :: n <= i < |calls| && calls[i].Programs(a)
  }

  lemma OneMoreCall(calls: seq<Call>, c: Call, n: nat, a: nat)
    requires n <= |calls|
    ensures InCalls(calls + [c], n, a) <==> InCalls(calls, n, a) || c.Programs(a)
  {
    var more := calls + [c];
    if InCalls(calls, n, a) {
      var i :| n <= i < |calls| && calls[i].Programs(a);
      assert more[i].Programs(a);
    }
    if c.Programs(a) { assert more[|calls|].Programs(a); }
  }

  // ------------------------------------------------------------------ lemmas about pieces

  predicate AllFF(s: seq<Byte>) { forall i :: 0 <= i < |s| ==> s[i] == FF }

  /** Programming trailing 0xff bytes changes nothing. */
  lemma ProgramTrimmed(data: seq<Byte>, at: nat, chunk: seq<Byte>, t: nat)
    requires at + |chunk| <= |data| && t <= |chunk| && AllFF(chunk[t..])
    ensures Program(data, at, chunk[..t]) == Program(data, at, chunk)
  {
    var x, y := Program(data, at, chunk[..t]), Program(data, at, chunk);
    forall a | 0 <= a < |data| ensures x[a] == y[a] {
      if at + t <= a < at + |chunk| {
        assert chunk[t..][a - at - t] == chunk[a - at];
      }
    }
  }

  // What one piece of the data finds, and whether it reads back.
  lemma ByteTakes(d: Dev, was: seq<Byte>, off: nat, buf: seq<Byte>, n: nat, data: seq<Byte>, at: nat, c: nat, k: nat)
    requires d.Ok() && Written(d, was, off, buf, n, data) && Ahead(d, off, n, at)
    requires at < d.size && !d.IsBad(at) && 0 < c <= d.endOf(at) - at && n + c <= |buf| && n <= k < n + c
    ensures TakesAt(d, was, off, buf, k) <==> Program(data, at, buf[n..n + c])[at + (k - n)] == buf[k]
  {
    AheadAt(d, off, n, at, k - n);
    NotTouched(d, off, n, k);
  }

  // Without a bad block on the way, the bytes stay together.
  ghost predicate Straight(d: Dev, off: nat, n: nat)
    requires d.Ok()
  {
    forall k :: 0 <= k < n ==> Phys(d, off, k) == off + k
  }

  lemma StraightPiece(d: Dev, off: nat, n: nat, at: nat, c: nat)
    requires d.Ok() && Straight(d, off, n) && Ahead(d, off, n, at) && at == off + n
    requires at < d.size && !d.IsBad(at) && c == d.endOf(at) - at
    ensures Straight(d, off, n + c)
  {
    forall k | 0 <= k < n + c ensures Phys(d, off, k) == off + k {
      if n <= k { AheadAt(d, off, n, at, k - n); }
    }
  }

  lemma WrittenStraight(d: Dev, was: seq<Byte>, off: nat, buf: seq<Byte>)
    requires d.Ok() && |was| == d.size && Fits(d, off, |buf|) && Straight(d, off, |buf|) && off <= d.size
    ensures off + |buf| <= |was| && Written(d, was, off, buf, |buf|, Program(was, off, buf))
  {
    var data := Program(was, off, buf);
    forall k | 0 <= k < |buf| ensures WrittenAt(d, was, off, buf, data, k) {
      PhysFits(d, off, |buf|, k);
    }
    forall a | 0 <= a < |was| ensures a in Touched(d, off, |buf|) || data[a] == was[a] {
      if off <= a < off + |buf| { assert Phys(d, off, a - off) in Touched(d, off, |buf|); }
    }
  }

  lemma TakesStraight(d: Dev, was: seq<Byte>, off: nat, buf: seq<Byte>)
    requires d.Ok() && |was| == d.size && off + |buf| <= |was| && Straight(d, off, |buf|)
    ensures Program(was, off, buf)[off..off + |buf|] == buf <==> Takes(d, was, off, buf)
  {
    var r := Program(was, off, buf)[off..off + |buf|];
    forall k | 0 <= k < |buf| ensures r[k] == buf[k] <==> TakesAt(d, was, off, buf, k) {}
    if Takes(d, was, off, buf) {
      forall k | 0 <= k < |buf| ensures r[k] == buf[k] { assert TakesAt(d, was, off, buf, k); }
    }
  }

  /** A flash device.  The offset masks of the original are the geometry of `d`:
      `d.endOf(off) - off` is what is left of the block at `off`. */
  class Flash {
    const d: Dev
    const block: nat
    const page: nat
    var data: seq<Byte>
    ghost var calls: seq<Call>   // what the driver below was asked to program

    constructor (block: nat, page: nat, size: nat, bad: set<nat>, data: seq<Byte>)
      requires 0 < page && 0 < block && block % page == 0 && size % block == 0 && |data| == size
      ensures Valid() && d == Geometry(block, size, bad) && this.block == block && this.page == page
      ensures this.data == data && Paged()
    {
      this.d, this.block, this.page := Geometry(block, size, bad), block, page;
      this.data, calls := data, [];
      new;
      GeometryOk(block, size, bad);
      GeometryPaged(block, page, size, bad);
    }

    // Blocks are whole pages, and all bytes of a block have the same end.
    ghost predicate Paged() {
      && 0 < page
      && (forall x: nat :: x < d.size ==> d.endOf(x) % page == 0)
      && (forall x: nat, y: nat :: x <= y < d.endOf(x) && x < d.size ==> d.endOf(y) == d.endOf(x))
    }

    ghost predicate Valid()
      reads this
    {
      0 < page && d.Ok() && |data| == d.size
    }

    // nand_write()
    method NandWrite(off: nat, bytes: seq<Byte>)
      requires Valid() && off + |bytes| <= d.size
      modifies this
      ensures Valid() && data == Program(old(data), off, bytes)
      ensures calls == if bytes == [] then old(calls) else old(calls) + [Call(off, bytes)]
    {
      data := Program(data, off, bytes);
      if bytes != [] { calls := calls + [Call(off, bytes)]; }
    }

    static lemma PieceCompared(data: seq<Byte>, off: nat, bytes: seq<Byte>, done: nat, n: nat)
      requires done + n <= |bytes| && off + |bytes| <= |data|
      ensures data[off..off + |bytes|][done..done + n] == data[off + done..off + done + n]
      ensures data[off..off + done] == bytes[..done] && data[off + done..off + done + n] == bytes[done..done + n] ==>
                data[off..off + (done + n)] == bytes[..done + n]
    {
      var all := data[off..off + |bytes|];
      var a, b := all[done..done + n], data[off + done..off + done + n];
      forall i | 0 <= i < n ensures a[i] == b[i] {
        assert all[done + i] == data[off + (done + i)];
      }
      assert data[off..off + (done + n)] == data[off..off + done] + data[off + done..off + done + n];
      assert bytes[..done + n] == bytes[..done] + bytes[done..done + n];
    }

    /** nand_verify(): reads back in pieces of a page and compares. */
    method NandVerify(off: nat, bytes: seq<Byte>) returns (ok: bool)
      requires Valid() && off + |bytes| <= d.size
      ensures ok <==> data[off..off + |bytes|] == bytes
    {
      var done := 0;
      ok := true;
      while done < |bytes| && ok
        invariant 0 <= done <= |bytes|
        invariant ok ==> data[off..off + done] == bytes[..done]
        invariant !ok ==> data[off..off + |bytes|] != bytes
        decreases |bytes| - done, ok
      {
        var n := if page < |bytes| - done then page else |bytes| - done;
        ok := data[off + done..off + done + n] == bytes[done..done + n];
        PieceCompared(data, off, bytes, done, n);
        if ok { done := done + n; }
      }
      assert bytes[..|bytes|] == bytes;
    }

    /** check_skip_len(): whether the bytes fit, whether blocks have to be skipped, and how
        much of the flash they take, skipped blocks included. */
    method CheckSkipLen(off: nat, length: nat) returns (ret: int, used: nat)
      requires Valid()
      ensures ret == -1 || ret == 0 || ret == 1
      ensures ret == -1 <==> !Fits(d, off, length)
      ensures 0 <= ret ==> off + used == if length == 0 then off else Phys(d, off, length - 1) + 1
      ensures 0 <= ret ==> (ret == 1 <==> !Straight(d, off, length))
    {
      var excl: nat, at: nat := 0, off;
      used, ret := 0, 0;
      while excl < length
        invariant at == off + used && Ahead(d, off, excl, at)
        invariant ret == 0 || ret == 1
        invariant excl <= used && (ret == 0 ==> used == excl && Straight(d, off, excl))
        invariant ret == 1 ==> !Straight(d, off, length)
        invariant 0 < length <= excl ==> Ends(off, excl, at, length)
        invariant length == 0 ==> excl == used == 0
        decreases d.size - at, length - excl
      {
        if d.size <= at {
          NoRoom(off, length, excl, at);
          return -1, used;
        }
        var len := d.endOf(at) - at;
        if !d.IsBad(at) {
          SkipPiece(off, excl, at, length, len);
          if ret == 0 { StraightPiece(d, off, excl, at, len); }
          excl := excl + len;
        } else {
          AheadSkip(d, off, excl, at);
          Skipped(off, excl, at, length);
          ret := 1;
        }
        at := at + len;
        used := used + len;
      }
      assert 0 < length ==> Ends(off, excl, at, length);
      if length < excl { used := used - (excl - length); }
    }

    // A bad block before the last byte moves the bytes behind it.
    lemma Skipped(off: nat, excl: nat, at: nat, length: nat)
      requires d.Ok() && Ahead(d, off, excl, at) && at < d.size && d.IsBad(at) && off + excl <= at && excl < length
      ensures !Straight(d, off, length)
    {
      assert Phys(d, at, 0) == Phys(d, off, excl + 0);
      assert Phys(d, at, 0) == Phys(d, d.endOf(at), 0);
    }

    // The bytes end in the block before `at`, with `excl - length` bytes left in it.
    ghost predicate Ends(off: nat, excl: nat, at: nat, length: nat)
      requires d.Ok()
    {
      && 0 < length <= excl && at - (excl - length) == Phys(d, off, length - 1) + 1
      && Fits(d, off, length)
    }

    lemma SkipPiece(off: nat, excl: nat, at: nat, length: nat, len: nat)
      requires Valid() && Ahead(d, off, excl, at) && at < d.size && !d.IsBad(at) && len == d.endOf(at) - at
      requires excl < length
      ensures d.endOf(at) == at + len && Ahead(d, off, excl + len, at + len)
      ensures length <= excl + len ==> Ends(off, excl + len, at + len, length)
    {
      AheadPiece(d, off, excl, at, len);
      if length <= excl + len { AheadAt(d, off, excl, at, length - 1 - excl); }
    }

    // The search from the end for a byte that is not 0xff.
    static method LastByte(buf: seq<Byte>) returns (n: nat)
      ensures n <= |buf| && AllFF(buf[n..]) && (0 < n ==> buf[n - 1] != FF)
    {
      n := |buf|;
      while 0 < n && buf[n - 1] == FF
        invariant 0 <= n <= |buf| && AllFF(buf[n..])
      {
        n := n - 1;
        assert buf[n..] == [FF] + buf[n + 1..];
      }
    }

    /** drop_ffs(): the length without the pages at the end that hold nothing but 0xff. */
    method DropFfs(buf: seq<Byte>) returns (l: nat)
      requires 0 < page
      ensures l <= |buf| && AllFF(buf[l..])
      ensures l % page == 0 || l == |buf|
      ensures 0 < l ==> !AllFF(buf[Down(l - 1, page)..l])
    {
      var n := LastByte(buf);
      l := (n + page - 1) / page * page;
      RoundUp(n, page, l, if l < |buf| then l else |buf|);
      l := if l < |buf| then l else |buf|;
      RoundedUp(buf, n, l, if 0 < l then Down(l - 1, page) else 0);
    }

    // Behind the last byte that is not 0xff there are only such bytes.
    static lemma RoundedUp(buf: seq<Byte>, n: nat, l: nat, start: nat)
      requires n <= l <= |buf| && AllFF(buf[n..]) && (0 < n ==> buf[n - 1] != FF) && start <= l
      ensures AllFF(buf[l..])
      ensures 0 < n && start < n ==> !AllFF(buf[start..l])
    {
      assert buf[l..] == buf[n..][l - n..];
      if 0 < n && start < n {
        assert buf[start..l][n - 1 - start] == buf[n - 1];
      }
    }

    static lemma RoundUp(n: nat, page: nat, l: nat, m: nat)
      requires 0 < page && l == (n + page - 1) / page * page
      ensures n <= l && l % page == 0 && (n == 0 ==> l == 0)
      ensures n <= m <= l && 0 < n ==> Down(m - 1, page) < n
    {
      DivDown(n + page - 1, page);
      DivUnique((n + page - 1) / page, 0, page);
      if n == 0 {
        DivUnique(0, page - 1, page);
      } else {
        var q := (n + page - 1) / page - 1;
        assert (q + 1) * page == q * page + page;
        if n <= m <= l {
          DivUnique(q, m - 1 - q * page, page);
          DivDown(m - 1, page);
        }
      }
    }

    // A call that starts with a page, stays in its block, and whose last page holds something.
    ghost predicate Tidy(c: Call)
      requires 0 < page
    {
      && c.bytes != [] && !AllFF(c.bytes[Down(|c.bytes| - 1, page)..])
      && c.at % page == 0 && c.at < d.size && c.at + |c.bytes| <= d.endOf(c.at)
    }

    // None of the calls since `before` runs over a block or has pages of 0xff at its end.
    ghost predicate Trimmed(before: seq<Call>, drop: bool)
      requires 0 < page
      reads this
    {
      && before <= calls
      && (drop ==> forall i :: |before| <= i < |calls| ==> Tidy(calls[i]))
    }

    // Programs one piece inside a block, cut if `drop` says so, and reads it back if `verify` does.
    method WritePiece(at: nat, chunk: seq<Byte>, drop: bool, verify: bool) returns (ok: bool, ghost t: nat)
      requires Valid() && at % page == 0 && at < d.size && at + |chunk| <= d.endOf(at)
      modifies this
      ensures Valid() && data == Program(old(data), at, chunk)
      ensures ok <==> !verify || KeptThere(data, at, chunk, drop)
      ensures t <= |chunk| && CutAt(chunk, drop, t)
      ensures calls == if t == 0 then old(calls) else old(calls) + [Call(at, chunk[..t])]
      ensures drop && 0 < t ==> Tidy(Call(at, chunk[..t]))
    {
      var n := |chunk|;
      if drop { n := DropFfs(chunk); }
      t := n;
      ProgramTrimmed(data, at, chunk, n);
      NandWrite(at, chunk[..n]);
      ok := true;
      if verify { ok := NandVerify(at, chunk[..n]); }
      forall i | 0 <= i < |chunk| ensures KeptIn(chunk, drop, i) <==> i < t {
        if drop { CutIff(chunk, page, t, i); }
      }
      ReadBack(data, at, chunk, drop, t);
      if drop && 0 < t { CutCall(at, chunk, t); }
    }

    // A byte of a piece is programmed: some byte from its page on is not 0xff.
    ghost predicate KeptIn(chunk: seq<Byte>, drop: bool, i: nat)
      requires 0 < page && i < |chunk|
    {
      !drop || !AllFF(chunk[Down(i, page)..])
    }

    // The first `t` bytes of a piece are programmed.
    ghost predicate CutAt(chunk: seq<Byte>, drop: bool, t: nat)
      requires 0 < page
    {
      forall i :: 0 <= i < |chunk| ==> (KeptIn(chunk, drop, i) <==> i < t)
    }

    ghost predicate KeptThere(data: seq<Byte>, at: nat, chunk: seq<Byte>, drop: bool)
      requires 0 < page && at + |chunk| <= |data|
    {
      forall i :: 0 <= i < |chunk| && KeptIn(chunk, drop, i) ==> data[at + i] == chunk[i]
    }

    static lemma CutIff(chunk: seq<Byte>, page: nat, t: nat, i: nat)
      requires 0 < page && t <= |chunk| && i < |chunk| && AllFF(chunk[t..]) && (t % page == 0 || t == |chunk|)
      requires 0 < t ==> !AllFF(chunk[Down(t - 1, page)..t])
      ensures i < t <==> !AllFF(chunk[Down(i, page)..])
    {
      var a := Down(i, page);
      if i < t {
        DownGrows(i, t - 1, page);
        var b := Down(t - 1, page);
        var x :| 0 <= x < t - b && chunk[b..t][x] != FF;
        assert chunk[a..][b + x - a] == chunk[b..t][x];
      } else {
        DownGrows(t, i, page);
        assert chunk[a..] == chunk[t..][a - t..];
      }
    }

    static lemma DownGrows(x: nat, y: nat, page: nat)
      requires 0 < page && x <= y
      ensures Down(x, page) <= Down(y, page) && (x % page == 0 ==> x <= Down(y, page))
    {
      DivDown(x, page);
      DivDown(y, page);
      if y / page < x / page { MulGap(y / page, x / page, page); }
      if x / page < y / page { MulGap(x / page, y / page, page); }
    }

    // Reading back what was programmed.
    lemma ReadBack(data: seq<Byte>, at: nat, chunk: seq<Byte>, drop: bool, t: nat)
      requires 0 < page && t <= |chunk| && at + |chunk| <= |data|
      requires CutAt(chunk, drop, t)
      ensures data[at..at + t] == chunk[..t] <==> KeptThere(data, at, chunk, drop)
    {
      var x, y := data[at..at + t], chunk[..t];
      assert forall i :: 0 <= i < t ==> x[i] == data[at + i] && y[i] == chunk[i];
      if x == y {
        forall i | 0 <= i < |chunk| && KeptIn(chunk, drop, i) ensures data[at + i] == chunk[i] {
          assert x[i] == y[i];
        }
      }
      if KeptThere(data, at, chunk, drop) {
        forall i | 0 <= i < t ensures x[i] == y[i] { assert KeptIn(chunk, drop, i); }
      }
    }

    lemma CutCall(at: nat, chunk: seq<Byte>, t: nat)
      requires 0 < page && 0 < t <= |chunk| && !AllFF(chunk[Down(t - 1, page)..t])
      requires at % page == 0 && at < d.size && at + |chunk| <= d.endOf(at)
      ensures Tidy(Call(at, chunk[..t]))
    {
      assert chunk[..t][Down(t - 1, page)..] == chunk[Down(t - 1, page)..t];
    }

    /** nand_write_skip_bad(): `drop` is WITH_DROP_FFS, `verify` is WITH_WR_VERIFY. */
    method WriteSkipBad(off: nat, buf: seq<Byte>, lim: nat, drop: bool, verify: bool)
      returns (ret: int, length: nat, actual: nat)
      requires Valid() && Paged()
      modifies this
      ensures Valid()
      // refused: nothing is changed
      ensures ret == -EINVAL <==> off % page != 0 || !Fits(d, off, |buf|)
      ensures ret == -EFBIG <==> off % page == 0 && Fits(d, off, |buf|) && off + lim < End(off, |buf|)
      ensures ret == -EINVAL || ret == -EFBIG ==> data == old(data) && calls == old(calls) && length == 0
      ensures ret != -EINVAL ==> off + actual == End(off, |buf|)
      // done: every byte in its place, all others untouched
      ensures ret == 0 ==> Written(d, old(data), off, buf, |buf|, data) && length == |buf|
      // exactly the bytes that are kept are programmed
      ensures ret == 0 ==> Issued(old(calls), off, buf, drop, |buf|)
      // otherwise reading back found a difference in what was programmed, and a part was written
      ensures ret == 0 || ret == -EINVAL || ret == -EFBIG || ret == -EIO
      ensures ret == -EIO ==> verify && !KeptTakes(old(data), off, buf, drop, 0, |buf|)
      ensures ret == 0 && verify ==> KeptTakes(old(data), off, buf, drop, 0, |buf|)
      ensures ret == -EIO ==>
                length <= |buf| && exists n :: PartWritten(old(data), old(calls), off, buf, drop, length, n)
      // with trimming, no call runs over a block or ends in pages of 0xff
      ensures Trimmed(old(calls), drop)
    {
      actual := 0;
      if off % page != 0 { return -EINVAL, 0, actual; }
      var skip;
      skip, actual := CheckSkipLen(off, |buf|);
      if skip < 0 { return -EINVAL, 0, actual; }
      if lim < actual { return -EFBIG, 0, actual; }
      if skip == 0 && !drop {
        var ok := WriteStraight(off, buf, verify);
        assert PartWritten(old(data), old(calls), off, buf, drop, 0, |buf|);
        return if ok then 0 else -EIO, if ok then |buf| else 0, actual;
      }
      ret, length := WriteBlocks(off, buf, drop, verify);
    }

    // The first address behind `n` bytes.
    ghost function End(off: nat, n: nat): nat
      requires d.Ok()
    {
      if n == 0 then off else Phys(d, off, n - 1) + 1
    }

    // All at once, where no block has to be skipped.
    method WriteStraight(off: nat, buf: seq<Byte>, verify: bool) returns (ok: bool)
      requires Valid() && Fits(d, off, |buf|) && Straight(d, off, |buf|)
      modifies this
      ensures Valid() && Written(d, old(data), off, buf, |buf|, data)
      ensures ok <==> !verify || Takes(d, old(data), off, buf)
      ensures Issued(old(calls), off, buf, false, |buf|)
    {
      ok := true;
      if buf == [] {
        WrittenNothing(d, data, off, buf);
        return;
      }
      PhysFits(d, off, |buf|, |buf| - 1);
      IssuedStraight(off, buf);
      WrittenStraight(d, data, off, buf);
      TakesStraight(d, data, off, buf);
      NandWrite(off, buf);
      if verify { ok := NandVerify(off, buf); }
    }

    // Byte `j` of the data is not 0xff, and in the page of byte `k` or a later one of its block.
    ghost predicate Later(off: nat, buf: seq<Byte>, k: nat, j: nat)
      requires d.Ok() && 0 < page && k < |buf|
    {
      j < |buf| && buf[j] != FF && Down(Phys(d, off, k), page) <= Phys(d, off, j) < d.endOf(Phys(d, off, k))
    }

    /** Byte `k` of the data is programmed. */
    ghost predicate Kept(off: nat, buf: seq<Byte>, drop: bool, k: nat)
      requires d.Ok() && 0 < page && k < |buf|
    {
      !drop || exists j: nat :: Later(off, buf, k, j)
    }

    // Byte `k` of the data is programmed, at address `a`.
    ghost predicate Aimed(off: nat, buf: seq<Byte>, drop: bool, k: nat, a: nat)
      requires d.Ok() && 0 < page
    {
      k < |buf| && Kept(off, buf, drop, k) && Phys(d, off, k) == a
    }

    ghost predicate AimedBelow(off: nat, buf: seq<Byte>, drop: bool, n: nat, a: nat)
      requires d.Ok() && 0 < page
    {
      exists k: nat :: k < n && Aimed(off, buf, drop, k, a)
    }

    /** The calls since `before` program exactly the bytes among the first `n` that are kept. */
    ghost predicate Issued(before: seq<Call>, off: nat, buf: seq<Byte>, drop: bool, n: nat)
      requires d.Ok() && 0 < page
      reads this
    {
      before <= calls && IssuedIn(calls, |before|, off, buf, drop, n)
    }

    ghost predicate IssuedIn(calls: seq<Call>, from: nat, off: nat, buf: seq<Byte>, drop: bool, n: nat)
      requires d.Ok() && 0 < page
    {
      forall a: nat :: InCalls(calls, from, a) <==> AimedBelow(off, buf, drop, n, a)
    }

    // A part was written: `n` bytes, of which the last piece did not read back.
    ghost predicate PartWritten(was: seq<Byte>, before: seq<Call>, off: nat, buf: seq<Byte>, drop: bool, done: nat, n: nat)
      requires d.Ok() && 0 < page
      reads this
    {
      done <= n <= |buf| && Written(d, was, off, buf, n, data) && Issued(before, off, buf, drop, n)
    }

    lemma IssuedStraight(off: nat, buf: seq<Byte>)
      requires Valid() && buf != [] && Straight(d, off, |buf|)
      ensures IssuedIn(calls + [Call(off, buf)], |calls|, off, buf, false, |buf|)
    {
      forall a: nat ensures InCalls(calls + [Call(off, buf)], |calls|, a) <==> AimedBelow(off, buf, false, |buf|, a) {
        OneMoreCall(calls, Call(off, buf), |calls|, a);
        if off <= a < off + |buf| { assert Aimed(off, buf, false, a - off, a); }
      }
    }

    /** A byte that is not kept is not programmed: no page of the 0xff tail of a block is. */
    lemma NotProgrammed(before: seq<Call>, off: nat, buf: seq<Byte>, drop: bool, n: nat, k: nat)
      requires Valid() && Issued(before, off, buf, drop, n) && k < |buf| && !Kept(off, buf, drop, k)
      ensures !InCalls(calls, |before|, Phys(d, off, k))
    {
      var a := Phys(d, off, k);
      if AimedBelow(off, buf, drop, n, a) {
        var j: nat :| j < n && Aimed(off, buf, drop, j, a);
        SamePlace(off, j, k);
      }
    }

    lemma SamePlace(off: nat, j: nat, k: nat)
      requires d.Ok() && Phys(d, off, j) == Phys(d, off, k)
      ensures j == k
    {
      if j < k { PhysIncreasing(d, off, j, k); }
      if k < j { PhysIncreasing(d, off, k, j); }
    }

    // One more piece of which the first `t` bytes are programmed.
    lemma PieceIssued(cs: seq<Call>, from: nat, off: nat, buf: seq<Byte>, drop: bool, done: nat, at: nat, c: nat, t: nat)
      requires Valid() && Paged() && WholePiece(off, buf, done, at, c) && from <= |cs| && t <= c
      requires IssuedIn(cs, from, off, buf, drop, done)
      requires CutAt(buf[done..done + c], drop, t)
      ensures IssuedIn(if t == 0 then cs else cs + [Call(at, buf[done..done + c][..t])], from, off, buf, drop, done + c)
    {
      var call := Call(at, buf[done..done + c][..t]);
      var cs' := if t == 0 then cs else cs + [call];
      forall a: nat ensures InCalls(cs', from, a) <==> AimedBelow(off, buf, drop, done + c, a) {
        OneMoreCall(cs, call, from, a);
        PieceAimed(off, buf, drop, done, at, c, t, a);
      }
    }

    lemma PieceAimed(off: nat, buf: seq<Byte>, drop: bool, done: nat, at: nat, c: nat, t: nat, a: nat)
      requires Valid() && Paged() && WholePiece(off, buf, done, at, c) && t <= c
      requires CutAt(buf[done..done + c], drop, t)
      ensures AimedBelow(off, buf, drop, done + c, a) <==> AimedBelow(off, buf, drop, done, a) || at <= a < at + t
    {
      if AimedBelow(off, buf, drop, done + c, a) {
        var k: nat :| k < done + c && Aimed(off, buf, drop, k, a);
        if done <= k {
          KeptPiece(off, buf, done, at, c, drop, k);
          PieceRange(off, buf, done, at, c, k);
        }
      }
      if at <= a < at + t {
        var k := done + (a - at);
        KeptPiece(off, buf, done, at, c, drop, k);
        PieceRange(off, buf, done, at, c, k);
        assert Aimed(off, buf, drop, k, a);
      }
    }

    /** The old contents can take the bytes from `i` to `j` that are programmed. */
    ghost predicate KeptTakes(was: seq<Byte>, off: nat, buf: seq<Byte>, drop: bool, i: nat, j: nat)
      requires d.Ok() && 0 < page && j <= |buf|
    {
      forall k :: i <= k < j && Kept(off, buf, drop, k) ==> TakesAt(d, was, off, buf, k)
    }

    // A piece as the loop makes them: to the end of the block or of the data.
    ghost predicate WholePiece(off: nat, buf: seq<Byte>, done: nat, at: nat, c: nat)
      requires d.Ok() && 0 < page
    {
      && Ahead(d, off, done, at) && at < d.size && !d.IsBad(at) && at % page == 0
      && 0 < c <= d.endOf(at) - at && done + c <= |buf| && (c == d.endOf(at) - at || done + c == |buf|)
    }

    // The bytes of a block from a page on are in one piece.
    lemma InPiece(off: nat, buf: seq<Byte>, done: nat, at: nat, c: nat, k: nat, j: nat)
      requires Valid() && Paged() && WholePiece(off, buf, done, at, c) && done <= k < done + c
      ensures Later(off, buf, k, j) <==>
              done + Down(k - done, page) <= j < done + c && buf[j] != FF
    {
      AheadAt(d, off, done, at, k - done);
      DownShift(at, k - done, page);
      PieceRange(off, buf, done, at, c, j);
    }

    lemma PieceRange(off: nat, buf: seq<Byte>, done: nat, at: nat, c: nat, j: nat)
      requires Valid() && WholePiece(off, buf, done, at, c)
      ensures j < done ==> Phys(d, off, j) < at
      ensures done <= j < done + c ==> Phys(d, off, j) == at + (j - done)
      ensures done + c <= j < |buf| ==> d.endOf(at) <= Phys(d, off, j)
    {
      AheadAt(d, off, done, at, 0);
      AheadAt(d, off, done, at, c - 1);
      if j < done { PhysIncreasing(d, off, j, done); }
      if done <= j < done + c { AheadAt(d, off, done, at, j - done); }
      if done + c <= j < |buf| { PhysIncreasing(d, off, done + (c - 1), j); }
    }

    static lemma DownShift(at: nat, i: nat, page: nat)
      requires 0 < page && at % page == 0
      ensures Down(at + i, page) == at + Down(i, page)
    {
      DivDown(at, page);
      DivDown(i, page);
      assert at + i == (at / page + i / page) * page + i % page;
      DivUnique(at / page + i / page, i % page, page);
    }

    lemma KeptPiece(off: nat, buf: seq<Byte>, done: nat, at: nat, c: nat, drop: bool, k: nat)
      requires Valid() && Paged() && WholePiece(off, buf, done, at, c) && done <= k < done + c
      ensures Kept(off, buf, drop, k) <==> KeptIn(buf[done..done + c], drop, k - done)
    {
      var chunk, a := buf[done..done + c], Down(k - done, page);
      if j: nat :| Later(off, buf, k, j) {
        InPiece(off, buf, done, at, c, k, j);
        assert chunk[a..][j - done - a] == buf[j];
      }
      if !AllFF(chunk[a..]) {
        var x :| 0 <= x < c - a && chunk[a..][x] != FF;
        assert buf[done + a + x] == chunk[a..][x];
        InPiece(off, buf, done, at, c, k, done + a + x);
      }
    }

    // The next piece, in a good block.
    method WriteNext(ghost was: seq<Byte>, ghost start: seq<Call>, ghost off: nat, buf: seq<Byte>, done: nat, at: nat,
                     c: nat, drop: bool, verify: bool) returns (ok: bool)
      requires Valid() && Paged() && Written(d, was, off, buf, done, data) && WholePiece(off, buf, done, at, c)
      requires Issued(start, off, buf, drop, done) && Trimmed(start, drop)
      modifies this
      ensures Valid() && Written(d, was, off, buf, done + c, data)
      ensures Issued(start, off, buf, drop, done + c) && Trimmed(start, drop)
      ensures ok <==> !verify || KeptTakes(was, off, buf, drop, done, done + c)
    {
      WrittenPiece(d, was, off, buf, done, data, at, c);
      ghost var before, t := data, 0;
      ok, t := WritePiece(at, buf[done..done + c], drop, verify);
      PieceTaken(was, off, buf, done, at, c, drop, before);
      PieceIssued(old(calls), |start|, off, buf, drop, done, at, c, t);
    }

    lemma PieceTaken(was: seq<Byte>, off: nat, buf: seq<Byte>, done: nat, at: nat, c: nat, drop: bool, before: seq<Byte>)
      requires Valid() && Paged() && Written(d, was, off, buf, done, before) && WholePiece(off, buf, done, at, c)
      ensures KeptThere(Program(before, at, buf[done..done + c]), at, buf[done..done + c], drop) <==>
              KeptTakes(was, off, buf, drop, done, done + c)
    {
      var chunk := buf[done..done + c];
      var after := Program(before, at, chunk);
      forall k | done <= k < done + c
        ensures Kept(off, buf, drop, k) <==> KeptIn(chunk, drop, k - done)
        ensures TakesAt(d, was, off, buf, k) <==> after[at + (k - done)] == chunk[k - done]
      {
        KeptPiece(off, buf, done, at, c, drop, k);
        ByteTakes(d, was, off, buf, done, before, at, c, k);
      }
      if KeptTakes(was, off, buf, drop, done, done + c) {
        forall i | 0 <= i < c && KeptIn(chunk, drop, i) ensures after[at + i] == chunk[i] {
          assert Kept(off, buf, drop, done + i);
        }
      }
      if KeptThere(after, at, chunk, drop) {
        forall k | done <= k < done + c && Kept(off, buf, drop, k) ensures TakesAt(d, was, off, buf, k) {
          assert KeptIn(chunk, drop, k - done);
        }
      }
    }

    // Block by block.
    method WriteBlocks(off: nat, buf: seq<Byte>, drop: bool, verify: bool) returns (ret: int, length: nat)
      requires Valid() && Paged() && Fits(d, off, |buf|) && off % page == 0
      modifies this
      ensures Valid() && (ret == 0 || ret == -EIO)
      ensures ret == 0 ==> Written(d, old(data), off, buf, |buf|, data) && length == |buf|
      ensures ret == 0 ==> Issued(old(calls), off, buf, drop, |buf|)
      ensures ret == 0 && verify ==> KeptTakes(old(data), off, buf, drop, 0, |buf|)
      ensures ret == -EIO ==> verify && !KeptTakes(old(data), off, buf, drop, 0, |buf|)
      ensures ret == -EIO ==>
                length <= |buf| && exists n :: PartWritten(old(data), old(calls), off, buf, drop, length, n)
      ensures Trimmed(old(calls), drop)
    {
      ghost var was := data;
      var done: nat, at: nat := 0, off;
      WrittenNothing(d, was, off, buf);
      var ok := true;
      while done < |buf|
        invariant Valid() && Going(was, old(calls), off, buf, done, at, drop, verify) && Trimmed(old(calls), drop)
        decreases d.size - at, |buf| - done
      {
        Room(off, |buf|, done, at);
        ok, done, at := WriteStep(was, old(calls), off, buf, done, at, drop, verify);
        if !ok { return -EIO, done; }
      }
      return 0, |buf|;
    }

    // The first `done` bytes are written, and the next one goes to `at` or behind it.
    ghost predicate Going(was: seq<Byte>, start: seq<Call>, off: nat, buf: seq<Byte>, done: nat, at: nat,
                          drop: bool, verify: bool)
      requires Valid()
      reads this
    {
      && PartWritten(was, start, off, buf, drop, done, done)
      && (done < |buf| ==> Ahead(d, off, done, at) && at % page == 0)
      && (verify ==> KeptTakes(was, off, buf, drop, 0, done))
    }

    // One block: skipped, or written as far as there is data.
    method WriteStep(ghost was: seq<Byte>, ghost start: seq<Call>, ghost off: nat, buf: seq<Byte>, done: nat, at: nat,
                     drop: bool, verify: bool) returns (ok: bool, done': nat, at': nat)
      requires Valid() && Paged() && Fits(d, off, |buf|) && done < |buf| && at < d.size
      requires Going(was, start, off, buf, done, at, drop, verify) && Trimmed(start, drop)
      modifies this
      ensures Valid() && Trimmed(start, drop) && done <= done'
      ensures ok ==> at < at' && Going(was, start, off, buf, done', at', drop, verify)
      ensures !ok ==> verify && done' == done && !KeptTakes(was, off, buf, drop, 0, |buf|)
      ensures !ok ==> exists n :: PartWritten(was, start, off, buf, drop, done, n)
    {
      var end := d.endOf(at);
      if d.IsBad(at) {
        AheadSkip(d, off, done, at);
        return true, done, end;
      }
      var c := if |buf| - done < end - at then |buf| - done else end - at;
      if c == end - at { AheadPiece(d, off, done, at, c); }
      ok := WriteNext(was, start, off, buf, done, at, c, drop, verify);
      KeptTakesMore(was, off, buf, drop, done, done + c);
      assert PartWritten(was, start, off, buf, drop, done, done + c);
      if !ok { return false, done, at; }
      done', at' := done + c, at + c;
    }

    lemma KeptTakesMore(was: seq<Byte>, off: nat, buf: seq<Byte>, drop: bool, i: nat, j: nat)
      requires d.Ok() && 0 < page && i <= j <= |buf|
      ensures KeptTakes(was, off, buf, drop, 0, i) && KeptTakes(was, off, buf, drop, i, j) ==>
                KeptTakes(was, off, buf, drop, 0, j)
      ensures !KeptTakes(was, off, buf, drop, i, j) ==> !KeptTakes(was, off, buf, drop, 0, |buf|)
    {
    }

    // There is flash left while there are bytes left.
    lemma Room(off: nat, n: nat, done: nat, at: nat)
      requires d.Ok() && Fits(d, off, n) && done < n && Ahead(d, off, done, at)
      ensures at < d.size
    {
      assert Phys(d, at, n - 1 - done) == Phys(d, off, done + (n - 1 - done));
    }

    lemma NoRoom(off: nat, n: nat, done: nat, at: nat)
      requires d.Ok() && done < n && Ahead(d, off, done, at) && d.size <= at
      ensures !Fits(d, off, n)
    {
      if Fits(d, off, n) { Room(off, n, done, at); }
    }

    /** nand_read_skip_bad() */
    method ReadSkipBad(off: nat, n: nat, lim: nat) returns (ret: int, r: seq<Byte>, actual: nat)
      requires Valid()
      ensures ret == 0 || ret == -EINVAL || ret == -EFBIG
      ensures ret == -EINVAL <==> off % page != 0 || !Fits(d, off, n)
      ensures ret == -EFBIG <==> off % page == 0 && Fits(d, off, n) && off + lim < End(off, n)
      ensures ret != -EINVAL ==> off + actual == End(off, n)
      ensures ret == 0 ==> Reads(d, data, off, n, r)
    {
      actual, r := 0, [];
      if off % page != 0 { return -EINVAL, [], actual; }
      var skip;
      skip, actual := CheckSkipLen(off, n);
      if skip < 0 { return -EINVAL, [], actual; }
      if lim < actual { return -EFBIG, [], actual; }
      if skip == 0 {
        if n == 0 { return 0, [], actual; }
        PhysFits(d, off, n, n - 1);
        r := data[off..off + n];
        assert forall k :: 0 <= k < n ==> ReadAt(d, data, off, r, k);
        return 0, r, actual;
      }
      r := ReadBlocks(off, n);
      ret := 0;
    }

    // Block by block.
    method ReadBlocks(off: nat, n: nat) returns (r: seq<Byte>)
      requires Valid() && Fits(d, off, n)
      ensures Reads(d, data, off, n, r)
    {
      r := [];
      var at: nat := off;
      while |r| < n
        invariant |r| <= n && Reads(d, data, off, |r|, r)
        invariant |r| < n ==> Ahead(d, off, |r|, at)
        decreases d.size - at, n - |r|
      {
        Room(off, n, |r|, at);
        var end := d.endOf(at);
        if d.IsBad(at) {
          AheadSkip(d, off, |r|, at);
          at := end;
          continue;
        }
        var c := if n - |r| < end - at then n - |r| else end - at;
        ReadsPiece(d, data, off, |r|, r, at, c);
        if c == end - at { AheadPiece(d, off, |r|, at, c); }
        r := r + data[at..at + c];
        at := at + c;
      }
    }

    /** What was written and verified is what is read, whatever blocks are bad. */
    method WriteThenRead(off: nat, buf: seq<Byte>, lim: nat) returns (ret: int, r: seq<Byte>)
      requires Valid() && Paged()
      modifies this
      ensures Valid() && (ret == 0 ==> r == buf)
      ensures ret == 0 <==> && off % page == 0 && Fits(d, off, |buf|) && End(off, |buf|) <= off + lim
                            && Takes(d, old(data), off, buf)
    {
      ghost var was := data;
      var length, actual;
      r := [];
      ret, length, actual := WriteSkipBad(off, buf, lim, false, true);
      if ret != 0 { return; }
      ret, r, actual := ReadSkipBad(off, |buf|, lim);
      RoundTripIff(d, was, off, buf, data, r);
    }

    // mtd_erase()
    method EraseBlock(at: nat)
      requires Valid() && at < d.size
      modifies this`data
      ensures Valid() && forall a :: 0 <= a < d.size ==> data[a] == if at <= a < d.endOf(at) then FF else old(data)[a]
    {
      var end := d.endOf(at);
      data := seq(|data|, a requires 0 <= a < |data| reads this => if at <= a < end then FF else data[a]);
    }

    /** nand_erase_opts(): with `spread`, bad blocks do not count towards the length. */
    method EraseOpts(off: nat, length: nat, spread: bool) returns (ret: int, ghost to: nat)
      requires Valid() && 0 < block && d == Geometry(block, d.size, d.bad)
      modifies this`data
      ensures Valid() && (ret == 0 || ret == -1)
      ensures off % block != 0 ==> ret == -1 && data == old(data)
      // the good blocks of one stretch are erased, and nothing else
      ensures off % block == 0 ==> off <= to && Erased(d, old(data), off, to, data)
      ensures ret == 0 && !spread ==> length <= to - off < length + block
      ensures ret == 0 && spread && 0 < length ==> Phys(d, off, length - 1) < to
      // it fails exactly when the device ends before
      ensures off % block == 0 && spread ==> (ret == 0 <==> Fits(d, off, length))
      ensures off % block == 0 && !spread ==> (ret == 0 <==> length == 0 || off + length <= d.size)
    {
      to := off;
      if off % block != 0 { return -1, to; }
      var n, addr: nat := 0, off;
      var need := BlocksFor(length);
      ghost var bytes: nat := 0;
      while n < need
        invariant Valid() && to == addr && off <= addr && addr % block == 0 && Erased(d, old(data), off, addr, data)
        invariant bytes == n * block && n <= need && Counted(off, bytes, addr, spread)
        invariant off < addr ==> addr <= d.size
        decreases need - n, d.size - addr
      {
        MulGap(n, need, block);
        if d.size <= addr {
          if spread { NoRoom(off, length, bytes, addr); }
          return -1, to;
        }
        var counts;
        counts, bytes := EraseNext(old(data), off, bytes, addr, spread);
        assert (n + 1) * block == n * block + block;
        if counts { n := n + 1; }
        addr := addr + block;
        to := addr;
      }
      ret := 0;
    }

    // One block: skipped or erased; says whether it counts.
    method EraseNext(ghost was: seq<Byte>, ghost off: nat, ghost bytes: nat, addr: nat, spread: bool)
      returns (counts: bool, ghost bytes': nat)
      requires Valid() && 0 < block && d == Geometry(block, d.size, d.bad) && addr % block == 0
      requires off <= addr < d.size && Erased(d, was, off, addr, data) && Counted(off, bytes, addr, spread)
      modifies this`data
      ensures Valid() && (addr + block) % block == 0 && Erased(d, was, off, addr + block, data)
      ensures addr + block <= d.size
      ensures bytes' == (if counts then bytes + block else bytes) && Counted(off, bytes', addr + block, spread)
    {
      BlockAt(addr);
      counts := !d.IsBad(addr) || !spread;
      bytes' := if counts then bytes + block else bytes;
      if d.IsBad(addr) {
        ErasedSkip(d, was, off, addr, data);
        if spread { AheadSkip(d, off, bytes, addr); }
      } else {
        if spread { PieceBefore(off, bytes, addr); AheadPiece(d, off, bytes, addr, block); }
        ghost var before := data;
        EraseBlock(addr);
        ErasedMore(d, was, off, addr, before, data);
      }
    }

    // `bytes` bytes have been dealt with up to `addr`: good ones, or all.
    ghost predicate Counted(off: nat, bytes: nat, addr: nat, spread: bool)
      requires d.Ok()
    {
      if spread then Ahead(d, off, bytes, addr) && Before(off, bytes, addr) else addr == off + bytes
    }

    // The length in blocks, rounded up.
    method BlocksFor(length: nat) returns (n: nat)
      requires 0 < block
      ensures length <= n * block < length + block
    {
      n := (length + block - 1) / block;
      DivDown(length + block - 1, block);
    }

    /** A spread erase, a verified write and a read with the same offset and size give the
        data back, for every map of bad blocks and all earlier contents, whenever the data
        has room. */
    method EraseWriteRead(off: nat, buf: seq<Byte>, lim: nat) returns (ret: int, r: seq<Byte>)
      requires Valid() && Paged() && 0 < block && d == Geometry(block, d.size, d.bad)
      requires off % block == 0 && off % page == 0
      requires Fits(d, off, |buf|) && End(off, |buf|) <= off + lim
      modifies this
      ensures Valid() && ret == 0 && r == buf
    {
      ghost var was, to := data, 0;
      ret, to := EraseOpts(off, |buf|, true);
      ErasedTakes(d, was, off, to, data, buf);
      ret, r := WriteThenRead(off, buf, lim);
    }

    ghost predicate Before(off: nat, n: nat, at: nat)
      requires d.Ok()
    {
      forall k :: 0 <= k < n ==> Phys(d, off, k) < at
    }

    lemma PieceBefore(off: nat, n: nat, at: nat)
      requires d.Ok() && Before(off, n, at) && Ahead(d, off, n, at) && at < d.size && !d.IsBad(at)
      ensures Before(off, n + (d.endOf(at) - at), d.endOf(at))
    {
      forall k | 0 <= k < n + (d.endOf(at) - at) ensures Phys(d, off, k) < d.endOf(at) {
        if n <= k { AheadAt(d, off, n, at, k - n); }
      }
    }

    lemma BlockAt(at: nat)
      requires 0 < block && d == Geometry(block, d.size, d.bad) && at % block == 0
      ensures d.endOf(at) == at + block && (at + block) % block == 0
    {
      DivDown(at, block);
      assert (at / block + 1) * block == at + block;
      DivUnique(at / block + 1, 0, block);
    }
  }

  /** The same data written to two devices with the same contents, plainly and with the pages of
      0xff left out: the same result and the same flash. */
  method PlainAndTrimmed(f: Flash, g: Flash, off: nat, buf: seq<Byte>, lim: nat) returns (plain: int, trimmed: int)
    requires f != g && f.Valid() && g.Valid() && f.Paged() && g.Paged()
    requires f.d == g.d && f.page == g.page && f.data == g.data
    modifies f, g
    ensures plain == trimmed && f.data == g.data
    ensures g.Trimmed(old(g.calls), true)
    ensures plain == 0 ==> f.Issued(old(f.calls), off, buf, false, |buf|) && g.Issued(old(g.calls), off, buf, true, |buf|)
  {
    ghost var was := f.data;
    var n, m;
    plain, n, m := f.WriteSkipBad(off, buf, lim, false, false);
    trimmed, n, m := g.WriteSkipBad(off, buf, lim, true, false);
    if plain == 0 { WrittenUnique(f.d, was, off, buf, |buf|, f.data, g.data); }
  }

  lemma GeometryPaged(block: nat, page: nat, size: nat, bad: set<nat>)
    requires 0 < page && 0 < block && block % page == 0 && size % block == 0
    ensures var d := Geometry(block, size, bad);
            && (forall x: nat :: x < d.size ==> d.endOf(x) % page == 0)
            && (forall x: nat, y: nat :: x <= y < d.endOf(x) && x < d.size ==> d.endOf(y) == d.endOf(x))
  {
    var d := Geometry(block, size, bad);
    forall x: nat | x < d.size ensures d.endOf(x) % page == 0 { EndPaged(x, block, page); }
    forall x: nat, y: nat | x <= y < d.endOf(x) && x < d.size ensures d.endOf(y) == d.endOf(x) {
      DivDown(x, block);
      DivUnique(x / block, y - Down(x, block), block);
      DivDown(y, block);
    }
  }

  lemma EndPaged(x: nat, block: nat, page: nat)
    requires 0 < page && 0 < block && block % page == 0
    ensures (Down(x, block) + block) % page == 0
  {
    DivDown(x, block);
    DivDown(block, page);
    var q, r := x / block + 1, block / page;
    assert Down(x, block) + block == q * block == (q * r) * page;
    DivUnique(q * r, 0, page);
  }

  lemma ErasedSkip(d: Dev, was: seq<Byte>, off: nat, at: nat, data: seq<Byte>)
    requires d.Ok() && at < d.size && d.IsBad(at) && Erased(d, was, off, at, data)
    ensures Erased(d, was, off, d.endOf(at), data)
  {
    forall a | at <= a < d.endOf(at) ensures d.IsBad(a) { assert d.blockOf(a) == d.blockOf(at); }
  }

  lemma ErasedMore(d: Dev, was: seq<Byte>, off: nat, at: nat, data: seq<Byte>, data': seq<Byte>)
    requires d.Ok() && off <= at < d.size && !d.IsBad(at) && Erased(d, was, off, at, data) && |data'| == d.size
    requires forall a :: 0 <= a < d.size ==> data'[a] == if at <= a < d.endOf(at) then FF else data[a]
    ensures Erased(d, was, off, d.endOf(at), data')
  {
    forall a | at <= a < d.endOf(at) ensures !d.IsBad(a) { assert d.blockOf(a) == d.blockOf(at); }
  }
}
