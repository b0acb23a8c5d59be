/** Writing and verifying a GUID partition table: gpt_fill_header(), gpt_fill_pte(),
    write_gpt_table(), is_gpt_valid() and gpt_verify_partitions() of disk/part_efi.c.

    Checksums are arbitrary functions of what they cover.  Block numbers wrap around at `word`,
    2^32 or 2^64 as the build has it. */
module Gpt {

  const U32: nat := 0x1_0000_0000
  const U64: nat := 0x1_0000_0000_0000_0000
  const NUM_ENTRIES: nat := 128
  const FIRST_USABLE: nat := 34

  datatype Partition = Partition(start: nat, size: nat, name: string)

  datatype Entry = Entry(first: nat, last: nat, name: string)

  datatype Header = Header(good: bool, my: nat, alternate: nat, first: nat, last: nat, entries: nat,
                           entriesCrc: nat, crc: nat)

  /** What a block of the disk holds: block `k` of an entry array, for one. */
  datatype Block = Unknown | Mbr | Head(h: Header) | Part(es: seq<Entry>, k: nat)

  /** The machine word for block numbers, the two checksums, the blocks that the entry array
      takes, and the blocks that cannot be written. */
  datatype Env = Env(word: nat, headerCrc: Header -> nat, entriesCrc: seq<Entry> -> nat, entryBlocks: nat,
                     broken: set<nat>) {
    predicate Ok() {
      (word == U32 || word == U64) && 0 < entryBlocks <= 32
    }
  }

  // ------------------------------------------------------------------ placing the partitions

  /** Where partition `p` starts if `offset` is the next free block. */
  function Base(p: Partition, offset: nat): nat {
    if p.start != 0 then p.start else offset
  }

  // Subtraction and addition on unsigned words.
  function Sub(word: nat, a: nat, b: nat): nat
    requires a < word && b < word
  {
    if b <= a then a - b else a + word - b
  }

  function Wrap(word: nat, a: nat): nat
    requires a < 2 * word
  {
    if a < word then a else a - word
  }

  predicate Parts(word: nat, ps: seq<Partition>) {
    |ps| <= NUM_ENTRIES && forall i :: 0 <= i < |ps| ==> ps[i].start < word && ps[i].size < word
  }

  /** The next free block behind each partition, as the loop computes it; None if it stops
      with an error. */
  function Next(word: nat, last: nat, p: Partition, offset: nat): (r: int)
    requires p.start < word && p.size < word && offset < word
    ensures -1 <= r < word
  {
    if p.start != 0 && p.start < offset then -1
    else
      var next := Wrap(word, Base(p, offset) + p.size);
      if last <= next then -1 else next
  }

  /** The partitions from number `i` on fit behind `offset`; the entries go there. */
  function Place(word: nat, last: nat, ps: seq<Partition>, i: nat, offset: nat): (r: (bool, seq<Entry>))
    requires Parts(word, ps) && i <= |ps| && offset < word && last < word
    ensures r.0 ==> |r.1| == |ps| - i
    decreases |ps| - i
  {
    if i == |ps| then (true, [])
    else
      var p := ps[i];
      var next := Next(word, last, p, offset);
      if next < 0 then (false, [])
      else
        var end := if i == |ps| - 1 && p.size == 0 then last else Sub(word, next, 1);
        var rest := Place(word, last, ps, i + 1, next);
        (rest.0, [Entry(Base(p, offset), end, p.name)] + rest.1)
  }

  /** gpt_fill_pte(): the loop over the partitions. */
  method FillPte(word: nat, last: nat, ps: seq<Partition>) returns (ret: int, es: seq<Entry>)
    requires FIRST_USABLE < word && Parts(word, ps) && last < word
    ensures ret == 0 || ret == -1
    ensures ret == 0 <==> Place(word, last, ps, 0, FIRST_USABLE).0
    ensures ret == 0 ==> es == Place(word, last, ps, 0, FIRST_USABLE).1
  {
    var offset: nat := FIRST_USABLE;
    es := [];
    var i := 0;
    while i < |ps|
      invariant 0 <= i <= |ps| && offset < word
      invariant Goes(word, last, ps, i, offset, es)
    {
      ghost var at, before := offset, es;
      var start := ps[i].start;
      if start != 0 && start < offset { return -1, es; }
      var first;
      if start != 0 {
        first := start;
        offset := Wrap(word, start + ps[i].size);
      } else {
        first := offset;
        offset := Wrap(word, offset + ps[i].size);
      }
      if last <= offset { return -1, es; }
      var end := if i == |ps| - 1 && ps[i].size == 0 then last else Sub(word, offset, 1);
      es := es + [Entry(first, end, ps[i].name)];
      i := i + 1;
    }
    ret := 0;
  }

  // The entries so far, followed by those still to come.
  ghost predicate Goes(word: nat, last: nat, ps: seq<Partition>, i: nat, offset: nat, es: seq<Entry>)
    requires FIRST_USABLE < word && Parts(word, ps) && i <= |ps| && offset < word && last < word
  {
    var (all, rest) := (Place(word, last, ps, 0, FIRST_USABLE), Place(word, last, ps, i, offset));
    all.0 == rest.0 && (all.0 ==> all.1 == es + rest.1)
  }

  /** The number of blocks of an entry. */
  function Length(e: Entry): int { e.last - e.first + 1 }

  /** A layout as it should be: in order, disjoint, inside first..last, with the sizes asked
      for, an empty last one extended to the end. */
  predicate Sound(ps: seq<Partition>, i: nat, es: seq<Entry>, from: nat, last: nat)
    requires i <= |ps| && |es| == |ps| - i
    decreases |es|
  {
    es == [] ||
    (&& from <= es[0].first && es[0].last <= last && es[0].name == ps[i].name
     && (ps[i].start != 0 ==> es[0].first == ps[i].start)
     && Length(es[0]) == (if i == |ps| - 1 && ps[i].size == 0 then last - es[0].first + 1 else ps[i].size)
     && es[0].first <= es[0].last + 1
     && (i == |ps| - 1 && ps[i].size == 0 ==> es[0].first < last)
     && Sound(ps, i + 1, es[1..], es[0].last + 1, last))
  }

  /** No sum of a start and a size wraps around. */
  predicate NoWrap(word: nat, last: nat, ps: seq<Partition>, i: nat, offset: nat)
    requires Parts(word, ps) && i <= |ps| && offset < word
    decreases |ps| - i
  {
    i == |ps| ||
    (&& Base(ps[i], offset) + ps[i].size < word
     && NoWrap(word, last, ps, i + 1, Base(ps[i], offset) + ps[i].size))
  }

  /** An accepted layout is sound exactly when nothing wrapped around. */
  lemma {:induction false} PlacedSoundIff(word: nat, last: nat, ps: seq<Partition>, i: nat, offset: nat)
    requires Parts(word, ps) && i <= |ps| && 0 < offset < word && last < word - 1
    requires Place(word, last, ps, i, offset).0
    ensures Sound(ps, i, Place(word, last, ps, i, offset).1, offset, last) <==> NoWrap(word, last, ps, i, offset)
    decreases |ps| - i
  {
    if i < |ps| {
      var p := ps[i];
      var next := Next(word, last, p, offset);
      var es := Place(word, last, ps, i, offset).1;
      assert es[1..] == Place(word, last, ps, i + 1, next).1;
      if Base(p, offset) + p.size < word {
        PlacedSoundIff(word, last, ps, i + 1, next);
        if i == |ps| - 1 {
          assert es[1..] == [];
        }
      }
    }
  }

  // ------------------------------------------------------------------ headers

  /** gpt_fill_header(): the primary header for a disk of `lba` blocks. */
  function PrimaryHeader(word: nat, lba: nat): Header
    requires FIRST_USABLE <= lba < word
  {
    Header(true, 1, lba - 1, FIRST_USABLE, lba - 34, 2, 0, 0)
  }

  function Sealed(env: Env, h: Header): Header {
    h.(crc := env.headerCrc(h.(crc := 0)))
  }

  // prepare_backup_gpt_header()
  function BackupHeader(env: Env, h: Header): Header {
    Sealed(env, h.(my := h.alternate, alternate := h.my, entries := h.last + 1))
  }

  /** The disk holds a header at `at` and, where it says, the entries `es`, with checksums that
      agree. */
  ghost predicate Holds(env: Env, blocks: seq<Block>, at: nat, es: seq<Entry>) {
    && at < |blocks| && blocks[at].Head?
    && var h := blocks[at].h;
       && h.good && h.crc == env.headerCrc(h.(crc := 0)) && h.my == at
       && h.first <= |blocks| && h.last <= |blocks|
       && h.entriesCrc == env.entriesCrc(es) && HoldsEntries(env, blocks, h.entries, es)
  }

  ghost predicate HoldsEntries(env: Env, blocks: seq<Block>, at: nat, es: seq<Entry>) {
    at + env.entryBlocks <= |blocks| && forall k :: 0 <= k < env.entryBlocks ==> blocks[at + k] == Part(es, k)
  }

  /** The layout of the whole disk: both copies of the table are there, they say the same with
      the two header locations exchanged, and no block of the tables is in a partition. */
  ghost predicate Partitioned(env: Env, blocks: seq<Block>, es: seq<Entry>) {
    && 34 <= |blocks| && Holds(env, blocks, 1, es) && Holds(env, blocks, |blocks| - 1, es)
    && var p, b := blocks[1].h, blocks[|blocks| - 1].h;
       && p.my == b.alternate == 1 && p.alternate == b.my == |blocks| - 1
       && p.first == b.first == FIRST_USABLE && p.last == b.last == |blocks| - 34
       && p.entries + env.entryBlocks <= p.first && p.last < b.entries && b.entries + env.entryBlocks < |blocks|
  }

  class Disk {
    const env: Env
    var blocks: seq<Block>

    constructor (env: Env, blocks: seq<Block>)
      ensures this.env == env && this.blocks == blocks
    {
      this.env, this.blocks := env, blocks;
    }

    // block_write() of one block
    method Put(at: nat, b: Block) returns (ok: bool)
      modifies this
      ensures ok <==> at < |blocks| && at !in env.broken
      ensures |blocks| == |old(blocks)|
      ensures blocks == if ok then old(blocks)[at := b] else old(blocks)
    {
      ok := at < |blocks| && at !in env.broken;
      if ok { blocks := blocks[at := b]; }
    }

    // block_write() of an entry array, up to a block that cannot be written
    method PutEntries(at: nat, es: seq<Entry>) returns (ok: bool)
      requires at + env.entryBlocks <= |blocks|
      modifies this
      ensures ok <==> Intact(at, env.entryBlocks)
      ensures |blocks| == |old(blocks)|
      ensures ok ==> HoldsEntries(env, blocks, at, es)
      ensures forall a :: 0 <= a < |blocks| && !(at <= a < at + env.entryBlocks) ==> blocks[a] == old(blocks)[a]
    {
      var k := 0;
      while k < env.entryBlocks
        invariant 0 <= k <= env.entryBlocks && |blocks| == |old(blocks)| && Intact(at, k)
        invariant forall j :: 0 <= j < k ==> blocks[at + j] == Part(es, j)
        invariant forall a :: 0 <= a < |blocks| && !(at <= a < at + k) ==> blocks[a] == old(blocks)[a]
      {
        if at + k in env.broken { return false; }
        blocks := blocks[at + k := Part(es, k)];
        k := k + 1;
      }
      ok := true;
    }

    predicate Intact(at: nat, n: nat) { forall b :: b in env.broken ==> !(at <= b < at + n) }

    /** Every block of both tables can be written. */
    ghost predicate Writable()
      requires 34 <= |blocks|
      reads this
    {
      Intact(0, 2 + env.entryBlocks) && Intact(|blocks| - 33, env.entryBlocks) && |blocks| - 1 !in env.broken
    }

    /** write_gpt_table(), for a header as gpt_fill_header() makes it. */
    method WriteTable(h0: Header, es: seq<Entry>) returns (ret: int)
      requires env.Ok() && FIRST_USABLE <= |blocks| < env.word && h0 == PrimaryHeader(env.word, |blocks|)
      modifies this
      ensures |blocks| == |old(blocks)| && (ret == 0 || ret == -1)
      ensures ret == 0 <==> Writable()
      // done: both copies are there, where they do not overlap
      ensures ret == 0 && env.entryBlocks < h0.last ==> Partitioned(env, blocks, es)
      // outside the tables nothing is written
      ensures forall a :: FIRST_USABLE <= a <= |blocks| - 34 ==> blocks[a] == old(blocks)[a]
    {
      var h := Sealed(env, h0.(entriesCrc := env.entriesCrc(es)));
      var ok := WritePrimary(h, es);
      if !ok { return -1; }
      ok := WriteBackup(h, es);
      ret := if ok then 0 else -1;
    }

    // The protective MBR and the primary copy.
    method WritePrimary(h: Header, es: seq<Entry>) returns (ok: bool)
      requires env.Ok() && FIRST_USABLE <= |blocks|
      modifies this
      ensures |blocks| == |old(blocks)|
      ensures ok <==> Intact(0, 2 + env.entryBlocks)
      ensures ok ==> blocks[1] == Head(h) && HoldsEntries(env, blocks, 2, es)
      ensures forall a :: FIRST_USABLE <= a < |blocks| ==> blocks[a] == old(blocks)[a]
    {
      ok := Put(0, Mbr);
      if !ok { return; }
      ok := Put(1, Head(h));
      if !ok { return; }
      ok := PutEntries(2, es);
    }

    // The backup copy.
    method WriteBackup(h: Header, es: seq<Entry>) returns (ok: bool)
      requires env.Ok() && FIRST_USABLE <= |blocks| && h.last == |blocks| - 34 && h.alternate == |blocks| - 1
      modifies this
      ensures |blocks| == |old(blocks)|
      ensures ok <==> Intact(|blocks| - 33, env.entryBlocks) && |blocks| - 1 !in env.broken
      ensures ok ==> blocks[|blocks| - 1] == Head(BackupHeader(env, h)) && HoldsEntries(env, blocks, |blocks| - 33, es)
      ensures forall a :: 0 <= a <= |blocks| - 34 ==> blocks[a] == old(blocks)[a]
    {
      var b := BackupHeader(env, h);
      ok := PutEntries(h.last + 1, es);
      if !ok { return; }
      ok := Put(b.my, Head(b));
      assert ok ==> HoldsEntries(env, blocks, |blocks| - 33, es);
    }

    /** is_gpt_valid(): reads a header and its entries and checks them. */
    method IsGptValid(at: nat) returns (ok: bool, h: Header, es: seq<Entry>)
      requires env.Ok()
      ensures ok ==> Holds(env, blocks, at, es) && h == blocks[at].h
      ensures (exists es' :: Holds(env, blocks, at, es')) ==> ok
    {
      h, es := Header(false, 0, 0, 0, 0, 0, 0, 0), [];
      ok := at < |blocks| && blocks[at].Head?;
      if !ok { return; }
      h := blocks[at].h;
      ok := h.good && h.crc == env.headerCrc(h.(crc := 0)) && h.my == at && h.first <= |blocks| && h.last <= |blocks|;
      if !ok { return; }
      ok := h.entries + env.entryBlocks <= |blocks| && blocks[h.entries].Part?;
      forall es' | Holds(env, blocks, at, es') ensures ok && blocks[h.entries].es == es' {
        FirstEntry(env, blocks, at, es');
      }
      if !ok { return; }
      es := blocks[h.entries].es;
      var k := 0;
      while k < env.entryBlocks && ok
        invariant 0 <= k <= env.entryBlocks
        invariant ok ==> forall j :: 0 <= j < k ==> blocks[h.entries + j] == Part(es, j)
        invariant !ok ==> exists j :: 0 <= j < env.entryBlocks && blocks[h.entries + j] != Part(es, j)
        decreases env.entryBlocks - k, ok
      {
        if blocks[h.entries + k] != Part(es, k) { ok := false; } else { k := k + 1; }
      }
      ok := ok && env.entriesCrc(es) == h.entriesCrc;
    }

    /** gpt_restore(): header, entries, table. */
    method Restore(ps: seq<Partition>) returns (ret: int)
      requires env.Ok() && FIRST_USABLE <= |blocks| < env.word && Parts(env.word, ps)
      modifies this
      ensures |blocks| == |old(blocks)| && (ret == 0 || ret == -1)
      ensures ret == 0 <==> Place(env.word, |blocks| - 34, ps, 0, FIRST_USABLE).0 && Writable()
      ensures !Place(env.word, |blocks| - 34, ps, 0, FIRST_USABLE).0 ==> blocks == old(blocks)
      ensures forall a :: FIRST_USABLE <= a <= |blocks| - 34 ==> blocks[a] == old(blocks)[a]
      ensures ret == 0 && env.entryBlocks < |blocks| - 34 ==>
                Partitioned(env, blocks, Place(env.word, |blocks| - 34, ps, 0, FIRST_USABLE).1)
      ensures ret == 0 ==>
                (Sound(ps, 0, Place(env.word, |blocks| - 34, ps, 0, FIRST_USABLE).1, FIRST_USABLE, |blocks| - 34) <==>
                 NoWrap(env.word, |blocks| - 34, ps, 0, FIRST_USABLE))
    {
      var h := PrimaryHeader(env.word, |blocks|);
      var es;
      ret, es := FillPte(env.word, h.last, ps);
      if ret != 0 { return; }
      PlacedSoundIff(env.word, h.last, ps, 0, FIRST_USABLE);
      ret := WriteTable(h, es);
    }

    /** gpt_verify_partitions(): both copies valid, and names, sizes and given starts as asked. */
    method Verify(ps: seq<Partition>) returns (ret: int)
      requires env.Ok() && 0 < |blocks|
      ensures ret == 0 || ret == -1
      ensures ret == 0 ==> exists es :: Holds(env, blocks, |blocks| - 1, es) && Matches(ps, es, |ps|)
      ensures forall es :: Holds(env, blocks, 1, es) && Holds(env, blocks, |blocks| - 1, es) ==>
                (ret == 0 <==> Matches(ps, es, |ps|))
    {
      var ok, h, es := IsGptValid(1);
      if !ok { return -1; }
      ok, h, es := IsGptValid(|blocks| - 1);
      if !ok { return -1; }
      ghost var last := |blocks| - 1;
      FirstEntry(env, blocks, last, es);
      forall es' | Holds(env, blocks, last, es') ensures es' == es { FirstEntry(env, blocks, last, es'); }
      var i := 0;
      while i < |ps|
        invariant 0 <= i <= |ps| && Matches(ps, es, i)
      {
        if i == NUM_ENTRIES || !MatchesAt(ps[i], EntryAt(es, i)) { return -1; }
        i := i + 1;
      }
      ret := 0;
    }
  }

  lemma FirstEntry(env: Env, blocks: seq<Block>, at: nat, es: seq<Entry>)
    requires env.Ok() && Holds(env, blocks, at, es)
    ensures var at' := blocks[at].h.entries;
            at' + env.entryBlocks <= |blocks| && blocks[at'] == Part(es, 0)
  {
    assert blocks[blocks[at].h.entries + 0] == Part(es, 0);
  }

  /** The size of an entry as the check computes it: a u64. */
  function Size64(e: Entry): nat { Length(e) % U64 }

  predicate MatchesAt(p: Partition, e: Entry) {
    e.name == p.name && Size64(e) == p.size && (p.start != 0 ==> e.first == p.start)
  }

  // The array has room for more entries than are used; the others are all zero.
  function EntryAt(es: seq<Entry>, i: nat): Entry {
    if i < |es| then es[i] else Entry(0, 0, "")
  }

  predicate Matches(ps: seq<Partition>, es: seq<Entry>, n: nat)
    requires n <= |ps|
  {
    n <= NUM_ENTRIES && forall i :: 0 <= i < n ==> MatchesAt(ps[i], EntryAt(es, i))
  }

  /** A sound layout keeps the partitions apart, in order, and off the tables. */
  lemma {:induction false} SoundApart(ps: seq<Partition>, i: nat, es: seq<Entry>, from: nat, last: nat, j: nat, k: nat)
    requires i <= |ps| && |es| == |ps| - i && Sound(ps, i, es, from, last)
    requires j <= k < |es|
    ensures from <= es[j].first && es[j].last <= last
    ensures j < k ==> es[j].last < es[k].first
    decreases |es|
  {
    if 0 < j {
      SoundApart(ps, i + 1, es[1..], es[0].last + 1, last, j - 1, k - 1);
    } else if 0 < k {
      SoundApart(ps, i + 1, es[1..], es[0].last + 1, last, k - 1, k - 1);
    }
  }

  lemma {:induction false} SoundMatches(ps: seq<Partition>, i: nat, es: seq<Entry>, from: nat, last: nat, k: nat)
    requires i <= |ps| && |es| == |ps| - i && Sound(ps, i, es, from, last) && k < |es| && last < U64 - 1
    ensures MatchesAt(ps[i + k], es[k]) <==> !(i + k == |ps| - 1 && ps[i + k].size == 0)
    decreases |es|
  {
    if 0 < k { SoundMatches(ps, i + 1, es[1..], es[0].last + 1, last, k - 1); }
  }

  /** Partition `p` from `base` on ends at a block number that does not wrap around; with block
      numbers of 64 bits that does not matter to the check. */
  predicate EndsRight(word: nat, p: Partition, base: nat) {
    word == U64 || 1 <= base + p.size <= word
  }

  predicate AllEndRight(word: nat, ps: seq<Partition>, i: nat, offset: nat)
    requires Parts(word, ps) && i <= |ps| && offset < word
    decreases |ps| - i
  {
    i == |ps| ||
    (EndsRight(word, ps[i], Base(ps[i], offset))
     && AllEndRight(word, ps, i + 1, Wrap(word, Base(ps[i], offset) + ps[i].size)))
  }

  lemma PlacedOne(word: nat, last: nat, p: Partition, offset: nat, open: bool)
    requires (word == U32 || word == U64) && last < word - 1 && p.start < word && p.size < word && offset < word
    requires 0 <= Next(word, last, p, offset)
    ensures var next := Next(word, last, p, offset);
            var end := if open && p.size == 0 then last else Sub(word, next, 1);
            MatchesAt(p, Entry(Base(p, offset), end, p.name)) <==>
            !(open && p.size == 0) && EndsRight(word, p, Base(p, offset))
  {
  }

  predicate MatchesFrom(ps: seq<Partition>, i: nat, es: seq<Entry>)
    requires i <= |ps| && |es| == |ps| - i
  {
    forall k :: 0 <= k < |es| ==> MatchesAt(ps[i + k], es[k])
  }

  lemma MatchesTail(ps: seq<Partition>, i: nat, es: seq<Entry>)
    requires i < |ps| && |es| == |ps| - i
    ensures MatchesFrom(ps, i, es) <==> MatchesAt(ps[i], es[0]) && MatchesFrom(ps, i + 1, es[1..])
  {
    if MatchesFrom(ps, i, es) {
      assert MatchesAt(ps[i + 0], es[0]);
      forall k | 0 <= k < |es| - 1 ensures MatchesAt(ps[i + 1 + k], es[1..][k]) {
        assert MatchesAt(ps[i + (k + 1)], es[k + 1]);
      }
    }
    if MatchesAt(ps[i], es[0]) && MatchesFrom(ps, i + 1, es[1..]) {
      forall k | 0 <= k < |es| ensures MatchesAt(ps[i + k], es[k]) {
        if 0 < k { assert MatchesAt(ps[i + 1 + (k - 1)], es[1..][k - 1]); }
      }
    }
  }

  /** Accepted partitions pass the check against the same list exactly when the last one was
      given a size and, with block numbers of 32 bits, no end wraps around. */
  lemma {:induction false} PlacedMatchesIff(word: nat, last: nat, ps: seq<Partition>, i: nat, offset: nat)
    requires (word == U32 || word == U64) && Parts(word, ps) && i <= |ps| && offset < word && last < word - 1
    requires Place(word, last, ps, i, offset).0
    ensures MatchesFrom(ps, i, Place(word, last, ps, i, offset).1) <==>
            (i == |ps| || ps[|ps| - 1].size != 0) && AllEndRight(word, ps, i, offset)
    decreases |ps| - i
  {
    if i < |ps| {
      var next := Next(word, last, ps[i], offset);
      var es := Place(word, last, ps, i, offset).1;
      assert es[1..] == Place(word, last, ps, i + 1, next).1;
      PlacedMatchesIff(word, last, ps, i + 1, next);
      PlacedOne(word, last, ps[i], offset, i == |ps| - 1);
      MatchesTail(ps, i, es);
    }
  }

  /** What was written passes the check against the same partition list, unless the last
      partition was given no size, as the check takes the 0 literally, or an end wraps around
      in 32 bits. */
  method RestoreAndVerify(d: Disk, ps: seq<Partition>) returns (written: int, verified: int)
    requires d.env.Ok() && FIRST_USABLE <= |d.blocks| < d.env.word && Parts(d.env.word, ps)
    modifies d
    ensures written == 0 <==> Place(d.env.word, |old(d.blocks)| - 34, ps, 0, FIRST_USABLE).0 && old(d.Writable())
    ensures written == 0 && d.env.entryBlocks < |old(d.blocks)| - 34 ==>
              (verified == 0 <==>
               (ps == [] || ps[|ps| - 1].size != 0) && AllEndRight(d.env.word, ps, 0, FIRST_USABLE))
  {
    verified := -1;
    written := d.Restore(ps);
    if written != 0 { return; }
    verified := d.Verify(ps);
    ghost var es := Place(d.env.word, |d.blocks| - 34, ps, 0, FIRST_USABLE).1;
    if d.env.entryBlocks < |d.blocks| - 34 {
      assert Holds(d.env, d.blocks, 1, es);
      PlacedMatchesIff(d.env.word, |d.blocks| - 34, ps, 0, FIRST_USABLE);
      MatchesWhole(ps, es);
    }
  }

  lemma MatchesWhole(ps: seq<Partition>, es: seq<Entry>)
    requires |es| == |ps| <= NUM_ENTRIES
    ensures Matches(ps, es, |ps|) <==> MatchesFrom(ps, 0, es)
  {
    if Matches(ps, es, |ps|) {
      forall k | 0 <= k < |es| ensures MatchesAt(ps[0 + k], es[k]) { assert MatchesAt(ps[k], EntryAt(es, k)); }
    }
    if MatchesFrom(ps, 0, es) {
      forall k | 0 <= k < |ps| ensures MatchesAt(ps[k], EntryAt(es, k)) { assert MatchesAt(ps[0 + k], es[k]); }
    }
  }

  /** A size that wraps around is accepted, and the next partition is put on the tables; the
      check finds that out with block numbers of 32 bits and not with 64. */
  lemma WrapAccepted(word: nat)
    requires word == U32 || word == U64
    ensures var ps := [Partition(0, word - 32, "a"), Partition(0, 8, "b")];
            && Parts(word, ps) && Place(word, 1000, ps, 0, FIRST_USABLE).0
            && Place(word, 1000, ps, 0, FIRST_USABLE).1[1].first == 2
            && !NoWrap(word, 1000, ps, 0, FIRST_USABLE)
            && (MatchesFrom(ps, 0, Place(word, 1000, ps, 0, FIRST_USABLE).1) <==> word == U64)
  {
    var a, b := Partition(0, word - 32, "a"), Partition(0, 8, "b");
    var ps := [a, b];
    assert Next(word, 1000, a, FIRST_USABLE) == 2;
    assert Next(word, 1000, b, 2) == 10;
    assert Place(word, 1000, ps, 2, 10) == (true, []);
    assert [Entry(2, 9, "b")] + [] == [Entry(2, 9, "b")];
    assert Place(word, 1000, ps, 1, 2) == (true, [Entry(2, 9, "b")] + []);
    assert Place(word, 1000, ps, 0, FIRST_USABLE).1 == [Entry(34, 1, "a")] + [Entry(2, 9, "b")];
    PlacedMatchesIff(word, 1000, ps, 0, FIRST_USABLE);
    assert AllEndRight(word, ps, 2, 10);
    assert AllEndRight(word, ps, 1, 2);
    assert EndsRight(word, a, FIRST_USABLE) <==> word == U64;
    assert AllEndRight(word, ps, 0, FIRST_USABLE) <==> word == U64;
  }
}
