/** Mapping SDRAM banks to contiguous memory from address 0, the largest first and banks of
    equal size in their original order: the rule of README_ORIG, "System Initialization". */
module SdramBanks {

  /** A bank and its chip select, which numbers the banks. */
  datatype Bank = Bank(id: nat, size: nat)

  /** In mapping order: larger banks first, equal ones by number. */
  predicate Before(a: Bank, b: Bank) {
    b.size < a.size || (a.size == b.size && a.id < b.id)
  }

  predicate Ordered(bs: seq<Bank>) {
    forall i, j :: 0 <= i < j < |bs| ==> Before(bs[i], bs[j])
  }

  function Insert(b: Bank, bs: seq<Bank>): (r: seq<Bank>)
    ensures multiset(r) == multiset(bs) + multiset{b}
  {
    if bs == [] then [b]
    else if Before(b, bs[0]) then [b] + bs
    else
      assert bs == [bs[0]] + bs[1..];
      [bs[0]] + Insert(b, bs[1..])
  }

  /** The banks in mapping order. */
  function Sort(bs: seq<Bank>): (r: seq<Bank>)
    ensures multiset(r) == multiset(bs)
  {
    if bs == [] then []
    else
      assert bs == [bs[0]] + bs[1..];
      Insert(bs[0], Sort(bs[1..]))
  }

  predicate Numbered(bs: seq<Bank>) {
    forall i, j :: 0 <= i < j < |bs| ==> bs[i].id != bs[j].id
  }

  lemma {:induction false} InsertOrdered(b: Bank, bs: seq<Bank>)
    requires Ordered(bs) && forall x :: x in bs ==> x.id != b.id
    ensures Ordered(Insert(b, bs))
  {
    if bs != [] {
      if Before(b, bs[0]) {
        forall j | 0 <= j < |bs| ensures Before(b, bs[j]) { if 0 < j { assert Before(bs[0], bs[j]); } }
      } else {
        InsertOrdered(b, bs[1..]);
        var r := Insert(b, bs[1..]);
        forall x | x in r ensures Before(bs[0], x) {
          assert x in multiset(r);
          assert x in bs[1..] || x == b;
          assert bs[0] in bs;
        }
      }
    }
  }

  /** Sorting puts the banks into mapping order, whatever order they come in. */
  lemma {:induction false} SortOrdered(bs: seq<Bank>)
    requires Numbered(bs)
    ensures Ordered(Sort(bs))
  {
    if bs != [] {
      SortOrdered(bs[1..]);
      var r := Sort(bs[1..]);
      forall x | x in r ensures x.id != bs[0].id {
        assert x in multiset(r);
        assert x in bs[1..];
      }
      InsertOrdered(bs[0], r);
    }
  }

  /** Where bank `i` of a mapping starts: behind the ones before it. */
  function Base(bs: seq<Bank>, i: nat): nat
    requires i <= |bs|
    decreases i
  {
    if i == 0 then 0 else Base(bs, i - 1) + bs[i - 1].size
  }

  /** Every address below the total is in exactly one bank: no gaps and no overlap. */
  lemma {:induction false} Tiles(bs: seq<Bank>, n: nat, a: nat) returns (i: nat)
    requires n <= |bs| && a < Base(bs, n)
    ensures i < n && Base(bs, i) <= a < Base(bs, i) + bs[i].size
    ensures forall j :: 0 <= j < |bs| && Base(bs, j) <= a < Base(bs, j) + bs[j].size ==> j == i
    decreases n
  {
    if Base(bs, n - 1) <= a {
      i := n - 1;
    } else {
      i := Tiles(bs, n - 1, a);
    }
    forall j | 0 <= j < |bs| && Base(bs, j) <= a < Base(bs, j) + bs[j].size ensures j == i {
      if j < i { BaseGrows(bs, j + 1, i); }
      if i < j { BaseGrows(bs, i + 1, j); }
    }
  }

  lemma {:induction false} BaseGrows(bs: seq<Bank>, i: nat, j: nat)
    requires i <= j <= |bs|
    ensures Base(bs, i) <= Base(bs, j)
    decreases j
  {
    if i < j { BaseGrows(bs, i, j - 1); }
  }

  function Pow2(k: nat): (p: nat)
    ensures 0 < p
  {
    if k == 0 then 1 else 2 * Pow2(k - 1)
  }

  ghost predicate IsPow2(n: nat) { exists k :: n == Pow2(k) }

  /** `n` is a multiple of `d`. */
  ghost predicate Multiple(n: nat, d: nat) { exists q: nat :: n == q * d }

  lemma {:induction false} Pow2Multiple(j: nat, k: nat)
    requires j <= k
    ensures Multiple(Pow2(k), Pow2(j))
    decreases k
  {
    if j == k {
      assert Pow2(k) == 1 * Pow2(j);
    } else {
      Pow2Multiple(j, k - 1);
      var q: nat :| Pow2(k - 1) == q * Pow2(j);
      assert Pow2(k) == (2 * q) * Pow2(j);
    }
  }

  lemma {:induction false} Pow2Grows(j: nat, k: nat)
    requires j < k
    ensures Pow2(j) < Pow2(k)
    decreases k
  {
    if j < k - 1 { Pow2Grows(j, k - 1); }
  }

  lemma SizeMultiple(big: nat, small: nat)
    requires IsPow2(big) && IsPow2(small) && small <= big
    ensures Multiple(big, small)
  {
    var k, j :| big == Pow2(k) && small == Pow2(j);
    if k < j { Pow2Grows(k, j); }
    Pow2Multiple(j, k);
  }

  lemma MultipleSum(a: nat, b: nat, d: nat)
    requires Multiple(a, d) && Multiple(b, d)
    ensures Multiple(a + b, d)
  {
    var p: nat, q: nat :| a == p * d && b == q * d;
    assert a + b == (p + q) * d;
  }

  /** With sizes that are powers of two, every bank starts at a multiple of its size. */
  lemma {:induction false} NaturallyAligned(bs: seq<Bank>, i: nat, d: nat)
    requires Ordered(bs) && forall b :: b in bs ==> IsPow2(b.size)
    requires i <= |bs| && IsPow2(d) && forall j :: 0 <= j < i ==> d <= bs[j].size
    ensures Multiple(Base(bs, i), d)
    decreases i
  {
    if i == 0 {
      assert 0 == 0 * d;
    } else {
      NaturallyAligned(bs, i - 1, d);
      assert bs[i - 1] in bs;
      SizeMultiple(bs[i - 1].size, d);
      MultipleSum(Base(bs, i - 1), bs[i - 1].size, d);
    }
  }

  /** The mapping of any set of banks with sizes that are powers of two. */
  lemma MappingAligned(bs: seq<Bank>, i: nat)
    requires Numbered(bs) && (forall b :: b in bs ==> IsPow2(b.size)) && i < |Sort(bs)|
    ensures Multiple(Base(Sort(bs), i), Sort(bs)[i].size)
  {
    SortOrdered(bs);
    var r := Sort(bs);
    forall b | b in r ensures IsPow2(b.size) {
      assert b in multiset(r);
      assert b in bs;
    }
    assert r[i] in r;
    forall j | 0 <= j < i ensures r[i].size <= r[j].size { assert Before(r[j], r[i]); }
    NaturallyAligned(r, i, r[i].size);
  }
}
