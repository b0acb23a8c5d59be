/** The BOOTP client's cache of request IDs: bootp_add_id() and bootp_match_id() of
    net/bootp.c.  The cache is meant to hold the last IDs sent. */
module BootpIds {
  import opened Basics

  /** The cache after one more ID.  A full one is moved down by `sizeof(ids) - sizeof(ulong)`
      bytes, which leaves the last `wordBytes / 4` entries where they are, and then the last
      entry is replaced. */
  function Added(ids: seq<nat>, size: nat, wordBytes: nat, id: nat): (r: seq<nat>)
    requires |ids| <= size && wordBytes % 4 == 0 && 0 < wordBytes <= 4 * size
    ensures |r| <= size
  {
    if |ids| < size then ids + [id]
    else
      var moved := size - wordBytes / 4;
      (ids[1..1 + moved] + ids[moved..])[size - 1 := id]
  }

  /** The cache after all the IDs of `sent`. */
  function Cached(sent: seq<nat>, size: nat, wordBytes: nat): (r: seq<nat>)
    requires wordBytes % 4 == 0 && 0 < wordBytes <= 4 * size
    ensures |r| <= size
  {
    if sent == [] then [] else Added(Cached(sent[..|sent| - 1], size, wordBytes), size, wordBytes, sent[|sent| - 1])
  }

  class Cache {
    const ids: array<nat>    // bootp_ids
    var num: nat             // bootp_num_ids

    constructor (size: nat)
      ensures Valid() && Contents() == [] && ids.Length == size && fresh(ids)
    {
      ids := new nat[size];
      num := 0;
    }

    predicate Valid()
      reads this
    {
      num <= ids.Length
    }

    function Contents(): seq<nat>
      requires Valid()
      reads this, ids
    {
      ids[..num]
    }

    // memmove() of `n` entries to the front
    method MoveDown(n: nat)
      requires n < ids.Length
      modifies ids
      ensures ids[..] == old(ids[..])[1..1 + n] + old(ids[..])[n..]
    {
      var i := 0;
      while i < n
        invariant 0 <= i <= n
        invariant forall j :: 0 <= j < i ==> ids[j] == old(ids[j + 1])
        invariant forall j :: i <= j < ids.Length ==> ids[j] == old(ids[j])
      {
        ids[i] := ids[i + 1];
        i := i + 1;
      }
    }

    method AddId(id: nat, wordBytes: nat)
      requires Valid() && wordBytes % 4 == 0 && 0 < wordBytes <= 4 * ids.Length
      modifies this, ids
      ensures Valid() && Contents() == Added(old(Contents()), ids.Length, wordBytes, id)
    {
      if ids.Length <= num {
        assert ids[..num] == ids[..];
        MoveDown(ids.Length - wordBytes / 4);
        ids[num - 1] := id;
        assert ids[..num] == ids[..];
      } else {
        ids[num] := id;
        num := num + 1;
      }
    }

    method MatchId(id: nat) returns (found: bool)
      requires Valid()
      ensures found <==> id in Contents()
    {
      for i := 0 to num
        invariant id !in ids[..i]
      {
        if ids[i] == id { return true; }
      }
      found := false;
    }
  }

  lemma FullMoves(before: seq<nat>, size: nat, id: nat)
    requires 0 < size <= |before|
    ensures Added(Tail(before, size), size, 4, id) == Tail(before + [id], size)
  {
    var ids := Tail(before, size);
    var r := (ids[1..size] + ids[size - 1..])[size - 1 := id];
    forall j | 0 <= j < size ensures r[j] == Tail(before + [id], size)[j] {
      if j < size - 1 { assert r[j] == ids[j + 1] == before[|before| - size + j + 1]; }
    }
  }

  /** Where a long has four bytes, the cache always holds the last IDs. */
  lemma {:induction false} CachedIsLast(sent: seq<nat>, size: nat)
    requires 0 < size
    ensures Cached(sent, size, 4) == Tail(sent, size)
    decreases |sent|
  {
    if sent != [] {
      var before := sent[..|sent| - 1];
      CachedIsLast(before, size);
      if size <= |before| {
        FullMoves(before, size, sent[|sent| - 1]);
      }
      assert before + [sent[|sent| - 1]] == sent;
    }
  }

  ghost predicate HoldsLast(size: nat, wordBytes: nat)
    requires wordBytes % 4 == 0 && 0 < wordBytes <= 4 * size
  {
    forall sent: seq<nat>, id: nat :: id in Tail(sent, size) ==> id in Cached(sent, size, wordBytes)
  }

  // The IDs 1 to n.
  function UpTo(n: nat): (s: seq<nat>)
    ensures |s| == n && forall i :: 0 <= i < n ==> s[i] == i + 1
  {
    if n == 0 then [] else UpTo(n - 1) + [n]
  }

  lemma {:induction false} CachedNotFull(sent: seq<nat>, size: nat, wordBytes: nat)
    requires wordBytes % 4 == 0 && 0 < wordBytes <= 4 * size && |sent| <= size
    ensures Cached(sent, size, wordBytes) == sent
    decreases |sent|
  {
    if sent != [] {
      CachedNotFull(sent[..|sent| - 1], size, wordBytes);
    }
  }

  // A full cache on a machine with longer longs, and one more ID.
  lemma NewestButOneLost(size: nat, wordBytes: nat)
    requires wordBytes % 4 == 0 && 4 < wordBytes <= 4 * size
    ensures size !in Added(UpTo(size), size, wordBytes, size + 1)
  {
    var c := Added(UpTo(size), size, wordBytes, size + 1);
    var moved := size - wordBytes / 4;
    forall j | 0 <= j < |c| ensures c[j] != size {
      if j < moved {
        assert c[j] == UpTo(size)[j + 1];
      } else if j < size - 1 {
        assert c[j] == UpTo(size)[j];
      }
    }
  }

  /** None of the last IDs is forgotten exactly on machines where a long is no longer than an
      entry: elsewhere a full cache loses the ID sent before the newest one. */
  lemma HoldsLastIff(size: nat, wordBytes: nat)
    requires wordBytes % 4 == 0 && 0 < wordBytes <= 4 * size
    ensures HoldsLast(size, wordBytes) <==> wordBytes == 4
  {
    if wordBytes == 4 {
      forall sent: seq<nat>, id: nat | id in Tail(sent, size) ensures id in Cached(sent, size, wordBytes) {
        CachedIsLast(sent, size);
      }
    } else {
      var sent: seq<nat> := UpTo(size + 1);
      assert sent[..size] == UpTo(size);
      CachedNotFull(UpTo(size), size, wordBytes);
      NewestButOneLost(size, wordBytes);
      assert Cached(sent, size, wordBytes) == Added(UpTo(size), size, wordBytes, sent[size]);
      assert Tail(sent, size)[size - 2] == size;
      assert size in Tail(sent, size) && size !in Cached(sent, size, wordBytes);
    }
  }
}
