/** Fuses behind a shadow cache: doc/README.fuse, with the two drivers drivers/misc/fsl_iim.c,
    where programming reloads the shadow registers, and drivers/misc/mxc_ocotp.c, where it
    does not.  A fuse word is the set of the bits that are blown. */
module Fuses {

  type Val = set<nat>

  /** One fuse word: the fuses, and what the shadow register holds. */
  datatype Cell = Cell(fuse: Val, shadow: Val)

  /** What happens to a word; `Reload` is another word being programmed. */
  datatype Op = Prog(v: Val) | Override(v: Val) | Reload

  // Without a bit to program nothing is programmed, and nothing reloaded.
  function Apply(c: Cell, op: Op, reload: bool): Cell {
    match op
    case Prog(v) => Cell(c.fuse + v, if reload && v != {} then c.fuse + v else c.shadow)
    case Override(v) => c.(shadow := v)
    case Reload => c.(shadow := c.fuse)
  }

  function Run(c: Cell, ops: seq<Op>, reload: bool): Cell {
    if ops == [] then c else Apply(Run(c, ops[..|ops| - 1], reload), ops[|ops| - 1], reload)
  }

  /** All bits programmed by `ops`. */
  function Blown(ops: seq<Op>): Val {
    if ops == [] then {}
    else Blown(ops[..|ops| - 1]) + (if ops[|ops| - 1].Prog? then ops[|ops| - 1].v else {})
  }

  // The operation sets the shadow register.
  predicate Loads(op: Op, reload: bool) {
    op.Override? || op.Reload? || (reload && op.v != {})
  }

  /** After any operations, under either rule, the fuses are the initial ones and all that
      were programmed: none goes back. */
  lemma {:induction false} SenseGivesAll(c: Cell, ops: seq<Op>, reload: bool)
    ensures Run(c, ops, reload).fuse == c.fuse + Blown(ops)
    decreases |ops|
  {
    if ops != [] { SenseGivesAll(c, ops[..|ops| - 1], reload); }
  }

  // The first `n` operations lead up to the last one that set the shadow register.
  predicate LastLoad(ops: seq<Op>, reload: bool, n: nat) {
    && n <= |ops| && (forall i :: n <= i < |ops| ==> !Loads(ops[i], reload))
    && (0 < n ==> Loads(ops[n - 1], reload))
  }

  /** The value of the last override, or the fuses as they were at the last reload, or the
      initial shadow value. */
  ghost predicate LastLoaded(c: Cell, ops: seq<Op>, reload: bool, r: Val) {
    forall n: nat :: LastLoad(ops, reload, n) ==>
      if n == 0 then r == c.shadow
      else if ops[n - 1].Override? then r == ops[n - 1].v
      else r == c.fuse + Blown(ops[..n])
  }

  /** What is read after any operations, under either rule. */
  lemma {:induction false} ReadGivesLast(c: Cell, ops: seq<Op>, reload: bool)
    ensures LastLoaded(c, ops, reload, Run(c, ops, reload).shadow)
    ensures exists n: nat :: LastLoad(ops, reload, n)
    decreases |ops|
  {
    if ops == [] {
      assert LastLoad(ops, reload, 0);
    } else if Loads(ops[|ops| - 1], reload) {
      assert LastLoad(ops, reload, |ops|) && ops[..|ops|] == ops;
      SenseGivesAll(c, ops, reload);
    } else {
      var before := ops[..|ops| - 1];
      ReadGivesLast(c, before, reload);
      var m: nat :| LastLoad(before, reload, m);
      assert LastLoad(ops, reload, m);
      forall n: nat | LastLoad(ops, reload, n) ensures LastLoad(before, reload, n) && before[..n] == ops[..n] {
        if n == |ops| { assert false; }
      }
    }
  }

  // ------------------------------------------------------------------ leaving out what is blown already

  // The operation with the bits that are blown already cleared from a value to be programmed.
  function MaskedOp(c: Cell, op: Op): Op {
    if op.Prog? then Prog(op.v - c.fuse) else op
  }

  function Masked(c: Cell, ops: seq<Op>, reload: bool): seq<Op> {
    if ops == [] then []
    else
      var before := ops[..|ops| - 1];
      Masked(c, before, reload) + [MaskedOp(Run(c, before, reload), ops[|ops| - 1])]
  }

  /** Programming that blows nothing new but reloads a register that was overridden. */
  predicate OnlyReloads(c: Cell, op: Op, reload: bool) {
    reload && op.Prog? && op.v != {} && op.v <= c.fuse && c.shadow != c.fuse
  }

  lemma MaskOnce(c: Cell, op: Op, reload: bool)
    ensures Apply(c, MaskedOp(c, op), reload) == Apply(c, op, reload) <==> !OnlyReloads(c, op, reload)
  {
    if op.Prog? {
      assert c.fuse + (op.v - c.fuse) == c.fuse + op.v;
      assert op.v - c.fuse == {} <==> op.v <= c.fuse;
    }
  }

  /** The fuses never depend on it. */
  lemma {:induction false} MaskingKeepsFuses(c: Cell, ops: seq<Op>, reload: bool)
    ensures Run(c, Masked(c, ops, reload), reload).fuse == Run(c, ops, reload).fuse
    decreases |ops|
  {
    if ops != [] {
      var before := ops[..|ops| - 1];
      var m := Masked(c, ops, reload);
      assert m[..|m| - 1] == Masked(c, before, reload);
      MaskingKeepsFuses(c, before, reload);
      var s := Run(c, before, reload);
      assert ops[|ops| - 1].Prog? ==> s.fuse + (ops[|ops| - 1].v - s.fuse) == s.fuse + ops[|ops| - 1].v;
    }
  }

  // Fuses and shadow register are the same at every moment, with and without masking.
  ghost predicate SameThroughout(c: Cell, ops: seq<Op>, reload: bool) {
    forall n :: 0 <= n <= |ops| ==> SameAt(c, ops[..n], reload)
  }

  predicate SameAt(c: Cell, ops: seq<Op>, reload: bool) {
    Run(c, Masked(c, ops, reload), reload) == Run(c, ops, reload)
  }

  predicate NoneOnlyReloads(c: Cell, ops: seq<Op>, reload: bool) {
    ops == [] ||
    (var before := ops[..|ops| - 1];
     NoneOnlyReloads(c, before, reload) && !OnlyReloads(Run(c, before, reload), ops[|ops| - 1], reload))
  }

  /** Clearing the bits that are blown already changes nothing, at any moment, exactly when no
      programming was there only to reload an overridden register. */
  lemma {:induction false} MaskingIff(c: Cell, ops: seq<Op>, reload: bool)
    ensures SameThroughout(c, ops, reload) <==> NoneOnlyReloads(c, ops, reload)
    decreases |ops|
  {
    if ops == [] {
      assert forall n :: 0 <= n <= |ops| ==> ops[..n] == [];
    } else {
      var before, op := ops[..|ops| - 1], ops[|ops| - 1];
      MaskingIff(c, before, reload);
      SameTail(c, ops, reload);
      if SameAt(c, before, reload) {
        MaskOnce(Run(c, before, reload), op, reload);
      }
    }
  }

  lemma SameTail(c: Cell, ops: seq<Op>, reload: bool)
    requires ops != []
    ensures var before := ops[..|ops| - 1];
            && (SameThroughout(c, ops, reload) <==> SameThroughout(c, before, reload) && SameAt(c, ops, reload))
            && (SameThroughout(c, before, reload) ==> SameAt(c, before, reload))
  {
    var before := ops[..|ops| - 1];
    assert ops[..|ops|] == ops && before[..|before|] == before;
    assert forall n :: 0 <= n <= |before| ==> before[..n] == ops[..n];
  }

  // ------------------------------------------------------------------ the box

  function Below(v: Val, n: nat): Val { set b | b in v && b < n }

  // What programming `v` into a word, or into another one, adds to the operations on it.
  function Added(ops: seq<Op>, v: Val, reload: bool, own: bool): seq<Op> {
    if v != {} && own then ops + [Prog(v)] else if v != {} && reload then ops + [Reload] else ops
  }

  /** The operations on all words after `v` has been programmed into word `w`. */
  function Programmed(ops: seq<seq<Op>>, w: nat, v: Val, reload: bool): (r: seq<seq<Op>>)
    requires w < |ops|
    ensures |r| == |ops|
    ensures forall x :: 0 <= x < |r| ==> r[x] == Added(ops[x], v, reload, x == w)
  {
    seq(|ops|, x requires 0 <= x < |ops| => Added(ops[x], v, reload, x == w))
  }

  /** The operations on all words after the bits of `v` below `n` have been programmed one by one,
      the lowest first. */
  function OneByOne(ops: seq<seq<Op>>, w: nat, v: Val, n: nat, reload: bool): (r: seq<seq<Op>>)
    requires w < |ops|
    ensures |r| == |ops|
  {
    if n == 0 then ops
    else
      var before := OneByOne(ops, w, v, n - 1, reload);
      if n - 1 in v then Programmed(before, w, {n - 1}, reload) else before
  }

  // What that does to the word.
  function After(c: Cell, v: Val, reload: bool, own: bool): Cell {
    if v != {} && own then Apply(c, Prog(v), reload) else if v != {} && reload then Apply(c, Reload, reload) else c
  }

  lemma BelowMore(v: Val, n: nat)
    ensures Below(v, 0) == {} && Below(v, n + 1) == if n in v then Below(v, n) + {n} else Below(v, n)
  {
  }

  lemma {:induction false} OneByOneRun(c: Cell, ops: seq<seq<Op>>, w: nat, v: Val, n: nat, reload: bool, x: nat)
    requires w < |ops| && x < |ops|
    ensures Run(c, OneByOne(ops, w, v, n, reload)[x], reload) == After(Run(c, ops[x], reload), Below(v, n), reload, x == w)
    decreases n
  {
    if n == 0 {
      BelowMore(v, 0);
    } else {
      var before := OneByOne(ops, w, v, n - 1, reload);
      OneByOneRun(c, ops, w, v, n - 1, reload, x);
      assert n - 1 in v ==> OneByOne(ops, w, v, n, reload)[x] == Added(before[x], {n - 1}, reload, x == w);
    }
  }

  /** Bit by bit or all at once, every word ends up the same. */
  lemma OneByOneIsAtOnce(c: Cell, ops: seq<seq<Op>>, w: nat, v: Val, n: nat, reload: bool, x: nat)
    requires w < |ops| && x < |ops|
    ensures Run(c, OneByOne(ops, w, v, n, reload)[x], reload) == Run(c, Programmed(ops, w, Below(v, n), reload)[x], reload)
  {
    OneByOneRun(c, ops, w, v, n, reload, x);
  }

  /** The fuse words of one box and their shadow registers.  The operations give an error for
      a word that does not exist. */
  class FuseBox {
    const reload: bool              // programming reloads the shadow registers
    var fuse: seq<Val>
    var shadow: seq<Val>
    ghost const start: seq<Cell>    // what the box held at first
    ghost var ops: seq<seq<Op>>     // the operations on each word since then

    constructor (fuse: seq<Val>, reload: bool)
      ensures Valid() && this.reload == reload && |start| == |fuse|
      ensures forall w :: 0 <= w < |fuse| ==> start[w] == Cell(fuse[w], fuse[w]) && ops[w] == []
    {
      this.reload, this.fuse, shadow := reload, fuse, fuse;
      start := seq(|fuse|, w requires 0 <= w < |fuse| => Cell(fuse[w], fuse[w]));
      ops := seq(|fuse|, _ => []);
    }

    ghost predicate Valid()
      reads this
    {
      && |fuse| == |shadow| == |start| == |ops|
      && forall w :: 0 <= w < |fuse| ==> InStep(w)
    }

    ghost predicate InStep(w: nat)
      requires w < |fuse| && |fuse| == |shadow| == |start| == |ops|
      reads this
    {
      Cell(fuse[w], shadow[w]) == Run(start[w], ops[w], reload)
    }

    /** Reading gives the last override or load; nothing changes. */
    method Read(w: nat) returns (ret: int, v: Val)
      requires Valid()
      ensures ret == (if w < |fuse| then 0 else -22)
      ensures ret == 0 ==> LastLoaded(start[w], ops[w], reload, v)
    {
      if |fuse| <= w { return -22, {}; }
      ReadGivesLast(start[w], ops[w], reload);
      assert InStep(w);
      ret, v := 0, shadow[w];
    }

    /** Sensing gives all fuses ever blown; nothing changes. */
    method Sense(w: nat) returns (ret: int, v: Val)
      requires Valid()
      ensures ret == (if w < |fuse| then 0 else -22)
      ensures ret == 0 ==> v == start[w].fuse + Blown(ops[w])
    {
      if |fuse| <= w { return -22, {}; }
      SenseGivesAll(start[w], ops[w], reload);
      assert InStep(w);
      ret, v := 0, fuse[w];
    }

    method SetOverride(w: nat, v: Val) returns (ret: int)
      requires Valid()
      modifies this
      ensures Valid() && ret == (if w < |fuse| then 0 else -22) && fuse == old(fuse)
      ensures ops == if ret == 0 then old(ops)[w := old(ops)[w] + [Override(v)]] else old(ops)
    {
      if |fuse| <= w { return -22; }
      shadow := shadow[w := v];
      ops := ops[w := ops[w] + [Override(v)]];
      forall x | 0 <= x < |fuse| ensures InStep(x) { assert old(InStep(x)); }
      ret := 0;
    }

    // Blows the bits `v` of a word, at least one; afterwards the hardware may reload all registers.
    method Blow(w: nat, v: Val)
      requires Valid() && w < |fuse| && v != {}
      modifies this
      ensures Valid() && |fuse| == |old(fuse)| && ops == Programmed(old(ops), w, v, reload)
    {
      fuse := fuse[w := fuse[w] + v];
      if reload { shadow := fuse; }
      ops := Programmed(ops, w, v, reload);
      forall x | 0 <= x < |fuse| ensures InStep(x) {
        assert old(InStep(x));
      }
    }

    /** fuse_prog() of mxc_ocotp: the whole word at once. */
    method OcotpProg(w: nat, v: Val) returns (ret: int)
      requires Valid() && !reload
      modifies this
      ensures Valid() && ret == (if w < |old(fuse)| then 0 else -22)
      ensures ops == if ret == 0 then Programmed(old(ops), w, v, reload) else old(ops)
    {
      if |fuse| <= w { return -22; }
      if v != {} { Blow(w, v); }
      ret := 0;
    }

    /** fuse_prog() of fsl_iim: at most eight bits, blown one by one from the lowest; a bit that
        cannot be programmed ends it with an error and leaves the ones below it blown. */
    method IimProg(w: nat, v: Val, works: nat -> bool) returns (ret: int)
      requires Valid() && reload
      modifies this
      ensures Valid() && |fuse| == |old(fuse)| && (ret == 0 || ret == -5 || ret == -22)
      ensures ret == -22 <==> |old(fuse)| <= w || exists b :: b in v && 8 <= b
      ensures ret == -22 ==> ops == old(ops)
      ensures ret == 0 <==> w < |old(fuse)| && forall b :: b in v ==> b < 8 && works(b)
      ensures ret == 0 ==> ops == OneByOne(old(ops), w, v, 8, reload)
      ensures ret == -5 ==>
                exists n :: n in v && !works(n) && (forall b :: b in v && b < n ==> works(b))
                            && ops == OneByOne(old(ops), w, v, n, reload)
    {
      if |fuse| <= w || exists b :: b in v && 8 <= b { return -22; }
      var n := 0;
      while n < 8
        invariant Valid() && |fuse| == |old(fuse)| && 0 <= n <= 8
        invariant ops == OneByOne(old(ops), w, v, n, reload)
        invariant forall b :: b in v && b < n ==> works(b)
      {
        if n in v {
          if !works(n) { return -5; }
          Blow(w, {n});
        }
        n := n + 1;
      }
      ret := 0;
    }
  }
}
