/** Multi-file images: written by mkimage (tools/mkimage.c), read by image_multi_count() and
    image_multi_getimg() (common/image.c).  A table of sizes, ended by a zero, and then the
    components, each but the last padded to a multiple of four bytes.

    The writer keeps the size of a component in an int, which is what it gives to write() and
    compares the result with; a count that is negative makes write() fail with -1.  An empty
    file cannot be mapped.

    The reader adds up addresses in an unsigned long, which wraps around at `word`: 2^32 or
    2^64 as the build has it. */
module MultiImage {
  import opened Basics

  type Byte = n: nat | n < 256
  const U32: nat := 0x1_0000_0000

  // ------------------------------------------------------------------ words in network byte order

  function Word(n: nat): (w: seq<Byte>)
    requires n < U32
    ensures |w| == 4
  {
    [n / 0x100_0000, n / 0x1_0000 % 0x100, n / 0x100 % 0x100, n % 0x100]
  }

  function WordAt(data: seq<Byte>, i: nat): (n: nat)
    requires 4 * i + 4 <= |data|
    ensures n < U32
  {
    var a: nat, b: nat, c: nat, d: nat := data[4 * i], data[4 * i + 1], data[4 * i + 2], data[4 * i + 3];
    0x100_0000 * a + 0x1_0000 * b + 0x100 * c + d
  }

  lemma FourBytes(n: nat)
    requires n < U32
    ensures 0x100_0000 * (n / 0x100_0000) + 0x1_0000 * (n / 0x1_0000 % 0x100) + 0x100 * (n / 0x100 % 0x100) + n % 0x100 == n
  {
    var a, b := n / 0x100, n / 0x1_0000;
    assert n == 0x100 * a + n % 0x100;
    assert b == a / 0x100 && a == 0x100 * b + a % 0x100;
    assert n / 0x100_0000 == b / 0x100 && b == 0x100 * (b / 0x100) + b % 0x100;
  }

  lemma WordRoundTrip(pre: seq<Byte>, n: nat, post: seq<Byte>, i: nat)
    requires n < U32 && |pre| == 4 * i
    ensures WordAt(pre + Word(n) + post, i) == n
  {
    var w := Word(n);
    var d := pre + w + post;
    assert d[4 * i] == w[0] && d[4 * i + 1] == w[1] && d[4 * i + 2] == w[2] && d[4 * i + 3] == w[3];
    FourBytes(n);
  }

  // ------------------------------------------------------------------ writing

  type Image = seq<Byte>

  /** The size as it is stored in the table: a uint32_t. */
  function Size(m: Image): (n: nat)
    ensures n < U32
  {
    |m| % U32
  }

  /** The size as copy_file() has it: an int. */
  function IntSize(m: Image): (n: int)
    ensures -(U32 / 2) <= n < U32 / 2 && n <= |m|
  {
    if Size(m) < U32 / 2 then Size(m) else Size(m) - U32
  }

  /** A component that copy_file() does not give up on: there is something to map, and write()
      returns what it was asked for, or -1 where that is what it was asked for. */
  predicate Copied(m: Image) { m != [] && -1 <= IntSize(m) }

  // What is written of it ...
  function Stored(m: Image): Image
    requires Copied(m)
  {
    if IntSize(m) < 0 then [] else m[..IntSize(m)]
  }

  const ZERO: Byte := 0

  function Pad(n: nat): nat { if n % 4 == 0 then 0 else 4 - n % 4 }

  // ... and behind it.  The remainder of -1 by 4 is -1: five bytes, one from behind the zeros.
  function Padding(m: Image, over: Byte): seq<Byte>
    requires Copied(m)
  {
    if IntSize(m) < 0 then [ZERO, ZERO, ZERO, ZERO, over] else seq(Pad(IntSize(m)), _ => ZERO)
  }

  predicate Writable(ms: seq<Image>) { forall i :: 0 <= i < |ms| ==> Copied(ms[i]) }

  // copy_file() of one component; the last one is not padded.
  function Piece(m: Image, last: bool, over: Byte): seq<Byte>
    requires Copied(m)
  {
    Stored(m) + (if last then [] else Padding(m, over))
  }

  lemma PieceStarts(m: Image, last: bool, over: Byte)
    requires Copied(m)
    ensures Stored(m) <= Piece(m, last, over)
    ensures !last ==> |Piece(m, last, over)| == Span(m)
  {
  }

  function Pieces(ms: seq<Image>, over: Byte): (cs: seq<seq<Byte>>)
    requires Writable(ms)
    ensures |cs| == |ms| && forall i :: 0 <= i < |ms| ==> cs[i] == Piece(ms[i], i == |ms| - 1, over)
  {
    seq(|ms|, i requires 0 <= i < |ms| => Piece(ms[i], i == |ms| - 1, over))
  }

  function Join(cs: seq<seq<Byte>>, n: nat): seq<Byte>
    requires n <= |cs|
  {
    if n == 0 then [] else Join(cs, n - 1) + cs[n - 1]
  }

  lemma {:induction false} JoinPrefix(cs: seq<seq<Byte>>, i: nat, n: nat)
    requires i <= n <= |cs|
    ensures Join(cs, i) <= Join(cs, n)
    decreases n
  {
    if i < n { JoinPrefix(cs, i, n - 1); }
  }

  // The bytes `m` are in `data` from `p` on.
  predicate At(data: seq<Byte>, p: nat, m: seq<Byte>) {
    p + |m| <= |data| && forall i :: 0 <= i < |m| ==> data[p + i] == m[i]
  }

  lemma JoinAt(cs: seq<seq<Byte>>, i: nat)
    requires i < |cs|
    ensures At(Join(cs, |cs|), |Join(cs, i)|, cs[i])
  {
    JoinPrefix(cs, i + 1, |cs|);
  }

  /** All components as they are in the file. */
  function Body(ms: seq<Image>, over: Byte): seq<Byte>
    requires Writable(ms)
  {
    Join(Pieces(ms, over), |ms|)
  }

  // The room that a component takes with its padding.
  function Span(m: Image): nat
    requires Copied(m)
  {
    if IntSize(m) < 0 then 5 else IntSize(m) + Pad(IntSize(m))
  }

  function Spans(ms: seq<Image>): (ns: seq<nat>)
    requires Writable(ms)
    ensures |ns| == |ms| && forall i :: 0 <= i < |ms| ==> ns[i] == Span(ms[i])
  {
    seq(|ms|, i requires 0 <= i < |ms| => Span(ms[i]))
  }

  function Sum(ns: seq<nat>, n: nat): nat
    requires n <= |ns|
  {
    if n == 0 then 0 else Sum(ns, n - 1) + ns[n - 1]
  }

  /** Where component `i` starts. */
  function Place(ms: seq<Image>, i: nat): nat
    requires Writable(ms) && i <= |ms|
  {
    Sum(Spans(ms), i)
  }

  lemma {:induction false} JoinLength(cs: seq<seq<Byte>>, ns: seq<nat>, i: nat)
    requires i <= |cs| && i <= |ns| && forall k :: 0 <= k < i ==> |cs[k]| == ns[k]
    ensures |Join(cs, i)| == Sum(ns, i)
  {
    if 0 < i { JoinLength(cs, ns, i - 1); }
  }

  lemma PieceAt(ms: seq<Image>, over: Byte, i: nat)
    requires Writable(ms) && i < |ms|
    ensures |Join(Pieces(ms, over), i)| == Place(ms, i)
  {
    forall k | 0 <= k < i ensures |Pieces(ms, over)[k]| == Spans(ms)[k] { PieceStarts(ms[k], false, over); }
    JoinLength(Pieces(ms, over), Spans(ms), i);
  }

  /** The first `n` entries of the table. */
  function Table(ms: seq<Image>, n: nat): (t: seq<Byte>)
    requires n <= |ms|
    ensures |t| == 4 * n
  {
    if n == 0 then [] else Table(ms, n - 1) + Word(Size(ms[n - 1]))
  }

  /** The image file behind its header. */
  function Encode(ms: seq<Image>, over: Byte): seq<Byte>
    requires Writable(ms)
  {
    Table(ms, |ms|) + Word(0) + Body(ms, over)
  }

  /** mkimage: the sizes of all files, a zero, and then the files; None if it gives up. */
  method MkImage(ms: seq<Image>, over: Byte) returns (file: Option<seq<Byte>>)
    ensures file != None <==> Writable(ms)
    ensures file != None ==> file.value == Encode(ms, over)
  {
    var out: seq<Byte> := [];
    var i := 0;
    while i < |ms|
      invariant 0 <= i <= |ms| && out == Table(ms, i)
    {
      out := out + Word(Size(ms[i]));
      i := i + 1;
    }
    out := out + Word(0);
    ghost var head := out;
    i := 0;
    while i < |ms|
      invariant 0 <= i <= |ms| && forall k :: 0 <= k < i ==> Copied(ms[k])
      invariant i < |ms| || Writable(ms)
      invariant out == head + Copies(ms, over, i)
    {
      var size := IntSize(ms[i]);
      if ms[i] == [] || size < -1 { return None; }
      CopiesStep(head, ms, over, i);
      out := out + (if 0 <= size then ms[i][..size] else []);
      if i < |ms| - 1 { out := out + Padding(ms[i], over); }
      i := i + 1;
    }
    CopiesAll(ms, Pieces(ms, over), over, |ms|);
    file := Some(out);
  }

  // The copies so far, where it is not known yet that all of them will be made.
  function Copies(ms: seq<Image>, over: Byte, n: nat): seq<Byte>
    requires n <= |ms| && forall k :: 0 <= k < n ==> Copied(ms[k])
  {
    if n == 0 then []
    else Copies(ms, over, n - 1) + Piece(ms[n - 1], n == |ms|, over)
  }

  lemma CopiesStep(head: seq<Byte>, ms: seq<Image>, over: Byte, i: nat)
    requires i < |ms| && forall k :: 0 <= k <= i ==> Copied(ms[k])
    ensures var pad := if i < |ms| - 1 then Padding(ms[i], over) else [];
            head + Copies(ms, over, i) + Stored(ms[i]) + pad == head + Copies(ms, over, i + 1)
  {
    var pad := if i < |ms| - 1 then Padding(ms[i], over) else [];
  }

  lemma {:induction false} CopiesAll(ms: seq<Image>, cs: seq<seq<Byte>>, over: Byte, n: nat)
    requires Writable(ms) && n <= |ms| == |cs|
    requires forall i :: 0 <= i < |ms| ==> cs[i] == Piece(ms[i], i == |ms| - 1, over)
    ensures Copies(ms, over, n) == Join(cs, n)
  {
    if n != 0 { CopiesAll(ms, cs, over, n - 1); }
  }

  /** What is stored of component `i` is in the file at its place. */
  lemma BodyAt(ms: seq<Image>, over: Byte, i: nat)
    requires Writable(ms) && i < |ms|
    ensures At(Body(ms, over), Place(ms, i), Stored(ms[i]))
  {
    PieceAt(ms, over, i);
    JoinAt(Pieces(ms, over), i);
    PieceStarts(ms[i], i == |ms| - 1, over);
  }

  /** Components are in order and do not overlap, and are aligned if no size is negative. */
  lemma PlaceApart(ms: seq<Image>, i: nat, j: nat)
    requires Writable(ms) && i < j < |ms|
    ensures Place(ms, i) + |Stored(ms[i])| <= Place(ms, j)
    ensures (forall k :: 0 <= k < j ==> 0 <= IntSize(ms[k])) ==> Place(ms, j) % 4 == 0
  {
    SumGrows(Spans(ms), i + 1, j);
    PieceStarts(ms[i], false, 0);
    if forall k :: 0 <= k < j ==> 0 <= IntSize(ms[k]) {
      forall k | 0 <= k < j ensures Spans(ms)[k] % 4 == 0 { PaddedLength(IntSize(ms[k])); }
      SumAligned(Spans(ms), j);
    }
  }

  lemma {:induction false} SumGrows(ns: seq<nat>, i: nat, j: nat)
    requires i <= j <= |ns|
    ensures Sum(ns, i) <= Sum(ns, j)
    decreases j
  {
    if i < j { SumGrows(ns, i, j - 1); }
  }

  lemma {:induction false} SumAligned(ns: seq<nat>, n: nat)
    requires n <= |ns| && forall k :: 0 <= k < n ==> ns[k] % 4 == 0
    ensures Sum(ns, n) % 4 == 0
  {
    if 0 < n { SumAligned(ns, n - 1); }
  }

  lemma PaddedLength(n: nat)
    ensures (n + Pad(n)) % 4 == 0
  {
  }

  // ------------------------------------------------------------------ reading

  // The number of entries before the first zero, from entry `i` on; -1 if the table does not end.
  function CountFrom(data: seq<Byte>, i: nat): (n: int)
    ensures -1 <= n && (0 <= n ==> i <= n && 4 * n + 4 <= |data|)
    decreases |data| - 4 * i
  {
    if |data| < 4 * i + 4 then -1
    else if WordAt(data, i) == 0 then i
    else CountFrom(data, i + 1)
  }

  // (size + 3) & ~3 on 32 bits
  function Round(n: nat): nat
    requires n < U32
  {
    var x := (n + 3) % U32;
    x - x % 4
  }

  /** What an unsigned long, with `word` values, keeps of a sum. */
  function Wrapped(a: nat, word: nat): (r: nat)
    requires 0 < word
    ensures r < word && r <= a
  {
    if a < word then a else Wrapped(a - word, word)
  }

  // The sum of the rounded sizes before entry `i`, in an unsigned long.
  function Offset(word: nat, data: seq<Byte>, i: nat): (n: nat)
    requires 0 < word && 4 * i <= |data|
    ensures n < word
    decreases i
  {
    if i == 0 then 0 else Wrapped(Offset(word, data, i - 1) + Round(WordAt(data, i - 1)), word)
  }

  // The address of component `i` of `count`, in an unsigned long; the payload is at `base`.
  function Address(word: nat, base: nat, data: seq<Byte>, count: nat, i: nat): nat
    requires 0 < word && 4 * i <= |data|
  {
    Wrapped(base + 4 * (count + 1) + Offset(word, data, i), word)
  }

  /** image_multi_count(); the table must have an end. */
  method MultiCount(data: seq<Byte>) returns (count: nat)
    requires 0 <= CountFrom(data, 0)
    ensures count == CountFrom(data, 0)
  {
    count := 0;
    while WordAt(data, count) != 0
      invariant CountFrom(data, count) == CountFrom(data, 0)
      decreases |data| - 4 * count
    {
      count := count + 1;
    }
  }

  /** image_multi_getimg(): address and length of a component. */
  method MultiGetImg(word: nat, base: nat, data: seq<Byte>, idx: nat) returns (at: nat, len: nat)
    requires 0 < word && 0 <= CountFrom(data, 0)
    ensures idx < CountFrom(data, 0) ==>
              at == Address(word, base, data, CountFrom(data, 0), idx) && len == WordAt(data, idx)
    ensures CountFrom(data, 0) <= idx ==> at == 0 && len == 0
  {
    var count := MultiCount(data);
    var start := base + 4 * (count + 1);
    if count <= idx { return 0, 0; }
    len := WordAt(data, idx);
    var offset := 0;
    var i := 0;
    while i < idx
      invariant 0 <= i <= idx && offset == Offset(word, data, i)
    {
      offset := Wrapped(offset + Round(WordAt(data, i)), word);
      i := i + 1;
    }
    at := Wrapped(start + offset, word);
  }

  // ------------------------------------------------------------------ any table

  /** The table at the start of `data` is `sizes`, and then ends. */
  ghost predicate Lists(data: seq<Byte>, sizes: seq<nat>) {
    && 4 * (|sizes| + 1) <= |data|
    && (forall i :: 0 <= i < |sizes| ==> WordAt(data, i) == sizes[i])
    && WordAt(data, |sizes|) == 0
  }

  // Counting stops at the first entry that reads zero, the end mark at the latest.
  lemma {:induction false} ListedCount(data: seq<Byte>, sizes: seq<nat>, i: nat)
    requires Lists(data, sizes) && i <= |sizes|
    ensures i <= CountFrom(data, i) <= |sizes|
    ensures CountFrom(data, i) == |sizes| <==> forall k :: i <= k < |sizes| ==> sizes[k] != 0
    decreases |sizes| - i
  {
    if i < |sizes| { ListedCount(data, sizes, i + 1); }
  }

  /** Where component `i` is in the format: behind the others, each padded. */
  function Padded(sizes: seq<nat>, i: nat): nat
    requires i <= |sizes|
  {
    if i == 0 then 0 else Padded(sizes, i - 1) + sizes[i - 1] + Pad(sizes[i - 1])
  }

  lemma RoundValue(n: nat)
    requires n < U32
    ensures Round(n) == (if n <= U32 - 4 then n + Pad(n) else 0)
  {
  }

  // The sum without the wrap-around of an unsigned long.
  function Total(sizes: seq<nat>, i: nat): nat
    requires i <= |sizes| && forall k :: 0 <= k < |sizes| ==> sizes[k] < U32
  {
    if i == 0 then 0 else Total(sizes, i - 1) + Round(sizes[i - 1])
  }

  lemma {:induction false} OffsetIsTotal(word: nat, data: seq<Byte>, sizes: seq<nat>, i: nat)
    requires 0 < word && Lists(data, sizes) && i <= |sizes|
    requires forall k :: 0 <= k < |sizes| ==> sizes[k] < U32
    ensures Offset(word, data, i) == Wrapped(Total(sizes, i), word)
    decreases i
  {
    if 0 < i {
      OffsetIsTotal(word, data, sizes, i - 1);
      OffsetStep(word, data, i, sizes[i - 1], Total(sizes, i - 1));
    }
  }

  lemma OffsetStep(word: nat, data: seq<Byte>, i: nat, size: nat, total: nat)
    requires 0 < word && 0 < i && 4 * i <= |data| && WordAt(data, i - 1) == size
    requires Offset(word, data, i - 1) == Wrapped(total, word)
    ensures Offset(word, data, i) == Wrapped(total + Round(size), word)
  {
    WrappedSum(total, Round(size), word);
  }

  /** Wrapping around at every step is wrapping around once at the end. */
  lemma {:induction false} WrappedSum(a: nat, b: nat, word: nat)
    requires 0 < word
    ensures Wrapped(Wrapped(a, word) + b, word) == Wrapped(a + b, word)
    decreases a
  {
    if word <= a { WrappedSum(a - word, b, word); }
  }

  lemma {:induction false} TotalIff(sizes: seq<nat>, i: nat)
    requires i <= |sizes| && forall k :: 0 <= k < |sizes| ==> sizes[k] < U32
    ensures Total(sizes, i) <= Padded(sizes, i)
    ensures Total(sizes, i) == Padded(sizes, i) <==> forall k :: 0 <= k < i ==> sizes[k] <= U32 - 4
    decreases i
  {
    if 0 < i {
      TotalIff(sizes, i - 1);
      RoundValue(sizes[i - 1]);
    }
  }

  /** The address that the format gives component `i` of a payload at `base`. */
  function Proper(base: nat, sizes: seq<nat>, i: nat): nat
    requires i <= |sizes|
  {
    base + 4 * (|sizes| + 1) + Padded(sizes, i)
  }

  /** For any table: the reader looks for component `i` where the format has it exactly when
      none of the sizes before it is so large that rounding it up wraps around, and the address
      itself does not. */
  lemma ReaderAddressIff(word: nat, base: nat, data: seq<Byte>, sizes: seq<nat>, i: nat)
    requires 0 < word && Lists(data, sizes) && i <= |sizes|
    ensures Address(word, base, data, |sizes|, i) == Proper(base, sizes, i) <==>
            (forall k :: 0 <= k < i ==> sizes[k] <= U32 - 4) && Proper(base, sizes, i) < word
  {
    OffsetIsTotal(word, data, sizes, i);
    TotalIff(sizes, i);
    var start := base + 4 * (|sizes| + 1);
    WrappedSum(Total(sizes, i), start, word);
  }

  lemma ThreeEntries(a: nat, b: nat, c: nat)
    requires a < U32 && b < U32 && c < U32
    ensures Lists(Word(a) + Word(b) + Word(c) + Word(0), [a, b, c])
  {
    var data := Word(a) + Word(b) + Word(c) + Word(0);
    assert data == [] + Word(a) + (Word(b) + Word(c) + Word(0));
    assert data == Word(a) + Word(b) + (Word(c) + Word(0));
    assert data == (Word(a) + Word(b)) + Word(c) + Word(0);
    assert data == (Word(a) + Word(b) + Word(c)) + Word(0) + [];
    WordRoundTrip([], a, Word(b) + Word(c) + Word(0), 0);
    WordRoundTrip(Word(a), b, Word(c) + Word(0), 1);
    WordRoundTrip(Word(a) + Word(b), c, Word(0), 2);
    WordRoundTrip(Word(a) + Word(b) + Word(c), 0, [], 3);
  }

  /** A size whose rounding wraps: in every build the second component is looked for on top of
      the first one. */
  lemma RoundingWraps(word: nat)
    requires U32 <= word
    ensures var data := Word(U32 - 3) + Word(1) + Word(1) + Word(0);
            Lists(data, [U32 - 3, 1, 1]) && Offset(word, data, 1) == Offset(word, data, 0) == 0
  {
    var data := Word(U32 - 3) + Word(1) + Word(1) + Word(0);
    ThreeEntries(U32 - 3, 1, 1);
    assert WordAt(data, 0) == [U32 - 3, 1, 1][0];
    RoundValue(U32 - 3);
  }

  /** A sum that wraps: where a long has 32 bits, the third component is looked for on top of
      the first one although no size is too large. */
  lemma SumWraps()
    ensures var half := U32 / 2;
            var data := Word(half) + Word(half) + Word(4) + Word(0);
            Lists(data, [half, half, 4]) && Offset(U32, data, 2) == Offset(U32, data, 0) == 0
  {
    var half := U32 / 2;
    ThreeEntries(half, half, 4);
    RoundValue(half);
  }

  // ------------------------------------------------------------------ round trip

  function Sizes(ms: seq<Image>): (s: seq<nat>)
    ensures |s| == |ms| && forall i :: 0 <= i < |ms| ==> s[i] == Size(ms[i])
  {
    seq(|ms|, i requires 0 <= i < |ms| => Size(ms[i]))
  }

  lemma {:induction false} TableAt(ms: seq<Image>, n: nat, post: seq<Byte>, i: nat)
    requires i < n <= |ms|
    ensures WordAt(Table(ms, n) + post, i) == Size(ms[i])
    decreases n
  {
    var w := Word(Size(ms[n - 1]));
    if i == n - 1 {
      WordRoundTrip(Table(ms, n - 1), Size(ms[i]), post, i);
    } else {
      assert Table(ms, n) + post == Table(ms, n - 1) + (w + post);
      TableAt(ms, n - 1, w + post, i);
    }
  }

  lemma EncodedLists(ms: seq<Image>, over: Byte)
    requires Writable(ms)
    ensures Lists(Encode(ms, over), Sizes(ms))
  {
    var data, body := Encode(ms, over), Body(ms, over);
    forall i | 0 <= i < |ms| ensures WordAt(data, i) == Size(ms[i]) {
      assert data == Table(ms, |ms|) + (Word(0) + body);
      TableAt(ms, |ms|, Word(0) + body, i);
    }
    WordRoundTrip(Table(ms, |ms|), 0, body, |ms|);
  }

  /** Every component was written whole, and the reader finds it where it is in the image at
      `base`, with its length. */
  ghost predicate Finds(word: nat, base: nat, data: seq<Byte>, ms: seq<Image>)
    requires 0 < word && Writable(ms)
  {
    && 4 * (|ms| + 1) <= |data| && CountFrom(data, 0) == |ms|
    && forall i :: 0 <= i < |ms| ==> FindsAt(word, base, data, ms, i)
  }

  ghost predicate FindsAt(word: nat, base: nat, data: seq<Byte>, ms: seq<Image>, i: nat)
    requires 0 < word && Writable(ms) && i < |ms| && 4 * (|ms| + 1) <= |data|
  {
    && Stored(ms[i]) == ms[i] && WordAt(data, i) == |ms[i]|
    && Address(word, base, data, |ms|, i) == base + 4 * (|ms| + 1) + Place(ms, i)
  }

  /** Sizes that writer and format can hold: not zero, and less than 2^31. */
  predicate Holdable(ms: seq<Image>) {
    forall i :: 0 <= i < |ms| ==> 0 < |ms[i]| < U32 / 2
  }

  /** In an image at `base`, the last component starts inside the address space. */
  predicate Reachable(word: nat, base: nat, ms: seq<Image>) {
    ms == [] || Proper(base, Sizes(ms), |ms| - 1) < word
  }

  lemma {:induction false} PaddedGrows(sizes: seq<nat>, i: nat, j: nat)
    requires i <= j <= |sizes|
    ensures Padded(sizes, i) <= Padded(sizes, j)
    decreases j
  {
    if i < j { PaddedGrows(sizes, i, j - 1); }
  }

  lemma StoredWhole(m: Image)
    requires Copied(m)
    ensures Stored(m) == m <==> |m| < U32 / 2
  {
    if |m| < U32 / 2 { assert m[..|m|] == m; }
  }

  lemma {:induction false} PaddedSum(sizes: seq<nat>, ns: seq<nat>, i: nat)
    requires i <= |sizes| && i <= |ns| && forall k :: 0 <= k < i ==> ns[k] == sizes[k] + Pad(sizes[k])
    ensures Padded(sizes, i) == Sum(ns, i)
  {
    if 0 < i { PaddedSum(sizes, ns, i - 1); }
  }

  lemma SmallSize(m: Image)
    requires |m| < U32 / 2
    ensures IntSize(m) == Size(m) == |m|
  {
  }

  // For sizes that can be held, writer and format agree on the places.
  lemma PlaceIsPadded(ms: seq<Image>, sizes: seq<nat>, i: nat)
    requires Writable(ms) && Holdable(ms) && sizes == Sizes(ms) && i < |ms|
    ensures Place(ms, i) == Padded(sizes, i)
    ensures forall k :: 0 <= k < |ms| ==> sizes[k] == |ms[k]| <= U32 - 4
  {
    forall k | 0 <= k < |ms| ensures sizes[k] == |ms[k]| <= U32 - 4 && Spans(ms)[k] == sizes[k] + Pad(sizes[k]) {
      SmallSize(ms[k]);
    }
    PaddedSum(sizes, Spans(ms), i);
  }

  lemma FindsOneIff(word: nat, base: nat, data: seq<Byte>, ms: seq<Image>, sizes: seq<nat>, i: nat)
    requires 0 < word && Writable(ms) && Holdable(ms) && sizes == Sizes(ms) && Lists(data, sizes) && i < |ms|
    ensures FindsAt(word, base, data, ms, i) <==> Proper(base, sizes, i) < word
  {
    StoredWhole(ms[i]);
    PlaceIsPadded(ms, sizes, i);
    ReaderAddressIff(word, base, data, sizes, i);
  }

  lemma FindsIff(word: nat, base: nat, data: seq<Byte>, ms: seq<Image>)
    requires 0 < word && Writable(ms) && Holdable(ms) && Lists(data, Sizes(ms))
    ensures Finds(word, base, data, ms) <==> Reachable(word, base, ms)
  {
    var sizes := Sizes(ms);
    ListedCount(data, sizes, 0);
    forall i | 0 <= i < |ms| ensures sizes[i] != 0 { assert 0 < |ms[i]| < U32 / 2; }
    forall i | 0 <= i < |ms|
      ensures FindsAt(word, base, data, ms, i) <==> Proper(base, sizes, i) < word
      ensures Proper(base, sizes, i) <= Proper(base, sizes, |ms| - 1)
    {
      FindsOneIff(word, base, data, ms, sizes, i);
      PaddedGrows(sizes, i, |ms| - 1);
    }
  }

  lemma FindsOnlyHoldable(word: nat, base: nat, data: seq<Byte>, ms: seq<Image>)
    requires 0 < word && Writable(ms) && Lists(data, Sizes(ms)) && Finds(word, base, data, ms)
    ensures Holdable(ms)
  {
    ListedCount(data, Sizes(ms), 0);
    forall i | 0 <= i < |ms| ensures 0 < |ms[i]| < U32 / 2 {
      assert FindsAt(word, base, data, ms, i);
      StoredWhole(ms[i]);
      assert Sizes(ms)[i] != 0;
    }
  }

  lemma HoldableWritable(ms: seq<Image>)
    requires Holdable(ms)
    ensures Writable(ms)
  {
    forall i | 0 <= i < |ms| ensures Copied(ms[i]) { assert |ms[i]| < U32 / 2; }
  }

  /** An image is written and comes back as it was given exactly when its components are of
      sizes that the writer and the format can hold, and the last of them is in reach. */
  lemma FaithfulIff(word: nat, base: nat, ms: seq<Image>, over: Byte)
    requires 0 < word
    ensures Writable(ms) && Finds(word, base, Encode(ms, over), ms) <==>
            Holdable(ms) && Reachable(word, base, ms)
  {
    if Holdable(ms) { HoldableWritable(ms); }
    if Writable(ms) {
      var data := Encode(ms, over);
      EncodedLists(ms, over);
      if Finds(word, base, data, ms) { FindsOnlyHoldable(word, base, data, ms); }
      if Holdable(ms) { FindsIff(word, base, data, ms); }
    }
  }

  /** Two components of almost 2^31 bytes put the third one out of reach of 32-bit addresses. */
  lemma ThirdOutOfReach(base: nat, a: Image, b: Image, c: Image, over: Byte)
    requires |a| == |b| == U32 / 2 - 1 && 0 < |c| < U32 / 2
    ensures var ms := [a, b, c];
            Holdable(ms) && !(Writable(ms) && Finds(U32, base, Encode(ms, over), ms))
  {
    var ms := [a, b, c];
    var sizes := Sizes(ms);
    SmallSize(a);
    SmallSize(b);
    assert sizes[0] == |a| && sizes[1] == |b|;
    assert Padded(sizes, 1) == U32 / 2;
    assert Padded(sizes, 2) == U32;
    FaithfulIff(U32, base, ms, over);
  }

  /** Between 2^31 and 2^32 bytes mkimage gives up on a component, but for one size, for which
      it writes nothing and goes on; of a larger one it writes the low part of the size, which
      ends the table if that is zero. */
  lemma TooLarge(m: Image)
    requires U32 / 2 <= |m|
    ensures |m| < U32 - 1 ==> !Copied(m)
    ensures |m| == U32 - 1 ==> Copied(m) && Stored(m) == []
    ensures U32 <= |m| && Copied(m) ==> |Stored(m)| < U32 / 2
    ensures |m| == U32 ==> Copied(m) && Size(m) == 0
  {
  }

  lemma EncodedAt(ms: seq<Image>, over: Byte, i: nat)
    requires Writable(ms) && i < |ms|
    ensures At(Encode(ms, over), 4 * (|ms| + 1) + Place(ms, i), Stored(ms[i]))
  {
    BodyAt(ms, over, i);
  }

  lemma ReadsBack(word: nat, base: nat, data: seq<Byte>, ms: seq<Image>, i: nat)
    requires 0 < word && Writable(ms) && Holdable(ms) && Lists(data, Sizes(ms)) && i < |ms|
    requires At(data, 4 * (|ms| + 1) + Place(ms, i), ms[i]) && Proper(base, Sizes(ms), i) < word
    ensures Load(base, data, Address(word, base, data, |ms|, i), |ms[i]|) == Some(ms[i])
  {
    ReaderAt(word, base, data, ms, i);
    LoadAt(base, data, 4 * (|ms| + 1) + Place(ms, i), ms[i]);
  }

  lemma ReaderAt(word: nat, base: nat, data: seq<Byte>, ms: seq<Image>, i: nat)
    requires 0 < word && Writable(ms) && Holdable(ms) && Lists(data, Sizes(ms)) && i < |ms|
    ensures Proper(base, Sizes(ms), i) < word ==>
              Address(word, base, data, |ms|, i) == base + (4 * (|ms| + 1) + Place(ms, i))
  {
    PlaceIsPadded(ms, Sizes(ms), i);
    ReaderAddressIff(word, base, data, Sizes(ms), i);
  }

  lemma StoredAt(ms: seq<Image>, over: Byte, i: nat)
    requires Writable(ms) && Holdable(ms) && i < |ms|
    ensures At(Encode(ms, over), 4 * (|ms| + 1) + Place(ms, i), ms[i])
  {
    StoredWhole(ms[i]);
    EncodedAt(ms, over, i);
  }

  lemma CountsAll(data: seq<Byte>, ms: seq<Image>, i: nat)
    requires Holdable(ms) && Lists(data, Sizes(ms)) && i < |ms|
    ensures CountFrom(data, 0) == |ms| && WordAt(data, i) == |ms[i]|
  {
    ListedCount(data, Sizes(ms), 0);
    forall k | 0 <= k < |ms| ensures Sizes(ms)[k] == |ms[k]| != 0 { SmallSize(ms[k]); }
  }

  lemma LoadAt(base: nat, data: seq<Byte>, p: nat, m: seq<Byte>)
    requires At(data, p, m)
    ensures Load(base, data, base + p, |m|) == Some(m)
  {
    assert data[p..p + |m|] == m;
    assert base + p - base == p;
  }

  /** Reading a component of an image that was written and loaded at `base` gives its bytes, if
      it is in reach. */
  method WriteThenRead(word: nat, base: nat, ms: seq<Image>, over: Byte, idx: nat) returns (m: Option<Image>)
    requires 0 < word && Holdable(ms) && idx < |ms|
    ensures Proper(base, Sizes(ms), idx) < word ==> m == Some(ms[idx])
  {
    HoldableWritable(ms);
    var file := MkImage(ms, over);
    EncodedLists(ms, over);
    CountsAll(file.value, ms, idx);
    StoredAt(ms, over, idx);
    if Proper(base, Sizes(ms), idx) < word { ReadsBack(word, base, file.value, ms, idx); }
    var at, len := MultiGetImg(word, base, file.value, idx);
    m := Load(base, file.value, at, len);
  }

  // The bytes at an address, where the image is loaded there.
  function Load(base: nat, data: seq<Byte>, at: nat, len: nat): Option<seq<Byte>> {
    if base <= at && at - base + len <= |data| then Some(data[at - base..at - base + len]) else None
  }
}
