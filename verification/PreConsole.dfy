/** The buffer for console output before there is a console: pre_console_putc(),
    pre_console_puts() and print_pre_console_buffer() of common/console.c. */
module PreConsole {
  import opened Basics
  import opened Multiples

  class Buffer {
    const chars: array<char>   // CONFIG_PRE_CON_BUF_SZ characters
    var idx: nat               // gd->precon_buf_idx
    ghost var written: string  // everything written so far

    constructor (size: nat)
      requires 0 < size
      ensures Valid() && written == "" && chars.Length == size && fresh(chars)
    {
      chars := new char[size](_ => ' ');
      idx, written := 0, "";
    }

    /** Character number `k` is at place `k` modulo the size, while it is among the last ones. */
    ghost predicate Valid()
      reads this, chars
    {
      && 0 < chars.Length && idx == |written|
      && forall k :: 0 <= k < |written| && |written| - chars.Length <= k ==> chars[k % chars.Length] == written[k]
    }

    method Putc(c: char)
      requires Valid()
      modifies this, chars
      ensures Valid() && written == old(written) + [c]
    {
      chars[idx % chars.Length] := c;
      written := written + [c];
      idx := idx + 1;
      forall k | 0 <= k < |written| && |written| - chars.Length <= k
        ensures chars[k % chars.Length] == written[k]
      {
        if k < idx - 1 { Apart(k, idx - 1, chars.Length); }
      }
    }

    method Puts(s: string)
      requires Valid()
      modifies this, chars
      ensures Valid() && written == old(written) + s
    {
      var i := 0;
      while i < |s|
        invariant 0 <= i <= |s| && Valid() && written == old(written) + s[..i]
      {
        Putc(s[i]);
        i := i + 1;
      }
      assert s[..i] == s;
    }

    /** The flush gives the last characters written, as many as there is room for, in order. */
    method Print() returns (out: string)
      requires Valid()
      ensures out == Tail(written, chars.Length)
    {
      var i := if chars.Length < idx then idx - chars.Length else 0;
      ghost var first := i;
      out := "";
      while i < idx
        invariant first <= i <= idx && out == written[first..i]
      {
        out := out + [chars[i % chars.Length]];
        i := i + 1;
      }
    }
  }

  // Two places less than the size apart are not the same.
  lemma Apart(j: nat, k: nat, n: nat)
    requires j < k < j + n
    ensures j % n != k % n
  {
    DivDown(j, n);
    DivDown(k, n);
    if j / n < k / n { MulGap(j / n, k / n, n); }
    if k / n < j / n { MulGap(k / n, j / n, n); }
  }
}
