/** Arithmetic of addresses and the multiples of a block or line length below them. */
module Multiples {

  // a & ~(ll - 1)
  function Down(a: nat, ll: nat): nat
    requires 0 < ll
  {
    a - a % ll
  }

  lemma {:induction false} MulGap(x: int, y: int, ll: nat)
    requires x < y
    ensures x * ll + ll <= y * ll
    decreases y - x
  {
    assert y * ll == (y - 1) * ll + ll;
    if x + 1 < y {
      MulGap(x, y - 1, ll);
    }
  }

  lemma MulLess(x: int, y: int, ll: nat)
    requires 0 < ll
    ensures x < y <==> x * ll < y * ll
  {
    if x < y { MulGap(x, y, ll); }
    if y < x { MulGap(y, x, ll); }
  }

  // Division by the line length, from a multiple and a remainder.
  lemma DivUnique(q: nat, r: nat, ll: nat)
    requires r < ll
    ensures (q * ll + r) / ll == q && (q * ll + r) % ll == r
  {
    var x := q * ll + r;
    DivDown(x, ll);
    if x / ll < q { MulGap(x / ll, q, ll); }
    if q < x / ll { MulGap(q, x / ll, ll); }
  }

  lemma DivDown(a: nat, ll: nat)
    requires 0 < ll
    ensures Down(a, ll) == (a / ll) * ll <= a < (a / ll) * ll + ll
  {
  }

  lemma DownDown(a: nat, ll: nat)
    requires 0 < ll
    ensures Down(a, ll) % ll == 0
  {
    DivDown(a, ll);
    DivUnique(a / ll, 0, ll);
  }
}
