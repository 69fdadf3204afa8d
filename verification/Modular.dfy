/** Slot arithmetic used by the ring buffers. */
module Modular {

  lemma MulMonotone(a: nat, b: nat, m: nat)
    requires a <= b
    ensures a * m <= b * m
  {
  }

  lemma SmallMod(a: nat, m: nat)
    requires 0 < m && a < 2 * m
    ensures a % m == if a < m then a else a - m
  {
    var q := a / m;
    assert a == q * m + a % m;
    if q >= 2 {
      MulMonotone(2, q, m);
    }
    if q == 0 {
      assert q * m == 0;
    } else if q == 1 {
      assert q * m == m;
    }
  }

  /** The slot of the k-th insertion into a ring of m slots. */
  function Slot(k: nat, m: nat): (s: nat)
    requires m > 0
    ensures s < m
  {
    if k == 0 then 0 else
      var p := Slot(k - 1, m);
      if p + 1 == m then 0 else p + 1
  }

  /** The ring code's `% len(buf)`, on the operands it is applied to. */
  function RingIndex(a: nat, m: nat): (r: nat)
    requires 0 < m && a < 2 * m
    ensures r == (if a < m then a else a - m) && r < m
  {
    SmallMod(a, m);
    a % m
  }

  lemma {:induction false} SlotAhead(k: nat, d: nat, m: nat)
    requires d <= m && m > 0
    ensures var s := Slot(k, m) + d; Slot(k + d, m) == if s < m then s else s - m
  {
    if d > 0 {
      SlotAhead(k, d - 1, m);
    }
  }

  /** Stepping back i slots from the insertion point finds the i-th newest. */
  lemma SlotBack(k: nat, i: nat, m: nat)
    requires 1 <= i <= m && i <= k
    ensures var s := Slot(k, m); Slot(k - i, m) == if s < i then s - i + m else s - i
  {
    SlotAhead(k - i, i, m);
  }

  /** Insertions less than a full turn apart use different slots. */
  lemma SlotDistinct(x: nat, y: nat, m: nat)
    requires x < y < x + m
    ensures Slot(x, m) != Slot(y, m)
  {
    SlotAhead(x, y - x, m);
  }
}
