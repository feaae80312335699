/** Which slot of a bounded ring a cursor position uses, and which positions share a slot. */
module Slots {
  import opened Base

  /** The slot of position `q` in a ring of `n` slots. Written by repeated subtraction so that proofs
      use the lemmas below instead of remainder arithmetic; `SlotIsRemainder` says it is `q % n`. */
  function Slot(q: nat, n: nat): (i: nat)
    requires n > 0
    ensures i < n
  {
    if q < n then q else Slot(q - n, n)
  }

  lemma {:induction false} SlotIsRemainder(q: nat, n: nat)
    requires n > 0
    ensures Slot(q, n) == q % n
  {
    if q < n {
    } else {
      SlotIsRemainder(q - n, n);
      RemainderShift(q - n, n);
    }
  }

  lemma RemainderShift(q: nat, n: nat)
    requires n > 0
    ensures (q + n) % n == q % n
  {
    QuotientUnique(q / n + 1, (q + n) / n, n, q % n, (q + n) % n);
  }

  lemma QuotientUnique(d: int, e: int, n: nat, r: nat, t: nat)
    requires r < n && t < n && d * n + r == e * n + t
    ensures d == e && r == t
  {
    ProductOrder(d, e, n);
    ProductOrder(e, d, n);
  }

  /** Two positions less than one lap apart share a slot only when they are equal. */
  lemma {:induction false} SlotInjective(p: nat, q: nat, n: nat)
    requires n > 0 && p < q < p + n
    ensures Slot(p, n) != Slot(q, n)
  {
    if p >= n {
      SlotInjective(p - n, q - n, n);
    } else if q >= n {
      assert Slot(q, n) == Slot(q - n, n) == q - n;
    }
  }

  /** The slots of one lap of positions are pairwise different. */
  lemma LapDistinct(base: nat, n: nat)
    requires n > 0
    ensures forall p, q :: base <= p < base + n && base <= q < base + n && p != q ==> Slot(p, n) != Slot(q, n)
  {
    forall p, q | base <= p < base + n && base <= q < base + n && p != q
      ensures Slot(p, n) != Slot(q, n)
    {
      if p < q { SlotInjective(p, q, n); } else { SlotInjective(q, p, n); }
    }
  }

  /** A position before the lap that starts at `base` shares its slot with a later position of that lap. */
  lemma {:induction false} LaterSharer(p: nat, base: nat, n: nat) returns (q: nat)
    requires n > 0 && p < base
    ensures base <= q < base + n && Slot(q, n) == Slot(p, n)
    decreases base - p
  {
    if p + n < base {
      q := LaterSharer(p + n, base, n);
    } else {
      q := p + n;
    }
  }
}
