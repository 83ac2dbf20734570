/** Index arithmetic shared by the ring buffers (src/common/circular_buffer.cc
    and src/utils/cyclical_buffer.cc), on plain numbers: `t` and `h` are the
    tail and head indices, `rc` the rounded capacity and `p` the packet
    size. */
module RingArith {
  import opened Arith

  /** The distance from `t` to `h` round a ring of `rc` cells, as range()
      computes it. */
  function Span(t: nat, h: nat, rc: nat): (n: nat)
    requires t < rc && h <= rc
    ensures n <= rc
  {
    if t <= h then h - t else h + (rc - t)
  }

  /** The cell `k` past `t` round a ring of `rc` cells. */
  function Wrap(t: nat, k: nat, rc: nat): (i: nat)
    requires 0 < rc
    ensures i < rc
  {
    (t + k) % rc
  }

  /** The new head of an advance (lines 128-130): `virt_new_head` is at
      most two rounded capacities, so reducing it takes at most two
      subtractions; the result is aligned, leaves room for a packet, and
      the new tail is one packet further round. */
  lemma {:induction false} AdvanceHead(h: nat, rc: nat, p: nat, ho: nat)
    requires 0 < p <= rc && rc % p == 0
    requires h <= rc && h % p == 0 && (h == rc ==> rc == p)
    requires ho % p == 0 && ho < rc
    ensures var virt := h + ho + p;
      var nh := virt % rc;
      && virt <= 2 * rc
      && nh == (if virt < rc then virt else if virt < 2 * rc then virt - rc else 0)
      && nh % p == 0 && nh + p <= rc
      && (nh + p) % rc == (if nh + p < rc then nh + p else 0)
  {
    var virt := h + ho + p;
    MultiplesApart(ho, rc, p);
    if h < rc {
      MultiplesApart(h, rc, p);
    } else {
      assert ho == 0;
    }
    ModSmall(virt, rc);
    var nh := virt % rc;
    SumOfMultiples(h, ho, p);
    SumOfMultiples(h + ho, p, p);
    if virt >= rc {
      SumOfMultiples(virt, rc, p);
    }
    MultiplesApart(nh, rc, p);
    ModSmall(nh + p, rc);
  }

  /** The tail bookkeeping of an advance (lines 131-135), with the facts of
      AdvanceHead as hypotheses: if the tail stays, the span grows by
      `ho + p` and still fits; if it jumps to `nt`, the span becomes all
      but one slot, which is no less than the old span plus `ho + p` minus
      one slot. */
  lemma AdvanceTail(t: nat, h: nat, rc: nat, p: nat, ho: nat, nh: nat, nt: nat)
    requires 0 < p <= rc
    requires t + p <= rc && (h + p <= rc || h == rc == p) && ho <= p
    requires var virt := h + ho + p;
      && virt <= 2 * rc
      && nh == (if virt < rc then virt else if virt < 2 * rc then virt - rc else 0)
      && nh + p <= rc
      && nt == (if nh + p < rc then nh + p else 0)
    requires h == rc ==> t == 0
    ensures var virt := h + ho + p;
      var jumps := (virt >= rc && ((t <= h && t <= nh) || h < t)) || (h < t && t <= nh);
      && (!jumps ==> Span(t, h, rc) + ho + p <= rc && Span(t, nh, rc) == Span(t, h, rc) + ho + p)
      && (jumps ==> Span(nt, nh, rc) == rc - p && rc - p <= Span(t, h, rc) + ho + p)
  {
  }

  /** Where an advance writes and where the head lands: the write position
      leaves room for a packet, and the new head is one packet past it,
      wrapping to 0 at the rounded capacity. */
  lemma {:induction false} AdvanceSlot(h: nat, rc: nat, p: nat, ho: nat)
    requires 0 < p <= rc && rc % p == 0
    requires h <= rc && h % p == 0 && (h == rc ==> rc == p)
    requires ho % p == 0 && ho < rc
    ensures var wp := (h + ho) % rc;
      var nh := (h + ho + p) % rc;
      && wp % p == 0 && wp + p <= rc
      && nh == (if wp + p == rc then 0 else wp + p)
  {
    var x := h + ho;
    MultiplesApart(ho, rc, p);
    if h < rc {
      MultiplesApart(h, rc, p);
    } else {
      assert ho == 0;
    }
    ModSmall(x, rc);
    ModSmall(x + p, rc);
    SumOfMultiples(h, ho, p);
    if x >= rc {
      SumOfMultiples(x, rc, p);
    }
    MultiplesApart(x % rc, rc, p);
  }

  /** Linear step of AdvancedPacketHeld: one packet back from the new head,
      counted from the tail through the span, is the write position. */
  lemma SlotBeforeHead(t: nat, nh: nat, rc: nat, p: nat, wp: nat)
    requires 0 < p && t < rc && wp + p <= rc
    requires nh == (if wp + p == rc then 0 else wp + p)
    requires p <= Span(t, nh, rc)
    ensures (t + (Span(t, nh, rc) - p)) % rc == wp
  {
    ModSmall(t + (Span(t, nh, rc) - p), rc);
  }
}
