/** Properties of the CircularBuffer operations (src/common/circular_buffer.cc),
    stated on the value model of CircularSpec. */
module CircularProps {
  import opened Mem
  import opened Arith
  import opened CircularSpec
  import opened RingArith

  /** The ring index `k` bytes past the tail. */
  function At(r: Ring, k: nat): (i: nat)
    requires r.Shaped()
    ensures i < r.RoundedCap()
  {
    (r.tail + k) % r.RoundedCap()
  }

  /** The ring index that the absolute offset `a` maps to. */
  function SlotOf(r: Ring, a: nat): (i: nat)
    requires r.Ready() && r.AbsTail() <= a < r.absHead
    ensures i < r.RoundedCap()
  {
    At(r, a - r.AbsTail())
  }

  /** reset(psize, h) empties the buffer: nothing held, abs_tail() == h,
      every byte and flag zero; with a packet size that fits it is ready
      for use. */
  lemma ResetAtEmpties(r: Ring, psize: nat, h: nat)
    requires r.Sized() && 0 < psize <= r.capacity
    ensures var z := ResetAt(r, psize, h);
      && z.Ready() && z.tail == 0 && z.head == 0 && z.Range() == 0
      && z.absHead == h && z.byte0 == h && z.AbsTail() == h
      && z.capacity == r.capacity && z.psize == psize
      && (forall i :: 0 <= i < z.capacity ==> z.data[i] == 0 && !z.occupied[i])
  {
    var s := r.(absHead := h, byte0 := h);
    FillAt(s.data, 0, s.capacity, 0);
    FillAt(s.occupied, 0, s.capacity, false);
  }

  /** The restart branch of try_push_head can only be taken in a ring of
      a single slot: the head offset is at most psize, so reaching the
      rounded capacity needs rounded_cap == psize. */
  lemma {:induction false} RestartOnlyInOneSlotRing(r: Ring, fbn: nat, payload: seq<bv8>)
    requires r.Ready() && |payload| == r.psize
    requires TryPut(r, fbn, payload).outcome == Restarted
    ensures r.RoundedCap() == r.psize
    ensures fbn == r.absHead + r.psize
  {
    var ho := fbn - r.absHead;
    assert ho <= r.psize && ho >= r.RoundedCap();
  }

  /** Whether try_push_head moves the tail (lines 131-134). */
  predicate TailJumps(r: Ring, fbn: nat)
    requires r.Shaped() && fbn >= r.absHead
  {
    var rc := r.RoundedCap();
    var virt := r.head + (fbn - r.absHead) + r.psize;
    var nh := virt % rc;
    (virt >= rc && ((r.tail <= r.head && r.tail <= nh) || r.head < r.tail))
    || (r.head < r.tail && r.tail <= nh)
  }

  /** A ring with the size fields of a shaped ring and aligned indices
      inside the same rounded capacity is shaped, and range() is the span
      from its tail to its head. */
  lemma ShapedLike(r: Ring, z: Ring)
    requires r.Shaped() && z.Sized()
    requires z.capacity == r.capacity && z.psize == r.psize
    requires z.tail < r.RoundedCap() && z.head <= r.RoundedCap()
    requires z.tail % r.psize == 0 && z.head % r.psize == 0
    requires z.head == r.RoundedCap() ==> r.RoundedCap() == r.psize
    ensures z.Shaped() && z.RoundedCap() == r.RoundedCap()
    ensures z.Range() == Span(z.tail, z.head, r.RoundedCap())
  {
  }

  /** The fields an advance sets. */
  lemma AdvanceFields(r: Ring, fbn: nat, payload: seq<bv8>)
    requires r.Ready() && fbn >= r.absHead && |payload| == r.psize
    requires var ho := fbn - r.absHead; ho % r.psize == 0 && ho <= r.psize && ho < r.RoundedCap()
    ensures var z := Advance(r, fbn, payload);
      var nh := (r.head + (fbn - r.absHead) + r.psize) % r.RoundedCap();
      && z.Sized() && z.absHead == fbn + r.psize
      && z.capacity == r.capacity && z.psize == r.psize && z.byte0 == r.byte0
      && z.head == nh
      && z.tail == (if TailJumps(r, fbn) then (nh + r.psize) % r.RoundedCap() else r.tail)
  {
  }

  /** An advance keeps the buffer ready. When the tail stays, the held range
      grows by exactly the head offset plus psize and abs_tail() stays; when
      it jumps, the range becomes all but one slot. Either way abs_tail()
      never moves backwards and abs_head becomes first_byte_num + psize. */
  lemma {:induction false} AdvanceAccounting(r: Ring, fbn: nat, payload: seq<bv8>)
    requires r.Ready() && fbn >= r.absHead && |payload| == r.psize
    requires var ho := fbn - r.absHead; ho % r.psize == 0 && ho <= r.psize && ho < r.RoundedCap()
    ensures var z := Advance(r, fbn, payload);
      && z.Ready()
      && z.absHead == fbn + r.psize
      && z.capacity == r.capacity && z.psize == r.psize && z.byte0 == r.byte0
      && z.head == (r.head + (fbn - r.absHead) + r.psize) % r.RoundedCap()
      && (!TailJumps(r, fbn) ==> z.tail == r.tail && z.Range() == r.Range() + (fbn - r.absHead) + r.psize)
      && (TailJumps(r, fbn) ==> z.Range() == r.RoundedCap() - r.psize)
      && z.AbsTail() >= r.AbsTail()
  {
    AdvanceFields(r, fbn, payload);
    AdvancedRange(r, Advance(r, fbn, payload), fbn);
  }

  /** The range arithmetic of an advance, for any ring with the fields an
      advance sets. */
  lemma AdvancedRange(r: Ring, z: Ring, fbn: nat)
    requires r.Ready() && fbn >= r.absHead
    requires var ho := fbn - r.absHead; ho % r.psize == 0 && ho <= r.psize && ho < r.RoundedCap()
    requires var nh := (r.head + (fbn - r.absHead) + r.psize) % r.RoundedCap();
      && z.Sized() && z.absHead == fbn + r.psize
      && z.capacity == r.capacity && z.psize == r.psize && z.byte0 == r.byte0
      && z.head == nh
      && z.tail == (if TailJumps(r, fbn) then (nh + r.psize) % r.RoundedCap() else r.tail)
    ensures z.Ready()
    ensures !TailJumps(r, fbn) ==> z.Range() == r.Range() + (fbn - r.absHead) + r.psize
    ensures TailJumps(r, fbn) ==> z.Range() == r.RoundedCap() - r.psize
    ensures z.AbsTail() >= r.AbsTail()
  {
    var rc, p, ho := r.RoundedCap(), r.psize, fbn - r.absHead;
    AdvanceHead(r.head, rc, p, ho);
    MultiplesApart(r.tail, rc, p);
    if r.head < rc {
      MultiplesApart(r.head, rc, p);
    }
    var nh := (r.head + ho + p) % rc;
    var nt := (nh + p) % rc;
    AdvanceTail(r.tail, r.head, rc, p, ho, nh, nt);
    SumOfMultiples(nh, p, p);
    assert nt < rc && nt % p == 0;
    ShapedLike(r, z);
  }

  /** The restart branch: the ring holds exactly the new packet, at index 0,
      with abs_tail() == first_byte_num. */
  lemma RestartAccounting(r: Ring, fbn: nat, payload: seq<bv8>)
    requires r.Ready() && |payload| == r.psize
    requires TryPut(r, fbn, payload).outcome == Restarted
    ensures var z := TryPut(r, fbn, payload).ring;
      && z.Ready() && z.capacity == r.capacity && z.psize == r.psize && z.byte0 == r.byte0
      && z.tail == 0 && z.head == r.psize && z.Range() == r.psize
      && z.absHead == fbn + r.psize && z.AbsTail() == fbn && fbn >= r.absHead
      && z.data[..r.psize] == payload && z.occupied[0]
  {
    RestartOnlyInOneSlotRing(r, fbn, payload);
    var p := r.psize;
    var c := Reset(r, p);
    assert (p + p) % p == 0 by {
      SumOfMultiples(p, p, p);
    }
  }

  /** fill_gap as written changes only bytes and flags, or nothing: a
      filled gap copies the packet to the index the offset maps to and
      flags that index, and nothing else. */
  lemma FillGapKeepsIndices(r: Ring, fbn: nat, payload: seq<bv8>)
    requires r.Ready() && r.AbsTail() <= fbn < r.absHead && |payload| == r.psize
    ensures var q := FillGap(r, fbn, payload);
      && q.outcome in {Filled, AssertFails, WildWrite}
      && (q.outcome != Filled ==> q.ring == r)
      && q.ring == r.(data := q.ring.data, occupied := q.ring.occupied)
      && q.ring.Sized()
    ensures var q := FillGap(r, fbn, payload);
      var pos := GapIndex(r, fbn - r.AbsTail());
      q.outcome == Filled ==>
        && 0 <= pos && pos + r.psize <= r.capacity
        && q.ring.data == Write(r.data, pos, payload)
        && q.ring.occupied == r.occupied[pos := true]
  {
  }

  /** Filling the same gap again with the same bytes changes nothing more:
      the indices stay, so the second call maps the offset to the same
      index, whose bytes and flag are already in place. */
  lemma {:induction false} FillGapIdempotent(r: Ring, fbn: nat, payload: seq<bv8>)
    requires r.Ready() && r.AbsTail() <= fbn < r.absHead && |payload| == r.psize
    requires FillGap(r, fbn, payload).outcome == Filled
    ensures var z := FillGap(r, fbn, payload).ring;
      && z.Ready() && z.AbsTail() == r.AbsTail()
      && FillGap(z, fbn, payload) == Put(z, Filled)
  {
    FillGapKeepsIndices(r, fbn, payload);
    var z := FillGap(r, fbn, payload).ring;
    var pos := GapIndex(r, fbn - r.AbsTail());
    FillGapOnIndices(r, z, fbn, payload);
    FillGapKeepsIndices(z, fbn, payload);
    WriteTwice(r.data, pos, payload);
    assert z.occupied[pos := true] == z.occupied;
  }

  /** What fill_gap decides, and where it writes, depends on the indices
      alone, not on the bytes or flags already held. */
  lemma FillGapOnIndices(r: Ring, z: Ring, fbn: nat, payload: seq<bv8>)
    requires r.Ready() && r.AbsTail() <= fbn < r.absHead && |payload| == r.psize
    requires z.Sized() && z == r.(data := z.data, occupied := z.occupied)
    ensures z.Ready() && z.AbsTail() == r.AbsTail()
    ensures FillGap(z, fbn, payload).outcome == FillGap(r, fbn, payload).outcome
    ensures GapIndex(z, fbn - r.AbsTail()) == GapIndex(r, fbn - r.AbsTail())
  {
    var off := fbn - r.AbsTail();
    assert z.RoundedCap() == r.RoundedCap() && z.SideOf(off) == r.SideOf(off);
  }

  /** try_put keeps the buffer ready and never moves abs_tail() or abs_head
      backwards; the packet size, capacity and byte0 stay; a dropped packet
      and a failed check leave the state as it was; a filled gap changes
      only bytes and flags. */
  lemma TryPutKeepsReady(r: Ring, fbn: nat, payload: seq<bv8>)
    requires r.Ready() && |payload| == r.psize
    ensures var q := TryPut(r, fbn, payload);
      && q.ring.Ready()
      && q.ring.capacity == r.capacity && q.ring.psize == r.psize && q.ring.byte0 == r.byte0
      && q.ring.absHead >= r.absHead && q.ring.AbsTail() >= r.AbsTail()
      && (q.outcome in {Behind, Dismissed, AssertFails, WildWrite} ==> q.ring == r)
      && (q.outcome == Filled ==> q.ring.tail == r.tail && q.ring.head == r.head && q.ring.absHead == r.absHead)
  {
    if fbn < r.AbsTail() {
    } else if fbn >= r.absHead {
      var ho := fbn - r.absHead;
      if ho % r.psize != 0 || ho > r.psize {
      } else if ho >= r.RoundedCap() {
        RestartAccounting(r, fbn, payload);
      } else {
        AdvanceAccounting(r, fbn, payload);
      }
    } else {
      FillGapKeepsIndices(r, fbn, payload);
      var z := FillGap(r, fbn, payload).ring;
      assert z.RoundedCap() == r.RoundedCap() && z.Range() == r.Range();
    }
  }

  /** dump_tail(n) writes the `n` bytes following the tail in ring order. */
  lemma EmittedInRingOrder(r: Ring, n: nat)
    requires r.Shaped() && n <= r.Range()
    ensures |Emitted(r, n)| == n
    ensures forall k :: 0 <= k < n ==> Emitted(r, n)[k] == r.data[(r.tail + k) % r.RoundedCap()]
  {
    var rc := r.RoundedCap();
    var c := Chunks(r, n);
    forall k | 0 <= k < n
      ensures Emitted(r, n)[k] == r.data[(r.tail + k) % rc]
    {
      ModSmall(r.tail + k, rc);
    }
  }

  /** dump_tail(n) clears what it wrote and moves the tail by n round the
      ring; head, abs_head and the sizes stay. */
  lemma DumpTailFields(r: Ring, n: nat)
    requires r.Ready() && n % r.psize == 0 && n <= r.Range()
    ensures var z := DumpTail(r, n);
      && z.Sized()
      && z.capacity == r.capacity && z.psize == r.psize && z.byte0 == r.byte0
      && z.head == r.head && z.absHead == r.absHead
      && z.tail == At(r, n)
      && (forall k :: 0 <= k < n ==> z.data[At(r, k)] == 0 && !z.occupied[At(r, k)])
  {
    var z := DumpTail(r, n);
    var rc := r.RoundedCap();
    var c := Chunks(r, n);
    var a := ZeroSpan(r, r.tail, r.tail + c.0);
    FillAt(r.data, r.tail, r.tail + c.0, 0);
    FillAt(r.occupied, r.tail, r.tail + c.0, false);
    FillAt(a.data, 0, c.1, 0);
    FillAt(a.occupied, 0, c.1, false);
    forall k | 0 <= k < n
      ensures z.data[At(r, k)] == 0 && !z.occupied[At(r, k)]
    {
      ModSmall(r.tail + k, rc);
    }
  }

  /** The ring index `n` bytes past the tail, for an aligned `n` within
      the range, is aligned and below the rounded capacity. */
  lemma AtAligned(r: Ring, n: nat)
    requires r.Shaped() && n % r.psize == 0 && n <= r.Range()
    ensures At(r, n) % r.psize == 0
    ensures r.tail + n < r.RoundedCap() ==> At(r, n) == r.tail + n
    ensures r.tail + n >= r.RoundedCap() ==> At(r, n) == r.tail + n - r.RoundedCap()
  {
    var rc, p := r.RoundedCap(), r.psize;
    ModSmall(r.tail + n, rc);
    SumOfMultiples(r.tail, n, p);
    if r.tail + n >= rc {
      SumOfMultiples(r.tail + n, rc, p);
    }
  }

  /** dump_tail(n) keeps the buffer ready. Below the rounded capacity the
      head is a real ring index and the held range shrinks by n, so
      abs_tail() grows by n. In the one-slot ring the restart branch
      leaves (head == rounded_cap), the range does not shrink. */
  lemma DumpTailAccounting(r: Ring, n: nat)
    requires r.Ready() && n % r.psize == 0 && n <= r.Range()
    ensures var z := DumpTail(r, n);
      && z.Ready()
      && (r.head < r.RoundedCap() ==> z.Range() == r.Range() - n && z.AbsTail() == r.AbsTail() + n)
      && (r.head == r.RoundedCap() ==> z.Range() == r.Range())
  {
    var z := DumpTail(r, n);
    DumpTailFields(r, n);
    AtAligned(r, n);
    var rc := r.RoundedCap();
    ShapedLike(r, z);
    assert r.Range() == Span(r.tail, r.head, rc);
    if r.head == rc {
      MultiplesApart(r.tail, rc, r.psize);
    }
  }

  /** Place writes the payload at `wp` and flags it. */
  lemma PlaceWrites(r: Ring, wp: nat, payload: seq<bv8>)
    requires r.Shaped() && |payload| == r.psize && wp + r.psize <= r.RoundedCap()
    ensures Place(r, wp, payload).data[wp..wp + r.psize] == payload
    ensures Place(r, wp, payload).occupied[wp]
  {
  }

  /** The facts an advance establishes, on any ring `z` that has them: the
      new packet's offset is held and maps to its write position. */
  lemma HeadPacketHeld(r: Ring, z: Ring, fbn: nat, wp: nat)
    requires r.Shaped() && z.Ready() && z.capacity == r.capacity && z.psize == r.psize
    requires z.absHead == fbn + r.psize && r.psize <= z.Range()
    requires wp + r.psize <= r.RoundedCap()
    requires z.head == (if wp + r.psize == r.RoundedCap() then 0 else wp + r.psize)
    ensures z.AbsTail() <= fbn < z.absHead
    ensures SlotOf(z, fbn) == wp
  {
    assert z.RoundedCap() == r.RoundedCap();
    assert z.Range() == Span(z.tail, z.head, r.RoundedCap());
    SlotBeforeHead(z.tail, z.head, r.RoundedCap(), r.psize, wp);
  }

  /** A packet accepted at the head is held afterwards: its offset lies in
      [abs_tail(), abs_head), maps to the ring index it was written at, and
      that index holds its bytes and is flagged. This needs a ring of more
      than one slot: in a one-slot ring the tail jumps onto the new head and
      the range becomes empty. */
  lemma AdvancedPacketHeld(r: Ring, fbn: nat, payload: seq<bv8>)
    requires r.Ready() && fbn >= r.absHead && |payload| == r.psize
    requires var ho := fbn - r.absHead; ho % r.psize == 0 && ho <= r.psize && ho < r.RoundedCap()
    requires r.psize < r.RoundedCap()
    ensures var z := Advance(r, fbn, payload);
      var wp := (r.head + (fbn - r.absHead)) % r.RoundedCap();
      && z.Ready() && z.AbsTail() <= fbn < z.absHead
      && SlotOf(z, fbn) == wp && wp + r.psize <= r.RoundedCap()
      && z.data[wp..wp + r.psize] == payload && z.occupied[wp]
  {
    var z := Advance(r, fbn, payload);
    var rc, p, ho := r.RoundedCap(), r.psize, fbn - r.absHead;
    var wp := (r.head + ho) % rc;
    AdvanceAccounting(r, fbn, payload);
    AdvanceSlot(r.head, rc, p, ho);
    MultiplesApart(p, rc, p);
    assert p <= z.Range();
    HeadPacketHeld(r, z, fbn, wp);
    PlaceWrites(r, wp, payload);
  }

  /** Dumping the whole range of `z` emits `payload` starting `off` bytes
      in. */
  predicate EmitsAt(z: Ring, off: nat, payload: seq<bv8>)
    requires z.Shaped()
  {
    off + |payload| <= z.Range()
    && forall j :: 0 <= j < |payload| ==> Emitted(z, z.Range())[off + j] == payload[j]
  }

  /** Dumping the whole range emits a held packet at its offset from
      abs_tail(). */
  lemma HeldPacketEmitted(z: Ring, a: nat, payload: seq<bv8>)
    requires z.Ready() && z.AbsTail() <= a && a + z.psize <= z.absHead
    requires |payload| == z.psize
    requires SlotOf(z, a) + z.psize <= z.RoundedCap()
    requires z.data[SlotOf(z, a)..SlotOf(z, a) + z.psize] == payload
    ensures EmitsAt(z, a - z.AbsTail(), payload)
  {
    var off := a - z.AbsTail();
    EmittedInRingOrder(z, z.Range());
    forall j | 0 <= j < z.psize
      ensures Emitted(z, z.Range())[off + j] == payload[j]
    {
      AtShift(z, off, j);
      assert Emitted(z, z.Range())[off + j] == z.data[At(z, off + j)];
      assert payload[j] == z.data[SlotOf(z, a) + j];
    }
  }

  /** Within one packet the ring index moves on with the offset. */
  lemma AtShift(z: Ring, off: nat, j: nat)
    requires z.Shaped() && off + j < z.RoundedCap() && At(z, off) + j < z.RoundedCap()
    ensures At(z, off + j) == At(z, off) + j
  {
    var rc := z.RoundedCap();
    ModSmall(z.tail + off, rc);
    ModSmall(z.tail + off + j, rc);
  }

  /** The end-to-end property of a head push: once try_put advances with a
      packet, dumping the whole range emits that packet's bytes at its
      offset from abs_tail(). */
  lemma PushedPacketEmitted(r: Ring, fbn: nat, payload: seq<bv8>)
    requires r.Ready() && |payload| == r.psize && r.psize < r.RoundedCap()
    requires TryPut(r, fbn, payload).outcome == Advanced
    ensures var z := TryPut(r, fbn, payload).ring;
      && z.Ready() && z.AbsTail() <= fbn
      && EmitsAt(z, fbn - z.AbsTail(), payload)
  {
    TryPutAdvanced(r, fbn, payload);
    var z := Advance(r, fbn, payload);
    AdvancedPacketHeld(r, fbn, payload);
    AdvanceAccounting(r, fbn, payload);
    HeldPacketEmitted(z, fbn, payload);
  }

  /** try_put advances exactly on a head push by at most one slot that
      stays within one turn. */
  lemma TryPutAdvanced(r: Ring, fbn: nat, payload: seq<bv8>)
    requires r.Ready() && |payload| == r.psize
    ensures TryPut(r, fbn, payload).outcome == Advanced <==>
      var ho := fbn - r.absHead;
      fbn >= r.absHead && ho % r.psize == 0 && ho <= r.psize && ho < r.RoundedCap()
    ensures TryPut(r, fbn, payload).outcome == Advanced ==> TryPut(r, fbn, payload).ring == Advance(r, fbn, payload)
  {
  }

  /** The walk of cnt_upto_gap from ring offset `off`: the slots it counts
      are all occupied, they fit before one full turn, and when it stops
      short of a full turn the slot it stopped at is free. */
  lemma {:induction false} RunFromCovers(r: Ring, off: nat)
    requires r.Shaped() && off <= r.RoundedCap() && off % r.psize == 0
    ensures off + RunFrom(r, off) * r.psize <= r.RoundedCap()
    ensures forall o :: off <= o < off + RunFrom(r, off) * r.psize && o % r.psize == 0 ==> r.occupied[At(r, o)]
    ensures off + RunFrom(r, off) * r.psize < r.RoundedCap() ==> !r.occupied[At(r, off + RunFrom(r, off) * r.psize)]
    decreases r.RoundedCap() - off
  {
    var rc, p := r.RoundedCap(), r.psize;
    if off < rc {
      RunFromStep(r, off);
      if r.occupied[At(r, off)] {
        RunFromCovers(r, off + p);
        var c := RunFrom(r, off + p);
        OneMore(c, p);
        CoversStep(r, off, off + p + c * p);
      }
    }
  }

  /** One step of the cnt_upto_gap walk. */
  lemma RunFromStep(r: Ring, off: nat)
    requires r.Shaped() && off < r.RoundedCap() && off % r.psize == 0
    ensures off + r.psize <= r.RoundedCap() && (off + r.psize) % r.psize == 0
    ensures RunFrom(r, off) == if r.occupied[At(r, off)] then 1 + RunFrom(r, off + r.psize) else 0
  {
    MultiplesApart(off, r.RoundedCap(), r.psize);
    SumOfMultiples(off, r.psize, r.psize);
  }

  /** An occupied slot at `off` followed by occupied slots up to `e` makes
      the slots from `off` up to `e` occupied. */
  lemma CoversStep(r: Ring, off: nat, e: int)
    requires r.Shaped() && off % r.psize == 0 && r.occupied[At(r, off)]
    requires forall o :: off + r.psize <= o < e && o % r.psize == 0 ==> r.occupied[At(r, o)]
    ensures forall o :: off <= o < e && o % r.psize == 0 ==> r.occupied[At(r, o)]
  {
    forall o | off <= o < e && o % r.psize == 0
      ensures r.occupied[At(r, o)]
    {
      if o != off {
        MultiplesApart(off, o, r.psize);
      }
    }
  }

  lemma OneMore(c: nat, p: nat)
    ensures (1 + c) * p == p + c * p
  {
  }

  /** cnt_upto_gap() counts the occupied slots from the tail up to the first
      free one, never more than fit in the ring. */
  lemma CountUpToGapMeaning(r: Ring)
    requires r.Shaped()
    ensures CountUpToGap(r) * r.psize <= r.RoundedCap()
    ensures forall o :: 0 <= o < CountUpToGap(r) * r.psize && o % r.psize == 0 ==> r.occupied[At(r, o)]
    ensures CountUpToGap(r) * r.psize < r.RoundedCap() ==> !r.occupied[At(r, CountUpToGap(r) * r.psize)]
  {
    RunFromCovers(r, 0);
  }

  /** The next index of the walk. */
  lemma StepAt(r: Ring, o: nat)
    requires r.Shaped() && o + r.psize <= r.RoundedCap()
    ensures (At(r, o) + r.psize) % r.RoundedCap() == At(r, o + r.psize)
  {
    var rc := r.RoundedCap();
    ModSmall(r.tail + o, rc);
    ModSmall(r.tail + o + r.psize, rc);
    ModSmall(At(r, o) + r.psize, rc);
  }

  /** An aligned offset lands on an aligned index with room for a packet
      before the rounded capacity. */
  lemma AlignedSlot(r: Ring, o: nat)
    requires r.Shaped() && o % r.psize == 0
    ensures At(r, o) % r.psize == 0 && At(r, o) + r.psize <= r.RoundedCap()
  {
    var rc, p := r.RoundedCap(), r.psize;
    SumOfMultiples(r.tail, o, p);
    ModOfAligned(r.tail + o, rc, p);
    MultiplesApart(At(r, o), rc, p);
  }

  /** Reducing an aligned value modulo an aligned modulus keeps it aligned. */
  lemma ModOfAligned(x: nat, m: nat, p: nat)
    requires 0 < p && 0 < m && m % p == 0 && x % p == 0
    ensures (x % m) % p == 0
  {
    var k, y := m / p, x / p;
    assert m == k * p && x == y * p;
    var q := x / m;
    assert x == q * m + x % m;
    assert q * m == (q * k) * p;
    var d: int := y - q * k;
    assert x % m == d * p;
    MultipleMod(d, p);
  }
}
