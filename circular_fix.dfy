/** fill_gap (src/common/circular_buffer.cc:87-98) computes the ring index
    of a gap from its offset past the tail, but hands the offset to sideof,
    which classifies ring indices, and in the wrapped case subtracts
    `rounded_cap - tail` instead of `rounded_cap`. This module exhibits both
    effects on the model of the code as written and proves the intended
    behaviour of a corrected fill: the packet lands at the ring index its
    absolute offset maps to. */
module CircularFix {
  import opened Mem
  import opened Arith
  import opened CircularSpec
  import opened CircularProps

  /** With 0 < tail <= head, an offset below `tail` is classified NONE and
      the assert fires, although the offset is inside the held range. */
  lemma FillGapRejectsHeldOffset()
    ensures var r := Ring(4, 1, 1, 3, 10, 0, seq(4, _ => 0), seq(4, _ => false));
      && r.Ready() && r.AbsTail() <= 8 < r.absHead
      && TryPut(r, 8, [7]).outcome == AssertFails
  {
    var r := Ring(4, 1, 1, 3, 10, 0, seq(4, _ => 0), seq(4, _ => false));
    assert r.RoundedCap() == 4;
    assert r.AbsTail() == 8;
  }

  /** With the range wrapped (tail > head), the packet at abs_tail() belongs
      at index `tail` == 3, but fill_gap writes it at index 2, outside the
      held range, so dumping the range does not emit it. */
  lemma FillGapWritesOutsideSlot()
    ensures var r := Ring(4, 1, 3, 1, 10, 0, seq(4, _ => 0), seq(4, _ => false));
      && r.Ready() && r.AbsTail() == 8 && SlotOf(r, 8) == 3
      && var q := TryPut(r, 8, [7]);
      && q.outcome == Filled
      && q.ring.data[2] == 7 && q.ring.data[3] == 0
      && Emitted(q.ring, q.ring.Range())[0] == 0
  {
    var r := Ring(4, 1, 3, 1, 10, 0, seq(4, _ => 0), seq(4, _ => false));
    assert r.RoundedCap() == 4;
    assert r.Range() == 2;
    var q := TryPut(r, 8, [7]);
    assert r.SideOf(0) == Left;
    assert q.ring.data == Write(r.data, 2, [7]);
    WriteAt(r.data, 2, [7]);
  }

  /** The fill as intended: an aligned offset inside the held range is
      written at the ring index it maps to. */
  function FillGapCorrected(r: Ring, fbn: nat, payload: seq<bv8>): (q: Put)
    requires r.Ready() && r.AbsTail() <= fbn < r.absHead && |payload| == r.psize
    ensures q.outcome in {Filled, AssertFails}
  {
    var off := fbn - r.AbsTail();
    if off % r.psize != 0 then Put(r, AssertFails)
    else
      var pos := SlotOf(r, fbn);
      SlotRoom(r, off);
      Put(r.(data := Write(r.data, pos, payload), occupied := r.occupied[pos := true]), Filled)
  }

  /** try_put with the corrected fill. */
  function TryPutCorrected(r: Ring, fbn: nat, payload: seq<bv8>): Put
    requires r.Ready() && |payload| == r.psize
  {
    if fbn < r.AbsTail() then Put(r, Behind)
    else if fbn >= r.absHead then PushHead(r, fbn, payload)
    else FillGapCorrected(r, fbn, payload)
  }

  /** The held range is a whole number of packets. */
  lemma RangeAligned(r: Ring)
    requires r.Shaped()
    ensures r.Range() % r.psize == 0
  {
    var rc, p := r.RoundedCap(), r.psize;
    if r.tail <= r.head {
      SumOfMultiples(r.head, r.tail, p);
    } else {
      SumOfMultiples(rc, r.tail, p);
      SumOfMultiples(r.head, rc - r.tail, p);
    }
  }

  /** An aligned offset inside the held range maps to an aligned index with
      room for a packet, and the packet ends inside the range. */
  lemma SlotRoom(r: Ring, off: nat)
    requires r.Shaped() && off % r.psize == 0 && off < r.Range()
    ensures At(r, off) % r.psize == 0 && At(r, off) + r.psize <= r.RoundedCap()
    ensures off + r.psize <= r.Range()
  {
    AtAligned(r, off);
    MultiplesApart(At(r, off), r.RoundedCap(), r.psize);
    RangeAligned(r);
    MultiplesApart(off, r.Range(), r.psize);
  }

  /** A corrected fill keeps the indices and stores the packet at its
      slot, flagged. */
  lemma FilledGapHeld(r: Ring, fbn: nat, payload: seq<bv8>)
    requires r.Ready() && r.AbsTail() <= fbn < r.absHead && |payload| == r.psize
    requires FillGapCorrected(r, fbn, payload).outcome == Filled
    ensures var z := FillGapCorrected(r, fbn, payload).ring;
      && z.Ready() && z.tail == r.tail && z.head == r.head && z.absHead == r.absHead
      && z.psize == r.psize && z.AbsTail() == r.AbsTail() && fbn + r.psize <= z.absHead
      && SlotOf(z, fbn) == SlotOf(r, fbn) && SlotOf(z, fbn) + z.psize <= z.RoundedCap()
      && z.data[SlotOf(z, fbn)..SlotOf(z, fbn) + z.psize] == payload
      && z.occupied[SlotOf(z, fbn)]
  {
    var z := FillGapCorrected(r, fbn, payload).ring;
    SlotRoom(r, fbn - r.AbsTail());
    assert z.RoundedCap() == r.RoundedCap() && z.Range() == r.Range();
  }

  /** After a corrected fill, dumping the whole range emits the packet at
      its offset from abs_tail(). */
  lemma FilledGapEmitted(r: Ring, fbn: nat, payload: seq<bv8>)
    requires r.Ready() && |payload| == r.psize
    requires TryPutCorrected(r, fbn, payload).outcome == Filled
    ensures var z := TryPutCorrected(r, fbn, payload).ring;
      && z.Ready() && z.AbsTail() <= fbn
      && EmitsAt(z, fbn - z.AbsTail(), payload)
  {
    TryPutCorrectedFilled(r, fbn, payload);
    var z := FillGapCorrected(r, fbn, payload).ring;
    FilledGapHeld(r, fbn, payload);
    HeldPacketEmitted(z, fbn, payload);
  }

  /** Only the gap fill reports Filled. */
  lemma TryPutCorrectedFilled(r: Ring, fbn: nat, payload: seq<bv8>)
    requires r.Ready() && |payload| == r.psize
    ensures TryPutCorrected(r, fbn, payload).outcome == Filled ==>
      r.AbsTail() <= fbn < r.absHead && TryPutCorrected(r, fbn, payload) == FillGapCorrected(r, fbn, payload)
  {
  }

  /** Filling the same packet again changes nothing. */
  lemma FillGapCorrectedIdempotent(r: Ring, fbn: nat, payload: seq<bv8>)
    requires r.Ready() && |payload| == r.psize
    requires TryPutCorrected(r, fbn, payload).outcome == Filled
    ensures var z := TryPutCorrected(r, fbn, payload).ring;
      && z.Ready() && TryPutCorrected(z, fbn, payload) == Put(z, Filled)
  {
    var z := FillGapCorrected(r, fbn, payload).ring;
    var pos := SlotOf(r, fbn);
    FilledGapHeld(r, fbn, payload);
    WriteTwice(r.data, pos, payload);
    assert z.occupied[pos := true] == z.occupied;
  }

  /** The corrected fill never changes the indices, so try_put with it
      keeps the buffer ready and abs_tail() monotone just as before. */
  lemma TryPutCorrectedKeepsReady(r: Ring, fbn: nat, payload: seq<bv8>)
    requires r.Ready() && |payload| == r.psize
    ensures var q := TryPutCorrected(r, fbn, payload);
      && q.ring.Ready() && q.ring.psize == r.psize && q.ring.capacity == r.capacity
      && q.ring.absHead >= r.absHead && q.ring.AbsTail() >= r.AbsTail()
  {
    if r.AbsTail() <= fbn < r.absHead {
      var z := FillGapCorrected(r, fbn, payload).ring;
      assert z.RoundedCap() == r.RoundedCap() && z.Range() == r.Range();
    } else {
      TryPutKeepsReady(r, fbn, payload);
    }
  }
}
