/** Properties of the cyclical_buffer operations
    (src/utils/cyclical_buffer.cc), and a corrected pop_tail. */
module CyclicalProps {
  import opened Mem
  import opened Arith
  import opened RingArith
  import opened CyclicalSpec
  import opened RingHelpers

  /** reset(psize) empties the ring and zeroes every byte and flag. */
  lemma ResetEmpties(c: Cyc, psize: nat)
    requires c.Sized() && 0 < psize <= c.capacity
    ensures var z := Reset(c, psize);
      && z.Shaped() && z.Empty() && z.tail == 0 && z.head == 0 && z.psize == psize
      && (forall i :: 0 <= i < z.capacity ==> z.data[i] == 0 && !z.occupied[i])
  {
    FillAt(c.data, 0, c.capacity, 0);
    FillAt(c.occupied, 0, c.capacity, false);
  }

  /** The ENSURE checks of pop_tail in terms of the held range: on an
      unwrapped range they let through exactly the aligned, non-zero `n` up
      to one byte past the range (sideof is head-inclusive); on a wrapped
      range, exactly the aligned `n` within the range. */
  lemma {:induction false} PopAllowedIff(c: Cyc, n: nat)
    requires c.Shaped()
    ensures PopAllowed(c, n) <==>
      n % c.psize == 0
      && (c.tail <= c.head ==> 1 <= n <= c.Range() + 1)
      && (c.tail > c.head ==> n <= c.Range())
  {
  }

  /** sideof and is_between (src/utils/buffer.cc) classify the same cells
      as held, given the rounded capacity as the ring size. */
  lemma SideOfIsBetween(c: Cyc, idx: nat)
    requires c.Shaped()
    ensures c.SideOf(idx) != Nowhere <==> IsBetween(c.tail, c.head, c.RoundedCap(), idx)
  {
  }

  /** With packets of two bytes or more, the head-inclusive check admits
      nothing past the range: an allowed pop takes at most range() bytes. */
  lemma PopAllowedWithinRange(c: Cyc, n: nat)
    requires c.Shaped() && c.psize >= 2 && PopAllowed(c, n)
    ensures n <= c.Range()
  {
    if c.tail <= c.head {
      SumOfMultiples(c.head, c.tail, c.psize);
      if n > c.Range() {
        MultiplesApart(c.Range(), n, c.psize);
      }
    }
  }

  /** The ring and the range after a pop_tail that took `n <= range()`
      bytes: the tail moves n round the ring, the head stays, the range
      shrinks by n (when the head is a real index) and the buffer stays
      shaped. */
  lemma PopTailAccounting(c: Cyc, n: nat)
    requires c.Shaped() && n <= c.Range() && PopTail(c, n).status == Done
    ensures var z := PopTail(c, n).ring;
      && z.Shaped() && z.head == c.head && z.psize == c.psize && z.capacity == c.capacity
      && z.tail == (c.tail + n) % c.RoundedCap()
      && (c.head < c.RoundedCap() ==> z.Range() == c.Range() - n)
  {
    var rc, p := c.RoundedCap(), c.psize;
    var z := PopTail(c, n).ring;
    ModSmall(c.tail + n, rc);
    SumOfMultiples(c.tail, n, p);
    if c.tail + n >= rc {
      SumOfMultiples(c.tail + n, rc, p);
    }
    assert z.RoundedCap() == rc;
    assert z.Range() == Span(z.tail, z.head, rc);
    assert c.Range() == Span(c.tail, c.head, rc);
  }

  /** What pop_tail copies: the first chunk only. When the range wraps and
      `n` reaches past the rounded capacity, fewer than `n` bytes reach
      `dst`, although the second chunk is cleared and the tail moves by
      all n. */
  lemma PopTailCopiesFirstChunk(c: Cyc, n: nat)
    requires c.Shaped() && PopTail(c, n).status == Done
    ensures PopTail(c, n).copied == c.data[c.tail..c.tail + FirstChunk(c, n)]
    ensures c.tail > c.head && n > c.RoundedCap() - c.tail ==> |PopTail(c, n).copied| < n
  {
    var fst := FirstChunk(c, n);
    SecondChunkFits(c, n);
    if n - fst > 0 {
      FillAt(c.data, 0, n - fst, 0);
      assert n - fst <= c.head < c.tail;
    }
  }

  /** A wrapped pop of two bytes from a ring holding [4, 1] (index 3, then
      index 0) copies only [4]; the byte 1 is cleared and lost. */
  lemma PopTailLosesSecondChunk()
    ensures var c := Cyc(4, 1, 3, 1, [1, 2, 3, 4], [true, false, false, true]);
      && c.Shaped() && c.Range() == 2
      && var q := PopTail(c, 2);
      && q.status == Done && q.copied == [4]
      && q.ring.data[0] == 0 && q.ring.tail == 1 && q.ring.head == 1
  {
    var c := Cyc(4, 1, 3, 1, [1, 2, 3, 4], [true, false, false, true]);
    assert c.RoundedCap() == 4;
    var a := ZeroSpan(c, 0, 1);
    FillAt(c.data, 0, 1, 0);
    assert a.data == [0, 2, 3, 4];
  }

  /** With one-byte packets, popping one byte more than the unwrapped
      range passes the check, and the range afterwards is larger than
      before: the tail has overtaken the head. */
  lemma PopTailOvershootsWithUnitPackets()
    ensures var c := Cyc(4, 1, 0, 2, [1, 2, 0, 0], [true, true, false, false]);
      && c.Shaped() && c.Range() == 2
      && var q := PopTail(c, 3);
      && q.status == Done && q.ring.Shaped() && q.ring.tail == 3 && q.ring.Range() == 3
  {
    var c := Cyc(4, 1, 0, 2, [1, 2, 0, 0], [true, true, false, false]);
    assert c.RoundedCap() == 4;
  }

  /** pop_tail as intended: an aligned `n` within the range is copied out
      whole, both chunks in ring order, and cleared. */
  function PopTailCorrected(c: Cyc, n: nat): (q: Popped)
    requires c.Shaped()
    ensures q.ring.Sized()
  {
    if n % c.psize != 0 || n > c.Range() then Popped(c, [], CheckFails)
    else
      var fst := FirstChunk(c, n);
      var snd := n - fst;
      var copied := c.data[c.tail..c.tail + fst] + c.data[..snd];
      var a := ZeroSpan(ZeroSpan(c, c.tail, c.tail + fst), 0, snd);
      Popped(a.(tail := (c.tail + n) % c.RoundedCap()), copied, Done)
  }

  /** The ring index `k` bytes past the tail. */
  function Pos(c: Cyc, k: nat): (i: nat)
    requires c.Shaped()
    ensures i < c.RoundedCap()
  {
    Wrap(c.tail, k, c.RoundedCap())
  }

  /** Two chunks, from `t` up to the rounded capacity and then from 0,
      read the ring in order. */
  lemma ChunksInOrder<T>(s: seq<T>, t: nat, rc: nat, n: nat, fst: nat)
    requires t < rc <= |s| && n <= rc && fst == (if t + n > rc then rc - t else n)
    ensures |s[t..t + fst] + s[..n - fst]| == n
    ensures forall k :: 0 <= k < n ==> (s[t..t + fst] + s[..n - fst])[k] == s[Wrap(t, k, rc)]
  {
    var r := s[t..t + fst] + s[..n - fst];
    forall k | 0 <= k < n
      ensures r[k] == s[Wrap(t, k, rc)]
    {
      ModSmall(t + k, rc);
    }
  }

  /** Clearing both chunks clears every ring index they cover. */
  lemma ChunksCleared<T>(s: seq<T>, t: nat, rc: nat, n: nat, fst: nat, v: T)
    requires t < rc <= |s| && n <= rc && fst == (if t + n > rc then rc - t else n)
    ensures forall k :: 0 <= k < n ==> Fill(Fill(s, t, t + fst, v), 0, n - fst, v)[Wrap(t, k, rc)] == v
  {
    var a := Fill(s, t, t + fst, v);
    var b := Fill(a, 0, n - fst, v);
    FillAt(s, t, t + fst, v);
    FillAt(a, 0, n - fst, v);
    forall k | 0 <= k < n
      ensures b[Wrap(t, k, rc)] == v
    {
      ModSmall(t + k, rc);
      if t + k < rc {
        assert a[t + k] == v;
      } else {
        assert t + k - rc < n - fst;
      }
    }
  }

  /** The corrected pop accepts exactly the aligned `n` within the range,
      copies the n bytes following the tail in ring order, clears them and
      moves the tail past them. */
  lemma PopTailCorrectedCopiesRange(c: Cyc, n: nat)
    requires c.Shaped()
    ensures PopTailCorrected(c, n).status == Done <==> n % c.psize == 0 && n <= c.Range()
    ensures var q := PopTailCorrected(c, n);
      q.status == Done ==>
        && |q.copied| == n
        && (forall k :: 0 <= k < n ==> q.copied[k] == c.data[Pos(c, k)])
        && (forall k :: 0 <= k < n ==> q.ring.data[Pos(c, k)] == 0 && !q.ring.occupied[Pos(c, k)])
        && q.ring.tail == Pos(c, n) && q.ring.head == c.head
  {
    var q := PopTailCorrected(c, n);
    if q.status == Done {
      var rc := c.RoundedCap();
      var fst := FirstChunk(c, n);
      assert fst == (if c.tail + n > rc then rc - c.tail else n);
      ChunksInOrder(c.data, c.tail, rc, n, fst);
      ChunksCleared(c.data, c.tail, rc, n, fst, 0);
      ChunksCleared(c.occupied, c.tail, rc, n, fst, false);
    }
  }

  /** fill_gap changes at most one packet's bytes and one flag, never the
      indices, and filling the same bytes again changes nothing more. */
  lemma FillGapIdempotent(c: Cyc, payload: seq<bv8>, offset: nat)
    requires c.Shaped() && |payload| == c.psize
    ensures var q := FillGap(c, payload, offset);
      && q.ring == c.(data := q.ring.data, occupied := q.ring.occupied)
      && (q.status != Done ==> q.ring == c)
      && (q.status == Done ==> q.ring.Shaped() && FillGap(q.ring, payload, offset) == q)
  {
    var q := FillGap(c, payload, offset);
    if q.status == Done {
      var z := q.ring;
      assert z.RoundedCap() == c.RoundedCap();
      assert z.SideOf(offset) == c.SideOf(offset);
      var rc := c.RoundedCap();
      var side := c.SideOf(offset);
      var shifted := c.tail > c.head && side == Left;
      var pos := if shifted then c.tail + offset - (rc - c.tail) else c.tail + offset;
      WriteTwice(c.data, pos, payload);
      assert z.occupied[pos := true] == z.occupied;
    }
  }

  /** The restart branch of push_head, taken for an offset of at least the
      rounded capacity: one packet at index 0, flagged, the head one packet
      in, and the tail one packet further (mod the rounded capacity), so
      the range claims psize bytes in a ring of at most two slots and all
      but one slot otherwise, with the new packet last. */
  lemma RestartLayout(c: Cyc, payload: seq<bv8>)
    requires c.Shaped() && |payload| == c.psize
    ensures var z := Restart(c, payload);
      var rc, p := c.RoundedCap(), c.psize;
      && z.Shaped() && z.head == p
      && z.data[..p] == payload && z.occupied[0]
      && (forall i :: p <= i < z.capacity ==> z.data[i] == 0 && !z.occupied[i])
      && z.Range() == (if rc <= 2 * p then p else rc - p)
  {
    var rc, p := c.RoundedCap(), c.psize;
    var r := Reset(c, p);
    FillAt(c.data, 0, c.capacity, 0);
    FillAt(c.occupied, 0, c.capacity, false);
    WriteAt(r.data, 0, payload);
    SumOfMultiples(p, p, p);
    if rc > p {
      MultiplesApart(p, rc, p);
      if rc > p + p {
        MultiplesApart(p + p, rc, p);
      }
    }
    ModSmall(p + p, rc);
    var z := Restart(c, payload);
    assert z.RoundedCap() == rc;
  }

  /** A buffer with the sizes of a shaped one and aligned indices inside
      its rounded capacity, the head short of it, is shaped. */
  lemma ShapedByFields(c: Cyc, z: Cyc)
    requires c.Shaped() && z.Sized() && z.capacity == c.capacity && z.psize == c.psize
    requires z.tail < c.RoundedCap() && z.head < c.RoundedCap()
    requires z.tail % c.psize == 0 && z.head % c.psize == 0
    ensures z.Shaped() && z.RoundedCap() == c.RoundedCap()
  {
  }

  /** An advancing push_head keeps the buffer shaped: the new head is one
      packet past `write_pos`, wrapping to 0 at the rounded capacity, and
      the tail either stays or sits one packet past the new head. */
  lemma AdvanceShaped(c: Cyc, payload: seq<bv8>, offset: nat)
    requires c.Shaped() && |payload| == c.psize
    requires offset % c.psize == 0 && offset < c.RoundedCap()
    ensures var z := Advance(c, payload, offset);
      var rc, p := c.RoundedCap(), c.psize;
      var wp := (c.head + offset) % rc;
      && z.Shaped() && z.RoundedCap() == rc && wp + p <= rc
      && z.head == (if wp + p == rc then 0 else wp + p)
      && (z.tail == c.tail || z.tail == (z.head + p) % rc)
  {
    var rc, p := c.RoundedCap(), c.psize;
    AdvanceHead(c.head, rc, p, offset);
    AdvanceSlot(c.head, rc, p, offset);
    var z := Advance(c, payload, offset);
    var nh := (c.head + offset + p) % rc;
    assert z.capacity == c.capacity && z.psize == p;
    assert z.head == nh && z.tail == NewTail(c, offset);
    var nt := (nh + p) % rc;
    assert NewTail(c, offset) == c.tail || NewTail(c, offset) == nt;
    SumOfMultiples(nh, p, p);
    assert nt % p == 0 by {
      if nh + p < rc {
        assert nt == nh + p;
      } else {
        assert nt == 0;
      }
    }
    assert z.tail < rc && z.tail % p == 0;
    ShapedByFields(c, z);
  }

  /** An advancing push_head stores the packet at `write_pos` and flags
      it: the packet ends exactly at the new head. */
  lemma AdvanceWrites(c: Cyc, payload: seq<bv8>, offset: nat)
    requires c.Shaped() && |payload| == c.psize
    requires offset % c.psize == 0 && offset < c.RoundedCap()
    ensures var wp := (c.head + offset) % c.RoundedCap();
      var z := Advance(c, payload, offset);
      && wp + c.psize <= c.capacity
      && z.data[wp..wp + c.psize] == payload && z.occupied[wp]
  {
    var rc := c.RoundedCap();
    var wp := (c.head + offset) % rc;
    WritePosRoom(c, offset);
    var b := Clear(c, c.head, wp, rc);
    WriteAt(b.data, wp, payload);
  }
}
