/** The receive loop of src/receiver.cc as values: the reference state of
    `get_write_pos` (absolute and relative head and tail plus the pending
    intervals), the write position it chooses, and the session reset and
    flush trigger of `run`. */
module RxSpec {
  import opened Wrappers
  import opened Mem
  import opened Arith
  import opened Pending
  import opened RingHelpers

  /** flush_threshold(byte0, bsize): three quarters of the buffer past
      byte0, rounded down. */
  function FlushThreshold(byte0: nat, bsize: nat): (t: nat)
    ensures byte0 <= t <= byte0 + bsize
    ensures 4 * (t - byte0) <= 3 * bsize < 4 * (t - byte0) + 4
  {
    byte0 + bsize * 3 / 4
  }

  /** The reference parameters of get_write_pos. */
  datatype Refs = Refs(pending: seq<Interval>, absHead: nat, absTail: nat, relHead: nat, relTail: nat)

  /** The result of get_write_pos: the new references and the write
      position, or `fault` when remove_pending dereferenced end(). */
  datatype Placed = Placed(refs: Refs, pos: Option<nat>, fault: bool)

  /** get_write_pos(pkt, pending, bsize, psize, ...) for a packet starting
      at byte `fbn`. */
  function WritePos(r: Refs, fbn: nat, bsize: nat, psize: nat): (q: Placed)
    requires 0 < bsize
  {
    if fbn < r.absTail then Placed(r, None, false)
    else if fbn > r.absHead then
      if fbn - r.absHead >= bsize then Placed(r, None, false)
      else Advanced(r, fbn, bsize, psize)
    else
      Placed(r.(pending := SplitPending(r.pending, psize, fbn)), Some((r.relTail + (fbn - r.absTail)) % bsize + r.relTail), false)
  }

  /** The advancing branch of get_write_pos (src/receiver.cc:219-235): the
      head moves to the packet, overwriting old data when it lands inside
      [rel_tail, rel_head]. */
  function Advanced(r: Refs, fbn: nat, bsize: nat, psize: nat): (q: Placed)
    requires 0 < bsize && r.absHead < fbn
  {
    var headOffset := fbn - r.absHead;
    var newRelHead := (r.relHead + headOffset) % bsize + r.relTail;
    if IsBetween(r.relTail, r.relHead, bsize, newRelHead) then Overwritten(r, fbn, bsize, psize)
    else
      Placed(Refs(Skipped(r.pending, r.absHead, fbn, psize), fbn + psize, r.absTail, newRelHead, r.relTail), Some(newRelHead), false)
  }

  /** An advance that overwrites old data: the tail follows the head and
      remove_pending forgets the packets before the new tail. */
  function Overwritten(r: Refs, fbn: nat, bsize: nat, psize: nat): (q: Placed)
    requires 0 < bsize && r.absHead < fbn
  {
    var kept := RemovePending(r.pending, psize, Sub64(r.absTail + (fbn - r.absHead), psize));
    if kept.None? then Placed(r, None, true)
    else
      var z := Moved(r, fbn, bsize, psize, kept.value);
      Placed(z, Some(z.relHead), false)
  }

  /** The references after an overwrite that keeps `kept` pending: both
      ends move by the head offset. */
  function Moved(r: Refs, fbn: nat, bsize: nat, psize: nat, kept: seq<Interval>): (z: Refs)
    requires 0 < bsize && r.absHead < fbn
  {
    var headOffset := fbn - r.absHead;
    Refs(kept, fbn + psize, r.absTail + headOffset,
      (r.relHead + headOffset) % bsize + r.relTail, (r.relTail + headOffset) % bsize + r.relTail)
  }

  /** get_write_pos dismisses a packet behind the tail or a buffer or more
      ahead of the head, and changes nothing then. */
  lemma WritePosDismisses(r: Refs, fbn: nat, bsize: nat, psize: nat)
    requires 0 < bsize
    ensures var q := WritePos(r, fbn, bsize, psize);
      (fbn < r.absTail || fbn >= r.absHead + bsize) ==> q == Placed(r, None, false)
  {
  }

  /** A packet between the tail and the head (the head included) fills a
      gap: only the pending set changes, by split_pending, and the packet
      goes `fbn - abs_tail` bytes past the relative tail. */
  lemma WritePosFillsGap(r: Refs, fbn: nat, bsize: nat, psize: nat)
    requires 0 < bsize && r.absTail <= fbn <= r.absHead
    ensures var q := WritePos(r, fbn, bsize, psize);
      && q.refs == r.(pending := SplitPending(r.pending, psize, fbn))
      && q.pos == Some((r.relTail + (fbn - r.absTail)) % bsize + r.relTail)
      && !q.fault
  {
  }

  /** A normal advance: the head moves past the packet, the tail stays, and
      on aligned byte numbers the pending packets grow by exactly the ones
      skipped between the old head and this packet. */
  lemma WritePosRecordsSkipped(r: Refs, fbn: nat, bsize: nat, psize: nat, x: nat)
    requires 0 < psize && 0 < bsize && r.absTail <= r.absHead < fbn < r.absHead + bsize
    requires Sorted(r.pending) && fbn % psize == r.absHead % psize && x % psize == r.absHead % psize
    requires !IsBetween(r.relTail, r.relHead, bsize, (r.relHead + (fbn - r.absHead)) % bsize + r.relTail)
    ensures var q := WritePos(r, fbn, bsize, psize);
      && !q.fault && q.pos.Some?
      && q.refs.absHead == fbn + psize && q.refs.absTail == r.absTail && q.refs.relTail == r.relTail
      && Sorted(q.refs.pending)
      && (Holds(q.refs.pending, x) <==> Holds(r.pending, x) || r.absHead <= x < fbn)
  {
    SkippedPending(r.pending, r.absHead, fbn, psize, x);
  }

  /** The pending set a normal advance leaves: the skipped packets
      `[head, fbn - psize]` are inserted when there is at least one. */
  function Skipped(pending: seq<Interval>, head: nat, fbn: nat, psize: nat): seq<Interval>
  {
    if fbn + psize - head >= 2 * psize then Insert(pending, Interval(head, fbn - psize)) else pending
  }

  lemma SkippedPending(pending: seq<Interval>, head: nat, fbn: nat, psize: nat, x: nat)
    requires 0 < psize && head < fbn && Sorted(pending)
    requires fbn % psize == head % psize && x % psize == head % psize
    ensures Sorted(Skipped(pending, head, fbn, psize))
    ensures Holds(Skipped(pending, head, fbn, psize), x) <==> Holds(pending, x) || head <= x < fbn
  {
    GapOnGrid(head, fbn, psize, x);
    var gap := Interval(head, fbn - psize);
    InsertFacts(pending, gap);
    InsertHolds(pending, gap, x);
  }

  /** Between two packet starts on the same grid, an id on that grid lies
      before the later start exactly when it lies at or before the packet
      just below it; the gap holds at least one packet. */
  lemma GapOnGrid(head: nat, fbn: nat, psize: nat, x: nat)
    requires 0 < psize && head < fbn
    requires fbn % psize == head % psize && x % psize == head % psize
    ensures fbn + psize - head >= 2 * psize
    ensures head <= x < fbn <==> head <= x <= fbn - psize
  {
    CongruentApart(head, fbn, psize);
    if head <= x < fbn {
      CongruentApart(x, fbn, psize);
    }
  }

  /** An advance that lands inside [rel_tail, rel_head] overwrites old
      data: the tail moves by the head offset and remove_pending runs at
      one packet before the new tail. With pending intervals that all end
      before that bound (none at all, in particular) it faults. */
  lemma WritePosOverwrites(r: Refs, fbn: nat, bsize: nat, psize: nat)
    requires 0 < bsize && r.absTail <= r.absHead < fbn < r.absHead + bsize
    requires IsBetween(r.relTail, r.relHead, bsize, (r.relHead + (fbn - r.absHead)) % bsize + r.relTail)
    ensures var q := WritePos(r, fbn, bsize, psize);
      var bound := Sub64(r.absTail + (fbn - r.absHead), psize);
      && (q.fault <==> RemovePending(r.pending, psize, bound).None?)
      && (!q.fault ==>
            && q.refs.absTail == r.absTail + (fbn - r.absHead)
            && q.refs.absHead == fbn + psize
            && q.refs.pending == RemovePending(r.pending, psize, bound).value)
  {
    assert WritePos(r, fbn, bsize, psize) == Overwritten(r, fbn, bsize, psize);
  }

  /** A session of four-byte packets in a twelve-byte ring, arriving in
      order from 0: packets 0 and 8 start at `abs_head` and take the
      gap-fill branch, so the head moves only on every other packet;
      packet 4 records the arrived packet 0 as missing, and packet 12 is
      placed on the cell of packet 8 and records packet 8 as missing. */
  lemma WritePosInOrderStream()
    ensures WritePos(Refs([], 0, 0, 0, 0), 0, 12, 4) == Placed(Refs([], 0, 0, 0, 0), Some(0), false)
    ensures WritePos(Refs([], 0, 0, 0, 0), 4, 12, 4) == Placed(Refs([Interval(0, 0)], 8, 0, 4, 0), Some(4), false)
    ensures WritePos(Refs([Interval(0, 0)], 8, 0, 4, 0), 8, 12, 4) == Placed(Refs([Interval(0, 0)], 8, 0, 4, 0), Some(8), false)
    ensures WritePos(Refs([Interval(0, 0)], 8, 0, 4, 0), 12, 12, 4)
         == Placed(Refs([Interval(0, 0), Interval(8, 8)], 16, 0, 8, 0), Some(8), false)
  {
    var s := [Interval(0, 0)];
    assert s[1..] == [];
    assert Insert(s, Interval(8, 8)) == [Interval(0, 0)] + [Interval(8, 8)];
  }

  /** remove_pending faults from get_write_pos in normal use: in an
      eight-byte ring, packets 0 and 4 record 0 as missing, its
      retransmission clears the pending set, and packet 12 then overwrites
      with nothing pending. */
  lemma WritePosOverwriteFaults()
    ensures WritePos(Refs([Interval(0, 0)], 8, 0, 4, 0), 0, 8, 4) == Placed(Refs([], 8, 0, 4, 0), Some(0), false)
    ensures WritePos(Refs([], 8, 0, 4, 0), 12, 8, 4).fault
  {
  }

  /** The state of the receive loop that the model keeps: the session, the
      references, the ring bytes, and the last flush request. */
  datatype Loop = Loop(session: nat, refs: Refs, buffer: seq<bv8>, flush: Option<(nat, nat, nat)>)

  /** How a packet ended. */
  datatype Verdict = OldSession | Dismissed | Faulted | OutOfBounds | Stored(flushed: bool)

  /** The flush request of lines 296-303 for references `a`: to_flush,
      flush_start and flush_end, or None below the threshold. */
  function FlushRequest(a: Refs, bsize: nat): (f: Option<(nat, nat, nat)>)
    requires 0 < bsize
  {
    if Sub64(a.absHead, 1) >= FlushThreshold(a.absTail, bsize) then
      var toFlush := Sub64(a.absHead, a.absTail);
      Some((toFlush, a.relTail, (a.relTail + toFlush) % bsize + a.relTail))
    else None
  }

  /** Past the tail, a flush is requested exactly when the head is more
      than three quarters of the buffer ahead of the tail, or when the head
      is still byte 0 (where `abs_head - 1` wraps round); it covers the
      bytes from the tail to the head. */
  lemma FlushRequestWhenFull(a: Refs, bsize: nat)
    requires 0 < bsize < U64 && a.absTail <= a.absHead < U64
    ensures FlushRequest(a, bsize).Some? <==> a.absHead == 0 || 3 * bsize < 4 * (a.absHead - a.absTail)
    ensures FlushRequest(a, bsize).Some? ==>
      FlushRequest(a, bsize).value.0 == a.absHead - a.absTail && FlushRequest(a, bsize).value.1 == a.relTail
  {
    var t := FlushThreshold(a.absTail, bsize);
    if a.absHead == 0 {
      assert Sub64(a.absHead, 1) == U64 - 1;
    } else {
      assert Sub64(a.absHead, 1) == a.absHead - 1;
      if a.absHead - 1 >= t {
        assert 4 * (a.absHead - a.absTail) >= 4 * (t - a.absTail) + 4;
      }
    }
  }

  /** cyclical_memcpy(buffer + off, src, bsize, start, n) on a buffer of
      `bsize == |buf|` bytes; None when a copy would reach outside the
      buffer (a first chunk of negative size included). */
  function CopyAt(buf: seq<bv8>, off: nat, src: seq<bv8>, start: nat): (r: Option<seq<bv8>>)
    requires 0 < |buf| && |src| < |buf|
    ensures r.Some? ==> |r.value| == |buf|
  {
    var bsize := |buf|;
    var end := (start + |src|) % bsize;
    if start <= end then
      if off + start + |src| <= bsize then Some(Write(buf, off + start, src)) else None
    else if bsize < start || (start < bsize && 0 < off) || bsize < off + end then None
    else
      var fst := bsize - start;
      ModSmall(start + |src|, bsize);
      var b := if fst == 0 then buf else Write(buf, start, src[..fst]);
      Some(Write(b, off, src[fst..]))
  }

  /** With no offset and a start inside the ring, the copy is
      cyclical_memcpy on the ring. */
  lemma CopyAtRing(buf: seq<bv8>, src: seq<bv8>, start: nat)
    requires 0 < |buf| && |src| < |buf| && start < |buf|
    ensures CopyAt(buf, 0, src, start) == Some(CyclicalCopy(buf, src, start))
  {
    ModSmall(start + |src|, |buf|);
  }

  /** One pass of the receive loop (lines 272-303) for a packet of
      `session`, starting at byte `fbn`, carrying `payload`. */
  function Step(s: Loop, session: nat, fbn: nat, payload: seq<bv8>): (res: (Loop, Verdict))
    requires 0 < |s.buffer| && |payload| < |s.buffer|
  {
    var bsize, psize := |s.buffer|, |payload|;
    if session < s.session then (s, OldSession)
    else
      var t :=
        if session > s.session then Loop(session, Refs([], fbn, fbn, 0, 0), seq(bsize, _ => 0), s.flush)
        else s;
      var q := WritePos(t.refs, fbn, bsize, psize);
      if q.fault then (t, Faulted)
      else if q.pos.None? then (t.(refs := q.refs), Dismissed)
      else match CopyAt(t.buffer, q.refs.relTail, payload, q.pos.value)
        case None => (t.(refs := q.refs), OutOfBounds)
        case Some(b) =>
          var f := FlushRequest(q.refs, bsize);
          (Loop(t.session, q.refs, b, if f.Some? then f else t.flush), Stored(f.Some?))
  }

  /** A strictly newer session starts over at this packet: both absolute
      ends at its byte number, both relative ends at 0, nothing pending,
      a zeroed buffer. The packet itself then takes the gap-fill branch
      and lands at cell 0, so the head stays at its first byte. */
  lemma StepNewSession(s: Loop, session: nat, fbn: nat, payload: seq<bv8>)
    requires 0 < |s.buffer| && |payload| < |s.buffer| && session > s.session
    ensures var (z, v) := Step(s, session, fbn, payload);
      && z.session == session && z.refs.absTail == fbn && z.refs.relTail == 0
      && v.Stored? && z.refs.absHead == fbn && z.refs.pending == []
      && z.buffer == Write(seq(|s.buffer|, _ => 0), 0, payload)
  {
    var bsize := |s.buffer|;
    var zero: seq<bv8> := seq(bsize, _ => 0);
    assert WritePos(Refs([], fbn, fbn, 0, 0), fbn, bsize, |payload|).pos == Some(0);
    ModSmall(|payload|, bsize);
  }

  /** A packet of an older session changes nothing. */
  lemma StepOldSession(s: Loop, session: nat, fbn: nat, payload: seq<bv8>)
    requires 0 < |s.buffer| && |payload| < |s.buffer| && session < s.session
    ensures Step(s, session, fbn, payload) == (s, OldSession)
  {
  }
}
