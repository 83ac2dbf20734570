/** The retransmission requester (src/receiver/rexmit_sender.cc): it walks
    the shared CircularBuffer from the tail to the head in packet steps,
    collects the numbers of the packets it has not received, and asks the
    current station to send them again. The control socket is the sequence
    of (address, text) datagrams sent; the timer is left out. */
module RexmitSender {
  import opened Arith
  import opened Net
  import opened Station
  import opened Datagram
  import opened CircularSpec
  import opened CircularProps
  import opened Circular
  import CircularFix
  import StationSet

  /** The outcome of order_retransmission: no station chosen, an iterator
      to an erased station (undefined behaviour), a scan that never ends,
      or the packet ids gathered. */
  datatype Request = NoStation | BadIterator | Spins | Gathered(ids: seq<nat>)

  /** The offsets from the tail, from `off` on in packet steps inside the
      held range, whose slot is not flagged: the holes, in walk order. */
  function Holes(r: Ring, off: nat): seq<nat>
    requires r.Shaped()
    decreases r.Range() - off
  {
    if off >= r.Range() then []
    else (if !r.occupied[At(r, off)] then [off] else []) + Holes(r, off + r.psize)
  }

  /** The holes are exactly the aligned offsets of the range, from `off`
      on, whose slot is free. */
  lemma {:induction false} HolesMeaning(r: Ring, off: nat)
    requires r.Shaped() && off % r.psize == 0
    ensures forall o :: o in Holes(r, off) <==> off <= o < r.Range() && o % r.psize == 0 && !r.occupied[At(r, o)]
    decreases r.Range() - off
  {
    if off < r.Range() {
      var p := r.psize;
      var rest := Holes(r, off + p);
      SumOfMultiples(off, p, p);
      HolesMeaning(r, off + p);
      forall o | off < o < off + p && o % p == 0
        ensures false
      {
        CongruentApart(off, o, p);
      }
    }
  }

  /** The holes are listed in increasing order. */
  lemma {:induction false} HolesIncreasing(r: Ring, off: nat)
    requires r.Shaped() && off % r.psize == 0
    ensures forall j, k :: 0 <= j < k < |Holes(r, off)| ==> Holes(r, off)[j] < Holes(r, off)[k]
    decreases r.Range() - off
  {
    if off < r.Range() {
      var p := r.psize;
      var rest := Holes(r, off + p);
      SumOfMultiples(off, p, p);
      HolesIncreasing(r, off + p);
      HolesMeaning(r, off + p);
      if !r.occupied[At(r, off)] {
        var hs := Holes(r, off);
        assert hs == [off] + rest;
        forall k | 0 < k < |hs|
          ensures off < hs[k]
        {
          assert hs[k] == rest[k - 1];
          assert rest[k - 1] in rest;
        }
      }
    }
  }

  /** The ids as written (line 44): the ring index plus abs_tail(). */
  function IdsAsWritten(r: Ring, hs: seq<nat>): (ids: seq<nat>)
    requires r.Ready()
    ensures |ids| == |hs|
  {
    if |hs| == 0 then [] else [At(r, hs[0]) + r.AbsTail()] + IdsAsWritten(r, hs[1..])
  }

  /** The ids of the missing packets: the offset from the tail plus
      abs_tail(). */
  function IdsCorrected(r: Ring, hs: seq<nat>): (ids: seq<nat>)
    requires r.Ready()
    ensures |ids| == |hs|
  {
    if |hs| == 0 then [] else [hs[0] + r.AbsTail()] + IdsCorrected(r, hs[1..])
  }

  /** Each corrected id is its hole's offset plus abs_tail(). */
  lemma {:induction false} IdsCorrectedAt(r: Ring, hs: seq<nat>)
    requires r.Ready()
    ensures forall k :: 0 <= k < |hs| ==> IdsCorrected(r, hs)[k] == hs[k] + r.AbsTail()
  {
    if |hs| > 0 {
      IdsCorrectedAt(r, hs[1..]);
    }
  }

  /** order_retransmission (lines 29-64) over the set, iterator and buffer. */
  function Order(roster: StationSet.Roster, r: Ring, corrected: bool): Request
    requires r.Sized() && (r.tail != r.head ==> r.Ready())
  {
    if roster.current.End? then NoStation
    else if roster.current.Dangling? then BadIterator
    else if r.tail == r.head then Gathered([])
    else if r.head == r.RoundedCap() then Spins
    else Gathered(if corrected then IdsCorrected(r, Holes(r, 0)) else IdsAsWritten(r, Holes(r, 0)))
  }

  /** The walk from the tail meets the head exactly after range() bytes,
      unless the head sits at rounded_cap(). */
  lemma WalkMeetsHead(r: Ring, o: nat)
    requires r.Shaped() && r.head < r.RoundedCap() && o <= r.Range()
    ensures At(r, o) == r.head <==> o == r.Range()
  {
    var rc := r.RoundedCap();
    ModSmall(r.tail + o, rc);
  }

  /** The corrected request asks for exactly the packets that have not
      arrived: the aligned absolute offsets in [abs_tail(), abs_head())
      whose slot is free, in increasing order. */
  lemma CorrectedRequestsMissing(roster: StationSet.Roster, r: Ring)
    requires r.Ready() && r.head < r.RoundedCap() && roster.current.At?
    ensures var q := Order(roster, r, true);
      && q.Gathered?
      && (forall id :: id in q.ids <==>
            r.AbsTail() <= id < r.absHead && (id - r.AbsTail()) % r.psize == 0 && !r.occupied[SlotOf(r, id)])
      && (forall j, k :: 0 <= j < k < |q.ids| ==> q.ids[j] < q.ids[k])
  {
    var ids := IdsCorrected(r, Holes(r, 0));
    assert Order(roster, r, true) == Gathered(ids);
    forall id
      ensures id in ids <==>
        r.AbsTail() <= id < r.absHead && (id - r.AbsTail()) % r.psize == 0 && !r.occupied[SlotOf(r, id)]
    {
      if id in ids {
        CorrectedIdSound(r, id);
      } else if r.AbsTail() <= id < r.absHead && (id - r.AbsTail()) % r.psize == 0 && !r.occupied[SlotOf(r, id)] {
        CorrectedIdComplete(r, id);
      }
    }
    CorrectedIdsIncreasing(r, ids);
  }

  /** Every corrected id is an aligned absolute offset of the held range
      whose slot is free. */
  lemma CorrectedIdSound(r: Ring, id: nat)
    requires r.Ready() && id in IdsCorrected(r, Holes(r, 0))
    ensures r.AbsTail() <= id < r.absHead && (id - r.AbsTail()) % r.psize == 0 && !r.occupied[SlotOf(r, id)]
  {
    var hs := Holes(r, 0);
    var ids := IdsCorrected(r, hs);
    HolesMeaning(r, 0);
    IdsCorrectedAt(r, hs);
    var k :| 0 <= k < |ids| && ids[k] == id;
    assert hs[k] in hs;
  }

  /** Every aligned absolute offset of the held range whose slot is free is
      a corrected id. */
  lemma CorrectedIdComplete(r: Ring, id: nat)
    requires r.Ready() && r.AbsTail() <= id < r.absHead && (id - r.AbsTail()) % r.psize == 0
    requires !r.occupied[SlotOf(r, id)]
    ensures id in IdsCorrected(r, Holes(r, 0))
  {
    var hs := Holes(r, 0);
    var ids := IdsCorrected(r, hs);
    HolesMeaning(r, 0);
    IdsCorrectedAt(r, hs);
    var o := id - r.AbsTail();
    assert o in hs;
    var k :| 0 <= k < |hs| && hs[k] == o;
    assert ids[k] == id;
  }

  /** The corrected ids are requested in increasing order. */
  lemma CorrectedIdsIncreasing(r: Ring, ids: seq<nat>)
    requires r.Ready() && ids == IdsCorrected(r, Holes(r, 0))
    ensures forall j, k :: 0 <= j < k < |ids| ==> ids[j] < ids[k]
  {
    var hs := Holes(r, 0);
    HolesIncreasing(r, 0);
    IdsCorrectedAt(r, hs);
  }

  /** As written, with the tail at index 2 of an 8-byte ring of 2-byte
      packets, a hole at the packet two bytes past the tail (absolute offset
      8) is requested as packet 10, which is abs_head(): the index is taken
      for the offset from the tail. */
  lemma RequestsWrongIdsExample()
    ensures var r := Ring(8, 2, 2, 6, 10, 0, [0, 0, 0, 0, 0, 0, 0, 0], [false, false, true, false, false, false, false, false]);
      && r.Ready() && r.AbsTail() == 6
      && Order(StationSet.Roster([], StationSet.At(0)), r, false) == Gathered([10])
      && Order(StationSet.Roster([], StationSet.At(0)), r, true) == Gathered([8])
  {
    var r := Ring(8, 2, 2, 6, 10, 0, [0, 0, 0, 0, 0, 0, 0, 0], [false, false, true, false, false, false, false, false]);
    assert r.RoundedCap() == 8;
    assert r.Range() == 4;
    assert At(r, 0) == 2 && At(r, 2) == 4;
    assert Holes(r, 4) == [];
    assert Holes(r, 2) == [2];
    assert Holes(r, 0) == [2];
  }

  class RexmitSenderWorker {
    const buffer: CircularBuffer
    const roster: StationSet.Stations
    /** The datagrams sent on the control socket. */
    var sent: seq<(SockAddr, string)>

    constructor(buffer: CircularBuffer, roster: StationSet.Stations)
      ensures this.buffer == buffer && this.roster == roster && sent == []
    {
      this.buffer := buffer;
      this.roster := roster;
      sent := [];
    }

    /** The scan of lines 38-47: from the tail, one packet at a time, until
        the index reaches the head. */
    method Scan() returns (ids: seq<nat>)
      requires buffer.Valid() && buffer.State().Ready() && buffer.tail != buffer.head
      requires buffer.head < buffer.State().RoundedCap()
      ensures ids == IdsAsWritten(buffer.State(), Holes(buffer.State(), 0))
    {
      ghost var r := buffer.State();
      var rc := buffer.capacity / buffer.psize * buffer.psize;
      var absTail := buffer.State().AbsTail();
      assert rc == r.RoundedCap() && absTail == r.AbsTail() && buffer.psize == r.psize && buffer.head == r.head;
      var i := buffer.tail;
      ModBelow(r.tail, r.RoundedCap());
      assert i == At(r, 0);
      ghost var o := 0;
      ids := [];
      ghost var all := IdsAsWritten(r, Holes(r, 0));
      assert ids + all == all;
      while i != buffer.head
        invariant o <= r.Range() && o % r.psize == 0 && i == At(r, o)
        invariant ids + IdsAsWritten(r, Holes(r, o)) == all
        decreases r.Range() - o
      {
        WalkMeetsHead(r, o);
        ScanStep(r, o);
        ghost var rest := IdsAsWritten(r, Holes(r, o + r.psize));
        ghost var found: seq<nat> := if !r.occupied[i] then [i + absTail] else [];
        assert IdsAsWritten(r, Holes(r, o)) == found + rest;
        assert buffer.occupied[i] == r.occupied[i];
        ghost var before := ids;
        if !buffer.occupied[i] {
          ids := ids + [i + absTail];
        }
        assert ids == before + found;
        assert ids + rest == before + (found + rest) == all;
        i := (i + buffer.psize) % rc;
        assert i == At(r, o + r.psize);
        o := o + r.psize;
      }
      WalkMeetsHead(r, o);
    }

    /** order_retransmission: gather the ids and, when there are any, send
        the request to the current station's control address. */
    method OrderRetransmission() returns (q: Request)
      requires buffer.Valid() && (buffer.tail != buffer.head ==> buffer.State().Ready())
      requires roster.current.At? ==> roster.current.i < |roster.stations|
      modifies this
      ensures q == Order(roster.State(), buffer.State(), false)
      ensures q.Gathered? && |q.ids| > 0 ==>
        sent == old(sent) + [(roster.stations[roster.current.i].ctrlAddr, RexmitRequestToStr(q.ids))]
      ensures !(q.Gathered? && |q.ids| > 0) ==> sent == old(sent)
    {
      if roster.current.End? {
        return NoStation;
      }
      if roster.current.Dangling? {
        return BadIterator;
      }
      var ids: seq<nat> := [];
      if buffer.tail != buffer.head {
        var rc := buffer.capacity / buffer.psize * buffer.psize;
        if buffer.head == rc {
          return Spins;
        }
        ids := Scan();
      }
      q := Gathered(ids);
      if |ids| > 0 {
        sent := sent + [(roster.stations[roster.current.i].ctrlAddr, RexmitRequestToStr(ids))];
      }
    }
  }

  /** One packet step of the walk: the hole it may find, and the next
      index. */
  lemma ScanStep(r: Ring, o: nat)
    requires r.Ready() && o < r.Range() && o % r.psize == 0
    ensures o + r.psize <= r.Range() && (o + r.psize) % r.psize == 0
    ensures IdsAsWritten(r, Holes(r, o))
      == (if !r.occupied[At(r, o)] then [At(r, o) + r.AbsTail()] else []) + IdsAsWritten(r, Holes(r, o + r.psize))
    ensures (At(r, o) + r.psize) % r.RoundedCap() == At(r, o + r.psize)
  {
    CircularFix.RangeAligned(r);
    MultiplesApart(o, r.Range(), r.psize);
    SumOfMultiples(o, r.psize, r.psize);
    StepAt(r, o);
    var hs := Holes(r, o + r.psize);
    if !r.occupied[At(r, o)] {
      assert Holes(r, o) == [o] + hs;
      assert ([o] + hs)[1..] == hs;
      assert IdsAsWritten(r, [o] + hs) == [At(r, o) + r.AbsTail()] + IdsAsWritten(r, hs);
    } else {
      assert Holes(r, o) == hs;
    }
  }
}
