/** The sender's retransmitter (src/sender/retransmitter.cc): for each
    queued retransmission request it sorts the requested packet numbers,
    skips those already gone from the packet cache (a CircularBuffer),
    walks the cache in step with the requests and sends audio datagrams to
    the requester. The data socket is the sequence of (address, bytes)
    datagrams sent; the job queue is the sequence `jobs`; the timer is left
    out. */
module Retransmitter {
  import opened Arith
  import opened Endian
  import opened Net
  import opened Datagram
  import opened CircularSpec
  import opened CircularProps
  import opened Circular
  import CircularFix
  import opened Events

  predicate Sorted(s: seq<nat>)
  {
    forall j, k :: 0 <= j < k < |s| ==> s[j] <= s[k]
  }

  /** `x` placed before the first element not smaller than it. */
  function InsertSorted(s: seq<nat>, x: nat): seq<nat>
  {
    if |s| == 0 || x <= s[0] then [x] + s else [s[0]] + InsertSorted(s[1..], x)
  }

  lemma {:induction false} InsertSortedKeeps(s: seq<nat>, x: nat)
    requires Sorted(s)
    ensures Sorted(InsertSorted(s, x))
    ensures multiset(InsertSorted(s, x)) == multiset(s) + multiset{x}
  {
    if |s| > 0 && x > s[0] {
      var t := InsertSorted(s[1..], x);
      assert Sorted(s[1..]);
      InsertSortedKeeps(s[1..], x);
      HeadBelowRest(s, x, t);
      ConsSorted(s[0], t);
      assert s == [s[0]] + s[1..];
      assert multiset(InsertSorted(s, x)) == multiset{s[0]} + multiset(t);
    } else {
      ConsSorted(x, s);
    }
  }

  lemma ConsSorted(h: nat, t: seq<nat>)
    requires Sorted(t) && forall k :: 0 <= k < |t| ==> h <= t[k]
    ensures Sorted([h] + t)
  {
  }

  /** The head of a sorted list is no greater than anything in its tail
      with `x` inserted, once `x` exceeds it. */
  lemma HeadBelowRest(s: seq<nat>, x: nat, t: seq<nat>)
    requires Sorted(s) && |s| > 0 && x > s[0]
    requires multiset(t) == multiset(s[1..]) + multiset{x}
    ensures forall k :: 0 <= k < |t| ==> s[0] <= t[k]
  {
    forall k | 0 <= k < |t|
      ensures s[0] <= t[k]
    {
      assert t[k] in multiset(t);
      if t[k] != x {
        assert t[k] in s[1..];
      }
    }
  }

  /** std::sort on the requested ids. */
  function SortAsc(s: seq<nat>): seq<nat>
  {
    if |s| == 0 then [] else InsertSorted(SortAsc(s[..|s| - 1]), s[|s| - 1])
  }

  /** The sort orders the ids and keeps each of them as often as it was
      requested. */
  lemma {:induction false} SortAscMeaning(s: seq<nat>)
    ensures Sorted(SortAsc(s)) && multiset(SortAsc(s)) == multiset(s)
  {
    if |s| > 0 {
      SortAscMeaning(s[..|s| - 1]);
      InsertSortedKeeps(SortAsc(s[..|s| - 1]), s[|s| - 1]);
      assert s == s[..|s| - 1] + [s[|s| - 1]];
    }
  }

  /** Lines 38-41: the position of the first id not below `t`. */
  function SkipBelow(ids: seq<nat>, t: nat): (k: nat)
    ensures k <= |ids|
    ensures forall j :: 0 <= j < k ==> ids[j] < t
    ensures k < |ids| ==> ids[k] >= t
  {
    if |ids| == 0 || ids[0] >= t then 0 else 1 + SkipBelow(ids[1..], t)
  }

  /** The packet numbers the walk can stand on: abs_tail() plus whole
      packets, up to abs_head(). */
  predicate OnGrid(r: Ring, c: nat)
    requires r.Ready()
  {
    r.AbsTail() <= c <= r.absHead && (c - r.AbsTail()) % r.psize == 0
  }

  lemma GridStep(r: Ring, c: nat)
    requires r.Ready() && OnGrid(r, c) && c < r.absHead
    ensures OnGrid(r, c + r.psize)
  {
    var o := c - r.AbsTail();
    CircularFix.RangeAligned(r);
    MultiplesApart(o, r.Range(), r.psize);
    SumOfMultiples(o, r.psize, r.psize);
    assert c + r.psize - r.AbsTail() == o + r.psize;
  }

  /** The inner loop of lines 48-51: from `c`, step a packet at a time
      until abs_head() or a number not below `id`. */
  function Catch(r: Ring, c: nat, id: nat): (d: nat)
    requires r.Ready() && OnGrid(r, c)
    ensures OnGrid(r, d) && c <= d
    decreases r.absHead - c
  {
    if c == r.absHead || c >= id then c
    else
      GridStep(r, c);
      Catch(r, c + r.psize, id)
  }

  /** The walk stops at the first packet number not below `id`, or at
      abs_head() when every cached packet from `c` on is below `id`. */
  lemma {:induction false} CatchMeaning(r: Ring, c: nat, id: nat)
    requires r.Ready() && OnGrid(r, c)
    ensures var d := Catch(r, c, id);
      && (d == r.absHead || d >= id)
      && (forall x :: c <= x < d && OnGrid(r, x) ==> x < id)
    decreases r.absHead - c
  {
    if c != r.absHead && c < id {
      GridStep(r, c);
      CatchMeaning(r, c + r.psize, id);
      forall x | c < x < c + r.psize && OnGrid(r, x)
        ensures false
      {
        CongruentApart(c - r.AbsTail(), x - r.AbsTail(), r.psize);
      }
    }
  }

  /** The packet numbers the for loop of lines 47-57 sends, from cache
      position `c`, for the remaining sorted ids. As written (line 52) a
      datagram goes out only when the walk has reached abs_head(), and the
      loop ends otherwise; corrected, the loop ends at abs_head() and sends
      otherwise. */
  function SentFrom(r: Ring, c: nat, ids: seq<nat>, corrected: bool): (sent: seq<nat>)
    requires r.Ready() && OnGrid(r, c)
    ensures forall x :: x in sent ==> OnGrid(r, x) && c <= x
    decreases |ids|
  {
    if |ids| == 0 then []
    else
      var d := Catch(r, c, ids[0]);
      if corrected then
        (if d == r.absHead then [] else [d] + SentFrom(r, d, ids[1..], corrected))
      else
        (if d != r.absHead then [] else [d] + SentFrom(r, d, ids[1..], corrected))
  }

  /** handle_retransmission's packet numbers for the requested ids. */
  function Sent(r: Ring, ids: seq<nat>, corrected: bool): seq<nat>
    requires r.Ready()
  {
    var s := SortAsc(ids);
    SentFrom(r, r.AbsTail(), s[SkipBelow(s, r.AbsTail())..], corrected)
  }

  /** A packet number as the uint64_t the source copies. */
  function Word(c: nat): bv64
  {
    (c % U64) as bv64
  }

  /** The psize bytes at the cache index that packet number `c` maps to. */
  function Slot(r: Ring, c: nat): (b: seq<bv8>)
    requires r.Ready() && OnGrid(r, c)
    ensures |b| == r.psize
  {
    AlignedSlot(r, c - r.AbsTail());
    var i := At(r, c - r.AbsTail());
    r.data[i..i + r.psize]
  }

  /** One datagram: as written (lines 33, 54-55) the session id and the
      packet number are copied in host byte order; corrected, they are
      framed as AudioPacket frames them, in network byte order. */
  function Frame(h: Host, sessionId: bv64, r: Ring, c: nat, corrected: bool): seq<bv8>
    requires r.Ready() && OnGrid(r, c)
  {
    if corrected then FrameBytes(h, sessionId, Word(c), Slot(r, c))
    else Store64(h, sessionId) + Store64(h, Word(c)) + Slot(r, c)
  }

  function Frames(h: Host, sessionId: bv64, r: Ring, to: SockAddr, cs: seq<nat>, corrected: bool): (out: seq<(SockAddr, seq<bv8>)>)
    requires r.Ready() && forall x :: x in cs ==> OnGrid(r, x)
    ensures |out| == |cs|
  {
    if |cs| == 0 then []
    else [(to, Frame(h, sessionId, r, cs[0], corrected))] + Frames(h, sessionId, r, to, cs[1..], corrected)
  }

  /** The datagrams handle_retransmission sends for one request. */
  function Replies(h: Host, sessionId: bv64, r: Ring, req: RexmitRequest, corrected: bool): seq<(SockAddr, seq<bv8>)>
    requires r.Ready()
  {
    Frames(h, sessionId, r, req.receiverAddr, Sent(r, req.packetIds, corrected), corrected)
  }

  /** The datagrams for a whole queue of requests, in queue order. */
  function AllReplies(h: Host, sessionId: bv64, r: Ring, jobs: seq<RexmitRequest>): seq<(SockAddr, seq<bv8>)>
    requires r.Ready()
  {
    if |jobs| == 0 then [] else Replies(h, sessionId, r, jobs[0], false) + AllReplies(h, sessionId, r, jobs[1..])
  }

  /** As written, every datagram carries abs_head(), the number of a packet
      the cache does not hold, so no cached packet is ever sent again. */
  lemma {:induction false} AsWrittenSendsOnlyHead(r: Ring, c: nat, ids: seq<nat>)
    requires r.Ready() && OnGrid(r, c)
    ensures forall x :: x in SentFrom(r, c, ids, false) ==> x == r.absHead
    decreases |ids|
  {
    if |ids| > 0 {
      var d := Catch(r, c, ids[0]);
      if d == r.absHead {
        AsWrittenSendsOnlyHead(r, d, ids[1..]);
      }
    }
  }

  /** As written, a request for the one packet the cache holds sends
      nothing; corrected, that packet is sent. */
  lemma CachedPacketNotResentExample()
    ensures var r := Ring(4, 2, 0, 2, 12, 10, [1, 2, 0, 0], [true, false, false, false]);
      && r.Ready() && r.AbsTail() == 10
      && Sent(r, [10], false) == []
      && Sent(r, [10], true) == [10]
  {
    var r := Ring(4, 2, 0, 2, 12, 10, [1, 2, 0, 0], [true, false, false, false]);
    assert r.RoundedCap() == 4 && r.Range() == 2;
    assert SortAsc([10]) == [10];
    assert SkipBelow([10], 10) == 0;
    assert Catch(r, 10, 10) == 10;
  }

  /** Corrected, every requested packet the cache holds is sent, and only
      cached packets are sent. */
  lemma {:induction false} CorrectedSendsRequested(r: Ring, c: nat, ids: seq<nat>)
    requires r.Ready() && OnGrid(r, c) && Sorted(ids)
    ensures forall id :: id in ids && c <= id < r.absHead && OnGrid(r, id) ==> id in SentFrom(r, c, ids, true)
    ensures forall x :: x in SentFrom(r, c, ids, true) ==> x < r.absHead
    decreases |ids|
  {
    if |ids| > 0 {
      var d := Catch(r, c, ids[0]);
      CatchMeaning(r, c, ids[0]);
      var rest := ids[1..];
      assert Sorted(rest);
      CorrectedSendsRequested(r, d, rest);
      forall id | id in ids && c <= id < r.absHead && OnGrid(r, id)
        ensures id in SentFrom(r, c, ids, true)
      {
        assert ids[0] <= id;
        assert d != r.absHead;
        if id != ids[0] {
          assert id in rest;
        }
      }
    }
  }

  /** Corrected, the whole handler resends exactly the requested packets the
      cache still holds. */
  lemma CorrectedResendsCached(r: Ring, ids: seq<nat>)
    requires r.Ready()
    ensures forall id :: id in ids && r.AbsTail() <= id < r.absHead && OnGrid(r, id) ==> id in Sent(r, ids, true)
    ensures forall x :: x in Sent(r, ids, true) ==> OnGrid(r, x) && x < r.absHead
    ensures (forall id :: id in ids && r.AbsTail() <= id ==> Aligned(r, id)) ==>
      forall x :: x in Sent(r, ids, true) ==> x in ids
  {
    var s := SortAsc(ids);
    var tail := s[SkipBelow(s, r.AbsTail())..];
    SortedFrom(ids, r.AbsTail());
    CorrectedSendsRequested(r, r.AbsTail(), tail);
    if forall id :: id in ids && r.AbsTail() <= id ==> Aligned(r, id) {
      SentAreRequested(r, r.AbsTail(), tail);
    }
  }

  /** The sorted requests from `t` on are exactly the requested ids at or
      above `t`, in ascending order. */
  lemma SortedFrom(ids: seq<nat>, t: nat)
    ensures var s := SortAsc(ids); var tail := s[SkipBelow(s, t)..];
      && Sorted(tail)
      && (forall id :: id in ids && t <= id ==> id in tail)
      && (forall x :: x in tail ==> x in ids && t <= x)
  {
    var s := SortAsc(ids);
    SortAscMeaning(ids);
    var k := SkipBelow(s, t);
    var tail := s[k..];
    assert Sorted(tail);
    forall id | id in ids && t <= id
      ensures id in tail
    {
      assert id in multiset(s);
      var j :| 0 <= j < |s| && s[j] == id;
      assert s[j] == tail[j - k];
    }
    forall x | x in tail
      ensures x in ids && t <= x
    {
      var j :| 0 <= j < |tail| && tail[j] == x;
      assert tail[j] == s[k + j];
      assert x in multiset(s);
    }
  }

  /** An id that names a packet boundary of the cache, cached or not yet. */
  predicate Aligned(r: Ring, id: nat)
    requires r.Ready()
  {
    r.AbsTail() <= id && (id - r.AbsTail()) % r.psize == 0
  }

  /** Corrected, when the ids name packet boundaries each number sent is one
      of them. */
  lemma {:induction false} SentAreRequested(r: Ring, c: nat, ids: seq<nat>)
    requires r.Ready() && OnGrid(r, c) && Sorted(ids)
    requires forall id :: id in ids ==> c <= id && Aligned(r, id)
    ensures forall x :: x in SentFrom(r, c, ids, true) ==> x in ids
    decreases |ids|
  {
    if |ids| > 0 {
      var d := Catch(r, c, ids[0]);
      CatchAligned(r, c, ids[0]);
      if d != r.absHead {
        SortedRest(ids);
        SentAreRequested(r, d, ids[1..]);
      }
    }
  }

  /** From a grid position at or below an aligned id, the walk stops on the
      id itself or at abs_head(). */
  lemma CatchAligned(r: Ring, c: nat, id: nat)
    requires r.Ready() && OnGrid(r, c) && Aligned(r, id) && c <= id
    ensures Catch(r, c, id) == id || Catch(r, c, id) == r.absHead
  {
    var d := Catch(r, c, id);
    CatchMeaning(r, c, id);
    if d != r.absHead && d > id {
      assert OnGrid(r, id);
    }
  }

  lemma SortedRest(ids: seq<nat>)
    requires Sorted(ids) && |ids| > 0
    ensures Sorted(ids[1..]) && forall id :: id in ids[1..] ==> ids[0] <= id
  {
    forall id | id in ids[1..]
      ensures ids[0] <= id
    {
      var j :| 0 <= j < |ids[1..]| && ids[1..][j] == id;
      assert ids[j + 1] == id;
    }
  }

  /** Corrected, a resent datagram decodes on any receiving host to this
      session, the packet number and the cached bytes of that packet. */
  lemma CorrectedFrameDecodes(h: Host, receiver: Host, sessionId: bv64, r: Ring, c: nat)
    requires r.Ready() && OnGrid(r, c)
    ensures var p := ReceivedAudioPacket(receiver, Frame(h, sessionId, r, c, true), r.psize);
      && p.sessionId == sessionId && p.firstByteNum == Word(c) && AudioData(p) == Slot(r, c)
  {
    AudioPacketRoundTrip(h, receiver, sessionId, Word(c), Slot(r, c));
  }

  /** As written, on a little-endian sender and receiver the header of
      session 1 reads back as 2^56. */
  lemma HostOrderHeaderExample(r: Ring, c: nat)
    requires r.Ready() && OnGrid(r, c)
    ensures ReceivedAudioPacket(LittleEndian, Frame(LittleEndian, 1, r, c, false), r.psize).sessionId
      == 0x0100_0000_0000_0000
  {
    var b := Frame(LittleEndian, 1, r, c, false);
    assert b[..8] == Store64(LittleEndian, 1);
    LoadStore64(LittleEndian, 1);
  }

  /** The inner while loop of lines 48-51: it moves the packet number and
      the cache index together, and ends where Catch says. */
  method Walk(r: Ring, c: nat, idx: nat, id: nat) returns (d: nat, j: nat)
    requires r.Ready() && OnGrid(r, c) && idx == At(r, c - r.AbsTail())
    ensures d == Catch(r, c, id) && j == At(r, d - r.AbsTail())
  {
    d, j := c, idx;
    var rc := r.RoundedCap();
    while d != r.absHead && d < id
      invariant OnGrid(r, d) && j == At(r, d - r.AbsTail())
      invariant Catch(r, d, id) == Catch(r, c, id)
      decreases r.absHead - d
    {
      GridStep(r, d);
      CircularFix.RangeAligned(r);
      StepAt(r, d - r.AbsTail());
      d := d + r.psize;
      j := (j + r.psize) % rc;
    }
  }

  /** The skip loop of lines 38-41. */
  method Skip(ids: seq<nat>, t: nat) returns (k: nat)
    ensures k == SkipBelow(ids, t)
  {
    k := 0;
    while k < |ids| && ids[k] < t
      invariant k <= |ids| && forall j :: 0 <= j < k ==> ids[j] < t
    {
      k := k + 1;
    }
    SkipBelowIs(ids, t, k);
  }

  /** The body of handle_retransmission on the locked cache state `r`: the
      datagrams it sends, in order. */
  method Resend(h: Host, sessionId: bv64, r: Ring, req: RexmitRequest) returns (out: seq<(SockAddr, seq<bv8>)>)
    requires r.Ready()
    ensures out == Replies(h, sessionId, r, req, false)
  {
    var ids := SortAsc(req.packetIds);
    var absTail := r.AbsTail();
    var k := Skip(ids, absTail);
    if k == |ids| {
      return [];
    }
    ModBelow(r.tail, r.RoundedCap());
    out := ResendFrom(h, sessionId, r, req.receiverAddr, ids[k..], absTail, r.tail);
  }

  /** The for loop of lines 47-57 from cache position `c` (ring index
      `idx`) over the remaining sorted ids. */
  method ResendFrom(h: Host, sessionId: bv64, r: Ring, to: SockAddr, ids: seq<nat>, c: nat, idx: nat)
    returns (out: seq<(SockAddr, seq<bv8>)>)
    requires r.Ready() && OnGrid(r, c) && r.AbsTail() <= c && idx == At(r, c - r.AbsTail())
    ensures out == Frames(h, sessionId, r, to, SentFrom(r, c, ids, false), false)
  {
    out := [];
    ghost var goal := Frames(h, sessionId, r, to, SentFrom(r, c, ids, false), false);
    var rest := ids;
    var p, i := c, idx;
    while |rest| > 0
      invariant r.AbsTail() <= p && OnGrid(r, p) && i == At(r, p - r.AbsTail())
      invariant goal == out + Frames(h, sessionId, r, to, SentFrom(r, p, rest, false), false)
      decreases |rest|
    {
      var frame, stop;
      frame, p, i, stop := ResendOne(h, sessionId, r, to, rest, p, i);
      if stop {
        break;
      }
      ConcatAssoc(out, [(to, frame)], Frames(h, sessionId, r, to, SentFrom(r, p, rest[1..], false), false));
      out := out + [(to, frame)];
      rest := rest[1..];
    }
  }

  /** One turn of that loop: the walk for the next id, then either the end
      of the loop or the datagram for the packet the walk reached. */
  method ResendOne(h: Host, sessionId: bv64, r: Ring, to: SockAddr, ids: seq<nat>, c: nat, idx: nat)
    returns (frame: seq<bv8>, d: nat, j: nat, stop: bool)
    requires r.Ready() && OnGrid(r, c) && r.AbsTail() <= c && idx == At(r, c - r.AbsTail()) && |ids| > 0
    ensures r.AbsTail() <= d && OnGrid(r, d) && j == At(r, d - r.AbsTail())
    ensures stop ==> SentFrom(r, c, ids, false) == []
    ensures !stop ==>
      Frames(h, sessionId, r, to, SentFrom(r, c, ids, false), false)
        == [(to, frame)] + Frames(h, sessionId, r, to, SentFrom(r, d, ids[1..], false), false)
  {
    d, j := Walk(r, c, idx, ids[0]);
    stop := d != r.absHead;
    if stop {
      return [], d, j, stop;
    }
    FrameAt(h, sessionId, r, d, j, to, ids[1..]);
    frame := Store64(h, sessionId) + Store64(h, Word(d)) + r.data[j..j + r.psize];
  }

  class RetransmitterWorker {
    const cache: CircularBuffer
    const host: Host
    const sessionId: bv64
    /** The queued requests, oldest first. */
    var jobs: seq<RexmitRequest>
    /** The datagrams sent on the data socket. */
    var sent: seq<(SockAddr, seq<bv8>)>

    constructor(cache: CircularBuffer, host: Host, sessionId: bv64)
      ensures this.cache == cache && this.host == host && this.sessionId == sessionId
      ensures jobs == [] && sent == []
    {
      this.cache := cache;
      this.host := host;
      this.sessionId := sessionId;
      jobs, sent := [], [];
    }

    /** handle_retransmission (lines 31-58), under the cache lock: the
        cache is read as one state value for the whole request. */
    method HandleRetransmission(req: RexmitRequest)
      requires cache.Valid() && cache.State().Ready()
      modifies this
      ensures jobs == old(jobs)
      ensures sent == old(sent) + Replies(host, sessionId, cache.State(), req, false)
    {
      var out := Resend(host, sessionId, cache.State(), req);
      sent := sent + out;
    }

    /** The event switch of run() (lines 76-97): TERMINATE ends the loop;
        NEW_JOBS handles and pops the jobs queued at that moment. */
    method HandleEvent(e: QueueEvent) returns (stop: bool)
      requires cache.Valid() && cache.State().Ready()
      modifies this
      ensures stop <==> e == Terminate
      ensures e == NewJobs ==> jobs == [] && sent == old(sent) + AllReplies(host, sessionId, cache.State(), old(jobs))
      ensures e != NewJobs ==> jobs == old(jobs) && sent == old(sent)
    {
      if e == Terminate {
        return true;
      }
      stop := false;
      if e == NewJobs {
        ghost var r := cache.State();
        var newJobs := |jobs|;
        while newJobs > 0
          invariant newJobs == |jobs|
          invariant cache.Valid() && cache.State() == r
          invariant sent + AllReplies(host, sessionId, r, jobs)
            == old(sent) + AllReplies(host, sessionId, r, old(jobs))
        {
          HandleRetransmission(jobs[0]);
          jobs := jobs[1..];
          newJobs := newJobs - 1;
        }
      }
    }
  }

  /** The datagram built from the cache index is the frame of packet `c`,
      and it heads the frames of the rest of the walk. */
  lemma FrameAt(h: Host, sessionId: bv64, r: Ring, c: nat, idx: nat, to: SockAddr, ids: seq<nat>)
    requires r.Ready() && OnGrid(r, c) && r.AbsTail() <= c && idx == At(r, c - r.AbsTail())
    ensures idx + r.psize <= |r.data|
    ensures var rest := SentFrom(r, c, ids, false);
      Frames(h, sessionId, r, to, [c] + rest, false)
        == [(to, Store64(h, sessionId) + Store64(h, Word(c)) + r.data[idx..idx + r.psize])]
           + Frames(h, sessionId, r, to, rest, false)
  {
    AlignedSlot(r, c - r.AbsTail());
    var rest := SentFrom(r, c, ids, false);
    assert ([c] + rest)[0] == c && ([c] + rest)[1..] == rest;
  }

  /** SkipBelow is the first id not below `t`. */
  lemma SkipBelowIs(ids: seq<nat>, t: nat, k: nat)
    requires k <= |ids| && (forall j :: 0 <= j < k ==> ids[j] < t) && (k < |ids| ==> ids[k] >= t)
    ensures SkipBelow(ids, t) == k
  {
    var f := SkipBelow(ids, t);
    assert !(f < k) && !(f > k);
  }
}
