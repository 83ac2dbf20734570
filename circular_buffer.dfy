/** `CircularBuffer` (src/common/circular_buffer.cc): the receiver's packet
    ring. The bytes live in `data`, one flag per byte position in
    `occupied` (only slot starts are ever set); `tail` and `head` are ring
    indices below the rounded capacity and `absHead` is the absolute stream
    offset just past the newest byte held. Every method is proved to leave
    the state the corresponding function of CircularSpec gives. */
module Circular {
  import opened Mem
  import opened Arith
  import opened CircularSpec

  class CircularBuffer {
    const capacity: nat
    var psize: nat
    var tail: nat
    var head: nat
    var absHead: nat
    var byte0: nat
    const data: array<bv8>
    const occupied: array<bool>

    predicate Valid()
      reads this
    {
      data.Length == capacity && occupied.Length == capacity
      && data as object != occupied as object
    }

    /** The fields and array contents as a value. */
    function State(): Ring
      reads this, data, occupied
    {
      Ring(capacity, psize, tail, head, absHead, byte0, data[..], occupied[..])
    }

    /** CircularBuffer(capacity): both arrays zero-initialised. */
    constructor(capacity: nat)
      ensures Valid() && State() == Initial(capacity)
      ensures fresh(data) && fresh(occupied)
    {
      this.capacity := capacity;
      psize, tail, head, absHead, byte0 := 0, 0, 0, 0, 0;
      data := new bv8[capacity](_ => 0);
      occupied := new bool[capacity](_ => false);
    }

    /** memset of `n` data bytes and `n` occupied flags from `lo`. */
    method ZeroSpan(lo: nat, n: nat)
      requires Valid() && lo + n <= capacity
      modifies data, occupied
      ensures Valid() && State() == CircularSpec.ZeroSpan(old(State()), lo, lo + n)
    {
      MemSet(data, lo, n, 0);
      MemSet(occupied, lo, n, false);
    }

    /** reset(psize) */
    method Reset(psize: nat)
      requires Valid()
      modifies this, data, occupied
      ensures Valid() && State() == CircularSpec.Reset(old(State()), psize)
    {
      tail, head := 0, 0;
      this.psize := psize;
      ZeroSpan(0, capacity);
    }

    /** reset(psize, abs_head) */
    method ResetAt(psize: nat, absHead: nat)
      requires Valid()
      modifies this, data, occupied
      ensures Valid() && State() == CircularSpec.ResetAt(old(State()), psize, absHead)
    {
      this.absHead, byte0 := absHead, absHead;
      Reset(psize);
    }

    /** dump_tail(nbytes): `out` is what is written to standard output. */
    method DumpTail(n: nat) returns (out: seq<bv8>)
      requires Valid() && State().Shaped() && n % psize == 0 && n <= State().Range()
      modifies this, data, occupied
      ensures Valid()
      ensures State() == CircularSpec.DumpTail(old(State()), n)
      ensures out == Emitted(old(State()), n)
    {
      var fst, snd := Chunks(n);
      out := data[tail..tail + fst] + data[..snd];
      ClearChunks(n, fst, snd);
    }

    /** The two chunk lengths of dump_tail (lines 66-71). */
    method Chunks(n: nat) returns (fst: nat, snd: nat)
      requires Valid() && State().Shaped() && n <= State().Range()
      ensures (fst, snd) == CircularSpec.Chunks(State(), n)
    {
      var rc := capacity / psize * psize;
      assert rc == State().RoundedCap();
      fst, snd := n, 0;
      if tail > head && fst > rc - tail {
        fst := rc - tail;
        snd := n - fst;
      }
    }

    /** The memsets and the tail move of dump_tail (lines 78-84). */
    method ClearChunks(n: nat, fst: nat, snd: nat)
      requires Valid() && State().Shaped() && n <= State().Range()
      requires (fst, snd) == CircularSpec.Chunks(State(), n)
      modifies this, data, occupied
      ensures Valid() && State() == CircularSpec.DumpTail(old(State()), n)
    {
      ghost var r := State();
      var rc := capacity / psize * psize;
      assert rc == State().RoundedCap();
      ZeroSpan(tail, fst);
      ZeroSpan(0, snd);
      ghost var cleared := State();
      tail := (tail + n) % rc;
      assert State() == cleared.(tail := (r.tail + n) % r.RoundedCap());
    }

    /** fill_gap(packet) */
    method FillGap(fbn: nat, payload: seq<bv8>) returns (o: Outcome)
      requires Valid() && State().Ready() && State().AbsTail() <= fbn < absHead
      requires |payload| == psize
      modifies this, data, occupied
      ensures Valid()
      ensures Put(State(), o) == CircularSpec.FillGap(old(State()), fbn, payload)
    {
      var off := fbn - State().AbsTail();
      var rc := capacity / psize * psize;
      assert rc == State().RoundedCap();
      if off % psize != 0 {
        return AssertFails;
      }
      var side := State().SideOf(off);
      if side == Nowhere {
        return AssertFails;
      }
      var pos := tail + off;
      if tail > head && side == Left {
        if pos < rc - tail {
          return WildWrite;
        }
        pos := pos - (rc - tail);
      }
      if pos + psize > capacity {
        return WildWrite;
      }
      MemCpy(data, pos, payload);
      occupied[pos] := true;
      o := Filled;
    }

    /** The restart branch of try_push_head. */
    method Restart(fbn: nat, payload: seq<bv8>)
      requires Valid() && State().Shaped() && |payload| == psize
      modifies this, data, occupied
      ensures Valid() && State() == CircularSpec.Restart(old(State()), fbn, payload)
    {
      var rc := capacity / psize * psize;
      assert rc == State().RoundedCap();
      absHead := fbn + psize;
      Reset(psize);
      MemCpy(data, 0, payload);
      occupied[0] := true;
      head := psize;
      tail := (head + psize) % rc;
    }

    /** The advancing branch of try_push_head. */
    method Advance(fbn: nat, payload: seq<bv8>)
      requires Valid() && State().Ready() && fbn >= absHead && |payload| == psize
      requires var ho := fbn - absHead; ho % psize == 0 && ho <= psize && ho < State().RoundedCap()
      modifies this, data, occupied
      ensures Valid() && State() == CircularSpec.Advance(old(State()), fbn, payload)
    {
      ghost var r := State();
      var ho := fbn - absHead;
      var rc := capacity / psize * psize;
      assert rc == State().RoundedCap();
      var wp := (head + ho) % rc;
      SumOfMultiples(head, ho, psize);
      AlignedMod(head + ho, r);
      PlaceAt(wp, payload);
      absHead := fbn + psize;
      MoveMarks(ho);
    }

    /** Lines 128-135: the head moves one packet past the write position
        and the tail follows when the head runs onto it. */
    method MoveMarks(ho: nat)
      requires Valid() && State().Shaped()
      modifies this
      ensures Valid() && State() == old(State()).(head := (old(head) + ho + psize) % old(State()).RoundedCap(), tail := NewTail(old(State()), ho))
    {
      var rc := capacity / psize * psize;
      assert rc == State().RoundedCap();
      var virt := head + ho + psize;
      var nh := virt % rc;
      var nt := (nh + psize) % rc;
      if virt >= rc && ((tail <= head && tail <= nh) || head < tail) {
        tail := nt;
      } else if head < tail && tail <= nh {
        tail := nt;
      }
      head := nh;
    }

    /** Clear up to `wp` and write the payload there. */
    method PlaceAt(wp: nat, payload: seq<bv8>)
      requires Valid() && State().Shaped() && |payload| == psize && wp + psize <= State().RoundedCap()
      modifies data, occupied
      ensures Valid() && State() == Place(old(State()), wp, payload)
    {
      ClearUpTo(wp);
      MemCpy(data, wp, payload);
      occupied[wp] := true;
    }

    /** The zeroing before a head write: from `head` up to `wp`, round the
        ring when `wp` is below `head` (lines 116-124). */
    method ClearUpTo(wp: nat)
      requires Valid() && State().Shaped() && wp <= State().RoundedCap()
      modifies data, occupied
      ensures Valid() && State() == Clear(old(State()), head, wp, old(State()).RoundedCap())
    {
      ghost var s0 := State();
      var rc := capacity / psize * psize;
      assert rc == s0.RoundedCap();
      if wp >= head {
        ZeroSpan(head, wp - head);
      } else {
        ZeroSpan(head, rc - head);
        ghost var s1 := State();
        assert s1 == CircularSpec.ZeroSpan(s0, head, rc);
        ZeroSpan(0, wp);
      }
    }

    /** try_push_head(packet) */
    method TryPushHead(fbn: nat, payload: seq<bv8>) returns (o: Outcome)
      requires Valid() && State().Ready() && fbn >= absHead && |payload| == psize
      modifies this, data, occupied
      ensures Valid()
      ensures Put(State(), o) == PushHead(old(State()), fbn, payload)
    {
      var ho := fbn - absHead;
      if ho % psize != 0 {
        return AssertFails;
      }
      if ho > psize {
        return Dismissed;
      }
      if ho >= capacity / psize * psize {
        Restart(fbn, payload);
        o := Restarted;
      } else {
        Advance(fbn, payload);
        o := Advanced;
      }
    }

    /** try_put(packet) */
    method TryPut(fbn: nat, payload: seq<bv8>) returns (o: Outcome)
      requires Valid() && State().Ready() && |payload| == psize
      modifies this, data, occupied
      ensures Valid()
      ensures Put(State(), o) == CircularSpec.TryPut(old(State()), fbn, payload)
    {
      if fbn < State().AbsTail() {
        return Behind;
      }
      if fbn >= absHead {
        o := TryPushHead(fbn, payload);
      } else {
        o := FillGap(fbn, payload);
      }
    }

    /** cnt_upto_gap(): a do-while walk from `tail` in steps of psize. */
    method CntUptoGap() returns (cnt: nat)
      requires Valid() && State().Shaped()
      ensures cnt == CountUpToGap(State())
    {
      var rc := capacity / psize * psize;
      assert rc == State().RoundedCap();
      RoundDown(capacity, psize);
      cnt := 0;
      var i := tail;
      ghost var off: nat := 0;
      ModBelow(tail, rc);
      while true
        invariant off < rc && off % psize == 0
        invariant i == (tail + off) % rc
        invariant cnt + RunFrom(State(), off) == CountUpToGap(State())
        decreases rc - off
      {
        if !occupied[i] {
          break;
        }
        RunFromNext(State(), off);
        cnt := cnt + 1;
        i := (i + psize) % rc;
        off := off + psize;
        if i == tail {
          break;
        }
      }
    }
  }
}
