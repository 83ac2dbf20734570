/** `cyclical_buffer` (src/utils/cyclical_buffer.cc) performed in place on
    its two arrays. Every method is proved to leave the state the
    corresponding function of CyclicalSpec gives. */
module Cyclical {
  import opened Mem
  import opened Arith
  import opened CyclicalSpec

  class CyclicalBuffer {
    const capacity: nat
    var psize: nat
    var tail: nat
    var head: nat
    const data: array<bv8>
    const occupied: array<bool>

    predicate Valid()
      reads this
    {
      data.Length == capacity && occupied.Length == capacity
      && data as object != occupied as object
    }

    function State(): Cyc
      reads this, data, occupied
    {
      Cyc(capacity, psize, tail, head, data[..], occupied[..])
    }

    /** cyclical_buffer(capacity): zero-initialised arrays. */
    constructor(capacity: nat)
      ensures Valid() && State() == Initial(capacity)
      ensures fresh(data) && fresh(occupied)
    {
      this.capacity := capacity;
      psize, tail, head := 0, 0, 0;
      data := new bv8[capacity](_ => 0);
      occupied := new bool[capacity](_ => false);
    }

    method ZeroSpan(lo: nat, n: nat)
      requires Valid() && lo + n <= capacity
      modifies data, occupied
      ensures Valid() && State() == CyclicalSpec.ZeroSpan(old(State()), lo, lo + n)
    {
      MemSet(data, lo, n, 0);
      MemSet(occupied, lo, n, false);
    }

    /** reset(psize) */
    method Reset(psize: nat)
      requires Valid()
      modifies this, data, occupied
      ensures Valid() && State() == CyclicalSpec.Reset(old(State()), psize)
    {
      tail, head := 0, 0;
      this.psize := psize;
      ZeroSpan(0, capacity);
    }

    /** range() */
    function Range(): nat
      requires Valid() && State().Shaped()
      reads this, data, occupied
    {
      var rc := capacity / psize * psize;
      assert rc == State().RoundedCap();
      if tail <= head then head - tail else head + (rc - tail)
    }

    /** empty(): nothing is held exactly when range() is 0. */
    predicate Empty()
      requires Valid() && State().Shaped()
      reads this, data, occupied
      ensures Empty() <==> State().Empty()
    {
      Range() == 0
    }

    /** sideof(idx) */
    method SideOf(idx: nat) returns (s: Side)
      requires Valid() && State().Shaped()
      ensures s == State().SideOf(idx)
    {
      var rc := capacity / psize * psize;
      assert rc == State().RoundedCap();
      if tail <= head {
        if tail <= idx && idx <= head {
          return Left;
        }
      } else {
        if idx <= head {
          return Left;
        } else if tail <= idx && idx < rc {
          return Right;
        }
      }
      return Nowhere;
    }

    /** pop_tail(dst, nbytes): the copied bytes land at the start of `dst`. */
    method PopTail(dst: array<bv8>, n: nat) returns (st: Status)
      requires Valid() && State().Shaped() && n <= dst.Length
      requires dst != data && dst as object != occupied as object
      modifies this, data, occupied, dst
      ensures Valid()
      ensures var q := CyclicalSpec.PopTail(old(State()), n);
        && State() == q.ring && st == q.status
        && dst[..] == Write(old(dst[..]), 0, q.copied)
    {
      var ok, fst := PopChecks(n);
      if !ok {
        return CheckFails;
      }
      if tail + fst > capacity {
        return WildAccess;
      }
      SecondChunkFits(State(), n);
      PopChunks(dst, n, fst);
      st := Done;
    }

    /** The ENSURE checks of pop_tail and its first chunk (lines 46-53). */
    method PopChecks(n: nat) returns (ok: bool, fst: nat)
      requires Valid() && State().Shaped()
      ensures ok == PopAllowed(State(), n) && fst == FirstChunk(State(), n)
    {
      var rc := capacity / psize * psize;
      assert rc == State().RoundedCap();
      fst := n;
      if tail > head && n > rc - tail {
        fst := rc - tail;
      }
      if n % psize != 0 {
        return false, fst;
      }
      if tail <= head {
        if tail + n == 0 {
          return false, fst;
        }
        var side := SideOf(tail + n - 1);
        ok := side == Left;
      } else if n > rc - tail {
        var side := SideOf(n - fst);
        ok := side == Left;
      } else {
        ok := true;
      }
    }

    /** The copies, memsets and the tail move of pop_tail (lines 54-62). */
    method PopChunks(dst: array<bv8>, n: nat, fst: nat)
      requires Valid() && 0 < psize <= capacity && n <= dst.Length && dst != data && dst as object != occupied as object
      requires fst <= n && n - fst <= capacity && tail + fst <= capacity
      modifies this, data, occupied, dst
      ensures Valid()
      ensures var q := CyclicalSpec.PopChunks(old(State()), n, fst);
        && State() == q.ring
        && dst[..] == Write(old(dst[..]), 0, q.copied)
    {
      ghost var c := State();
      ghost var rc := capacity / psize * psize;
      assert c.RoundedCap() == rc;
      if n - fst > 0 {
        ZeroSpan(0, n - fst);
      }
      ghost var a := State();
      assert a.RoundedCap() == rc && a.tail == c.tail;
      TakeFirst(dst, n, fst);
    }

    /** The copy of the first chunk, its memsets and the tail move. */
    method TakeFirst(dst: array<bv8>, n: nat, fst: nat)
      requires Valid() && 0 < psize <= capacity && fst <= dst.Length && dst != data && dst as object != occupied as object
      requires tail + fst <= capacity
      modifies this, data, occupied, dst
      ensures Valid()
      ensures State() == CyclicalSpec.ZeroSpan(old(State()), old(tail), old(tail) + fst).(tail := (old(tail) + n) % old(State()).RoundedCap())
      ensures dst[..] == Write(old(dst[..]), 0, old(data[tail..tail + fst]))
    {
      CopyOut(dst, fst);
      ClearFirst(n, fst);
    }

    /** memcpy(dst, data + tail, fst) */
    method CopyOut(dst: array<bv8>, fst: nat)
      requires Valid() && tail + fst <= capacity && fst <= dst.Length && dst != data && dst as object != occupied as object
      modifies dst
      ensures dst[..] == Write(old(dst[..]), 0, data[tail..tail + fst])
    {
      MemCpy(dst, 0, data[tail..tail + fst]);
    }

    /** The memsets of the first chunk and the tail move. */
    method ClearFirst(n: nat, fst: nat)
      requires Valid() && 0 < psize <= capacity && tail + fst <= capacity
      modifies this, data, occupied
      ensures Valid()
      ensures State() == CyclicalSpec.ZeroSpan(old(State()), old(tail), old(tail) + fst).(tail := (old(tail) + n) % old(State()).RoundedCap())
    {
      var rc := capacity / psize * psize;
      assert rc == State().RoundedCap();
      ZeroSpan(tail, fst);
      tail := (tail + n) % rc;
    }

    /** pop_tail(dst): one packet. */
    method PopPacket(dst: array<bv8>) returns (st: Status)
      requires Valid() && State().Shaped() && psize <= dst.Length
      requires dst != data && dst as object != occupied as object
      modifies this, data, occupied, dst
      ensures Valid()
      ensures var q := CyclicalSpec.PopPacket(old(State()));
        && State() == q.ring && st == q.status
        && dst[..] == Write(old(dst[..]), 0, q.copied)
    {
      st := PopTail(dst, psize);
    }

    /** fill_gap(src, offset) */
    method FillGap(payload: seq<bv8>, offset: nat) returns (st: Status)
      requires Valid() && State().Shaped() && |payload| == psize
      modifies data, occupied
      ensures Valid()
      ensures Pushed(State(), st) == CyclicalSpec.FillGap(old(State()), payload, offset)
    {
      if offset % psize != 0 {
        return CheckFails;
      }
      var side := SideOf(offset);
      if side == Nowhere {
        return CheckFails;
      }
      var rc := capacity / psize * psize;
      assert rc == State().RoundedCap();
      var pos := tail + offset;
      if tail > head && side == Left {
        if pos < rc - tail {
          return WildAccess;
        }
        pos := pos - (rc - tail);
      }
      if pos + psize > capacity {
        return WildAccess;
      }
      MemCpy(data, pos, payload);
      occupied[pos] := true;
      st := Done;
    }

    /** The restart branch of push_head. */
    method Restart(payload: seq<bv8>)
      requires Valid() && State().Shaped() && |payload| == psize
      modifies this, data, occupied
      ensures Valid() && State() == CyclicalSpec.Restart(old(State()), payload)
    {
      var rc := capacity / psize * psize;
      assert rc == State().RoundedCap();
      Reset(psize);
      MemCpy(data, 0, payload);
      occupied[0] := true;
      head := psize;
      tail := (head + psize) % rc;
    }

    /** The clearing from the head up to `wp`. */
    method ClearUpTo(wp: nat)
      requires Valid() && State().Shaped() && wp <= State().RoundedCap()
      modifies data, occupied
      ensures Valid() && State() == Clear(old(State()), head, wp, old(State()).RoundedCap())
    {
      ghost var c := State();
      var rc := capacity / psize * psize;
      assert rc == c.RoundedCap();
      if wp >= head {
        ZeroSpan(head, wp - head);
      } else {
        ZeroSpan(head, rc - head);
        assert State() == CyclicalSpec.ZeroSpan(c, head, rc);
        ZeroSpan(0, wp);
      }
    }

    /** The advancing branch of push_head. */
    method Advance(payload: seq<bv8>, offset: nat)
      requires Valid() && State().Shaped() && |payload| == psize
      requires offset % psize == 0 && offset < State().RoundedCap()
      modifies this, data, occupied
      ensures Valid() && State() == CyclicalSpec.Advance(old(State()), payload, offset)
    {
      ghost var c := State();
      var rc := capacity / psize * psize;
      assert rc == State().RoundedCap();
      var wp := (head + offset) % rc;
      WritePosRoom(c, offset);
      ClearUpTo(wp);
      MemCpy(data, wp, payload);
      occupied[wp] := true;
      ghost var b := State();
      assert b.RoundedCap() == rc && b.head == c.head && b.tail == c.tail;
      assert NewTail(b, offset) == NewTail(c, offset);
      MoveMarks(offset);
    }

    /** Lines 110-117: the head moves one packet past the write position
        and the tail follows when the head runs onto it. */
    method MoveMarks(offset: nat)
      requires Valid() && State().Shaped()
      modifies this
      ensures Valid() && State() == old(State()).(head := (old(head) + offset + psize) % old(State()).RoundedCap(), tail := NewTail(old(State()), offset))
    {
      var rc := capacity / psize * psize;
      assert rc == State().RoundedCap();
      var virt := head + offset + psize;
      var nh := virt % rc;
      var nt := (nh + psize) % rc;
      if virt >= rc && ((tail <= head && tail <= nh) || head < tail) {
        tail := nt;
      } else if head < tail && tail <= nh {
        tail := nt;
      }
      head := nh;
    }

    /** push_head(src, offset) */
    method PushHead(payload: seq<bv8>, offset: nat) returns (st: Status)
      requires Valid() && State().Shaped() && |payload| == psize
      modifies this, data, occupied
      ensures Valid()
      ensures Pushed(State(), st) == CyclicalSpec.PushHead(old(State()), payload, offset)
    {
      if offset % psize != 0 {
        return CheckFails;
      }
      if offset >= capacity / psize * psize {
        Restart(payload);
      } else {
        Advance(payload, offset);
      }
      st := Done;
    }
  }
}
