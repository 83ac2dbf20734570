/** The receive loop of src/receiver.cc with its state in place: the locals
    of `run` that `get_write_pos` updates through references, and the
    byte ring it copies packets into. Each method is proved against the
    functions of RxSpec. */
module Rx {
  import opened Wrappers
  import opened Mem
  import opened Arith
  import opened Pending
  import opened RingHelpers
  import opened RxSpec

  /** cyclical_memcpy(dest + off, src, bsize, start, n) on a ring of
      `dest.Length` bytes; `ok` is false, and nothing is written, when a
      copy would reach outside the ring. */
  method CyclicalMemcpyAt(dest: array<bv8>, off: nat, src: seq<bv8>, start: nat) returns (ok: bool)
    requires 0 < dest.Length && |src| < dest.Length
    modifies dest
    ensures var c := CopyAt(old(dest[..]), off, src, start);
      && ok == c.Some?
      && dest[..] == (if ok then c.value else old(dest[..]))
  {
    var bsize := dest.Length;
    ghost var c := CopyAt(dest[..], off, src, start);
    var end := (start + |src|) % bsize;
    if start <= end {
      if off + start + |src| > bsize {
        assert c == None;
        return false;
      }
      assert c == Some(Write(dest[..], off + start, src));
      MemCpy(dest, off + start, src);
      return true;
    }
    if bsize < start || (start < bsize && 0 < off) || bsize < off + end {
      assert c == None;
      return false;
    }
    var fst := bsize - start;
    ModSmall(start + |src|, bsize);
    ghost var b := if fst == 0 then dest[..] else Write(dest[..], start, src[..fst]);
    assert c == Some(Write(b, off, src[fst..]));
    if fst != 0 {
      MemCpy(dest, start, src[..fst]);
    }
    assert dest[..] == b;
    MemCpy(dest, off, src[fst..]);
    return true;
  }

  /** The state `run` keeps between packets. Before the first session the
      references hold whatever the constructor is given, as the locals of
      `run` are not initialised. */
  class Receiver {
    var session: nat
    var pending: seq<Interval>
    var absHead: nat
    var absTail: nat
    var relHead: nat
    var relTail: nat
    var flush: Option<(nat, nat, nat)>
    const buffer: array<bv8>

    /** The reference parameters of get_write_pos. */
    function References(): Refs
      reads this
    {
      Refs(pending, absHead, absTail, relHead, relTail)
    }

    function State(): Loop
      reads this, buffer
    {
      Loop(session, References(), buffer[..], flush)
    }

    /** Lines 243-259: no session yet, a zeroed ring of `bsize` bytes. */
    constructor(bsize: nat, r: Refs)
      requires 0 < bsize
      ensures fresh(buffer) && buffer.Length == bsize
      ensures State() == Loop(0, r, seq(bsize, _ => 0), None)
    {
      session := 0;
      pending, absHead, absTail, relHead, relTail := r.pending, r.absHead, r.absTail, r.relHead, r.relTail;
      flush := None;
      buffer := new bv8[bsize](_ => 0);
    }

    /** get_write_pos: the position to write a packet starting at byte
        `fbn` to, or none; `fault` when remove_pending dereferences end(). */
    method GetWritePos(fbn: nat, psize: nat) returns (pos: Option<nat>, fault: bool)
      requires 0 < buffer.Length
      modifies this
      ensures Placed(References(), pos, fault) == WritePos(old(References()), fbn, buffer.Length, psize)
      ensures session == old(session) && flush == old(flush)
    {
      var bsize := buffer.Length;
      if fbn < absTail {
        return None, false;
      }
      if fbn > absHead {
        var headOffset := fbn - absHead;
        if headOffset >= bsize {
          return None, false;
        }
        pos, fault := Advance(fbn, psize, headOffset);
        return;
      }
      pending := SplitPending(pending, psize, fbn);
      return Some((relTail + (fbn - absTail)) % bsize + relTail), false;
    }

    /** The advancing branch of get_write_pos (lines 219-235). */
    method Advance(fbn: nat, psize: nat, headOffset: nat) returns (pos: Option<nat>, fault: bool)
      requires 0 < buffer.Length && absHead < fbn && headOffset == fbn - absHead
      modifies this
      ensures Placed(References(), pos, fault) == Advanced(old(References()), fbn, buffer.Length, psize)
      ensures session == old(session) && flush == old(flush)
    {
      var bsize := buffer.Length;
      var newRelHead := (relHead + headOffset) % bsize + relTail;
      if IsBetween(relTail, relHead, bsize, newRelHead) {
        pos, fault := Overwrite(fbn, psize, headOffset);
      } else {
        pending := Skipped(pending, absHead, fbn, psize);
        absHead, relHead := fbn + psize, newRelHead;
        pos, fault := Some(newRelHead), false;
      }
    }

    /** An advance that overwrites old data (lines 222-227, 233-235). */
    method Overwrite(fbn: nat, psize: nat, headOffset: nat) returns (pos: Option<nat>, fault: bool)
      requires 0 < buffer.Length && absHead < fbn && headOffset == fbn - absHead
      modifies this
      ensures Placed(References(), pos, fault) == Overwritten(old(References()), fbn, buffer.Length, psize)
      ensures session == old(session) && flush == old(flush)
    {
      ghost var r0 := References();
      var kept := RemovePending(pending, psize, Sub64(absTail + headOffset, psize));
      if kept.None? {
        assert Overwritten(r0, fbn, buffer.Length, psize) == Placed(r0, None, true);
        return None, true;
      }
      var z := Moved(References(), fbn, buffer.Length, psize, kept.value);
      assert Overwritten(r0, fbn, buffer.Length, psize) == Placed(z, Some(z.relHead), false);
      pending, absHead, absTail, relHead, relTail := z.pending, z.absHead, z.absTail, z.relHead, z.relTail;
      return Some(z.relHead), false;
    }

    /** One pass of the loop of `run` for a packet of `pktSession` starting
        at byte `fbn`. */
    method OnPacket(pktSession: nat, fbn: nat, payload: seq<bv8>) returns (v: Verdict)
      requires 0 < buffer.Length && |payload| < buffer.Length
      modifies this, buffer
      ensures (State(), v) == Step(old(State()), pktSession, fbn, payload)
    {
      if pktSession < session {
        return OldSession;
      }
      if pktSession > session {
        session := pktSession;
        absHead, absTail := fbn, fbn;
        relHead, relTail := 0, 0;
        pending := [];
        FillAt(buffer[..], 0, buffer.Length, 0);
        MemSet(buffer, 0, buffer.Length, 0);
        assert buffer[..] == seq(buffer.Length, _ => 0);
      }
      var pos, fault := GetWritePos(fbn, |payload|);
      if fault {
        return Faulted;
      }
      if pos.None? {
        return Dismissed;
      }
      var ok := CyclicalMemcpyAt(buffer, relTail, payload, pos.value);
      if !ok {
        return OutOfBounds;
      }
      var f := FlushRequest(References(), buffer.Length);
      if f.Some? {
        flush := f;
      }
      return Stored(f.Some?);
    }
  }
}
