/** The linear receiver of receiver/receiver.cc: packets of one session are
    appended to a flat buffer, in order, until three quarters of the buffer
    past the first byte is reached; then the buffer is written out and the
    next packet starts over. Its flush threshold is the same function as
    RxSpec.FlushThreshold (receiver/receiver.cc:96-98). */
module LinearSpec {
  import opened Wrappers
  import opened Mem
  import opened Arith
  import opened RxSpec

  /** The locals of `run` kept between packets. */
  datatype LinState = LinState(session: nat, byte0: nat, nread: nat, reset: bool, buffer: seq<bv8>)

  /** How a packet ended: ignored as an old session, dropped for a gap
      (which sets `reset`), stored past the end of the stack buffer (which
      the model does not follow further), or stored, with the bytes
      written to standard output when it triggered a flush. */
  datatype LinVerdict = Ignored | Gap | Overflow | Accepted(flushed: Option<seq<bv8>>)

  /** The state after lines 131-136: a reset or a newer session restarts
      at this packet. */
  function Restarted(s: LinState, session: nat, fbn: nat): (t: LinState)
    ensures t.buffer == s.buffer && !t.reset
    ensures s.reset || session > s.session ==> t.byte0 == fbn && t.nread == 0 && t.session == session
    ensures !(s.reset || session > s.session) ==> t == s
  {
    if s.reset || session > s.session then LinState(session, fbn, 0, false, s.buffer) else s
  }

  /** Lines 126-171 for a packet of `session` at byte `fbn`. With `exact`
      a packet is admitted only when it is the next one expected; without
      it, as in the source, when the unsigned difference between its
      number and `lst_pkt` is at most one. */
  function LinStepWith(s: LinState, psize: nat, session: nat, fbn: nat, payload: seq<bv8>, exact: bool): (res: (LinState, LinVerdict))
    requires 0 < psize && |payload| == psize
  {
    if session < s.session then (s, Ignored)
    else
      var t := Restarted(s, session, fbn);
      var lst := t.byte0 / psize + t.nread;
      var cur := fbn / psize;
      if (if exact then cur != lst else Sub64(cur, lst) > 1) then (t.(reset := true), Gap)
      else Append(t, psize, fbn, payload)
  }

  /** Lines 145-171: an admitted packet is copied after the `nread`
      packets held, and the buffer is handed over when the packet reaches
      the flush threshold. */
  function Append(t: LinState, psize: nat, fbn: nat, payload: seq<bv8>): (res: (LinState, LinVerdict))
    requires |payload| == psize
  {
    var off := t.nread * psize;
    if off + psize > |t.buffer| then (t, Overflow)
    else
      var b := Write(t.buffer, off, payload);
      var n := t.nread + 1;
      if fbn + psize - 1 >= FlushThreshold(t.byte0, |t.buffer|) then
        (LinState(t.session, t.byte0, n, true, b), Accepted(Some(b[..off + psize])))
      else (LinState(t.session, t.byte0, n, false, b), Accepted(None))
  }

  /** Appending either overflows, changing nothing, or stores the packet
      right after the ones held, keeps the rest of the buffer, and flushes
      every packet held, in order, exactly when it sets `reset`. */
  lemma AppendFacts(t: LinState, psize: nat, fbn: nat, payload: seq<bv8>)
    requires |payload| == psize
    ensures var (z, v) := Append(t, psize, fbn, payload);
      var p := t.nread * psize;
      && (v.Accepted? || v == Overflow)
      && (v == Overflow <==> p + psize > |t.buffer|)
      && (v == Overflow ==> z == t)
      && (v.Accepted? ==>
        && z.nread == t.nread + 1 && z.byte0 == t.byte0 && z.session == t.session
        && p + psize <= |z.buffer| == |t.buffer|
        && z.buffer[..p] == t.buffer[..p]
        && z.buffer[p..p + psize] == payload
        && z.buffer[p + psize..] == t.buffer[p + psize..]
        && (v.flushed.Some? <==> z.reset)
        && (v.flushed.Some? ==> v.flushed.value == z.buffer[..p + psize]))
  {
    var p := t.nread * psize;
    if p + psize <= |t.buffer| {
      var b := Write(t.buffer, p, payload);
      WriteAt(t.buffer, p, payload);
      assert b[..p] == t.buffer[..p];
      assert b[p..p + psize] == payload;
      assert b[p + psize..] == t.buffer[p + psize..];
    }
  }

  /** One pass of the loop, as written. */
  function LinStep(s: LinState, psize: nat, session: nat, fbn: nat, payload: seq<bv8>): (res: (LinState, LinVerdict))
    requires 0 < psize && |payload| == psize
  {
    LinStepWith(s, psize, session, fbn, payload, false)
  }

  /** One pass of the loop with the gap test `cur_pkt != lst_pkt`. */
  function LinStepCorrected(s: LinState, psize: nat, session: nat, fbn: nat, payload: seq<bv8>): (res: (LinState, LinVerdict))
    requires 0 < psize && |payload| == psize
  {
    LinStepWith(s, psize, session, fbn, payload, true)
  }

  /** A packet of an older session changes nothing. */
  lemma StepIgnoresOldSession(s: LinState, psize: nat, session: nat, fbn: nat, payload: seq<bv8>)
    requires 0 < psize && |payload| == psize && session < s.session
    ensures LinStep(s, psize, session, fbn, payload) == (s, Ignored)
  {
  }

  /** The unsigned gap test admits a packet exactly when its number is the
      expected `lst_pkt` or one more; an earlier packet wraps round and is
      dropped like a gap. A dropped packet changes only `reset`; an
      admitted one is appended (AppendFacts). */
  lemma StepAdmission(s: LinState, psize: nat, session: nat, fbn: nat, payload: seq<bv8>)
    requires 0 < psize && |payload| == psize && session >= s.session
    requires var t := Restarted(s, session, fbn); fbn / psize < U64 && t.byte0 / psize + t.nread + 1 < U64
    ensures var t := Restarted(s, session, fbn);
      var lst := t.byte0 / psize + t.nread;
      var (z, v) := LinStep(s, psize, session, fbn, payload);
      && (v != Gap <==> fbn / psize == lst || fbn / psize == lst + 1)
      && (v == Gap ==> z == t.(reset := true))
      && (v != Gap ==> (z, v) == Append(t, psize, fbn, payload))
  {
    var t := Restarted(s, session, fbn);
    var lst := t.byte0 / psize + t.nread;
    var cur := fbn / psize;
    Sub64Adjacent(cur, lst);
    StepUnfold(s, psize, session, fbn, payload, t, cur, lst);
    AppendNotGap(t, psize, fbn, payload);
  }

  /** A packet of the current or a newer session meets the gap test against
      the restarted state. */
  lemma StepUnfold(s: LinState, psize: nat, session: nat, fbn: nat, payload: seq<bv8>, t: LinState, cur: nat, lst: nat)
    requires 0 < psize && |payload| == psize && session >= s.session
    requires t == Restarted(s, session, fbn) && lst == t.byte0 / psize + t.nread && cur == fbn / psize
    ensures LinStep(s, psize, session, fbn, payload)
      == if Sub64(cur, lst) > 1 then (t.(reset := true), Gap) else Append(t, psize, fbn, payload)
  {
  }

  lemma AppendNotGap(t: LinState, psize: nat, fbn: nat, payload: seq<bv8>)
    requires |payload| == psize
    ensures Append(t, psize, fbn, payload).1 != Gap
  {
  }

  /** The unsigned difference of two numbers below 2^64 is at most one
      exactly when the first is the second or one more. */
  lemma Sub64Adjacent(cur: nat, lst: nat)
    requires cur < U64 && lst + 1 < U64
    ensures Sub64(cur, lst) <= 1 <==> cur == lst || cur == lst + 1
  {
    if cur < lst {
      assert Sub64(cur, lst) == U64 - (lst - cur) > 1;
    }
  }

  /** A restarted session admits its first packet: it becomes the first
      packet of the buffer, at offset 0. */
  lemma StepRestartAdmits(s: LinState, psize: nat, session: nat, fbn: nat, payload: seq<bv8>)
    requires 0 < psize && |payload| == psize && session >= s.session && (s.reset || session > s.session)
    requires psize <= |s.buffer|
    ensures var (z, v) := LinStep(s, psize, session, fbn, payload);
      && v.Accepted? && z.byte0 == fbn && z.nread == 1 && z.session == session
      && z.buffer[..psize] == payload
  {
    var (z, v) := LinStep(s, psize, session, fbn, payload);
    WriteAt(s.buffer, 0, payload);
    assert z.buffer[..psize] == payload;
  }

  /** As written, a packet one past the expected one is admitted and
      written where the missing packet belongs: one packet short of its
      own offset from `byte0`. */
  lemma StepHidesSingleLoss(s: LinState, psize: nat, fbn: nat, payload: seq<bv8>)
    requires 0 < psize && |payload| == psize && !s.reset
    requires fbn / psize == s.byte0 / psize + s.nread + 1 < U64
    requires s.nread * psize + psize <= |s.buffer|
    ensures var (z, v) := LinStep(s, psize, s.session, fbn, payload);
      && v.Accepted? && z.nread == s.nread + 1
      && z.buffer[s.nread * psize..s.nread * psize + psize] == payload
      && s.nread * psize + psize == (fbn / psize - s.byte0 / psize) * psize
  {
    var lst := s.byte0 / psize + s.nread;
    assert Restarted(s, s.session, fbn) == s;
    Sub64Adjacent(fbn / psize, lst);
    var res := LinStep(s, psize, s.session, fbn, payload);
    assert res == Append(s, psize, fbn, payload);
    AppendFacts(s, psize, fbn, payload);
    NextOffset(s.nread, psize);
  }

  lemma NextOffset(n: nat, psize: nat)
    ensures n * psize + psize == (n + 1) * psize
  {
  }

  /** The smallest case: four-byte packets 0 and 8 are stored back to back
      and packet 4 is never reported missing. */
  lemma StepHidesSingleLossExample()
    ensures var s := LinState(1, 0, 1, false, seq(16, _ => 0));
      LinStep(s, 4, 1, 8, [9, 9, 9, 9]).1 == Accepted(None)
  {
    var s := LinState(1, 0, 1, false, seq(16, _ => 0));
    assert Sub64(8 / 4, 0 / 4 + 1) == 1;
  }

  /** With the exact gap test, every admitted packet lands at the offset
      of its own packet number from the first packet of the buffer, and
      every other packet of the session is dropped as a gap. */
  lemma StepCorrectedPlaces(s: LinState, psize: nat, session: nat, fbn: nat, payload: seq<bv8>)
    requires 0 < psize && |payload| == psize && session >= s.session
    ensures var t := Restarted(s, session, fbn);
      var (z, v) := LinStepCorrected(s, psize, session, fbn, payload);
      && (v == Gap <==> fbn / psize != t.byte0 / psize + t.nread)
      && (v.Accepted? ==>
            && t.nread * psize == (fbn / psize - t.byte0 / psize) * psize
            && z.buffer[t.nread * psize..t.nread * psize + psize] == payload)
  {
    var t := Restarted(s, session, fbn);
    var (z, v) := LinStepCorrected(s, psize, session, fbn, payload);
    if v.Accepted? {
      WriteAt(t.buffer, t.nread * psize, payload);
      assert z.buffer[t.nread * psize..t.nread * psize + psize] == payload;
    }
  }
}

/** The loop of receiver/receiver.cc with its locals and stack buffer in
    place. */
module Linear {
  import opened Wrappers
  import opened Mem
  import opened Arith
  import opened RxSpec
  import opened LinearSpec

  class LinearReceiver {
    var session: nat
    var byte0: nat
    var nread: nat
    var reset: bool
    const buffer: array<bv8>

    function State(): LinState
      reads this, buffer
    {
      LinState(session, byte0, nread, reset, buffer[..])
    }

    /** Lines 107-111: no session, `reset` set, an uninitialised buffer
        of `bsize` bytes whose contents are given. */
    constructor(contents: seq<bv8>)
      ensures fresh(buffer) && State() == LinState(0, 0, 0, true, contents)
    {
      session, byte0, nread, reset := 0, 0, 0, true;
      buffer := new bv8[|contents|](i requires 0 <= i < |contents| => contents[i]);
    }

    /** One pass of the loop (lines 126-171) for a packet of `psize` bytes. */
    method OnPacket(psize: nat, pktSession: nat, fbn: nat, payload: seq<bv8>) returns (v: LinVerdict)
      requires 0 < psize && |payload| == psize
      modifies this, buffer
      ensures (State(), v) == LinStep(old(State()), psize, pktSession, fbn, payload)
    {
      if pktSession < session {
        return Ignored;
      }
      if reset || pktSession > session {
        session, byte0, nread, reset := pktSession, fbn, 0, false;
      }
      v := Admit(psize, fbn, payload);
    }

    /** Lines 138-171, once the session has been settled. */
    method Admit(psize: nat, fbn: nat, payload: seq<bv8>) returns (v: LinVerdict)
      requires 0 < psize && |payload| == psize && !reset
      modifies this, buffer
      ensures (State(), v) == LinStep(old(State()), psize, old(session), fbn, payload)
    {
      var fstPkt := byte0 / psize;
      var lstPkt := fstPkt + nread;
      var curPkt := fbn / psize;
      if Sub64(curPkt, lstPkt) > 1 {
        reset := true;
        return Gap;
      }
      v := Store(psize, fbn, payload);
    }

    /** Lines 145-171: the copy into the buffer and the flush test. */
    method Store(psize: nat, fbn: nat, payload: seq<bv8>) returns (v: LinVerdict)
      requires |payload| == psize && !reset
      modifies this, buffer
      ensures (State(), v) == Append(old(State()), psize, fbn, payload)
    {
      var off := nread * psize;
      if off + psize > buffer.Length {
        return Overflow;
      }
      MemCpy(buffer, off, payload);
      nread := nread + 1;
      if fbn + psize - 1 >= FlushThreshold(byte0, buffer.Length) {
        var out := buffer[..off + psize];
        reset := true;
        return Accepted(Some(out));
      }
      return Accepted(None);
    }
  }
}
