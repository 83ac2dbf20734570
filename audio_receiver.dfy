/** The audio receiver (src/receiver/audio_receiver.cc, lines 65-116): one
    pass of its poll loop handles an event read from its pipe or an audio
    packet read from the data socket, tracking the current session and
    whether the printer has been started, and storing packets in the shared
    CircularBuffer. Subscribing the socket to a station's group is socket
    I/O and becomes a flag; a packet is its session id, first byte number
    and audio bytes. */
module AudioReceiver {
  import opened CircularSpec
  import opened CircularProps
  import opened Circular
  import opened Events
  import opened AudioPrinter

  const NO_SESSION: nat := 0

  /** The loop's locals and the buffer. */
  datatype RxState = RxState(curSession: nat, hasPrinted: bool, ring: Ring)

  /** What became of a packet. `Undefined` is a try_put on a buffer whose
      packet size is 0 or exceeds the capacity (a division by a zero
      rounded capacity or a memcpy past the arrays); `OverRead` a packet
      shorter than the buffer's packet size, whose memcpy reads past it. */
  datatype Verdict = OldSession | TooLarge | Late | Stored(outcome: Outcome) | Undefined | OverRead

  datatype RxStep = RxStep(state: RxState, verdict: Verdict, signal: bool)

  /** What keeps try_put defined: while a session is current, the buffer's
      packet size fits its capacity. */
  predicate Inv(s: RxState)
  {
    s.ring.Sized() && (s.curSession != NO_SESSION ==> s.ring.Ready())
  }

  /** Lines 103-116, after the session checks: drop a packet below byte0,
      otherwise try_put it and signal the printer once it has started or the
      packet reaches the print threshold. */
  function Deliver(t: RxState, fbn: nat, audio: seq<bv8>): RxStep
  {
    if fbn < t.ring.byte0 then RxStep(t, Late, false)
    else if !t.ring.Ready() then RxStep(t, Undefined, false)
    else if |audio| < t.ring.psize then RxStep(t, OverRead, false)
    else
      var q := TryPut(t.ring, fbn, audio[..t.ring.psize]);
      var signal := t.hasPrinted || fbn + t.ring.psize - 1 >= t.ring.PrintThreshold();
      RxStep(RxState(t.curSession, signal, q.ring), Stored(q.outcome), signal)
  }

  /** Lines 84-116 as written: the size test reads the packet size of the
      buffer (the previous session's), before a new session resets it. */
  function Receive(s: RxState, sid: nat, fbn: nat, audio: seq<bv8>): RxStep
    requires s.ring.Sized()
  {
    if sid < s.curSession then RxStep(s, OldSession, false)
    else if s.ring.psize > s.ring.capacity then RxStep(s.(curSession := NO_SESSION), TooLarge, false)
    else if sid > s.curSession then Deliver(RxState(sid, false, ResetAt(s.ring, |audio|, fbn)), fbn, audio)
    else Deliver(s, fbn, audio)
  }

  /** Lines 84-116 with the size test on the packet that starts a new
      session, before the buffer is reset to its size. */
  function ReceiveCorrected(s: RxState, sid: nat, fbn: nat, audio: seq<bv8>): RxStep
    requires s.ring.Sized()
  {
    if sid < s.curSession then RxStep(s, OldSession, false)
    else if sid > s.curSession && !(0 < |audio| <= s.ring.capacity) then
      RxStep(s.(curSession := NO_SESSION), TooLarge, false)
    else if sid > s.curSession then Deliver(RxState(sid, false, ResetAt(s.ring, |audio|, fbn)), fbn, audio)
    else Deliver(s, fbn, audio)
  }

  /** try_put keeps the packet size, capacity and byte0 of a ready buffer. */
  lemma DeliverKeeps(t: RxState, fbn: nat, audio: seq<bv8>)
    requires t.ring.Sized()
    ensures var st := Deliver(t, fbn, audio);
      && st.state.curSession == t.curSession
      && st.state.ring.capacity == t.ring.capacity && st.state.ring.psize == t.ring.psize
      && st.state.ring.byte0 == t.ring.byte0
      && (t.ring.Ready() ==> st.state.ring.Ready())
      && (!st.verdict.Stored? ==> st.state == t && !st.signal)
      && (st.verdict.Stored? ==> st.state.hasPrinted == st.signal)
  {
    if fbn >= t.ring.byte0 && t.ring.Ready() && |audio| >= t.ring.psize {
      TryPutKeepsReady(t.ring, fbn, audio[..t.ring.psize]);
    }
  }

  /** The packet cases of lines 84-116: an older session is ignored; with a
      buffer packet size past the capacity the session is dropped; a newer
      session becomes current, with has_printed cleared and byte0 at this
      packet; a late packet leaves the buffer alone; a stored packet
      signals the printer exactly when it has already started or the packet
      ends at or past the print threshold, and has_printed records it. */
  lemma ReceiveCases(s: RxState, sid: nat, fbn: nat, audio: seq<bv8>)
    requires s.ring.Sized()
    ensures var st := Receive(s, sid, fbn, audio);
      && (sid < s.curSession ==> st == RxStep(s, OldSession, false))
      && (sid >= s.curSession && s.ring.psize > s.ring.capacity ==>
            st.state == s.(curSession := NO_SESSION) && st.verdict == TooLarge && !st.signal)
      && (sid > s.curSession && s.ring.psize <= s.ring.capacity ==>
            st.state.curSession == sid && st.state.ring.byte0 == fbn && st.state.ring.psize == |audio|
            && st.state.hasPrinted == st.signal
            && st.signal == (st.verdict.Stored? && |audio| - 1 >= s.ring.capacity / 4 * 3))
      && (sid == s.curSession && s.ring.psize <= s.ring.capacity ==>
            st.state.curSession == sid && st.state.ring.byte0 == s.ring.byte0
            && (fbn < s.ring.byte0 ==> st.state == s && st.verdict == Late)
            && (st.verdict.Stored? ==>
                  st.signal == (s.hasPrinted || fbn + s.ring.psize - 1 >= s.ring.PrintThreshold())))
      && (st.verdict.Stored? ==> st.state.hasPrinted == st.signal)
      && (!st.verdict.Stored? ==> !st.signal)
  {
    if sid > s.curSession && s.ring.psize <= s.ring.capacity {
      DeliverKeeps(RxState(sid, false, ResetAt(s.ring, |audio|, fbn)), fbn, audio);
    } else if sid == s.curSession && s.ring.psize <= s.ring.capacity {
      DeliverKeeps(s, fbn, audio);
    }
  }

  /** Once the printer has started it is signalled for every packet of the
      session that is stored. */
  lemma PrintingStaysOn(s: RxState, fbn: nat, audio: seq<bv8>)
    requires s.ring.Sized() && s.hasPrinted && s.ring.psize <= s.ring.capacity
    requires Receive(s, s.curSession, fbn, audio).verdict.Stored?
    ensures Receive(s, s.curSession, fbn, audio).signal
    ensures Receive(s, s.curSession, fbn, audio).state.hasPrinted
  {
  }

  /** As written, the first packet of a new session whose audio is larger
      than the capacity makes the session current with an unusable buffer,
      so try_put runs on it: the invariant breaks. */
  lemma OversizedSessionStarts()
    ensures var s := RxState(NO_SESSION, false, Initial(8));
      var st := Receive(s, 1, 0, seq(9, _ => 0));
      && Inv(s) && !Inv(st.state) && st.verdict == Undefined && st.state.curSession == 1
  {
    var s := RxState(NO_SESSION, false, Initial(8));
    var r := ResetAt(s.ring, 9, 0);
    assert !r.Ready();
  }

  /** With the size test on the packet, a step keeps the invariant, and a
      packet of a real session (not NO_SESSION) never reaches try_put on an
      unusable buffer. */
  lemma ReceiveCorrectedKeepsInv(s: RxState, sid: nat, fbn: nat, audio: seq<bv8>)
    requires Inv(s)
    ensures var st := ReceiveCorrected(s, sid, fbn, audio);
      && Inv(st.state)
      && (sid != NO_SESSION ==> st.verdict != Undefined)
  {
    if sid > s.curSession && 0 < |audio| <= s.ring.capacity {
      var t := RxState(sid, false, ResetAt(s.ring, |audio|, fbn));
      ResetAtEmpties(s.ring, |audio|, fbn);
      DeliverKeeps(t, fbn, audio);
    } else if sid == s.curSession {
      DeliverKeeps(s, fbn, audio);
    }
  }

  /** End to end, in a session under way: a packet that advances the head
      is written out, at its offset from abs_tail(), by the next printer
      round that dumps. */
  lemma StoredPacketPrinted(s: RxState, fbn: nat, audio: seq<bv8>)
    requires Inv(s) && s.curSession != NO_SESSION && s.ring.psize < s.ring.RoundedCap()
    requires Receive(s, s.curSession, fbn, audio).verdict == Stored(Advanced)
    ensures var z := Receive(s, s.curSession, fbn, audio).state.ring;
      && z.Ready() && (PrintRound(z).Dump? ==> z.AbsTail() <= fbn && EmitsAt(z, fbn - z.AbsTail(), audio[..s.ring.psize]))
  {
    assert Receive(s, s.curSession, fbn, audio) == Deliver(s, fbn, audio);
    DeliverStored(s, fbn, audio);
    AdvancedPacketPrinted(s.ring, fbn, audio[..s.ring.psize]);
  }

  /** A stored packet went through try_put with its first psize bytes. */
  lemma DeliverStored(t: RxState, fbn: nat, audio: seq<bv8>)
    requires Deliver(t, fbn, audio).verdict.Stored?
    ensures t.ring.Ready() && t.ring.psize <= |audio|
    ensures var q := TryPut(t.ring, fbn, audio[..t.ring.psize]);
      && Deliver(t, fbn, audio).verdict == Stored(q.outcome) && Deliver(t, fbn, audio).state.ring == q.ring
  {
  }

  class AudioReceiverWorker {
    var curSession: nat
    var hasPrinted: bool
    const buffer: CircularBuffer
    const printer: AudioPrinterWorker

    predicate Valid()
      reads this, buffer, printer
    {
      buffer.Valid() && printer.buffer == buffer
    }

    function State(): RxState
      reads this, buffer, buffer.data, buffer.occupied
    {
      RxState(curSession, hasPrinted, buffer.State())
    }

    /** Before the loop: no session, nothing printed. */
    constructor(buffer: CircularBuffer, printer: AudioPrinterWorker)
      requires buffer.Valid() && printer.buffer == buffer
      ensures Valid() && this.buffer == buffer && this.printer == printer
      ensures curSession == NO_SESSION && !hasPrinted
    {
      this.buffer := buffer;
      this.printer := printer;
      curSession, hasPrinted := NO_SESSION, false;
    }

    /** Lines 65-77: an event from the pipe. SIG_INT while not running ends
        the loop; PACKET_LOSS forgets the session; STATION_CHANGE forgets it
        and asks for the socket to follow the current station. */
    method HandleEvent(e: PipeEvent, running: bool) returns (stop: bool, resubscribe: bool)
      modifies this
      ensures stop <==> e == SigInt && !running
      ensures resubscribe <==> e == StationChange
      ensures curSession == (if e == PacketLoss || e == StationChange then NO_SESSION else old(curSession))
      ensures hasPrinted == old(hasPrinted)
    {
      stop, resubscribe := false, false;
      if e == SigInt && !running {
        return true, false;
      }
      if e == PacketLoss {
        curSession := NO_SESSION;
      }
      if e == StationChange {
        curSession := NO_SESSION;
        resubscribe := true;
      }
    }

    /** Lines 79-116: an audio packet from the socket. */
    method HandlePacket(sid: nat, fbn: nat, audio: seq<bv8>) returns (v: Verdict)
      requires Valid()
      modifies this, buffer, buffer.data, buffer.occupied, printer
      ensures Valid()
      ensures var st := Receive(old(State()), sid, fbn, audio);
        && State() == st.state && v == st.verdict
        && printer.wait == (if st.signal then false else old(printer.wait))
        && printer.stdout == old(printer.stdout) && printer.receiverEvents == old(printer.receiverEvents)
    {
      if sid < curSession {
        return OldSession;
      }
      if buffer.psize > buffer.capacity {
        curSession := NO_SESSION;
        return TooLarge;
      }
      if sid > curSession {
        curSession := sid;
        hasPrinted := false;
        buffer.ResetAt(|audio|, fbn);
      }
      if fbn < buffer.byte0 {
        return Late;
      }
      if !buffer.State().Ready() {
        return Undefined;
      }
      var p := buffer.psize;
      if |audio| < p {
        return OverRead;
      }
      var o := buffer.TryPut(fbn, audio[..p]);
      if hasPrinted || fbn + p - 1 >= buffer.byte0 + buffer.capacity / 4 * 3 {
        hasPrinted := true;
        printer.Signal();
      }
      v := Stored(o);
    }
  }
}
