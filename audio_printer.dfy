/** The audio printer (src/receiver/audio_printer.cc): woken by the audio
    receiver, it writes the held range of the shared CircularBuffer to
    standard output when that range has no gap, and otherwise reports a
    packet loss on the receiver's pipe. The condition variable becomes the
    precondition of a round; standard output and the pipe are the
    sequences written to them. */
module AudioPrinter {
  import opened Arith
  import opened CircularSpec
  import opened CircularProps
  import opened Circular
  import opened Events

  /** What one round does with the buffer: dump `n` bytes, report a loss,
      or divide by a zero rounded capacity (a buffer never reset has
      psize 0). */
  datatype Decision = Dump(n: nat) | Loss | DivByZero

  /** Lines 24-30: to_print = cnt_upto_gap() * psize(); the whole range is
      dumped when it equals range(). */
  function PrintRound(r: Ring): (d: Decision)
    ensures d.Dump? ==> r.Shaped() && d.n == r.Range() && d.n % r.psize == 0
  {
    if !r.Shaped() then DivByZero
    else
      var n := CountUpToGap(r) * r.psize;
      if n == r.Range() then
        MultipleMod(CountUpToGap(r), r.psize);
        Dump(n)
      else Loss
  }

  /** A round dumps exactly when the slots counted from the tail cover the
      held range, and reports a loss otherwise: either at a free slot inside
      the range or because the count runs past it. */
  lemma PrintRoundMeaning(r: Ring)
    requires r.Ready()
    ensures PrintRound(r).Dump? <==> CountUpToGap(r) * r.psize == r.Range()
    ensures PrintRound(r).Loss? <==> CountUpToGap(r) * r.psize != r.Range()
    ensures PrintRound(r).Loss? && CountUpToGap(r) * r.psize < r.Range() ==> !r.occupied[At(r, CountUpToGap(r) * r.psize)]
  {
    CountUpToGapMeaning(r);
  }

  /** When a round dumps, every slot of the held range is flagged, the
      bytes written are the range in ring order, and (below the rounded
      capacity) the buffer is left empty with abs_tail() at the old
      abs_head(). */
  lemma DumpedRoundEmptiesBuffer(r: Ring)
    requires r.Ready() && CountUpToGap(r) * r.psize == r.Range()
    ensures var n := r.Range();
      && (forall o :: 0 <= o < n && o % r.psize == 0 ==> r.occupied[At(r, o)])
      && (forall k :: 0 <= k < n ==> Emitted(r, n)[k] == r.data[At(r, k)])
      && (r.head < r.RoundedCap() ==> DumpTail(r, n).Ready() && DumpTail(r, n).Range() == 0 && DumpTail(r, n).AbsTail() == r.absHead)
  {
    CountUpToGapMeaning(r);
    EmittedInRingOrder(r, r.Range());
    MultipleMod(CountUpToGap(r), r.psize);
    DumpTailAccounting(r, r.Range());
  }

  /** End to end: a packet that try_put advanced the head with is written
      to standard output, at its offset from abs_tail(), by the next round
      that dumps. */
  lemma AdvancedPacketPrinted(r: Ring, fbn: nat, payload: seq<bv8>)
    requires r.Ready() && |payload| == r.psize && r.psize < r.RoundedCap()
    requires TryPut(r, fbn, payload).outcome == Advanced
    ensures var z := TryPut(r, fbn, payload).ring;
      && z.Ready() && (PrintRound(z).Dump? ==> z.AbsTail() <= fbn && EmitsAt(z, fbn - z.AbsTail(), payload))
  {
    PushedPacketEmitted(r, fbn, payload);
  }

  class AudioPrinterWorker {
    const buffer: CircularBuffer
    var wait: bool
    /** The bytes written to standard output. */
    var stdout: seq<bv8>
    /** The events set on the audio receiver's pipe. */
    var receiverEvents: seq<PipeEvent>

    predicate Valid()
      reads this, buffer
    {
      buffer.Valid()
    }

    /** The constructor leaves `_wait` uninitialised: its first value is a
        parameter. */
    constructor(buffer: CircularBuffer, wait: bool)
      ensures this.buffer == buffer && this.wait == wait
      ensures stdout == [] && receiverEvents == []
    {
      this.buffer := buffer;
      this.wait := wait;
      stdout, receiverEvents := [], [];
    }

    /** signal(): lets the next round run. */
    method Signal()
      modifies this
      ensures !wait
      ensures stdout == old(stdout) && receiverEvents == old(receiverEvents)
    {
      wait := false;
    }

    /** One pass of the run() loop after the condition variable lets it
        through (`!running || !_wait`). */
    method Round(running: bool) returns (stop: bool)
      requires Valid() && (!running || !wait)
      modifies this, buffer, buffer.data, buffer.occupied
      ensures Valid() && stop == !running
      ensures !running ==>
        && buffer.State() == old(buffer.State()) && wait == old(wait)
        && stdout == old(stdout) && receiverEvents == old(receiverEvents)
      ensures running ==>
        var r := old(buffer.State());
        var d := PrintRound(r);
        && wait
        && (d.Dump? ==> buffer.State() == DumpTail(r, d.n) && stdout == old(stdout) + Emitted(r, d.n))
        && (!d.Dump? ==> buffer.State() == r && stdout == old(stdout))
        && receiverEvents == old(receiverEvents) + (if d.Loss? then [PacketLoss] else [])
    {
      if !running {
        return true;
      }
      stop := false;
      if !buffer.State().Shaped() {
        wait := true;
        return;
      }
      var cnt := buffer.CntUptoGap();
      var toPrint := cnt * buffer.psize;
      if toPrint == buffer.State().Range() {
        MultipleMod(cnt, buffer.psize);
        var out := buffer.DumpTail(toPrint);
        stdout := stdout + out;
      } else {
        receiverEvents := receiverEvents + [PacketLoss];
      }
      wait := true;
    }
  }
}
