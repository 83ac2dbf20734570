/** The state and the operations of `cyclical_buffer`
    (src/utils/cyclical_buffer.cc), the predecessor of CircularBuffer, as
    values. It keeps no absolute offsets: callers pass the offset of a
    packet relative to the head (push_head) or to the tail (fill_gap). */
module CyclicalSpec {
  import opened Mem
  import opened Arith

  datatype Side = Nowhere | Left | Right

  /** The fields of a cyclical_buffer. */
  datatype Cyc = Cyc(
    capacity: nat,
    psize: nat,
    tail: nat,
    head: nat,
    data: seq<bv8>,
    occupied: seq<bool>)
  {
    predicate Sized()
    {
      |data| == capacity && |occupied| == capacity
    }

    /** rounded_cap() */
    function RoundedCap(): (rc: nat)
      requires psize > 0
      ensures rc <= capacity && rc % psize == 0
      ensures psize <= capacity ==> psize <= rc
    {
      RoundDown(capacity, psize);
      capacity / psize * psize
    }

    /** Aligned indices inside the rounded capacity; `head` reaches the
        rounded capacity only in a one-slot ring. */
    predicate Shaped()
    {
      Sized() && 0 < psize <= capacity
      && tail < RoundedCap() && head <= RoundedCap()
      && tail % psize == 0 && head % psize == 0
      && (head == RoundedCap() ==> RoundedCap() == psize)
    }

    /** range() */
    function Range(): (n: nat)
      requires Shaped()
      ensures n <= RoundedCap()
    {
      if tail <= head then head - tail else head + (RoundedCap() - tail)
    }

    /** empty() */
    predicate Empty()
      requires Shaped()
    {
      Range() == 0
    }

    /** sideof(idx), head-inclusive. */
    function SideOf(idx: nat): Side
      requires Shaped()
    {
      if tail <= head then
        (if tail <= idx <= head then Left else Nowhere)
      else if idx <= head then Left
      else if tail <= idx < RoundedCap() then Right
      else Nowhere
    }
  }

  /** How an operation ended: normally, with a failed ENSURE check (the
      program stops), or with a memcpy outside the arrays (undefined
      behaviour). On the last two the model keeps the old state. */
  datatype Status = Done | CheckFails | WildAccess

  /** The state after pop_tail and the bytes it copied into `dst`. */
  datatype Popped = Popped(ring: Cyc, copied: seq<bv8>, status: Status)

  /** The state after fill_gap or push_head. */
  datatype Pushed = Pushed(ring: Cyc, status: Status)

  /** The state the constructor leaves. */
  function Initial(capacity: nat): Cyc
  {
    Cyc(capacity, 0, 0, 0, seq(capacity, _ => 0), seq(capacity, _ => false))
  }

  function ZeroSpan(c: Cyc, lo: nat, hi: nat): (z: Cyc)
    requires c.Sized() && lo <= hi <= c.capacity
    ensures z.Sized()
  {
    c.(data := Fill(c.data, lo, hi, 0), occupied := Fill(c.occupied, lo, hi, false))
  }

  /** reset(psize) */
  function Reset(c: Cyc, psize: nat): (z: Cyc)
    requires c.Sized()
    ensures z.Sized()
  {
    ZeroSpan(c, 0, c.capacity).(tail := 0, head := 0, psize := psize)
  }

  /** The ENSURE checks of pop_tail (lines 46, 49 and 53). The index
      `tail + nbytes - 1` wraps to SIZE_MAX when both are 0, which sideof
      classifies NONE. */
  predicate PopAllowed(c: Cyc, n: nat)
    requires c.Shaped()
  {
    n % c.psize == 0
    && (if c.tail <= c.head then c.tail + n >= 1 && c.SideOf(c.tail + n - 1) == Left
        else n > c.RoundedCap() - c.tail ==> c.SideOf(n - (c.RoundedCap() - c.tail)) == Left)
  }

  /** The first chunk of pop_tail: up to the rounded capacity when the
      range wraps and `n` reaches past it. */
  function FirstChunk(c: Cyc, n: nat): nat
    requires c.Shaped()
  {
    if c.tail > c.head && n > c.RoundedCap() - c.tail then c.RoundedCap() - c.tail else n
  }

  /** pop_tail(dst, nbytes) */
  function PopTail(c: Cyc, n: nat): (q: Popped)
    requires c.Shaped()
    ensures q.ring.Sized()
  {
    if !PopAllowed(c, n) then Popped(c, [], CheckFails)
    else
      var fst := FirstChunk(c, n);
      SecondChunkFits(c, n);
      if c.tail + fst > c.capacity then Popped(c, [], WildAccess)
      else PopChunks(c, n, fst)
  }

  /** The effect of an allowed pop_tail: clear the second chunk, copy the
      first one out, clear it and move the tail (lines 54-62). */
  function PopChunks(c: Cyc, n: nat, fst: nat): (q: Popped)
    requires c.Sized() && 0 < c.psize <= c.capacity && fst <= n && n - fst <= c.capacity && c.tail + fst <= c.capacity
    ensures q.ring.Sized()
  {
    var snd := n - fst;
    var a := if snd > 0 then ZeroSpan(c, 0, snd) else c;
    var copied := a.data[c.tail..c.tail + fst];
    Popped(ZeroSpan(a, c.tail, c.tail + fst).(tail := (c.tail + n) % c.RoundedCap()), copied, Done)
  }

  /** The checks of pop_tail keep the second chunk inside the array. */
  lemma SecondChunkFits(c: Cyc, n: nat)
    requires c.Shaped() && PopAllowed(c, n)
    ensures FirstChunk(c, n) <= n && n - FirstChunk(c, n) <= c.head
  {
  }

  /** pop_tail(dst): one packet. */
  function PopPacket(c: Cyc): (q: Popped)
    requires c.Shaped()
    ensures q.ring.Sized()
  {
    PopTail(c, c.psize)
  }

  /** fill_gap(src, offset): `offset` is handed to sideof, which classifies
      ring indices, and in the wrapped case `pos -= rounded_cap - tail` can
      wrap below zero. */
  function FillGap(c: Cyc, payload: seq<bv8>, offset: nat): (q: Pushed)
    requires c.Shaped() && |payload| == c.psize
    ensures q.ring.Sized()
  {
    var side := c.SideOf(offset);
    if offset % c.psize != 0 || side == Nowhere then Pushed(c, CheckFails)
    else
      var shifted := c.tail > c.head && side == Left;
      var rc := c.RoundedCap();
      if shifted && c.tail + offset < rc - c.tail then Pushed(c, WildAccess)
      else
        var pos := if shifted then c.tail + offset - (rc - c.tail) else c.tail + offset;
        if pos + c.psize > c.capacity then Pushed(c, WildAccess)
        else Pushed(c.(data := Write(c.data, pos, payload), occupied := c.occupied[pos := true]), Done)
  }

  /** The restart branch of push_head (lines 87-93). */
  function Restart(c: Cyc, payload: seq<bv8>): (z: Cyc)
    requires c.Shaped() && |payload| == c.psize
    ensures z.Sized()
  {
    var p := c.psize;
    var r := Reset(c, p);
    r.(data := Write(r.data, 0, payload), occupied := r.occupied[0 := true],
       head := p, tail := (p + p) % c.RoundedCap())
  }

  /** The clearing before a head write: [from, to), round through `rc`
      when `to < from` (lines 98-106). */
  function Clear(c: Cyc, from: nat, to: nat, rc: nat): (z: Cyc)
    requires c.Sized() && from <= rc <= c.capacity && to <= rc
    ensures z.Sized()
  {
    if to >= from then ZeroSpan(c, from, to) else ZeroSpan(ZeroSpan(c, from, rc), 0, to)
  }

  /** The new tail of push_head (lines 110-116). */
  function NewTail(c: Cyc, offset: nat): nat
    requires c.Shaped()
  {
    var rc := c.RoundedCap();
    var virt := c.head + offset + c.psize;
    var nh := virt % rc;
    var nt := (nh + c.psize) % rc;
    if virt >= rc && ((c.tail <= c.head && c.tail <= nh) || c.head < c.tail) then nt
    else if c.head < c.tail && c.tail <= nh then nt
    else c.tail
  }

  /** The advancing branch of push_head (lines 96-117), for an aligned
      offset below the rounded capacity. */
  function Advance(c: Cyc, payload: seq<bv8>, offset: nat): (z: Cyc)
    requires c.Shaped() && |payload| == c.psize
    requires offset % c.psize == 0 && offset < c.RoundedCap()
    ensures z.Sized()
  {
    var rc := c.RoundedCap();
    var wp := (c.head + offset) % rc;
    WritePosRoom(c, offset);
    var b := Clear(c, c.head, wp, rc);
    b.(data := Write(b.data, wp, payload), occupied := b.occupied[wp := true],
       head := (c.head + offset + c.psize) % rc, tail := NewTail(c, offset))
  }

  /** push_head(src, offset) */
  function PushHead(c: Cyc, payload: seq<bv8>, offset: nat): (q: Pushed)
    requires c.Shaped() && |payload| == c.psize
    ensures q.ring.Sized()
  {
    if offset % c.psize != 0 then Pushed(c, CheckFails)
    else if offset >= c.RoundedCap() then Pushed(Restart(c, payload), Done)
    else Pushed(Advance(c, payload, offset), Done)
  }

  /** The write position of an advance leaves room for a packet. */
  lemma WritePosRoom(c: Cyc, offset: nat)
    requires c.Shaped() && offset % c.psize == 0 && offset < c.RoundedCap()
    ensures (c.head + offset) % c.RoundedCap() + c.psize <= c.RoundedCap()
  {
    var rc, p := c.RoundedCap(), c.psize;
    var x := c.head + offset;
    MultiplesApart(offset, rc, p);
    if c.head < rc {
      MultiplesApart(c.head, rc, p);
    }
    ModSmall(x, rc);
    SumOfMultiples(c.head, offset, p);
    if x >= rc {
      SumOfMultiples(x, rc, p);
    }
    MultiplesApart(x % rc, rc, p);
  }
}
