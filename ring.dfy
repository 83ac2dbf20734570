/** The state and the operations of `CircularBuffer`
    (src/common/circular_buffer.cc) as values: a snapshot `Ring` of the
    object's fields and arrays, and one function per operation giving the
    snapshot afterwards. The class in circular_buffer.dfy performs the same
    operations in place and is proved to agree with these functions. */
module CircularSpec {
  import opened Mem
  import opened Arith

  /** `CircularBuffer::side`. `Nowhere` is the enumerator NONE. */
  datatype Side = Nowhere | Left | Right

  /** The fields of a CircularBuffer. Offsets are unbounded naturals: the
      64-bit absolute offsets of the source never wrap in this model. */
  datatype Ring = Ring(
    capacity: nat,
    psize: nat,
    tail: nat,
    head: nat,
    absHead: nat,
    byte0: nat,
    data: seq<bv8>,
    occupied: seq<bool>)
  {
    predicate Sized()
    {
      |data| == capacity && |occupied| == capacity
    }

    /** rounded_cap(): the capacity rounded down to whole packets. */
    function RoundedCap(): (rc: nat)
      requires psize > 0
      ensures rc <= capacity && rc % psize == 0
      ensures psize <= capacity ==> psize <= rc
      ensures capacity - rc < psize
    {
      RoundDown(capacity, psize);
      capacity / psize * psize
    }

    /** What every operation on a buffer in use relies on: a packet size
        that fits, packet-aligned `tail` and `head` inside the rounded
        capacity, and `head` equal to the rounded capacity only in a
        one-slot ring (the state the restart branch of try_push_head leaves). */
    predicate Shaped()
    {
      Sized() && 0 < psize <= capacity
      && tail < RoundedCap() && head <= RoundedCap()
      && tail % psize == 0 && head % psize == 0
      && (head == RoundedCap() ==> RoundedCap() == psize)
    }

    /** range(): the number of bytes from tail to head around the ring. */
    function Range(): (n: nat)
      requires Shaped()
      ensures n <= RoundedCap()
      ensures n == 0 <==> tail == head
    {
      if tail <= head then head - tail else head + (RoundedCap() - tail)
    }

    /** A buffer in use: shaped, and the held range starts at a real
        absolute offset. */
    predicate Ready()
    {
      Shaped() && Range() <= absHead
    }

    /** abs_tail(): the absolute offset of the byte at `tail`. */
    function AbsTail(): nat
      requires Ready()
    {
      absHead - Range()
    }

    /** sideof(idx): LEFT for the part of the held range up to and including
        `head`, RIGHT for the part from `tail` to the rounded capacity when
        the range wraps, NONE elsewhere. */
    function SideOf(idx: nat): Side
      requires Shaped()
    {
      if tail <= head then
        (if tail <= idx <= head then Left else Nowhere)
      else if idx <= head then Left
      else if tail <= idx < RoundedCap() then Right
      else Nowhere
    }

    /** print_threshold(): three quarters of the capacity past byte0. */
    function PrintThreshold(): (t: nat)
      ensures byte0 <= t <= byte0 + capacity
      ensures 4 * (t - byte0) <= 3 * capacity < 4 * (t - byte0) + 12
    {
      byte0 + capacity / 4 * 3
    }
  }

  /** What try_put did with a packet. The last two stand for a failed
      `assert` (the program aborts) and a memcpy through a pointer outside
      the arrays (undefined behaviour); for those the model keeps the old
      state. */
  datatype Outcome =
    | Behind       // first_byte_num < abs_tail(): dropped
    | Dismissed    // too far ahead of abs_head: dropped
    | Advanced     // written at the head
    | Restarted    // the head offset reached the rounded capacity: reset and written at 0
    | Filled       // written into a gap
    | AssertFails
    | WildWrite

  datatype Put = Put(ring: Ring, outcome: Outcome)

  /** The state the constructor leaves: zeroed arrays of `capacity` cells,
      psize 0 and all indices 0. */
  function Initial(capacity: nat): Ring
  {
    Ring(capacity, 0, 0, 0, 0, 0, seq(capacity, _ => 0), seq(capacity, _ => false))
  }

  /** The paired memsets of the source: data bytes and occupied flags in
      [lo, hi) cleared. */
  function ZeroSpan(r: Ring, lo: nat, hi: nat): (z: Ring)
    requires r.Sized() && lo <= hi <= r.capacity
    ensures z.Sized()
  {
    r.(data := Fill(r.data, lo, hi, 0), occupied := Fill(r.occupied, lo, hi, false))
  }

  /** reset(psize) */
  function Reset(r: Ring, psize: nat): Ring
    requires r.Sized()
  {
    ZeroSpan(r, 0, r.capacity).(tail := 0, head := 0, psize := psize)
  }

  /** reset(psize, abs_head) */
  function ResetAt(r: Ring, psize: nat, absHead: nat): Ring
    requires r.Sized()
  {
    Reset(r.(absHead := absHead, byte0 := absHead), psize)
  }

  /** Ring positions [from, to) cleared, going round through the rounded
      capacity `rc` when `to < from`. */
  function Clear(r: Ring, from: nat, to: nat, rc: nat): (z: Ring)
    requires r.Sized() && from <= rc <= r.capacity && to <= rc
    ensures z.Sized()
  {
    if to >= from then ZeroSpan(r, from, to) else ZeroSpan(ZeroSpan(r, from, rc), 0, to)
  }

  /** The split of `n` bytes from the tail into the part up to the rounded
      capacity and the part from index 0 (dump_tail lines 66-71). */
  function Chunks(r: Ring, n: nat): (c: (nat, nat))
    requires r.Shaped() && n <= r.Range()
    ensures c.0 + c.1 == n
    ensures r.tail + c.0 <= r.RoundedCap() && c.1 <= r.head
  {
    if r.tail > r.head && n > r.RoundedCap() - r.tail then
      (r.RoundedCap() - r.tail, n - (r.RoundedCap() - r.tail))
    else (n, 0)
  }

  /** The bytes dump_tail(n) writes to standard output. */
  function Emitted(r: Ring, n: nat): (e: seq<bv8>)
    requires r.Shaped() && n <= r.Range()
    ensures |e| == n
  {
    var c := Chunks(r, n);
    r.data[r.tail..r.tail + c.0] + r.data[..c.1]
  }

  /** The state dump_tail(n) leaves. */
  function DumpTail(r: Ring, n: nat): Ring
    requires r.Shaped() && n <= r.Range()
  {
    var c := Chunks(r, n);
    ZeroSpan(ZeroSpan(r, r.tail, r.tail + c.0), 0, c.1).(tail := (r.tail + n) % r.RoundedCap())
  }

  /** Sums and differences of packet-aligned indices below three rounded
      capacities stay aligned after reduction modulo the rounded capacity. */
  lemma AlignedMod(x: nat, r: Ring)
    requires r.Shaped() && x % r.psize == 0 && x < 3 * r.RoundedCap()
    ensures (x % r.RoundedCap()) % r.psize == 0
    ensures x % r.RoundedCap() + r.psize <= r.RoundedCap()
  {
    var rc := r.RoundedCap();
    RoundDown(r.capacity, r.psize);
    ModSmall(x, rc);
    if x >= rc {
      SumOfMultiples(x, rc, r.psize);
    }
    if x >= 2 * rc {
      SumOfMultiples(x - rc, rc, r.psize);
    }
    MultiplesApart(x % rc, rc, r.psize);
  }

  /** The restart branch of try_push_head (lines 108-112): the head offset
      reached the rounded capacity. */
  function Restart(r: Ring, fbn: nat, payload: seq<bv8>): (z: Ring)
    requires r.Shaped() && |payload| == r.psize
  {
    var p := r.psize;
    var c := Reset(r, p);
    c.(absHead := fbn + p,
       data := Write(c.data, 0, payload),
       occupied := c.occupied[0 := true],
       head := p,
       tail := (p + p) % r.RoundedCap())
  }

  /** The advancing branch of try_push_head (lines 114-135), for a head
      offset `ho` that is a multiple of psize, at most psize and below the
      rounded capacity. */
  function Advance(r: Ring, fbn: nat, payload: seq<bv8>): (z: Ring)
    requires r.Ready() && fbn >= r.absHead && |payload| == r.psize
    requires var ho := fbn - r.absHead; ho % r.psize == 0 && ho <= r.psize && ho < r.RoundedCap()
  {
    var ho := fbn - r.absHead;
    var p := r.psize;
    var rc := r.RoundedCap();
    var wp := (r.head + ho) % rc;
    SumOfMultiples(r.head, ho, p);
    AlignedMod(r.head + ho, r);
    Place(r, wp, payload).(absHead := fbn + p, head := (r.head + ho + p) % rc, tail := NewTail(r, ho))
  }

  /** The new tail of an advance by `ho` bytes (lines 128-134): one packet
      past the new head when the head runs onto or past the tail. */
  function NewTail(r: Ring, ho: nat): nat
    requires r.Shaped()
  {
    var rc := r.RoundedCap();
    var virt := r.head + ho + r.psize;
    var nh := virt % rc;
    var nt := (nh + r.psize) % rc;
    if virt >= rc && ((r.tail <= r.head && r.tail <= nh) || r.head < r.tail) then nt
    else if r.head < r.tail && r.tail <= nh then nt
    else r.tail
  }

  /** Lines 114-126: clear from the head up to `wp`, then write the payload
      at `wp` and mark it occupied. */
  function Place(r: Ring, wp: nat, payload: seq<bv8>): (z: Ring)
    requires r.Shaped() && |payload| == r.psize && wp + r.psize <= r.RoundedCap()
    ensures z.Sized()
    ensures z == r.(data := z.data, occupied := z.occupied)
  {
    var c := Clear(r, r.head, wp, r.RoundedCap());
    c.(data := Write(c.data, wp, payload), occupied := c.occupied[wp := true])
  }

  /** try_push_head(packet), for first_byte_num >= abs_head. */
  function PushHead(r: Ring, fbn: nat, payload: seq<bv8>): Put
    requires r.Ready() && fbn >= r.absHead && |payload| == r.psize
  {
    var ho := fbn - r.absHead;
    if ho % r.psize != 0 then Put(r, AssertFails)
    else if ho > r.psize then Put(r, Dismissed)
    else if ho >= r.RoundedCap() then Put(Restart(r, fbn, payload), Restarted)
    else Put(Advance(r, fbn, payload), Advanced)
  }

  /** The ring index fill_gap writes the packet at tail offset `off` to:
      `tail + off`, less the bytes from the tail to the rounded capacity
      when the range wraps and sideof calls the offset LEFT. Negative where
      the size_t subtraction would wrap around. FillGap computes the same
      index in line, as fill_gap does. */
  function GapIndex(r: Ring, off: nat): int
    requires r.Shaped()
  {
    var rc := r.RoundedCap();
    if r.tail > r.head && r.SideOf(off) == Left then r.tail + off - (rc - r.tail) else r.tail + off
  }

  /** fill_gap(packet), for abs_tail <= first_byte_num < abs_head. Note that
      sideof is given the tail offset, not a ring index. */
  function FillGap(r: Ring, fbn: nat, payload: seq<bv8>): Put
    requires r.Ready() && r.AbsTail() <= fbn < r.absHead && |payload| == r.psize
  {
    var off := fbn - r.AbsTail();
    var rc := r.RoundedCap();
    var side := r.SideOf(off);
    var shifted := r.tail > r.head && side == Left;
    if off % r.psize != 0 || side == Nowhere then Put(r, AssertFails)
    else if shifted && r.tail + off < rc - r.tail then Put(r, WildWrite)  // size_t wrap-around
    else
      var pos := if shifted then r.tail + off - (rc - r.tail) else r.tail + off;
      if pos + r.psize > r.capacity then Put(r, WildWrite)
      else Put(r.(data := Write(r.data, pos, payload), occupied := r.occupied[pos := true]), Filled)
  }

  /** try_put(packet) */
  function TryPut(r: Ring, fbn: nat, payload: seq<bv8>): Put
    requires r.Ready() && |payload| == r.psize
  {
    if fbn < r.AbsTail() then Put(r, Behind)
    else if fbn >= r.absHead then PushHead(r, fbn, payload)
    else FillGap(r, fbn, payload)
  }

  /** The number of occupied slots met walking from ring offset `off` past
      the tail towards one full turn, stopping at the first free slot. */
  function RunFrom(r: Ring, off: nat): nat
    requires r.Shaped() && off <= r.RoundedCap() && off % r.psize == 0
    decreases r.RoundedCap() - off
  {
    if off == r.RoundedCap() then 0
    else
      RoundDown(r.capacity, r.psize);
      MultiplesApart(off, r.RoundedCap(), r.psize);
      SumOfMultiples(off, r.psize, r.psize);
      var i := (r.tail + off) % r.RoundedCap();
      if !r.occupied[i] then 0 else 1 + RunFrom(r, off + r.psize)
  }

  /** One step of the walk from an occupied slot: the run counts it, and
      the next slot index is reached by adding psize modulo the rounded
      capacity, back at the tail exactly after a full turn. */
  lemma RunFromNext(r: Ring, off: nat)
    requires r.Shaped() && off < r.RoundedCap() && off % r.psize == 0
    requires r.occupied[(r.tail + off) % r.RoundedCap()]
    ensures off + r.psize <= r.RoundedCap() && (off + r.psize) % r.psize == 0
    ensures RunFrom(r, off) == 1 + RunFrom(r, off + r.psize)
    ensures ((r.tail + off) % r.RoundedCap() + r.psize) % r.RoundedCap() == (r.tail + off + r.psize) % r.RoundedCap()
    ensures (r.tail + off + r.psize) % r.RoundedCap() == r.tail <==> off + r.psize == r.RoundedCap()
  {
    var rc := r.RoundedCap();
    MultiplesApart(off, rc, r.psize);
    SumOfMultiples(off, r.psize, r.psize);
    ModSmall(r.tail + off, rc);
    ModSmall(r.tail + off + r.psize, rc);
    ModSmall((r.tail + off) % rc + r.psize, rc);
  }

  /** cnt_upto_gap(): occupied slots from the tail up to the first gap, at
      most one full turn (it does not stop at the head). */
  function CountUpToGap(r: Ring): nat
    requires r.Shaped()
  {
    RunFrom(r, 0)
  }
}
