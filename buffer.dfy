/** The ring helpers of src/utils/buffer.cc. A ring of `bsize` bytes is an
    array (or a sequence) of length `bsize`; `write(fd, ...)` becomes the
    bytes it hands to the descriptor. */
module RingHelpers {
  import opened Mem
  import opened Arith
  import opened RingArith

  /** bufcpy(buffer, src, nbytes): copy `src` to `buffer + pos` and return
      the position just past it. */
  method BufCpy(buffer: array<bv8>, pos: nat, src: seq<bv8>) returns (next: nat)
    requires pos + |src| <= buffer.Length
    modifies buffer
    ensures buffer[..] == Write(old(buffer[..]), pos, src)
    ensures next == pos + |src|
  {
    MemCpy(buffer, pos, src);
    next := pos + |src|;
  }

  /** Chained bufcpy calls, each starting where the previous one returned,
      lay out the concatenation of their sources. */
  lemma WriteChain<T>(s: seq<T>, pos: nat, a: seq<T>, b: seq<T>)
    requires pos + |a| + |b| <= |s|
    ensures Write(Write(s, pos, a), pos + |a|, b) == Write(s, pos, a + b)
  {
    var l := Write(Write(s, pos, a), pos + |a|, b);
    var r := Write(s, pos, a + b);
    WriteAt(s, pos, a);
    WriteAt(Write(s, pos, a), pos + |a|, b);
    WriteAt(s, pos, a + b);
    assert forall i :: 0 <= i < |s| ==> l[i] == r[i];
  }

  /** The effect of cyclical_memcpy(dest, src, bsize, start, nbytes) on a
      ring of `bsize == |d|` bytes: one copy when `start <= end`, else the
      part up to the end of the ring and the rest from 0. */
  function CyclicalCopy<T>(d: seq<T>, src: seq<T>, start: nat): (r: seq<T>)
    requires start < |d| && |src| < |d|
    ensures |r| == |d|
  {
    var bsize := |d|;
    var end := (start + |src|) % bsize;
    ModSmall(start + |src|, bsize);
    if start <= end then Write(d, start, src)
    else Write(Write(d, start, src[..bsize - start]), 0, src[bsize - start..])
  }

  /** The ring cells a copy of `n` bytes from `start` covers. */
  predicate Covered(start: nat, n: nat, bsize: nat, i: nat)
  {
    if start + n <= bsize then start <= i < start + n
    else start <= i || i < start + n - bsize
  }

  /** cyclical_memcpy puts source byte k at ring cell `(start + k) mod
      bsize` and leaves every cell it does not cover as it was. */
  lemma CyclicalCopyMeaning<T>(d: seq<T>, src: seq<T>, start: nat)
    requires start < |d| && |src| < |d|
    ensures var r := CyclicalCopy(d, src, start);
      && (forall k :: 0 <= k < |src| ==> r[Wrap(start, k, |d|)] == src[k])
      && (forall i :: 0 <= i < |d| && !Covered(start, |src|, |d|, i) ==> r[i] == d[i])
  {
    var bsize, n := |d|, |src|;
    var r := CyclicalCopy(d, src, start);
    ModSmall(start + n, bsize);
    if start + n < bsize {
      WriteAt(d, start, src);
    } else {
      var fst := bsize - start;
      var a := Write(d, start, src[..fst]);
      WriteAt(d, start, src[..fst]);
      WriteAt(a, 0, src[fst..]);
    }
    forall k | 0 <= k < n
      ensures r[Wrap(start, k, bsize)] == src[k]
    {
      ModSmall(start + k, bsize);
    }
  }

  /** cyclical_memcpy(dest, src, bsize, start, nbytes), with `bsize` the
      length of `dest`; returns the cell just past the copy. */
  method CyclicalMemcpy(dest: array<bv8>, src: seq<bv8>, start: nat) returns (end: nat)
    requires start < dest.Length && |src| < dest.Length
    modifies dest
    ensures dest[..] == CyclicalCopy(old(dest[..]), src, start)
    ensures end == Wrap(start, |src|, dest.Length)
  {
    var bsize := dest.Length;
    end := (start + |src|) % bsize;
    ModSmall(start + |src|, bsize);
    if start <= end {
      MemCpy(dest, start, src);
    } else {
      var fst := bsize - start;
      MemCpy(dest, start, src[..fst]);
      MemCpy(dest, 0, src[fst..]);
    }
  }

  /** is_between(tail, head, bsize, idx), head-inclusive. */
  function IsBetween(tail: nat, head: nat, bsize: nat, idx: nat): bool
  {
    if tail <= head then tail <= idx <= head
    else idx <= head || (tail <= idx < bsize)
  }

  /** Inside the ring, is_between holds exactly for the cells no further
      from the tail (going round) than the head is. */
  lemma IsBetweenBySpan(tail: nat, head: nat, bsize: nat, idx: nat)
    requires tail < bsize && head < bsize && idx < bsize
    ensures IsBetween(tail, head, bsize, idx) <==> Span(tail, idx, bsize) <= Span(tail, head, bsize)
  {
  }

  /** What cyclical_write hands to the descriptor and how it ends: it
      returns `end`, or a VERIFY/ENSURE check stops the program. */
  datatype Flush = Flushed(out: seq<bv8>, end: nat) | Fatal(out: seq<bv8>)

  /** cyclical_write(fd, buf, bsize, start, nbytes) as written, with
      `bsize == |buf|`. Each `write` either hands over its whole chunk
      (`ok1`, `ok2`) or fails with -1. In the wrapped case the second check
      compares the second write's count, `end`, with `nbytes`. */
  function CyclicalWrite(buf: seq<bv8>, start: nat, n: nat, ok1: bool, ok2: bool): (f: Flush)
    requires start < |buf| && n < |buf|
  {
    var bsize := |buf|;
    var end := (start + n) % bsize;
    ModSmall(start + n, bsize);
    if start <= end then
      if !ok1 then Fatal([]) else Flushed(buf[start..start + n], end)
    else
      var first := buf[start..];
      if !ok1 then Fatal([])
      else if !ok2 then Fatal(first)
      else if end != n then Fatal(first + buf[..end])
      else Flushed(first + buf[..end], end)
  }

  /** cyclical_write with the second check against `end`. */
  function CyclicalWriteCorrected(buf: seq<bv8>, start: nat, n: nat, ok1: bool, ok2: bool): (f: Flush)
    requires start < |buf| && n < |buf|
  {
    var bsize := |buf|;
    var end := (start + n) % bsize;
    ModSmall(start + n, bsize);
    if start <= end then
      if !ok1 then Fatal([]) else Flushed(buf[start..start + n], end)
    else
      var first := buf[start..];
      if !ok1 then Fatal([])
      else if !ok2 then Fatal(first)
      else Flushed(first + buf[..end], end)
  }

  /** As written, every wrapped flush stops the program even when both
      writes succeed: the right bytes reach the descriptor first. */
  lemma CyclicalWriteWrappedFails(buf: seq<bv8>, start: nat, n: nat)
    requires start < |buf| && n < |buf| && start + n >= |buf|
    ensures var f := CyclicalWrite(buf, start, n, true, true);
      && f.Fatal? && |f.out| == n
      && (forall k :: 0 <= k < n ==> f.out[k] == buf[Wrap(start, k, |buf|)])
  {
    var bsize := |buf|;
    ModSmall(start + n, bsize);
    var f := CyclicalWrite(buf, start, n, true, true);
    forall k | 0 <= k < n
      ensures f.out[k] == buf[Wrap(start, k, bsize)]
    {
      ModSmall(start + k, bsize);
    }
  }

  /** The smallest such flush: two bytes from the last cell of a
      four-byte ring. */
  lemma CyclicalWriteWrappedExample()
    ensures CyclicalWrite([1, 2, 3, 4], 3, 2, true, true) == Fatal([4, 1])
  {
    assert (3 + 2) % 4 == 1;
    assert [1, 2, 3, 4][3..] + [1, 2, 3, 4][..1] == [4 as bv8, 1];
  }

  /** The corrected cyclical_write, when both writes succeed, hands the
      descriptor exactly the `n` bytes from `start` in ring order and
      returns the cell past them; a failed write stops it. */
  lemma CyclicalWriteCorrectedEmits(buf: seq<bv8>, start: nat, n: nat, ok1: bool, ok2: bool)
    requires start < |buf| && n < |buf|
    ensures var f := CyclicalWriteCorrected(buf, start, n, ok1, ok2);
      && (f.Flushed? <==> ok1 && (ok2 || start + n < |buf|))
      && (f.Flushed? ==>
            && |f.out| == n && f.end == Wrap(start, n, |buf|)
            && (forall k :: 0 <= k < n ==> f.out[k] == buf[Wrap(start, k, |buf|)]))
  {
    var bsize := |buf|;
    ModSmall(start + n, bsize);
    var f := CyclicalWriteCorrected(buf, start, n, ok1, ok2);
    if f.Flushed? {
      forall k | 0 <= k < n
        ensures f.out[k] == buf[Wrap(start, k, bsize)]
      {
        ModSmall(start + k, bsize);
      }
    }
  }
}
