/** Byte-array primitives standing for memset and memcpy. The sequence
    functions describe the effect; the methods perform it on an array. */
module Mem {

  /** `s` with positions [lo, hi) set to `v`. */
  function Fill<T>(s: seq<T>, lo: nat, hi: nat, v: T): (r: seq<T>)
    requires lo <= hi <= |s|
    ensures |r| == |s|
  {
    seq(|s|, i requires 0 <= i < |s| => if lo <= i < hi then v else s[i])
  }

  lemma FillAt<T>(s: seq<T>, lo: nat, hi: nat, v: T)
    requires lo <= hi <= |s|
    ensures forall i :: 0 <= i < |s| ==> Fill(s, lo, hi, v)[i] == (if lo <= i < hi then v else s[i])
  {
  }

  /** `s` with `src` copied over it starting at `pos`. */
  function Write<T>(s: seq<T>, pos: nat, src: seq<T>): (r: seq<T>)
    requires pos + |src| <= |s|
    ensures |r| == |s|
  {
    seq(|s|, i requires 0 <= i < |s| => if pos <= i < pos + |src| then src[i - pos] else s[i])
  }

  lemma WriteAt<T>(s: seq<T>, pos: nat, src: seq<T>)
    requires pos + |src| <= |s|
    ensures forall i :: 0 <= i < |s| ==> Write(s, pos, src)[i] == (if pos <= i < pos + |src| then src[i - pos] else s[i])
  {
  }

  /** Writing the same bytes twice at the same place is writing them once. */
  lemma WriteTwice<T>(s: seq<T>, pos: nat, src: seq<T>)
    requires pos + |src| <= |s|
    ensures Write(Write(s, pos, src), pos, src) == Write(s, pos, src)
  {
    WriteAt(s, pos, src);
    WriteAt(Write(s, pos, src), pos, src);
  }

  /** memset(a + lo, v, n) */
  method MemSet<T>(a: array<T>, lo: nat, n: nat, v: T)
    requires lo + n <= a.Length
    modifies a
    ensures a[..] == Fill(old(a[..]), lo, lo + n, v)
  {
    forall i | lo <= i < lo + n {
      a[i] := v;
    }
    FillAt(old(a[..]), lo, lo + n, v);
  }

  /** memcpy(a + pos, src, |src|) */
  method MemCpy<T>(a: array<T>, pos: nat, src: seq<T>)
    requires pos + |src| <= a.Length
    modifies a
    ensures a[..] == Write(old(a[..]), pos, src)
  {
    forall i | pos <= i < pos + |src| {
      a[i] := src[i - pos];
    }
    WriteAt(old(a[..]), pos, src);
  }
}
