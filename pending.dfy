/** The set of missing-packet intervals of src/receiver.cc: a
    `std::set<std::pair<uint64_t, uint64_t>>` of inclusive byte-number
    intervals, kept as the sorted sequence of its elements, with
    `split_pending` and `remove_pending`. */
module Pending {
  import opened Wrappers
  import opened Arith

  /** An inclusive interval [lo, hi] of first byte numbers. */
  datatype Interval = Interval(lo: nat, hi: nat)

  /** std::pair's operator<: lexicographic. */
  predicate Below(a: Interval, b: Interval)
  {
    a.lo < b.lo || (a.lo == b.lo && a.hi < b.hi)
  }

  /** The element order of a std::set. */
  predicate Sorted(s: seq<Interval>)
  {
    forall i, j :: 0 <= i < j < |s| ==> Below(s[i], s[j])
  }

  /** The intervals the receiver keeps: non-empty and pairwise apart. */
  predicate Tidy(s: seq<Interval>)
  {
    && (forall a :: a in s ==> a.lo <= a.hi)
    && (forall a, b :: a in s && b in s && Below(a, b) ==> a.hi < b.lo)
  }

  /** Some interval of `s` holds byte number `x`. */
  predicate Holds(s: seq<Interval>, x: nat)
  {
    exists a :: a in s && a.lo <= x <= a.hi
  }

  /** lower_bound(key): the index of the first element not below `key`. */
  function LowerBound(s: seq<Interval>, key: Interval): (j: nat)
    ensures j <= |s|
    ensures forall i :: 0 <= i < j ==> Below(s[i], key)
    ensures j < |s| ==> !Below(s[j], key)
  {
    if |s| == 0 || !Below(s[0], key) then 0 else 1 + LowerBound(s[1..], key)
  }

  /** insert(x): no effect when `x` is already an element. */
  function Insert(s: seq<Interval>, x: Interval): (r: seq<Interval>)
  {
    if |s| == 0 then [x]
    else if s[0] == x then s
    else if Below(x, s[0]) then [x] + s
    else [s[0]] + Insert(s[1..], x)
  }

  /** insert keeps the order and adds exactly `x` to the elements. */
  lemma {:induction false} InsertFacts(s: seq<Interval>, x: Interval)
    requires Sorted(s)
    ensures Sorted(Insert(s, x))
    ensures forall y :: y in Insert(s, x) <==> y in s || y == x
  {
    if |s| == 0 || s[0] == x {
    } else if Below(x, s[0]) {
      var r := [x] + s;
      forall i, j | 0 <= i < j < |r|
        ensures Below(r[i], r[j])
      {
        if i == 0 && j > 1 {
          assert Below(s[0], s[j - 1]);
        }
      }
    } else {
      var t := Insert(s[1..], x);
      InsertFacts(s[1..], x);
      forall y | y in s[1..]
        ensures Below(s[0], y)
      {
        var k :| 0 <= k < |s[1..]| && s[1..][k] == y;
        assert s[k + 1] == y;
      }
      var r := [s[0]] + t;
      forall i, j | 0 <= i < j < |r|
        ensures Below(r[i], r[j])
      {
        if i == 0 {
          assert r[j] in t;
        } else {
          assert r[i] == t[i - 1] && r[j] == t[j - 1];
        }
      }
      assert forall y :: y in r <==> y == s[0] || y in t;
      assert forall y :: y in s <==> y == s[0] || y in s[1..];
    }
  }

  /** After insert, a byte number is pending iff it was pending or lies in
      the inserted interval. */
  lemma InsertHolds(s: seq<Interval>, g: Interval, x: nat)
    requires Sorted(s)
    ensures Holds(Insert(s, g), x) <==> Holds(s, x) || g.lo <= x <= g.hi
  {
    InsertFacts(s, g);
    var r := Insert(s, g);
    if Holds(r, x) {
      var a :| a in r && a.lo <= x <= a.hi;
      if a != g {
        assert a in s;
      }
    }
    if Holds(s, x) {
      var a :| a in s && a.lo <= x <= a.hi;
      assert a in r;
    }
    if g.lo <= x <= g.hi {
      assert g in r;
    }
  }

  /** erase(it) on a set: a sorted sequence holds each element once. */
  lemma EraseFacts(s: seq<Interval>, j: nat)
    requires Sorted(s) && j < |s|
    ensures Sorted(s[..j] + s[j + 1..])
    ensures forall y :: y in s[..j] + s[j + 1..] <==> y in s && y != s[j]
  {
    var e := s[..j] + s[j + 1..];
    forall a, b | 0 <= a < b < |e|
      ensures Below(e[a], e[b])
    {
      var ia := if a < j then a else a + 1;
      var ib := if b < j then b else b + 1;
      assert e[a] == s[ia] && e[b] == s[ib];
    }
    forall y
      ensures y in e <==> y in s && y != s[j]
    {
      if y in s && y != s[j] {
        var k :| 0 <= k < |s| && s[k] == y;
        if k < j {
          assert e[k] == y;
        } else {
          assert e[k - 1] == y;
        }
      }
      if y in e {
        var k :| 0 <= k < |e| && e[k] == y;
        var ik := if k < j then k else k + 1;
        assert s[ik] == y && ik != j;
        assert Below(s[ik], s[j]) || Below(s[j], s[ik]);
      }
    }
  }

  /** The position split_pending and remove_pending settle on: lower_bound
      of (x, x), stepped back one when the element before it reaches `x`
      (split_pending) or holds `x` (remove_pending). */
  function SplitIndex(s: seq<Interval>, id: nat): (j: nat)
    ensures j <= |s|
  {
    var j0 := LowerBound(s, Interval(id, id));
    if j0 > 0 && id <= s[j0 - 1].hi then j0 - 1 else j0
  }

  /** In a tidy set, the interval holding `x`, if any, is the one at
      SplitIndex. */
  lemma SplitIndexFinds(s: seq<Interval>, id: nat)
    requires Sorted(s) && Tidy(s)
    ensures var j := SplitIndex(s, id);
      Holds(s, id) <==> j < |s| && s[j].lo <= id <= s[j].hi
  {
    var j0 := LowerBound(s, Interval(id, id));
    if Holds(s, id) {
      var a :| a in s && a.lo <= id <= a.hi;
      var k :| 0 <= k < |s| && s[k] == a;
      if a.lo < id {
        assert Below(s[k], Interval(id, id));
      } else if k > 0 {
        assert Below(s[k - 1], s[k]);
      }
    }
  }

  /** split_pending(pending, psize, packet_id) */
  function SplitPending(s: seq<Interval>, psize: nat, id: nat): (r: seq<Interval>)
  {
    var j := SplitIndex(s, id);
    if j < |s| && s[j].lo <= id <= s[j].hi then
      var l, h := s[j].lo, s[j].hi;
      var e := s[..j] + s[j + 1..];
      var e1 := if l < id then Insert(e, Interval(l, Sub64(id, psize))) else e;
      if id < h then Insert(e1, Interval(Add64(id, psize), h)) else e1
    else s
  }

  /** Byte numbers the receiver tracks: packet starts `psize` apart and
      below 2^64. */
  predicate Aligned(s: seq<Interval>, psize: nat, id: nat)
  {
    0 < psize && forall a :: a in s ==> a.lo % psize == id % psize && a.hi % psize == id % psize && a.hi < U64
  }

  /** split_pending keeps the set ordered and leaves it unchanged when no
      interval holds the packet. */
  lemma SplitPendingUnheld(s: seq<Interval>, psize: nat, id: nat)
    requires Sorted(s) && Tidy(s) && !Holds(s, id)
    ensures SplitPending(s, psize, id) == s
  {
    SplitIndexFinds(s, id);
  }

  /** On packet starts, split_pending removes exactly `packet_id` from the
      pending packets, and the result is again tidy and sorted. */
  lemma SplitPendingRemovesId(s: seq<Interval>, psize: nat, id: nat, x: nat)
    requires Sorted(s) && Tidy(s) && 0 < psize && Aligned(s, psize, id) && id < U64
    requires x % psize == id % psize
    ensures var r := SplitPending(s, psize, id);
      && Sorted(r)
      && (Holds(r, x) <==> Holds(s, x) && x != id)
  {
    SplitIndexFinds(s, id);
    var j := SplitIndex(s, id);
    if j < |s| && s[j].lo <= id <= s[j].hi {
      var e := s[..j] + s[j + 1..];
      var l, h := s[j].lo, s[j].hi;
      EraseFacts(s, j);
      assert s[j] in s;
      assert l % psize == id % psize && h % psize == id % psize && h < U64;
      SplitPieces(e, psize, id, l, h, x);
      assert SplitPending(s, psize, id) ==
        var e1 := if l < id then Insert(e, Interval(l, Sub64(id, psize))) else e;
        if id < h then Insert(e1, Interval(Add64(id, psize), h)) else e1;
      if Holds(s, x) {
        var a :| a in s && a.lo <= x <= a.hi;
        assert a == s[j] || a in e;
      }
      if Holds(e, x) {
        var a :| a in e && a.lo <= x <= a.hi;
        assert a in s;
      }
    }
  }

  /** The two pieces split_pending puts back around `id` in place of the
      interval [l, h] hold every packet start of [l, h] but `id`. */
  lemma SplitPieces(e: seq<Interval>, psize: nat, id: nat, l: nat, h: nat, x: nat)
    requires Sorted(e) && 0 < psize && l <= id <= h && h < U64
    requires l % psize == id % psize && h % psize == id % psize && x % psize == id % psize
    ensures var e1 := if l < id then Insert(e, Interval(l, Sub64(id, psize))) else e;
      var r := if id < h then Insert(e1, Interval(Add64(id, psize), h)) else e1;
      && Sorted(r)
      && (Holds(r, x) <==> Holds(e, x) || (l <= x <= h && x != id))
  {
    var left := Interval(l, Sub64(id, psize));
    var right := Interval(Add64(id, psize), h);
    var e1 := if l < id then Insert(e, left) else e;
    var r := if id < h then Insert(e1, right) else e1;
    InsertFacts(e, left);
    InsertFacts(e1, right);
    assert forall y :: y in r <==> y in e || (l < id && y == left) || (id < h && y == right);
    if l < id {
      CongruentApart(l, id, psize);
    }
    if id < h {
      CongruentApart(id, h, psize);
    }
    if Holds(r, x) {
      var a :| a in r && a.lo <= x <= a.hi;
    }
    if !Holds(e, x) && l <= x <= h && x != id {
      if x < id {
        CongruentApart(x, id, psize);
        assert left in r && left.lo <= x <= left.hi;
      } else {
        CongruentApart(id, x, psize);
        assert right in r && right.lo <= x <= right.hi;
      }
    }
  }

  /** remove_pending(pending, psize, bound) as written; None when it
      dereferences end(). */
  function RemovePending(s: seq<Interval>, psize: nat, bound: nat): (r: Option<seq<Interval>>)
  {
    var j0 := LowerBound(s, Interval(bound, bound));
    var prevHolds := j0 > 0 && s[j0 - 1].lo <= bound <= s[j0 - 1].hi;
    var t := if j0 > 0 && !prevHolds then s[j0..] else s;
    var j := if prevHolds then j0 - 1 else 0;
    if j >= |t| then None
    else Some(Trim(t, j, psize, bound))
  }

  /** The tail of remove_pending once `it` points at element `j` of `t`:
      if it holds `bound`, erase everything up to it and keep the part
      after `bound`. */
  function Trim(t: seq<Interval>, j: nat, psize: nat, bound: nat): (r: seq<Interval>)
    requires j < |t|
  {
    if t[j].lo <= bound <= t[j].hi then Rest(t[j + 1..], psize, bound, t[j].hi) else t
  }

  /** What follows the erase in remove_pending: the part of the interval
      after `bound`, up to `hi`, when it is not empty. */
  function Rest(e: seq<Interval>, psize: nat, bound: nat, hi: nat): seq<Interval>
  {
    if Add64(bound, psize) <= hi then Insert(e, Interval(Add64(bound, psize), hi)) else e
  }

  /** As written, remove_pending dereferences end() exactly when every
      interval ends before `bound`, the empty set included. */
  lemma RemovePendingFaults(s: seq<Interval>, psize: nat, bound: nat)
    requires Sorted(s) && Tidy(s)
    ensures RemovePending(s, psize, bound).None? <==> forall a :: a in s ==> a.hi < bound
  {
    var j0 := LowerBound(s, Interval(bound, bound));
    if !forall a :: a in s ==> a.hi < bound {
      var a :| a in s && a.hi >= bound;
      var k :| 0 <= k < |s| && s[k] == a;
    }
  }

  /** The smallest case: an empty pending set. */
  lemma RemovePendingEmptyFaults(psize: nat, bound: nat)
    ensures RemovePending([], psize, bound) == None
  {
  }

  /** remove_pending with the end() check the code needs: nothing to trim
      when no element remains. */
  function RemovePendingCorrected(s: seq<Interval>, psize: nat, bound: nat): (r: seq<Interval>)
  {
    var j0 := LowerBound(s, Interval(bound, bound));
    var prevHolds := j0 > 0 && s[j0 - 1].lo <= bound <= s[j0 - 1].hi;
    var t := if j0 > 0 && !prevHolds then s[j0..] else s;
    var j := if prevHolds then j0 - 1 else 0;
    if j >= |t| then t
    else Trim(t, j, psize, bound)
  }

  /** The corrected remove_pending agrees with the code wherever that does
      not fault, leaves no interval starting at or before `bound`, and
      forgets exactly the packets up to `bound`. */
  lemma RemovePendingCorrectedTrims(s: seq<Interval>, psize: nat, bound: nat, x: nat)
    requires Sorted(s) && Tidy(s) && Aligned(s, psize, bound) && bound + psize < U64
    requires x % psize == bound % psize
    ensures var r := RemovePendingCorrected(s, psize, bound);
      && (RemovePending(s, psize, bound).Some? ==> RemovePending(s, psize, bound).value == r)
      && Sorted(r)
      && (forall a :: a in r ==> bound < a.lo)
      && (Holds(r, x) <==> Holds(s, x) && bound < x)
  {
    var j0 := LowerBound(s, Interval(bound, bound));
    if j0 > 0 && s[j0 - 1].lo <= bound <= s[j0 - 1].hi {
      TrimsAfterHolder(s, j0, psize, bound, x);
    } else {
      TrimsFromLowerBound(s, j0, psize, bound, x);
    }
  }

  /** RemovePendingCorrectedTrims when the interval before lower_bound
      holds `bound`. */
  lemma TrimsAfterHolder(s: seq<Interval>, j0: nat, psize: nat, bound: nat, x: nat)
    requires Sorted(s) && Tidy(s) && Aligned(s, psize, bound) && bound + psize < U64
    requires x % psize == bound % psize
    requires j0 == LowerBound(s, Interval(bound, bound))
    requires j0 > 0 && s[j0 - 1].lo <= bound <= s[j0 - 1].hi
    ensures var r := RemovePendingCorrected(s, psize, bound);
      && RemovePending(s, psize, bound) == Some(r)
      && Sorted(r)
      && (forall a :: a in r ==> bound < a.lo)
      && (Holds(r, x) <==> Holds(s, x) && bound < x)
  {
    var c, e := s[j0 - 1], s[j0..];
    assert RemovePendingCorrected(s, psize, bound) == Rest(e, psize, bound, c.hi);
    AroundHolder(s, j0, bound);
    assert c in s;
    TrimCore(c, e, psize, bound, x);
    HoldsJoin(s[..j0 - 1], [c] + e, x);
    HoldsJoin([c], e, x);
  }

  /** The interval holding `bound` splits the set: the intervals before it
      end below `bound`, the ones after it start above. */
  lemma AroundHolder(s: seq<Interval>, j0: nat, bound: nat)
    requires Sorted(s) && Tidy(s) && 0 < j0 <= |s|
    requires s[j0 - 1].lo <= bound <= s[j0 - 1].hi
    ensures s == s[..j0 - 1] + [s[j0 - 1]] + s[j0..] && Sorted(s[j0..])
    ensures forall a :: a in s[j0..] ==> bound < a.lo
    ensures forall a :: a in s[..j0 - 1] ==> a.hi < bound
  {
    var c := s[j0 - 1];
    forall a | a in s[j0..]
      ensures bound < a.lo
    {
      var k :| j0 <= k < |s| && s[k] == a;
      assert Below(c, s[k]);
    }
    forall a | a in s[..j0 - 1]
      ensures a.hi < bound
    {
      var k :| 0 <= k < j0 - 1 && s[k] == a;
      assert Below(s[k], c);
    }
    assert s == s[..j0 - 1] + [c] + s[j0..];
  }

  /** RemovePendingCorrectedTrims when it erases everything before
      lower_bound. */
  lemma TrimsFromLowerBound(s: seq<Interval>, j0: nat, psize: nat, bound: nat, x: nat)
    requires Sorted(s) && Tidy(s) && Aligned(s, psize, bound) && bound + psize < U64
    requires x % psize == bound % psize
    requires j0 == LowerBound(s, Interval(bound, bound))
    requires !(j0 > 0 && s[j0 - 1].lo <= bound <= s[j0 - 1].hi)
    ensures var r := RemovePendingCorrected(s, psize, bound);
      && (RemovePending(s, psize, bound).Some? ==> RemovePending(s, psize, bound).value == r)
      && Sorted(r)
      && (forall a :: a in r ==> bound < a.lo)
      && (Holds(r, x) <==> Holds(s, x) && bound < x)
  {
    var t := s[j0..];
    var r := RemovePendingCorrected(s, psize, bound);
    assert r == if |t| == 0 then t else Trim(t, 0, psize, bound);
    assert RemovePending(s, psize, bound) == if |t| == 0 then None else Some(Trim(t, 0, psize, bound));
    EndBeforeBound(s, j0, bound);
    assert s == s[..j0] + t;
    HoldsJoin(s[..j0], t, x);
    SuffixKeeps(s, j0, psize, bound);
    if |t| > 0 {
      TrimFirst(t, psize, bound, x);
    }
  }

  /** A suffix of a sorted, tidy, aligned set is one too. */
  lemma SuffixKeeps(s: seq<Interval>, j: nat, psize: nat, id: nat)
    requires Sorted(s) && Tidy(s) && Aligned(s, psize, id) && j <= |s|
    ensures Sorted(s[j..]) && Tidy(s[j..]) && Aligned(s[j..], psize, id)
  {
    assert forall a :: a in s[j..] ==> a in s;
  }

  /** Trimming a set whose first element is the first one at or after
      `bound`. */
  lemma TrimFirst(t: seq<Interval>, psize: nat, bound: nat, x: nat)
    requires Sorted(t) && Tidy(t) && Aligned(t, psize, bound) && bound + psize < U64
    requires x % psize == bound % psize
    requires |t| > 0 && !Below(t[0], Interval(bound, bound))
    ensures var r := Trim(t, 0, psize, bound);
      && Sorted(r)
      && (forall a :: a in r ==> bound < a.lo)
      && (Holds(r, x) <==> Holds(t, x) && bound < x)
  {
    assert t == [t[0]] + t[1..];
    LaterStartAfter(t);
    assert t[0] in t;
    if t[0].lo <= bound <= t[0].hi {
      TrimCore(t[0], t[1..], psize, bound, x);
      HoldsJoin([t[0]], t[1..], x);
    }
  }

  /** When the element before lower_bound does not hold `bound`, every
      element before lower_bound ends before `bound`. */
  lemma EndBeforeBound(s: seq<Interval>, j0: nat, bound: nat)
    requires Sorted(s) && Tidy(s)
    requires j0 == LowerBound(s, Interval(bound, bound))
    requires !(j0 > 0 && s[j0 - 1].lo <= bound <= s[j0 - 1].hi)
    ensures forall a :: a in s[..j0] ==> a.hi < bound
  {
    forall a | a in s[..j0]
      ensures a.hi < bound
    {
      var k :| 0 <= k < j0 && s[k] == a;
      if k < j0 - 1 {
        assert Below(s[k], s[j0 - 1]);
      }
    }
  }

  /** In a tidy set every interval starts after the first one ends. */
  lemma LaterStartAfter(t: seq<Interval>)
    requires Sorted(t) && Tidy(t) && |t| > 0
    ensures forall a :: a in t[1..] ==> t[0].hi < a.lo
  {
    forall a | a in t[1..]
      ensures t[0].hi < a.lo
    {
      var k :| 1 <= k < |t| && t[k] == a;
      assert Below(t[0], t[k]);
    }
  }

  /** A byte number is held by a concatenation when either part holds it. */
  lemma HoldsJoin(a: seq<Interval>, b: seq<Interval>, x: nat)
    ensures Holds(a + b, x) <==> Holds(a, x) || Holds(b, x)
  {
    if Holds(a + b, x) {
      var i :| i in a + b && i.lo <= x <= i.hi;
    }
    if Holds(a, x) {
      var i :| i in a && i.lo <= x <= i.hi;
      assert i in a + b;
    }
    if Holds(b, x) {
      var i :| i in b && i.lo <= x <= i.hi;
      assert i in a + b;
    }
  }

  /** The trim of the interval `c` that holds `bound`, followed by the
      intervals `e` after it: only the packets of `c` past `bound` stay. */
  lemma TrimCore(c: Interval, e: seq<Interval>, psize: nat, bound: nat, x: nat)
    requires Sorted(e) && 0 < psize && c.lo <= bound <= c.hi && c.hi % psize == bound % psize
    requires bound + psize < U64 && x % psize == bound % psize
    requires forall a :: a in e ==> bound < a.lo
    ensures var r := Rest(e, psize, bound, c.hi);
      && Sorted(r)
      && (forall a :: a in r ==> bound < a.lo)
      && (Holds(r, x) <==> (Holds(e, x) || c.lo <= x <= c.hi) && bound < x)
  {
    assert Add64(bound, psize) == bound + psize;
    var piece := Interval(bound + psize, c.hi);
    var r := Rest(e, psize, bound, c.hi);
    InsertFacts(e, piece);
    assert Sorted(r);
    assert forall a :: a in r ==> a in e || a == piece;
    if Holds(r, x) {
      var a :| a in r && a.lo <= x <= a.hi;
      if a in e {
        assert Holds(e, x);
      }
    }
    if bound < x <= c.hi {
      CongruentApart(bound, x, psize);
      assert piece in r && piece.lo <= x <= piece.hi;
    }
    if Holds(e, x) {
      var a :| a in e && a.lo <= x <= a.hi;
      assert a in r;
    }
    assert Holds(r, x) <==> (Holds(e, x) || c.lo <= x <= c.hi) && bound < x;
  }
}
