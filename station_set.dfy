/** The receiver's `StationSet` (a `std::set<RadioStation, RadioStation::cmp>`,
    src/common/radio_station.hh) together with the shared
    `current_station` iterator, as the lookup receiver, the station
    remover, the UI and the retransmission requester use them. The set is
    the sequence of its elements in iteration order; the iterator is a
    position, `end()`, or an iterator whose element was erased. Lookups
    and insertions follow `cmp` the way a sorted sequence would; with the
    comparison of src/common/net.cc this order is not always consistent
    (see Net.LessNotAsymmetric), and the tree search of the library may
    then miss an element this model finds. */
module StationSet {
  import opened Wrappers
  import opened Net
  import opened Station

  datatype Cursor = At(i: nat) | End | Dangling

  datatype Roster = Roster(stations: seq<Station>, current: Cursor)
  {
    /** The iterator is `end()` or points at an element. */
    predicate Valid()
    {
      match current
      case At(i) => i < |stations|
      case End => true
      case Dangling => false
    }
  }

  /** Equivalence under cmp: neither station orders before the other. */
  predicate Equivalent(a: Station, b: Station)
  {
    !Cmp(a, b) && !Cmp(b, a)
  }

  lemma {:induction false} StrLessTotal(a: seq<char>, b: seq<char>)
    ensures !StrLess(a, b) && !StrLess(b, a) <==> a == b
  {
    StrLessIrreflexive(a);
    if |a| > 0 && |b| > 0 && a[0] == b[0] {
      StrLessTotal(a[1..], b[1..]);
      if a[1..] == b[1..] {
        assert a == [a[0]] + a[1..] && b == [b[0]] + b[1..];
      }
    }
  }

  /** For stations whose addresses are of one family (every station is
      built from AF_INET addresses), cmp-equivalence is operator==, so
      `find` finds exactly the stations equal to the one looked up. */
  lemma EquivalentIsSame(a: Station, b: Station)
    requires a.dataAddr.family == b.dataAddr.family && a.mcastAddr.family == b.mcastAddr.family
    ensures Equivalent(a, b) <==> Same(a, b)
  {
    StrLessTotal(a.name, b.name);
  }

  /** set::find: the first element equivalent to `x`. */
  function Find(s: seq<Station>, x: Station): (r: Option<nat>)
    ensures r.Some? ==> r.value < |s| && Equivalent(s[r.value], x)
    ensures r.Some? ==> forall j :: 0 <= j < r.value ==> !Equivalent(s[j], x)
    ensures r.None? <==> forall j :: 0 <= j < |s| ==> !Equivalent(s[j], x)
  {
    if |s| == 0 then None
    else if Equivalent(s[0], x) then Some(0)
    else match Find(s[1..], x)
      case None => None
      case Some(k) => Some(k + 1)
  }

  /** Where set::insert places a new element: before the first element it
      orders before. */
  function InsertPos(s: seq<Station>, x: Station): (k: nat)
    ensures k <= |s|
    ensures forall j :: 0 <= j < k ==> !Cmp(x, s[j])
    ensures k < |s| ==> Cmp(x, s[k])
  {
    if |s| == 0 || Cmp(x, s[0]) then 0 else 1 + InsertPos(s[1..], x)
  }

  /** The iterator after an insertion at `k`: set iterators stay valid, so
      one at or past `k` now sits one position later. */
  function ShiftUp(c: Cursor, k: nat): Cursor
  {
    if c.At? && c.i >= k then At(c.i + 1) else c
  }

  /** The iterator after erasing the element at `k`: an iterator to it is
      invalidated, the others keep their elements. */
  function ShiftDown(c: Cursor, k: nat): Cursor
  {
    match c
    case At(i) => if i == k then Dangling else if i > k then At(i - 1) else c
    case End => End
    case Dangling => Dangling
  }

  /** set::insert(x) for an `x` that has no equivalent. */
  function Inserted(r: Roster, x: Station): Roster
  {
    var k := InsertPos(r.stations, x);
    Roster(r.stations[..k] + [x] + r.stations[k..], ShiftUp(r.current, k))
  }

  /** set::erase(it) for the element at `k`. */
  function Erased(r: Roster, k: nat): Roster
    requires k < |r.stations|
  {
    Roster(r.stations[..k] + r.stations[k + 1..], ShiftDown(r.current, k))
  }

  /** Inserting keeps every element, places `x` at InsertPos, and leaves the
      iterator on the element it pointed at. */
  lemma InsertKeeps(r: Roster, x: Station)
    requires r.Valid()
    ensures var z := Inserted(r, x); var k := InsertPos(r.stations, x);
      && |z.stations| == |r.stations| + 1 && k < |z.stations| && z.stations[k] == x
      && multiset(z.stations) == multiset(r.stations) + multiset{x}
      && z.Valid()
      && (r.current.At? ==> z.current.At? && z.current.i < |z.stations| && z.stations[z.current.i] == r.stations[r.current.i])
      && (r.current.End? ==> z.current.End?)
  {
    var k := InsertPos(r.stations, x);
    SpliceFacts(r.stations, k, x);
  }

  /** Splicing `x` in at `k` shifts the elements from `k` on by one. */
  lemma SpliceFacts(s: seq<Station>, k: nat, x: Station)
    requires k <= |s|
    ensures var t := s[..k] + [x] + s[k..];
      && |t| == |s| + 1 && t[k] == x
      && multiset(t) == multiset(s) + multiset{x}
      && (forall j :: 0 <= j < k ==> t[j] == s[j])
      && (forall j :: k <= j < |s| ==> t[j + 1] == s[j])
  {
    var t := s[..k] + [x] + s[k..];
    assert s == s[..k] + s[k..];
    assert multiset(t) == multiset(s[..k]) + multiset{x} + multiset(s[k..]);
  }

  /** Erasing removes exactly the element at `k` and keeps the order of
      the rest; the iterator keeps its element unless it pointed at the
      erased one, which leaves it dangling. */
  lemma EraseKeeps(r: Roster, k: nat)
    requires k < |r.stations|
    ensures var z := Erased(r, k);
      && |z.stations| == |r.stations| - 1
      && multiset(z.stations) + multiset{r.stations[k]} == multiset(r.stations)
      && (forall j :: 0 <= j < k ==> z.stations[j] == r.stations[j])
      && (forall j :: k <= j < |z.stations| ==> z.stations[j] == r.stations[j + 1])
      && (r.current == At(k) <==> z.current.Dangling? && !r.current.Dangling?)
      && (r.Valid() && r.current != At(k) ==> z.Valid())
      && (r.Valid() && r.current.At? && r.current.i != k ==>
            z.current.At? && z.current.i < |z.stations| && z.stations[z.current.i] == r.stations[r.current.i])
  {
    assert r.stations == r.stations[..k] + [r.stations[k]] + r.stations[k + 1..];
  }

  /** The shared set and iterator as one object. */
  class Stations {
    var stations: seq<Station>
    var current: Cursor

    function State(): Roster
      reads this
    {
      Roster(stations, current)
    }

    /** An empty set, with the iterator at its end(). */
    constructor()
      ensures State() == Roster([], End)
    {
      stations, current := [], End;
    }

    /** set::insert(x) for an `x` with no equivalent; `pos` is the new
        element's position. */
    method Insert(x: Station) returns (pos: nat)
      modifies this
      ensures State() == Inserted(old(State()), x)
      ensures pos == InsertPos(old(stations), x) && pos < |stations| && stations[pos] == x
    {
      pos := InsertPos(stations, x);
      stations := stations[..pos] + [x] + stations[pos..];
      current := ShiftUp(current, pos);
    }

    /** set::erase(it) for the element at `k`. */
    method Erase(k: nat)
      requires k < |stations|
      modifies this
      ensures State() == Erased(old(State()), k)
    {
      stations := stations[..k] + stations[k + 1..];
      current := ShiftDown(current, k);
    }

    /** update_last_reply on the element at `k` (last_reply is mutable in
        a set element). */
    method Touch(k: nat, now: nat)
      requires k < |stations|
      modifies this
      ensures stations == old(stations)[k := Refresh(old(stations)[k], now)]
      ensures current == old(current)
    {
      stations := stations[k := Refresh(stations[k], now)];
    }
  }
}
