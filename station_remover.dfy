/** The station remover (src/receiver/station_remover.cc): every tick it
    erases the stations that have not replied for more than 20 seconds,
    choosing a new current station when the current one expires. The
    clock is the parameter `now`; times are in nanoseconds. */
module StationRemover {
  import opened Wrappers
  import opened Station
  import opened StationSet

  /** REMOVAL_THRESHOLD_SECS, in nanoseconds. */
  const REMOVAL_THRESHOLD: nat := 20 * 1_000_000_000

  predicate Expired(st: Station, now: int)
  {
    now - st.lastReply > REMOVAL_THRESHOLD
  }

  /** The stations that have not expired, in order. */
  function Live(s: seq<Station>, now: int): (l: seq<Station>)
    ensures |l| <= |s|
    ensures forall j :: 0 <= j < |l| ==> !Expired(l[j], now)
  {
    if |s| == 0 then []
    else if Expired(s[0], now) then Live(s[1..], now)
    else [s[0]] + Live(s[1..], now)
  }

  /** The position of the first station called `name`, or |s|. */
  function FirstNamed(s: seq<Station>, name: seq<char>): (k: nat)
    ensures k <= |s|
    ensures forall j :: 0 <= j < k ==> s[j].name != name
    ensures k < |s| ==> s[k].name == name
  {
    if |s| == 0 || s[0].name == name then 0 else 1 + FirstNamed(s[1..], name)
  }

  /** reset_current_station (lines 40-55): the first station with the
      preferred name, else begin(), or end() of an empty set. */
  function Reelect(s: seq<Station>, prio: Option<seq<char>>): (c: Cursor)
    ensures c.At? ==> c.i < |s|
    ensures c.End? <==> |s| == 0
    ensures !c.Dangling?
    ensures prio.Some? && (exists j :: 0 <= j < |s| && s[j].name == prio.value) ==>
      c.At? && s[c.i].name == prio.value && forall j :: 0 <= j < c.i ==> s[j].name != prio.value
    ensures (prio.None? || forall j :: 0 <= j < |s| ==> s[j].name != prio.value) && |s| > 0 ==> c == At(0)
  {
    if prio.Some? && FirstNamed(s, prio.value) < |s| then At(FirstNamed(s, prio.value))
    else if |s| > 0 then At(0)
    else End
  }

  /** The loop of lines 27-34 from position `k`: an expiring station is
      erased, and when it is the current one the current station is chosen
      again first, among the stations still in the set, itself included. */
  function Sweep(r: Roster, k: nat, now: int, prio: Option<seq<char>>): Roster
    decreases |r.stations| - k
  {
    if k >= |r.stations| then r
    else if Expired(r.stations[k], now) then
      var c := if r.current == At(k) then Reelect(r.stations, prio) else r.current;
      Sweep(Erased(r.(current := c), k), k, now, prio)
    else Sweep(r, k + 1, now, prio)
  }

  /** The loop with the expiring station erased before the current one is
      chosen again. */
  function SweepCorrected(r: Roster, k: nat, now: int, prio: Option<seq<char>>): Roster
    decreases |r.stations| - k
  {
    if k >= |r.stations| then r
    else if Expired(r.stations[k], now) then
      var z := Erased(r, k);
      var c := if r.current == At(k) then Reelect(z.stations, prio) else z.current;
      SweepCorrected(z.(current := c), k, now, prio)
    else SweepCorrected(r, k + 1, now, prio)
  }

  /** Live on a suffix, one step. */
  lemma LiveStep(s: seq<Station>, k: nat, now: int)
    requires k < |s|
    ensures Live(s[k..], now) == (if Expired(s[k], now) then [] else [s[k]]) + Live(s[k + 1..], now)
  {
    assert s[k..][0] == s[k] && s[k..][1..] == s[k + 1..];
  }

  /** A tick keeps exactly the stations that have not expired, in set
      order; the stations before `k` are already kept. */
  lemma {:induction false} SweepKeepsLive(r: Roster, k: nat, now: int, prio: Option<seq<char>>)
    requires k <= |r.stations| && forall j :: 0 <= j < k ==> !Expired(r.stations[j], now)
    ensures Sweep(r, k, now, prio).stations == r.stations[..k] + Live(r.stations[k..], now)
    decreases |r.stations| - k
  {
    var s := r.stations;
    if k < |s| {
      if Expired(s[k], now) {
        var c := if r.current == At(k) then Reelect(s, prio) else r.current;
        var z := Erased(r.(current := c), k);
        assert Sweep(r, k, now, prio) == Sweep(z, k, now, prio);
        DroppedStep(s, k, now);
        SweepKeepsLive(z, k, now, prio);
      } else {
        assert Sweep(r, k, now, prio) == Sweep(r, k + 1, now, prio);
        KeptStep(s, k, now);
        SweepKeepsLive(r, k + 1, now, prio);
      }
    } else {
      assert s[..k] == s;
    }
  }

  /** Erasing before re-electing keeps the same stations. */
  lemma {:induction false} SweepCorrectedKeepsLive(r: Roster, k: nat, now: int, prio: Option<seq<char>>)
    requires k <= |r.stations| && forall j :: 0 <= j < k ==> !Expired(r.stations[j], now)
    ensures SweepCorrected(r, k, now, prio).stations == r.stations[..k] + Live(r.stations[k..], now)
    decreases |r.stations| - k
  {
    var s := r.stations;
    if k < |s| {
      if Expired(s[k], now) {
        var z := Erased(r, k);
        var c := if r.current == At(k) then Reelect(z.stations, prio) else z.current;
        assert SweepCorrected(r, k, now, prio) == SweepCorrected(z.(current := c), k, now, prio);
        DroppedStep(s, k, now);
        SweepCorrectedKeepsLive(z.(current := c), k, now, prio);
      } else {
        assert SweepCorrected(r, k, now, prio) == SweepCorrected(r, k + 1, now, prio);
        KeptStep(s, k, now);
        SweepCorrectedKeepsLive(r, k + 1, now, prio);
      }
    } else {
      assert s[..k] == s;
    }
  }

  /** Keeping a live station at `k` moves it into the kept prefix. */
  lemma KeptStep(s: seq<Station>, k: nat, now: int)
    requires k < |s| && !Expired(s[k], now)
    ensures s[..k + 1] + Live(s[k + 1..], now) == s[..k] + Live(s[k..], now)
  {
    LiveStep(s, k, now);
    assert s[..k + 1] == s[..k] + [s[k]];
  }

  /** Erasing an expired station at `k` leaves the kept prefix and the
      live stations after it as they were. */
  lemma DroppedStep(s: seq<Station>, k: nat, now: int)
    requires k < |s| && Expired(s[k], now)
    ensures var t := s[..k] + s[k + 1..];
      t[..k] + Live(t[k..], now) == s[..k] + Live(s[k..], now)
  {
    var t := s[..k] + s[k + 1..];
    LiveStep(s, k, now);
    assert t[..k] == s[..k] && t[k..] == s[k + 1..];
  }

  /** A tick that does not expire the current station leaves the iterator
      on it. */
  lemma {:induction false} SweepKeepsCurrent(r: Roster, k: nat, now: int, prio: Option<seq<char>>)
    requires r.current.At? && r.current.i < |r.stations| && !Expired(r.stations[r.current.i], now)
    ensures var z := Sweep(r, k, now, prio);
      z.current.At? && z.current.i < |z.stations| && z.stations[z.current.i] == r.stations[r.current.i]
    decreases |r.stations| - k
  {
    if k < |r.stations| {
      if Expired(r.stations[k], now) {
        EraseKeeps(r, k);
        SweepKeepsCurrent(Erased(r, k), k, now, prio);
      } else {
        SweepKeepsCurrent(r, k + 1, now, prio);
      }
    }
  }

  /** As written, a set holding only the current station, once it expires,
      ends up empty with the iterator on the erased station: re-election
      chose it again before it was erased. */
  lemma SweepLeavesDangling(st: Station, now: int, prio: Option<seq<char>>)
    requires Expired(st, now)
    ensures Sweep(Roster([st], At(0)), 0, now, prio) == Roster([], Dangling)
  {
    var r := Roster([st], At(0));
    assert Reelect(r.stations, prio) == At(0);
    assert Erased(r, 0) == Roster([], Dangling);
  }

  /** Erasing before re-electing keeps the iterator valid: it ends on a
      surviving station or at end(). */
  lemma {:induction false} SweepCorrectedKeepsValid(r: Roster, k: nat, now: int, prio: Option<seq<char>>)
    requires r.Valid()
    ensures SweepCorrected(r, k, now, prio).Valid()
    decreases |r.stations| - k
  {
    if k < |r.stations| {
      if Expired(r.stations[k], now) {
        var z := Erased(r, k);
        EraseKeeps(r, k);
        var c := if r.current == At(k) then Reelect(z.stations, prio) else z.current;
        SweepCorrectedKeepsValid(z.(current := c), k, now, prio);
      } else {
        SweepCorrectedKeepsValid(r, k + 1, now, prio);
      }
    }
  }

  class StationRemoverWorker {
    const roster: Stations
    const prio: Option<seq<char>>

    constructor(roster: Stations, prio: Option<seq<char>>)
      ensures this.roster == roster && this.prio == prio
    {
      this.roster := roster;
      this.prio := prio;
    }

    /** reset_current_station: a search for the preferred name, then
        begin() or end(). */
    method ResetCurrentStation()
      modifies roster
      ensures roster.stations == old(roster.stations)
      ensures roster.current == Reelect(roster.stations, prio)
    {
      if prio.Some? {
        var k := 0;
        while k < |roster.stations|
          invariant k <= |roster.stations|
          invariant forall j :: 0 <= j < k ==> roster.stations[j].name != prio.value
        {
          if roster.stations[k].name == prio.value {
            assert FirstNamed(roster.stations, prio.value) == k by {
              FirstNamedIs(roster.stations, prio.value, k);
            }
            roster.current := At(k);
            return;
          }
          k := k + 1;
        }
      }
      if |roster.stations| > 0 {
        roster.current := At(0);
      } else {
        roster.current := End;
      }
    }

    /** One tick of run() (lines 27-34). */
    method Tick(now: int)
      modifies roster
      ensures roster.State() == Sweep(old(roster.State()), 0, now, prio)
    {
      var k := 0;
      while k < |roster.stations|
        invariant k <= |roster.stations|
        invariant Sweep(roster.State(), k, now, prio) == Sweep(old(roster.State()), 0, now, prio)
        decreases |roster.stations| - k
      {
        if Expired(roster.stations[k], now) {
          if roster.current == At(k) {
            ResetCurrentStation();
          }
          roster.Erase(k);
        } else {
          k := k + 1;
        }
      }
    }
  }

  /** FirstNamed finds the first match. */
  lemma FirstNamedIs(s: seq<Station>, name: seq<char>, k: nat)
    requires k < |s| && s[k].name == name && forall j :: 0 <= j < k ==> s[j].name != name
    ensures FirstNamed(s, name) == k
  {
    var f := FirstNamed(s, name);
    assert !(f < k) && !(f > k);
  }
}
