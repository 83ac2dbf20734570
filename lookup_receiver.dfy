/** The lookup receiver (src/receiver/lookup_receiver.cc): it reads
    lookup replies from the control socket, refreshes the stations it
    already knows, adds new ones, and tells the audio receiver and the UI.
    The two event queues it writes are the sequences pushed to them; the
    reply buffer, set up once and reused for every datagram, is an array;
    the received datagram, its sender, `inet_pton`, `get_addr` and the
    clock are parameters. */
module LookupReceiver {
  import opened Wrappers
  import opened Endian
  import opened Net
  import opened Station
  import opened Datagram
  import opened StationSet
  import opened Events
  import Text

  /** MTU of src/common/net.hh: reply_buf holds MTU + 1 bytes. */
  const MTU: nat := 65535
  const NUL: char := 0 as char

  datatype LookupStep = LookupStep(roster: Roster, audioEvents: seq<QueueEvent>, uiEvents: seq<QueueEvent>)

  /** Lines 72-87 for a well-formed station `st`: refresh an equivalent
      station, or else announce it, inserting it and making it current only
      when the set is empty or it carries the preferred name. */
  function OnStation(r: Roster, st: Station, prio: Option<seq<char>>): LookupStep
  {
    match Find(r.stations, st)
    case Some(k) => LookupStep(r.(stations := r.stations[k := Refresh(r.stations[k], st.lastReply)]), [], [])
    case None =>
      if |r.stations| == 0 || prio == Some(st.name) then
        LookupStep(Inserted(r, st).(current := At(InsertPos(r.stations, st))), [CurrentStationChanged], [StationAdded])
      else LookupStep(r, [], [StationAdded])
  }

  /** recvfrom into `buf` (src/common/udp_socket.cc:108-114): the
      datagram's bytes, cut to the buffer's size, laid over the start of the
      buffer. Nothing marks where they end. */
  function Received(buf: seq<char>, dgram: seq<char>): (b: seq<char>)
    ensures |b| == |buf|
    ensures forall i :: 0 <= i < |b| ==> b[i] == if i < |dgram| then dgram[i] else buf[i]
  {
    var n := if |dgram| < |buf| then |dgram| else |buf|;
    dgram[..n] + buf[n..]
  }

  /** The std::string a `char*` converts to: the bytes before the first
      NUL, or None when the buffer holds no NUL and the read runs past its
      end. */
  function CString(buf: seq<char>): (s: Option<string>)
    ensures s.Some? ==> |s.value| < |buf| && buf[|s.value|] == NUL && s.value == buf[..|s.value|]
    ensures s.Some? ==> forall i :: 0 <= i < |s.value| ==> s.value[i] != NUL
    ensures s.None? <==> forall i :: 0 <= i < |buf| ==> buf[i] != NUL
  {
    match Text.Find(buf, NUL)
    case None => None
    case Some(k) => Some(buf[..k])
  }

  /** Lines 68-69 as written: `LookupReply reply(reply_buf)` reads the
      buffer, after the datagram was received into it, up to its first NUL. */
  function ReplyText(buf: seq<char>, dgram: seq<char>): Option<string>
  {
    CString(Received(buf, dgram))
  }

  /** Lines 68-69 with the byte count used: at most MTU bytes are
      received and a NUL is written right after them. */
  function ReplyTextCorrected(buf: seq<char>, dgram: seq<char>): Option<string>
    requires |buf| > 0
  {
    var n := if |dgram| < |buf| - 1 then |dgram| else |buf| - 1;
    CString(Received(buf, dgram)[n := NUL])
  }

  predicate NoNul(s: string)
  {
    forall i :: 0 <= i < |s| ==> s[i] != NUL
  }

  /** The text ends at the first NUL. */
  lemma CStringIs(b: seq<char>, k: nat)
    requires k < |b| && b[k] == NUL && forall i :: 0 <= i < k ==> b[i] != NUL
    ensures CString(b) == Some(b[..k])
  {
    assert CString(b).Some?;
  }

  /** A datagram shorter than the buffer and free of NULs is read back
      followed by whatever the buffer held after it, up to the buffer's
      first NUL there. */
  lemma StaleBytesRead(buf: seq<char>, dgram: seq<char>)
    requires |dgram| < |buf| && NoNul(dgram)
    ensures ReplyText(buf, dgram) ==
      match CString(buf[|dgram|..])
      case None => None
      case Some(rest) => Some(dgram + rest)
  {
    var tail := buf[|dgram|..];
    assert Received(buf, dgram) == dgram + tail;
    match CString(tail)
    case None => NulFreeThenNone(dgram, tail);
    case Some(rest) => NulFreeThenSome(dgram, tail, rest);
  }

  lemma NulFreeThenNone(a: string, tail: string)
    requires NoNul(a) && CString(tail).None?
    ensures CString(a + tail).None?
  {
    var b := a + tail;
    forall i | 0 <= i < |b|
      ensures b[i] != NUL
    {
      if i >= |a| {
        assert b[i] == tail[i - |a|];
      }
    }
  }

  lemma NulFreeThenSome(a: string, tail: string, rest: string)
    requires NoNul(a) && CString(tail) == Some(rest)
    ensures CString(a + tail) == Some(a + rest)
  {
    var b := a + tail;
    var k := |a| + |rest|;
    assert b[k] == tail[|rest|];
    forall i | 0 <= i < k
      ensures b[i] != NUL
    {
      if i >= |a| {
        assert b[i] == rest[i - |a|];
      }
    }
    CStringIs(b, k);
    assert b[..k] == a + rest;
  }

  /** A fresh buffer reads a NUL-free datagram back as it was sent. */
  lemma FirstReplyRead(dgram: string)
    requires |dgram| < MTU + 1 && NoNul(dgram)
    ensures ReplyText(seq(MTU + 1, _ => NUL), dgram) == Some(dgram)
  {
    var buf := seq(MTU + 1, _ => NUL);
    StaleBytesRead(buf, dgram);
    CStringIs(buf[|dgram|..], 0);
    assert dgram + [] == dgram;
  }

  /** A datagram received after a longer one, both free of NULs, into a
      zeroed buffer is read with the longer one's last bytes after it. */
  lemma StaleAfterLonger(zeros: string, older: string, d: string)
    requires forall i :: 0 <= i < |zeros| ==> zeros[i] == NUL
    requires NoNul(older) && NoNul(d) && |d| < |older| < |zeros|
    ensures ReplyText(Received(zeros, older), d) == Some(d + older[|d|..])
  {
    var z := zeros[|older|..];
    var a := d + older[|d|..];
    assert Received(zeros, older) == older + z;
    assert Received(older + z, d) == a + z;
    assert NoNul(a) by {
      forall i | 0 <= i < |a|
        ensures a[i] != NUL
      {
        if i >= |d| {
          assert a[i] == older[i];
        }
      }
    }
    CStringIs(z, 0);
    NulFreeThenSome(a, z, []);
    assert a + [] == a;
  }

  /** A valid reply received after a longer one is read with the longer
      one's last bytes after it, and is rejected as malformed. */
  lemma ShorterReplyRejected(h: Host, pton: string -> Option<bv32>, older: string, r: LookupReply)
    requires NoSpace(r.mcastAddr) && GetMcastAddr(h, pton, r.mcastAddr, r.dataPort).Some?
    requires NoNul(older) && NoNul(LookupReplyToStr(r))
    requires |LookupReplyToStr(r)| < |older| < MTU + 1
    ensures var text := ReplyText(Received(seq(MTU + 1, _ => NUL), older), LookupReplyToStr(r));
      && text == Some(LookupReplyToStr(r) + older[|LookupReplyToStr(r)|..])
      && ParseLookupReply(h, pton, text.value).Err?
  {
    var d := LookupReplyToStr(r);
    StaleAfterLonger(seq(MTU + 1, _ => NUL), older, d);
    TrailingBytesRejected(h, pton, r, older[|d|..]);
  }

  /** Corrected, the text is the datagram's first MTU bytes up to any NUL
      in them, whatever the buffer held: the read never runs past the
      buffer, and a reply reads back as it was sent. */
  lemma CorrectedReadsDatagram(buf: seq<char>, dgram: string)
    requires |buf| == MTU + 1
    ensures ReplyTextCorrected(buf, dgram).Some?
    ensures |dgram| <= MTU && NoNul(dgram) ==> ReplyTextCorrected(buf, dgram) == Some(dgram)
  {
    var n := if |dgram| < |buf| - 1 then |dgram| else |buf| - 1;
    var b := Received(buf, dgram)[n := NUL];
    assert b[n] == NUL;
    if |dgram| <= MTU && NoNul(dgram) {
      assert b[..n] == dgram;
    }
  }

  /** Corrected, every well-formed reply parses back to its fields, after
      any earlier datagrams. */
  lemma CorrectedReplyParses(h: Host, pton: string -> Option<bv32>, buf: seq<char>, r: LookupReply)
    requires |buf| == MTU + 1
    requires NoSpace(r.mcastAddr) && IsValidName(r.name) && GetMcastAddr(h, pton, r.mcastAddr, r.dataPort).Some?
    requires NoNul(LookupReplyToStr(r)) && |LookupReplyToStr(r)| <= MTU
    ensures var text := ReplyTextCorrected(buf, LookupReplyToStr(r));
      text.Some? && ParseLookupReply(h, pton, text.value) == Ok(r)
  {
    CorrectedReadsDatagram(buf, LookupReplyToStr(r));
    LookupReplyRoundTrip(h, pton, r);
  }

  /** Lines 69-91: a datagram from `sender` whose text is `text`; a reply
      that does not parse or names an invalid station changes nothing. */
  function OnDatagram(r: Roster, h: Host, pton: string -> Option<bv32>, getAddr: (string, u16) -> SockAddr,
                      sender: SockAddr, text: string, prio: Option<seq<char>>, now: nat): LookupStep
  {
    match ParseLookupReply(h, pton, text)
    case Err(_) => LookupStep(r, [], [])
    case Ok(reply) =>
      match NewStation(h, sender, reply.name, reply.dataPort, getAddr(reply.mcastAddr, reply.dataPort), now)
      case Err(_) => LookupStep(r, [], [])
      case Ok(st) => OnStation(r, st, prio)
  }

  /** A known station (one cmp-equivalent to the reply's) only has its
      last reply time renewed: the set keeps its size and order, the
      iterator stays, and no event is pushed. */
  lemma KnownStationRefreshed(r: Roster, st: Station, prio: Option<seq<char>>)
    requires Find(r.stations, st).Some?
    ensures var z := OnStation(r, st, prio); var k := Find(r.stations, st).value;
      && z.audioEvents == [] && z.uiEvents == [] && z.roster.current == r.current
      && |z.roster.stations| == |r.stations|
      && z.roster.stations[k].lastReply == st.lastReply && Same(z.roster.stations[k], r.stations[k])
      && (forall j :: 0 <= j < |r.stations| && j != k ==> z.roster.stations[j] == r.stations[j])
  {
  }

  /** A new station is always announced to the UI. It joins the set, and
      becomes current with a CURRENT_STATION_CHANGED for the audio
      receiver, exactly when the set was empty or the name is the
      preferred one; otherwise the set and the iterator do not change. */
  lemma NewStationAnnounced(r: Roster, st: Station, prio: Option<seq<char>>)
    requires r.Valid() && Find(r.stations, st).None?
    ensures var z := OnStation(r, st, prio);
      && z.uiEvents == [StationAdded]
      && var chosen := |r.stations| == 0 || (prio.Some? && prio.value == st.name);
      && (chosen ==>
            && z.audioEvents == [CurrentStationChanged]
            && z.roster.Valid() && z.roster.current.At? && z.roster.stations[z.roster.current.i] == st
            && multiset(z.roster.stations) == multiset(r.stations) + multiset{st})
      && (!chosen ==> z.audioEvents == [] && z.roster == r)
  {
    InsertKeeps(r, st);
  }

  /** Every reply keeps the iterator valid. */
  lemma OnStationKeepsValid(r: Roster, st: Station, prio: Option<seq<char>>)
    requires r.Valid()
    ensures OnStation(r, st, prio).roster.Valid()
  {
    if Find(r.stations, st).None? {
      InsertKeeps(r, st);
    }
  }

  /** A datagram that is not a valid lookup reply leaves the set, the
      iterator and both queues as they were. */
  lemma MalformedReplyIgnored(r: Roster, h: Host, pton: string -> Option<bv32>, getAddr: (string, u16) -> SockAddr,
                              sender: SockAddr, text: string, prio: Option<seq<char>>, now: nat)
    requires ParseLookupReply(h, pton, text).Err?
    ensures OnDatagram(r, h, pton, getAddr, sender, text, prio, now) == LookupStep(r, [], [])
  {
  }

  /** A reply that parses always yields a station (its name was checked by
      the parser), whose control address is the sender. */
  lemma ParsedReplyMakesStation(h: Host, pton: string -> Option<bv32>, getAddr: (string, u16) -> SockAddr,
                                sender: SockAddr, text: string, now: nat)
    requires ParseLookupReply(h, pton, text).Ok?
    ensures var reply := ParseLookupReply(h, pton, text).value;
      var st := NewStation(h, sender, reply.name, reply.dataPort, getAddr(reply.mcastAddr, reply.dataPort), now);
      && st.Ok? && st.value.ctrlAddr == sender && st.value.name == reply.name && st.value.lastReply == now
  {
  }

  class LookupReceiverWorker {
    const roster: Stations
    const prio: Option<seq<char>>
    /** reply_buf of line 36: zeroed once, before the loop. */
    const replyBuf: array<char>
    /** Events pushed to the audio receiver's queue. */
    var audioEvents: seq<QueueEvent>
    /** Events pushed to the UI's queue. */
    var uiEvents: seq<QueueEvent>

    constructor(roster: Stations, prio: Option<seq<char>>)
      ensures this.roster == roster && this.prio == prio && audioEvents == [] && uiEvents == []
      ensures fresh(replyBuf) && replyBuf[..] == seq(MTU + 1, _ => NUL)
    {
      this.roster := roster;
      this.prio := prio;
      replyBuf := new char[MTU + 1](_ => NUL);
      audioEvents, uiEvents := [], [];
    }

    /** Lines 56-60: TERMINATE ends the loop; other events are ignored. */
    method HandleEvent(e: QueueEvent) returns (stop: bool)
      ensures stop <==> e == Terminate
    {
      stop := e == Terminate;
    }

    /** Lines 72-87. */
    method HandleStation(st: Station)
      modifies this, roster
      ensures var z := OnStation(old(roster.State()), st, prio);
        && roster.State() == z.roster
        && audioEvents == old(audioEvents) + z.audioEvents && uiEvents == old(uiEvents) + z.uiEvents
    {
      var it := Find(roster.stations, st);
      if it.Some? {
        roster.Touch(it.value, st.lastReply);
      } else {
        if |roster.stations| == 0 || prio == Some(st.name) {
          var pos := roster.Insert(st);
          roster.current := At(pos);
          audioEvents := audioEvents + [CurrentStationChanged];
        }
        uiEvents := uiEvents + [StationAdded];
      }
    }

    /** Lines 64-91: one datagram from the control socket is received
        into the reused buffer and read back up to the buffer's first NUL.
        With no NUL left in the buffer the read runs past its end
        (`overread`); the model then changes nothing more. */
    method HandleDatagram(h: Host, pton: string -> Option<bv32>, getAddr: (string, u16) -> SockAddr,
                          sender: SockAddr, dgram: string, now: nat) returns (overread: bool)
      modifies this, roster, replyBuf
      ensures replyBuf[..] == Received(old(replyBuf[..]), dgram)
      ensures var text := ReplyText(old(replyBuf[..]), dgram);
        && (overread <==> text.None?)
        && (text.None? ==> roster.State() == old(roster.State()) && audioEvents == old(audioEvents) && uiEvents == old(uiEvents))
        && (text.Some? ==>
              var z := OnDatagram(old(roster.State()), h, pton, getAddr, sender, text.value, prio, now);
              && roster.State() == z.roster
              && audioEvents == old(audioEvents) + z.audioEvents && uiEvents == old(uiEvents) + z.uiEvents)
    {
      var n := if |dgram| < replyBuf.Length then |dgram| else replyBuf.Length;
      forall i | 0 <= i < n {
        replyBuf[i] := dgram[i];
      }
      assert replyBuf[..] == Received(old(replyBuf[..]), dgram);
      var text := CString(replyBuf[..]);
      if text.None? {
        return true;
      }
      overread := false;
      var reply := ParseLookupReply(h, pton, text.value);
      if reply.Err? {
        return;
      }
      var st := NewStation(h, sender, reply.value.name, reply.value.dataPort,
                           getAddr(reply.value.mcastAddr, reply.value.dataPort), now);
      if st.Err? {
        return;
      }
      HandleStation(st.value);
    }
  }
}
