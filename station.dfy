/** Radio stations as src/common/radio_station.cc builds, compares and
    orders them. `steady_clock::now()` and the `getaddrinfo` lookup behind
    `get_addr` are parameters. */
module Station {
  import opened Wrappers
  import opened Endian
  import opened Net

  const STATION_NAME_MAX_LEN: nat := 64

  /** is_valid_name: non-empty, at most 64 characters, no space at either
      end, and every character in 32..127 (so DEL is accepted). */
  predicate IsValidName(name: seq<char>)
  {
    if |name| == 0 || name[0] == ' ' || name[|name| - 1] == ' ' || |name| > STATION_NAME_MAX_LEN then false
    else Printable(name)
  }

  /** Every character in 32..127: the std::all_of test of is_valid_name. */
  predicate Printable(s: seq<char>)
  {
    |s| == 0 || (32 <= s[0] as int <= 127 && Printable(s[1..]))
  }

  lemma {:induction false} PrintableAt(s: seq<char>, i: nat)
    requires Printable(s) && i < |s|
    ensures 32 <= s[i] as int <= 127
  {
    if i > 0 {
      PrintableAt(s[1..], i - 1);
    }
  }

  /** A valid name is one line: it holds no newline, and it may hold inner
      spaces and DEL. */
  lemma ValidNameIsOneLine(name: seq<char>)
    requires IsValidName(name)
    ensures forall i :: 0 <= i < |name| ==> name[i] != '\n'
    ensures 0 < |name| <= STATION_NAME_MAX_LEN
  {
    forall i | 0 <= i < |name|
      ensures name[i] != '\n'
    {
      PrintableAt(name, i);
    }
  }

  lemma ValidNameExamples()
    ensures IsValidName("Radio 357") && IsValidName(['a', 127 as char])
    ensures !IsValidName("") && !IsValidName(" a") && !IsValidName("a ") && !IsValidName("a\n")
  {
    assert ("a\n")[1] == '\n';
  }

  datatype Station = Station(dataAddr: SockAddr, ctrlAddr: SockAddr, mcastAddr: SockAddr, name: seq<char>, lastReply: nat)

  /** RadioStation(sender_addr, payload): the control address is the
      sender, the data address the sender with the announced data port;
      `mcast` is what get_addr resolves the announced address to. */
  function NewStation(h: Host, sender: SockAddr, name: seq<char>, dataPort: u16, mcast: SockAddr, now: nat): (r: Result<Station, string>)
  {
    if !IsValidName(name) then Err("Invalid name")
    else Ok(Station(sender.(port := Htons(h, dataPort as bv16) as u16), sender, mcast, name, now))
  }

  /** The constructor throws exactly on an invalid name; the data address
      differs from the control address in the port alone, which is the
      announced port in network order. */
  lemma NewStationFields(h: Host, sender: SockAddr, name: seq<char>, dataPort: u16, mcast: SockAddr, now: nat)
    ensures var r := NewStation(h, sender, name, dataPort, mcast, now);
      && (r.Ok? <==> IsValidName(name))
      && (r.Ok? ==>
            && r.value.ctrlAddr == sender && r.value.name == name && r.value.lastReply == now
            && r.value.dataAddr.addr == sender.addr && r.value.dataAddr.family == sender.family
            && Htons(h, r.value.dataAddr.port as bv16) == dataPort as bv16)
  {
  }

  /** update_last_reply. */
  function Refresh(s: Station, now: nat): (r: Station)
    ensures r.lastReply == now && Same(r, s) && !Cmp(r, s) && !Cmp(s, r) && r.ctrlAddr == s.ctrlAddr
  {
    StrLessIrreflexive(s.name);
    s.(lastReply := now)
  }

  /** operator==: name, multicast address and data address; the control
      address and the time of the last reply do not take part. */
  predicate Same(a: Station, b: Station)
  {
    a.name == b.name && Equal(a.mcastAddr, b.mcastAddr) && Equal(a.dataAddr, b.dataAddr)
  }

  lemma SameIgnoresControlAndTime(a: Station, b: Station, ctrl: SockAddr, t: nat)
    ensures Same(a, b.(ctrlAddr := ctrl, lastReply := t)) <==> Same(a, b)
    ensures Same(a, b) <==> a.name == b.name && a.mcastAddr == b.mcastAddr && a.dataAddr == b.dataAddr
  {
  }

  /** std::string operator<: lexicographic on character values. */
  predicate StrLess(a: seq<char>, b: seq<char>)
  {
    if |a| == 0 then |b| > 0
    else if |b| == 0 then false
    else if a[0] != b[0] then a[0] < b[0]
    else StrLess(a[1..], b[1..])
  }

  lemma StrLessIrreflexive(a: seq<char>)
    ensures !StrLess(a, a)
  {
  }

  /** cmp: std::tie(name, mcast_addr, data_addr) compared
      lexicographically, each component with its operator<. */
  predicate Cmp(a: Station, b: Station)
  {
    || StrLess(a.name, b.name)
    || (!StrLess(b.name, a.name)
        && (|| Less(a.mcastAddr, b.mcastAddr)
            || (!Less(b.mcastAddr, a.mcastAddr) && Less(a.dataAddr, b.dataAddr))))
  }

  /** cmp inherits the defect of operator<: two stations of one name whose
      data addresses each compare below the other (and whose multicast
      addresses are equal) each compare below the other, so a StationSet
      ordered by cmp has no consistent order. */
  lemma CmpNotAsymmetric(a: Station, b: Station)
    requires a.name == b.name && a.mcastAddr == b.mcastAddr
    requires a.dataAddr.addr < b.dataAddr.addr && b.dataAddr.port < a.dataAddr.port
    ensures Cmp(a, b) && Cmp(b, a)
  {
    StrLessIrreflexive(a.name);
  }
}
