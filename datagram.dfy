/** The datagrams of src/common/datagram.cc: the text messages of station
    lookup and retransmission requests, and the binary audio frame. A
    constructor that throws is a parser returning `Err`; `inet_pton` is a
    parameter, as in Net. */
module Datagram {
  import opened Wrappers
  import opened Arith
  import opened Mem
  import opened Text
  import opened Endian
  import opened Net
  import opened Station

  const FIELD_SEPARATOR: char := ' '
  const PACKET_SEPARATOR: char := ','
  const LOOKUP_REQUEST_PREFIX: string := "ZERO_SEVEN_COME_IN"
  const LOOKUP_REPLY_PREFIX: string := "BOREWICZ_HERE"
  const REXMIT_REQUEST_PREFIX: string := "LOUDER_PLEASE"

  /** 2 * sizeof(uint64_t): the session id and the first byte number. */
  const HEADER_SIZE: nat := 16

  /** TOTAL_PSIZE(psize). */
  function TotalPsize(psize: nat): nat
  {
    psize + HEADER_SIZE
  }

  predicate NoSpace(s: string)
  {
    forall i :: 0 <= i < |s| ==> s[i] != FIELD_SEPARATOR
  }

  lemma PrefixesHaveNoSpace()
    ensures NoSpace(LOOKUP_REPLY_PREFIX) && NoSpace(REXMIT_REQUEST_PREFIX)
  {
  }

  /** `s` minus its prefix and the space after it, when `s` is exactly
      such a prefix followed by a space: the prefix test of the parsers. */
  lemma SplitAtPrefix(p: string, s: string)
    requires NoSpace(p) && |s| > |p| && s[..|p| + 1] == p + [FIELD_SEPARATOR]
    ensures Find(s, FIELD_SEPARATOR) == Some(|p|) && s[..|p|] == p
  {
    assert NoSpace(p) ==> Find(p, FIELD_SEPARATOR).None?;
    assert s == p + s[|p|..];
    FindAfter(p, s[|p|..], FIELD_SEPARATOR);
  }

  // ---------------------------- LookupRequest ----------------------------

  /** LookupRequest(str): accepted exactly when the text is the prefix,
      with or without one trailing newline. */
  function ParseLookupRequest(s: string): (ok: bool)
    ensures ok <==> s == LOOKUP_REQUEST_PREFIX || s == LOOKUP_REQUEST_PREFIX + "\n"
  {
    if s == LOOKUP_REQUEST_PREFIX + "\n" then
      assert Trimmed(s) == LOOKUP_REQUEST_PREFIX by { assert s[..|s| - 1] == LOOKUP_REQUEST_PREFIX; }
      true
    else Trimmed(s) == LOOKUP_REQUEST_PREFIX
  }

  /** LookupRequest::to_str; what it writes is accepted. */
  function LookupRequestToStr(): (s: string)
    ensures ParseLookupRequest(s) && s[|s| - 1] == '\n'
  {
    LOOKUP_REQUEST_PREFIX + "\n"
  }

  // ----------------------------- LookupReply -----------------------------

  datatype LookupReply = LookupReply(mcastAddr: string, dataPort: u16, name: string)

  /** LookupReply(str): the prefix and its space at index 13, the
      multicast address up to the next space, the port up to the one after
      (read with stoul, at most 65535, and with the address accepted by
      get_mcast_addr), then the rest as the name, which must be valid. */
  function ParseLookupReply(h: Host, pton: string -> Option<bv32>, str: string): (r: Result<LookupReply, string>)
    ensures r.Ok? ==>
      && NoSpace(r.value.mcastAddr) && IsValidName(r.value.name)
      && GetMcastAddr(h, pton, r.value.mcastAddr, r.value.dataPort).Some?
  {
    var input := Trimmed(str);
    var sp := Find(input, FIELD_SEPARATOR);
    if sp != Some(|LOOKUP_REPLY_PREFIX|) then Err("Invalid format")
    else if input[..sp.value] != LOOKUP_REPLY_PREFIX then Err("Invalid prefix")
    else ReplyAddress(h, pton, input[sp.value + 1..])
  }

  /** Lines 54-59: the multicast address runs up to the next space. */
  function ReplyAddress(h: Host, pton: string -> Option<bv32>, input: string): (r: Result<LookupReply, string>)
    ensures r.Ok? ==>
      && NoSpace(r.value.mcastAddr) && IsValidName(r.value.name)
      && GetMcastAddr(h, pton, r.value.mcastAddr, r.value.dataPort).Some?
  {
    match Find(input, FIELD_SEPARATOR)
    case None => Err("Invalid format")
    case Some(i) => ReplyPortAndName(h, pton, input[..i], input[i + 1..])
  }

  /** Lines 61-76: the port runs up to the next space and the name is
      the rest. */
  function ReplyPortAndName(h: Host, pton: string -> Option<bv32>, mcast: string, input: string): (r: Result<LookupReply, string>)
    ensures r.Ok? ==>
      && r.value.mcastAddr == mcast && IsValidName(r.value.name)
      && GetMcastAddr(h, pton, mcast, r.value.dataPort).Some?
  {
    match Find(input, FIELD_SEPARATOR)
    case None => Err("Invalid format")
    case Some(j) =>
      match Stoul(input[..j])
      case None => Err("stoul")
      case Some(value) =>
        if value > 0xFFFF then Err("Invalid data_port")
        else if GetMcastAddr(h, pton, mcast, value as u16).None? then Err("Invalid mcast_addr")
        else ReplyName(mcast, value as u16, input[j + 1..])
  }

  /** Lines 73-76: the rest of the text is the name. */
  function ReplyName(mcast: string, port: u16, name: string): (r: Result<LookupReply, string>)
    ensures r.Ok? <==> IsValidName(name)
    ensures r.Ok? ==> r.value == LookupReply(mcast, port, name)
  {
    if !IsValidName(name) then Err("Invalid name")
    else Ok(LookupReply(mcast, port, name))
  }

  /** LookupReply::to_str. */
  function LookupReplyToStr(r: LookupReply): string
  {
    LOOKUP_REPLY_PREFIX + [FIELD_SEPARATOR] + r.mcastAddr + [FIELD_SEPARATOR]
      + Decimal(r.dataPort as nat) + [FIELD_SEPARATOR] + r.name + "\n"
  }

  /** A reply with a space-free multicast address that get_mcast_addr
      accepts and a valid name (inner spaces allowed) reads back as
      itself; with the ensures of ParseLookupReply, these are exactly the
      replies that can come out of the parser. */
  lemma LookupReplyRoundTrip(h: Host, pton: string -> Option<bv32>, r: LookupReply)
    requires NoSpace(r.mcastAddr) && IsValidName(r.name)
    requires GetMcastAddr(h, pton, r.mcastAddr, r.dataPort).Some?
    ensures ParseLookupReply(h, pton, LookupReplyToStr(r)) == Ok(r)
  {
    var s := LookupReplyToStr(r);
    assert s == ReplyBody(r) + "\n";
    assert s[..|s| - 1] == ReplyBody(r);
    ParseBody(h, pton, r, s);
  }

  /** What to_str writes before its closing newline. */
  function ReplyBody(r: LookupReply): string
  {
    LOOKUP_REPLY_PREFIX + [FIELD_SEPARATOR] + r.mcastAddr + [FIELD_SEPARATOR]
      + Decimal(r.dataPort as nat) + [FIELD_SEPARATOR] + r.name
  }

  /** Any text that is the three fields once its trailing newline is cut
      reaches the name check with the name running to the end of the
      text, whatever the name holds. */
  lemma ParseBody(h: Host, pton: string -> Option<bv32>, r: LookupReply, s: string)
    requires NoSpace(r.mcastAddr) && GetMcastAddr(h, pton, r.mcastAddr, r.dataPort).Some?
    requires Trimmed(s) == ReplyBody(r)
    ensures ParseLookupReply(h, pton, s) == ReplyName(r.mcastAddr, r.dataPort, r.name)
  {
    var rest := r.mcastAddr + [FIELD_SEPARATOR] + Decimal(r.dataPort as nat) + [FIELD_SEPARATOR] + r.name;
    var body := ReplyBody(r);
    assert body == LOOKUP_REPLY_PREFIX + [FIELD_SEPARATOR] + rest;
    PrefixesHaveNoSpace();
    assert body[..|LOOKUP_REPLY_PREFIX| + 1] == LOOKUP_REPLY_PREFIX + [FIELD_SEPARATOR];
    SplitAtPrefix(LOOKUP_REPLY_PREFIX, body);
    assert body[|LOOKUP_REPLY_PREFIX| + 1..] == rest;
    ReplyAddressRoundTrip(h, pton, r);
  }

  /** A reply followed by any further bytes is rejected: the name then
      runs on past the newline that to_str ends it with, and a name holding
      a newline is not valid. */
  lemma TrailingBytesRejected(h: Host, pton: string -> Option<bv32>, r: LookupReply, extra: string)
    requires NoSpace(r.mcastAddr) && GetMcastAddr(h, pton, r.mcastAddr, r.dataPort).Some?
    requires |extra| > 0
    ensures ParseLookupReply(h, pton, LookupReplyToStr(r) + extra).Err?
  {
    var s := LookupReplyToStr(r) + extra;
    var x := if extra[|extra| - 1] == '\n' then extra[..|extra| - 1] else extra;
    var longer := r.(name := r.name + "\n" + x);
    assert LookupReplyToStr(r) == ReplyBody(r) + "\n";
    assert Trimmed(s) == ReplyBody(longer);
    ParseBody(h, pton, longer, s);
    assert longer.name[|r.name|] == '\n';
    if IsValidName(longer.name) {
      ValidNameIsOneLine(longer.name);
    }
  }

  /** The fields after the prefix reach the name check with the name that
      follows the port. */
  lemma ReplyAddressRoundTrip(h: Host, pton: string -> Option<bv32>, r: LookupReply)
    requires NoSpace(r.mcastAddr)
    requires GetMcastAddr(h, pton, r.mcastAddr, r.dataPort).Some?
    ensures ReplyAddress(h, pton, r.mcastAddr + [FIELD_SEPARATOR] + Decimal(r.dataPort as nat) + [FIELD_SEPARATOR] + r.name)
         == ReplyName(r.mcastAddr, r.dataPort, r.name)
  {
    var rest := Decimal(r.dataPort as nat) + [FIELD_SEPARATOR] + r.name;
    assert r.mcastAddr + [FIELD_SEPARATOR] + Decimal(r.dataPort as nat) + [FIELD_SEPARATOR] + r.name
        == r.mcastAddr + [FIELD_SEPARATOR] + rest;
    FirstField(r.mcastAddr, rest);
    ReplyPortRoundTrip(h, pton, r);
  }

  lemma ReplyPortRoundTrip(h: Host, pton: string -> Option<bv32>, r: LookupReply)
    requires GetMcastAddr(h, pton, r.mcastAddr, r.dataPort).Some?
    ensures ReplyPortAndName(h, pton, r.mcastAddr, Decimal(r.dataPort as nat) + [FIELD_SEPARATOR] + r.name)
         == ReplyName(r.mcastAddr, r.dataPort, r.name)
  {
    var d := Decimal(r.dataPort as nat);
    DecimalHasNoSpace(r.dataPort as nat);
    FirstField(d, r.name);
    StoulDecimal(r.dataPort as nat);
  }

  /** A space-free first field is read up to the space after it. */
  lemma FirstField(f: string, rest: string)
    requires NoSpace(f)
    ensures var input := f + [FIELD_SEPARATOR] + rest;
      Find(input, FIELD_SEPARATOR) == Some(|f|) && input[..|f|] == f && input[|f| + 1..] == rest
  {
    var input := f + [FIELD_SEPARATOR] + rest;
    assert Find(f, FIELD_SEPARATOR).None?;
    assert input == f + ([FIELD_SEPARATOR] + rest);
    FindAfter(f, [FIELD_SEPARATOR] + rest, FIELD_SEPARATOR);
  }

  lemma DecimalHasNoSpace(n: nat)
    ensures NoSpace(Decimal(n))
  {
    var d := Decimal(n);
    forall i | 0 <= i < |d|
      ensures d[i] != FIELD_SEPARATOR
    {
      assert IsDigit(d[i]);
    }
  }


  // ---------------------------- RexmitRequest ----------------------------

  datatype RexmitRequest = RexmitRequest(receiverAddr: SockAddr, packetIds: seq<nat>)

  /** The ids the getline loop collects from `toks`, in order, or the
      error of the first token that is not all digits or that stoull
      rejects. */
  function PacketIds(toks: seq<string>): Result<seq<nat>, string>
  {
    if |toks| == 0 then Ok([])
    else
      match PacketIds(toks[..|toks| - 1])
      case Err(e) => Err(e)
      case Ok(ids) =>
        var t := toks[|toks| - 1];
        if !IsNumeric(t) then Err("Invalid packet ids")
        else match Stoul(t)
          case None => Err("stoull")
          case Some(v) => Ok(ids + [v])
  }

  /** A token the getline loop accepts: all digits, at least one, and a
      value that fits in 64 bits. */
  predicate IdToken(t: string)
  {
    IsNumeric(t) && |t| > 0 && Value(t) < U64
  }

  /** The loop accepts its tokens exactly when each is an id token, and
      then collects their values, in order. */
  lemma PacketIdsMeaning(toks: seq<string>)
    ensures PacketIds(toks).Ok? <==> forall i :: 0 <= i < |toks| ==> IdToken(toks[i])
    ensures PacketIds(toks).Ok? ==>
      |PacketIds(toks).value| == |toks| && forall i :: 0 <= i < |toks| ==> PacketIds(toks).value[i] == Value(toks[i])
  {
    PacketIdsAccepts(toks);
    if PacketIds(toks).Ok? {
      PacketIdsValues(toks);
    }
  }

  /** The loop accepts its tokens exactly when each is an id token. */
  lemma {:induction false} PacketIdsAccepts(toks: seq<string>)
    ensures PacketIds(toks).Ok? <==> forall i :: 0 <= i < |toks| ==> IdToken(toks[i])
    decreases |toks|
  {
    if |toks| > 0 {
      var k := |toks| - 1;
      var init := toks[..k];
      PacketIdsAccepts(init);
      if IsNumeric(toks[k]) {
        StoulNumeric(toks[k]);
      }
      forall i | 0 <= i < k
        ensures init[i] == toks[i]
      {
      }
    }
  }

  /** Accepted tokens are collected as their values, in order. */
  lemma {:induction false} PacketIdsValues(toks: seq<string>)
    requires forall i :: 0 <= i < |toks| ==> IdToken(toks[i])
    ensures PacketIds(toks).Ok? && |PacketIds(toks).value| == |toks|
    ensures forall i :: 0 <= i < |toks| ==> IdToken(toks[i]) && PacketIds(toks).value[i] == Value(toks[i])
    decreases |toks|
  {
    PacketIdsAccepts(toks);
    if |toks| > 0 {
      var k := |toks| - 1;
      var init := toks[..k];
      assert PacketIds(init).Ok? && IsNumeric(toks[k]) && Stoul(toks[k]).Some?;
      var ids := PacketIds(init).value;
      PacketIdsValues(init);
      StoulNumeric(toks[k]);
      var all := ids + [Stoul(toks[k]).value];
      assert PacketIds(toks) == Ok(all);
      forall i | 0 <= i < |toks|
        ensures all[i] == Value(toks[i])
      {
        if i < k {
          assert all[i] == ids[i] && init[i] == toks[i];
        }
      }
    }
  }

  /** One more token: its value is appended, or it stops the loop. */
  lemma PacketIdsSnoc(read: seq<string>, ids: seq<nat>, t: string)
    requires PacketIds(read) == Ok(ids)
    ensures PacketIds(read + [t]) ==
      if !IsNumeric(t) then Err("Invalid packet ids")
      else if Stoul(t).None? then Err("stoull")
      else Ok(ids + [Stoul(t).value])
  {
    assert (read + [t])[..|read|] == read;
  }

  /** An error stops the loop: later tokens are not looked at. */
  lemma {:induction false} PacketIdsStopsAtError(a: seq<string>, b: seq<string>)
    requires PacketIds(a).Err?
    ensures PacketIds(a + b) == PacketIds(a)
    decreases |b|
  {
    if |b| == 0 {
      assert a + b == a;
    } else {
      var init := b[..|b| - 1];
      assert (a + b)[..|a + b| - 1] == a + init;
      PacketIdsStopsAtError(a, init);
    }
  }

  /** RexmitRequest(receiver_addr, str). Reading the last character of an
      empty string is undefined in the source; the model refuses it. */
  function ParseRexmitRequest(addr: SockAddr, str: string): Result<RexmitRequest, string>
  {
    var input := Trimmed(str);
    if |input| == 0 then Err("back() of an empty string")
    else if !IsDigit(input[|input| - 1]) && input[|input| - 1] != FIELD_SEPARATOR then Err("Invalid last character")
    else
      var sp := Find(input, FIELD_SEPARATOR);
      if sp != Some(|REXMIT_REQUEST_PREFIX|) then Err("Invalid format")
      else if input[..sp.value] != REXMIT_REQUEST_PREFIX then Err("Invalid prefix")
      else
        var toks := Tokens(input[sp.value + 1..], PACKET_SEPARATOR);
        match PacketIds(toks)
        case Err(e) => Err(e)
        case Ok(ids) => Ok(RexmitRequest(addr, ids))
  }

  /** The constructor as written: the checks in order, then the getline
      loop. */
  method ParseRexmitRequestLoop(addr: SockAddr, str: string) returns (r: Result<RexmitRequest, string>)
    ensures r == ParseRexmitRequest(addr, str)
  {
    var input := Trimmed(str);
    if |input| == 0 {
      return Err("back() of an empty string");
    }
    var last := input[|input| - 1];
    if !IsDigit(last) && last != FIELD_SEPARATOR {
      return Err("Invalid last character");
    }
    var sp := Find(input, FIELD_SEPARATOR);
    if sp != Some(|REXMIT_REQUEST_PREFIX|) {
      return Err("Invalid format");
    }
    if input[..sp.value] != REXMIT_REQUEST_PREFIX {
      return Err("Invalid prefix");
    }
    var ids := ReadPacketIds(input[sp.value + 1..]);
    if ids.Err? {
      return Err(ids.error);
    }
    return Ok(RexmitRequest(addr, ids.value));
  }

  /** Lines 109-115: `getline` hands out one comma-separated token at a
      time; each must be all digits and accepted by stoull. */
  method ReadPacketIds(text: string) returns (r: Result<seq<nat>, string>)
    ensures r == PacketIds(Tokens(text, PACKET_SEPARATOR))
  {
    var input := text;
    ghost var read: seq<string> := [];
    var ids: seq<nat> := [];
    while |input| > 0
      invariant Tokens(text, PACKET_SEPARATOR) == read + Tokens(input, PACKET_SEPARATOR)
      invariant PacketIds(read) == Ok(ids)
      decreases |input|
    {
      var next := Getline(input, PACKET_SEPARATOR);
      var token := next.0;
      input := next.1;
      ConcatAssoc(read, [token], Tokens(input, PACKET_SEPARATOR));
      PacketIdsSnoc(read, ids, token);
      if !IsNumeric(token) {
        PacketIdsStopsAtError(read + [token], Tokens(input, PACKET_SEPARATOR));
        return Err("Invalid packet ids");
      }
      var v := Stoul(token);
      if v.None? {
        PacketIdsStopsAtError(read + [token], Tokens(input, PACKET_SEPARATOR));
        return Err("stoull");
      }
      read, ids := read + [token], ids + [v.value];
    }
    assert read + [] == read;
    return Ok(ids);
  }

  lemma ConcatAssoc<T>(a: seq<T>, b: seq<T>, c: seq<T>)
    ensures (a + b) + c == a + (b + c)
  {
  }

  /** The prefix test of the parsers: the first space right after a
      space-free prefix, with the prefix before it, is the text starting
      with the prefix and a space. */
  lemma PrefixTest(p: string, t: string)
    requires NoSpace(p)
    ensures Find(t, FIELD_SEPARATOR) == Some(|p|) && t[..|p|] == p
        <==> |t| > |p| && t[..|p| + 1] == p + [FIELD_SEPARATOR]
  {
    if |t| > |p| && t[..|p| + 1] == p + [FIELD_SEPARATOR] {
      SplitAtPrefix(p, t);
    }
  }

  /** A request is accepted exactly when its trimmed text ends in a digit
      or a space, starts with the prefix and a space, and every
      comma-separated token after it is an id token; the ids are then the
      values of the tokens, in order. An empty token (two commas in a row)
      is all digits, but stoull rejects it. */
  lemma RexmitRequestAccepts(addr: SockAddr, str: string)
    ensures var t := Trimmed(str);
      var n := |REXMIT_REQUEST_PREFIX|;
      var r := ParseRexmitRequest(addr, str);
      && (r.Ok? <==>
            && |t| > n
            && (IsDigit(t[|t| - 1]) || t[|t| - 1] == FIELD_SEPARATOR)
            && t[..n + 1] == REXMIT_REQUEST_PREFIX + [FIELD_SEPARATOR]
            && var toks := Tokens(t[n + 1..], PACKET_SEPARATOR); forall i :: 0 <= i < |toks| ==> IdToken(toks[i]))
      && (r.Ok? ==>
            && |t| > n
            && var toks := Tokens(t[n + 1..], PACKET_SEPARATOR);
            && |r.value.packetIds| == |toks|
            && forall i :: 0 <= i < |toks| ==> IdToken(toks[i]) && r.value.packetIds[i] == Value(toks[i]))
  {
    var t := Trimmed(str);
    var n := |REXMIT_REQUEST_PREFIX|;
    RexmitRequestShape(addr, str);
    if |t| > n {
      PacketIdsMeaning(Tokens(t[n + 1..], PACKET_SEPARATOR));
    }
  }

  /** Only text with the right last character and prefix gets past the
      checks, and such text is accepted exactly when its tokens are, with
      the ids the loop reads from them. */
  lemma RexmitRequestShape(addr: SockAddr, str: string)
    ensures var t := Trimmed(str);
      var n := |REXMIT_REQUEST_PREFIX|;
      ParseRexmitRequest(addr, str).Ok? ==>
        |t| > n && (IsDigit(t[|t| - 1]) || t[|t| - 1] == FIELD_SEPARATOR)
        && t[..n + 1] == REXMIT_REQUEST_PREFIX + [FIELD_SEPARATOR]
    ensures var t := Trimmed(str);
      var n := |REXMIT_REQUEST_PREFIX|;
      |t| > n && (IsDigit(t[|t| - 1]) || t[|t| - 1] == FIELD_SEPARATOR)
        && t[..n + 1] == REXMIT_REQUEST_PREFIX + [FIELD_SEPARATOR] ==>
        var ids := PacketIds(Tokens(t[n + 1..], PACKET_SEPARATOR));
        && (ParseRexmitRequest(addr, str).Ok? <==> ids.Ok?)
        && (ids.Ok? ==> ParseRexmitRequest(addr, str).value.packetIds == ids.value)
  {
    var t := Trimmed(str);
    var n := |REXMIT_REQUEST_PREFIX|;
    if |t| > 0 && (IsDigit(t[|t| - 1]) || t[|t| - 1] == FIELD_SEPARATOR) {
      PrefixesHaveNoSpace();
      PrefixTest(REXMIT_REQUEST_PREFIX, t);
      if Find(t, FIELD_SEPARATOR) == Some(n) && t[..n] == REXMIT_REQUEST_PREFIX {
        var ids := PacketIds(Tokens(t[n + 1..], PACKET_SEPARATOR));
        assert ParseRexmitRequest(addr, str) == match ids
          case Err(e) => Err(e)
          case Ok(v) => Ok(RexmitRequest(addr, v));
      }
    }
  }

  /** RexmitRequest::to_str. */
  function RexmitRequestToStr(ids: seq<nat>): string
  {
    REXMIT_REQUEST_PREFIX + [FIELD_SEPARATOR] + Joined(ids, PACKET_SEPARATOR) + "\n"
  }

  /** to_str as written: the first id, then a comma before each further id. */
  method RexmitRequestToStrLoop(ids: seq<nat>) returns (s: string)
    ensures s == RexmitRequestToStr(ids)
  {
    s := REXMIT_REQUEST_PREFIX + [FIELD_SEPARATOR];
    if |ids| > 0 {
      s := s + Decimal(ids[0]);
      var i := 1;
      while i < |ids|
        invariant 1 <= i <= |ids|
        invariant s == REXMIT_REQUEST_PREFIX + [FIELD_SEPARATOR] + Joined(ids[..i], PACKET_SEPARATOR)
      {
        JoinedSnoc(ids[..i], ids[i], PACKET_SEPARATOR);
        assert ids[..i + 1] == ids[..i] + [ids[i]];
        s := s + [PACKET_SEPARATOR] + Decimal(ids[i]);
        i := i + 1;
      }
      assert ids[..i] == ids;
    }
    s := s + "\n";
  }

  /** Tokens that are the decimal forms of 64-bit ids read back as those ids. */
  lemma PacketIdsOfDecimals(toks: seq<string>, ids: seq<nat>)
    requires |toks| == |ids|
    requires forall i :: 0 <= i < |ids| ==> ids[i] < U64 && toks[i] == Decimal(ids[i])
    ensures PacketIds(toks) == Ok(ids)
  {
    forall i | 0 <= i < |toks|
      ensures IdToken(toks[i]) && Value(toks[i]) == ids[i]
    {
      DecimalValue(ids[i]);
    }
    PacketIdsMeaning(toks);
    assert PacketIds(toks).value == ids;
  }

  /** Reading what to_str writes gives back every list of 64-bit ids,
      the empty one included. */
  lemma RexmitRequestRoundTrip(addr: SockAddr, ids: seq<nat>)
    requires forall i :: 0 <= i < |ids| ==> ids[i] < U64
    ensures ParseRexmitRequest(addr, RexmitRequestToStr(ids)) == Ok(RexmitRequest(addr, ids))
  {
    var j := Joined(ids, PACKET_SEPARATOR);
    var body := REXMIT_REQUEST_PREFIX + [FIELD_SEPARATOR] + j;
    var s := RexmitRequestToStr(ids);
    assert s[..|s| - 1] == body;
    assert Trimmed(s) == body;
    if |ids| > 0 {
      JoinedEndsInDigit(ids, PACKET_SEPARATOR);
      assert body[|body| - 1] == j[|j| - 1];
    }
    PrefixesHaveNoSpace();
    assert body[..|REXMIT_REQUEST_PREFIX| + 1] == REXMIT_REQUEST_PREFIX + [FIELD_SEPARATOR];
    SplitAtPrefix(REXMIT_REQUEST_PREFIX, body);
    assert body[|REXMIT_REQUEST_PREFIX| + 1..] == j;
    TokensOfJoined(ids, PACKET_SEPARATOR);
    PacketIdsOfDecimals(Tokens(j, PACKET_SEPARATOR), ids);
  }

  // ----------------------------- AudioPacket -----------------------------

  /** The header fields in host order and the frame as held in `bytes`. */
  datatype AudioPacket = AudioPacket(sessionId: bv64, firstByteNum: bv64, psize: nat, bytes: seq<bv8>)

  /** The frame the sending constructor builds: htonll of each header
      field stored in host memory order, then the payload. */
  function FrameBytes(h: Host, sessionId: bv64, firstByteNum: bv64, audio: seq<bv8>): seq<bv8>
  {
    Store64(h, Htonll(h, sessionId)) + Store64(h, Htonll(h, firstByteNum)) + audio
  }

  /** AudioPacket(session_id, first_byte_num, audio_data, psize), used for
      sending; the three memcpy calls into a fresh array of
      TOTAL_PSIZE(psize) bytes. */
  method NewAudioPacket(h: Host, sessionId: bv64, firstByteNum: bv64, audio: seq<bv8>) returns (p: AudioPacket)
    ensures p == AudioPacket(sessionId, firstByteNum, |audio|, FrameBytes(h, sessionId, firstByteNum, audio))
  {
    var bytes := new bv8[TotalPsize(|audio|)];
    var val := Htonll(h, sessionId);
    MemCpy(bytes, 0, Store64(h, val));
    val := Htonll(h, firstByteNum);
    MemCpy(bytes, 8, Store64(h, val));
    MemCpy(bytes, 16, audio);
    assert bytes[..] == FrameBytes(h, sessionId, firstByteNum, audio);
    p := AudioPacket(sessionId, firstByteNum, |audio|, bytes[..]);
  }

  /** AudioPacket(buf, psize), used for receiving: both header words read
      from host memory through ntohll, and the first TOTAL_PSIZE(psize)
      bytes copied. */
  function ReceivedAudioPacket(h: Host, buf: seq<bv8>, psize: nat): AudioPacket
    requires |buf| >= TotalPsize(psize)
  {
    AudioPacket(Ntohll(h, Load64(h, buf[..8])), Ntohll(h, Load64(h, buf[8..16])), psize, buf[..TotalPsize(psize)])
  }

  /** audio_data(): the bytes past the two header words. */
  function AudioData(p: AudioPacket): seq<bv8>
    requires |p.bytes| >= HEADER_SIZE
  {
    p.bytes[HEADER_SIZE..]
  }

  /** On either host the frame is the session id in network order, the
      first byte number in network order, then the payload. */
  lemma FrameLayout(h: Host, sessionId: bv64, firstByteNum: bv64, audio: seq<bv8>)
    ensures var b := FrameBytes(h, sessionId, firstByteNum, audio);
      && |b| == TotalPsize(|audio|)
      && b[..8] == BigEndianBytes(sessionId)
      && b[8..16] == BigEndianBytes(firstByteNum)
      && b[16..] == audio
  {
    StoreHtonllIsBigEndian(h, sessionId);
    StoreHtonllIsBigEndian(h, firstByteNum);
  }

  /** The receiving constructor reads both header words as network-order
      numbers, whatever the host, and its payload is the `psize` bytes
      after them. */
  lemma ReceivedFields(h: Host, buf: seq<bv8>, psize: nat)
    requires |buf| >= TotalPsize(psize)
    ensures var p := ReceivedAudioPacket(h, buf, psize);
      && p.sessionId == BigEndian64(buf[..8])
      && p.firstByteNum == BigEndian64(buf[8..16])
      && AudioData(p) == buf[HEADER_SIZE..TotalPsize(psize)]
  {
    NtohllLoadIsBigEndian(h, buf[..8]);
    NtohllLoadIsBigEndian(h, buf[8..16]);
  }

  /** A frame built on one host and received on any host gives back the
      same session id, first byte number and payload. */
  lemma AudioPacketRoundTrip(sender: Host, receiver: Host, sessionId: bv64, firstByteNum: bv64, audio: seq<bv8>)
    ensures var p := ReceivedAudioPacket(receiver, FrameBytes(sender, sessionId, firstByteNum, audio), |audio|);
      && p == AudioPacket(sessionId, firstByteNum, |audio|, FrameBytes(sender, sessionId, firstByteNum, audio))
      && AudioData(p) == audio
  {
    var b := FrameBytes(sender, sessionId, firstByteNum, audio);
    FrameLayout(sender, sessionId, firstByteNum, audio);
    ReceivedFields(receiver, b, |audio|);
    BytesOfBigEndianValue(sessionId);
    BytesOfBigEndianValue(firstByteNum);
    assert b[..TotalPsize(|audio|)] == b;
  }

  lemma BytesOfBigEndianValue(x: bv64)
    ensures BigEndian64(BigEndianBytes(x)) == x
  {
    StoreHtonllIsBigEndian(BigEndian, x);
  }
}
