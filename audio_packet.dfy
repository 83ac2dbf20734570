/** The raw header accessors of src/utils/audio_packet.cc. They read a
    received frame in place and change nothing; src/utils/endian.hh gives
    them its unparenthesised `ntohll`, whose argument here is a single
    operand. */
module AudioHeaders {
  import opened Endian
  import opened Datagram

  /** get_session_id: the first header word through ntohll. */
  function GetSessionId(h: Host, buf: seq<bv8>): (id: bv64)
    requires |buf| >= 8
    ensures id == BigEndian64(buf[..8])
  {
    NtohllLoadIsBigEndian(h, buf[..8]);
    NtohllUnparenthesisedAgrees(h, Operand(Load64(h, buf[..8])));
    NtohllUnparenthesised(h, Operand(Load64(h, buf[..8])))
  }

  /** get_first_byte_num: the second header word through ntohll. */
  function GetFirstByteNum(h: Host, buf: seq<bv8>): (fbn: bv64)
    requires |buf| >= 16
    ensures fbn == BigEndian64(buf[8..16])
  {
    NtohllLoadIsBigEndian(h, buf[8..16]);
    NtohllUnparenthesisedAgrees(h, Operand(Load64(h, buf[8..16])));
    NtohllUnparenthesised(h, Operand(Load64(h, buf[8..16])))
  }

  /** get_audio_data: the offset of the payload, past both header words. */
  function GetAudioData(buf: seq<bv8>): (off: nat)
    requires |buf| >= HEADER_SIZE
    ensures off == 2 * 8 && buf[off..] == buf[HEADER_SIZE..]
  {
    HEADER_SIZE
  }

  /** The accessors agree with the receiving AudioPacket constructor of
      src/common/datagram.cc on any frame of TOTAL_PSIZE(psize) bytes. */
  lemma AccessorsAgreeWithAudioPacket(h: Host, buf: seq<bv8>, psize: nat)
    requires |buf| == TotalPsize(psize)
    ensures var p := ReceivedAudioPacket(h, buf, psize);
      && GetSessionId(h, buf) == p.sessionId
      && GetFirstByteNum(h, buf) == p.firstByteNum
      && buf[GetAudioData(buf)..] == AudioData(p)
  {
    ReceivedFields(h, buf, psize);
    assert buf[..TotalPsize(psize)] == buf;
  }

  /** On a frame built by the sending constructor on any host, the
      accessors on any host give back the session id, the first byte
      number and the payload. */
  lemma AccessorsReadFrame(sender: Host, receiver: Host, sessionId: bv64, firstByteNum: bv64, audio: seq<bv8>)
    ensures var b := FrameBytes(sender, sessionId, firstByteNum, audio);
      && GetSessionId(receiver, b) == sessionId
      && GetFirstByteNum(receiver, b) == firstByteNum
      && b[GetAudioData(b)..] == audio
  {
    FrameLayout(sender, sessionId, firstByteNum, audio);
    BytesOfBigEndianValue(sessionId);
    BytesOfBigEndianValue(firstByteNum);
  }
}
