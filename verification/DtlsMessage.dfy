/**
 DTLS handshake messages and fragments as byte strings (section 4.2.2 of RFC 6347):
 `dtls1_write_message_header`, `dtls1_get_message_header`, and what it means for a record to
 come from an honest sender of a given list of messages.
 */
module DtlsMessage {
  import opened Bits

  /** DTLS1_HM_HEADER_LENGTH */
  const HM_HEADER: nat := 12

  datatype Message = Message(msgType: byte, body: seq<byte>)

  /** struct hm_header_st */
  datatype Header = Header(msgType: byte, msgLen: nat, seqNum: nat, fragOff: nat, fragLen: nat)

  /** The fields fit their wire widths. */
  predicate FitsWire(h: Header)
  {
    h.msgLen < 0x100_0000 && h.seqNum < 0x1_0000 && h.fragOff < 0x100_0000 && h.fragLen < 0x100_0000
  }

  /** `l2n3` */
  function Put24(n: nat): (s: seq<byte>)
    ensures |s| == 3
  {
    [n / 0x1_0000 % 256, n / 0x100 % 256, n % 256]
  }

  /** `n2l3` */
  function Get24(s: seq<byte>): nat
    requires |s| == 3
  {
    s[0] as int * 0x1_0000 + s[1] as int * 0x100 + s[2]
  }

  function Encode(h: Header): (s: seq<byte>)
    ensures |s| == HM_HEADER
  {
    [h.msgType] + Put24(h.msgLen) + [h.seqNum / 0x100 % 256, h.seqNum % 256] + Put24(h.fragOff) + Put24(h.fragLen)
  }

  function Parse(s: seq<byte>): (h: Header)
    requires |s| == HM_HEADER
    ensures FitsWire(h)
  {
    Header(s[0], Get24(s[1..4]), s[4] as int * 0x100 + s[5] as int, Get24(s[6..9]), Get24(s[9..12]))
  }

  lemma Get24Put24(n: nat)
    requires n < 0x100_0000
    ensures Get24(Put24(n)) == n
  {
  }

  lemma ParseEncode(h: Header)
    requires FitsWire(h)
    ensures Parse(Encode(h)) == h
  {
    var s := Encode(h);
    assert s[1..4] == Put24(h.msgLen);
    assert s[6..9] == Put24(h.fragOff);
    assert s[9..12] == Put24(h.fragLen);
    Get24Put24(h.msgLen);
    Get24Put24(h.fragOff);
    Get24Put24(h.fragLen);
  }

  /** The header of message k sent in one piece: what both sides feed to the Finished hash. */
  function WholeHeader(m: Message, k: nat): Header
  {
    Header(m.msgType, |m.body|, k, 0, |m.body|)
  }

  /** A header that an honest sender of `msgs` may put on a fragment. A fragment is empty only
      if its message is. */
  ghost predicate HonestHeader(h: Header, msgs: seq<Message>)
  {
    && h.seqNum < |msgs|
    && h.msgType == msgs[h.seqNum].msgType && h.msgLen == |msgs[h.seqNum].body|
    && h.fragOff + h.fragLen <= h.msgLen
    && (h.fragLen == 0 ==> h.msgLen == 0)
  }

  /** The bytes that follow an honest header. */
  ghost predicate HonestBody(h: Header, data: seq<byte>, msgs: seq<Message>)
  {
    && HonestHeader(h, msgs)
    && h.fragLen <= |data|
    && data[..h.fragLen] == msgs[h.seqNum].body[h.fragOff..h.fragOff + h.fragLen]
  }

  /** A record, or the unread rest of one, made of whole honest fragments. */
  ghost predicate HonestBytes(p: seq<byte>, msgs: seq<Message>)
    decreases |p|
  {
    p != [] ==>
      && HM_HEADER <= |p|
      && var h := Parse(p[..HM_HEADER]);
      && HonestBody(h, p[HM_HEADER..], msgs)
      && HonestBytes(p[HM_HEADER + h.fragLen..], msgs)
  }
}
