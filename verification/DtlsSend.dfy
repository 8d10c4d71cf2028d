/**
 `dtls1_do_write`: a handshake message leaves in fragments that fit the path MTU. Each
 fragment's header is written over bytes of the buffer that have already been sent.
 */
module DtlsSend {
  import opened Bits
  import opened DtlsMessage

  /** DTLS1_RT_HEADER_LENGTH */
  const RT_HEADER: nat := 13

  /** SSL3_RT_MAX_PLAIN_LENGTH, which dtls1_write_bytes asserts */
  const MAX_PLAIN: nat := 16384

  /** dtls1_min_mtu() */
  const MIN_MTU: nat := 228

  /** The write state, as far as it decides sizes. */
  datatype WriteCipher = Plain(macSize: nat) | Cbc(blockSize: nat, macSize: nat) | Gcm
  {
    /** mac_size in dtls1_do_write */
    function ReservedMac(): nat
    {
      match this case Plain(m) => m case Cbc(_, m) => m case Gcm => 0
    }

    /** blocksize in dtls1_do_write */
    function ReservedBlocks(): nat
    {
      match this case Plain(_) => 0 case Cbc(b, _) => 2 * b case Gcm => 0
    }

    /** The digests and block ciphers of the library. */
    predicate Supported()
    {
      match this
      case Plain(m) => m <= 64
      case Cbc(b, m) => 0 < b <= 16 && m <= 64
      case Gcm => true
    }

    /** The length of the record `do_dtls1_write` makes of n plaintext bytes: header, explicit
        IV or nonce, data, MAC and CBC padding, or GCM tag. */
    function RecordSize(n: nat): nat
      requires Supported()
    {
      match this
      case Plain(m) => RT_HEADER + n + m
      case Cbc(b, m) => var l := b + n + m; RT_HEADER + l + (b - l % b)
      case Gcm => RT_HEADER + 8 + n + 16
    }
  }

  /** What is reserved covers what a record adds, for null and CBC ciphers and for no other:
      a GCM record is always 24 bytes longer than was allowed for. */
  lemma ReservationCovers(c: WriteCipher, n: nat)
    requires c.Supported()
    ensures c.RecordSize(n) <= RT_HEADER + c.ReservedMac() + c.ReservedBlocks() + n <==> !c.Gcm?
    ensures c.Gcm? ==> c.RecordSize(n) == RT_HEADER + c.ReservedMac() + c.ReservedBlocks() + n + 24
  {
  }

  /** By how much the reservation falls short */
  function Overshoot(c: WriteCipher): nat
  {
    if c.Gcm? then 24 else 0
  }

  /** The room for a record behind w buffered bytes; there are never many more than the MTU. */
  function Room(c: WriteCipher, mtu: nat, w: nat): int
  {
    mtu - w - RT_HEADER - c.ReservedMac() - c.ReservedBlocks()
  }

  /** What is buffered when the record is written: with too little room, it is flushed first. */
  function Buffered(c: WriteCipher, mtu: nat, w: nat): nat
  {
    if Room(c, mtu, w) <= HM_HEADER then 0 else w
  }

  /** The size of the record that takes the next part of `rest` unsent bytes, with its header. */
  function NextLength(c: WriteCipher, mtu: nat, w: nat, rest: nat): (len: nat)
    requires c.Supported() && MIN_MTU <= mtu
  {
    var room := Room(c, mtu, Buffered(c, mtu, w));
    if HM_HEADER + rest > room then room else HM_HEADER + rest
  }

  /** Buffered bytes and record together, when it is written */
  function Load(c: WriteCipher, mtu: nat, w: nat, rest: nat): nat
    requires c.Supported() && MIN_MTU <= mtu
  {
    Buffered(c, mtu, w) + c.RecordSize(NextLength(c, mtu, w, rest))
  }

  /** They exceed the MTU exactly if the cipher is GCM and the next part fills all of the room, or
      all but less than 24 bytes of it. */
  lemma LoadExceeds(c: WriteCipher, mtu: nat, w: nat, rest: nat)
    requires c.Supported() && MIN_MTU <= mtu
    ensures Load(c, mtu, w, rest) > mtu <==>
      c.Gcm? && HM_HEADER + rest + 24 > Room(c, mtu, Buffered(c, mtu, w))
    ensures Load(c, mtu, w, rest) <= mtu + Overshoot(c)
  {
    ReservationCovers(c, NextLength(c, mtu, w, rest));
  }

  /** The first fragment of any message of 192 bytes or more, at the least MTU */
  lemma GcmExceeds(rest: nat)
    requires rest >= 192
    ensures Load(Gcm, MIN_MTU, 0, rest) > MIN_MTU
  {
    LoadExceeds(Gcm, MIN_MTU, 0, rest);
  }

  /** The fragments of message m, number k, for a list of fragment lengths from offset `off`. */
  function Fragmentation(m: Message, k: nat, lens: seq<nat>, off: nat): (records: seq<seq<byte>>)
    requires off + Sum(lens) <= |m.body|
    ensures |records| == |lens|
  {
    if lens == [] then []
    else [FragmentOf(m, k, off, lens[0])] + Fragmentation(m, k, lens[1..], off + lens[0])
  }

  function FragmentOf(m: Message, k: nat, off: nat, len: nat): seq<byte>
    requires off + len <= |m.body|
  {
    Encode(Header(m.msgType, |m.body|, k, off, len)) + m.body[off..off + len]
  }

  function Sum(lens: seq<nat>): nat
  {
    if lens == [] then 0 else lens[0] + Sum(lens[1..])
  }

  lemma {:induction false} FragmentationAppend(m: Message, k: nat, lens: seq<nat>, off: nat, len: nat)
    requires off + Sum(lens) + len <= |m.body|
    ensures Sum(lens + [len]) == Sum(lens) + len
    ensures Fragmentation(m, k, lens + [len], off)
            == Fragmentation(m, k, lens, off) + [FragmentOf(m, k, off + Sum(lens), len)]
  {
    if lens == [] {
      assert lens + [len] == [len];
      assert [len][1..] == [];
    } else {
      assert (lens + [len])[1..] == lens[1..] + [len];
      FragmentationAppend(m, k, lens[1..], off + lens[0], len);
    }
  }

  class Sender {
    const mtu: nat
    const cipher: WriteCipher
    /** BIO_wpending: bytes buffered but not yet flushed to the network. */
    var wpending: nat
    /** s->init_buf, s->init_off, s->init_num */
    const initBuf: array<byte>
    var initOff: nat
    var initNum: nat
    var wMsgHdr: Header
    var retransmitting: bool
    /** The plaintext of every record written. */
    var emitted: seq<seq<byte>>
    /** Everything given to `ssl3_finish_mac`. */
    var hashed: seq<byte>
    /** For every record, its size and what was buffered when it was written */
    ghost var loads: seq<nat>

    constructor (mtu: nat, cipher: WriteCipher, initBuf: array<byte>)
      requires MIN_MTU <= mtu <= MAX_PLAIN && cipher.Supported()
      ensures Valid() && this.mtu == mtu && this.cipher == cipher && this.initBuf == initBuf
      ensures emitted == [] && hashed == [] && loads == [] && !retransmitting
    {
      this.mtu, this.cipher, this.initBuf := mtu, cipher, initBuf;
      wpending, initOff, initNum, retransmitting := 0, 0, 0, false;
      wMsgHdr := Header(0, 0, 0, 0, 0);
      emitted, hashed, loads := [], [], [];
    }

    ghost predicate Valid()
      reads this
    {
      && MIN_MTU <= mtu <= MAX_PLAIN && cipher.Supported() && wpending <= mtu + Overshoot(cipher)
      && forall i :: 0 <= i < |loads| ==> loads[i] <= mtu + Overshoot(cipher)
    }

    /** The buffer holds message m, number k, and nothing of it has been sent. */
    ghost predicate Loaded(m: Message, k: nat)
      reads this, initBuf
    {
      && HM_HEADER + |m.body| <= initBuf.Length
      && initBuf[HM_HEADER..HM_HEADER + |m.body|] == m.body
      && initOff == 0 && initNum == HM_HEADER + |m.body|
      && wMsgHdr.msgType == m.msgType && wMsgHdr.msgLen == |m.body| && wMsgHdr.seqNum == k
    }

    /** At the head of the loop: everything up to `sent` is out, the rest is intact. */
    ghost predicate Sending(m: Message, k: nat, sent: nat)
      reads this, initBuf
    {
      && sent <= |m.body| && HM_HEADER + |m.body| <= initBuf.Length
      && initBuf[HM_HEADER + sent..HM_HEADER + |m.body|] == m.body[sent..]
      && wMsgHdr.msgType == m.msgType && wMsgHdr.msgLen == |m.body| && wMsgHdr.seqNum == k
      && (if sent == 0 then initOff == 0 && initNum == HM_HEADER + |m.body|
          else initOff == HM_HEADER + sent && initNum == |m.body| - sent && initNum > 0)
    }

    /** BIO_flush */
    method Flush()
      modifies this`wpending
      ensures wpending == 0
    {
      wpending := 0;
    }

    /** `dtls1_write_bytes`: one record. How much of it and of the buffered bytes the BIO passes on
        at once is its own affair. */
    method WriteBytes(data: seq<byte>)
      requires Valid() && |data| <= MAX_PLAIN && wpending + cipher.RecordSize(|data|) <= mtu + Overshoot(cipher)
      modifies this`wpending, this`emitted, this`loads
      ensures Valid() && emitted == old(emitted) + [data]
      ensures loads == old(loads) + [old(wpending) + cipher.RecordSize(|data|)]
    {
      emitted := emitted + [data];
      loads := loads + [wpending + cipher.RecordSize(|data|)];
      var left: nat :| left <= wpending + cipher.RecordSize(|data|);
      wpending := left;
    }

    /** The room for the next record, after a flush if there is too little. */
    method CurrMtu() returns (currMtu: int)
      requires Valid()
      modifies this`wpending
      ensures Valid() && HM_HEADER < currMtu <= MAX_PLAIN
      ensures wpending == Buffered(cipher, mtu, old(wpending)) && currMtu == Room(cipher, mtu, wpending)
    {
      currMtu := mtu - wpending - RT_HEADER - cipher.ReservedMac() - cipher.ReservedBlocks();
      if currMtu <= HM_HEADER {
        Flush();
        currMtu := mtu - RT_HEADER - cipher.ReservedMac() - cipher.ReservedBlocks();
      }
    }

    /** `dtls1_fix_message_header` and `dtls1_write_message_header` */
    method WriteHeader(fragOff: nat, fragLen: nat)
      requires initOff + HM_HEADER <= initBuf.Length
      modifies this`wMsgHdr, initBuf
      ensures wMsgHdr == old(wMsgHdr).(fragOff := fragOff, fragLen := fragLen)
      ensures initBuf[..] == old(initBuf[..initOff]) + Encode(wMsgHdr) + old(initBuf[initOff + HM_HEADER..])
    {
      wMsgHdr := wMsgHdr.(fragOff := fragOff, fragLen := fragLen);
      PutBytes(Encode(wMsgHdr));
    }

    method PutBytes(s: seq<byte>)
      requires initOff + |s| <= initBuf.Length
      modifies initBuf
      ensures initBuf[..] == old(initBuf[..initOff]) + s + old(initBuf[initOff + |s|..])
    {
      forall i | 0 <= i < |s| {
        initBuf[initOff + i] := s[i];
      }
    }
  
    /** Steps back over sent bytes to make room for a header, and takes as much as fits. */
    method StepBack(currMtu: int, sent: nat, ghost m: Message, ghost k: nat) returns (len: nat)
      requires Sending(m, k, sent) && HM_HEADER < currMtu
      modifies this`initOff, this`initNum
      ensures initOff == sent && initNum == HM_HEADER + |m.body| - sent
      ensures len == if initNum > currMtu then currMtu else initNum
    {
      if initNum > currMtu {
        len := currMtu;
      } else {
        len := initNum;
      }
      if initOff != 0 {
        initOff := initOff - HM_HEADER;
        initNum := initNum + HM_HEADER;
        if initNum > currMtu {
          len := currMtu;
        } else {
          len := initNum;
        }
      }
    }

    /** Fixes and writes the header of the next len bytes, which then are the record. */
    method PrepareFragment(len: nat, sent: nat, ghost m: Message, ghost k: nat)
      requires initOff == sent && HM_HEADER <= len && sent + len <= HM_HEADER + |m.body| <= initBuf.Length
      requires initBuf[HM_HEADER + sent..HM_HEADER + |m.body|] == m.body[sent..]
      requires wMsgHdr.msgType == m.msgType && wMsgHdr.msgLen == |m.body| && wMsgHdr.seqNum == k
      modifies this`wMsgHdr, initBuf
      ensures initBuf[sent..sent + len] == FragmentOf(m, k, sent, len - HM_HEADER)
      ensures initBuf[HM_HEADER + sent..HM_HEADER + |m.body|] == m.body[sent..]
      ensures wMsgHdr.msgType == m.msgType && wMsgHdr.msgLen == |m.body| && wMsgHdr.seqNum == k
    {
      hide Encode;
      ghost var before := initBuf[..];
      WriteHeader(sent, len - HM_HEADER);
      HeaderOverlay(before, initBuf[..], Encode(wMsgHdr), m.body, sent, len - HM_HEADER);
      assert initBuf[sent..sent + len] == initBuf[..][sent..sent + len];
      assert initBuf[HM_HEADER + sent..HM_HEADER + |m.body|] == initBuf[..][HM_HEADER + sent..HM_HEADER + |m.body|];
    }

    /** The part after the write: the Finished hash takes the body, and before its first byte
        a header as if the message had been sent in one piece. */
    method HashFragment(len: nat, sent: nat, ghost m: Message, ghost k: nat)
      requires initOff == sent && HM_HEADER <= len && sent + len <= HM_HEADER + |m.body| <= initBuf.Length
      requires initBuf[HM_HEADER + sent..HM_HEADER + |m.body|] == m.body[sent..]
      requires wMsgHdr.msgType == m.msgType && wMsgHdr.msgLen == |m.body| && wMsgHdr.seqNum == k
      modifies this`hashed, initBuf
      ensures initBuf[HM_HEADER + sent..HM_HEADER + |m.body|] == m.body[sent..]
      ensures hashed == old(hashed) + (if sent == 0 then Encode(WholeHeader(m, k)) else [])
                        + m.body[sent..sent + len - HM_HEADER]
    {
      hide Encode;
      ghost var before := initBuf[..];
      if sent == 0 {
        PutBytes(Encode(Header(wMsgHdr.msgType, wMsgHdr.msgLen, wMsgHdr.seqNum, 0, wMsgHdr.msgLen)));
        HeaderOverlay(before, initBuf[..], Encode(WholeHeader(m, k)), m.body, 0, len - HM_HEADER);
        hashed := hashed + initBuf[initOff..initOff + len];
        assert initBuf[0..len] == initBuf[..][0..0 + HM_HEADER + (len - HM_HEADER)];
        assert initBuf[HM_HEADER..HM_HEADER + |m.body|] == initBuf[..][HM_HEADER + 0..HM_HEADER + |m.body|];
      } else {
        hashed := hashed + initBuf[initOff + HM_HEADER..initOff + len];
        assert initBuf[sent + HM_HEADER..sent + len] == m.body[sent..][..len - HM_HEADER];
      }
    }

    /** The first half of an iteration: one record leaves. */
    method EmitFragment(sent: nat, ghost m: Message, ghost k: nat) returns (len: nat)
      requires Valid() && Sending(m, k, sent)
      modifies this`wpending, this`initOff, this`initNum, this`wMsgHdr, this`emitted, this`loads, initBuf
      ensures loads == old(loads) + [Load(cipher, mtu, old(wpending), |m.body| - sent)]
      ensures Valid() && initOff == sent && initNum == HM_HEADER + |m.body| - sent
      ensures HM_HEADER <= len <= initNum && (len == HM_HEADER ==> |m.body| == 0)
      ensures emitted == old(emitted) + [FragmentOf(m, k, sent, len - HM_HEADER)]
      ensures initBuf[HM_HEADER + sent..HM_HEADER + |m.body|] == m.body[sent..]
      ensures wMsgHdr.msgType == m.msgType && wMsgHdr.msgLen == |m.body| && wMsgHdr.seqNum == k
    {
      hide FragmentOf;
      LoadExceeds(cipher, mtu, wpending, |m.body| - sent);
      var currMtu := CurrMtu();
      len := StepBack(currMtu, sent, m, k);
      PrepareFragment(len, sent, m, k);
      WriteBytes(initBuf[initOff..initOff + len]);
    }

    /** The last lines of an iteration: done, or on to the rest. */
    method NextFragment(len: nat, sent: nat, ghost m: Message, ghost k: nat)
      requires initOff == sent && initNum == HM_HEADER + |m.body| - sent && HM_HEADER <= len <= initNum
      requires HM_HEADER + |m.body| <= initBuf.Length && (len == HM_HEADER ==> |m.body| == 0)
      requires initBuf[HM_HEADER + sent..HM_HEADER + |m.body|] == m.body[sent..]
      requires wMsgHdr.msgType == m.msgType && wMsgHdr.msgLen == |m.body| && wMsgHdr.seqNum == k
      modifies this`initOff, this`initNum
      ensures var sent' := sent + len - HM_HEADER;
        if sent' < |m.body| then Sending(m, k, sent') else initOff == 0 && initNum == 0
    {
      if len == initNum {
        initOff := 0;
        initNum := 0;
      } else {
        initOff := initOff + len;
        initNum := initNum - len;
        ghost var rest := initBuf[HM_HEADER + sent..HM_HEADER + |m.body|];
        assert initBuf[sent + len..HM_HEADER + |m.body|] == rest[len - HM_HEADER..];
        assert m.body[sent..][len - HM_HEADER..] == m.body[sent + len - HM_HEADER..];
      }
    }

    /** One iteration of the loop. Returns the number of body bytes sent so far. */
    method SendFragment(sent: nat, ghost m: Message, ghost k: nat) returns (sent': nat)
      requires Valid() && Sending(m, k, sent)
      modifies this, initBuf
      ensures Valid() && sent' <= |m.body| && (sent < sent' || |m.body| == sent == sent' == 0)
      ensures emitted == old(emitted) + [FragmentOf(m, k, sent, sent' - sent)]
      ensures loads == old(loads) + [Load(cipher, mtu, old(wpending), |m.body| - sent)]
      ensures hashed == old(hashed) + (if retransmitting then []
        else (if sent == 0 then Encode(WholeHeader(m, k)) else []) + m.body[sent..sent'])
      ensures retransmitting == old(retransmitting)
      ensures if sent' < |m.body| then Sending(m, k, sent') else initOff == 0 && initNum == 0
    {
      hide Encode;
      hide FragmentOf;
      var len := EmitFragment(sent, m, k);
      if !retransmitting {
        HashFragment(len, sent, m, k);
      }
      NextFragment(len, sent, m, k);
      sent' := sent + len - HM_HEADER;
    }

    /** `dtls1_do_write` for a handshake message: it terminates, the fragments tile the
        message, the hash does not depend on them, and buffered bytes and record stay within the
        MTU (GCM: 24 bytes more). */
    method DoWrite(ghost m: Message, ghost k: nat) returns (ghost lens: seq<nat>)
      requires Valid() && Loaded(m, k)
      modifies this, initBuf
      ensures Valid() && initOff == 0 && initNum == 0
      ensures |loads| == |old(loads)| + |lens| && forall i :: 0 <= i < |loads| ==> loads[i] <= mtu + Overshoot(cipher)
      ensures Sum(lens) == |m.body| && emitted == old(emitted) + Fragmentation(m, k, lens, 0)
      ensures lens != [] && (lens == [0] || forall i :: 0 <= i < |lens| ==> lens[i] > 0)
      ensures hashed == old(hashed) + if retransmitting then [] else Encode(WholeHeader(m, k)) + m.body
      ensures retransmitting == old(retransmitting)
    {
      hide Encode;
      hide FragmentOf;
      lens := [];
      var sent: nat := 0;
      while initNum != 0
        invariant Valid() && retransmitting == old(retransmitting) && |loads| == |old(loads)| + |lens|
        invariant sent <= |m.body| && Sum(lens) == sent && emitted == old(emitted) + Fragmentation(m, k, lens, 0)
        invariant lens == [0] || forall i :: 0 <= i < |lens| ==> lens[i] > 0
        invariant if initNum == 0 then initOff == 0 && sent == |m.body| && lens != []
                  else Sending(m, k, sent) && (lens == [] <==> sent == 0)
        invariant hashed == old(hashed) + if retransmitting || lens == [] then []
                                          else Encode(WholeHeader(m, k)) + m.body[..sent]
        decreases |m.body| - sent, initNum
      {
        ghost var before := sent;
        sent := SendFragment(sent, m, k);
        FragmentationAppend(m, k, lens, 0, sent - before);
        lens := lens + [sent - before];
        assert m.body[..before] + m.body[before..sent] == m.body[..sent];
      }
    }
  }

  /** A header written over the twelve bytes before offset HM_HEADER + sent leaves the unsent
      part of the body intact and joins it to form the record. */
  lemma HeaderOverlay(before: seq<byte>, after: seq<byte>, hdr: seq<byte>, body: seq<byte>, sent: nat, n: nat)
    requires |hdr| == HM_HEADER && sent + n <= |body| && HM_HEADER + |body| <= |before|
    requires before[HM_HEADER + sent..HM_HEADER + |body|] == body[sent..]
    requires after == before[..sent] + hdr + before[sent + HM_HEADER..]
    ensures |after| == |before|
    ensures after[HM_HEADER + sent..HM_HEADER + |body|] == body[sent..]
    ensures after[sent..sent + HM_HEADER + n] == hdr + body[sent..sent + n]
  {
    var rest := before[sent + HM_HEADER..];
    assert rest[..|body| - sent] == body[sent..];
    assert after[sent..] == hdr + rest;
    assert after[HM_HEADER + sent..HM_HEADER + |body|] == rest[..|body| - sent];
    assert after[sent..sent + HM_HEADER + n] == hdr + rest[..n];
    assert rest[..n] == body[sent..][..n] == body[sent..sent + n];
  }

  // ---------- what the receiver makes of the fragments ----------

  /** Every record that carries a fragment of an honest message is an honest record. */
  lemma FragmentIsHonest(msgs: seq<Message>, k: nat, off: nat, len: nat)
    requires k < |msgs| < 0x1_0000 && |msgs[k].body| < 0x100_0000
    requires off + len <= |msgs[k].body| && (len == 0 ==> |msgs[k].body| == 0)
    ensures HonestBytes(FragmentOf(msgs[k], k, off, len), msgs)
  {
    var h := Header(msgs[k].msgType, |msgs[k].body|, k, off, len);
    var data := msgs[k].body[off..off + len];
    ParseEncode(h);
    hide Encode;
    hide Parse;
    var p := FragmentOf(msgs[k], k, off, len);
    assert p[..HM_HEADER] == Encode(h) && p[HM_HEADER..] == data;
    assert data[..len] == data && p[HM_HEADER + len..] == [];
  }

  /** So whatever a sender emits for a message may be lost, repeated and reordered freely. */
  lemma {:induction false} EmittedIsHonest(msgs: seq<Message>, k: nat, lens: seq<nat>, off: nat)
    requires k < |msgs| < 0x1_0000 && |msgs[k].body| < 0x100_0000
    requires off + Sum(lens) == |msgs[k].body|
    requires (off == 0 && lens == [0]) || forall i :: 0 <= i < |lens| ==> lens[i] > 0
    ensures forall r :: r in Fragmentation(msgs[k], k, lens, off) ==> HonestBytes(r, msgs)
  {
    hide HonestBytes;
    if lens != [] {
      FragmentIsHonest(msgs, k, off, lens[0]);
      if lens[1..] != [] {
        EmittedIsHonest(msgs, k, lens[1..], off + lens[0]);
      }
    }
  }
}
