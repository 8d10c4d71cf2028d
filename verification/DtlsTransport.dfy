/**
 Sender, network and receiver together: a flight of handshake messages goes through
 fragmentation, a network that drops, repeats and reorders records, and reassembly.
 */
module DtlsTransport {
  import opened Bits
  import opened DtlsMessage
  import Send = DtlsSend
  import Receive = DtlsReceive

  /** Messages that fit their wire fields and the sender's buffer. */
  ghost predicate Sendable(msgs: seq<Message>, room: nat)
  {
    |msgs| < 0x1_0000 && forall m :: m in msgs ==> |m.body| < 0x100_0000 && HM_HEADER + |m.body| <= room
  }

  /** `dtls1_set_handshake_header` behind a message body already in the buffer. */
  method Load(sender: Send.Sender, m: Message, k: nat)
    requires sender.Valid() && HM_HEADER + |m.body| <= sender.initBuf.Length
    modifies sender, sender.initBuf
    ensures sender.Valid() && sender.Loaded(m, k)
    ensures sender.emitted == old(sender.emitted) && sender.hashed == old(sender.hashed) && sender.loads == old(sender.loads)
    ensures sender.retransmitting == old(sender.retransmitting)
  {
    sender.initOff := HM_HEADER;
    sender.PutBytes(m.body);
    assert sender.initBuf[..][HM_HEADER..HM_HEADER + |m.body|] == m.body;
    sender.wMsgHdr := Header(m.msgType, |m.body|, k, 0, |m.body|);
    sender.initNum := |m.body| + HM_HEADER;
    sender.initOff := 0;
  }

  method SendOne(sender: Send.Sender, msgs: seq<Message>, k: nat)
    requires sender.Valid() && !sender.retransmitting && k < |msgs|
    requires Sendable(msgs, sender.initBuf.Length)
    requires forall r :: r in sender.emitted ==> HonestBytes(r, msgs)
    modifies sender, sender.initBuf
    ensures sender.Valid() && !sender.retransmitting
    ensures |sender.loads| > |old(sender.loads)|
    ensures sender.hashed == old(sender.hashed) + (Encode(WholeHeader(msgs[k], k)) + msgs[k].body)
    ensures forall r :: r in sender.emitted ==> HonestBytes(r, msgs)
  {
    hide HonestBytes;
    hide Encode;
    hide Send.Fragmentation;
    Load(sender, msgs[k], k);
    ghost var lens := sender.DoWrite(msgs[k], k);
    Send.EmittedIsHonest(msgs, k, lens, 0);
  }

  /** Sends every message in order. The hash is the transcript of the messages, whatever the
      MTU made of them, and every record is one an honest sender may send. */
  method SendAll(sender: Send.Sender, msgs: seq<Message>)
    requires sender.Valid() && !sender.retransmitting && sender.hashed == [] && sender.emitted == []
    requires Sendable(msgs, sender.initBuf.Length)
    modifies sender, sender.initBuf
    ensures sender.Valid() && sender.hashed == Receive.Transcript(msgs, |msgs|) && |sender.loads| >= |msgs|
    ensures forall r :: r in sender.emitted ==> HonestBytes(r, msgs)
  {
    hide HonestBytes;
    hide Encode;
    hide Receive.Transcript;
    TranscriptStarts(msgs);
    for k := 0 to |msgs|
      invariant sender.Valid() && !sender.retransmitting && |sender.loads| >= k
      invariant sender.hashed == Receive.Transcript(msgs, k)
      invariant forall r :: r in sender.emitted ==> HonestBytes(r, msgs)
    {
      SendOne(sender, msgs, k);
      TranscriptStep(msgs, k);
    }
  }

  lemma TranscriptStarts(msgs: seq<Message>)
    ensures Receive.Transcript(msgs, 0) == []
  {
  }

  lemma TranscriptStep(msgs: seq<Message>, k: nat)
    requires k < |msgs|
    ensures Receive.Transcript(msgs, k + 1)
            == Receive.Transcript(msgs, k) + (Encode(WholeHeader(msgs[k], k)) + msgs[k].body)
  {
  }

  /** One thing the network or the receiving handshake does: deliver a copy of the i-th
      record ever sent, or ask for a message, of a type or any, to keep it or not. */
  datatype Choice = Copy(i: nat) | Ask(max: nat, mt: int, keep: bool)

  /** For every MTU up to the record limit, every cipher, flight and network behaviour: the receiver
      hands up a prefix of the flight, once it has handed up all of it both ends have hashed the
      same bytes, and no record and what was buffered before it exceed the MTU (GCM: by up to 24
      bytes). */
  method EndToEnd(msgs: seq<Message>, mtu: nat, cipher: Send.WriteCipher, choices: seq<Choice>,
                  isServer: bool, maxMessage: nat)
    returns (handedUp: seq<Message>, sentHash: seq<byte>, receivedHash: seq<byte>, ghost loads: seq<nat>)
    requires Send.MIN_MTU <= mtu <= Send.MAX_PLAIN && cipher.Supported()
    requires Sendable(msgs, 0x100_0000 + HM_HEADER)
    ensures handedUp <= msgs
    ensures receivedHash <= sentHash
    ensures handedUp == msgs ==> receivedHash == sentHash
    ensures |loads| >= |msgs| && forall i :: 0 <= i < |loads| ==> loads[i] <= mtu + Send.Overshoot(cipher)
  {
    hide HonestBytes;
    hide Encode;
    var initBuf := new byte[0x100_0000 + HM_HEADER];
    var sender := new Send.Sender(mtu, cipher, initBuf);
    SendAll(sender, msgs);
    sentHash := sender.hashed;
    loads := sender.loads;
    var records := sender.emitted;
    var events: seq<Receive.Event> := [];
    for i := 0 to |choices|
      invariant forall e :: e in events && e.Arrive? ==> HonestBytes(e.record, msgs)
    {
      match choices[i]
      case Copy(k) =>
        if k < |records| {
          events := events + [Receive.Arrive(records[k])];
        }
      case Ask(max, mt, keep) =>
        events := events + [Receive.Ask(max, mt, keep)];
    }
    var all;
    handedUp, receivedHash, all := Receive.Run(events, isServer, maxMessage, msgs);
    TranscriptGrows(msgs, |handedUp|, |msgs|);
  }

  lemma {:induction false} TranscriptGrows(msgs: seq<Message>, j: nat, k: nat)
    requires j <= k <= |msgs|
    ensures Receive.Transcript(msgs, j) <= Receive.Transcript(msgs, k)
  {
    hide Encode;
    if j < k {
      TranscriptGrows(msgs, j, k - 1);
    }
  }
}
