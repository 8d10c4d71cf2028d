/**
 The receiving half of the DTLS handshake transport of ssl/d1_both.c: fragments are read
 directly, buffered whole, or reassembled under a bitmap, and handed up as messages in order.
 */
module DtlsReceive {
  import opened Bits
  import opened DtlsMessage
  import opened ReassemblyBitmap

  const HELLO_REQUEST: byte := 0
  const FINISHED: byte := 20

  /** struct hm_fragment: a buffered message. `reassembly` is null once every byte is there. */
  class HmFragment {
    const hdr: Header
    const fragment: array<byte>
    var reassembly: array?<byte>
    ghost const Repr: set<object>

    /** `dtls1_hm_fragment_new`; the header's fragment range becomes the whole message. */
    constructor (h: Header, reassemble: bool)
      requires reassemble ==> h.msgLen > 0
      ensures Valid() && fresh(Repr)
      ensures hdr == h.(fragOff := 0, fragLen := h.msgLen)
      ensures (reassembly != null) == reassemble
      ensures reassemble ==> forall k: nat :: k < h.msgLen ==> !Has(k)
    {
      hdr := h.(fragOff := 0, fragLen := h.msgLen);
      var f := new byte[h.msgLen];
      fragment := f;
      if reassemble {
        var bitmask := new byte[BitmaskSize(h.msgLen)](_ => 0);
        reassembly := bitmask;
        Repr := {this, f, bitmask};
      } else {
        reassembly := null;
        Repr := {this, f};
      }
      new;
      if reassemble {
        ZeroByte();
      }
    }

    ghost predicate Valid()
      reads this, Repr
    {
      && this in Repr && fragment in Repr && fragment as object != this
      && fragment.Length == hdr.msgLen && hdr.fragOff == 0 && hdr.fragLen == hdr.msgLen
      && (reassembly != null ==>
            && reassembly in Repr && reassembly != fragment
            && hdr.msgLen > 0 && reassembly.Length == BitmaskSize(hdr.msgLen)
            && forall k: nat :: hdr.msgLen <= k < 8 * reassembly.Length ==> !Covered(reassembly[..], k))
    }

    /** Byte k of the message has arrived. */
    ghost predicate Has(k: nat)
      requires Valid() && k < hdr.msgLen
      reads this, Repr
    {
      reassembly == null || Covered(reassembly[..], k)
    }

    ghost predicate Complete()
      requires Valid()
      reads this, Repr
    {
      forall k: nat :: k < hdr.msgLen ==> Has(k)
    }

    /** It holds exactly the bytes of one fragment, with header h. */
    ghost predicate Holds(h: Header, data: seq<byte>)
      requires Valid()
      reads this, Repr
    {
      && hdr == h.(fragOff := 0, fragLen := h.msgLen) && h.fragOff + h.fragLen <= h.msgLen
      && fragment[h.fragOff..h.fragOff + h.fragLen] == data
      && forall k: nat :: k < h.msgLen ==> (Has(k) <==> h.fragOff <= k < h.fragOff + h.fragLen)
    }

    /** What has arrived is what was sent. */
    ghost predicate Matches(msgs: seq<Message>)
      requires Valid()
      reads this, Repr
    {
      && hdr.seqNum < |msgs| && hdr.msgType == msgs[hdr.seqNum].msgType
      && hdr.msgLen == |msgs[hdr.seqNum].body|
      && forall k: nat :: k < hdr.msgLen && Has(k) ==> fragment[k] == msgs[hdr.seqNum].body[k]
    }

    /** Marks a range, and drops the bitmap once the message is complete. */
    method MarkArrived(off: nat, n: nat)
      requires Valid() && reassembly != null && off + n <= hdr.msgLen
      modifies Repr - {fragment}
      ensures fragment[..] == old(fragment[..])
      ensures Valid()
      ensures forall k: nat :: k < hdr.msgLen ==> (Has(k) <==> old(Has(k)) || off <= k < off + n)
      ensures reassembly == null <==> Complete()
    {
      ghost var before := reassembly[..];
      Mark(reassembly, off, off + n);
      ghost var after := reassembly[..];
      var isComplete := IsComplete(reassembly, hdr.msgLen);
      forall k: nat | hdr.msgLen <= k < 8 * |after| ensures !Covered(after, k) {
        assert !Covered(before, k);
      }
      if !isComplete {
        ghost var k: nat :| k < hdr.msgLen && !Covered(after, k);
        assert !Has(k);
      } else {
        reassembly := null;
        forall k: nat | k < hdr.msgLen ensures old(Has(k)) || off <= k < off + n {
          assert Covered(after, k);
        }
      }
    }

    /** Takes in the body of one fragment: its bytes land in place and are marked, and the bitmap
        goes once the message is complete. Bytes of an honest sender keep the buffer honest. */
    method Add(off: nat, data: seq<byte>, ghost msgs: seq<Message>)
      requires Valid() && reassembly != null && off + |data| <= hdr.msgLen
      modifies Repr
      ensures Valid()
      ensures fragment[..] == old(fragment[..off]) + data + old(fragment[off + |data|..])
      ensures forall k: nat :: k < hdr.msgLen ==> (Has(k) <==> old(Has(k)) || off <= k < off + |data|)
      ensures reassembly == null <==> Complete()
      ensures old(Matches(msgs)) && data == msgs[hdr.seqNum].body[off..off + |data|] ==> Matches(msgs)
    {
      ghost var was := fragment[..];
      CopyInto(off, data);
      assert forall k: nat :: k < hdr.msgLen ==>
        fragment[k] == if off <= k < off + |data| then data[k - off] else was[k];
      MarkArrived(off, |data|);
    }

    method CopyInto(off: nat, data: seq<byte>)
      requires Valid() && off + |data| <= hdr.msgLen
      modifies fragment
      ensures fragment[..] == old(fragment[..off]) + data + old(fragment[off + |data|..])
    {
      forall i | 0 <= i < |data| {
        fragment[off + i] := data[i];
      }
    }
  }

  lemma ZeroByte()
    ensures forall k: nat :: !Bit(0, k)
  {
    forall k: nat ensures !Bit(0, k) {
      BitOfZero(k);
    }
  }

  /** A new entry holding one fragment. */
  method NewPartial(h: Header, data: seq<byte>, ghost honest: bool, ghost msgs: seq<Message>) returns (frag: HmFragment)
    requires h.fragOff + h.fragLen <= h.msgLen && |data| == h.fragLen > 0
    requires honest ==> HonestHeader(h, msgs) && data == msgs[h.seqNum].body[h.fragOff..h.fragOff + h.fragLen]
    ensures frag in frag.Repr && frag.Valid() && fresh(frag.Repr) && frag.hdr == h.(fragOff := 0, fragLen := h.msgLen)
    ensures frag.Holds(h, data)
    ensures honest ==> frag.Matches(msgs)
  {
    frag := new HmFragment(h, true);
    assert honest ==> frag.Matches(msgs);
    frag.Add(h.fragOff, data, msgs);
  }

  /** A new entry holding a whole message. */
  method NewWhole(h: Header, data: seq<byte>, ghost honest: bool, ghost msgs: seq<Message>) returns (frag: HmFragment)
    requires |data| == h.fragLen == h.msgLen && h.fragOff == 0
    requires honest ==> HonestHeader(h, msgs) && data == msgs[h.seqNum].body[0..h.fragLen]
    ensures frag in frag.Repr && frag.Valid() && fresh(frag.Repr) && frag.hdr == h.(fragOff := 0, fragLen := h.msgLen)
    ensures frag.reassembly == null && frag.fragment[..] == data
    ensures honest ==> frag.Matches(msgs)
  {
    frag := new HmFragment(h, false);
    frag.CopyInto(0, data);
    assert frag.fragment[..] == data;
  }

  ghost function ObjectsOf(b: map<nat, HmFragment>): set<object>
  {
    set s, o | s in b && o in b[s].Repr :: o
  }

  /** The queue keeps its entries, and gains at most one for message k. */
  ghost predicate Grown(was: map<nat, HmFragment>, b: map<nat, HmFragment>, k: nat)
  {
    (forall s :: s in was ==> s in b && b[s] == was[s]) && forall s :: s in b ==> s in was || s == k
  }

  /** The queue: one entry per sequence number, none beyond the limit. */
  ghost predicate QueueValid(b: map<nat, HmFragment>, limit: nat)
    reads ObjectsOf(b)
  {
    && (forall s :: s in b ==> b[s] in b[s].Repr && b[s].Valid() && b[s].hdr.seqNum == s && s <= limit)
    && (forall s, t :: s in b && t in b && s != t ==> b[s].Repr !! b[t].Repr)
  }

  /** Every entry holds bytes of its message. */
  ghost predicate QueueMatches(b: map<nat, HmFragment>, limit: nat, msgs: seq<Message>)
    requires QueueValid(b, limit)
    reads ObjectsOf(b)
  {
    forall s :: s in b ==> b[s].Matches(msgs)
  }

  lemma QueueInsert(b: map<nat, HmFragment>, limit: nat, frag: HmFragment)
    requires QueueValid(b, limit) && frag in frag.Repr && frag.Valid() && frag.hdr.seqNum <= limit
    requires frag.hdr.seqNum !in b && frag.Repr !! ObjectsOf(b)
    ensures QueueValid(b[frag.hdr.seqNum := frag], limit)
  {
    hide HmFragment.Valid;
    var b' := b[frag.hdr.seqNum := frag];
    forall s, t | s in b' && t in b' && s != t ensures b'[s].Repr !! b'[t].Repr {
      ReprInObjects(b, s);
      ReprInObjects(b, t);
    }
  }

  lemma ReprInObjects(b: map<nat, HmFragment>, s: nat)
    ensures s in b ==> b[s].Repr <= ObjectsOf(b)
  {
  }

  lemma QueueInsertMatches(b: map<nat, HmFragment>, limit: nat, frag: HmFragment, msgs: seq<Message>)
    requires QueueValid(b, limit) && QueueMatches(b, limit, msgs)
    requires frag.Valid() && frag.Matches(msgs) && QueueValid(b[frag.hdr.seqNum := frag], limit)
    ensures QueueMatches(b[frag.hdr.seqNum := frag], limit, msgs)
  {
  }

  lemma ObjectsInsert(b: map<nat, HmFragment>, k: nat, frag: HmFragment)
    requires k !in b
    ensures ObjectsOf(b[k := frag]) == ObjectsOf(b) + frag.Repr
  {
    var b' := b[k := frag];
    forall o | o in ObjectsOf(b) ensures o in ObjectsOf(b') {
      var s :| s in b && o in b[s].Repr;
      assert s in b' && o in b'[s].Repr;
    }
    forall o | o in frag.Repr ensures o in ObjectsOf(b') {
      assert k in b' && o in b'[k].Repr;
    }
  }

  /** What a call that may consume input reports. Retry is DTLS1_HM_FRAGMENT_RETRY; Blocked
      is a read that found nothing; Failed is any error that ends the handshake. */
  datatype Outcome = Got(length: nat) | Retry | Blocked | Failed

  class Receiver {
    /** s->d1->handshake_read_seq, an unsigned short. */
    var handshakeReadSeq: nat
    /** The priority queue, keyed by message sequence number. */
    var buffered: map<nat, HmFragment>
    /** The unread rest of the current record, and the records behind it. */
    var pending: seq<byte>
    var network: seq<seq<byte>>
    /** s->init_buf and s->init_num: header and body of the message being handed up. */
    var initBuf: seq<byte>
    var initNum: nat
    /** The r_msg_hdr fields that survive a fragment. */
    var rMsgHdr: Header
    /** s->s3->tmp.reuse_message, message_type and message_size: a message that its caller did not
        want is kept for the next one. */
    var reuseMessage: bool
    var messageType: byte
    var messageSize: nat
    /** Everything given to `ssl3_finish_mac`. */
    var hashed: seq<byte>
    const isServer: bool
    /** dtls1_max_handshake_message_len */
    const maxMessage: nat
    ghost var delivered: seq<Message>

    constructor (isServer: bool, maxMessage: nat)
      ensures Valid() && delivered == [] && hashed == [] && network == [] && pending == [] && !reuseMessage
      ensures Objects() == {}
      ensures forall msgs :: |msgs| < 0x1_0000 ==> Safe(msgs)
    {
      handshakeReadSeq, buffered, pending, network := 0, map[], [], [];
      initBuf, initNum, hashed, delivered := [], 0, [], [];
      rMsgHdr := Header(0, 0, 0, 0, 0);
      reuseMessage, messageType, messageSize := false, 0, 0;
      this.isServer, this.maxMessage := isServer, maxMessage;
    }

    ghost function Objects(): set<object>
      reads this
    {
      ObjectsOf(buffered)
    }

    ghost predicate Valid()
      reads this, Objects()
    {
      && handshakeReadSeq == |delivered| % 0x1_0000
      && this !in Objects() && QueueValid(buffered, |delivered| + 10)
    }

    /** Everything held comes from the sender of `msgs`, and what was handed up is a prefix. */
    ghost predicate Safe(msgs: seq<Message>)
      requires Valid()
      reads this, Objects()
    {
      && HonestBytes(pending, msgs)
      && SafeBehind(msgs)
    }

    /** The same, apart from the current record. */
    ghost predicate SafeBehind(msgs: seq<Message>)
      requires Valid()
      reads this, Objects()
    {
      && |msgs| < 0x1_0000
      && |delivered| <= |msgs| && delivered == msgs[..|delivered|] && handshakeReadSeq == |delivered|
      && (forall r :: r in network ==> HonestBytes(r, msgs))
      && QueueMatches(buffered, |delivered| + 10, msgs)
    }

    /** The buffer holds the message that was handed up last. */
    ghost predicate HoldsLast()
      reads this`delivered, this`messageType, this`messageSize, this`initBuf
    {
      && delivered != [] && HM_HEADER + messageSize <= |initBuf|
      && delivered[|delivered| - 1] == Message(messageType, initBuf[HM_HEADER..HM_HEADER + messageSize])
    }

    // ---------- the record layer, as seen from here ----------

    /** `ssl_read_bytes`: at most n bytes, never across records; nothing when no record is
        left. Empty records are skipped. */
    method ReadBytes(n: nat) returns (data: seq<byte>)
      requires n > 0
      modifies this`pending, this`network
      ensures |data| <= n
      ensures data + pending == FirstRecord(old(pending), old(network))
      ensures data <= FirstRecord(old(pending), old(network))
      ensures pending != [] ==> |data| == n
      ensures forall r :: r in network ==> r in old(network)
      ensures data == [] ==> network == [] && pending == []
      ensures old(pending) != [] ==> network == old(network)
      ensures Remaining(pending, network) + |data| == Remaining(old(pending), old(network))
      ensures |old(pending)| >= n ==> data == old(pending)[..n] && pending == old(pending)[n..] && network == old(network)
    {
      while pending == [] && network != []
        invariant forall r :: r in network ==> r in old(network)
        invariant FirstRecord(pending, network) == FirstRecord(old(pending), old(network))
        invariant old(pending) != [] ==> pending == old(pending) && network == old(network)
        invariant Remaining(pending, network) == Remaining(old(pending), old(network))
        decreases |network|
      {
        pending := network[0];
        network := network[1..];
      }
      var k := if n < |pending| then n else |pending|;
      data := pending[..k];
      pending := pending[k..];
      assert pending != [] ==> FirstRecord(old(pending), old(network)) == data + pending;
    }

    /** A record comes in behind those already waiting. */
    method Deliver(record: seq<byte>, ghost msgs: seq<Message>)
      requires Valid()
      modifies this`network
      ensures Valid() && Objects() == old(Objects())
      ensures old(Safe(msgs)) && HonestBytes(record, msgs) ==> Safe(msgs)
    {
      hide HonestBytes;
      network := network + [record];
    }

    /** The loops that read into `devnull`, 256 bytes at a time. */
    method Discard(n: nat) returns (ok: bool)
      modifies this`pending, this`network
      ensures forall r :: r in network ==> r in old(network)
      ensures n <= |old(pending)| ==> ok && pending == old(pending)[n..] && network == old(network)
      ensures Remaining(pending, network) <= Remaining(old(pending), old(network))
    {
      var fragLen := n;
      ghost var start, net := pending, network;
      while fragLen > 0
        invariant 0 <= fragLen <= n
        invariant forall r :: r in network ==> r in net
        invariant n <= |start| ==> pending == start[n - fragLen..] && network == net
        invariant Remaining(pending, network) <= Remaining(start, net)
        decreases fragLen
      {
        ghost var before := pending;
        var i := ReadBytes(if fragLen > 256 then 256 else fragLen);
        if i == [] {
          assert n <= |start| ==> before != [];
          return false;
        }
        fragLen := fragLen - |i|;
      }
      ok := true;
    }

    // ---------- buffering ----------

    /** The input is at the body of an honest fragment with header h. */
    ghost predicate AtBody(h: Header, msgs: seq<Message>)
      requires Valid()
      reads this, Objects()
    {
      SafeBehind(msgs) && HonestBody(h, pending, msgs) && HonestBytes(pending[h.fragLen..], msgs)
    }

    /** Reads the body of a fragment. An honest one is all there, and leaves the input at the
        next honest header. */
    method ReadBody(h: Header, ghost honest: bool, ghost msgs: seq<Message>) returns (data: seq<byte>)
      requires Valid() && (honest ==> AtBody(h, msgs))
      modifies this`pending, this`network
      ensures Valid() && Objects() == old(Objects()) && |data| <= h.fragLen
      ensures |data| == h.fragLen <==> h.fragLen <= |FirstRecord(old(pending), old(network))|
      ensures |data| == h.fragLen ==> data == FirstRecord(old(pending), old(network))[..h.fragLen]
      ensures honest ==> Safe(msgs) && data == msgs[h.seqNum].body[h.fragOff..h.fragOff + h.fragLen]
      ensures Remaining(pending, network) <= Remaining(old(pending), old(network))
    {
      hide HonestBytes;
      hide Remaining;
      data := [];
      if h.fragLen > 0 {
        data := ReadBytes(h.fragLen);
      }
    }

    /** `pqueue_insert`, which a key already in the queue would make fail. */
    method Insert(frag: HmFragment, ghost msgs: seq<Message>)
      requires Valid() && frag in frag.Repr && frag.Valid() && frag.hdr.seqNum <= handshakeReadSeq + 10
      requires frag.hdr.seqNum !in buffered && this !in frag.Repr && frag.Repr !! Objects()
      modifies this`buffered
      ensures Valid() && Objects() == old(Objects()) + frag.Repr
      ensures buffered == old(buffered)[frag.hdr.seqNum := frag]
      ensures old(Safe(msgs)) && frag.Matches(msgs) ==> Safe(msgs)
    {
      hide HonestBytes;
      ObjectsInsert(buffered, frag.hdr.seqNum, frag);
      QueueInsert(buffered, |delivered| + 10, frag);
      if Safe(msgs) && frag.Matches(msgs) {
        QueueInsertMatches(buffered, |delivered| + 10, frag, msgs);
      }
      hide ObjectsOf;
      hide QueueValid;
      hide QueueMatches;
      buffered := buffered[frag.hdr.seqNum := frag];
    }

    /** The first fragment of a message: a new queue entry, inserted only once its bytes have
        been read. The queue cannot already hold its key. */
    method StartReassembly(h: Header, ghost honest: bool, ghost msgs: seq<Message>) returns (r: Outcome)
      requires Valid() && h.seqNum <= handshakeReadSeq + 10 && h.seqNum !in buffered
      requires h.fragOff + h.fragLen <= h.msgLen && h.fragLen > 0
      requires honest ==> AtBody(h, msgs)
      modifies this`pending, this`network, this`buffered
      ensures Valid() && fresh(Objects() - old(Objects()))
      ensures r == Retry || r == Failed
      ensures r == Retry <==> h.fragLen <= |FirstRecord(old(pending), old(network))|
      ensures r == Failed ==> buffered == old(buffered)
      ensures r == Retry ==>
        && h.seqNum in buffered && buffered == old(buffered)[h.seqNum := buffered[h.seqNum]]
        && buffered[h.seqNum].Holds(h, FirstRecord(old(pending), old(network))[..h.fragLen])
      ensures honest && r == Retry ==> Safe(msgs)
      ensures Remaining(pending, network) <= Remaining(old(pending), old(network))
    {
      hide HonestBytes;
      hide Remaining;
      hide HmFragment.Holds;
      hide HmFragment.Matches;
      hide HmFragment.Has;
      hide FirstRecord;
      var data := ReadBody(h, honest, msgs);
      if |data| != h.fragLen {
        return Failed;
      }
      var frag := NewPartial(h, data, honest, msgs);
      Insert(frag, msgs);
      r := Retry;
    }

    /** A further fragment of a message that is still incomplete. */
    method ContinueReassembly(h: Header, frag: HmFragment, ghost honest: bool, ghost msgs: seq<Message>)
      returns (r: Outcome)
      requires Valid() && h.seqNum in buffered && buffered[h.seqNum] == frag
      requires frag.reassembly != null && frag.hdr.msgLen == h.msgLen
      requires h.fragOff + h.fragLen <= h.msgLen && h.fragLen > 0
      requires honest ==> AtBody(h, msgs)
      modifies this`pending, this`network, frag.Repr
      ensures Valid() && Objects() == old(Objects())
      ensures r == Retry || r == Failed
      ensures honest && r == Retry ==> Safe(msgs)
      ensures Remaining(pending, network) <= Remaining(old(pending), old(network))
    {
      hide HonestBytes;
      hide Remaining;
      hide HmFragment.Matches;
      hide HmFragment.Has;
      hide HmFragment.Complete;
      hide FirstRecord;
      var data := ReadBody(h, honest, msgs);
      if |data| != h.fragLen {
        frag.CopyInto(h.fragOff, data);
        return Failed;
      }
      frag.Add(h.fragOff, data, msgs);
      r := Retry;
    }

    /** `dtls1_reassemble_fragment` */
    method ReassembleFragment(h: Header, ghost honest: bool, ghost msgs: seq<Message>) returns (r: Outcome)
      requires Valid() && h.seqNum <= handshakeReadSeq + 10
      requires honest ==> AtBody(h, msgs)
      modifies this`pending, this`network, this`buffered, Objects()
      ensures Valid() && fresh(Objects() - old(Objects()))
      ensures r == Retry || r == Failed
      ensures honest && r == Retry ==> Safe(msgs)
      ensures Grown(old(buffered), buffered, h.seqNum)
      ensures r == Retry && h.fragLen > 0 ==> h.seqNum in buffered
      ensures Remaining(pending, network) <= Remaining(old(pending), old(network))
    {
      if h.fragOff + h.fragLen > h.msgLen || h.msgLen > maxMessage {
        return Failed;
      }
      if h.fragLen == 0 {
        return Retry;
      }
      if h.seqNum !in buffered {
        r := StartReassembly(h, honest, msgs);
        return;
      }
      var frag := buffered[h.seqNum];
      if frag.hdr.msgLen != h.msgLen {
        return Failed;
      }
      if frag.reassembly == null {
        var ok := Discard(h.fragLen);
        return if ok then Retry else Failed;
      }
      r := ContinueReassembly(h, frag, honest, msgs);
    }

    /** The queue `was` gained an entry: the whole message, from the first bytes of p. */
    ghost predicate HoldsWhole(h: Header, was: map<nat, HmFragment>, p: seq<byte>)
      reads this, Objects()
      requires Valid()
    {
      && h.seqNum in buffered && h.seqNum !in was && buffered == was[h.seqNum := buffered[h.seqNum]]
      && buffered[h.seqNum].hdr == h && buffered[h.seqNum].reassembly == null
      && h.fragLen <= |p| && buffered[h.seqNum].fragment[..] == p[..h.fragLen]
    }

    /** A message that is not due and is read and dropped */
    predicate Dropped(h: Header)
      reads this
    {
      || h.seqNum <= handshakeReadSeq || h.seqNum > handshakeReadSeq + 10
      || (h.seqNum in buffered && h.fragLen == h.msgLen)
      || (handshakeReadSeq == 0 && h.msgType == FINISHED)
    }

    /** An unfragmented message that is not yet due. */
    method BufferWhole(h: Header, ghost honest: bool, ghost msgs: seq<Message>) returns (r: Outcome)
      requires Valid() && h.seqNum <= handshakeReadSeq + 10 && h.seqNum !in buffered
      requires h.fragOff == 0 && h.fragLen == h.msgLen
      requires honest ==> AtBody(h, msgs)
      modifies this`pending, this`network, this`buffered
      ensures Valid() && fresh(Objects() - old(Objects()))
      ensures r == Retry || r == Failed
      ensures r == Failed ==> buffered == old(buffered)
      ensures r == Retry ==> HoldsWhole(h, old(buffered), FirstRecord(old(pending), old(network)))
      ensures honest && r == Retry ==> Safe(msgs)
      ensures Remaining(pending, network) <= Remaining(old(pending), old(network))
    {
      hide HonestBytes;
      hide Remaining;
      var data := ReadBody(h, honest, msgs);
      if |data| != h.fragLen {
        return Failed;
      }
      var frag := NewWhole(h, data, honest, msgs);
      Insert(frag, msgs);
      r := Retry;
    }

    /** `dtls1_process_out_of_seq_message`: drops the body of a message that is old, too far ahead,
        already there or a stale Finished; keeps any other, whole or for reassembly. */
    method ProcessOutOfSeq(h: Header, ghost honest: bool, ghost msgs: seq<Message>) returns (r: Outcome)
      requires Valid()
      requires honest ==> AtBody(h, msgs)
      modifies this`pending, this`network, this`buffered, Objects()
      ensures Valid() && fresh(Objects() - old(Objects()))
      ensures r == Retry || r == Failed
      ensures h.fragOff + h.fragLen > h.msgLen ==> r == Failed
      ensures Grown(old(buffered), buffered, h.seqNum)
      ensures r == Retry && old(Dropped(h)) ==> buffered == old(buffered)
      ensures r == Retry && !old(Dropped(h)) && h.fragLen == h.msgLen ==>
        HoldsWhole(h, old(buffered), FirstRecord(old(pending), old(network)))
      ensures r == Retry && !old(Dropped(h)) && 0 < h.fragLen ==> h.seqNum in buffered
      ensures honest && r == Retry ==> Safe(msgs)
      ensures Remaining(pending, network) <= Remaining(old(pending), old(network))
    {
      if h.fragOff + h.fragLen > h.msgLen {
        return Failed;
      }
      var item := h.seqNum in buffered;
      if item && h.fragLen != h.msgLen {
        item := false;
      }
      if h.seqNum <= handshakeReadSeq || h.seqNum > handshakeReadSeq + 10 || item ||
         (handshakeReadSeq == 0 && h.msgType == FINISHED) {
        var ok := Discard(h.fragLen);
        r := if ok then Retry else Failed;
      } else if h.fragLen != h.msgLen {
        r := ReassembleFragment(h, honest, msgs);
      } else if h.fragLen > maxMessage {
        r := Failed;
      } else {
        r := BufferWhole(h, honest, msgs);
      }
    }

    // ---------- handing up ----------

    /** `dtls1_preprocess_fragment`: checks the lengths and makes room. */
    method Preprocess(h: Header, max: nat) returns (ok: bool)
      modifies this`initBuf, this`rMsgHdr, this`messageType, this`messageSize
      ensures ok && old(rMsgHdr.fragOff) == 0 ==> messageType == h.msgType && messageSize == h.msgLen
      ensures ok ==> h.fragOff + h.fragLen <= h.msgLen && h.fragOff + h.fragLen <= max
      ensures old(rMsgHdr.fragOff) == 0 && h.fragOff + h.fragLen <= h.msgLen && h.fragOff + h.fragLen <= max ==> ok
      ensures ok && old(rMsgHdr.fragOff) == 0 ==>
        && rMsgHdr == Header(h.msgType, h.msgLen, h.seqNum, 0, old(rMsgHdr.fragLen))
        && |initBuf| >= HM_HEADER + h.msgLen
      ensures !ok ==> initBuf == old(initBuf)
      ensures rMsgHdr.fragOff == old(rMsgHdr.fragOff)
    {
      if h.fragOff + h.fragLen > h.msgLen || h.fragOff + h.fragLen > max {
        return false;
      }
      if rMsgHdr.fragOff == 0 {
        if |initBuf| < HM_HEADER + h.msgLen {
          initBuf := initBuf + seq(HM_HEADER + h.msgLen - |initBuf|, _ => 0);
        }
        rMsgHdr := rMsgHdr.(msgType := h.msgType, msgLen := h.msgLen, seqNum := h.seqNum);
        messageType, messageSize := h.msgType, h.msgLen;
      } else if h.msgLen != rMsgHdr.msgLen {
        return false;
      }
      ok := true;
    }

    /** Bytes copied behind the message header. */
    method WriteBody(off: nat, data: seq<byte>)
      requires HM_HEADER + off + |data| <= |initBuf|
      modifies this`initBuf
      ensures |initBuf| == |old(initBuf)|
      ensures initBuf[HM_HEADER + off..HM_HEADER + off + |data|] == data
    {
      initBuf := initBuf[..HM_HEADER + off] + data + initBuf[HM_HEADER + off + |data|..];
    }

    /** The next message is in the buffer, its first n bytes of body filled in. */
    ghost predicate Ready(n: nat)
      reads this
    {
      && rMsgHdr.fragOff == 0 && initNum == n && HM_HEADER + n <= HM_HEADER + rMsgHdr.msgLen <= |initBuf|
      && messageType == rMsgHdr.msgType && messageSize == rMsgHdr.msgLen
    }

    /** It is the message that is due. */
    ghost predicate ReadyIsNext(n: nat, msgs: seq<Message>)
      requires Ready(n)
      reads this
    {
      && handshakeReadSeq < |msgs|
      && n == rMsgHdr.msgLen && rMsgHdr.msgType == msgs[handshakeReadSeq].msgType
      && rMsgHdr.seqNum == handshakeReadSeq
      && initBuf[HM_HEADER..HM_HEADER + n] == msgs[handshakeReadSeq].body
    }

    /** `dtls1_retrieve_buffered_fragment`: looks at the entry with the least sequence number
        only. `found` is false when there is nothing to hand up. */
    method RetrieveBuffered(max: nat, ghost honest: bool, ghost msgs: seq<Message>) returns (found: bool, r: Outcome)
      requires Valid() && rMsgHdr.fragOff == 0
      requires honest ==> Safe(msgs)
      modifies this`buffered, this`initBuf, this`initNum, this`rMsgHdr, this`messageType, this`messageSize
      ensures Valid() && Objects() <= old(Objects()) && rMsgHdr.fragOff == 0
      ensures !found ==> buffered == old(buffered) && (honest ==> Safe(msgs))
      ensures old(NothingDue()) ==> !found
      ensures found ==> r == Failed || (r.Got? && Ready(r.length) && (honest ==> Safe(msgs) && ReadyIsNext(r.length, msgs)))
    {
      hide HonestBytes;
      hide QueueValid;
      hide QueueMatches;
      found, r := false, Retry;
      var frag := TakeDue(honest, msgs);
      if frag != null {
        found := true;
        r := HandUpEntry(frag, max);
      }
    }

    /** The queue's head is not complete, or not due. */
    ghost predicate NothingDue()
      reads this, buffered.Values
    {
      handshakeReadSeq in buffered && (forall s :: s in buffered ==> handshakeReadSeq <= s) ==>
        buffered[handshakeReadSeq].reassembly != null
    }

    /** The queue's head, removed, if it is complete and due. */
    method TakeDue(ghost honest: bool, ghost msgs: seq<Message>) returns (frag: HmFragment?)
      requires Valid() && (honest ==> Safe(msgs))
      modifies this`buffered
      ensures Valid() && Objects() <= old(Objects()) && (honest ==> Safe(msgs))
      ensures frag == null ==> buffered == old(buffered)
      ensures frag == null <==> old(NothingDue())
      ensures frag != null ==>
        && frag in frag.Repr && frag.Valid() && frag.reassembly == null && frag.hdr.seqNum == handshakeReadSeq
        && (honest ==> handshakeReadSeq < |msgs|)
        && (honest ==> Message(frag.hdr.msgType, frag.fragment[..]) == msgs[handshakeReadSeq])
    {
      hide HonestBytes;
      if |buffered| == 0 {
        return null;
      }
      var item := Peek();
      frag := buffered[item];
      if frag.reassembly != null {
        return null;
      }
      if handshakeReadSeq != frag.hdr.seqNum {
        return null;
      }
      if honest {
        WholeEntry(frag, msgs);
      }
      Pop(item, msgs);
    }

    /** Copies a complete entry into the message buffer. */
    method HandUpEntry(frag: HmFragment, max: nat) returns (r: Outcome)
      requires frag in frag.Repr && frag.Valid() && frag.reassembly == null && rMsgHdr.fragOff == 0
      modifies this`initBuf, this`initNum, this`rMsgHdr, this`messageType, this`messageSize
      ensures rMsgHdr.fragOff == 0
      ensures r != Failed ==>
        && r == Got(frag.hdr.msgLen) && Ready(frag.hdr.msgLen)
        && rMsgHdr == Header(frag.hdr.msgType, frag.hdr.msgLen, frag.hdr.seqNum, 0, old(rMsgHdr.fragLen))
        && initBuf[HM_HEADER..HM_HEADER + frag.hdr.msgLen] == frag.fragment[..]
    {
      var ok := Preprocess(frag.hdr, max);
      if !ok {
        return Failed;
      }
      WriteBody(frag.hdr.fragOff, frag.fragment[..frag.hdr.fragLen]);
      initNum := frag.hdr.fragLen;
      r := Got(frag.hdr.fragLen);
    }

    /** `pqueue_peek` */
    method Peek() returns (item: nat)
      requires Valid() && |buffered| > 0
      ensures item in buffered && forall s :: s in buffered ==> item <= s
    {
      var keys := buffered.Keys;
      item :| item in keys;
      var rest := keys - {item};
      while rest != {}
        invariant rest <= keys && item in keys
        invariant forall s :: s in keys ==> s in rest || item <= s
        decreases rest
      {
        var s :| s in rest;
        if s < item {
          item := s;
        }
        rest := rest - {s};
      }
    }

    /** `pqueue_pop` */
    method Pop(item: nat, ghost msgs: seq<Message>)
      requires Valid() && item in buffered
      modifies this`buffered
      ensures Valid() && Objects() <= old(Objects()) && buffered == old(buffered) - {item}
      ensures old(Safe(msgs)) ==> Safe(msgs)
    {
      hide HonestBytes;
      QueueRemove(buffered, |delivered| + 10, item);
      if Safe(msgs) {
        QueueRemoveMatches(buffered, |delivered| + 10, item, msgs);
      }
      hide ObjectsOf;
      hide QueueValid;
      hide QueueMatches;
      buffered := buffered - {item};
    }

    /** Reads a header. An honest one is followed by its body. */
    method ReadHeader(ghost honest: bool, ghost msgs: seq<Message>) returns (r: Outcome, wire: seq<byte>)
      requires Valid() && (honest ==> Safe(msgs))
      modifies this`pending, this`network
      ensures Valid() && Objects() == old(Objects())
      ensures r in {Retry, Blocked, Failed} && (r == Retry ==> |wire| == HM_HEADER)
      ensures r == Retry && honest ==> AtBody(Parse(wire), msgs)
      ensures r == Blocked && honest ==> Safe(msgs)
      ensures var p := FirstRecord(old(pending), old(network));
        |p| >= HM_HEADER ==> r == Retry && wire == p[..HM_HEADER]
      ensures r == Retry ==> Remaining(pending, network) < Remaining(old(pending), old(network))
      ensures Remaining(pending, network) <= Remaining(old(pending), old(network))
    {
      hide QueueMatches;
      hide QueueValid;
      hide Remaining;
      hide Parse;
      if honest {
        FirstIsHonest(pending, network, msgs);
      }
      hide HonestBytes;
      hide FirstRecord;
      wire := ReadBytes(HM_HEADER);
      if |wire| == 0 {
        r := Blocked;
      } else if |wire| != HM_HEADER {
        r := Failed;
      } else {
        r := Retry;
        if honest {
          HeaderThenBody(wire, pending, msgs);
        }
      }
    }

    /** An in-sequence fragment that is the whole message: read into the message buffer. */
    method ReadDirect(h: Header, max: nat, ghost honest: bool, ghost msgs: seq<Message>) returns (r: Outcome)
      requires Valid() && rMsgHdr.fragOff == 0 && h.seqNum == handshakeReadSeq
      requires honest ==> AtBody(h, msgs) && h.fragLen == h.msgLen
      modifies this`pending, this`network, this`initBuf, this`initNum, this`rMsgHdr, this`messageType, this`messageSize
      ensures Valid() && Objects() == old(Objects()) && rMsgHdr.fragOff == 0
      ensures r == Failed || r == Got(h.fragLen)
      ensures r.Got? ==> Ready(r.length) && (honest ==> Safe(msgs) && ReadyIsNext(r.length, msgs))
      ensures h.fragLen == 0 && h.fragOff <= h.msgLen && h.fragOff <= max ==> r == Got(0)
      ensures Remaining(pending, network) <= Remaining(old(pending), old(network))
    {
      hide HonestBytes;
      hide Remaining;
      hide QueueMatches;
      hide QueueValid;
      var ok := Preprocess(h, max);
      if !ok {
        return Failed;
      }
      var data := ReadBody(h, honest, msgs);
      if |data| != h.fragLen {
        return Failed;
      }
      WriteBody(h.fragOff, data);
      initNum := h.fragLen;
      r := Got(h.fragLen);
    }

    /** The next thing to be read is the header h of an empty fragment of the message that is
        due, and the queue's head is not. */
    ghost predicate AtEmptyFragment(h: Header, max: nat)
      reads this, buffered.Values
    {
      var p := FirstRecord(pending, network);
      && NothingDue() && |p| >= HM_HEADER && p[..HM_HEADER] == Encode(h) && FitsWire(h)
      && h.seqNum == handshakeReadSeq && h.fragLen == 0 && h.fragOff <= h.msgLen && h.fragOff <= max
      && (isServer || h.msgType != HELLO_REQUEST)
    }

    /** `dtls1_get_message_fragment`; the jump back to its start for an ignored HelloRequest
        is reported as Retry, which leads there too. */
    method GetMessageFragment(max: nat, ghost honest: bool, ghost msgs: seq<Message>, ghost h0: Header) returns (r: Outcome)
      requires Valid() && rMsgHdr.fragOff == 0 && (honest ==> Safe(msgs))
      modifies this`pending, this`network, this`buffered, this`initBuf, this`initNum, this`rMsgHdr, this`messageType, this`messageSize
      modifies Objects()
      ensures Valid() && fresh(Objects() - old(Objects())) && rMsgHdr.fragOff == 0
      ensures r.Got? ==> Ready(r.length) && (honest ==> ReadyIsNext(r.length, msgs))
      ensures honest && r != Failed ==> Safe(msgs)
      ensures old(AtEmptyFragment(h0, max)) ==> r == Got(0)
      ensures r == Retry ==> Remaining(pending, network) < Remaining(old(pending), old(network))
    {
      ParseEncodeIf(h0);
      hide HonestBytes;
      hide Encode;
      hide Parse;
      hide Remaining;
      hide QueueMatches;
      hide QueueValid;
      var found, wire;
      found, r := RetrieveBuffered(max, honest, msgs);
      if found {
        return;
      }
      r, wire := ReadHeader(honest, msgs);
      if r != Retry {
        return;
      }
      var h := Parse(wire);
      if h.seqNum != handshakeReadSeq {
        r := ProcessOutOfSeq(h, honest, msgs);
        return;
      }
      if h.fragLen > 0 && h.fragLen < h.msgLen {
        r := ReassembleFragment(h, honest, msgs);
        return;
      }
      if !isServer && rMsgHdr.fragOff == 0 && wire[0] == HELLO_REQUEST {
        TypeIsFirst(wire);
        if wire[1] == 0 && wire[2] == 0 && wire[3] == 0 {
          initNum := 0;
          return Retry;
        }
        return Failed;
      }
      r := ReadDirect(h, max, honest, msgs);
    }

    /** A caller sets the message aside for the next one: it was an optional message's successor. */
    method Keep()
      requires Valid() && HoldsLast()
      modifies this`reuseMessage
      ensures Valid() && Objects() == old(Objects()) && reuseMessage && HoldsLast()
    {
      reuseMessage := true;
    }

    /** `dtls1_get_message`: a message kept from before is handed up again, if it is of the type asked
        for (-1: any); otherwise loops until a message is handed up, no input is left, or the
        handshake fails. From an honest sender, what is handed up then is the next message,
        complete, and what is hashed is its unfragmented form. */
    method GetMessage(max: nat, mt: int, ghost honest: bool, ghost msgs: seq<Message>, ghost h0: Header) returns (r: Outcome)
      requires Valid() && (honest ==> Safe(msgs)) && (reuseMessage ==> HoldsLast())
      modifies this, Objects()
      ensures Valid() && fresh(Objects() - old(Objects())) && !reuseMessage
      ensures r in {Blocked, Failed} || r.Got?
      ensures honest && r != Failed ==> Safe(msgs)
      ensures old(!reuseMessage && AtEmptyFragment(h0, max)) ==> r == Got(0)
      ensures !r.Got? || old(reuseMessage) ==> delivered == old(delivered) && hashed == old(hashed)
      ensures old(reuseMessage) ==>
        && r == (if mt >= 0 && old(messageType) as int != mt then Failed else Got(old(messageSize)))
        && pending == old(pending) && network == old(network) && HoldsLast()
      ensures r.Got? ==> |initBuf| >= HM_HEADER + r.length
      ensures r.Got? && !old(reuseMessage) ==>
        delivered == old(delivered) + [Message(rMsgHdr.msgType, initBuf[HM_HEADER..HM_HEADER + r.length])]
      ensures r.Got? && honest ==> HoldsLast() && r.length == messageSize
      ensures r.Got? && honest && !old(reuseMessage) ==>
        var k := |old(delivered)|;
        && k < |msgs| && r.length == |msgs[k].body|
        && delivered == old(delivered) + [msgs[k]]
        && hashed == old(hashed) + Encode(WholeHeader(msgs[k], k)) + msgs[k].body
    {
      if reuseMessage {
        r := GetKept(mt, honest, msgs);
      } else {
        r := GetNew(max, honest, msgs, h0);
      }
    }

    /** The message kept from before */
    method GetKept(mt: int, ghost honest: bool, ghost msgs: seq<Message>) returns (r: Outcome)
      requires Valid() && (honest ==> Safe(msgs)) && reuseMessage && HoldsLast()
      modifies this`reuseMessage, this`initNum
      ensures Valid() && Objects() == old(Objects()) && !reuseMessage && HoldsLast() && (honest ==> Safe(msgs))
      ensures r == (if mt >= 0 && messageType as int != mt then Failed else Got(messageSize))
    {
      hide HonestBytes;
      hide QueueMatches;
      hide QueueValid;
      reuseMessage := false;
      if mt >= 0 && messageType as int != mt {
        return Failed;
      }
      initNum := messageSize;
      r := Got(messageSize);
    }

    /** The next message */
    method GetNew(max: nat, ghost honest: bool, ghost msgs: seq<Message>, ghost h0: Header) returns (r: Outcome)
      requires Valid() && (honest ==> Safe(msgs)) && !reuseMessage
      modifies this, Objects()
      ensures Valid() && fresh(Objects() - old(Objects())) && !reuseMessage
      ensures r in {Blocked, Failed} || r.Got?
      ensures honest && r != Failed ==> Safe(msgs)
      ensures old(AtEmptyFragment(h0, max)) ==> r == Got(0)
      ensures !r.Got? ==> delivered == old(delivered) && hashed == old(hashed)
      ensures r.Got? ==> |initBuf| >= HM_HEADER + r.length
                         && delivered == old(delivered) + [Message(rMsgHdr.msgType, initBuf[HM_HEADER..HM_HEADER + r.length])]
      ensures r.Got? && honest ==> HoldsLast() && r.length == messageSize
      ensures r.Got? && honest ==>
        var k := |old(delivered)|;
        && k < |msgs| && r.length == |msgs[k].body|
        && delivered == old(delivered) + [msgs[k]]
        && hashed == old(hashed) + Encode(WholeHeader(msgs[k], k)) + msgs[k].body
    {
      hide HonestBytes;
      hide QueueMatches;
      hide QueueValid;
      rMsgHdr := Header(0, 0, 0, 0, 0);
      r := Retry;
      while r == Retry
        invariant Valid() && rMsgHdr.fragOff == 0 && fresh(Objects() - old(Objects())) && !reuseMessage
        invariant honest && r != Failed ==> Safe(msgs)
        invariant r.Got? ==> Ready(r.length) && (honest ==> ReadyIsNext(r.length, msgs))
        invariant delivered == old(delivered) && hashed == old(hashed)
        invariant old(AtEmptyFragment(h0, max)) ==> r == Got(0) || (r == Retry && AtEmptyFragment(h0, max))
        decreases if r == Retry then 1 else 0, Remaining(pending, network)
      {
        r := GetMessageFragment(max, honest, msgs, h0);
      }
      if r.Got? {
        FinishMessage(r.length, honest, msgs);
      }
    }

    /** The message header is rebuilt without fragmentation, hashed with the body, and the
        sequence number advances. */
    method FinishMessage(n: nat, ghost honest: bool, ghost msgs: seq<Message>)
      requires Valid() && Ready(n) && (honest ==> Safe(msgs) && ReadyIsNext(n, msgs))
      modifies this`initBuf, this`hashed, this`handshakeReadSeq, this`delivered
      ensures Valid() && Objects() == old(Objects()) && (honest ==> Safe(msgs))
      ensures |initBuf| >= HM_HEADER + n
      ensures delivered == old(delivered) + [Message(rMsgHdr.msgType, initBuf[HM_HEADER..HM_HEADER + n])]
      ensures honest ==> HoldsLast() && n == messageSize
      ensures honest ==>
        var k := |old(delivered)|;
        && k < |msgs| && n == |msgs[k].body| && delivered == old(delivered) + [msgs[k]]
        && hashed == old(hashed) + Encode(WholeHeader(msgs[k], k)) + msgs[k].body
    {
      hide HonestBytes;
      hide Encode;
      hide QueueMatches;
      hide QueueValid;
      ghost var body := initBuf[HM_HEADER..HM_HEADER + n];
      RebuildHeader(n);
      Advance(Message(rMsgHdr.msgType, body), msgs);
    }

    /** `reconstruct message header`, and `ssl3_finish_mac` over header and msg_len bytes. */
    method RebuildHeader(n: nat)
      requires Ready(n)
      modifies this`initBuf, this`hashed
      ensures Ready(n) && initBuf[HM_HEADER..] == old(initBuf[HM_HEADER..])
      ensures initBuf[HM_HEADER..HM_HEADER + n] == old(initBuf[HM_HEADER..HM_HEADER + n])
      ensures hashed == old(hashed)
        + Encode(Header(rMsgHdr.msgType, rMsgHdr.msgLen, rMsgHdr.seqNum, 0, rMsgHdr.msgLen))
        + old(initBuf[HM_HEADER..HM_HEADER + rMsgHdr.msgLen])
    {
      hide Encode;
      var whole := Encode(Header(rMsgHdr.msgType, rMsgHdr.msgLen, rMsgHdr.seqNum, 0, rMsgHdr.msgLen));
      initBuf := whole + initBuf[HM_HEADER..];
      assert initBuf[..HM_HEADER + rMsgHdr.msgLen] == whole + old(initBuf[HM_HEADER..HM_HEADER + rMsgHdr.msgLen]);
      hashed := hashed + initBuf[..HM_HEADER + rMsgHdr.msgLen];
    }

    /** `handshake_read_seq++` */
    method Advance(ghost m: Message, ghost msgs: seq<Message>)
      requires Valid()
      modifies this`handshakeReadSeq, this`delivered
      ensures Valid() && Objects() == old(Objects()) && delivered == old(delivered) + [m]
      ensures old(Safe(msgs)) && |old(delivered)| < |msgs| && m == msgs[|old(delivered)|] ==> Safe(msgs)
    {
      hide HonestBytes;
      NextLimit(buffered, |delivered| + 10, msgs);
      hide QueueMatches;
      hide QueueValid;
      hide ObjectsOf;
      delivered := delivered + [m];
      handshakeReadSeq := (handshakeReadSeq + 1) % 0x1_0000;
    }
  }

  lemma {:induction false} FirstIsHonest(pending: seq<byte>, network: seq<seq<byte>>, msgs: seq<Message>)
    requires HonestBytes(pending, msgs) && forall r :: r in network ==> HonestBytes(r, msgs)
    ensures HonestBytes(FirstRecord(pending, network), msgs)
    decreases |network|
  {
    if pending == [] && network != [] {
      FirstIsHonest(network[0], network[1..], msgs);
    }
  }

  lemma ParseEncodeIf(h: Header)
    ensures FitsWire(h) ==> Parse(Encode(h)) == h
  {
    if FitsWire(h) {
      ParseEncode(h);
    }
  }

  lemma TypeIsFirst(wire: seq<byte>)
    requires |wire| == HM_HEADER
    ensures Parse(wire).msgType == wire[0]
    ensures wire[1] == 0 && wire[2] == 0 && wire[3] == 0 ==> Parse(wire).msgLen == 0
  {
  }

  lemma HeaderThenBody(wire: seq<byte>, rest: seq<byte>, msgs: seq<Message>)
    requires HonestBytes(wire + rest, msgs) && |wire| == HM_HEADER
    ensures HonestBody(Parse(wire), rest, msgs) && HonestBytes(rest[Parse(wire).fragLen..], msgs)
  {
    var p := wire + rest;
    assert p[..HM_HEADER] == wire && p[HM_HEADER..] == rest;
    assert p[HM_HEADER + Parse(wire).fragLen..] == rest[Parse(wire).fragLen..];
  }

  lemma WholeEntry(frag: HmFragment, msgs: seq<Message>)
    requires frag.Valid() && frag.Matches(msgs) && frag.reassembly == null
    ensures frag.fragment[..] == msgs[frag.hdr.seqNum].body
  {
  }

  lemma NextLimit(b: map<nat, HmFragment>, limit: nat, msgs: seq<Message>)
    requires QueueValid(b, limit)
    ensures QueueValid(b, limit + 1)
    ensures QueueMatches(b, limit, msgs) ==> QueueMatches(b, limit + 1, msgs)
  {
  }

  lemma QueueRemove(b: map<nat, HmFragment>, limit: nat, k: nat)
    requires QueueValid(b, limit)
    ensures QueueValid(b - {k}, limit) && ObjectsOf(b - {k}) <= ObjectsOf(b)
  {
  }

  lemma QueueRemoveMatches(b: map<nat, HmFragment>, limit: nat, k: nat, msgs: seq<Message>)
    requires QueueValid(b, limit) && QueueMatches(b, limit, msgs) && QueueValid(b - {k}, limit)
    ensures QueueMatches(b - {k}, limit, msgs)
  {
  }

  /** The number of bytes still to be read. */
  ghost function Remaining(pending: seq<byte>, network: seq<seq<byte>>): nat
    decreases |network|
  {
    |pending| + (if network == [] then 0 else Remaining(network[0], network[1..]))
  }

  /** The record that the next byte comes from. */
  ghost function FirstRecord(pending: seq<byte>, network: seq<seq<byte>>): seq<byte>
    decreases |network|
  {
    if pending != [] || network == [] then pending else FirstRecord(network[0], network[1..])
  }

  // ---------- why empty fragments are excluded ----------

  /** An empty fragment of a message that is due is taken for the whole message: an empty body
      is handed up, whatever the message's length. So the restriction on empty fragments in
      HonestHeader is exactly what delivery safety needs. */
  method EmptyFragmentIsHandedUp(receiver: Receiver, h: Header, max: nat, ghost msgs: seq<Message>) returns (up: seq<byte>)
    requires receiver.Valid() && !receiver.reuseMessage && receiver.AtEmptyFragment(h, max)
    requires |receiver.delivered| < |msgs| && h.msgLen == |msgs[|receiver.delivered|].body|
    modifies receiver, receiver.Objects()
    ensures up == [] && |receiver.delivered| == |old(receiver.delivered)| + 1
    ensures receiver.delivered[|old(receiver.delivered)|].body == msgs[|old(receiver.delivered)|].body <==> h.msgLen == 0
  {
    var r := receiver.GetMessage(max, -1, false, msgs, h);
    up := receiver.initBuf[HM_HEADER..HM_HEADER + r.length];
  }

  // ---------- whole runs ----------

  /** What happens to a receiver: the network delivers some record, or the handshake asks for a
      message of at most `max` bytes, of type mt or of any (-1), and may keep it for the next time. */
  datatype Event = Arrive(record: seq<byte>) | Ask(max: nat, mt: int, keep: bool)

  /** What a call hands up: a new message, or the kept one again */
  datatype Handed = Handed(message: Message, again: bool)

  /** The messages that are not handed up again */
  function News(s: seq<Handed>): seq<Message>
  {
    if s == [] then [] else News(s[..|s| - 1]) + (if s[|s| - 1].again then [] else [s[|s| - 1].message])
  }

  /** What is handed up again is what was handed up just before. */
  ghost predicate AgainIsLast(s: seq<Handed>)
  {
    forall i :: 0 <= i < |s| && s[i].again ==> i > 0 && s[i].message == s[i - 1].message
  }

  /** `all` is `handedUp`, but for messages that are handed up again. */
  ghost predicate Told(all: seq<Handed>, handedUp: seq<Message>)
  {
    && News(all) == handedUp && AgainIsLast(all)
    && (if all == [] then handedUp == [] else handedUp != [] && all[|all| - 1].message == handedUp[|handedUp| - 1])
  }

  lemma ToldMore(all: seq<Handed>, handedUp: seq<Message>, h: Handed)
    requires Told(all, handedUp)
    requires h.again ==> handedUp != [] && h.message == handedUp[|handedUp| - 1]
    ensures Told(all + [h], handedUp + if h.again then [] else [h.message])
  {
    assert (all + [h])[..|all|] == all;
  }

  lemma ToldNothing()
    ensures Told([], [])
  {
  }

  lemma ToldGives(all: seq<Handed>, handedUp: seq<Message>)
    requires Told(all, handedUp)
    ensures News(all) == handedUp && AgainIsLast(all)
  {
  }

  /** The bytes of the Finished hash for the first k messages. */
  ghost function Transcript(msgs: seq<Message>, k: nat): seq<byte>
    requires k <= |msgs|
  {
    if k == 0 then [] else Transcript(msgs, k - 1) + Encode(WholeHeader(msgs[k - 1], k - 1)) + msgs[k - 1].body
  }

  /** What is hashed is the transcript of what was handed up. */
  ghost predicate Transcribed(hashed: seq<byte>, delivered: seq<Message>, msgs: seq<Message>)
  {
    delivered <= msgs && hashed == Transcript(msgs, |delivered|)
  }

  method Handle(receiver: Receiver, e: Event, ghost msgs: seq<Message>) returns (failed: bool, up: seq<Handed>)
    requires receiver.Valid() && receiver.Safe(msgs) && (receiver.reuseMessage ==> receiver.HoldsLast())
    requires e.Arrive? ==> HonestBytes(e.record, msgs)
    requires Transcribed(receiver.hashed, receiver.delivered, msgs)
    modifies receiver, receiver.Objects()
    ensures receiver.Valid() && fresh(receiver.Objects() - old(receiver.Objects()))
    ensures !failed ==> receiver.Safe(msgs) && (receiver.reuseMessage ==> receiver.HoldsLast())
    ensures |up| <= 1
    ensures up == [] ==> receiver.delivered == old(receiver.delivered)
    ensures up != [] ==>
      && up[0].again == old(receiver.reuseMessage) && receiver.delivered != []
      && up[0].message == receiver.delivered[|receiver.delivered| - 1]
      && receiver.delivered == old(receiver.delivered) + (if up[0].again then [] else [up[0].message])
    ensures Transcribed(receiver.hashed, receiver.delivered, msgs)
  {
    hide HonestBytes;
    hide QueueValid;
    hide QueueMatches;
    hide Encode;
    failed, up := false, [];
    match e
    case Arrive(record) =>
      receiver.Deliver(record, msgs);
    case Ask(max, mt, keep) =>
      var again := receiver.reuseMessage;
      var r := receiver.GetMessage(max, mt, true, msgs, Header(0, 0, 0, 0, 0));
      failed := r == Failed;
      if r.Got? {
        up := [Handed(Message(receiver.messageType, receiver.initBuf[HM_HEADER..HM_HEADER + r.length]), again)];
        if keep {
          receiver.Keep();
        }
      }
  }

  /** Delivery safety. The records that arrive are any records an honest sender of `msgs` may
      ever have sent, in any order, any number of times, with any lost. What is handed up,
      until the first failure, is a prefix of `msgs`, but for messages that were kept and are handed
      up again; what is hashed is the transcript of that prefix. */
  method Run(events: seq<Event>, isServer: bool, maxMessage: nat, ghost msgs: seq<Message>)
    returns (handedUp: seq<Message>, hashed: seq<byte>, all: seq<Handed>)
    requires |msgs| < 0x1_0000
    requires forall e :: e in events && e.Arrive? ==> HonestBytes(e.record, msgs)
    ensures handedUp <= msgs && hashed == Transcript(msgs, |handedUp|)
    ensures News(all) == handedUp && AgainIsLast(all)
  {
    hide HonestBytes;
    hide QueueValid;
    hide QueueMatches;
    hide Told;
    hide Transcribed;
    NothingTranscribed(msgs);
    ToldNothing();
    var receiver := new Receiver(isServer, maxMessage);
    handedUp, all := [], [];
    var i, failed := 0, false;
    while i < |events| && !failed
      invariant 0 <= i <= |events|
      invariant receiver.Valid() && fresh(receiver) && fresh(receiver.Objects())
      invariant !failed ==> receiver.Safe(msgs) && (receiver.reuseMessage ==> receiver.HoldsLast())
      invariant handedUp == receiver.delivered && Told(all, handedUp)
      invariant Transcribed(receiver.hashed, receiver.delivered, msgs)
    {
      var up;
      failed, up := Handle(receiver, events[i], msgs);
      if up != [] {
        var h := up[0];
        ToldMore(all, handedUp, h);
        all := all + [h];
        handedUp := handedUp + (if h.again then [] else [h.message]);
      }
      i := i + 1;
    }
    hashed := receiver.hashed;
    ToldGives(all, handedUp);
    TranscribedGives(hashed, handedUp, msgs);
  }

  lemma NothingTranscribed(msgs: seq<Message>)
    ensures Transcribed([], [], msgs)
  {
  }

  lemma TranscribedGives(hashed: seq<byte>, delivered: seq<Message>, msgs: seq<Message>)
    requires Transcribed(hashed, delivered, msgs)
    ensures delivered <= msgs && hashed == Transcript(msgs, |delivered|)
  {
  }
}
