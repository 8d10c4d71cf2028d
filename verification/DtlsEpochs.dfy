/**
 Record numbers on the DTLS write side: the handshake loops of ssl/d1_clnt.c and
 ssl/d1_srvr.c, the retransmission queue of ssl/d1_both.c with its saved epochs, and the
 sequence numbers of ssl/d1_pkt.c. No two records of a run leave with the same epoch and
 sequence number (section 4.1 of RFC 6347), until a counter outgrows its field.
 */
module DtlsEpochs {
  import Arith

  const TWO_16: nat := 0x1_0000
  const TWO_48: nat := 0x1_0000_0000_0000
  const TWO_64: nat := 0x1_0000_0000_0000_0000

  /** The number of a record as it stands in its header. */
  datatype RecordNumber = RecordNumber(epoch: nat, sequence: nat)

  /** What `dtls1_buffer_message` saves of a handshake message or a ChangeCipherSpec. */
  datatype SentMessage = SentMessage(seqNum: nat, isCcs: bool, epoch: nat)

  type Queue = map<nat, SentMessage>

  /** The states of `dtls1_connect` and `dtls1_accept`; the A half and the later halves of a
      sending state are told apart by the field `started`. */
  datatype State =
    | Start | Flush | Ok
    // client
    | CwClientHello | CrHelloVerify | CrServerHello | CrCert | CrCertStatus | CrKeyExch | CrCertReq | CrServerDone
    | CwCert | CwKeyExch | CwCertVerify | CwChange | CwFinished | CrSessionTicket | CrFinished
    // server
    | SwHelloRequest | SrClientHello | SwHelloVerify | SwServerHello | SwCert | SwCertStatus | SwKeyExch | SwCertReq
    | SwServerDone | SrCert | SrKeyExch | SrCertVerify | SrFinished | SwSessionTicket | SwChange | SwFinished

  /** What the peer, the application and the network decide in one round of a loop. */
  datatype Choice = Choice(
    built: bool,        // the message, or the key block, could be built
    records: nat,       // how many records the write produced
    done: bool,         // the write, read or flush succeeded
    fatal: bool,        // a failed flush cannot be retried
    keysOk: bool,       // change_cipher_state succeeded
    hit: bool, ticket: bool, cookie: bool, certStatus: bool, skip: bool, request: bool)

  /** One thing that happens to an endpoint between two calls. */
  datatype Event =
    | Advance(choice: Choice)          // one round of the handshake loop
    | Retransmit(writes: seq<nat>)     // a timeout: records per message until a write fails
    | Application(count: nat)          // application data or alerts
    | Renegotiate(byPeer: bool)        // SSL_ST_RENEGOTIATE, or an unexpected hello

  // ---------- record numbers ----------

  /** The records that n writes produce from sequence w on: only 48 bits reach the wire. */
  function Batch(epoch: nat, w: nat, n: nat): (b: seq<RecordNumber>)
    ensures |b| == n
  {
    if n == 0 then [] else Batch(epoch, w, n - 1) + [RecordNumber(epoch, (w + n - 1) % TWO_48)]
  }

  ghost predicate Distinct(s: seq<RecordNumber>)
  {
    forall i, j :: 0 <= i < j < |s| ==> s[i] != s[j]
  }

  /** How many of the records are of an epoch */
  function Count(s: seq<RecordNumber>, epoch: nat): nat
  {
    if s == [] then 0 else Count(s[..|s| - 1], epoch) + (if s[|s| - 1].epoch == epoch then 1 else 0)
  }

  /** No epoch has more records than sequence numbers. */
  ghost predicate EpochsFit(s: seq<RecordNumber>)
  {
    forall epoch: nat :: Count(s, epoch) <= TWO_48
  }

  lemma {:induction false} CountBatch(s: seq<RecordNumber>, epoch: nat, w: nat, n: nat, other: nat)
    ensures Count(s + Batch(epoch, w, n), other) == Count(s, other) + if other == epoch then n else 0
  {
    if n == 0 {
      assert s + Batch(epoch, w, n) == s;
    } else {
      var t := s + Batch(epoch, w, n);
      assert t[..|t| - 1] == s + Batch(epoch, w, n - 1);
      CountBatch(s, epoch, w, n - 1, other);
    }
  }

  lemma {:induction false} CountNone(s: seq<RecordNumber>, epoch: nat, high: nat)
    requires NoneBeyond(s, high) && epoch > high
    ensures Count(s, epoch) == 0
  {
    if s != [] {
      assert s[|s| - 1] in s;
      CountNone(s[..|s| - 1], epoch, high);
    }
  }

  /** A batch that stays within its epoch's numbers, or does not */
  lemma BatchFits(s: seq<RecordNumber>, epoch: nat, w: nat, n: nat)
    requires EpochsFit(s) && Count(s, epoch) == w
    ensures EpochsFit(s + Batch(epoch, w, n)) <==> w + n <= TWO_48
    ensures Count(s + Batch(epoch, w, n), epoch) == w + n
  {
    CountBatch(s, epoch, w, n, epoch);
    forall other: nat ensures Count(s + Batch(epoch, w, n), other) == Count(s, other) + if other == epoch then n else 0 {
      CountBatch(s, epoch, w, n, other);
    }
    hide Count;
  }

  lemma StaysUnfit(s: seq<RecordNumber>, epoch: nat, w: nat, n: nat)
    requires !EpochsFit(s)
    ensures !EpochsFit(s + Batch(epoch, w, n))
  {
    var e: nat :| Count(s, e) > TWO_48;
    CountBatch(s, epoch, w, n, e);
  }

  /** The numbers used in an epoch are exactly those below `count`. */
  ghost predicate UsedExactly(s: seq<RecordNumber>, epoch: nat, count: nat)
  {
    forall q: nat :: RecordNumber(epoch, q) in s <==> q < count
  }

  ghost predicate NoneBeyond(s: seq<RecordNumber>, epoch: nat)
  {
    forall r :: r in s ==> r.epoch <= epoch
  }

  /** Every number of the current epoch below `w`, and of the previous one below `last`, has
      been used once, as long as no sequence number was exhausted. */
  ghost predicate RecordsOk(s: seq<RecordNumber>, epoch: nat, w: nat, last: nat, exhausted: bool)
  {
    if exhausted then !Distinct(s) && !EpochsFit(s)
    else
      && Distinct(s) && EpochsFit(s) && NoneBeyond(s, epoch) && w <= TWO_48 && last <= TWO_48
      && UsedExactly(s, epoch, w) && (epoch > 0 ==> UsedExactly(s, epoch - 1, last))
      && Count(s, epoch) == w && (epoch > 0 ==> Count(s, epoch - 1) == last)
  }

  lemma AppendNext(s: seq<RecordNumber>, epoch: nat, w: nat)
    requires Distinct(s) && UsedExactly(s, epoch, w)
    ensures Distinct(s + [RecordNumber(epoch, w)]) && UsedExactly(s + [RecordNumber(epoch, w)], epoch, w + 1)
  {
    var r := RecordNumber(epoch, w);
    assert r !in s;
    var t := s + [r];
    forall q: nat ensures RecordNumber(epoch, q) in t <==> q < w + 1 {
      assert RecordNumber(epoch, q) in t <==> RecordNumber(epoch, q) in s || q == w;
    }
  }

  /** With all 2^48 numbers used, the next record repeats the first. */
  lemma AppendPastLast(s: seq<RecordNumber>, epoch: nat)
    requires UsedExactly(s, epoch, TWO_48)
    ensures !Distinct(s + [RecordNumber(epoch, 0)])
  {
    var r := RecordNumber(epoch, 0);
    assert r in s;
    var i :| 0 <= i < |s| && s[i] == r;
    var u := s + [r];
    assert u[i] == r && u[|s|] == r;
  }

  lemma StaysSpoilt(s: seq<RecordNumber>, t: seq<RecordNumber>)
    requires !Distinct(s)
    ensures !Distinct(s + t)
  {
    var i, j :| 0 <= i < j < |s| && s[i] == s[j];
    assert (s + t)[i] == (s + t)[j];
  }

  /** n writes in the epoch they are counted for keep the numbers distinct, and use exactly
      the next n, unless they pass 2^48: then a number is used twice. */
  lemma {:induction false} BatchUses(s: seq<RecordNumber>, epoch: nat, w: nat, n: nat)
    requires Distinct(s) && UsedExactly(s, epoch, w) && w <= TWO_48
    ensures w + n <= TWO_48 ==>
      Distinct(s + Batch(epoch, w, n)) && UsedExactly(s + Batch(epoch, w, n), epoch, w + n)
    ensures w + n > TWO_48 ==> !Distinct(s + Batch(epoch, w, n))
  {
    hide Distinct;
    hide UsedExactly;
    if n == 0 {
      assert s + Batch(epoch, w, n) == s;
    } else {
      BatchUses(s, epoch, w, n - 1);
      assert s + Batch(epoch, w, n) == (s + Batch(epoch, w, n - 1)) + [RecordNumber(epoch, (w + n - 1) % TWO_48)];
      hide Batch;
      OneMoreUse(s + Batch(epoch, w, n - 1), epoch, w + n - 1);
    }
  }

  /** The next write, after x numbers were counted off */
  lemma OneMoreUse(s: seq<RecordNumber>, epoch: nat, x: nat)
    requires x <= TWO_48 ==> Distinct(s) && UsedExactly(s, epoch, x)
    requires x > TWO_48 ==> !Distinct(s)
    ensures var t := s + [RecordNumber(epoch, x % TWO_48)];
      if x + 1 <= TWO_48 then Distinct(t) && UsedExactly(t, epoch, x + 1) else !Distinct(t)
  {
    hide Distinct;
    hide UsedExactly;
    if x < TWO_48 {
      AppendNext(s, epoch, x);
    } else if x > TWO_48 {
      StaysSpoilt(s, [RecordNumber(epoch, x % TWO_48)]);
    } else {
      AppendPastLast(s, epoch);
    }
  }

  lemma {:induction false} BatchElsewhere(s: seq<RecordNumber>, epoch: nat, w: nat, n: nat, other: nat, count: nat)
    requires UsedExactly(s, other, count) && other != epoch
    ensures UsedExactly(s + Batch(epoch, w, n), other, count)
  {
    BatchEpoch(epoch, w, n);
    forall q: nat ensures RecordNumber(other, q) in s + Batch(epoch, w, n) <==> q < count {
      assert RecordNumber(other, q) !in Batch(epoch, w, n);
      assert RecordNumber(other, q) in s <==> q < count;
    }
  }

  lemma {:induction false} BatchEpoch(epoch: nat, w: nat, n: nat)
    ensures forall r :: r in Batch(epoch, w, n) ==> r.epoch == epoch
  {
    if n > 0 {
      BatchEpoch(epoch, w, n - 1);
    }
  }

  lemma BatchBeyond(s: seq<RecordNumber>, epoch: nat, w: nat, n: nat, high: nat)
    requires NoneBeyond(s, high) && epoch <= high
    ensures NoneBeyond(s + Batch(epoch, w, n), high)
  {
    BatchEpoch(epoch, w, n);
  }

  ghost predicate Exhausts(w: nat, n: nat)
  {
    n > 0 && w + n > TWO_48
  }

  /** Writing in the current epoch. */
  lemma RecordsAppend(s: seq<RecordNumber>, epoch: nat, w: nat, last: nat, exhausted: bool, n: nat)
    requires RecordsOk(s, epoch, w, last, exhausted) && w < TWO_64
    ensures RecordsOk(s + Batch(epoch, w, n), epoch, (w + n) % TWO_64, last, exhausted || Exhausts(w, n))
  {
    hide Distinct;
    hide UsedExactly;
    hide EpochsFit;
    hide Count;
    hide Batch;
    hide NoneBeyond;
    if exhausted {
      StaysSpoilt(s, Batch(epoch, w, n));
      StaysUnfit(s, epoch, w, n);
    } else {
      BatchUses(s, epoch, w, n);
      BatchBeyond(s, epoch, w, n, epoch);
      BatchFits(s, epoch, w, n);
      if epoch > 0 {
        BatchElsewhere(s, epoch, w, n, epoch - 1, last);
        CountBatch(s, epoch, w, n, epoch - 1);
      }
    }
  }

  /** Writing in the previous epoch, as a retransmission of its messages does. */
  lemma RecordsAppendPrevious(s: seq<RecordNumber>, epoch: nat, w: nat, last: nat, exhausted: bool, n: nat)
    requires epoch > 0 && RecordsOk(s, epoch, w, last, exhausted) && last < TWO_64
    ensures RecordsOk(s + Batch(epoch - 1, last, n), epoch, w, (last + n) % TWO_64, exhausted || Exhausts(last, n))
  {
    hide Distinct;
    hide UsedExactly;
    hide EpochsFit;
    hide Count;
    hide Batch;
    hide NoneBeyond;
    if exhausted {
      StaysSpoilt(s, Batch(epoch - 1, last, n));
      StaysUnfit(s, epoch - 1, last, n);
    } else {
      BatchUses(s, epoch - 1, last, n);
      BatchBeyond(s, epoch - 1, last, n, epoch);
      BatchFits(s, epoch - 1, last, n);
      CountBatch(s, epoch - 1, last, n, epoch);
      BatchElsewhere(s, epoch - 1, last, n, epoch, w);
    }
  }

  /** A change of keys opens an epoch that has no records yet. */
  lemma RecordsNewEpoch(s: seq<RecordNumber>, epoch: nat, w: nat, last: nat, exhausted: bool)
    requires RecordsOk(s, epoch, w, last, exhausted)
    ensures RecordsOk(s, epoch + 1, 0, w, exhausted)
  {
    var newEpoch := epoch + 1;
    if !exhausted {
      forall q: nat ensures RecordNumber(newEpoch, q) in s <==> q < 0 {
      }
      CountNone(s, newEpoch, epoch);
    }
  }

  /** One more write: the counter is kept in 64 bits, of which the wire carries 48. */
  lemma BatchStep(epoch: nat, w: nat, n: nat)
    ensures Batch(epoch, w, n + 1) == Batch(epoch, w, n) + [RecordNumber(epoch, (w + n) % TWO_64 % TWO_48)]
    ensures ((w + n) % TWO_64 + 1) % TWO_64 == (w + n + 1) % TWO_64
  {
    LowBits(w + n);
    Arith.ModAdd(w + n, 1, TWO_64);
  }

  lemma LowBits(x: nat)
    ensures x % TWO_64 % TWO_48 == x % TWO_48
  {
    assert x == x % TWO_64 + x / TWO_64 * 0x1_0000 * TWO_48;
    Arith.AddMultiple(x % TWO_64, TWO_48, x / TWO_64 * 0x1_0000);
  }

  // ---------- the retransmission queue ----------

  /** `dtls1_get_queue_priority`, cut to an unsigned short */
  function Priority(seqNum: nat, isCcs: bool): nat
  {
    (seqNum * 2 - (if isCcs then 1 else 0)) % TWO_16
  }

  /** The queue with a message in it; `pqueue_insert` refuses a priority that is taken. */
  function Buffered(q: Queue, seqNum: nat, isCcs: bool, epoch: nat): Queue
  {
    var k := Priority(seqNum, isCcs);
    if k in q then q else q[k := SentMessage(seqNum, isCcs, epoch)]
  }

  /** States in which the queue can hold messages of the current epoch only: the last flight
      of the peer has cleared it since the last change of keys. */
  predicate FlightIsCurrent(st: State)
  {
    || st.CwCert? || st.CwKeyExch? || st.CwCertVerify? || st.CwChange?
    || st.SwServerHello? || st.SwCert? || st.SwCertStatus? || st.SwKeyExch? || st.SwCertReq? || st.SwServerDone?
    || st.SwSessionTicket? || st.SwChange?
  }

  ghost predicate InEpochs(q: Queue, low: int, high: int)
  {
    forall k :: k in q ==> low <= q[k].epoch <= high
  }

  /** The queue holds messages of the current and the previous epoch only. */
  ghost predicate QueueOk(q: Queue, epoch: nat, st: State, next: State)
  {
    && InEpochs(q, epoch - 1, epoch)
    && (FlightIsCurrent(st) ==> InEpochs(q, epoch, epoch))
    && (st == Flush ==> !FlightIsCurrent(next))
  }

  lemma QueueMoves(q: Queue, epoch: nat, st: State, next: State, st': State, next': State)
    requires QueueOk(q, epoch, st, next)
    requires FlightIsCurrent(st') ==> FlightIsCurrent(st) || q == map[]
    requires st' == Flush ==> !FlightIsCurrent(next')
    ensures QueueOk(q, epoch, st', next')
  {
  }

  lemma QueueInsert(q: Queue, epoch: nat, st: State, next: State, k: nat, m: SentMessage)
    requires QueueOk(q, epoch, st, next) && m.epoch == epoch
    ensures QueueOk(q[k := m], epoch, st, next)
  {
  }

  lemma QueueNewEpoch(q: Queue, epoch: nat, st: State, next: State, st': State)
    requires QueueOk(q, epoch, st, next) && FlightIsCurrent(st)
    requires !FlightIsCurrent(st') && st' != Flush
    ensures QueueOk(q, epoch + 1, st', next)
  {
  }

  // ---------- where the loops go ----------

  predicate ClientSends(st: State)
  {
    st.CwClientHello? || st.CwCert? || st.CwKeyExch? || st.CwCertVerify? || st.CwChange? || st.CwFinished?
  }

  predicate ServerSendsLast(st: State)
  {
    st.SwSessionTicket? || st.SwChange? || st.SwFinished?
  }

  predicate ServerSends(st: State)
  {
    || st.SwServerHello? || st.SwCert? || st.SwCertStatus? || st.SwKeyExch? || st.SwCertReq? || st.SwServerDone?
    || ServerSendsLast(st)
  }

  predicate ServerSkips(st: State, c: Choice)
  {
    ((st.SwCert? || st.SwKeyExch? || st.SwCertReq?) && c.skip) || (st.SwChange? && !c.built)
  }

  /** The received messages that end a flight of the peer: `dtls1_stop_timer` is called. */
  predicate ClientAnswered(st: State, c: Choice)
  {
    c.done && ((st.CrHelloVerify? && c.cookie) || st.CrServerDone? || st.CrFinished?)
  }

  predicate ServerAnswered(st: State, c: Choice)
  {
    c.done && (st.SrClientHello? || st.SrFinished?)
  }

  /** s->state and s->s3->tmp.next_state after a round of the client; `sent` says that a sending
      state got its message out. */
  function ClientMove(st: State, next: State, hit: bool, cookie: bool, sent: bool, c: Choice): (State, State)
  {
    match st
    case Start => (CwClientHello, next)
    case CwClientHello => if !sent then (st, next) else if cookie then (Flush, CrServerHello) else (CrHelloVerify, next)
    case CrHelloVerify => if !c.done then (st, next) else (if c.cookie then CwClientHello else CrServerHello, next)
    case CrServerHello =>
      if !c.done then (st, next) else (if !c.hit then CrCert else if c.ticket then CrSessionTicket else CrFinished, next)
    case CrCert => if c.skip then (CrKeyExch, next) else if !c.done then (st, next) else (if c.certStatus then CrCertStatus else CrKeyExch, next)
    case CrCertStatus => (if c.done then CrKeyExch else st, next)
    case CrKeyExch => (if c.done then CrCertReq else st, next)
    case CrCertReq => (if c.done then CrServerDone else st, next)
    case CrServerDone => (if !c.done then st else if c.request then CwCert else CwKeyExch, next)
    case CwCert => (if sent then CwKeyExch else st, next)
    case CwKeyExch => (if !sent then st else if c.request then CwCertVerify else CwChange, next)
    case CwCertVerify => (if sent then CwChange else st, next)
    case CwChange => (if sent then CwFinished else st, next)
    case CwFinished =>
      if !sent then (st, next) else (Flush, if hit then Ok else if c.ticket then CrSessionTicket else CrFinished)
    case CrSessionTicket => (if c.done then CrFinished else st, next)
    case CrFinished => (if !c.done then st else if hit then CwChange else Ok, next)
    case Flush => (if c.done || c.fatal then next else st, next)
    case _ => (st, next)
  }

  /** The same for the server */
  function ServerMove(st: State, next: State, hit: bool, helloRequest: bool, sent: bool, c: Choice): (State, State)
  {
    match st
    case Start => (if helloRequest then SwHelloRequest else SrClientHello, next)
    case SrClientHello => (if !c.done then st else if c.cookie then SwHelloVerify else SwServerHello, next)
    case SwServerHello => (if !sent then st else if !hit then SwCert else if c.ticket then SwSessionTicket else SwChange, next)
    case SwCert => (if c.skip then SwKeyExch else if !sent then st else if c.certStatus then SwCertStatus else SwKeyExch, next)
    case SwCertStatus => (if sent then SwKeyExch else st, next)
    case SwKeyExch => (if c.skip || sent then SwCertReq else st, next)
    case SwCertReq => (if c.skip || sent then SwServerDone else st, next)
    case SwServerDone => if sent then (Flush, SrCert) else (st, next)
    case SrCert => (if c.skip || c.done then SrKeyExch else st, next)
    case SrKeyExch => (if c.done then SrCertVerify else st, next)
    case SrCertVerify => (if c.done then SrFinished else st, next)
    case SrFinished => (if !c.done then st else if hit then Ok else if c.ticket then SwSessionTicket else SwChange, next)
    case SwSessionTicket => (if sent then SwChange else st, next)
    case SwChange => (if sent && c.built then SwFinished else st, next)
    case SwFinished => if sent then (Flush, if hit then SrFinished else Ok) else (st, next)
    case Flush => (if c.done || c.fatal then next else st, next)
    case _ => (st, next)
  }

  // ---------- the endpoint ----------

  class Endpoint {
    var state: State
    var nextState: State
    var started: bool
    var hit: bool
    var sendCookie: bool
    /** s->d1->w_epoch, s->s3->write_sequence, s->d1->last_write_sequence */
    var wEpoch: nat
    var writeSequence: nat
    var lastWriteSequence: nat
    var handshakeWriteSeq: nat
    var nextHandshakeWriteSeq: nat
    /** The messages kept for retransmission, by priority. */
    var sentMessages: Queue
    /** The numbers of the records composed so far, in order. */
    var emitted: seq<RecordNumber>
    const isServer: bool
    /** SSL_ST_RENEGOTIATE: the server starts with a HelloRequest. */
    var helloRequest: bool
    /** A record was composed after 2^48 others of its epoch. */
    ghost var exhausted: bool
    /** How often the keys were changed; the epoch is its lower 16 bits. */
    ghost var changes: nat

    constructor (isServer: bool)
      ensures Valid() && emitted == [] && changes == 0 && this.isServer == isServer
    {
      state, nextState, started, hit, sendCookie := Start, Start, false, false, false;
      wEpoch, writeSequence, lastWriteSequence := 0, 0, 0;
      handshakeWriteSeq, nextHandshakeWriteSeq := 0, 0;
      sentMessages, emitted, exhausted, changes := map[], [], false, 0;
      this.isServer, helloRequest := isServer, false;
    }

    /** The epoch went past its 16 bits. */
    ghost predicate Wrapped()
      reads this`changes
    {
      changes >= TWO_16
    }

    ghost predicate Counters()
      reads this`wEpoch, this`writeSequence, this`lastWriteSequence, this`changes
    {
      wEpoch == changes % TWO_16 && writeSequence < TWO_64 && lastWriteSequence < TWO_64
    }

    ghost predicate RecordsValid()
      reads this`wEpoch, this`writeSequence, this`lastWriteSequence
      reads this`emitted, this`exhausted, this`changes
    {
      !Wrapped() ==> RecordsOk(emitted, wEpoch, writeSequence, lastWriteSequence, exhausted)
    }

    ghost predicate QueueValid()
      reads this`wEpoch, this`sentMessages, this`state, this`nextState, this`changes
    {
      !Wrapped() ==> QueueOk(sentMessages, wEpoch, state, nextState)
    }

    ghost predicate Valid()
      reads this`wEpoch, this`writeSequence, this`lastWriteSequence, this`emitted, this`exhausted
      reads this`sentMessages, this`state, this`nextState, this`changes
    {
      Counters() && RecordsValid() && QueueValid()
    }

    /** The header of `do_dtls1_write`, n times, under whatever epoch and sequence are set. */
    method ComposeRecords(n: nat)
      requires writeSequence < TWO_64
      modifies this`writeSequence, this`emitted, this`exhausted
      ensures emitted == old(emitted) + Batch(wEpoch, old(writeSequence), n)
      ensures writeSequence == (old(writeSequence) + n) % TWO_64
      ensures exhausted == (old(exhausted) || Exhausts(old(writeSequence), n))
    {
      hide RecordsOk;
      hide QueueOk;
      hide Distinct;
      var i := 0;
      while i < n
        invariant 0 <= i <= n
        invariant emitted == old(emitted) + Batch(wEpoch, old(writeSequence), i)
        invariant writeSequence == (old(writeSequence) + i) % TWO_64
        invariant exhausted == (old(exhausted) || Exhausts(old(writeSequence), i))
      {
        BatchStep(wEpoch, old(writeSequence), i);
        exhausted := exhausted || old(writeSequence) + i >= TWO_48;
        emitted := emitted + [RecordNumber(wEpoch, writeSequence % TWO_48)];
        writeSequence := (writeSequence + 1) % TWO_64;
        i := i + 1;
      }
    }

    /** Records of the current epoch: `dtls1_do_write` outside a retransmission, application
        data, alerts. */
    method Write(n: nat)
      requires Valid()
      modifies this`writeSequence, this`emitted, this`exhausted
      ensures Valid()
      ensures emitted == old(emitted) + Batch(wEpoch, old(writeSequence), n)
      ensures writeSequence == (old(writeSequence) + n) % TWO_64
    {
      hide RecordsOk;
      hide QueueOk;
      if !Wrapped() {
        RecordsAppend(emitted, wEpoch, writeSequence, lastWriteSequence, exhausted, n);
      }
      ComposeRecords(n);
    }

    /** `dtls1_buffer_message`: a priority that is taken keeps its first message. */
    method BufferMessage(seqNum: nat, isCcs: bool)
      requires Valid()
      modifies this`sentMessages
      ensures Valid() && sentMessages == Buffered(old(sentMessages), seqNum, isCcs, wEpoch)
    {
      hide RecordsOk;
      hide QueueOk;
      var m := SentMessage(seqNum, isCcs, wEpoch);
      var k := Priority(seqNum, isCcs);
      if k !in sentMessages {
        if !Wrapped() {
          QueueInsert(sentMessages, wEpoch, state, nextState, k, m);
        }
        sentMessages := sentMessages[k := m];
      }
    }

    /** `dtls1_stop_timer`, which drops the queue */
    method StopTimer()
      requires Valid()
      modifies this`sentMessages
      ensures Valid() && sentMessages == map[]
    {
      hide RecordsOk;
      sentMessages := map[];
    }

    /** `dtls1_reset_seq_numbers` for the write side */
    method ResetSeqNumbers(next: State)
      requires Valid() && FlightIsCurrent(state) && !FlightIsCurrent(next) && next != Flush
      modifies this`state, this`lastWriteSequence, this`wEpoch, this`writeSequence, this`changes
      ensures Valid() && state == next
      ensures changes == old(changes) + 1
      ensures wEpoch == (old(wEpoch) + 1) % TWO_16 && writeSequence == 0
      ensures lastWriteSequence == old(writeSequence)
    {
      hide RecordsOk;
      hide QueueOk;
      if !Wrapped() {
        RecordsNewEpoch(emitted, wEpoch, writeSequence, lastWriteSequence, exhausted);
        QueueNewEpoch(sentMessages, wEpoch, state, nextState, next);
      }
      state := next;
      lastWriteSequence := writeSequence;
      changes := changes + 1;
      wEpoch := (wEpoch + 1) % TWO_16;
      writeSequence := 0;
    }

    /** `dtls1_retransmit_message`: the message goes out under the epoch it was first sent in.
        When that is the previous epoch, its sequence numbers are swapped in and out. */
    method RetransmitMessage(priority: nat, n: nat) returns (found: bool)
      requires Valid()
      modifies this`wEpoch, this`writeSequence, this`lastWriteSequence, this`emitted, this`exhausted
      ensures Valid() && wEpoch == old(wEpoch)
      ensures found <==> priority in sentMessages
      ensures !found ==>
        emitted == old(emitted) && writeSequence == old(writeSequence) && lastWriteSequence == old(lastWriteSequence)
      ensures found && sentMessages[priority].epoch == wEpoch - 1 ==>
        && emitted == old(emitted) + Batch(wEpoch - 1, old(lastWriteSequence), n)
        && lastWriteSequence == (old(lastWriteSequence) + n) % TWO_64 && writeSequence == old(writeSequence)
      ensures found && sentMessages[priority].epoch != wEpoch - 1 ==>
        && emitted == old(emitted) + Batch(sentMessages[priority].epoch, old(writeSequence), n)
        && writeSequence == (old(writeSequence) + n) % TWO_64 && lastWriteSequence == old(lastWriteSequence)
    {
      hide RecordsOk;
      hide UsedExactly;
      found := priority in sentMessages;
      if !found {
        return;
      }
      var frag := sentMessages[priority];
      var savedEpoch := wEpoch;
      var savedSequence := writeSequence;
      if !Wrapped() {
        assert savedEpoch - 1 <= frag.epoch <= savedEpoch;
        if frag.epoch == savedEpoch - 1 {
          RecordsAppendPrevious(emitted, savedEpoch, writeSequence, lastWriteSequence, exhausted, n);
        } else {
          RecordsAppend(emitted, savedEpoch, writeSequence, lastWriteSequence, exhausted, n);
        }
      }
      wEpoch := frag.epoch;
      if frag.epoch == savedEpoch - 1 {
        writeSequence := lastWriteSequence;
      }
      ComposeRecords(n);
      wEpoch := savedEpoch;
      if frag.epoch == savedEpoch - 1 {
        lastWriteSequence := writeSequence;
        writeSequence := savedSequence;
      }
    }

    /** `dtls1_retransmit_buffered_messages`: every queued message, until a write fails. */
    method RetransmitBuffered(writes: seq<nat>)
      requires Valid()
      modifies this`wEpoch, this`writeSequence, this`lastWriteSequence, this`emitted, this`exhausted
      ensures Valid() && wEpoch == old(wEpoch) && old(emitted) <= emitted
    {
      hide RecordsOk;
      hide QueueOk;
      var remaining := sentMessages.Keys;
      var i := 0;
      while remaining != {} && i < |writes|
        invariant Valid() && wEpoch == old(wEpoch) && old(emitted) <= emitted
        invariant remaining <= sentMessages.Keys
        decreases |remaining|
      {
        var k: nat :| k in remaining;
        var found := RetransmitMessage(k, writes[i]);
        remaining := remaining - {k};
        i := i + 1;
      }
    }

    /** What a sending state does: unless it fails to build its message, it buffers it, the first
        time, and writes. */
    twostate predicate Sent(c: Choice, isCcs: bool, buffers: bool)
      reads this
    {
      if !old(started) && !c.built then
        && emitted == old(emitted) && sentMessages == old(sentMessages) && !started
        && nextHandshakeWriteSeq == old(nextHandshakeWriteSeq)
      else
        && emitted == old(emitted) + Batch(old(wEpoch), old(writeSequence), c.records)
        && started == !c.done
        && (old(started) ==> sentMessages == old(sentMessages) && nextHandshakeWriteSeq == old(nextHandshakeWriteSeq))
        && (!old(started) ==>
            && sentMessages == (if buffers then Buffered(old(sentMessages), old(nextHandshakeWriteSeq), isCcs, old(wEpoch))
                                else old(sentMessages))
            && nextHandshakeWriteSeq == (old(nextHandshakeWriteSeq) + (if isCcs then 0 else 1)) % TWO_16)
    }

    /** A sending state: the A half builds and buffers the message, every half writes. */
    method Send(c: Choice, isCcs: bool) returns (done: bool)
      requires Valid()
      modifies this`started, this`sentMessages, this`handshakeWriteSeq, this`nextHandshakeWriteSeq
      modifies this`writeSequence, this`emitted, this`exhausted
      ensures Valid() && Sent(c, isCcs, true) && done == ((old(started) || c.built) && c.done)
      ensures writeSequence == (old(writeSequence) + (if old(started) || c.built then c.records else 0)) % TWO_64
    {
      hide RecordsOk;
      hide QueueOk;
      if !started {
        if !c.built {
          return false;
        }
        handshakeWriteSeq := nextHandshakeWriteSeq;
        nextHandshakeWriteSeq := (nextHandshakeWriteSeq + (if isCcs then 0 else 1)) % TWO_16;
        BufferMessage(handshakeWriteSeq, isCcs);
        started := true;
      }
      Write(c.records);
      done := c.done;
      if done {
        started := false;
      }
    }

    /** Goes to another state of the loop. */
    method Go(st: State)
      requires Valid()
      requires FlightIsCurrent(st) ==> FlightIsCurrent(state) || sentMessages == map[]
      requires st != Flush
      modifies this`state
      ensures Valid() && state == st
    {
      hide RecordsOk;
      hide QueueOk;
      if !Wrapped() {
        QueueMoves(sentMessages, wEpoch, state, nextState, st, nextState);
      }
      state := st;
    }

    /** Goes to the flushing state, which defers `next`. */
    method GoFlush(next: State)
      requires Valid() && !FlightIsCurrent(next)
      modifies this`state, this`nextState
      ensures Valid() && state == Flush && nextState == next
    {
      hide RecordsOk;
      hide QueueOk;
      if !Wrapped() {
        QueueMoves(sentMessages, wEpoch, state, nextState, Flush, next);
      }
      state, nextState := Flush, next;
    }

    method FlushStep(c: Choice)
      requires Valid() && state == Flush
      modifies this`state
      ensures Valid() && state == if c.done || c.fatal then nextState else Flush
    {
      hide RecordsOk;
      if c.done || c.fatal {
        state := nextState;
      }
    }

    /** A flight of this epoch was sent under the old keys; the new epoch has no records yet. */
    twostate predicate EpochChanged(change: bool, n: nat)
      reads this
    {
      if change then
        wEpoch == (old(wEpoch) + 1) % TWO_16 && writeSequence == 0 && lastWriteSequence == (old(writeSequence) + n) % TWO_64
        && changes == old(changes) + 1
      else wEpoch == old(wEpoch) && lastWriteSequence == old(lastWriteSequence) && changes == old(changes)
    }

    /** The ChangeCipherSpec states of both loops */
    method ChangeStep(c: Choice, next: State)
      requires Valid() && FlightIsCurrent(state) && !FlightIsCurrent(next) && next != Flush
      modifies this
      ensures Valid() && Sent(c, true, true) && nextState == old(nextState) && hit == old(hit)
      ensures state == if (old(started) || c.built) && c.done then next else old(state)
      ensures EpochChanged((old(started) || c.built) && c.done && c.keysOk, c.records)
    {
      hide Valid;
      hide RecordsOk;
      hide QueueOk;
      hide Buffered;
      hide Batch;
      var done := Send(c, true);
      if done {
        if c.keysOk {
          ResetSeqNumbers(next);
        } else {
          Go(next);
        }
      }
    }

    /** A sending state that moves on by itself; the cipher suite may leave its message out. */
    method SendThenGo(c: Choice, skip: bool, next: State)
      requires Valid() && (FlightIsCurrent(next) ==> FlightIsCurrent(state)) && next != Flush
      modifies this
      ensures Valid() && nextState == old(nextState) && hit == old(hit) && EpochChanged(false, 0)
      ensures skip ==> sentMessages == old(sentMessages) && emitted == old(emitted)
      ensures !skip ==> Sent(c, false, true)
      ensures state == if skip || ((old(started) || c.built) && c.done) then next else old(state)
    {
      hide Valid;
      hide RecordsOk;
      hide QueueOk;
      hide Buffered;
      hide Batch;
      var done := skip;
      if !skip {
        done := Send(c, false);
      }
      if done {
        Go(next);
      }
    }

    /** A sending state that ends a flight */
    method SendThenFlush(c: Choice, next: State)
      requires Valid() && !FlightIsCurrent(next)
      modifies this
      ensures Valid() && Sent(c, false, true) && hit == old(hit) && EpochChanged(false, 0)
      ensures if (old(started) || c.built) && c.done then state == Flush && nextState == next
              else state == old(state) && nextState == old(nextState)
    {
      hide Valid;
      hide RecordsOk;
      hide QueueOk;
      hide Buffered;
      hide Batch;
      var done := Send(c, false);
      if done {
        GoFlush(next);
      }
    }

    /** A HelloVerifyRequest is not buffered, so it is never retransmitted. */
    method SendHelloVerify(c: Choice)
      requires Valid()
      modifies this
      ensures Valid() && Sent(c, false, false) && sentMessages == old(sentMessages) && hit == old(hit) && EpochChanged(false, 0)
      ensures if (old(started) || c.built) && c.done then state == Flush && nextState == SrClientHello
              else state == old(state) && nextState == old(nextState)
    {
      hide Valid;
      hide RecordsOk;
      hide QueueOk;
      hide Buffered;
      hide Batch;
      if !started {
        if !c.built {
          return;
        }
        handshakeWriteSeq, nextHandshakeWriteSeq := nextHandshakeWriteSeq, (nextHandshakeWriteSeq + 1) % TWO_16;
        started := true;
      }
      Write(c.records);
      if c.done {
        started := false;
        GoFlush(SrClientHello);
      }
    }

    /** Received messages that answer a whole flight: the queue is dropped. */
    method Answered(next: State)
      requires Valid() && next != Flush
      modifies this`state, this`sentMessages
      ensures Valid() && state == next && sentMessages == map[]
    {
      hide Valid;
      StopTimer();
      Go(next);
    }

    /** The rounds of `dtls1_connect` that send */
    method ClientSend(c: Choice)
      requires Valid() && ClientSends(state)
      modifies this
      ensures Valid() && Sent(c, old(state) == CwChange, true) && hit == old(hit)
      ensures (state, nextState) ==
        ClientMove(old(state), old(nextState), old(hit), old(sendCookie), (old(started) || c.built) && c.done, c)
      ensures EpochChanged(old(state) == CwChange && (old(started) || c.built) && c.done && c.keysOk, c.records)
    {
      hide Valid;
      hide RecordsOk;
      hide QueueOk;
      hide Buffered;
      hide Sent;
      hide Batch;
      match state
      case CwClientHello =>
        if sendCookie {
          SendThenFlush(c, CrServerHello);
        } else {
          SendThenGo(c, false, CrHelloVerify);
        }
      case CwCert =>
        SendThenGo(c, false, CwKeyExch);
      case CwKeyExch =>
        SendThenGo(c, false, if c.request then CwCertVerify else CwChange);
      case CwCertVerify =>
        SendThenGo(c, false, CwChange);
      case CwChange =>
        ChangeStep(c, CwFinished);
      case CwFinished =>
        SendThenFlush(c, if hit then Ok else if c.ticket then CrSessionTicket else CrFinished);
    }

    /** The first rounds of `dtls1_connect` that do not send */
    method ClientReceiveHello(c: Choice)
      requires Valid() && (state == Start || state == CrHelloVerify || state == CrServerHello)
      modifies this`state, this`sentMessages, this`hit, this`sendCookie
      ensures Valid()
      ensures (state, nextState) == ClientMove(old(state), nextState, old(hit), old(sendCookie), false, c)
      ensures sentMessages == if ClientAnswered(old(state), c) then map[] else old(sentMessages)
      ensures hit == if old(state) == Start then false else if old(state) == CrServerHello && c.done then c.hit else old(hit)
      ensures sendCookie == if old(state) == Start then false
                            else if old(state) == CrHelloVerify && c.done then c.cookie else old(sendCookie)
    {
      hide Valid;
      hide RecordsOk;
      hide QueueOk;
      match state
      case Start =>
        sendCookie, hit := false, false;
        Go(CwClientHello);
      case CrHelloVerify =>
        if c.done {
          sendCookie := c.cookie;
          if sendCookie {
            Answered(CwClientHello);
          } else {
            Go(CrServerHello);
          }
        }
      case CrServerHello =>
        if c.done {
          hit := c.hit;
          Go(if !hit then CrCert else if c.ticket then CrSessionTicket else CrFinished);
        }
    }

    /** The others */
    method ClientReceive(c: Choice)
      requires Valid() && !ClientSends(state) && state != Start && state != CrHelloVerify && state != CrServerHello
      modifies this`state, this`sentMessages, this`nextHandshakeWriteSeq
      ensures Valid()
      ensures (state, nextState) == ClientMove(old(state), nextState, hit, sendCookie, false, c)
      ensures sentMessages == if ClientAnswered(old(state), c) then map[] else old(sentMessages)
    {
      hide Valid;
      hide RecordsOk;
      hide QueueOk;
      match state
      case CrCert =>
        if c.skip || c.done {
          Go(if !c.skip && c.certStatus then CrCertStatus else CrKeyExch);
        }
      case CrCertStatus =>
        if c.done {
          Go(CrKeyExch);
        }
      case CrKeyExch =>
        if c.done {
          Go(CrCertReq);
        }
      case CrCertReq =>
        if c.done {
          Go(CrServerDone);
        }
      case CrServerDone =>
        if c.done {
          Answered(if c.request then CwCert else CwKeyExch);
        }
      case CrSessionTicket =>
        if c.done {
          Go(CrFinished);
        }
      case CrFinished =>
        if c.done {
          Answered(if hit then CwChange else Ok);
        }
      case Flush =>
        FlushStep(c);
      case Ok =>
        nextHandshakeWriteSeq := 0;
      case _ =>
    }

    /** The rounds of `dtls1_accept` that send the first flight: hello and certificate */
    method ServerSendHello(c: Choice)
      requires Valid() && (state == SwServerHello || state == SwCert || state == SwCertStatus)
      modifies this
      ensures Valid() && hit == old(hit)
      ensures ServerSkips(old(state), c) ==> sentMessages == old(sentMessages) && emitted == old(emitted)
      ensures !ServerSkips(old(state), c) ==> Sent(c, old(state) == SwChange, true)
      ensures (state, nextState) ==
        ServerMove(old(state), old(nextState), old(hit), helloRequest, (old(started) || c.built) && c.done, c)
      ensures EpochChanged(old(state) == SwChange && c.built && c.done && c.keysOk, c.records)
    {
      hide Valid;
      hide RecordsOk;
      hide QueueOk;
      hide Buffered;
      hide Batch;
      hide Sent;
      match state
      case SwServerHello =>
        SendThenGo(c, false, if !hit then SwCert else if c.ticket then SwSessionTicket else SwChange);
      case SwCert =>
        SendThenGo(c, c.skip, if !c.skip && c.certStatus then SwCertStatus else SwKeyExch);
      case SwCertStatus =>
        SendThenGo(c, false, SwKeyExch);
    }

    /** The rounds of `dtls1_accept` that send the first flight: the rest */
    method ServerSendRest(c: Choice)
      requires Valid() && (state == SwKeyExch || state == SwCertReq || state == SwServerDone)
      modifies this
      ensures Valid() && hit == old(hit)
      ensures ServerSkips(old(state), c) ==> sentMessages == old(sentMessages) && emitted == old(emitted)
      ensures !ServerSkips(old(state), c) ==> Sent(c, old(state) == SwChange, true)
      ensures (state, nextState) ==
        ServerMove(old(state), old(nextState), old(hit), helloRequest, (old(started) || c.built) && c.done, c)
      ensures EpochChanged(old(state) == SwChange && c.built && c.done && c.keysOk, c.records)
    {
      hide Valid;
      hide RecordsOk;
      hide QueueOk;
      hide Buffered;
      hide Batch;
      hide Sent;
      match state
      case SwKeyExch =>
        SendThenGo(c, c.skip, SwCertReq);
      case SwCertReq =>
        SendThenGo(c, c.skip, SwServerDone);
      case SwServerDone =>
        SendThenFlush(c, SrCert);
    }

    /** The rounds of `dtls1_accept` that send the last flight */
    method ServerSendLast(c: Choice)
      requires Valid() && ServerSendsLast(state)
      modifies this
      ensures Valid() && hit == old(hit)
      ensures ServerSkips(old(state), c) ==> sentMessages == old(sentMessages) && emitted == old(emitted)
      ensures !ServerSkips(old(state), c) ==> Sent(c, old(state) == SwChange, true)
      ensures (state, nextState) ==
        ServerMove(old(state), old(nextState), old(hit), helloRequest, (old(started) || c.built) && c.done, c)
      ensures EpochChanged(old(state) == SwChange && c.built && c.done && c.keysOk, c.records)
    {
      hide Valid;
      hide RecordsOk;
      hide QueueOk;
      hide Buffered;
      hide Batch;
      hide Sent;
      match state
      case SwSessionTicket =>
        SendThenGo(c, false, SwChange);
      case SwChange =>
        // the key block comes first, in every attempt
        if c.built {
          ChangeStep(c, SwFinished);
        }
      case SwFinished =>
        SendThenFlush(c, if hit then SrFinished else Ok);
    }

    /** A HelloRequest drops what was kept before. */
    method ServerHelloRequest(c: Choice)
      requires Valid() && state == SwHelloRequest
      modifies this
      ensures Valid() && hit == old(hit) && EpochChanged(false, 0)
      ensures emitted == old(emitted) +
        (if old(started) || c.built then Batch(wEpoch, old(writeSequence), c.records) else [])
      ensures if (old(started) || c.built) && c.done then state == Flush && nextState == SrClientHello
              else state == old(state) && nextState == old(nextState)
      ensures !old(started) && c.built ==> sentMessages == Buffered(map[], old(nextHandshakeWriteSeq), false, wEpoch)
      ensures old(started) || !c.built ==> sentMessages == map[]
    {
      hide Valid;
      hide RecordsOk;
      hide QueueOk;
      hide Buffered;
      hide Batch;
      StopTimer();
      SendThenFlush(c, SrClientHello);
    }

    /** The first rounds of `dtls1_accept` that do not send */
    method ServerReceiveHello(c: Choice)
      requires Valid() && (state == Start || state == SrClientHello)
      modifies this`state, this`sentMessages, this`hit
      ensures Valid()
      ensures (state, nextState) == ServerMove(old(state), nextState, old(hit), helloRequest, false, c)
      ensures sentMessages == if ServerAnswered(old(state), c) then map[] else old(sentMessages)
      ensures hit == if old(state) == SrClientHello && c.done then c.hit else old(hit)
    {
      hide Valid;
      hide RecordsOk;
      hide QueueOk;
      if state == Start {
        Go(if helloRequest then SwHelloRequest else SrClientHello);
      } else if c.done {
        hit := c.hit;
        Answered(if c.cookie then SwHelloVerify else SwServerHello);
      }
    }

    /** The others */
    method ServerReceive(c: Choice)
      requires Valid() && !ServerSends(state) && state != SwHelloRequest && state != SwHelloVerify
      requires state != Start && state != SrClientHello
      modifies this`state, this`sentMessages, this`handshakeWriteSeq, this`nextHandshakeWriteSeq
      ensures Valid()
      ensures (state, nextState) == ServerMove(old(state), nextState, hit, helloRequest, false, c)
      ensures sentMessages == if ServerAnswered(old(state), c) then map[] else old(sentMessages)
    {
      hide Valid;
      hide RecordsOk;
      hide QueueOk;
      match state
      case SrCert =>
        if c.skip || c.done {
          Go(SrKeyExch);
        }
      case SrKeyExch =>
        if c.done {
          Go(SrCertVerify);
        }
      case SrCertVerify =>
        if c.done {
          Go(SrFinished);
        }
      case SrFinished =>
        if c.done {
          Answered(if hit then Ok else if c.ticket then SwSessionTicket else SwChange);
        }
      case Flush =>
        FlushStep(c);
      case Ok =>
        handshakeWriteSeq, nextHandshakeWriteSeq := 0, 0;
      case _ =>
    }

    /** One round of the handshake loop */
    method Round(c: Choice)
      requires Valid()
      modifies this
      ensures Valid() && old(emitted) <= emitted && old(changes) <= changes <= old(changes) + 1
    {
      hide Valid;
      hide RecordsOk;
      hide QueueOk;
      hide Buffered;
      hide Batch;
      hide ClientMove;
      hide ServerMove;
      if isServer {
        if ServerSendsLast(state) {
          ServerSendLast(c);
        } else if state == SwServerHello || state == SwCert || state == SwCertStatus {
          ServerSendHello(c);
        } else if state == SwKeyExch || state == SwCertReq || state == SwServerDone {
          ServerSendRest(c);
        } else if state == SwHelloRequest {
          ServerHelloRequest(c);
        } else if state == SwHelloVerify {
          SendHelloVerify(c);
        } else if state == Start || state == SrClientHello {
          ServerReceiveHello(c);
        } else {
          ServerReceive(c);
        }
      } else if ClientSends(state) {
        ClientSend(c);
      } else if state == Start || state == CrHelloVerify || state == CrServerHello {
        ClientReceiveHello(c);
      } else {
        ClientReceive(c);
      }
    }

    /** Any event, at any time */
    method Step(e: Event)
      requires Valid()
      modifies this
      ensures Valid() && old(emitted) <= emitted && old(changes) <= changes <= old(changes) + 1
    {
      hide RecordsOk;
      hide QueueOk;
      match e
      case Advance(c) =>
        Round(c);
      case Retransmit(writes) =>
        RetransmitBuffered(writes);
      case Application(count) =>
        Write(count);
      case Renegotiate(byPeer) =>
        if state == Ok {
          helloRequest := !byPeer;
          Go(Start);
        }
    }
  }

  /** Past the last epoch the first one comes again, and with it the record numbers: the next record
      repeats the first of all, if that was sent in epoch 0. */
  method EpochWrapRepeats(endpoint: Endpoint, next: State)
    requires endpoint.Valid() && FlightIsCurrent(endpoint.state) && !FlightIsCurrent(next) && next != Flush
    requires endpoint.wEpoch == TWO_16 - 1 && RecordNumber(0, 0) in endpoint.emitted
    modifies endpoint
    ensures endpoint.wEpoch == 0 && !Distinct(endpoint.emitted)
  {
    hide RecordsOk;
    hide QueueOk;
    endpoint.ResetSeqNumbers(next);
    ghost var before := endpoint.emitted;
    ghost var i :| 0 <= i < |before| && before[i] == RecordNumber(0, 0);
    endpoint.ComposeRecords(1);
    assert Batch(0, 0, 0) == [];
    assert Batch(0, 0, 1) == [RecordNumber(0, 0)];
    assert endpoint.emitted[i] == endpoint.emitted[|before|];
  }

  /** Whatever the network, the peer and the application do, and whenever messages are sent
      again, every record leaves under a number of its own, exactly as long as no epoch has more
      than 2^48 records. This holds until the keys have been changed 2^16 times, for which there
      must be as many events. */
  method Run(isServer: bool, events: seq<Event>) returns (endpoint: Endpoint)
    ensures fresh(endpoint) && endpoint.changes <= |events| && endpoint.wEpoch == endpoint.changes % TWO_16
    ensures endpoint.changes < TWO_16 ==> (Distinct(endpoint.emitted) <==> EpochsFit(endpoint.emitted))
    ensures endpoint.changes < TWO_16 ==>
      forall m :: m in endpoint.sentMessages.Values ==> endpoint.wEpoch - 1 <= m.epoch <= endpoint.wEpoch
  {
    hide Distinct;
    hide EpochsFit;
    endpoint := new Endpoint(isServer);
    for i := 0 to |events|
      invariant fresh(endpoint) && endpoint.Valid() && endpoint.changes <= i
    {
      endpoint.Step(events[i]);
    }
  }
}
