/**
 The resumable, fragmenting record writer (ssl/s3_pkt.c, `ssl3_write_bytes`, `do_ssl3_write`
 and `ssl3_write_pending`), for plain byte streams (not DTLS). A handshake that a write has to
 complete first writes its own messages with the same functions, the same buffer and the same
 count of written bytes.
 */
module RecordWriter {
  import opened Bits

  const HEADER_LENGTH: nat := 5
  const SEND_MAX_ENCRYPTED_OVERHEAD: nat := 80
  const HANDSHAKE: byte := 22
  const APPLICATION_DATA: byte := 23

  /** A record before it is protected, and the address its plaintext is taken from */
  datatype Record = Record(kind: byte, address: nat, plaintext: seq<byte>)

  /** Settings of the connection. `protect` stands for the MAC and the cipher: what they make of
      the plaintext of a type under a sequence number. */
  datatype Settings = Settings(
    maxSendFragment: nat, splitRecords: bool, partialWrite: bool, movingBuffer: bool,
    version: (byte, byte), protect: (nat, byte, seq<byte>) -> seq<byte>)

  /** The limits of SSL_set_max_send_fragment, and the padding and MAC of a one-byte record */
  ghost predicate ValidSettings(s: Settings)
  {
    && 512 <= s.maxSendFragment <= 16384
    && forall n: nat, k: byte, p: seq<byte> :: |p| == 1 ==> |s.protect(n, k, p)| <= SEND_MAX_ENCRYPTED_OVERHEAD
  }

  /** The bytes of a record on the wire */
  function Wire(s: Settings, sequence: nat, r: Record): (w: seq<byte>)
    ensures |w| == HEADER_LENGTH + |s.protect(sequence, r.kind, r.plaintext)|
  {
    var body := s.protect(sequence, r.kind, r.plaintext);
    [r.kind, s.version.0, s.version.1, |body| / 256 % 256, |body| % 256] + body
  }

  function Plaintext(rs: seq<Record>): seq<byte>
  {
    if rs == [] then [] else Plaintext(rs[..|rs| - 1]) + rs[|rs| - 1].plaintext
  }

  function Wires(s: Settings, sequence: nat, rs: seq<Record>): seq<byte>
  {
    if rs == [] then []
    else Wires(s, sequence, rs[..|rs| - 1]) + Wire(s, sequence + |rs| - 1, rs[|rs| - 1])
  }

  lemma WiresSnoc(s: Settings, sequence: nat, rs: seq<Record>, r: Record)
    ensures Wires(s, sequence, rs + [r]) == Wires(s, sequence, rs) + Wire(s, sequence + |rs|, r)
  {
    assert (rs + [r])[..|rs|] == rs;
  }

  /** The records of one type */
  function OfKind(rs: seq<Record>, kind: byte): (t: seq<Record>)
  {
    if rs == [] then []
    else OfKind(rs[..|rs| - 1], kind) + (if rs[|rs| - 1].kind == kind then [rs[|rs| - 1]] else [])
  }

  lemma {:induction false} OfKindConcat(rs: seq<Record>, more: seq<Record>, kind: byte)
    ensures OfKind(rs + more, kind) == OfKind(rs, kind) + OfKind(more, kind)
  {
    if more == [] {
      assert rs + more == rs;
    } else {
      var all, init, r := rs + more, more[..|more| - 1], more[|more| - 1];
      OfKindConcat(rs, init, kind);
      assert all[..|all| - 1] == rs + init && all[|all| - 1] == r;
    }
  }

  /** n addresses from a on */
  function Upto(a: nat, n: nat): (t: seq<nat>)
    ensures |t| == n
  {
    seq(n, i requires 0 <= i < n => a + i)
  }

  /** Where the bytes of the records are taken from, in the order in which they leave */
  function Addresses(rs: seq<Record>): seq<nat>
  {
    if rs == [] then []
    else Addresses(rs[..|rs| - 1]) + Upto(rs[|rs| - 1].address, |rs[|rs| - 1].plaintext|)
  }

  lemma AddressesSnoc(rs: seq<Record>, r: Record)
    ensures Addresses(rs + [r]) == Addresses(rs) + Upto(r.address, |r.plaintext|)
  {
    assert (rs + [r])[..|rs|] == rs;
  }

  lemma {:induction false} SameLength(rs: seq<Record>)
    ensures |Plaintext(rs)| == |Addresses(rs)|
  {
    if rs != [] {
      SameLength(rs[..|rs| - 1]);
    }
  }

  /** All records of one type, none over the limit or empty */
  ghost predicate Fragments(s: Settings, kind: byte, rs: seq<Record>)
  {
    forall r :: r in rs ==> r.kind == kind && 0 < |r.plaintext| <= s.maxSendFragment
  }

  /** The application's call: data at an address */
  datatype Buffer = Buffer(kind: byte, data: seq<byte>, address: nat)

  /** What the record carries stands in the buffer at its address. */
  ghost predicate IsPart(b: Buffer, r: Record)
  {
    && b.address <= r.address && r.address - b.address + |r.plaintext| <= |b.data|
    && r.plaintext == b.data[r.address - b.address..r.address - b.address + |r.plaintext|]
  }

  ghost predicate Parts(b: Buffer, rs: seq<Record>)
  {
    forall r :: r in rs ==> IsPart(b, r)
  }

  /** Records that take each of n bytes of the buffer once, in order, carry them. */
  lemma {:induction false} InOrderIsEqual(b: Buffer, rs: seq<Record>, start: nat, n: nat)
    requires Parts(b, rs) && start + n <= |b.data| && Addresses(rs) == Upto(b.address + start, n)
    ensures Plaintext(rs) == b.data[start..start + n]
  {
    if rs != [] {
      var init, r := rs[..|rs| - 1], rs[|rs| - 1];
      var m := |r.plaintext|;
      assert r in rs;
      assert |Addresses(init)| + m == n;
      assert Addresses(init) == Addresses(rs)[..n - m] == Upto(b.address + start, n - m);
      InOrderIsEqual(b, init, start, n - m);
      if m > 0 {
        assert Addresses(rs)[n - m] == Upto(r.address, m)[0] == r.address;
        assert Upto(b.address + start, n)[n - m] == b.address + start + (n - m);
        assert b.data[start..start + n] == b.data[start..start + n - m] + r.plaintext;
      }
    }
  }

  /** What BIO_write does with the bytes it is offered */
  datatype Taken = Everything | Part(n: nat) | Refused(i: int)

  /** The result of BIO_write for `left` bytes */
  function BioWrite(taken: Taken, left: nat): (i: int)
    ensures i <= left
  {
    match taken
    case Everything => left
    case Part(n) => if n > left then left else n
    case Refused(i) => if i > 0 then 0 else i
  }

  predicate Willing(bio: seq<Taken>)
  {
    bio != [] && bio[0] == Everything
  }

  /** A retry with other arguments is refused. */
  predicate BadRetry(s: Settings, wpendTot: nat, wpendBuf: nat, wpendType: byte, kind: byte, address: nat, len: nat)
  {
    wpendTot > len || (wpendBuf != address && !s.movingBuffer) || wpendType != kind
  }

  function Least(a: int, b: int): (r: int)
    ensures r <= a && r <= b && (r == a || r == b)
  {
    if a > b then b else a
  }

  // ---------- what a call has under way ----------

  /** The records composed so far, whether bytes of them are still to be written, and what is
      remembered of the write they belong to */
  datatype Flight = Flight(records: seq<Record>, waiting: bool, wpendTot: nat, wpendBuf: nat, wpendType: byte, wpendRet: nat)

  /** A call that is repeated until it succeeds; its records follow those from before it. `twice` is
      how many bytes go out a second time, because a count of written bytes was lost; `skip` is how
      many are left out, because the count of something else was taken for it. */
  datatype Job = Job(s: Settings, b: Buffer, before: seq<Record>, twice: nat, skip: nat)

  /** The records of the call: those of its type, for a handshake writes others */
  ghost function Own(j: Job, f: Flight): seq<Record>
  {
    if j.before <= f.records then OfKind(f.records[|j.before|..], j.b.kind) else []
  }

  /** A record of the call is not written out yet. */
  predicate DataWaiting(j: Job, f: Flight)
  {
    f.waiting && f.wpendType == j.b.kind
  }

  /** The records made of one chunk */
  ghost function Chunk(kind: byte, plain: seq<byte>, address: nat, fragment: bool): (rs: seq<Record>)
    requires plain != []
    ensures rs != []
  {
    if fragment then [Record(kind, address, plain[..1]), Record(kind, address + 1, plain[1..])]
    else [Record(kind, address, plain)]
  }

  ghost predicate Retries(s: Settings, f: Flight, kind: byte, address: nat, len: nat)
  {
    !BadRetry(s, f.wpendTot, f.wpendBuf, f.wpendType, kind, address, len)
  }

  /** What `do_ssl3_write` does: pending bytes move on, or a new chunk is composed and offered. */
  ghost predicate WriteStep(
    s: Settings, f: Flight, t: Flight, kind: byte, plain: seq<byte>, address: nat, fragment: bool, bio: seq<Taken>, i: int)
  {
    && (bio == [] ==> i <= 0) && i <= |plain|
    && if f.waiting then
         && t == f.(waiting := t.waiting)
         && (if i > 0 then !t.waiting && i == f.wpendRet else t.waiting)
         && (!Retries(s, f, kind, address, |plain|) ==> i <= 0)
         && (Willing(bio) && Retries(s, f, kind, address, |plain|) ==> i > 0)
       else if plain == [] then t == f && i == 0
       else
         && t == Flight(f.records + Chunk(kind, plain, address, fragment), i <= 0, |plain|, address, kind, |plain|)
         && (i > 0 ==> i == |plain|) && (Willing(bio) ==> i > 0)
  }

  /** Whether the next chunk is split: the first byte of application data goes in a record of its own. */
  predicate Splits(s: Settings, b: Buffer, tot: nat, splitDone: bool)
  {
    |b.data| - tot > 1 && s.splitRecords && b.kind == APPLICATION_DATA && !splitDone
  }

  predicate SplitWanted(s: Settings, b: Buffer)
  {
    s.splitRecords && b.kind == APPLICATION_DATA
  }

  /** One turn of the loop of `ssl3_write_bytes`, from f to t */
  ghost predicate TurnStep(s: Settings, b: Buffer, tot: nat, splitDone: bool, f: Flight, t: Flight, bio: seq<Taken>, i: int)
    requires tot <= |b.data|
  {
    var nw := Least(|b.data| - tot, s.maxSendFragment);
    WriteStep(s, f, t, b.kind, b.data[tot..tot + nw], b.address + tot, Splits(s, b, tot, splitDone), bio, i)
  }

  /** The records carry n bytes of the buffer, in legal sizes: the first n in order, unless some go
      out twice or some are left out in front. */
  ghost predicate Sent(j: Job, rs: seq<Record>, n: nat)
  {
    && Fragments(j.s, j.b.kind, rs) && Parts(j.b, rs)
    && (SplitWanted(j.s, j.b) && rs != [] ==> |rs[0].plaintext| == 1)
    && (rs == [] ==> Addresses(rs) == []) && Placed(j, Addresses(rs), n)
    && (j.twice > 0 ==> j.s.movingBuffer && rs != [])
  }

  /** Where n bytes of the buffer are taken from */
  ghost predicate Placed(j: Job, at: seq<nat>, n: nat)
  {
    && |at| == n + j.twice - j.skip
    && (j.twice == 0 ==> j.skip <= n && at == Upto(j.b.address + j.skip, n - j.skip))
    && (at != [] ==> at[0] == j.b.address + j.skip)
  }

  function ChunkSize(j: Job, tot: nat): int
  {
    Least(|j.b.data| - tot, j.s.maxSendFragment)
  }

  /** What is remembered is the chunk at `tot`, or, if a count was lost, a chunk like it. */
  ghost predicate Remembered(j: Job, f: Flight, tot: nat)
  {
    && 0 < f.wpendRet == f.wpendTot <= ChunkSize(j, tot)
    && (j.twice == 0 ==> f.wpendBuf == j.b.address + tot)
  }

  /** The records of the call carry the buffer up to `tot`, or, while a chunk from `tot` on is not
      written out yet, up to its end. */
  ghost predicate InFlight(j: Job, f: Flight, tot: nat)
  {
    && j.before <= f.records && tot <= |j.b.data|
    && if DataWaiting(j, f) then Own(j, f) != [] && Remembered(j, f, tot) && Sent(j, Own(j, f), tot + f.wpendRet)
       else Sent(j, Own(j, f), tot) && (f.waiting ==> Own(j, f) == [])
  }

  /** A handshake failed between two attempts, and the buffer may not move: what was in flight
      cannot be resumed any more. */
  ghost predicate Stuck(j: Job, f: Flight, tot: nat)
  {
    && j.before <= f.records && Own(j, f) != [] && !j.s.movingBuffer && DataWaiting(j, f)
    && f.wpendBuf != j.b.address + tot && j.twice == 0 && j.b.data != []
  }

  /** How many bytes of the call's records are written out */
  ghost function Completed(j: Job, f: Flight): int
  {
    |Addresses(Own(j, f))| - (if DataWaiting(j, f) then f.wpendRet else 0)
  }

  /** From f to t, n bytes of the call were written out. */
  ghost predicate Moves(j: Job, f: Flight, t: Flight, n: int)
  {
    (Own(j, f) != [] ==> Own(j, t) != []) && Completed(j, t) == Completed(j, f) + n
  }

  /** What one turn of the loop leaves: the chunk is written, or it can be resumed. */
  ghost predicate Turned(j: Job, f: Flight, tot: nat, i: int)
  {
    if i > 0 then tot + i <= |j.b.data| && i <= j.s.maxSendFragment && !f.waiting && InFlight(j, f, tot + i) && Own(j, f) != []
    else InFlight(j, f, tot) && (DataWaiting(j, f) || Own(j, f) == [])
  }

  lemma PlacedMore(j: Job, at: seq<nat>, n: nat, m: nat)
    requires Placed(j, at, n) && (at == [] ==> j.twice == 0)
    ensures Placed(j, at + Upto(j.b.address + n, m), n + m)
  {
    if j.twice == 0 {
      assert Upto(j.b.address + j.skip, n - j.skip) + Upto(j.b.address + n, m) == Upto(j.b.address + j.skip, n - j.skip + m);
    }
  }

  lemma NoneEmpty(j: Job, rs: seq<Record>)
    requires Fragments(j.s, j.b.kind, rs) && rs != []
    ensures Addresses(rs) != []
  {
    assert rs[|rs| - 1] in rs;
  }

  lemma OneMore(j: Job, rs: seq<Record>, n: nat, r: Record)
    requires Sent(j, rs, n) && r.kind == j.b.kind && 0 < |r.plaintext| <= j.s.maxSendFragment && IsPart(j.b, r)
    requires r.address == j.b.address + n && (rs == [] && SplitWanted(j.s, j.b) ==> |r.plaintext| == 1)
    ensures Sent(j, rs + [r], n + |r.plaintext|)
  {
    if rs != [] {
      NoneEmpty(j, rs);
    }
    PlacedMore(j, Addresses(rs), n, |r.plaintext|);
    AddressesSnoc(rs, r);
    hide Addresses;
    hide Placed;
    hide IsPart;
  }

  lemma OneMoreLater(j: Job, rs: seq<Record>, n: nat, r: Record)
    requires Sent(j, rs, n) && r.kind == j.b.kind && 0 < |r.plaintext| <= j.s.maxSendFragment && IsPart(j.b, r)
    requires r.address == j.b.address + n && rs != []
    ensures Sent(j, rs + [r], n + |r.plaintext|)
  {
    OneMore(j, rs, n, r);
  }

  lemma SentMore(j: Job, rs: seq<Record>, tot: nat, nw: nat, fragment: bool)
    requires tot + nw <= |j.b.data| && 0 < nw <= j.s.maxSendFragment && (fragment ==> nw > 1)
    requires Sent(j, rs, tot) && (rs == [] ==> j.twice == 0 && tot == j.skip)
    requires rs == [] && SplitWanted(j.s, j.b) ==> fragment || nw == 1
    ensures Sent(j, rs + Chunk(j.b.kind, j.b.data[tot..tot + nw], j.b.address + tot, fragment), tot + nw)
  {
    hide Sent;
    var plain, a := j.b.data[tot..tot + nw], j.b.address + tot;
    if fragment {
      var r1, r2 := Record(j.b.kind, a, plain[..1]), Record(j.b.kind, a + 1, plain[1..]);
      assert IsPart(j.b, r1) && IsPart(j.b, r2);
      OneMore(j, rs, tot, r1);
      OneMoreLater(j, rs + [r1], tot + 1, r2);
      assert rs + [r1] + [r2] == rs + Chunk(j.b.kind, plain, a, true);
    } else {
      assert IsPart(j.b, Record(j.b.kind, a, plain));
      OneMore(j, rs, tot, Record(j.b.kind, a, plain));
    }
  }

  lemma {:induction false} ChunkIsOwn(kind: byte, plain: seq<byte>, address: nat, fragment: bool, k: byte)
    requires plain != []
    ensures OfKind(Chunk(kind, plain, address, fragment), k) == if k == kind then Chunk(kind, plain, address, fragment) else []
  {
    var c := Chunk(kind, plain, address, fragment);
    assert OfKind([], k) == [];
    if fragment {
      assert c[..1] == [c[0]] && c[..1][..0] == [];
      assert OfKind([c[0]], k) == if k == kind then [c[0]] else [];
    } else {
      assert c[..0] == [];
    }
  }

  /** A chunk more: the records of a call gain it, if it is theirs. */
  lemma OwnMore(j: Job, f: Flight, t: Flight, kind: byte, plain: seq<byte>, address: nat, fragment: bool)
    requires j.before <= f.records && plain != [] && t.records == f.records + Chunk(kind, plain, address, fragment)
    ensures j.before <= t.records
    ensures Own(j, t) == Own(j, f) + if kind == j.b.kind then Chunk(kind, plain, address, fragment) else []
  {
    ChunkIsOwn(kind, plain, address, fragment, j.b.kind);
    OfKindConcat(f.records[|j.before|..], Chunk(kind, plain, address, fragment), j.b.kind);
    assert t.records[|j.before|..] == f.records[|j.before|..] + Chunk(kind, plain, address, fragment);
    hide OfKind;
  }

  lemma OwnSame(j: Job, f: Flight, t: Flight)
    requires t.records == f.records
    ensures Own(j, t) == Own(j, f)
  {
  }

  /** What the split needs: it is done with the first chunk. */
  ghost predicate SplitReady(j: Job, f: Flight, tot: nat, splitDone: bool)
  {
    Own(j, f) == [] ==> !splitDone && j.twice == 0 && tot == j.skip
  }

  /** A new chunk is taken in whole or waits. */
  lemma ChunkComposed(j: Job, f: Flight, t: Flight, tot: nat, nw: nat, fragment: bool, i: int)
    requires InFlight(j, f, tot) && j.s.maxSendFragment >= 512 && !f.waiting && nw == ChunkSize(j, tot) > 0
    requires (fragment ==> nw > 1) && (Own(j, f) == [] && SplitWanted(j.s, j.b) ==> fragment || nw == 1)
    requires Own(j, f) == [] ==> tot == j.skip
    requires t == Flight(f.records + Chunk(j.b.kind, j.b.data[tot..tot + nw], j.b.address + tot, fragment),
                         i <= 0, nw, j.b.address + tot, j.b.kind, nw)
    requires i > 0 ==> i == nw
    ensures Turned(j, t, tot, i) && Own(j, t) != []
  {
    FlightGives(j, f, tot);
    SizeBound(j, tot);
    hide *;
    OwnMore(j, f, t, j.b.kind, j.b.data[tot..tot + nw], j.b.address + tot, fragment);
    SentMore(j, Own(j, f), tot, nw, fragment);
    ChunkTurned(j, t, tot, nw, i);
  }

  lemma FlightGives(j: Job, f: Flight, tot: nat)
    requires InFlight(j, f, tot) && !f.waiting
    ensures j.before <= f.records && tot <= |j.b.data| && Sent(j, Own(j, f), tot)
  {
    hide Own;
    hide Sent;
  }

  lemma SizeBound(j: Job, tot: nat)
    ensures ChunkSize(j, tot) <= j.s.maxSendFragment && ChunkSize(j, tot) <= |j.b.data| - tot
  {
  }

  lemma ChunkTurned(j: Job, t: Flight, tot: nat, nw: nat, i: int)
    requires j.before <= t.records && Own(j, t) != [] && tot <= |j.b.data| && 0 < nw == ChunkSize(j, tot)
    requires Sent(j, Own(j, t), tot + nw) && t.waiting == (i <= 0) && (i > 0 ==> i == nw)
    requires t.wpendTot == t.wpendRet == nw && t.wpendBuf == j.b.address + tot && t.wpendType == j.b.kind
    ensures Turned(j, t, tot, i)
  {
    hide Own;
    hide Sent;
  }

  lemma ChunkNew(j: Job, f: Flight, t: Flight, tot: nat, splitDone: bool, bio: seq<Taken>, i: int)
    requires InFlight(j, f, tot) && j.s.maxSendFragment >= 512 && SplitReady(j, f, tot, splitDone) && !f.waiting
    requires tot == |j.b.data| ==> Own(j, f) == []
    requires TurnStep(j.s, j.b, tot, splitDone, f, t, bio, i)
    ensures Turned(j, t, tot, i) && (Willing(bio) && tot < |j.b.data| ==> i > 0)
    ensures Own(j, f) != [] ==> Own(j, t) != []
  {
    hide Sent;
    hide Own;
    hide Chunk;
    hide Turned;
    if tot < |j.b.data| {
      ChunkComposed(j, f, t, tot, ChunkSize(j, tot), Splits(j.s, j.b, tot, splitDone), i);
    } else {
      NothingTurned(j, f, tot, i);
    }
  }

  lemma NothingTurned(j: Job, f: Flight, tot: nat, i: int)
    requires InFlight(j, f, tot) && Own(j, f) == [] && i <= 0
    ensures Turned(j, f, tot, i)
  {
  }

  lemma ChunkRetried(j: Job, f: Flight, t: Flight, tot: nat, splitDone: bool, bio: seq<Taken>, i: int)
    requires InFlight(j, f, tot) && j.s.maxSendFragment >= 512 && f.waiting
    requires TurnStep(j.s, j.b, tot, splitDone, f, t, bio, i)
    ensures Turned(j, t, tot, i) && (Willing(bio) && DataWaiting(j, f) ==> i > 0)
    ensures Own(j, t) == Own(j, f)
  {
    OwnSame(j, f, t);
    if DataWaiting(j, f) {
      SentMoves(j, Own(j, f), tot + f.wpendRet);
    }
    hide Sent;
    hide Own;
  }

  lemma SentMoves(j: Job, rs: seq<Record>, n: nat)
    requires Sent(j, rs, n)
    ensures j.twice > 0 ==> j.s.movingBuffer
  {
  }

  lemma StuckStep(j: Job, f: Flight, t: Flight, tot: nat, splitDone: bool, bio: seq<Taken>, i: int)
    requires Stuck(j, f, tot) && tot <= |j.b.data| && TurnStep(j.s, j.b, tot, splitDone, f, t, bio, i)
    ensures i <= 0 && t == f
  {
    hide Own;
  }

  // ---------- between the calls ----------

  /** Nothing of the call is composed yet, and whatever the count says is left out; or a chunk waits
      at the count; or the call is past any progress. */
  ghost predicate Between(j: Job, f: Flight, wnum: nat)
  {
    && j.before <= f.records
    && if Own(j, f) == [] then !DataWaiting(j, f) && j.twice == 0 && j.skip == wnum
       else DataWaiting(j, f) && (InFlight(j, f, wnum) || (Stuck(j, f, 0) && wnum == 0))
  }

  /** Every byte of the buffer up to r left, but for what `skip` and `twice` say; nothing waits. */
  ghost predicate Written(j: Job, f: Flight, r: int)
  {
    && 0 < r <= |j.b.data| && (r < |j.b.data| ==> j.s.partialWrite && j.b.kind == APPLICATION_DATA)
    && !f.waiting && j.before <= f.records && Own(j, f) != [] && Sent(j, Own(j, f), r)
  }

  /** What a result says: written, or the call may be repeated. */
  ghost predicate Outcome(j: Job, f: Flight, wnum: nat, r: int)
  {
    if r > 0 then Written(j, f, r) && wnum == 0 else Between(j, f, wnum)
  }

  /** When a call must succeed, when it must not, and that it counts what it wrote */
  ghost predicate Progressed(j: Job, start: nat, bio: seq<seq<Taken>>, flying: bool, wnum: nat, r: int)
  {
    && (flying && start < |j.b.data| && AllWilling(j.b, bio) ==> r > 0)
    && (start == 0 && |bio| == 1 && j.s.maxSendFragment < |j.b.data| && !j.s.partialWrite ==> r <= 0)
    && (flying && start < |j.b.data| && bio != [] && Willing(bio[0]) && r <= 0 ==> wnum > 0)
  }

  /** The BIO takes all it is offered. */
  predicate AllWilling(b: Buffer, bio: seq<seq<Taken>>)
  {
    |b.data| <= |bio| && forall k :: 0 <= k < |bio| ==> Willing(bio[k])
  }

  /** A write of the call's bytes from `start` on can make progress. */
  ghost predicate Flying(j: Job, f: Flight, start: nat)
  {
    InFlight(j, f, start) && (f.waiting ==> DataWaiting(j, f))
  }

  /** Where the loop may stand after k chunks */
  ghost predicate Going(j: Job, f: Flight, start: nat, bio: seq<seq<Taken>>, flying: bool, tot: nat, k: nat, splitDone: bool)
  {
    && j.s.maxSendFragment >= 512 && tot <= |j.b.data| && k <= tot
    && SplitReady(j, f, tot, splitDone)
    && (tot == |j.b.data| ==> Own(j, f) == []) && (k > 0 ==> !f.waiting && Own(j, f) != [])
    && (InFlight(j, f, tot) || (Stuck(j, f, tot) && tot == 0 && !flying))
    && (flying ==> f.waiting ==> DataWaiting(j, f))
    && (flying && start < |j.b.data| ==> tot < |j.b.data|)
    && (start == 0 && |bio| == 1 ==> k <= 1 && tot <= (if k == 0 then 0 else j.s.maxSendFragment))
  }

  /** Once the handshake is done, with nothing changed for the call */
  lemma Starts(j: Job, f: Flight, start: nat, bio: seq<seq<Taken>>)
    requires Between(j, f, start) && start <= |j.b.data| && j.s.maxSendFragment >= 512
    ensures Going(j, f, start, bio, Flying(j, f, start), start, 0, false)
  {
    assert Addresses([]) == [];
    hide Own;
    hide Addresses;
  }

  function Nth(bio: seq<seq<Taken>>, k: nat): seq<Taken>
  {
    if k < |bio| then bio[k] else []
  }

  /** After a turn the call ends with its outcome, or the loop goes on. */
  lemma TurnIsDone(
    j: Job, f: Flight, t: Flight, start: nat, bio: seq<seq<Taken>>, flying: bool, tot: nat, k: nat, i: int, splitDone: bool,
    done: bool)
    requires Going(j, f, start, bio, flying, tot, k, splitDone) && TurnStep(j.s, j.b, tot, splitDone, f, t, Nth(bio, k), i)
    ensures i <= 0 ==> Outcome(j, t, tot, i) && Progressed(j, start, bio, flying, tot, i)
    ensures i > 0 && (tot + i == |j.b.data| || (j.b.kind == APPLICATION_DATA && j.s.partialWrite)) ==>
      Outcome(j, t, 0, tot + i) && Progressed(j, start, bio, flying, 0, tot + i)
    ensures i > 0 && tot + i < |j.b.data| ==> Going(j, t, start, bio, flying, tot + i, k + 1, done)
    ensures Moves(j, f, t, if i > 0 then i else 0)
  {
    if InFlight(j, f, tot) {
      if f.waiting {
        ChunkRetried(j, f, t, tot, splitDone, Nth(bio, k), i);
      } else {
        ChunkNew(j, f, t, tot, splitDone, Nth(bio, k), i);
      }
      hide TurnStep;
      TurnMoves(j, f, t, tot, i);
      TurnOfFlight(j, f, t, start, bio, flying, tot, k, i, splitDone, done);
    } else {
      StuckStep(j, f, t, tot, splitDone, Nth(bio, k), i);
      hide TurnStep;
      hide InFlight;
      hide Own;
    }
  }

  lemma TurnOfFlight(
    j: Job, f: Flight, t: Flight, start: nat, bio: seq<seq<Taken>>, flying: bool, tot: nat, k: nat, i: int, splitDone: bool,
    done: bool)
    requires Going(j, f, start, bio, flying, tot, k, splitDone) && InFlight(j, f, tot) && Turned(j, t, tot, i)
    requires Willing(Nth(bio, k)) && tot < |j.b.data| && (f.waiting ==> DataWaiting(j, f)) ==> i > 0
    requires Nth(bio, k) == [] ==> i <= 0
    ensures i <= 0 ==> Outcome(j, t, tot, i) && Progressed(j, start, bio, flying, tot, i)
    ensures i > 0 && (tot + i == |j.b.data| || (j.b.kind == APPLICATION_DATA && j.s.partialWrite)) ==>
      Outcome(j, t, 0, tot + i) && Progressed(j, start, bio, flying, 0, tot + i)
    ensures i > 0 && tot + i < |j.b.data| ==> Going(j, t, start, bio, flying, tot + i, k + 1, done)
  {
    NothingSent(j, tot);
    hide Sent;
    hide Own;
    hide Remembered;
  }

  lemma TurnMoves(j: Job, f: Flight, t: Flight, tot: nat, i: int)
    requires InFlight(j, f, tot) && Turned(j, t, tot, i) && (Own(j, f) != [] ==> Own(j, t) != [])
    ensures Moves(j, f, t, if i > 0 then i else 0)
  {
    hide Own;
    hide Addresses;
  }

  lemma NothingSent(j: Job, n: nat)
    ensures Sent(j, [], n) ==> j.twice == 0 && j.skip == n
  {
    assert Addresses([]) == [];
  }

  // ---------- handshakes ----------

  /** From f to t nothing was composed for the call; while a record of it waits nothing moves at all. */
  ghost predicate Untouched(j: Job, f: Flight, t: Flight)
  {
    && j.before <= f.records && j.before <= t.records && Own(j, t) == Own(j, f)
    && if DataWaiting(j, f) then t == f else !DataWaiting(j, t)
  }

  /** A turn for a message of another type */
  lemma OtherTurn(
    j: Job, s: Settings, b: Buffer, tot: nat, splitDone: bool, f: Flight, t: Flight, bio: seq<Taken>, i: int)
    requires b.kind != j.b.kind && tot <= |b.data| && s.maxSendFragment >= 512 && TurnStep(s, b, tot, splitDone, f, t, bio, i)
    requires j.before <= f.records
    ensures Untouched(j, f, t) && (DataWaiting(j, f) ==> i <= 0)
  {
    if f.waiting || tot == |b.data| {
      OwnSame(j, f, t);
    } else {
      var nw := Least(|b.data| - tot, s.maxSendFragment);
      OwnMore(j, f, t, b.kind, b.data[tot..tot + nw], b.address + tot, Splits(s, b, tot, splitDone));
    }
    hide Own;
    hide Chunk;
  }

  lemma UntouchedTwice(j: Job, f: Flight, g: Flight, t: Flight)
    requires Untouched(j, f, g) && Untouched(j, g, t)
    ensures Untouched(j, f, t)
  {
    hide Own;
  }

  lemma UntouchedNot(j: Job, f: Flight)
    ensures j.before <= f.records <==> Untouched(j, f, f)
  {
    hide Own;
  }

  /** How many bytes go out twice when a handshake fails while a chunk waits: the count of what is
      written is lost. Where the buffer may not move, the retry is refused instead. */
  function LostBy(s: Settings, wnum: nat): nat
  {
    if s.movingBuffer then wnum else 0
  }

  /** The call after an attempt that began with the count `start` and left the count w */
  ghost function After(j: Job, f: Flight, start: nat, done: bool, w: nat): Job
  {
    if DataWaiting(j, f) then (if done then j else j.(twice := j.twice + LostBy(j.s, start)))
    else if done && start <= |j.b.data| then j
    else j.(skip := w)
  }

  lemma FailedAfter(j: Job, f: Flight, start: nat, g: Flight, w: nat)
    requires Between(j, f, start) && Untouched(j, f, g) && (DataWaiting(j, f) ==> w == 0)
    ensures Between(After(j, f, start, false, w), g, w)
  {
    var j' := After(j, f, start, false, w);
    OwnOfAfter(j, f, start, false, w, g);
    if DataWaiting(j, f) && InFlight(j, f, start) {
      SentMoves(j, Own(j, f), start + f.wpendRet);
      if j.s.movingBuffer && start > 0 {
        SentTwice(j, Own(j, f), start, f.wpendRet);
      }
      hide Sent;
    }
    hide Own;
  }

  /** The count is lost: n bytes more than the new count says */
  lemma SentTwice(j: Job, rs: seq<Record>, start: nat, n: nat)
    requires Sent(j, rs, start + n) && j.s.movingBuffer && rs != []
    ensures start > 0 ==> Sent(j.(twice := j.twice + start), rs, n)
  {
    hide Addresses;
  }

  lemma OwnOfAfter(j: Job, f: Flight, start: nat, done: bool, w: nat, g: Flight)
    ensures Own(After(j, f, start, done, w), g) == Own(j, g)
  {
  }

  lemma TooLongAfter(j: Job, f: Flight, start: nat, g: Flight)
    requires Between(j, f, start) && Untouched(j, f, g) && start > |j.b.data|
    ensures Between(After(j, f, start, true, 0), g, 0)
  {
    OwnOfAfter(j, f, start, true, 0, g);
    hide Own;
    hide Sent;
  }

  lemma DoneAfter(j: Job, f: Flight, start: nat, g: Flight, w: nat)
    requires Between(j, f, start) && Untouched(j, f, g) && start <= |j.b.data|
    ensures Between(j, g, start) && After(j, f, start, true, w) == j
  {
    hide Own;
    hide Sent;
  }

  /** A message of the handshake, and the BIO's writes for it */
  datatype Message = Message(b: Buffer, bio: seq<seq<Taken>>)

  /** The handshake that a call has to complete first: the messages it writes, and its result when
      all of them are written. With no message and the result 1 there is none to do. */
  datatype Handshake = Handshake(messages: seq<Message>, result: int)

  function NoHandshake(): Handshake
  {
    Handshake([], 1)
  }

  /** The messages of a handshake are of other types than the call's data. */
  predicate OtherKinds(h: Handshake, kind: byte)
  {
    forall m :: m in h.messages ==> m.b.kind != kind
  }

  class Writer {
    const settings: Settings
    /** s->s3->wnum and s->s3->record_split_done */
    var wnum: nat
    var recordSplitDone: bool
    /** s->s3->wbuf: what is still to be written of it */
    var pending: seq<byte>
    /** s->s3->wpend_* */
    var wpendTot: nat
    var wpendBuf: nat
    var wpendType: byte
    var wpendRet: nat
    /** Number of the next record */
    var writeSequence: nat
    /** What the BIO took */
    var wire: seq<byte>
    /** The records composed so far */
    ghost var records: seq<Record>

    ghost predicate Valid()
      reads this`pending, this`writeSequence, this`wire, this`records, this`wpendTot, this`wpendRet
    {
      && ValidSettings(settings) && (pending != [] ==> 0 < wpendRet == wpendTot)
      && writeSequence == |records| && wire + pending == Wires(settings, 0, records)
    }

    /** What a retry depends on */
    ghost function Now(): Flight
      reads this`records, this`pending, this`wpendTot, this`wpendBuf, this`wpendType, this`wpendRet
    {
      Flight(records, pending != [], wpendTot, wpendBuf, wpendType, wpendRet)
    }

    lemma NowIs()
      ensures Now() == Flight(records, pending != [], wpendTot, wpendBuf, wpendType, wpendRet)
      ensures Valid() && pending == [] ==> wire == Wires(settings, 0, records)
    {
      assert wire + [] == wire;
    }

    constructor (settings: Settings)
      requires ValidSettings(settings)
      ensures Valid() && this.settings == settings && records == [] && wire == [] && pending == [] && wnum == 0
      ensures !recordSplitDone
    {
      this.settings := settings;
      wnum, recordSplitDone, pending, writeSequence, wire := 0, false, [], 0, [];
      wpendTot, wpendBuf, wpendType, wpendRet := 0, 0, 0, 0;
      records := [];
    }

    /** `ssl3_write_pending`. `bio` holds what BIO_write does, call after call. */
    method WritePending(kind: byte, address: nat, len: nat, bio: seq<Taken>) returns (i: int)
      requires Valid() && pending != []
      modifies this`pending, this`wire
      ensures Valid() && wire + pending == old(wire + pending)
      ensures i > 0 ==> pending == [] && i == wpendRet
      ensures BadRetry(settings, wpendTot, wpendBuf, wpendType, kind, address, len) ==> i == -1 && pending == old(pending)
      ensures i <= 0 ==> pending != []
      ensures i <= len
      ensures bio == [] ==> i <= 0
      ensures Willing(bio) && !BadRetry(settings, wpendTot, wpendBuf, wpendType, kind, address, len) ==> i == wpendRet
    {
      if BadRetry(settings, wpendTot, wpendBuf, wpendType, kind, address, len) {
        return -1;
      }
      var k := 0;
      while true
        invariant pending != [] && wire + pending == old(wire + pending)
        invariant k > 0 ==> !Willing(bio) && bio != []
        decreases |pending|
      {
        i := BioWrite(if k < |bio| then bio[k] else Refused(-1), |pending|);
        if i == |pending| {
          wire, pending := wire + pending, [];
          return wpendRet;
        } else if i <= 0 {
          return;
        }
        wire, pending := wire + pending[..i], pending[i..];
        k := k + 1;
      }
    }

    /** What is on the wire or waits for it are the records composed so far. */
    ghost predicate Accounted()
      reads this`pending, this`writeSequence, this`wire, this`records
    {
      && ValidSettings(settings)
      && writeSequence == |records| && wire + pending == Wires(settings, 0, records)
    }

    /** Composes a record into the buffer. */
    method Compose(r: Record) returns (length: nat)
      requires Accounted()
      modifies this`pending, this`writeSequence, this`records
      ensures Accounted() && pending != [] && records == old(records) + [r]
      ensures |r.plaintext| == 1 ==> length <= HEADER_LENGTH + SEND_MAX_ENCRYPTED_OVERHEAD
    {
      ghost var before := wire + pending;
      var w := Wire(settings, writeSequence, r);
      WiresSnoc(settings, 0, records, r);
      pending := pending + w;
      writeSequence := writeSequence + 1;
      records := records + [r];
      length := |w|;
      assert wire + pending == before + w;
    }

    lemma ValidIs()
      ensures Valid() <==> Accounted() && (pending != [] ==> 0 < wpendRet == wpendTot)
    {
    }

    /** `do_ssl3_write`, with no alert to send: the one-byte record, if any, is composed first and
        leaves with the rest. */
    method DoWrite(kind: byte, plain: seq<byte>, address: nat, fragment: bool, bio: seq<Taken>) returns (i: int)
      requires Valid() && (fragment ==> |plain| > 1)
      modifies this`pending, this`wire, this`writeSequence, this`records
      modifies this`wpendTot, this`wpendBuf, this`wpendType, this`wpendRet
      ensures Valid() && WriteStep(settings, old(Now()), Now(), kind, plain, address, fragment, bio, i)
    {
      hide Valid;
      hide Accounted;
      ValidIs();
      if pending != [] {
        i := WritePending(kind, address, |plain|, bio);
        return;
      }
      if plain == [] {
        return 0;
      }
      if fragment {
        var prefixLen := Compose(Record(kind, address, plain[..1]));
        if prefixLen > HEADER_LENGTH + SEND_MAX_ENCRYPTED_OVERHEAD {
          return -1;
        }
      }
      var length := Compose(if fragment then Record(kind, address + 1, plain[1..]) else Record(kind, address, plain));
      wpendTot := |plain|;
      wpendBuf := address;
      wpendType := kind;
      wpendRet := |plain|;
      ValidIs();
      i := WritePending(kind, address, |plain|, bio);
    }

    // ---------- ssl3_write_bytes ----------

    lemma LimitIs()
      requires Valid()
      ensures settings.maxSendFragment >= 512
    {
    }

    /** One turn of the loop: the split, if it is to be done, and the chunk */
    method WriteChunk(b: Buffer, tot: nat, bio: seq<Taken>) returns (i: int)
      requires Valid() && tot <= |b.data|
      modifies this
      ensures Valid() && wnum == old(wnum)
      ensures TurnStep(settings, b, tot, old(recordSplitDone), old(Now()), Now(), bio, i)
    {
      hide *;
      LimitIs();
      ghost var f, splitDone := Now(), recordSplitDone;
      var n := |b.data| - tot;
      var fragment := false;
      if n > 1 && settings.splitRecords && b.kind == APPLICATION_DATA && !recordSplitDone {
        fragment := true;
        recordSplitDone := true;
      }
      var nw := Least(n, settings.maxSendFragment);
      i := DoWrite(b.kind, b.data[tot..tot + nw], b.address + tot, fragment, bio);
      IsTurn(settings, b, tot, splitDone, f, Now(), fragment, nw, bio, i);
    }

    /** The loop of `ssl3_write_bytes`. For the call j that it belongs to it has an outcome; a call o
        of another type it leaves alone. */
    method WriteLoop(b: Buffer, start: nat, bio: seq<seq<Taken>>, ghost j: Job, ghost flying: bool, ghost o: Job)
      returns (r: int)
      requires Valid() && wnum == 0 && start <= |b.data|
      modifies this
      ensures Valid() && !recordSplitDone && (r > 0 ==> wnum == 0)
      ensures j.s == settings && j.b == b && old(Going(j, Now(), start, bio, flying, start, 0, recordSplitDone)) ==>
        LoopResult(j, old(Now()), Now(), start, bio, flying, wnum, r)
      ensures b.kind != o.b.kind && o.before <= old(records) ==>
        Untouched(o, old(Now()), Now()) && (DataWaiting(o, old(Now())) ==> r <= 0 && wnum == start)
    {
      hide *;
      ghost var f0 := Now();
      ghost var mine := j.s == settings && j.b == b && Going(j, f0, start, bio, flying, start, 0, recordSplitDone);
      ghost var other := b.kind != o.b.kind && o.before <= records;
      NowIs();
      UntouchedNot(o, f0);
      MovesNot(j, f0);
      LimitIs();
      var tot, k := start, 0;
      while true
        invariant Valid() && wnum == 0 && tot <= |b.data|
        invariant mine ==> Going(j, Now(), start, bio, flying, tot, k, recordSplitDone) && Moves(j, f0, Now(), tot - start)
        invariant other ==> Untouched(o, f0, Now()) && (DataWaiting(o, f0) ==> tot == start)
        decreases |b.data| - tot
      {
        ghost var f, splitDone := Now(), recordSplitDone;
        var i := WriteChunk(b, tot, Nth(bio, k));
        TurnBound(settings, b, tot, splitDone, f, Now(), Nth(bio, k), i);
        if mine {
          TurnIsDone(j, f, Now(), start, bio, flying, tot, k, i, splitDone, recordSplitDone);
          MovesTwice(j, f0, f, Now(), tot - start, if i > 0 then i else 0);
          LoopResultIs(j, f0, Now(), start, bio, flying, tot, i);
        }
        if other {
          UntouchedGives(o, f0, f);
          OtherTurn(o, settings, b, tot, splitDone, f, Now(), Nth(bio, k), i);
          UntouchedTwice(o, f0, f, Now());
        }
        if i <= 0 {
          wnum := tot;
          recordSplitDone := false;
          return i;
        }
        if i == |b.data| - tot || (b.kind == APPLICATION_DATA && settings.partialWrite) {
          recordSplitDone := false;
          return tot + i;
        }
        tot, k := tot + i, k + 1;
      }
    }

    /** A message of the handshake: `ssl3_write_bytes` with no handshake of its own to do */
    method WriteMessage(m: Message, ghost j: Job, ghost o: Job) returns (r: int)
      requires Valid() && !recordSplitDone && wnum == 0 && m.b.kind != o.b.kind && o.before <= records
      modifies this
      ensures Valid() && !recordSplitDone && (r > 0 ==> wnum == 0)
      ensures Untouched(o, old(Now()), Now()) && (DataWaiting(o, old(Now())) ==> r <= 0 && wnum == 0)
      ensures j.s == settings && j.b == m.b && Between(j, old(Now()), 0) ==>
        LoopResult(j, old(Now()), Now(), 0, m.bio, Flying(j, old(Now()), 0), wnum, r)
    {
      hide *;
      LimitIs();
      if j.s == settings && j.b == m.b && Between(j, Now(), 0) {
        Starts(j, Now(), 0, m.bio);
      }
      var tot := wnum;
      wnum := 0;
      if |m.b.data| < tot {
        return -1;
      }
      r := WriteLoop(m.b, tot, m.bio, j, Flying(j, Now(), 0), o);
    }

    /** `handshake_func`, as far as it writes: it stops at the first message that is not written. `last`
        is the result of the last write; j is the call of a single message. */
    method RunHandshake(h: Handshake, ghost j: Job, ghost o: Job) returns (i: int, ghost last: int)
      requires Valid() && !recordSplitDone && wnum == 0 && OtherKinds(h, o.b.kind) && o.before <= records
      modifies this
      ensures Valid() && !recordSplitDone && (i > 0 ==> wnum == 0)
      ensures Untouched(o, old(Now()), Now()) && (DataWaiting(o, old(Now())) ==> wnum == 0)
      ensures i == if last > 0 then h.result else last
      ensures h.messages == [] ==> last == 1 && Now() == old(Now()) && wnum == 0
      ensures |h.messages| == 1 && j.s == settings && j.b == h.messages[0].b && Between(j, old(Now()), 0) ==>
        LoopResult(j, old(Now()), Now(), 0, h.messages[0].bio, Flying(j, old(Now()), 0), wnum, last)
    {
      hide *;
      ghost var f0 := Now();
      NowIs();
      UntouchedNot(o, f0);
      KindsAre(h, o.b.kind);
      last := 1;
      var k := 0;
      while k < |h.messages|
        invariant Valid() && !recordSplitDone && wnum == 0 && last > 0 && k <= |h.messages|
        invariant Untouched(o, f0, Now()) && (DataWaiting(o, f0) ==> k == 0)
        invariant k == 0 ==> Now() == f0 && last == 1
        invariant |h.messages| == 1 && k == 1 && j.s == settings && j.b == h.messages[0].b && Between(j, f0, 0) ==>
          LoopResult(j, f0, Now(), 0, h.messages[0].bio, Flying(j, f0, 0), wnum, last)
      {
        ghost var f := Now();
        NowIs();
        UntouchedGives(o, f0, f);
        var r := WriteMessage(h.messages[k], j, o);
        last := r;
        UntouchedTwice(o, f0, f, Now());
        if r <= 0 {
          return r, last;
        }
        k := k + 1;
      }
      i := h.result;
    }

    /** `ssl3_write_bytes`, with the handshake it may have to complete first. Its result, and the
        count it leaves, are the business of the job that j then is: a failed handshake loses the
        count of a chunk that waits, or leaves its own count. g is the flight after the handshake. */
    method WriteBytes(b: Buffer, h: Handshake, bio: seq<seq<Taken>>, ghost j: Job, ghost hj: Job)
      returns (r: int, done: bool, ghost g: Flight, ghost last: int)
      requires Valid() && j.s == settings && j.b == b && !recordSplitDone && Between(j, Now(), wnum) && OtherKinds(h, b.kind)
      modifies this
      ensures Valid() && !recordSplitDone
      ensures Outcome(After(j, old(Now()), old(wnum), done, wnum), Now(), wnum, r) && (r > 0 ==> done)
      ensures Follows(j, Snapshot(old(wnum), old(Now())), done, Snapshot(wnum, Now()), r)
      ensures Untouched(j, old(Now()), g) && done == ((if last > 0 then h.result else last) > 0) && (!done ==> g == Now())
      ensures done && old(wnum) <= |b.data| ==> Progressed(j, old(wnum), bio, Flying(j, g, old(wnum)), wnum, r)
      ensures h.messages == [] ==> last == 1 && g == old(Now())
      ensures |h.messages| == 1 && hj.s == settings && hj.b == h.messages[0].b && Between(hj, old(Now()), 0) ==>
        LoopResult(hj, old(Now()), g, 0, h.messages[0].bio, Flying(hj, old(Now()), 0), if done then 0 else wnum, last)
    {
      hide *;
      ghost var f := Now();
      LimitIs();
      NowIs();
      BetweenGives(j, f, wnum);
      var tot := wnum;
      wnum := 0;
      var i;
      i, last := RunHandshake(h, hj, j);
      g := Now();
      done := i > 0;
      if i <= 0 {
        FailedAfter(j, f, tot, g, wnum);
        FailedFollows(j, f, tot, g, wnum, if i < 0 then i else -1);
        BetweenIs(After(j, f, tot, false, wnum), g, wnum, if i < 0 then i else -1);
        return if i < 0 then i else -1, false, g, last;
      }
      if |b.data| < tot {
        TooLongAfter(j, f, tot, g);
        TooLongFollows(j, f, tot, g);
        BetweenIs(After(j, f, tot, true, 0), g, 0, -1);
        return -1, true, g, last;
      }
      DoneAfter(j, f, tot, g, 0);
      Starts(j, g, tot, bio);
      r := WriteLoop(b, tot, bio, j, Flying(j, g, tot), j);
      DoneAfter(j, f, tot, g, wnum);
      DoneFollows(j, f, tot, g, Now(), bio, Flying(j, g, tot), wnum, r);
    }
  }

  lemma IsTurn(
    s: Settings, b: Buffer, tot: nat, splitDone: bool, f: Flight, t: Flight, fragment: bool, nw: nat, bio: seq<Taken>, i: int)
    requires tot <= |b.data| && nw == Least(|b.data| - tot, s.maxSendFragment)
    requires fragment <==> |b.data| - tot > 1 && s.splitRecords && b.kind == APPLICATION_DATA && !splitDone
    requires WriteStep(s, f, t, b.kind, b.data[tot..tot + nw], b.address + tot, fragment, bio, i)
    ensures TurnStep(s, b, tot, splitDone, f, t, bio, i)
  {
    hide WriteStep;
  }

  lemma TurnBound(s: Settings, b: Buffer, tot: nat, splitDone: bool, f: Flight, t: Flight, bio: seq<Taken>, i: int)
    requires tot <= |b.data| && TurnStep(s, b, tot, splitDone, f, t, bio, i)
    ensures i <= |b.data| - tot
  {
    hide Chunk;
  }

  lemma MovesNot(j: Job, f: Flight)
    ensures Moves(j, f, f, 0)
  {
    hide Own;
  }

  lemma MovesTwice(j: Job, f: Flight, g: Flight, t: Flight, m: int, n: int)
    requires Moves(j, f, g, m) && Moves(j, g, t, n)
    ensures Moves(j, f, t, m + n)
  {
    hide Own;
    hide Completed;
  }

  lemma UntouchedGives(j: Job, f: Flight, g: Flight)
    requires Untouched(j, f, g)
    ensures j.before <= g.records && (DataWaiting(j, f) ==> g == f)
  {
    hide Own;
  }

  lemma BetweenGives(j: Job, f: Flight, wnum: nat)
    requires Between(j, f, wnum)
    ensures j.before <= f.records
  {
  }

  /** What the loop gives the call it belongs to */
  ghost predicate LoopResult(
    j: Job, f: Flight, t: Flight, start: nat, bio: seq<seq<Taken>>, flying: bool, wnum: nat, r: int)
  {
    && Outcome(j, t, wnum, r) && Progressed(j, start, bio, flying, wnum, r)
    && Moves(j, f, t, (if r > 0 then r else wnum) - start)
  }

  lemma LoopResultIs(j: Job, f: Flight, t: Flight, start: nat, bio: seq<seq<Taken>>, flying: bool, tot: nat, i: int)
    ensures i <= 0 && Outcome(j, t, tot, i) && Progressed(j, start, bio, flying, tot, i) && Moves(j, f, t, tot - start) ==>
      LoopResult(j, f, t, start, bio, flying, tot, i)
    ensures i > 0 && Outcome(j, t, 0, tot + i) && Progressed(j, start, bio, flying, 0, tot + i) && Moves(j, f, t, tot + i - start) ==>
      LoopResult(j, f, t, start, bio, flying, 0, tot + i)
  {
    hide Outcome;
    hide Progressed;
    hide Moves;
  }

  lemma KindsAre(h: Handshake, kind: byte)
    requires OtherKinds(h, kind)
    ensures forall k :: 0 <= k < |h.messages| ==> h.messages[k].b.kind != kind
  {
    forall k | 0 <= k < |h.messages| ensures h.messages[k].b.kind != kind {
      assert h.messages[k] in h.messages;
    }
  }

  lemma BetweenIs(j: Job, f: Flight, wnum: nat, r: int)
    requires Between(j, f, wnum) && r <= 0
    ensures Outcome(j, f, wnum, r)
  {
  }

  // ---------- what an attempt does to the count ----------

  /** What one attempt meets */
  datatype Attempt = Attempt(handshake: Handshake, bio: seq<seq<Taken>>)

  /** The count and the flight between two attempts */
  datatype Snapshot = Snapshot(wnum: nat, flight: Flight)

  /** What the count is after an attempt: with the handshake done, the count before and what was
      written out since; with a failed handshake 0 if a chunk waits, and else whatever that left. */
  ghost predicate Follows(j: Job, f: Snapshot, done: bool, t: Snapshot, r: int)
  {
    if !done then
      r <= 0 && if DataWaiting(j, f.flight) then t == Snapshot(0, f.flight) else Own(j, t.flight) == []
    else if f.wnum > |j.b.data| then r <= 0 && t.wnum == 0 && Own(j, t.flight) == []
    else
      && (Own(j, f.flight) != [] ==> Own(j, t.flight) != [])
      && Completed(j, t.flight) == Completed(j, f.flight) + (if r > 0 then r else t.wnum) - f.wnum
      && (r > 0 ==> t.wnum == 0)
  }

  lemma FailedFollows(j: Job, f: Flight, start: nat, g: Flight, w: nat, r: int)
    requires Between(j, f, start) && Untouched(j, f, g) && (DataWaiting(j, f) ==> w == 0) && r <= 0
    ensures Follows(j, Snapshot(start, f), false, Snapshot(w, g), r)
  {
    hide Own;
    hide InFlight;
  }

  lemma TooLongFollows(j: Job, f: Flight, start: nat, g: Flight)
    requires Between(j, f, start) && Untouched(j, f, g) && start > |j.b.data|
    ensures Follows(j, Snapshot(start, f), true, Snapshot(0, g), -1)
  {
    hide Own;
    hide Sent;
  }

  lemma DoneFollows(
    j: Job, f: Flight, start: nat, g: Flight, t: Flight, bio: seq<seq<Taken>>, flying: bool, wnum: nat, r: int)
    requires Between(j, f, start) && Untouched(j, f, g) && start <= |j.b.data| && LoopResult(j, g, t, start, bio, flying, wnum, r)
    ensures Follows(j, Snapshot(start, f), true, Snapshot(wnum, t), r)
    ensures Outcome(j, t, wnum, r) && Progressed(j, start, bio, flying, wnum, r)
  {
    hide Own;
    hide Addresses;
    hide InFlight;
    hide Written;
    hide Progressed;
    hide Sent;
  }

  /** A handshake fails while a chunk of the call waits, the count is above 0 and the buffer may move. */
  ghost predicate Loses(j: Job, f: Snapshot, done: bool)
  {
    !done && f.wnum > 0 && DataWaiting(j, f.flight) && j.s.movingBuffer
  }

  /** The first record of the call is composed although the count is above 0: something else left it. */
  ghost predicate Skips(j: Job, f: Snapshot, t: Snapshot)
  {
    f.wnum > 0 && Own(j, f.flight) == [] && Own(j, t.flight) != []
  }

  /** The attempts, with what was before and after each: `done` says which handshakes succeeded. */
  ghost predicate Trace(j: Job, states: seq<Snapshot>, done: seq<bool>, r: int)
  {
    && |states| == |done| + 1
    && forall k :: 0 <= k < |done| ==> Follows(j, states[k], done[k], states[k + 1], if k + 1 < |done| then 0 else r)
  }

  ghost predicate NoneLoses(j: Job, states: seq<Snapshot>, done: seq<bool>)
    requires |states| == |done| + 1
  {
    forall k :: 0 <= k < |done| ==> !Loses(j, states[k], done[k])
  }

  ghost predicate NoneSkips(j: Job, states: seq<Snapshot>)
  {
    forall k :: 0 <= k < |states| - 1 ==> !Skips(j, states[k], states[k + 1])
  }

  /** The job that the call has become tells whether any attempt lost a count or skipped bytes. */
  ghost predicate JobIs(j: Job, call: Job, states: seq<Snapshot>, done: seq<bool>)
    requires |states| == |done| + 1
  {
    && j == call.(twice := j.twice, skip := j.skip)
    && (j.twice == 0 <==> NoneLoses(call, states, done))
    && (if Own(call, states[|done|].flight) == [] then NoneSkips(call, states) else j.skip == 0 <==> NoneSkips(call, states))
  }

  lemma LosesSnoc(j: Job, states: seq<Snapshot>, done: seq<bool>, d: bool, t: Snapshot)
    requires |states| == |done| + 1
    ensures NoneLoses(j, states + [t], done + [d]) <==> NoneLoses(j, states, done) && !Loses(j, states[|done|], d)
    ensures NoneSkips(j, states + [t]) <==> NoneSkips(j, states) && !Skips(j, states[|done|], t)
  {
    hide Loses;
    hide Skips;
    var n := |done|;
    assert (states + [t])[n] == states[n] && (states + [t])[n + 1] == t && (done + [d])[n] == d;
    assert forall k :: 0 <= k <= n ==> (states + [t])[k] == states[k];
    assert forall k :: 0 <= k < n ==> (done + [d])[k] == done[k];
  }

  lemma TraceSnoc(j: Job, states: seq<Snapshot>, done: seq<bool>, d: bool, t: Snapshot, r: int)
    requires Trace(j, states, done, 0) && Follows(j, states[|done|], d, t, r)
    ensures Trace(j, states + [t], done + [d], r)
    ensures r <= 0 ==> Trace(j, states + [t], done + [d], 0)
  {
    var all, ds, n := states + [t], done + [d], |done|;
    FollowsWithout(j, states[n], d, t, r);
    hide Follows;
    forall k | 0 <= k < |ds| ensures all[k] == states[k] && (k < n ==> all[k + 1] == states[k + 1] && ds[k] == done[k]) {
    }
  }

  /** A result that is not positive says no more than 0. */
  lemma FollowsWithout(j: Job, f: Snapshot, d: bool, t: Snapshot, r: int)
    ensures r <= 0 && Follows(j, f, d, t, r) ==> Follows(j, f, d, t, 0)
  {
    hide Own;
    hide Completed;
  }

  lemma JobStep(j: Job, call: Job, states: seq<Snapshot>, done: seq<bool>, d: bool, t: Snapshot, r: int)
    requires |states| == |done| + 1 && JobIs(j, call, states, done)
    requires var f := states[|done|];
      Between(j, f.flight, f.wnum) && Follows(j, f, d, t, r)
    ensures JobIs(After(j, states[|done|].flight, states[|done|].wnum, d, t.wnum), call, states + [t], done + [d])
  {
    LosesSnoc(call, states, done, d, t);
    var f := states[|done|];
    assert Own(j, f.flight) == Own(call, f.flight) && Own(j, t.flight) == Own(call, t.flight);
    hide Own;
    hide NoneLoses;
    hide NoneSkips;
    hide Completed;
    hide Sent;
    hide Remembered;
  }

  lemma FollowsAnyJob(j: Job, call: Job, f: Snapshot, d: bool, t: Snapshot, r: int)
    requires j == call.(twice := j.twice, skip := j.skip)
    ensures Follows(j, f, d, t, r) == Follows(call, f, d, t, r)
  {
    assert Own(j, f.flight) == Own(call, f.flight) && Own(j, t.flight) == Own(call, t.flight);
    hide Own;
  }

  /** Each of the first r bytes of the buffer left once, in order. */
  ghost predicate InOrder(b: Buffer, rs: seq<Record>, r: nat)
  {
    Addresses(rs) == Upto(b.address, r)
  }

  /** A call that starts with nothing of it under way */
  lemma FreshCall(j: Job, f: Flight, wnum: nat, r: int)
    requires j.before == f.records && j.twice == 0 && j.skip == wnum && !DataWaiting(j, f)
    ensures Between(j, f, wnum) && JobIs(j, j, [Snapshot(wnum, f)], []) && Trace(j, [Snapshot(wnum, f)], [], 0) && Trace(j, [Snapshot(wnum, f)], [], r)
  {
    assert f.records[|j.before|..] == [];
  }

  /** What the outcome says about the records of the call */
  lemma Final(j: Job, call: Job, f: Flight, wnum: nat, r: int, states: seq<Snapshot>, done: seq<bool>)
    requires Outcome(j, f, wnum, r) && |states| == |done| + 1 && JobIs(j, call, states, done) && states[|done|].flight == f
    ensures call.before <= f.records
    ensures r > 0 ==>
      var own := OfKind(f.records[|call.before|..], call.b.kind);
      && 0 < r <= |call.b.data| && (r < |call.b.data| ==> call.s.partialWrite && call.b.kind == APPLICATION_DATA)
      && !f.waiting && Fragments(call.s, call.b.kind, own) && Parts(call.b, own)
      && own != [] && (SplitWanted(call.s, call.b) ==> |own[0].plaintext| == 1)
      && (InOrder(call.b, own, r) <==> NoneLoses(call, states, done) && NoneSkips(call, states))
      && (InOrder(call.b, own, r) ==> Plaintext(own) == call.b.data[..r])
  {
    if r > 0 {
      var own := Own(j, f);
      assert own == OfKind(f.records[|call.before|..], call.b.kind) == Own(call, f);
      hide Own;
      hide OfKind;
      hide NoneLoses;
      hide NoneSkips;
      OrderedExactly(j, own, r);
      if InOrder(call.b, own, r) {
        InOrderIsEqual(call.b, own, 0, r);
      }
    }
  }

  lemma OrderedExactly(j: Job, rs: seq<Record>, r: nat)
    requires Sent(j, rs, r) && rs != [] && r > 0
    ensures InOrder(j.b, rs, r) <==> j.twice == 0 && j.skip == 0
  {
    hide Addresses;
    if InOrder(j.b, rs, r) {
      assert Upto(j.b.address, r)[0] == j.b.address;
    }
  }

  /** The same call repeated until it succeeds, with the handshakes it meets. `states` and `done` are
      its trace: count and flight between the attempts, and which handshakes succeeded. When it
      returns r > 0, the records of the call keep the limits and all records are on the wire in
      order; each byte of data[..r] left once and in order if and only if no attempt's handshake
      failed with the count of a waiting chunk above 0 and a buffer that may move, and the first
      record was composed with the count 0. */
  method WriteWithRetries(w: Writer, b: Buffer, attempts: seq<Attempt>)
    returns (r: int, done: seq<bool>, ghost states: seq<Snapshot>)
    requires w.Valid() && !w.recordSplitDone && (w.pending != [] ==> w.wpendType != b.kind)
    requires forall a :: a in attempts ==> OtherKinds(a.handshake, b.kind)
    modifies w
    ensures w.Valid() && old(w.records) <= w.records && |done| <= |attempts|
    ensures var call := Job(w.settings, b, old(w.records), 0, old(w.wnum));
      && Trace(call, states, done, r)
      && states[0] == Snapshot(old(w.wnum), old(w.Now())) && states[|done|] == Snapshot(w.wnum, w.Now())
      && (r > 0 ==>
            var own := OfKind(w.records[|old(w.records)|..], b.kind);
            && 0 < r <= |b.data| && (r < |b.data| ==> w.settings.partialWrite && b.kind == APPLICATION_DATA)
            && w.pending == [] && w.wire == Wires(w.settings, 0, w.records)
            && Fragments(w.settings, b.kind, own) && Parts(b, own)
            && own != [] && (SplitWanted(w.settings, b) ==> |own[0].plaintext| == 1)
            && (InOrder(b, own, r) <==> NoneLoses(call, states, done) && NoneSkips(call, states))
            && (InOrder(b, own, r) ==> Plaintext(own) == b.data[..r]))
  {
    hide *;
    ghost var call := Job(w.settings, b, w.records, 0, w.wnum);
    ghost var j := call;
    w.NowIs();
    WaitsForOthers(call, w.Now());
    FreshCall(call, w.Now(), w.wnum, -1);
    BetweenIs(call, w.Now(), w.wnum, -1);
    r, done, states := -1, [], [Snapshot(w.wnum, w.Now())];
    while |done| < |attempts| && r <= 0
      invariant |done| <= |attempts| && |states| == |done| + 1
      invariant w.Valid() && !w.recordSplitDone
      invariant call == Job(w.settings, b, old(w.records), 0, old(w.wnum)) && JobIs(j, call, states, done)
      invariant j == call.(twice := j.twice, skip := j.skip)
      invariant states[0] == Snapshot(old(w.wnum), old(w.Now())) && states[|done|] == Snapshot(w.wnum, w.Now())
      invariant Outcome(j, w.Now(), w.wnum, r)
      invariant Trace(call, states, done, r) && (r <= 0 ==> Trace(call, states, done, 0))
    {
      var a := attempts[|done|];
      OutcomeIs(j, w.Now(), w.wnum, r);
      ghost var f := Snapshot(w.wnum, w.Now());
      var d;
      ghost var g, last;
      r, d, g, last := w.WriteBytes(b, a.handshake, a.bio, j, j);
      ghost var t := Snapshot(w.wnum, w.Now());
      JobStep(j, call, states, done, d, t, r);
      FollowsAnyJob(j, call, f, d, t, r);
      TraceSnoc(call, states, done, d, t, r);
      AfterIs(j, call, f.flight, f.wnum, d, w.wnum);
      j := After(j, f.flight, f.wnum, d, w.wnum);
      done, states := done + [d], states + [t];
    }
    Final(j, call, w.Now(), w.wnum, r, states, done);
    w.NowIs();
  }

  lemma WaitsForOthers(j: Job, f: Flight)
    requires f.waiting ==> f.wpendType != j.b.kind
    ensures !DataWaiting(j, f)
  {
  }

  lemma OutcomeIs(j: Job, f: Flight, wnum: nat, r: int)
    requires Outcome(j, f, wnum, r) && r <= 0
    ensures Between(j, f, wnum)
  {
  }

  lemma AfterIs(j: Job, call: Job, f: Flight, start: nat, d: bool, w: nat)
    requires j == call.(twice := j.twice, skip := j.skip)
    ensures var k := After(j, f, start, d, w); k == call.(twice := k.twice, skip := k.skip)
  {
  }

  // ---------- both ways to fail ----------

  /** A BIO that takes everything */
  function Everywhere(b: Buffer): (bio: seq<seq<Taken>>)
    ensures AllWilling(b, bio)
  {
    seq(|b.data|, _ => [Everything])
  }

  lemma KindsOfNone(result: int, kind: byte)
    ensures OtherKinds(Handshake([], result), kind) && NoHandshake() == Handshake([], 1)
  {
  }

  lemma LosesGives(j: Job, f: Flight, start: nat, t: Snapshot, r: int)
    requires Loses(j, Snapshot(start, f), false) && Follows(j, Snapshot(start, f), false, t, r)
    ensures t == Snapshot(0, f) && After(j, f, start, false, 0) == j.(twice := j.twice + start) && start > 0
    ensures DataWaiting(j.(twice := j.twice + start), f) && j.s.movingBuffer
  {
  }

  lemma FlyingAgain(j: Job, f: Flight)
    requires Between(j, f, 0) && DataWaiting(j, f) && j.s.movingBuffer
    ensures Flying(j, f, 0) && j.b.data != []
  {
    hide Sent;
  }

  /** How many bytes went out, and which if none twice */
  lemma WrittenGives(j: Job, f: Flight, wnum: nat, r: int)
    requires Outcome(j, f, wnum, r) && r > 0
    ensures j.before <= f.records && r <= |j.b.data| && (j.s.partialWrite || r == |j.b.data|) && !f.waiting
    ensures var own := OfKind(f.records[|j.before|..], j.b.kind);
      && |Plaintext(own)| == r + j.twice - j.skip
      && (j.twice == 0 ==> j.skip <= r && Plaintext(own) == j.b.data[j.skip..r])
  {
    var own := OfKind(f.records[|j.before|..], j.b.kind);
    assert own == Own(j, f) && Sent(j, own, r);
    hide Own;
    hide OfKind;
    SentBytes(j, own, r);
  }

  lemma SentBytes(j: Job, rs: seq<Record>, r: nat)
    requires Sent(j, rs, r) && r <= |j.b.data|
    ensures |Plaintext(rs)| == r + j.twice - j.skip
    ensures j.twice == 0 ==> j.skip <= r && Plaintext(rs) == j.b.data[j.skip..r]
  {
    SameLength(rs);
    hide Plaintext;
    hide Fragments;
    hide Addresses;
    if j.twice == 0 {
      InOrderIsEqual(j.b, rs, j.skip, r - j.skip);
    }
  }

  /** From every state in which a failed handshake loses the count, the next attempt that completes
      returns after it sent more than it says. */
  method SendsTwice(w: Writer, b: Buffer, ghost before: seq<Record>) returns (r: int)
    requires w.Valid() && !w.recordSplitDone
    requires var j := Job(w.settings, b, before, 0, 0);
      Between(j, w.Now(), w.wnum) && Loses(j, Snapshot(w.wnum, w.Now()), false)
    modifies w
    ensures w.Valid() && before <= w.records && 0 < r <= |b.data| && (w.settings.partialWrite || r == |b.data|)
    ensures |Plaintext(OfKind(w.records[|before|..], b.kind))| == r + old(w.wnum) > r
  {
    hide *;
    ghost var j := Job(w.settings, b, before, 0, 0);
    ghost var f, start := w.Now(), w.wnum;
    KindsOfNone(0, b.kind);
    KindsOfNone(1, b.kind);
    var failed, done;
    ghost var g, last;
    failed, done, g, last := w.WriteBytes(b, Handshake([], 0), [], j, j);
    LosesGives(j, f, start, Snapshot(w.wnum, w.Now()), failed);
    j := j.(twice := start);
    OutcomeIs(j, f, 0, failed);
    FlyingAgain(j, f);
    r, done, g, last := w.WriteBytes(b, NoHandshake(), Everywhere(b), j, j);
    ProgressGives(j, 0, Everywhere(b), w.wnum, r);
    DoneIsSame(j, f, 0, w.wnum);
    WrittenGives(j, w.Now(), w.wnum, r);
    w.NowIs();
  }

  lemma ProgressGives(j: Job, start: nat, bio: seq<seq<Taken>>, wnum: nat, r: int)
    requires Progressed(j, start, bio, true, wnum, r) && start < |j.b.data|
    ensures AllWilling(j.b, bio) ==> r > 0
    ensures start == 0 && |bio| == 1 && j.s.maxSendFragment < |j.b.data| && !j.s.partialWrite ==> r <= 0
    ensures bio != [] && Willing(bio[0]) && r <= 0 ==> wnum > 0
  {
  }

  lemma DoneIsSame(j: Job, f: Flight, start: nat, w: nat)
    requires start <= |j.b.data|
    ensures After(j, f, start, true, w) == j
  {
  }

  /** From every state in which nothing of the call is composed, nothing waits and the count is above
      0, the next attempt that completes leaves out as many bytes as the count says. */
  method SkipsFront(w: Writer, b: Buffer, ghost before: seq<Record>) returns (r: int)
    requires w.Valid() && !w.recordSplitDone && w.pending == [] && 0 < w.wnum < |b.data|
    requires var j := Job(w.settings, b, before, 0, w.wnum); before <= w.records && Own(j, w.Now()) == []
    modifies w
    ensures w.Valid() && before <= w.records && 0 < r <= |b.data| && (w.settings.partialWrite || r == |b.data|)
    ensures old(w.wnum) <= r && Plaintext(OfKind(w.records[|before|..], b.kind)) == b.data[old(w.wnum)..r]
  {
    hide *;
    ghost var j := Job(w.settings, b, before, 0, w.wnum);
    ghost var f, start := w.Now(), w.wnum;
    KindsOfNone(1, b.kind);
    w.NowIs();
    FrontIs(j, f, start);
    var done;
    ghost var g, last;
    r, done, g, last := w.WriteBytes(b, NoHandshake(), Everywhere(b), j, j);
    ProgressGives(j, start, Everywhere(b), w.wnum, r);
    DoneIsSame(j, f, start, w.wnum);
    WrittenGives(j, w.Now(), w.wnum, r);
    w.NowIs();
  }

  lemma FrontIs(j: Job, f: Flight, start: nat)
    requires j.before <= f.records && Own(j, f) == [] && !f.waiting && j.twice == 0 && j.skip == start <= |j.b.data|
    ensures Between(j, f, start) && Flying(j, f, start)
  {
    assert Addresses([]) == [];
    hide Own;
    hide Addresses;
  }

  function Plain(): Settings
  {
    Settings(512, false, false, true, (3, 3), (n: nat, k: byte, p: seq<byte>) => p)
  }

  function Sample(kind: byte): Buffer
  {
    Buffer(kind, seq(1536, _ => 0), 0)
  }

  /** The first state is reached: of three records' worth of data the BIO takes the first. */
  method ThreeChunks() returns (w: Writer, r: int)
    ensures r == 1536 && |Plaintext(OfKind(w.records, APPLICATION_DATA))| > 1536
  {
    hide *;
    PlainIs();
    SampleIs(APPLICATION_DATA);
    KindsOfNone(1, APPLICATION_DATA);
    var b := Sample(APPLICATION_DATA);
    w := new Writer(Plain());
    ghost var j := Job(Plain(), b, [], 0, 0);
    w.NowIs();
    FrontOfNew(j, w.Now());
    FrontIs(j, w.Now(), 0);
    var failed, done;
    ghost var f, g, last := w.Now(), w.Now(), 0;
    failed, done, g, last := w.WriteBytes(b, NoHandshake(), [[Everything]], j, j);
    ProgressGives(j, 0, [[Everything]], w.wnum, failed);
    DoneIsSame(j, f, 0, w.wnum);
    OneTaken();
    OutcomeIs(j, w.Now(), w.wnum, failed);
    WaitsAtCount(j, w.Now(), w.wnum);
    r := SendsTwice(w, b, []);
    assert w.records[0..] == w.records;
  }

  lemma PlainIs()
    ensures ValidSettings(Plain()) && Plain().maxSendFragment == 512 && Plain().movingBuffer && !Plain().partialWrite
  {
  }

  lemma SampleIs(kind: byte)
    ensures Sample(kind).kind == kind && |Sample(kind).data| == 1536
  {
  }

  lemma OneTaken()
    ensures Willing([Everything])
  {
  }

  lemma FrontOfNew(j: Job, f: Flight)
    requires j.before == [] == f.records
    ensures j.before <= f.records && Own(j, f) == []
  {
  }

  lemma WaitsAtCount(j: Job, f: Flight, w: nat)
    requires Between(j, f, w) && w > 0 && j.skip == 0 && j.s.movingBuffer
    ensures Loses(j, Snapshot(w, f), false) && InFlight(j, f, w) && w < |j.b.data| && DataWaiting(j, f)
  {
    hide Sent;
  }

  /** The second state is reached, and the bytes are left out: of a handshake message of three records
      the BIO takes the first, so that the attempt fails with a count above 0. In the next one the
      handshake is done, and the data goes out from there on. */
  method LeftByHandshake() returns (w: Writer, r: int)
    ensures r == 1536 && |Plaintext(OfKind(w.records, APPLICATION_DATA))| < 1536
  {
    assert HANDSHAKE != APPLICATION_DATA;
    hide *;
    PlainIs();
    SampleIs(APPLICATION_DATA);
    SampleIs(HANDSHAKE);
    OneTaken();
    var b, m := Sample(APPLICATION_DATA), Sample(HANDSHAKE);
    w := new Writer(Plain());
    ghost var j, hj := Job(Plain(), b, [], 0, 0), Job(Plain(), m, [], 0, 0);
    w.NowIs();
    ghost var f0 := w.Now();
    FrontOfNew(j, f0);
    FrontOfNew(hj, f0);
    FrontIs(j, f0, 0);
    FrontIs(hj, f0, 0);
    var h1, h2 := Handshake([Message(m, [[Everything]])], 1), Handshake([Message(m, Everywhere(m))], 1);
    KindsOfOne(h1, b.kind);
    KindsOfOne(h2, b.kind);
    var failed, done;
    ghost var g, last;
    failed, done, g, last := w.WriteBytes(b, h1, [], j, hj);
    ghost var f1, left := w.Now(), w.wnum;
    LoopGives(hj, f0, g, 0, [[Everything]], if done then 0 else left, last);
    ProgressGives(hj, 0, [[Everything]], if done then 0 else left, last);
    OutcomeIs(hj, g, left, last);
    WaitsAtCount(hj, g, left);
    NotDone(j, f0, Snapshot(left, f1), failed);
    OutcomeIs(j.(skip := left), f1, left, failed);
    // the message again
    UntouchedNot(hj, f1);
    BetweenGives(hj, f1, left);
    RetryOfMessage(hj, f1, left);
    hj := hj.(twice := left);
    FlyingAgain(hj, f1);
    r, done, g, last := w.WriteBytes(b, h2, Everywhere(b), j.(skip := left), hj);
    ghost var count := w.wnum;
    LoopGives(hj, f1, g, 0, Everywhere(m), if done then 0 else count, last);
    ProgressGives(hj, 0, Everywhere(m), if done then 0 else count, last);
    WrittenGives(hj, g, 0, last);
    j := j.(skip := left);
    StillNothing(j, f1, g, left);
    FrontIs(j, g, left);
    ProgressGives(j, left, Everywhere(b), w.wnum, r);
    DoneIsSame(j, f1, left, w.wnum);
    WrittenGives(j, w.Now(), w.wnum, r);
    w.NowIs();
    assert w.records[0..] == w.records;
  }

  lemma KindsOfOne(h: Handshake, kind: byte)
    requires |h.messages| == 1 && h.messages[0].b.kind != kind
    ensures OtherKinds(h, kind)
  {
  }

  lemma LoopGives(j: Job, f: Flight, t: Flight, start: nat, bio: seq<seq<Taken>>, wnum: nat, r: int)
    requires LoopResult(j, f, t, start, bio, true, wnum, r)
    ensures Outcome(j, t, wnum, r) && Progressed(j, start, bio, true, wnum, r)
  {
  }

  lemma NotDone(j: Job, f: Flight, t: Snapshot, r: int)
    requires Own(j, f) == [] && !f.waiting && Outcome(After(j, f, 0, false, t.wnum), t.flight, t.wnum, r)
    ensures Outcome(j.(skip := t.wnum), t.flight, t.wnum, r)
  {
  }

  lemma RetryOfMessage(j: Job, f: Flight, left: nat)
    requires Between(j, f, left) && Untouched(j, f, f) && DataWaiting(j, f) && j.s.movingBuffer && j.twice == 0
    ensures Between(j.(twice := left), f, 0) && DataWaiting(j.(twice := left), f)
  {
    FailedAfter(j, f, left, f, 0);
  }

  lemma StillNothing(j: Job, f: Flight, g: Flight, left: nat)
    requires Between(j, f, left) && Untouched(j, f, g) && left > 0 && j.skip == left && f.waiting && f.wpendType != j.b.kind
    ensures j.before <= g.records && Own(j, g) == []
  {
    hide Own;
  }
}
