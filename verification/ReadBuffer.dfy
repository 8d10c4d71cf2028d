/**
 The record layer's read buffer (ssl/s3_pkt.c, `ssl3_read_n`, and ssl/s3_both.c): bytes are
 moved about in place, read ahead and handed out as packets, and none is lost.
 */
module ReadBuffer {
  import opened Bits

  const HEADER_LENGTH: nat := 5
  const APPLICATION_DATA: byte := 23

  /** What a call of BIO_read does: it delivers some bytes, or fails with a code. */
  datatype BioRead = Data(bytes: seq<byte>) | Failed(code: int)

  function Concat(packets: seq<seq<byte>>): seq<byte>
  {
    if packets == [] then [] else Concat(packets[..|packets| - 1]) + packets[|packets| - 1]
  }

  lemma ConcatSnoc(packets: seq<seq<byte>>, p: seq<byte>)
    ensures Concat(packets + [p]) == Concat(packets) + p
  {
    assert (packets + [p])[..|packets|] == packets;
  }

  /** The first reads delivered these bytes, each as many as there was room for. */
  ghost predicate Pieces(bio: seq<BioRead>, ps: seq<seq<byte>>)
  {
    && |ps| <= |bio|
    && forall i :: 0 <= i < |ps| ==> bio[i].Data? && 0 < |ps[i]| && ps[i] <= bio[i].bytes
  }

  lemma PiecesSnoc(bio: seq<BioRead>, ps: seq<seq<byte>>, p: seq<byte>)
    requires Pieces(bio, ps) && |ps| < |bio| && bio[|ps|].Data? && 0 < |p| && p <= bio[|ps|].bytes
    ensures Pieces(bio, ps + [p])
  {
  }

  /** How the buffer is set up. `align` is where the payload alignment puts a record header;
      every allocation has the same one. */
  datatype Setup = Setup(capacity: nat, align: nat, readAhead: bool, releaseBuffers: bool, isDtls: bool)

  class Reader {
    const setup: Setup
    /** s->s3->rbuf */
    var buf: array?<byte>
    var offset: nat
    var left: nat
    /** s->packet, as an index of `buf`, and s->packet_length */
    var packet: nat
    var packetLength: nat
    /** All bytes the BIO delivered, and how many of them lie before the current packet. */
    ghost var stream: seq<byte>
    ghost var consumed: nat

    constructor (setup: Setup)
      requires setup.align < 8 && setup.capacity > 8
      ensures Valid() && stream == [] && consumed == 0 && this.setup == setup && buf == null
    {
      this.setup := setup;
      buf, offset, left, packet, packetLength, stream, consumed := null, 0, 0, 0, 0, [], 0;
    }

    /** The packet and the bytes read ahead. */
    ghost function Held(): seq<byte>
      reads this, buf
      requires buf == null || packet <= offset + left <= buf.Length
    {
      if buf == null then [] else buf[packet..offset + left]
    }

    /** The bytes before the packet, the packet and the bytes left over are the stream. */
    ghost predicate Valid()
      reads this, buf
    {
      && setup.align < 8 && setup.capacity > 8
      && consumed + packetLength + left == |stream|
      && if buf == null then packetLength == 0 && left == 0 && (setup.align == 0 ==> offset == 0)
         else
           && buf.Length == setup.capacity
           && packet + packetLength == offset && offset + left <= setup.capacity
           && (packetLength + left > 0 ==> packet >= setup.align)
           && Held() == stream[consumed..]
    }

    /** `ssl3_setup_read_buffer`, where there is none */
    method SetupReadBuffer()
      requires Valid() && buf == null
      modifies this`buf, this`packet
      ensures buf != null && fresh(buf) && Ready()
    {
      buf := new byte[setup.capacity];
      packet := 0;
    }

    /** memmove inside the buffer */
    method MemMove(dst: nat, src: nat, count: nat)
      requires buf != null && dst + count <= buf.Length && src + count <= buf.Length
      modifies buf
      ensures buf[dst..dst + count] == old(buf[src..src + count])
    {
      forall k | 0 <= k < count {
        buf[dst + k] := buf[src + k];
      }
    }

    /** BIO_read into the buffer: at most `room` bytes */
    method ReadBio(at: nat, room: nat, r: BioRead) returns (i: int)
      requires buf != null && at + room <= buf.Length
      modifies buf, this`stream
      ensures buf[..at] == old(buf[..at])
      ensures i <= room && (i > 0 ==> r.Data?)
      ensures i <= 0 ==> stream == old(stream)
      ensures i > 0 ==> stream == old(stream) + buf[at..at + i] && i <= |r.bytes| && buf[at..at + i] == r.bytes[..i]
    {
      match r
      case Failed(code) =>
        return if code <= 0 then code else -1;
      case Data(bytes) =>
        i := if |bytes| <= room then |bytes| else room;
        forall k | 0 <= k < i {
          buf[at + k] := bytes[k];
        }
        stream := stream + bytes[..i];
        assert buf[at..at + i] == bytes[..i];
    }

    /** Valid, or just set up */
    ghost predicate Ready()
      reads this, buf
    {
      || (Valid() && buf != null)
      || (&& setup.align < 8 && setup.capacity > 8
          && buf != null && buf.Length == setup.capacity && packetLength == 0 && left == 0 && packet == 0
          && (setup.align == 0 ==> offset == 0) && consumed == |stream|)
    }

    /** The bytes read ahead */
    ghost function Rest(): seq<byte>
      reads this`buf, this`offset, this`left, buf
      requires buf != null && offset + left <= buf.Length
    {
      buf[offset..offset + left]
    }

    lemma RestIsStream()
      requires Ready() && left > 0
      ensures buf != null && buf.Length == setup.capacity && offset + left <= buf.Length && offset >= setup.align
      ensures Rest() == stream[consumed + packetLength..]
    {
      assert Rest() == Held()[packetLength..];
    }

    /** Where the next packet starts: aligned if there is nothing yet, or if what was read ahead
        looks like a long record of application data. */
    method Realign()
      requires buf != null && buf.Length == setup.capacity && setup.align < 8 < setup.capacity
      requires left > 0 ==> offset + left <= buf.Length && offset >= setup.align
      modifies this`offset, buf
      ensures offset + left <= buf.Length && offset >= setup.align
      ensures left > 0 ==> Rest() == old(Rest())
    {
      if left == 0 {
        offset := setup.align;
      } else if setup.align != 0 && left >= HEADER_LENGTH {
        if buf[offset] == APPLICATION_DATA &&
           BitOr(ShiftLeft(buf[offset + 3], 8), buf[offset + 4]) >= 128
        {
          MemMove(setup.align, offset, left);
          offset := setup.align;
        }
      }
    }

    /** The start of a new packet: the last one is consumed. */
    method StartPacket()
      requires Ready()
      modifies this`offset, this`packet, this`packetLength, this`consumed, buf
      ensures buf == old(buf) && Valid() && packetLength == 0
      ensures consumed == old(consumed) + old(packetLength)
    {
      hide *;
      SetupIs();
      ReadyGives();
      if left > 0 {
        RestIsStream();
      }
      Realign();
      consumed := consumed + packetLength;
      packet := offset;
      packetLength := 0;
      PacketStarts();
    }

    lemma SetupIs()
      requires Ready()
      ensures setup.align < 8 < setup.capacity
    {
    }

    lemma PacketStarts()
      requires setup.align < 8 < setup.capacity && buf != null && buf.Length == setup.capacity
      requires packet == offset && packetLength == 0 && offset >= setup.align && offset + left <= buf.Length
      requires consumed + left == |stream| && (left > 0 ==> Rest() == stream[consumed..])
      ensures Valid()
    {
      assert Held() == Rest();
    }

    /** Enough was read before. */
    method TakeBuffered(n: nat)
      requires Ready() && 0 < n <= left
      modifies this`packetLength, this`left, this`offset
      ensures Valid() && buf == old(buf) && packetLength == old(packetLength) + n
    {
      packetLength := packetLength + n;
      left := left - n;
      offset := offset + n;
    }

    /** What a buffer holds, even just after it was set up */
    ghost function HeldNow(): seq<byte>
      reads this, buf
    {
      if buf != null && packetLength + left > 0 && packet + packetLength + left <= buf.Length
      then buf[packet..packet + packetLength + left] else []
    }

    lemma ReadyGives()
      requires Ready()
      ensures buf != null && buf.Length == setup.capacity && HeldNow() == stream[consumed..]
      ensures setup.align + packetLength + left <= setup.capacity && packet + packetLength + left <= setup.capacity
      ensures packet == setup.align ==> offset == packetLength + setup.align
      ensures consumed + packetLength + left == |stream|
    {
    }

    lemma FrontIsValid()
      requires setup.align < 8 < setup.capacity && buf != null && buf.Length == setup.capacity
      requires packet == setup.align && offset == packetLength + setup.align && offset + left <= setup.capacity
      requires consumed + packetLength + left == |stream| && HeldNow() == stream[consumed..]
      ensures Valid()
    {
    }

    /** The packet and what follows it go to the front of the buffer. */
    method MoveToFront()
      requires Ready()
      modifies this`packet, this`offset, buf
      ensures Valid() && buf == old(buf) && packet == setup.align && offset == packetLength + setup.align
    {
      ReadyGives();
      hide Ready;
      hide Valid;
      ghost var held := HeldNow();
      if packet != setup.align {
        MemMove(setup.align, packet, packetLength + left);
        packet := setup.align;
        offset := packetLength + setup.align;
      }
      assert HeldNow() == held;
      FrontIsValid();
    }

    /** The packet and `held` bytes behind it, at the front of the buffer */
    ghost function Window(held: nat): seq<byte>
      reads this`packetLength, this`buf, buf
      requires buf != null && setup.align + packetLength + held <= buf.Length
    {
      buf[setup.align..setup.align + packetLength + held]
    }

    /** `held` bytes behind the packet are accounted for. */
    ghost predicate Accounted(held: nat)
      reads this`packetLength, this`consumed, this`stream, this`buf, buf
    {
      && buf != null && setup.align + packetLength + held <= buf.Length
      && consumed + packetLength + held == |stream| && Window(held) == stream[consumed..]
    }

    method ReadMore(held: nat, room: nat, r: BioRead) returns (i: int)
      requires Accounted(held) && setup.align + packetLength + held + room <= buf.Length
      modifies this`stream, buf
      ensures i <= room && old(stream) <= stream
      ensures i <= 0 ==> Accounted(held) && stream == old(stream)
      ensures i > 0 ==> Accounted(held + i) && r.Data? && i <= |r.bytes| && stream == old(stream) + r.bytes[..i]
    {
      var at := setup.align + packetLength + held;
      ghost var before := buf[..at];
      i := ReadBio(at, room, r);
      assert buf[setup.align..at] == before[setup.align..];
      assert i > 0 ==> buf[setup.align..at + i] == buf[setup.align..at] + buf[at..at + i];
    }

    /** The loop over BIO_read: until n bytes are held, or a read fails */
    method Fill(n: nat, max: nat, bio: seq<BioRead>) returns (i: int, held: nat, ghost ps: seq<seq<byte>>)
      requires Accounted(left) && left < n <= max && setup.align + packetLength + max <= buf.Length
      modifies this`stream, buf
      ensures Accounted(held) && left <= held <= max
      ensures Pieces(bio, ps) && stream == old(stream) + Concat(ps)
      ensures i > 0 ==> 0 < held && (setup.isDtls || n <= held)
    {
      hide Accounted;
      hide Valid;
      var k, wanted := 0, n;
      held := left;
      i, ps := 1, [];
      while held < wanted
        invariant Accounted(held) && left <= held <= max
        invariant Pieces(bio, ps) && |ps| == k && stream == old(stream) + Concat(ps)
        invariant 0 <= k <= |bio| && wanted <= n && (!setup.isDtls ==> wanted == n)
        invariant i > 0 && (wanted == n || 0 < wanted <= held)
        decreases |bio| - k
      {
        ghost var was := stream;
        i := ReadMore(held, max - held, if k < |bio| then bio[k] else Failed(-1));
        if i <= 0 {
          return;
        }
        ConcatSnoc(ps, bio[k].bytes[..i]);
        PiecesSnoc(bio, ps, bio[k].bytes[..i]);
        ps := ps + [bio[k].bytes[..i]];
        held := held + i;
        k := k + 1;
        if setup.isDtls && wanted > held {
          wanted := held;
        }
      }
    }

    /** With the packet at the front, what is accounted for is what is left over. */
    lemma FrontGives()
      requires Valid() && buf != null && packet == setup.align && offset == packetLength + setup.align
      ensures Accounted(left) && offset + left <= setup.capacity == buf.Length
    {
    }

    lemma FrontKeeps()
      requires Accounted(left) && packet == setup.align && offset == packetLength + setup.align
      requires setup.align < 8 < setup.capacity == buf.Length
      ensures Valid() && buf != null
    {
    }

    /** A failed read gives an empty buffer back in the mode that asks for it. */
    method Release()
      requires Valid() && buf != null && packet == setup.align
      modifies this`buf
      ensures Valid() && (buf == null || buf == old(buf))
    {
      if setup.releaseBuffers && !setup.isDtls && packetLength + left == 0 {
        buf := null;
      }
    }

    /** The rest of `ssl3_read_n`, when more must be read */
    method ReadFromBio(n: nat, max: int, bio: seq<BioRead>) returns (r: int, ghost ps: seq<seq<byte>>)
      requires Ready() && left < n
      modifies this, buf
      ensures Pieces(bio, ps) && stream == old(stream) + Concat(ps)
      ensures Valid() && consumed == old(consumed)
      ensures buf == null || buf == old(buf)
      ensures packetLength == old(packetLength) + (if r > 0 then r else 0)
      ensures r > 0 ==> r <= n && (!setup.isDtls ==> r == n)
    {
      hide Accounted;
      hide Window;
      ps := [];
      MoveToFront();
      if n > setup.capacity - offset {
        return -1, ps;
      }
      var limit: int := n;
      if setup.readAhead {
        limit := if max < n then n else max;
        if limit > setup.capacity - offset {
          limit := setup.capacity - offset;
        }
      }
      FrontGives();
      var i, held;
      i, held, ps := Fill(n, limit, bio);
      left := held;
      FrontKeeps();
      hide Valid;
      if i <= 0 {
        Release();
        return i, ps;
      }
      r := if left < n then left else n;
      TakeBuffered(r);
    }

    /** `ssl3_read_n` with its BIO: on success exactly n bytes of the stream join the packet (a
        DTLS read may give fewer); on failure none does, and what was read stays. */
    method ReadN(n: int, max: int, extend: bool, bio: seq<BioRead>) returns (r: int, ghost ps: seq<seq<byte>>)
      requires Valid()
      modifies this, buf
      ensures Valid() && Pieces(bio, ps) && stream == old(stream) + Concat(ps)
      ensures buf == null || buf == old(buf) || fresh(buf)
      ensures n <= 0 ==> r == n && consumed == old(consumed) && packetLength == old(packetLength)
      ensures n > 0 ==> consumed == old(consumed) + (if extend then 0 else old(packetLength))
      ensures n > 0 ==> packetLength == (if extend then old(packetLength) else 0) + (if r > 0 then r else 0)
      ensures r > 0 ==> r <= n && (!setup.isDtls ==> r == n)
    {
      ps := [];
      if n <= 0 {
        return n, ps;
      }
      hide Valid;
      if buf == null {
        SetupReadBuffer();
      }
      ValidIsReady();
      hide Ready;
      if !extend {
        StartPacket();
        ValidIsReady();
      }
      var wanted: nat := if setup.isDtls && left > 0 && n > left then left else n;
      if left >= wanted {
        TakeBuffered(wanted);
        r := wanted;
      } else {
        r, ps := ReadFromBio(wanted, max, bio);
      }
    }

    lemma WithinStream()
      requires Valid()
      ensures consumed + packetLength <= |stream|
    {
    }

    lemma ValidIsReady()
      ensures Valid() && buf != null ==> Ready()
    {
    }
  }

  /** One call of a run */
  datatype Call = Call(n: int, max: int, extend: bool, bio: seq<BioRead>)

  /** The bytes of the current packet, as the caller finds them in the buffer */
  function PacketOf(reader: Reader): seq<byte>
    reads reader, reader.buf
    requires reader.buf != null ==> reader.packet <= reader.offset <= reader.buf.Length
  {
    if reader.buf == null then [] else reader.buf[reader.packet..reader.offset]
  }

  function LeftOf(reader: Reader): seq<byte>
    reads reader, reader.buf
    requires reader.buf != null ==> reader.offset + reader.left <= reader.buf.Length
  {
    if reader.buf == null then [] else reader.buf[reader.offset..reader.offset + reader.left]
  }

  /** All that the reads of a run delivered */
  ghost predicate Delivered(calls: seq<Call>, got: seq<seq<seq<byte>>>)
  {
    |got| <= |calls| && forall k :: 0 <= k < |got| ==> Pieces(calls[k].bio, got[k])
  }

  function ConcatAll(got: seq<seq<seq<byte>>>): seq<byte>
  {
    if got == [] then [] else ConcatAll(got[..|got| - 1]) + Concat(got[|got| - 1])
  }

  lemma DeliveredSnoc(calls: seq<Call>, got: seq<seq<seq<byte>>>, ps: seq<seq<byte>>)
    requires Delivered(calls, got) && |got| < |calls| && Pieces(calls[|got|].bio, ps)
    ensures Delivered(calls, got + [ps]) && ConcatAll(got + [ps]) == ConcatAll(got) + Concat(ps)
  {
    hide Pieces;
    assert (got + [ps])[..|got|] == got;
  }

  lemma NothingDelivered(calls: seq<Call>)
    ensures Delivered(calls, []) && ConcatAll([]) == [] && Concat([]) == []
  {
  }

  /** A run of reads. `packets` are the packets that were complete when the next one began, as the
      buffer held them; together with the current one and what is left they are the stream, which is
      what the BIO delivered, call by call. */
  method Run(setup: Setup, calls: seq<Call>)
    returns (reader: Reader, packets: seq<seq<byte>>, ghost got: seq<seq<seq<byte>>>)
    requires setup.align < 8 && setup.capacity > 8
    ensures fresh(reader) && reader.Valid()
    ensures |got| == |calls| && Delivered(calls, got)
    ensures ConcatAll(got) == Concat(packets) + PacketOf(reader) + LeftOf(reader)
  {
    hide *;
    reader := new Reader(setup);
    packets, got := [], [];
    NothingDelivered(calls);
    for k := 0 to |calls|
      invariant fresh(reader) && reader.Valid() && (reader.buf != null ==> fresh(reader.buf))
      invariant reader.consumed <= |reader.stream| && Concat(packets) == reader.stream[..reader.consumed]
      invariant |got| == k && Delivered(calls, got) && reader.stream == ConcatAll(got)
    {
      var c := calls[k];
      StreamIsSplit(reader);
      ghost var before, at := reader.stream, reader.consumed;
      if c.n > 0 && !c.extend {
        var packet := PacketOf(reader);
        NextPacket(packets, packet, before, at, LeftOf(reader));
        packets := packets + [packet];
      }
      var r;
      ghost var ps;
      r, ps := reader.ReadN(c.n, c.max, c.extend, c.bio);
      reader.WithinStream();
      PrefixStays(before, reader.stream, reader.consumed);
      DeliveredSnoc(calls, got, ps);
      got := got + [ps];
    }
    StreamIsSplit(reader);
  }

  lemma NextPacket(packets: seq<seq<byte>>, packet: seq<byte>, stream: seq<byte>, at: nat, rest: seq<byte>)
    requires at <= |stream| && Concat(packets) == stream[..at] && stream == stream[..at] + packet + rest
    ensures at + |packet| <= |stream| && Concat(packets + [packet]) == stream[..at + |packet|]
  {
    assert (packets + [packet])[..|packets|] == packets;
    assert stream[..at + |packet|] == stream[..at] + packet;
  }

  lemma PrefixStays(before: seq<byte>, after: seq<byte>, n: nat)
    requires before <= after && n <= |before|
    ensures before[..n] == after[..n]
  {
  }

  lemma StreamIsSplit(reader: Reader)
    requires reader.Valid()
    ensures reader.consumed + reader.packetLength + reader.left == |reader.stream|
    ensures reader.buf != null ==> reader.packet <= reader.offset && reader.offset + reader.left <= reader.buf.Length
    ensures |PacketOf(reader)| == reader.packetLength
    ensures reader.stream == reader.stream[..reader.consumed] + PacketOf(reader) + LeftOf(reader)
  {
    if reader.buf != null {
      var held := reader.Held();
      assert held == PacketOf(reader) + LeftOf(reader);
      assert reader.stream == reader.stream[..reader.consumed] + held;
    }
  }
}
