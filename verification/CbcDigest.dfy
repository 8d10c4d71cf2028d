/**
 `ssl3_cbc_digest_record`: the MAC of a decrypted CBC record, computed over a number of hash
 blocks that depends only on the record's public length T, while the length D of data plus
 MAC inside it is secret.
 */
module CbcDigest {
  import opened Bits
  import opened Bytes
  import opened ConstantTime
  import opened MerkleDamgard
  import Arith

  /** How far the secret length may lie below the public one: a TLS padding block, or a
      minimal SSLv3 one. */
  function MaxPadding(isSslv3: bool): nat
  {
    if isSslv3 then 16 else 256
  }

  function VarianceBlocks(isSslv3: bool): nat
  {
    if isSslv3 then 2 else 6
  }

  /** The public quantities the function derives before it touches any data. */
  datatype Layout = Layout(headerLength: nat, numBlocks: nat, numStartingBlocks: nat, macEndOffset: nat,
                           c: nat, indexA: nat, indexB: nat)

  /** `sslv3_pad_length` */
  function Ssl3PadLength<S>(h: Hash<S>): nat
  {
    if h.mdSize == 16 then 48 else 40
  }

  /** The demands of the source's callers and of its own assertions on the lengths. SSLv3 knows
      MD5 and SHA-1 only; its header is secret, pad, sequence number, type and length, and its
      records are whole blocks of a cipher, which are 8 or 16 bytes long. */
  ghost predicate Lengths<S(!new)>(h: Hash<S>, headerLength: nat, d: nat, t: nat, isSslv3: bool)
  {
    && Supported(h)
    && h.mdSize <= d <= t <= d + MaxPadding(isSslv3) && t < 0x10_0000
    && (if isSslv3 then h.mdSize <= 20 && headerLength == h.mdSize + Ssl3PadLength(h) + 11 && t % 8 == 0
        else headerLength == 13)
  }

  function ComputeLayout<S>(h: Hash<S>, headerLength: nat, d: nat, t: nat, isSslv3: bool): Layout
    requires h.blockSize > 0 && h.mdSize <= d && h.mdSize < t + headerLength
  {
    var varianceBlocks := VarianceBlocks(isSslv3);
    var len := t + headerLength;
    var maxMacBytes := len - h.mdSize - 1;
    var numBlocks := (maxMacBytes + 1 + h.lengthSize + h.blockSize - 1) / h.blockSize;
    var macEndOffset := d + headerLength - h.mdSize;
    Arith.DivNonNegative(maxMacBytes + 1 + h.lengthSize + h.blockSize - 1, h.blockSize);
    Arith.DivNonNegative(macEndOffset, h.blockSize);
    Arith.DivNonNegative(macEndOffset + h.lengthSize, h.blockSize);
    Layout(headerLength, numBlocks,
           if numBlocks > varianceBlocks + (if isSslv3 then 1 else 0) then numBlocks - varianceBlocks else 0,
           macEndOffset,
           macEndOffset % h.blockSize,
           macEndOffset / h.blockSize,
           (macEndOffset + h.lengthSize) / h.blockSize)
  }

  /** Starting blocks hold no padding, whatever the secret length is; the length block is
      never one of them. */
  lemma StartingBlocksArePlain<S(!new)>(h: Hash<S>, headerLength: nat, d: nat, t: nat, isSslv3: bool)
    requires Lengths(h, headerLength, d, t, isSslv3)
    ensures var l := ComputeLayout(h, headerLength, d, t, isSslv3);
      && l.numStartingBlocks * h.blockSize <= l.macEndOffset
      && l.numStartingBlocks <= l.indexA <= l.indexB <= l.indexA + 1
      && l.indexB < 0x1_0000 && 8 * l.macEndOffset + 8 * h.blockSize < 0x100_0000
  {
    assert h.blockSize == 64 || h.blockSize == 128;
  }

  /** The length block is always processed. */
  lemma FinalBlockIsReached<S(!new)>(h: Hash<S>, headerLength: nat, d: nat, t: nat, isSslv3: bool)
    requires Lengths(h, headerLength, d, t, isSslv3)
    ensures var l := ComputeLayout(h, headerLength, d, t, isSslv3);
      l.indexB <= l.numStartingBlocks + VarianceBlocks(isSslv3)
  {
    if isSslv3 {
      FinalBlockIsReachedSsl3(h, headerLength, d, t);
    } else {
      assert h.blockSize == 64 || h.blockSize == 128;
    }
  }

  /** Two blocks suffice only because a record is a multiple of eight bytes: if nothing was
      removed from a record, a length of 117 or 125 bytes would need a third one. */
  lemma FinalBlockIsReachedSsl3<S(!new)>(h: Hash<S>, headerLength: nat, d: nat, t: nat)
    requires Lengths(h, headerLength, d, t, true)
    ensures var l := ComputeLayout(h, headerLength, d, t, true); l.indexB <= l.numStartingBlocks + 2
  {
    assert headerLength == (if h.mdSize == 16 then 75 else 71) && h.blockSize == 64;
  }

  // ---------- one byte of a final block ----------

  function OrMasks(a: byte, b: byte): (r: byte)
    requires IsByteMask(a) && IsByteMask(b)
    ensures IsByteMask(r) && (r == 0xff <==> a == 0xff || b == 0xff)
  {
    OrWithZero(a);
    OrWithZero(b);
    OnesValues();
    assert a == b == 0xff ==> BitOr(a, b) == 0xff by {
      if a == b == 0xff {
        OrOnes();
      }
    }
    BitOr(a, b)
  }

  lemma OrOnes()
    ensures BitOr(0xff, 0xff) == 0xff
  {
    assert BitOr(3, 3) == 3;
    assert BitOr(15, 15) == 15;
    assert BitOr(63, 63) == 63;
  }

  /** What the masking below amounts to: the length bytes at the end of block b; in block a
      the data, then 0x80, then zeros; zeros in a block b of its own; elsewhere the data. */
  function PlainByte(raw: byte, inA: bool, inB: bool, j: nat, c: nat, blockSize: nat, lengthBytes: seq<byte>): byte
    requires j < blockSize && |lengthBytes| <= blockSize
  {
    if inB && j >= blockSize - |lengthBytes| then lengthBytes[j - (blockSize - |lengthBytes|)]
    else if inA then (if j < c then raw else if j == c then 0x80 else 0)
    else if inB then 0
    else raw
  }

  /** The masking applied to byte j of a block: `b` is the byte of header || data there. */
  function BlockByte(b: byte, isBlockA: byte, isBlockB: byte, j: nat, c: nat, blockSize: nat, lengthBytes: seq<byte>): (r: byte)
    requires IsByteMask(isBlockA) && IsByteMask(isBlockB)
    requires j < blockSize <= 128 && c < blockSize && |lengthBytes| <= blockSize
    ensures r == PlainByte(b, isBlockA == 0xff, isBlockB == 0xff, j, c, blockSize, lengthBytes)
  {
    var isPastC := Mask8(GeByte(j, c), isBlockA);
    var isPastCp1 := Mask8(GeByte(j, c + 1), isBlockA);
    var b1 := Select8(isPastC, 0x80, b);
    var b2 := Mask8(b1, 255 - isPastCp1);
    var b3 := Mask8(b2, OrMasks(255 - isBlockB, isBlockA));
    if j >= blockSize - |lengthBytes| then
      Select8(isBlockB, lengthBytes[j - (blockSize - |lengthBytes|)], b3)
    else
      b3
  }

  /** The byte of header || data at offset k, or 0 past the record. */
  function RawByte(header: seq<byte>, data: seq<byte>, k: nat): byte
  {
    if k < |header| then header[k]
    else if k < |data| + |header| then data[k - |header|]
    else 0
  }

  /** What is being MACed. */
  function Macced<S>(h: Hash<S>, header: seq<byte>, data: seq<byte>, d: nat): (x: seq<byte>)
    requires h.mdSize <= d <= |data|
    ensures |x| == d + |header| - h.mdSize
  {
    header + data[..d - h.mdSize]
  }

  /** Up to and including the length block, the masked byte is the byte of the ordinary
      Merkle-Damgard padding. */
  lemma BlockByteIsPadding<S(!new)>(h: Hash<S>, header: seq<byte>, data: seq<byte>, d: nat, isSslv3: bool, bits: nat, i: nat, j: nat)
    requires Lengths(h, |header|, d, |data|, isSslv3) && j < h.blockSize
    requires i <= ComputeLayout(h, |header|, d, |data|, isSslv3).indexB
    ensures var l := ComputeLayout(h, |header|, d, |data|, isSslv3);
      PlainByte(RawByte(header, data, i * h.blockSize + j), i == l.indexA, i == l.indexB,
                j, l.c, h.blockSize, LengthField(h, bits))
      == PaddedByte(h, Macced(h, header, data, d), bits, i * h.blockSize + j)
  {
    var x := Macced(h, header, data, d);
    var k := i * h.blockSize + j;
    var raw := RawByte(header, data, k);
    assert k < |x| ==> raw == x[k];
    PaddingAt(h, x, bits, i, j, raw);
  }

  lemma PaddingAt<S>(h: Hash<S>, x: seq<byte>, bits: nat, i: nat, j: nat, raw: byte)
    requires (h.blockSize == 64 || h.blockSize == 128) && h.lengthSize < h.blockSize && j < h.blockSize
    requires i <= (|x| + h.lengthSize) / h.blockSize
    requires i * h.blockSize + j < |x| ==> raw == x[i * h.blockSize + j]
    ensures PlainByte(raw, i == |x| / h.blockSize, i == (|x| + h.lengthSize) / h.blockSize, j,
                      |x| % h.blockSize, h.blockSize, LengthField(h, bits))
            == PaddedByte(h, x, bits, i * h.blockSize + j)
  {
    var a, b := |x| / h.blockSize, (|x| + h.lengthSize) / h.blockSize;
    BlockPositions(h.blockSize, h.lengthSize, |x|, i, j);
    PlainIsPadded(h, x, bits, i, j, i * h.blockSize + j, raw, a, b, |x| % h.blockSize, (b + 1) * h.blockSize);
  }

  lemma PlainIsPadded<S>(h: Hash<S>, x: seq<byte>, bits: nat, i: nat, j: nat, k: nat, raw: byte,
                         a: nat, b: nat, c: nat, total: nat)
    requires j < h.blockSize && h.lengthSize < h.blockSize
    requires total == BlockCount(h, |x|) * h.blockSize
    requires k < |x| ==> raw == x[k]
    requires i <= b && a <= b <= a + 1 && k < total
    requires k < |x| <==> i < a || (i == a && j < c)
    requires k == |x| <==> i == a && j == c
    requires total - h.lengthSize <= k <==> i == b && j >= h.blockSize - h.lengthSize
    requires i == b && j >= h.blockSize - h.lengthSize ==>
      k > |x| && k - (total - h.lengthSize) == j - (h.blockSize - h.lengthSize)
    ensures PlainByte(raw, i == a, i == b, j, c, h.blockSize, LengthField(h, bits)) == PaddedByte(h, x, bits, k)
  {
    if i == b && j >= h.blockSize - h.lengthSize {
      assert PaddedByte(h, x, bits, k) == LengthField(h, bits)[k - (total - h.lengthSize)];
    } else if i < a {
      assert PaddedByte(h, x, bits, k) == x[k];
    } else if i == a {
      assert PaddedByte(h, x, bits, k) == if j < c then raw else if j == c then 0x80 else 0;
    } else {
      assert PaddedByte(h, x, bits, k) == 0;
      assert i == b;
    }
  }

  /** Where offset i*B+j lies relative to the end e of the data and to the length field. */
  lemma BlockPositions(size: nat, ls: nat, e: nat, i: nat, j: nat)
    requires (size == 64 || size == 128) && ls < size && j < size && i <= (e + ls) / size
    ensures var k, b := i * size + j, (e + ls) / size;
      && (k < e <==> i < e / size || (i == e / size && j < e % size))
      && (k == e <==> i == e / size && j == e % size)
      && k < (b + 1) * size
      && ((b + 1) * size - ls <= k <==> i == b && j >= size - ls)
      && (i == b && j >= size - ls ==> k > e && k - ((b + 1) * size - ls) == j - (size - ls))
  {
    if size == 64 {
      Positions64(ls, e, i, j);
    } else {
      Positions128(ls, e, i, j);
    }
  }

  lemma Positions64(ls: nat, e: nat, i: nat, j: nat)
    requires ls < 64 && j < 64 && i <= (e + ls) / 64
    ensures var k, b := i * 64 + j, (e + ls) / 64;
      && (k == e <==> i == e / 64 && j == e % 64)
      && (k < e <==> i < e / 64 || (i == e / 64 && j < e % 64))
      && k < (b + 1) * 64
      && ((b + 1) * 64 - ls <= k <==> i == b && j >= 64 - ls)
      && (i == b && j >= 64 - ls ==> k > e)
  {
  }

  lemma Positions128(ls: nat, e: nat, i: nat, j: nat)
    requires ls < 128 && j < 128 && i <= (e + ls) / 128
    ensures var k, b := i * 128 + j, (e + ls) / 128;
      && (k == e <==> i == e / 128 && j == e % 128)
      && (k < e <==> i < e / 128 || (i == e / 128 && j < e % 128))
      && k < (b + 1) * 128
      && ((b + 1) * 128 - ls <= k <==> i == b && j >= 128 - ls)
      && (i == b && j >= 128 - ls ==> k > e)
  {
  }

  // ---------- the function ----------

  /** The length field, written by position. */
  method WriteLengthBytes<S>(h: Hash<S>, bits: nat) returns (lengthBytes: array<byte>)
    requires h.lengthSize >= 8 && bits < 0x1_0000_0000
    ensures fresh(lengthBytes) && lengthBytes[..] == LengthField(h, bits)
  {
    var n := h.lengthSize;
    lengthBytes := new byte[n](_ => 0);
    if h.bigEndian {
      lengthBytes[n - 4] := bits / 0x100_0000 % 256;
      lengthBytes[n - 3] := bits / 0x1_0000 % 256;
      lengthBytes[n - 2] := bits / 0x100 % 256;
      lengthBytes[n - 1] := bits % 256;
      BigEndianFour(bits, n);
      assert lengthBytes[..] == Zeros(n - 4) + LowFour(bits);
    } else {
      // md_length_size is 8 here, so these are bytes 3, 2, 1 and 0
      lengthBytes[3] := bits / 0x100_0000 % 256;
      lengthBytes[2] := bits / 0x1_0000 % 256;
      lengthBytes[1] := bits / 0x100 % 256;
      lengthBytes[0] := bits % 256;
      LittleEndianFour(bits, n);
      var f := LowFour(bits);
      assert lengthBytes[..] == [f[3], f[2], f[1], f[0]] + Zeros(n - 4);
    }
  }

  /** Blocks of header || data: one more block, lying wholly in the data. */
  lemma NextDataBlock<S>(h: Hash<S>, st0: S, header: seq<byte>, data: seq<byte>, i: nat, from: nat)
    requires (i + 1) * h.blockSize <= |header| + |data| && i * h.blockSize == |header| + from
    ensures i * h.blockSize <= |header| + |data| && from + h.blockSize <= |data|
    ensures Blocks(h, st0, header + data, i + 1)
            == h.transform(Blocks(h, st0, header + data, i), data[from..from + h.blockSize])
  {
    var x := header + data;
    assert (i + 1) * h.blockSize == i * h.blockSize + h.blockSize;
    assert x[i * h.blockSize..(i + 1) * h.blockSize] == data[from..from + h.blockSize];
  }

  lemma OneBlock<S>(h: Hash<S>, st0: S, x: seq<byte>, first: seq<byte>)
    requires first <= x && |first| == h.blockSize
    ensures 1 * h.blockSize <= |x| && Blocks(h, st0, x, 1) == h.transform(st0, first)
  {
    assert Blocks(h, st0, x, 0) == st0;
    assert x[0 * h.blockSize..1 * h.blockSize] == first;
  }

  lemma TwoBlocks<S>(h: Hash<S>, st0: S, x: seq<byte>, first: seq<byte>, second: seq<byte>)
    requires first + second <= x && |first| == |second| == h.blockSize
    ensures 2 * h.blockSize <= |x| && Blocks(h, st0, x, 2) == h.transform(h.transform(st0, first), second)
  {
    assert first <= x by {
      assert x[..|first|] == (first + second)[..|first|] == first;
    }
    OneBlock(h, st0, x, first);
    assert x[1 * h.blockSize..2 * h.blockSize] == (first + second)[|first|..] == second;
  }

  /** TLS: the first block is the 13 header bytes and data, the rest is data. */
  method HashStartingBlocks<S>(h: Hash<S>, st0: S, header: seq<byte>, data: seq<byte>, n: nat) returns (st: S)
    requires h.blockSize > 13 && |header| == 13 && 0 < n
    requires n * h.blockSize <= |header| + |data|
    ensures st == Blocks(h, st0, header + data, n)
  {
    var size := h.blockSize;
    Arith.MulMono(1, n, size);
    var firstBlock := header + data[..size - 13];
    st := h.transform(st0, firstBlock);
    OneBlock(h, st0, header + data, firstBlock);
    var i := 1;
    while i < n
      invariant 1 <= i <= n
      invariant i * size <= |header| + |data| && st == Blocks(h, st0, header + data, i)
    {
      Arith.MulMono(i + 1, n, size);
      Arith.MulMono(1, i, size);
      NextDataBlock(h, st0, header, data, i, size * i - 13);
      st := h.transform(st, data[size * i - 13..size * i - 13 + size]);
      i := i + 1;
    }
  }

  /** SSLv3: the header fills one block and overhangs into the second. */
  method HashStartingBlocksSsl3<S>(h: Hash<S>, st0: S, header: seq<byte>, data: seq<byte>, n: nat) returns (st: S)
    requires h.blockSize < |header| < 2 * h.blockSize && 1 < n
    requires n * h.blockSize <= |header| + |data|
    ensures st == Blocks(h, st0, header + data, n)
  {
    var size := h.blockSize;
    var overhang := |header| - size;
    Arith.MulMono(2, n, size);
    st := h.transform(st0, header[..size]);
    var firstBlock := header[size..] + data[..size - overhang];
    st := h.transform(st, firstBlock);
    assert header[..size] + firstBlock <= header + data;
    TwoBlocks(h, st0, header + data, header[..size], firstBlock);
    var i := 1;
    while i < n - 1
      invariant 1 <= i <= n - 1
      invariant (i + 1) * size <= |header| + |data| && st == Blocks(h, st0, header + data, i + 1)
    {
      Arith.MulMono(i + 2, n, size);
      Arith.MulMono(1, i, size);
      assert (i + 1) * size == |header| + (size * i - overhang);
      NextDataBlock(h, st0, header, data, i + 1, size * i - overhang);
      st := h.transform(st, data[size * i - overhang..size * i - overhang + size]);
      i := i + 1;
    }
  }

  /** The inner loop: block i, built byte by byte from offset k on. */
  method BuildBlock(header: seq<byte>, data: seq<byte>, l: Layout, blockSize: nat, lengthBytes: seq<byte>, i: nat, k0: nat)
    returns (block: array<byte>, k: nat)
    requires 0 < blockSize <= 128 && |lengthBytes| <= blockSize && l.c < blockSize
    requires i < MSB_32 && l.indexA < MSB_32 && l.indexB < MSB_32
    ensures fresh(block) && block.Length == blockSize && k == k0 + blockSize
    ensures forall j :: 0 <= j < blockSize ==>
      block[j] == PlainByte(RawByte(header, data, k0 + j), i == l.indexA, i == l.indexB, j, l.c, blockSize, lengthBytes)
  {
    block := new byte[blockSize];
    var isBlockA := ConstantTimeEq8(i, l.indexA);
    var isBlockB := ConstantTimeEq8(i, l.indexB);
    k := k0;
    var j := 0;
    while j < blockSize
      invariant 0 <= j <= blockSize && k == k0 + j
      invariant forall j' :: 0 <= j' < j ==>
        block[j'] == PlainByte(RawByte(header, data, k0 + j'), i == l.indexA, i == l.indexB, j', l.c, blockSize, lengthBytes)
    {
      var b: byte := 0;
      if k < |header| {
        b := header[k];
      } else if k < |data| + |header| {
        b := data[k - |header|];
      }
      assert b == RawByte(header, data, k0 + j);
      k := k + 1;
      block[j] := BlockByte(b, isBlockA, isBlockB, j, l.c, blockSize, lengthBytes);
      j := j + 1;
    }
  }

  /** `mac_out[j] |= block[j] & is_block_b` for every j. */
  method CopyIfFinal(macOut: array<byte>, raw: seq<byte>, mdSize: nat, isBlockB: byte)
    requires IsByteMask(isBlockB) && mdSize <= macOut.Length && mdSize <= |raw|
    requires isBlockB == 0xff ==> macOut[..mdSize] == Zeros(mdSize)
    modifies macOut
    ensures macOut[..mdSize] == if isBlockB == 0xff then raw[..mdSize] else old(macOut[..mdSize])
  {
    var j := 0;
    while j < mdSize
      invariant 0 <= j <= mdSize
      invariant forall t :: 0 <= t < j ==> macOut[t] == if isBlockB == 0xff then raw[t] else old(macOut[t])
      invariant forall t :: j <= t < mdSize ==> macOut[t] == old(macOut[t])
    {
      OrWithZero(macOut[j]);
      OrWithZero(raw[j]);
      assert isBlockB == 0xff ==> old(macOut[..mdSize])[j] == 0;
      macOut[j] := BitOr(macOut[j], Mask8(raw[j], isBlockB));
      j := j + 1;
    }
  }

  /** The padded message, as the blocks of the final loop are to spell it out. */
  ghost function Padded<S(!new)>(h: Hash<S>, header: seq<byte>, data: seq<byte>, d: nat, bits: nat): (p: seq<byte>)
    requires Supported(h) && h.mdSize <= d <= |data|
    ensures |p| == BlockCount(h, d + |header| - h.mdSize) * h.blockSize
  {
    PaddedLength(h, Macced(h, header, data, d), bits);
    PadWith(h, Macced(h, header, data, d), bits)
  }

  lemma LayoutBounds<S(!new)>(h: Hash<S>, headerLength: nat, d: nat, t: nat, isSslv3: bool)
    requires Lengths(h, headerLength, d, t, isSslv3)
    ensures var l := ComputeLayout(h, headerLength, d, t, isSslv3);
      && l.numStartingBlocks <= l.indexB < 0x1_0000
      && BlockCount(h, d + headerLength - h.mdSize) == l.indexB + 1
  {
    StartingBlocksArePlain(h, headerLength, d, t, isSslv3);
  }

  lemma BlockIsPadded<S(!new)>(h: Hash<S>, header: seq<byte>, data: seq<byte>, d: nat, isSslv3: bool, bits: nat, i: nat, block: seq<byte>)
    requires Lengths(h, |header|, d, |data|, isSslv3) && |block| == h.blockSize
    requires i <= ComputeLayout(h, |header|, d, |data|, isSslv3).indexB
    requires var l := ComputeLayout(h, |header|, d, |data|, isSslv3);
      forall j :: 0 <= j < h.blockSize ==>
        block[j] == PlainByte(RawByte(header, data, i * h.blockSize + j), i == l.indexA, i == l.indexB, j, l.c,
                              h.blockSize, LengthField(h, bits))
    ensures (i + 1) * h.blockSize <= |Padded(h, header, data, d, bits)|
    ensures block == Padded(h, header, data, d, bits)[i * h.blockSize..(i + 1) * h.blockSize]
  {
    var x := Macced(h, header, data, d);
    var p := Padded(h, header, data, d, bits);
    assert p == PadWith(h, x, bits);
    LayoutBounds(h, |header|, d, |data|, isSslv3);
    hide *;
    Arith.MulMono(i + 1, BlockCount(h, |x|), h.blockSize);
    assert (i + 1) * h.blockSize == i * h.blockSize + h.blockSize;
    forall j | 0 <= j < h.blockSize ensures block[j] == p[i * h.blockSize + j] {
      BlockByteIsPadding(h, header, data, d, isSslv3, bits, i, j);
      PaddedByteIs(h, x, bits, i * h.blockSize + j);
    }
  }

  /** One round of the final loop: while the length block has not been passed, it absorbs
      the next block of the padded message. */
  method AbsorbFinalBlock<S(!new)>(h: Hash<S>, ghost st0: S, before: S, header: seq<byte>, data: seq<byte>, ghost d: nat,
                                   ghost isSslv3: bool, ghost bits: nat, lengthBytes: seq<byte>, l: Layout, i: nat, k0: nat)
    returns (st: S, k: nat)
    requires Lengths(h, |header|, d, |data|, isSslv3) && l == ComputeLayout(h, |header|, d, |data|, isSslv3)
    requires lengthBytes == LengthField(h, bits) && k0 == i * h.blockSize && i < MSB_32
    requires i <= l.indexB ==>
      i * h.blockSize <= |Padded(h, header, data, d, bits)| && before == Blocks(h, st0, Padded(h, header, data, d, bits), i)
    ensures k == (i + 1) * h.blockSize
    ensures i <= l.indexB ==>
      && (i + 1) * h.blockSize <= |Padded(h, header, data, d, bits)|
      && st == Blocks(h, st0, Padded(h, header, data, d, bits), i + 1)
  {
    StartingBlocksArePlain(h, |header|, d, |data|, isSslv3);
    var block;
    block, k := BuildBlock(header, data, l, h.blockSize, lengthBytes, i, k0);
    st := h.transform(before, block[..]);
    if i <= l.indexB {
      BlockIsPadded(h, header, data, d, isSslv3, bits, i, block[..]);
    }
  }

  /** The serialised state after n blocks, cut to the digest size. */
  ghost function StateBytes<S(!new)>(h: Hash<S>, st0: S, p: seq<byte>, n: nat): (r: seq<byte>)
    requires Supported(h) && n * h.blockSize <= |p|
    ensures |r| == h.mdSize
  {
    h.finalRaw(Blocks(h, st0, p, n))[..h.mdSize]
  }

  /** Where the final loop stands before block i: it has absorbed i blocks of the padded
      message p, or has passed the last of its n blocks and holds the result. */
  ghost predicate Progress<S(!new)>(h: Hash<S>, st0: S, p: seq<byte>, n: nat, i: nat, st: S, mac: seq<byte>)
    requires Supported(h) && n * h.blockSize == |p|
  {
    if i <= n then
      && i * h.blockSize <= |p| && st == Blocks(h, st0, p, i)
      && mac == if i < n then Zeros(h.mdSize) else StateBytes(h, st0, p, n)
    else
      mac == StateBytes(h, st0, p, n)
  }

  lemma ProgressStarts<S(!new)>(h: Hash<S>, st0: S, p: seq<byte>, n: nat, i: nat, st: S, mac: seq<byte>)
    requires Supported(h) && n * h.blockSize == |p| && i < n && i * h.blockSize <= |p|
    requires st == Blocks(h, st0, p, i) && mac == Zeros(h.mdSize)
    ensures Progress(h, st0, p, n, i, st, mac)
  {
  }

  lemma ProgressEnds<S(!new)>(h: Hash<S>, st0: S, p: seq<byte>, n: nat, i: nat, st: S, mac: seq<byte>)
    requires Supported(h) && n * h.blockSize == |p| && n <= i
    requires Progress(h, st0, p, n, i, st, mac)
    ensures mac == StateBytes(h, st0, p, n)
  {
  }

  /** One round of the final loop. */
  method FinalRound<S(!new)>(h: Hash<S>, ghost st0: S, before: S, header: seq<byte>, data: seq<byte>, ghost d: nat,
                             ghost isSslv3: bool, ghost bits: nat, lengthBytes: seq<byte>, l: Layout, i: nat, k0: nat,
                             macOut: array<byte>)
    returns (st: S, k: nat)
    requires Lengths(h, |header|, d, |data|, isSslv3) && l == ComputeLayout(h, |header|, d, |data|, isSslv3)
    requires lengthBytes == LengthField(h, bits) && k0 == i * h.blockSize && i < MSB_32
    requires macOut.Length >= h.mdSize
    requires Progress(h, st0, Padded(h, header, data, d, bits), BlockCount(h, d + |header| - h.mdSize), i, before,
                      macOut[..h.mdSize])
    modifies macOut
    ensures k == (i + 1) * h.blockSize
    ensures Progress(h, st0, Padded(h, header, data, d, bits), BlockCount(h, d + |header| - h.mdSize), i + 1, st,
                     macOut[..h.mdSize])
  {
    LayoutBounds(h, |header|, d, |data|, isSslv3);
    st, k := AbsorbFinalBlock(h, st0, before, header, data, d, isSslv3, bits, lengthBytes, l, i, k0);
    CopyIfFinal(macOut, h.finalRaw(st), h.mdSize, ConstantTimeEq8(i, l.indexB));
  }

  method NoDigest<S(!new)>(h: Hash<S>) returns (macOut: array<byte>)
    requires Supported(h)
    ensures fresh(macOut) && macOut.Length == 64 && macOut[..h.mdSize] == Zeros(h.mdSize)
  {
    macOut := new byte[64](_ => 0);
  }

  /** The final loop: variance_blocks + 1 blocks, of which the one that holds the length
      yields the result. */
  method HashFinalBlocks<S(!new)>(h: Hash<S>, ghost st0: S, start: S, header: seq<byte>, data: seq<byte>, ghost d: nat,
                                  isSslv3: bool, ghost bits: nat, lengthBytes: seq<byte>, l: Layout)
    returns (macOut: array<byte>)
    requires Lengths(h, |header|, d, |data|, isSslv3) && l == ComputeLayout(h, |header|, d, |data|, isSslv3)
    requires lengthBytes == LengthField(h, bits)
    requires l.numStartingBlocks * h.blockSize <= |Padded(h, header, data, d, bits)|
    requires start == Blocks(h, st0, Padded(h, header, data, d, bits), l.numStartingBlocks)
    ensures fresh(macOut) && macOut.Length >= h.mdSize
    ensures macOut[..h.mdSize] == StateBytes(h, st0, Padded(h, header, data, d, bits), BlockCount(h, d + |header| - h.mdSize))
  {
    LayoutBounds(h, |header|, d, |data|, isSslv3);
    FinalBlockIsReached(h, |header|, d, |data|, isSslv3);
    assert Supported(h);
    ghost var last := l.numStartingBlocks + VarianceBlocks(isSslv3);
    assert l.indexB <= last < 0x2_0000;
    hide *;
    ghost var p := Padded(h, header, data, d, bits);
    ghost var n := BlockCount(h, d + |header| - h.mdSize);
    var st := start;
    var k: nat := h.blockSize * l.numStartingBlocks;
    macOut := NoDigest(h);
    var i: nat := l.numStartingBlocks;
    ProgressStarts(h, st0, p, n, i, st, macOut[..h.mdSize]);
    while i <= l.numStartingBlocks + VarianceBlocks(isSslv3)
      invariant i <= last + 1
      invariant k == i * h.blockSize
      invariant Progress(h, st0, p, n, i, st, macOut[..h.mdSize])
    {
      st, k := FinalRound(h, st0, st, header, data, d, isSslv3, bits, lengthBytes, l, i, k, macOut);
      i := i + 1;
    }
    ProgressEnds(h, st0, p, n, i, st, macOut[..h.mdSize]);
  }

  /** The prefix of whole blocks of header || data that lies before the secret end is also
      a prefix of the padded message. */
  lemma StartingBlocksOfPadded<S(!new)>(h: Hash<S>, st0: S, header: seq<byte>, data: seq<byte>, d: nat, isSslv3: bool, bits: nat)
    requires Lengths(h, |header|, d, |data|, isSslv3)
    ensures var n := ComputeLayout(h, |header|, d, |data|, isSslv3).numStartingBlocks;
      && n * h.blockSize <= |Padded(h, header, data, d, bits)|
      && n * h.blockSize <= |header| + |data|
      && Blocks(h, st0, Padded(h, header, data, d, bits), n) == Blocks(h, st0, header + data, n)
  {
    var n := ComputeLayout(h, |header|, d, |data|, isSslv3).numStartingBlocks;
    var x := Macced(h, header, data, d);
    var p := Padded(h, header, data, d, bits);
    StartingBlocksArePlain(h, |header|, d, |data|, isSslv3);
    hide ComputeLayout;
    hide BlockCount;
    hide Blocks;
    var len := n * h.blockSize;
    assert len <= |x|;
    assert p[..len] == x[..len] by {
      assert p[..|x|] == x;
    }
    assert (header + data)[..len] == x[..len] by {
      assert (header + data)[..|x|] == x;
    }
    BlocksPrefix(h, st0, p, header + data, n);
  }

  /** `hmac_pad`: the secret, zero-extended and XORed with 0x36. */
  method InnerPad(secret: seq<byte>, blockSize: nat) returns (hmacPad: array<byte>)
    requires blockSize <= 128 && |secret| <= 128
    ensures fresh(hmacPad) && hmacPad.Length == 128
    ensures hmacPad[..blockSize] == XorPad(secret, blockSize, 0x36)
  {
    hmacPad := new byte[128](_ => 0);
    var j := 0;
    while j < |secret|
      invariant 0 <= j <= |secret|
      invariant forall t :: 0 <= t < 128 ==> hmacPad[t] == if t < j then secret[t] else 0
    {
      hmacPad[j] := secret[j];
      j := j + 1;
    }
    var i := 0;
    while i < blockSize
      invariant 0 <= i <= blockSize
      invariant forall t :: 0 <= t < i ==> hmacPad[t] == XorByte(if t < |secret| then secret[t] else 0, 0x36)
      invariant forall t :: i <= t < 128 ==> hmacPad[t] == if t < |secret| then secret[t] else 0
    {
      hmacPad[i] := XorByte(hmacPad[i], 0x36);
      i := i + 1;
    }
  }

  /** `hmac_pad[i] ^= 0x6a` */
  method OuterPad(hmacPad: array<byte>, ghost secret: seq<byte>, blockSize: nat)
    requires blockSize <= hmacPad.Length && hmacPad[..blockSize] == XorPad(secret, blockSize, 0x36)
    modifies hmacPad
    ensures hmacPad[..blockSize] == XorPad(secret, blockSize, 0x5c)
  {
    ghost var inner := XorPad(secret, blockSize, 0x36);
    ghost var outer := XorPad(secret, blockSize, 0x5c);
    var i := 0;
    while i < blockSize
      invariant 0 <= i <= blockSize
      invariant hmacPad[..i] == outer[..i]
      invariant hmacPad[i..blockSize] == inner[i..]
    {
      assert hmacPad[i] == inner[i];
      PadSwitch(if i < |secret| then secret[i] else 0);
      hmacPad[i] := XorByte(hmacPad[i], 0x6a);
      i := i + 1;
    }
  }

  /** The inner hash: starting blocks, then the final loop. */
  method HashBlocks<S(!new)>(h: Hash<S>, st0: S, header: seq<byte>, data: seq<byte>, d: nat, isSslv3: bool, bits: nat)
    returns (macOut: array<byte>)
    requires Lengths(h, |header|, d, |data|, isSslv3) && bits < 0x1_0000_0000
    ensures fresh(macOut) && macOut.Length >= h.mdSize
    ensures macOut[..h.mdSize] == StateBytes(h, st0, Padded(h, header, data, d, bits), BlockCount(h, d + |header| - h.mdSize))
  {
    var l := ComputeLayout(h, |header|, d, |data|, isSslv3);
    StartingBlocksOfPadded(h, st0, header, data, d, isSslv3, bits);
    var lengthBytes := WriteLengthBytes(h, bits);
    var st := st0;
    if l.numStartingBlocks > 0 {
      if isSslv3 {
        st := HashStartingBlocksSsl3(h, st0, header, data, l.numStartingBlocks);
      } else {
        st := HashStartingBlocks(h, st0, header, data, l.numStartingBlocks);
      }
    }
    macOut := HashFinalBlocks(h, st0, st, header, data, d, isSslv3, bits, lengthBytes[..], l);
  }

  /** With the inner pad absorbed first, the state after the last block is the ordinary hash
      of pad || header || data. */
  lemma InnerDigestTls<S(!new)>(h: Hash<S>, pad: seq<byte>, header: seq<byte>, data: seq<byte>, d: nat, bits: nat)
    requires Supported(h) && |pad| == h.blockSize && h.mdSize <= d <= |data|
    requires bits == 8 * (d + |header| - h.mdSize) + 8 * h.blockSize
    ensures StateBytes(h, h.transform(h.init, pad), Padded(h, header, data, d, bits),
                       BlockCount(h, d + |header| - h.mdSize))
            == Digest(h, pad + Macced(h, header, data, d))
  {
    HashAfterFirstBlock(h, pad, Macced(h, header, data, d));
  }

  lemma InnerDigestSsl3<S(!new)>(h: Hash<S>, header: seq<byte>, data: seq<byte>, d: nat, bits: nat)
    requires Supported(h) && h.mdSize <= d <= |data| && bits == 8 * (d + |header| - h.mdSize)
    ensures StateBytes(h, h.init, Padded(h, header, data, d, bits), BlockCount(h, d + |header| - h.mdSize))
            == Digest(h, Macced(h, header, data, d))
  {
  }

  lemma BitsAreSmall<S(!new)>(h: Hash<S>, headerLength: nat, d: nat, t: nat, isSslv3: bool)
    requires Lengths(h, headerLength, d, t, isSslv3)
    ensures 8 * (d + headerLength - h.mdSize) + 8 * h.blockSize < 0x1_0000_0000
  {
  }

  /** The TLS record MAC: for every secret length D in the window, HMAC of header || data. */
  method DigestRecordTls<S(!new)>(h: Hash<S>, header: seq<byte>, data: seq<byte>, d: nat, secret: seq<byte>)
    returns (mdOut: seq<byte>)
    requires Lengths(h, |header|, d, |data|, false) && |secret| <= 128
    ensures mdOut == Hmac(h, secret, Macced(h, header, data, d))
  {
    var bits := 8 * (d + |header| - h.mdSize) + 8 * h.blockSize;
    BitsAreSmall(h, |header|, d, |data|, false);
    var hmacPad := InnerPad(secret, h.blockSize);
    var st := h.transform(h.init, hmacPad[..h.blockSize]);
    var macOut := HashBlocks(h, st, header, data, d, false, bits);
    InnerDigestTls(h, hmacPad[..h.blockSize], header, data, d, bits);
    OuterPad(hmacPad, secret, h.blockSize);
    mdOut := Digest(h, hmacPad[..h.blockSize] + macOut[..h.mdSize]);
  }

  /** `memset(hmac_pad, 0x5c, sslv3_pad_length)` */
  method Ssl3OuterPad(padLength: nat) returns (hmacPad: array<byte>)
    requires padLength <= 128
    ensures fresh(hmacPad) && hmacPad.Length == 128 && hmacPad[..padLength] == Repeat<byte>(0x5c, padLength)
  {
    hmacPad := new byte[128];
    var i := 0;
    while i < padLength
      invariant 0 <= i <= padLength
      invariant forall t :: 0 <= t < i ==> hmacPad[t] == 0x5c
    {
      hmacPad[i] := 0x5c;
      i := i + 1;
    }
  }

  /** The SSLv3 record MAC. The header carries the secret and the first pad. */
  method DigestRecordSsl3<S(!new)>(h: Hash<S>, header: seq<byte>, data: seq<byte>, d: nat, secret: seq<byte>)
    returns (mdOut: seq<byte>)
    requires Lengths(h, |header|, d, |data|, true)
    ensures mdOut == Digest(h, secret + Repeat<byte>(0x5c, Ssl3PadLength(h)) + Digest(h, Macced(h, header, data, d)))
  {
    hide StateBytes;
    hide Digest;
    var bits := 8 * (d + |header| - h.mdSize);
    BitsAreSmall(h, |header|, d, |data|, true);
    var macOut := HashBlocks(h, h.init, header, data, d, true, bits);
    var inner := macOut[..h.mdSize];
    InnerDigestSsl3(h, header, data, d, bits);
    var padLength := Ssl3PadLength(h);
    var hmacPad := Ssl3OuterPad(padLength);
    hide *;
    mdOut := Digest(h, secret + hmacPad[..padLength] + inner);
  }
}
