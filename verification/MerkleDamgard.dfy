/**
 The ordinary form of what ssl/s3_cbc.c computes: a padded Merkle-Damgard hash over an
 uninterpreted compression function, HMAC (RFC 2104) and the SSLv3 record MAC
 (section 5.2.3.1 of RFC 6101).
 */
module MerkleDamgard {
  import opened Bits
  import opened Bytes
  import Arith

  /** A hash function as `ssl3_cbc_digest_record` sees it: sizes, the initial context, the
      block transform, and the serialisation of a context. */
  datatype Hash<!S> = Hash(mdSize: nat, blockSize: nat, lengthSize: nat, bigEndian: bool, init: S,
                           transform: (S, seq<byte>) -> S, finalRaw: S -> seq<byte>)

  /** The six digests that the switch in `ssl3_cbc_digest_record` accepts. */
  ghost predicate Supported<S(!new)>(h: Hash<S>)
  {
    && (if h.mdSize == 48 || h.mdSize == 64 then h.blockSize == 128 && h.lengthSize == 16
        else h.blockSize == 64 && h.lengthSize == 8)
    && h.mdSize in {16, 20, 28, 32, 48, 64}
    && (h.bigEndian <==> h.mdSize != 16)
    && forall s :: h.mdSize <= |h.finalRaw(s)|
  }

  function BigEndian(n: nat, size: nat): (s: seq<byte>)
    ensures |s| == size
  {
    if size == 0 then [] else BigEndian(n / 256, size - 1) + [n % 256]
  }

  function LittleEndian(n: nat, size: nat): (s: seq<byte>)
    ensures |s| == size
  {
    if size == 0 then [] else [n % 256] + LittleEndian(n / 256, size - 1)
  }

  function LengthField<S>(h: Hash<S>, bits: nat): (s: seq<byte>)
    ensures |s| == h.lengthSize
  {
    if h.bigEndian then BigEndian(bits, h.lengthSize) else LittleEndian(bits, h.lengthSize)
  }

  /** The number of zero bytes between 0x80 and the length field. */
  function ZeroCount<S>(h: Hash<S>, n: nat): nat
    requires h.blockSize > 0
  {
    (h.blockSize - (n + 1 + h.lengthSize) % h.blockSize) % h.blockSize
  }

  /** x, padded to a whole number of blocks, with `bits` as the announced length. */
  function PadWith<S>(h: Hash<S>, x: seq<byte>, bits: nat): (s: seq<byte>)
    requires h.blockSize > 0
  {
    x + [0x80] + Zeros(ZeroCount(h, |x|)) + LengthField(h, bits)
  }

  /** The state after `n` blocks of m. */
  function Blocks<S>(h: Hash<S>, st: S, m: seq<byte>, n: nat): S
    requires n * h.blockSize <= |m|
  {
    if n == 0 then st
    else
      Arith.MulMono(n - 1, n, h.blockSize);
      h.transform(Blocks(h, st, m, n - 1), m[(n - 1) * h.blockSize..n * h.blockSize])
  }

  /** The number of blocks a message of n bytes is padded to. */
  function BlockCount<S>(h: Hash<S>, n: nat): nat
    requires h.blockSize > 0
  {
    (n + h.lengthSize) / h.blockSize + 1
  }

  lemma PaddedLength<S>(h: Hash<S>, x: seq<byte>, bits: nat)
    requires h.blockSize > 0
    ensures |PadWith(h, x, bits)| == BlockCount(h, |x|) * h.blockSize
  {
    var b, n := h.blockSize, |x| + h.lengthSize;
    var q, r := n / b, n % b;
    assert n + 1 == q * b + (r + 1);
    if r + 1 < b {
      Arith.DivUnique(n + 1, b, q, r + 1);
      Arith.DivUnique(b - (r + 1), b, 0, b - (r + 1));
    } else {
      Arith.DivUnique(n + 1, b, q + 1, 0);
      Arith.DivUnique(b, b, 1, 0);
    }
  }

  function HashState<S>(h: Hash<S>, m: seq<byte>): S
    requires h.blockSize > 0
  {
    PaddedLength(h, m, 8 * |m|);
    Blocks(h, h.init, PadWith(h, m, 8 * |m|), BlockCount(h, |m|))
  }

  /** The hash of m: EVP_Digest. */
  function Digest<S(!new)>(h: Hash<S>, m: seq<byte>): (d: seq<byte>)
    requires Supported(h)
    ensures |d| == h.mdSize
  {
    h.finalRaw(HashState(h, m))[..h.mdSize]
  }

  function XorByte(a: byte, b: byte): byte
  {
    OnesValues();
    XorBound(a, b, 8);
    BitXor(a, b)
  }

  /** The key, zero-extended to a block, XORed with a constant. */
  function XorPad(key: seq<byte>, size: nat, p: byte): (s: seq<byte>)
    ensures |s| == size
  {
    seq<byte>(size, i requires 0 <= i < size => XorByte(if i < |key| then key[i] else 0, p))
  }

  /** RFC 2104, for keys no longer than a block. */
  function Hmac<S(!new)>(h: Hash<S>, key: seq<byte>, m: seq<byte>): (d: seq<byte>)
    requires Supported(h)
    ensures |d| == h.mdSize
  {
    Digest(h, XorPad(key, h.blockSize, 0x5c) + Digest(h, XorPad(key, h.blockSize, 0x36) + m))
  }

  /** The SSLv3 record MAC with its two pads (section 5.2.3.1 of RFC 6101). */
  function Ssl3Mac<S(!new)>(h: Hash<S>, secret: seq<byte>, padLength: nat, m: seq<byte>): (d: seq<byte>)
    requires Supported(h)
    ensures |d| == h.mdSize
  {
    Digest(h, secret + Repeat<byte>(0x5c, padLength) + Digest(h, secret + Repeat<byte>(0x36, padLength) + m))
  }

  // ---------- splitting off whole blocks ----------

  lemma {:induction false} BlocksPrefix<S>(h: Hash<S>, st: S, m: seq<byte>, m': seq<byte>, n: nat)
    requires n * h.blockSize <= |m| && n * h.blockSize <= |m'|
    requires m[..n * h.blockSize] == m'[..n * h.blockSize]
    ensures Blocks(h, st, m, n) == Blocks(h, st, m', n)
  {
    if n > 0 {
      var lo, hi := (n - 1) * h.blockSize, n * h.blockSize;
      Arith.MulMono(n - 1, n, h.blockSize);
      assert m[..lo] == m[..hi][..lo] == m'[..hi][..lo] == m'[..lo];
      assert m[lo..hi] == m[..hi][lo..] == m'[..hi][lo..] == m'[lo..hi];
      BlocksPrefix(h, st, m, m', n - 1);
    }
  }

  lemma {:induction false} BlocksAfterFirst<S>(h: Hash<S>, st: S, first: seq<byte>, m: seq<byte>, n: nat)
    requires |first| == h.blockSize && n * h.blockSize <= |m|
    ensures (n + 1) * h.blockSize <= |first + m|
    ensures Blocks(h, st, first + m, n + 1) == Blocks(h, h.transform(st, first), m, n)
  {
    var b := h.blockSize;
    assert (n + 1) * b == n * b + b;
    if n == 0 {
      assert (first + m)[0 * b..1 * b] == first;
      assert Blocks(h, st, first + m, 0) == st;
    } else {
      Arith.MulMono(n - 1, n, b);
      assert n * b == (n - 1) * b + b;
      BlocksAfterFirst(h, st, first, m, n - 1);
      assert (first + m)[n * b..(n + 1) * b] == m[(n - 1) * b..n * b];
    }
  }

  lemma PadWithPrefix<S>(h: Hash<S>, first: seq<byte>, x: seq<byte>, bits: nat)
    requires |first| == h.blockSize > 0
    ensures PadWith(h, first + x, bits) == first + PadWith(h, x, bits)
    ensures BlockCount(h, |first + x|) == BlockCount(h, |x|) + 1
  {
    Arith.AddMultiple(|x| + 1 + h.lengthSize, h.blockSize, 1);
    Arith.AddMultiple(|x| + h.lengthSize, h.blockSize, 1);
    assert ZeroCount(h, |first + x|) == ZeroCount(h, |x|);
  }

  /** Hashing a message whose first block has already been absorbed. */
  lemma HashAfterFirstBlock<S>(h: Hash<S>, first: seq<byte>, x: seq<byte>)
    requires |first| == h.blockSize > 0
    ensures var bits := 8 * (h.blockSize + |x|);
      |PadWith(h, x, bits)| == BlockCount(h, |x|) * h.blockSize
      && HashState(h, first + x) == Blocks(h, h.transform(h.init, first), PadWith(h, x, bits), BlockCount(h, |x|))
  {
    var bits := 8 * (h.blockSize + |x|);
    PaddedLength(h, x, bits);
    PaddedLength(h, first + x, bits);
    PadWithPrefix(h, first, x, bits);
    BlocksAfterFirst(h, h.init, first, PadWith(h, x, bits), BlockCount(h, |x|));
  }

  // ---------- padding byte by byte ----------

  /** Byte k of a padded message of n bytes. */
  function PaddedByte<S>(h: Hash<S>, x: seq<byte>, bits: nat, k: nat): byte
    requires h.blockSize > 0
  {
    var total := BlockCount(h, |x|) * h.blockSize;
    if k < |x| then x[k]
    else if k == |x| then 0x80
    else if total - h.lengthSize <= k < total then LengthField(h, bits)[k - (total - h.lengthSize)]
    else 0
  }

  lemma PaddedByteIs<S>(h: Hash<S>, x: seq<byte>, bits: nat, k: nat)
    requires h.blockSize > 0 && k < BlockCount(h, |x|) * h.blockSize
    ensures k < |PadWith(h, x, bits)| && PadWith(h, x, bits)[k] == PaddedByte(h, x, bits, k)
  {
    PaddedLength(h, x, bits);
    var p := PadWith(h, x, bits);
    var z := ZeroCount(h, |x|);
    if k < |x| {
      assert p[k] == x[k];
    } else if k == |x| {
      assert p[k] == 0x80;
    } else if k < |x| + 1 + z {
      assert p[k] == Zeros(z)[k - |x| - 1];
    } else {
      assert p[k] == LengthField(h, bits)[k - |x| - 1 - z];
    }
  }

  // ---------- the length field of a message shorter than 2^32 bits ----------

  lemma {:induction false} BigEndianZero(size: nat)
    ensures BigEndian(0, size) == Zeros(size)
  {
    if size > 0 {
      BigEndianZero(size - 1);
    }
  }

  lemma {:induction false} LittleEndianZero(size: nat)
    ensures LittleEndian(0, size) == Zeros(size)
  {
    if size > 0 {
      LittleEndianZero(size - 1);
    }
  }

  function LowFour(n: nat): (s: seq<byte>)
    ensures |s| == 4
  {
    [n / 0x100_0000 % 256, n / 0x1_0000 % 256, n / 0x100 % 256, n % 256]
  }

  lemma BigEndianFour(n: nat, size: nat)
    requires n < 0x1_0000_0000 && size >= 4
    ensures BigEndian(n, size) == Zeros(size - 4) + LowFour(n)
  {
    var n1, n2, n3 := n / 0x100, n / 0x1_0000, n / 0x100_0000;
    BigEndianZero(size - 4);
    assert BigEndian(n3, size - 3) == Zeros(size - 4) + [n3 % 256];
    assert n2 / 256 == n3 && n1 / 256 == n2;
    assert BigEndian(n2, size - 2) == BigEndian(n3, size - 3) + [n2 % 256];
    assert BigEndian(n1, size - 1) == BigEndian(n2, size - 2) + [n1 % 256];
  }

  lemma LittleEndianFour(n: nat, size: nat)
    requires n < 0x1_0000_0000 && size >= 4
    ensures var f := LowFour(n);
      LittleEndian(n, size) == [f[3], f[2], f[1], f[0]] + Zeros(size - 4)
  {
    var n1, n2, n3 := n / 0x100, n / 0x1_0000, n / 0x100_0000;
    LittleEndianZero(size - 4);
    assert n2 / 256 == n3 && n1 / 256 == n2 && n3 / 256 == 0;
    assert LittleEndian(n3, size - 3) == [n3 % 256] + Zeros(size - 4);
    assert LittleEndian(n2, size - 2) == [n2 % 256] + LittleEndian(n3, size - 3);
    assert LittleEndian(n1, size - 1) == [n1 % 256] + LittleEndian(n2, size - 2);
  }

  // ---------- the switch from the inner to the outer pad ----------

  lemma {:induction false} XorAssociative(a: nat, b: nat, c: nat)
    ensures BitXor(BitXor(a, b), c) == BitXor(a, BitXor(b, c))
  {
    if a != 0 || b != 0 || c != 0 {
      XorHalves(a, b);
      XorHalves(b, c);
      XorHalves(BitXor(a, b), c);
      XorHalves(a, BitXor(b, c));
      XorAssociative(a / 2, b / 2, c / 2);
    }
  }

  lemma XorHalves(a: nat, b: nat)
    ensures BitXor(a, b) / 2 == BitXor(a / 2, b / 2)
    ensures BitXor(a, b) % 2 == if a % 2 == b % 2 then 0 else 1
  {
  }

  /** XORing an 0x36 pad with 0x6a gives the 0x5c pad. */
  lemma PadSwitch(k: byte)
    ensures XorByte(XorByte(k, 0x36), 0x6a) == XorByte(k, 0x5c)
  {
    XorAssociative(k, 0x36, 0x6a);
    XorConstants();
  }

  lemma XorConstants()
    ensures BitXor(0x36, 0x6a) == 0x5c
  {
    assert BitXor(0x1, 0x3) == 0x2;
    assert BitXor(0x6, 0xd) == 0xb;
    assert BitXor(0x1b, 0x35) == 0x2e;
  }
}
