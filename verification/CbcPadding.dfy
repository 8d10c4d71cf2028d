/**
 CBC record padding: added by `dtls1_enc` (TLS and DTLS) and `ssl3_enc` (SSLv3), removed in
 constant time by `tls1_cbc_remove_padding` and `ssl3_cbc_remove_padding`.

 TLS padding is section 6.2.3.2 of RFC 5246 (p+1 bytes of value p); SSLv3 padding is section
 5.2.3.2 of RFC 6101 (arbitrary bytes, minimal, ending in the length).
 */
module CbcPadding {
  import opened Bits
  import opened Bytes
  import opened ConstantTime
  import Arith

  /** SSL3_RT_MAX_ENCRYPTED_LENGTH plus a header: no record is longer. */
  const MAX_RECORD: nat := 0x10000

  /** The fields of SSL3_RECORD that padding touches. `data` is an offset into the record
      buffer; the upper bits of `recType` carry the removed padding length. */
  class Ssl3Record {
    const buffer: array<byte>
    var data: nat
    var length: nat
    var recType: u32

    constructor (buffer: array<byte>, data: nat, length: nat, recType: byte)
      requires data + length <= buffer.Length && length <= MAX_RECORD
      ensures Valid() && this.buffer == buffer && this.data == data && this.length == length
      ensures this.recType == recType
    {
      this.buffer, this.data, this.length, this.recType := buffer, data, length, recType;
    }

    ghost predicate Valid()
      reads this
    {
      data + length <= buffer.Length && length <= MAX_RECORD
    }

    ghost function Payload(): (s: seq<byte>)
      requires Valid()
      reads this, buffer
    {
      buffer[data..data + length]
    }
  }

  // ---------- what padding is ----------

  /** The TLS padding block for padding length p: p+1 bytes, all of value p. */
  function TlsPadding(p: byte): seq<byte>
  {
    Repeat<byte>(p, p + 1)
  }

  /** A well-padded TLS plaintext: a body that can hold the MAC, then a padding block. */
  ghost predicate IsTlsPadded(s: seq<byte>, macSize: nat, body: seq<byte>, p: byte)
  {
    |body| >= macSize && s == body + TlsPadding(p)
  }

  /** A well-padded SSLv3 plaintext: the last byte p counts the p bytes before it, and the
      whole is no longer than one cipher block. */
  ghost predicate IsSsl3Padded(s: seq<byte>, blockSize: nat, macSize: nat, body: seq<byte>)
  {
    |body| >= macSize &&
    exists filler: seq<byte>, p: byte ::
      |filler| == p && p + 1 <= blockSize && s == body + filler + [p]
  }

  /** The test the code makes, on positions: the last p+1 bytes equal the last byte p. */
  predicate EndsInPadding(s: seq<byte>, macSize: nat)
    requires |s| > 0
  {
    var p := s[|s| - 1];
    macSize + 1 + p <= |s| && forall i :: |s| - 1 - p <= i < |s| ==> s[i] == s[|s| - 1]
  }

  lemma TlsPaddingSplit(s: seq<byte>, macSize: nat)
    requires |s| > 0 && EndsInPadding(s, macSize)
    ensures IsTlsPadded(s, macSize, s[..|s| - 1 - s[|s| - 1]], s[|s| - 1])
  {
    var p := s[|s| - 1];
    assert s == s[..|s| - 1 - p] + TlsPadding(p);
  }

  /** The padding block of a plaintext is determined by its last byte. */
  lemma TlsPaddingUnique(s: seq<byte>, macSize: nat, body: seq<byte>, p: byte)
    requires IsTlsPadded(s, macSize, body, p)
    ensures |s| > 0 && EndsInPadding(s, macSize) && p == s[|s| - 1] && body == s[..|s| - 1 - p]
  {
    assert s[|s| - 1] == TlsPadding(p)[p];
    forall i | |s| - 1 - p <= i < |s| ensures s[i] == p {
      assert s[i] == TlsPadding(p)[i - |body|];
    }
  }

  /** The SSLv3 test: the length byte leaves room for the MAC and padding is minimal. */
  predicate EndsInSsl3Padding(s: seq<byte>, blockSize: nat, macSize: nat)
    requires |s| > 0
  {
    var p := s[|s| - 1];
    macSize + 1 + p <= |s| && p + 1 <= blockSize
  }

  lemma Ssl3PaddingSplit(s: seq<byte>, blockSize: nat, macSize: nat)
    requires |s| > 0 && EndsInSsl3Padding(s, blockSize, macSize)
    ensures IsSsl3Padded(s, blockSize, macSize, s[..|s| - 1 - s[|s| - 1]])
  {
    var p := s[|s| - 1];
    var k := |s| - 1 - p;
    var filler := s[k..|s| - 1];
    assert s == s[..k] + filler + [p];
  }

  lemma Ssl3PaddingUnique(s: seq<byte>, blockSize: nat, macSize: nat, body: seq<byte>)
    requires IsSsl3Padded(s, blockSize, macSize, body)
    ensures |s| > 0 && EndsInSsl3Padding(s, blockSize, macSize) && body == s[..|s| - 1 - s[|s| - 1]]
  {
    var filler: seq<byte>, q: byte :|
      |filler| == q && q + 1 <= blockSize && s == body + filler + [q];
    assert s == (body + filler) + [q];
    assert q == s[|s| - 1];
  }

  // ---------- mask arithmetic ----------

  /** `(int)((good & 1) | (~good & -1))`, read back as a signed integer. */
  function ReturnCode(good: u32): (r: int)
    requires IsMask(good)
    ensures r == if good == ALL_ONES then 1 else -1
  {
    OrWithZero(1);
    OrWithZero(ALL_ONES);
    var u := BitOr(Mask(1, good), Mask(Not32(good), ALL_ONES));
    if u < MSB_32 then u else u - TWO_32
  }

  /** `good & (padding_length + 1)`: the number of bytes to remove. */
  function MaskedPadding(good: u32, p: byte): (r: nat)
    requires IsMask(good)
    ensures r == if good == ALL_ONES then p + 1 else 0
  {
    Mask(p + 1, good)
  }

  /** `type |= padding_length << 8`: neither part disturbs the other. */
  function TagType(recType: u32, paddingLength: nat): (r: u32)
    requires recType < 256 && paddingLength <= 256
    ensures r / 256 == paddingLength && r % 256 == recType
  {
    OnesValues();
    ShiftLeftByte(paddingLength);
    OrDisjoint(recType, paddingLength, 8);
    BitOr(recType, ShiftLeft(paddingLength, 8))
  }

  /** Whether the low eight bits of `good` are still all set. */
  predicate LowByteSet(good: nat)
  {
    && Bit(good, 0) && Bit(good, 1) && Bit(good, 2) && Bit(good, 3)
    && Bit(good, 4) && Bit(good, 5) && Bit(good, 6) && Bit(good, 7)
  }

  lemma MasksHaveLowByte()
    ensures LowByteSet(ALL_ONES) && !LowByteSet(0)
  {
    OnesValues();
    forall k | 0 <= k < 8 ensures Bit(ALL_ONES, k) {
      BitOfZero(k);
      BitOfNot(0, 32, k);
    }
    BitOfZero(0);
  }

  /** `good &= ~(mask & (padding_length ^ b))`: a low bit is lost exactly when a byte that
      the mask selects differs. */
  function ClearIfWrong(good: u32, mask: byte, p: byte, b: byte): (r: u32)
    requires IsByteMask(mask)
    ensures LowByteSet(r) <==> LowByteSet(good) && (mask == 0xff ==> p == b)
  {
    OnesValues();
    XorBound(p, b, 8);
    XorZeroIffEqual(p, b);
    var wrong: byte := BitXor(p, b);
    var x := Mask8(wrong, mask);
    AndBound(good, Not32(x));
    ClearKeepsLowByte(good, x);
    BitAnd(good, Not32(x))
  }

  lemma ClearKeepsLowByte(good: u32, x: byte)
    ensures LowByteSet(BitAnd(good, Not32(x))) <==> LowByteSet(good) && x == 0
  {
    OnesValues();
    hide Bit;
    hide BitAnd;
    hide Ones;
    forall k | 0 <= k < 8 ensures Bit(BitAnd(good, Not32(x)), k) <==> Bit(good, k) && !Bit(x, k) {
      BitOfAnd(good, Not32(x), k);
      BitOfNot(x, 32, k);
    }
    if forall k :: 0 <= k < 8 ==> !Bit(x, k) {
      forall k | 0 <= k < 8 ensures Bit(x, k) <==> Bit(0, k) {
        BitOfZero(k);
      }
      EqualBits(x, 0, 8);
    } else {
      var k :| 0 <= k < 8 && Bit(x, k);
      BitOfZero(k);
    }
  }

  /** The three lines that AND the low eight bits of `good` into bit 0. */
  function FoldLow(good: nat): nat
  {
    var g4 := BitAnd(good, ShiftRight(good, 4));
    var g2 := BitAnd(g4, ShiftRight(g4, 2));
    BitAnd(g2, ShiftRight(g2, 1))
  }

  /** The fold at the end of the TLS check: bit 0 shifted to the sign bit and copied to all
      32 bits. */
  function FoldGood(good: u32): (r: u32)
    ensures r == if LowByteSet(good) then ALL_ONES else 0
  {
    FoldedBit(good);
    ShiftToSign(FoldLow(good));
    DuplicateMsbToAll((FoldLow(good) * MSB_32) % TWO_32)
  }

  lemma ShiftToSign(g: nat)
    ensures (g * MSB_32) % TWO_32 == if g % 2 == 1 then MSB_32 else 0
  {
  }

  lemma FoldedBit(good: nat)
    ensures FoldLow(good) % 2 == 1 <==> LowByteSet(good)
  {
    var g4 := BitAnd(good, ShiftRight(good, 4));
    var g2 := BitAnd(g4, ShiftRight(g4, 2));
    FoldStep(g2, 1, 0);
    FoldStep(g4, 2, 0);
    FoldStep(g4, 2, 1);
    FoldStep(good, 4, 0);
    FoldStep(good, 4, 1);
    FoldStep(good, 4, 2);
    FoldStep(good, 4, 3);
  }

  lemma FoldStep(g: nat, j: nat, k: nat)
    ensures Bit(BitAnd(g, ShiftRight(g, j)), k) <==> Bit(g, k) && Bit(g, k + j)
  {
    BitOfAnd(g, ShiftRight(g, j), k);
    BitOfShiftRight(g, j, k);
  }

  /** The bytes looked at so far, from the end of the record, that lie in the padding block
      all equal p. */
  predicate TailMatches(s: seq<byte>, p: byte, i: nat)
    requires i <= |s|
  {
    i == 0 || (TailMatches(s, p, i - 1) && (i - 1 <= p ==> s[|s| - i] == p))
  }

  lemma {:induction false} TailMatchesAll(s: seq<byte>, p: byte, i: nat)
    requires i <= |s|
    ensures TailMatches(s, p, i) <==> forall j :: |s| - i <= j < |s| && |s| - 1 - p <= j ==> s[j] == p
  {
    if i > 0 {
      TailMatchesAll(s, p, i - 1);
      if TailMatches(s, p, i) {
        forall j | |s| - i <= j < |s| && |s| - 1 - p <= j ensures s[j] == p {
          assert j == |s| - i || j >= |s| - (i - 1);
        }
      }
    }
  }

  lemma CheckDecides(s: seq<byte>, macSize: nat, toCheck: nat)
    requires |s| > 0 && toCheck == if 256 > |s| then |s| else 256
    ensures EndsInPadding(s, macSize) <==>
      macSize + 1 + s[|s| - 1] <= |s| && TailMatches(s, s[|s| - 1], toCheck)
  {
    TailMatchesAll(s, s[|s| - 1], toCheck);
  }

  lemma TakeOfSlice<T>(s: seq<T>, from: nat, to: nat, n: nat)
    requires from + n <= to <= |s|
    ensures s[from..to][..n] == s[from..from + n]
  {
  }

  /** The last lines of both removers: shorten the record, tag its type, return. */
  method StripPadding(rec: Ssl3Record, good: u32) returns (ret: int)
    requires rec.Valid() && rec.recType < 0x100 && rec.length > 0
    requires IsMask(good) && (good == ALL_ONES ==> rec.Payload()[rec.length - 1] + 1 <= rec.length)
    modifies rec`length, rec`recType
    ensures rec.Valid()
    ensures ret == if good == 0 then -1 else 1
    ensures rec.Payload() == if good == 0 then old(rec.Payload())
                             else old(rec.Payload()[..rec.length - 1 - rec.Payload()[rec.length - 1]])
    ensures old(rec.length) == rec.length + rec.recType / 256
    ensures rec.recType % 256 == old(rec.recType)
    ensures good == 0 ==> rec.recType == old(rec.recType)
  {
    ghost var all, s, from := rec.buffer[..], rec.Payload(), rec.data;
    var last := rec.buffer[rec.data + rec.length - 1];
    assert s == all[from..from + |s|] && s[|s| - 1] == last;
    var paddingLength := MaskedPadding(good, last);
    rec.length := rec.length - paddingLength;
    rec.recType := TagType(rec.recType, paddingLength);
    ret := ReturnCode(good);
    TakeOfSlice(all, from, from + |s|, rec.length);
    assert rec.buffer[..] == all;
    assert rec.Payload() == all[from..from + rec.length];
  }

  // ---------- removing SSLv3 padding ----------

  /** What is left of a record after `ssl3_cbc_remove_padding`: -1 leaves everything. */
  function Ssl3Removed(s: seq<byte>, blockSize: nat, macSize: nat): (r: (int, seq<byte>))
    requires |s| > 0
  {
    if EndsInSsl3Padding(s, blockSize, macSize) then (1, s[..|s| - 1 - s[|s| - 1]]) else (-1, s)
  }

  /** Returns 0 (too short), 1 (valid) or -1. */
  method Ssl3CbcRemovePadding(rec: Ssl3Record, blockSize: nat, macSize: nat) returns (ret: int)
    requires rec.Valid() && rec.recType < 0x100 && blockSize <= 256 && macSize <= 64
    modifies rec`length, rec`recType
    ensures rec.Valid()
    ensures if old(rec.length) < macSize + 1 then
        ret == 0 && rec.length == old(rec.length) && rec.recType == old(rec.recType)
      else
        && (ret, rec.Payload()) == Ssl3Removed(old(rec.Payload()), blockSize, macSize)
        && old(rec.length) == rec.length + rec.recType / 256
        && rec.recType % 256 == old(rec.recType)
  {
    var overhead := 1 + macSize;
    if overhead > rec.length {
      return 0;
    }
    var last := rec.buffer[rec.data + rec.length - 1];
    assert rec.Payload()[rec.length - 1] == last;
    var good := ConstantTimeGe(rec.length, last + overhead);
    good := Mask(good, ConstantTimeGe(blockSize, last + 1));
    assert good == if EndsInSsl3Padding(rec.Payload(), blockSize, macSize) then ALL_ONES else 0;
    ret := StripPadding(rec, good);
  }

  // ---------- removing TLS padding ----------

  /** What is left of a record after `tls1_cbc_remove_padding`: -1 leaves everything. */
  function TlsRemoved(s: seq<byte>, macSize: nat): (r: (int, seq<byte>))
    requires |s| > 0
  {
    if EndsInPadding(s, macSize) then (1, s[..|s| - 1 - s[|s| - 1]]) else (-1, s)
  }

  /** Returns 0 (too short), 1 (valid) or -1. With `explicitIv` the IV block is skipped
      first, in every case but 0. */
  method Tls1CbcRemovePadding(rec: Ssl3Record, explicitIv: bool, blockSize: nat, macSize: nat) returns (ret: int)
    requires rec.Valid() && rec.recType < 0x100 && blockSize <= 256 && macSize <= 64
    modifies rec
    ensures rec.Valid()
    ensures var skip := if explicitIv then blockSize else 0;
      if old(rec.length) < macSize + 1 + skip then
        ret == 0 && rec.data == old(rec.data) && rec.length == old(rec.length) && rec.recType == old(rec.recType)
      else
        && rec.data == old(rec.data) + skip
        && (ret, rec.Payload()) == TlsRemoved(old(rec.Payload()[skip..]), macSize)
        && old(rec.length) - skip == rec.length + rec.recType / 256
        && rec.recType % 256 == old(rec.recType)
  {
    var overhead := 1 + macSize;
    if explicitIv {
      if overhead + blockSize > rec.length {
        return 0;
      }
      rec.data := rec.data + blockSize;
      rec.length := rec.length - blockSize;
      assert rec.Payload() == old(rec.Payload())[blockSize..];
    } else if overhead > rec.length {
      return 0;
    }
    ghost var skip := if explicitIv then blockSize else 0;
    assert rec.Payload() == old(rec.Payload())[skip..];
    hide TailMatches;
    hide EndsInPadding;
    var good := CheckTlsPadding(rec, overhead);
    ret := StripPadding(rec, good);
  }

  /** The loop over the last 256 bytes, or the whole record if it is shorter. */
  method CheckTlsPadding(rec: Ssl3Record, overhead: nat) returns (good: u32)
    requires rec.Valid() && 1 <= overhead <= 65 && overhead <= rec.length
    ensures good == if EndsInPadding(rec.Payload(), overhead - 1) then ALL_ONES else 0
  {
    ghost var s := rec.Payload();
    var paddingLength := rec.buffer[rec.data + rec.length - 1];
    good := ConstantTimeGe(rec.length, overhead + paddingLength);
    MasksHaveLowByte();
    var toCheck := 256;
    if toCheck > rec.length {
      toCheck := rec.length;
    }
    ghost var fits := overhead + paddingLength <= rec.length;
    var i := 0;
    while i < toCheck
      invariant 0 <= i <= toCheck
      invariant LowByteSet(good) <==> fits && TailMatches(s, paddingLength, i)
    {
      var mask := GeByte(paddingLength, i);
      var b := rec.buffer[rec.data + rec.length - 1 - i];
      assert b == s[|s| - (i + 1)];
      good := ClearIfWrong(good, mask, paddingLength, b);
      i := i + 1;
    }
    CheckDecides(s, overhead - 1, toCheck);
    good := FoldGood(good);
  }

  // ---------- adding padding on send ----------

  /** The plaintext `dtls1_enc` hands to the cipher. */
  function TlsPad(s: seq<byte>, blockSize: nat): (r: seq<byte>)
    requires 1 < blockSize <= 256
    ensures |r| % blockSize == 0
  {
    var i := blockSize - |s| % blockSize;
    Arith.ModPrefix(|s|, blockSize);
    s + TlsPadding(i - 1)
  }

  /** The plaintext `ssl3_enc` hands to the cipher. */
  function Ssl3Pad(s: seq<byte>, blockSize: nat): (r: seq<byte>)
    requires 1 < blockSize <= 256
    ensures |r| % blockSize == 0
  {
    var i := blockSize - |s| % blockSize;
    Arith.ModPrefix(|s|, blockSize);
    s + Repeat<byte>(0, i - 1) + [i - 1]
  }

  /** The padding loop of `dtls1_enc`, in place behind the plaintext. */
  method Dtls1EncPad(rec: Ssl3Record, blockSize: nat)
    requires rec.Valid() && 1 < blockSize <= 256
    requires rec.data + rec.length + blockSize <= rec.buffer.Length && rec.length + blockSize <= MAX_RECORD
    modifies rec`length, rec.buffer
    ensures rec.Valid() && rec.Payload() == TlsPad(old(rec.Payload()), blockSize)
  {
    ghost var s := rec.Payload();
    var l := rec.length;
    var i := blockSize - l % blockSize;
    var j := i - 1;
    var k := l;
    while k < l + i
      invariant l <= k <= l + i && rec.length == l
      invariant rec.buffer[rec.data..rec.data + k] == s + Repeat<byte>(j, k - l)
    {
      rec.buffer[rec.data + k] := j;
      k := k + 1;
    }
    rec.length := rec.length + i;
  }

  /** `memset(p, 0, n)`. */
  method FillZeros(a: array<byte>, from: nat, n: nat)
    requires from + n <= a.Length
    modifies a
    ensures a[..] == old(a[..from]) + Repeat<byte>(0, n) + old(a[from + n..])
  {
    var k := 0;
    while k < n
      invariant 0 <= k <= n
      invariant a[..from + k] == old(a[..from]) + Repeat<byte>(0, k)
      invariant a[from + k..] == old(a[from + k..])
    {
      a[from + k] := 0;
      k := k + 1;
    }
    assert a[..] == a[..from + n] + a[from + n..];
  }

  /** The padding of `ssl3_enc`: zeros, the last of them overwritten by the length. */
  method Ssl3EncPad(rec: Ssl3Record, blockSize: nat)
    requires rec.Valid() && 1 < blockSize <= 256
    requires rec.data + rec.length + blockSize <= rec.buffer.Length && rec.length + blockSize <= MAX_RECORD
    modifies rec`length, rec.buffer
    ensures rec.Valid() && rec.Payload() == Ssl3Pad(old(rec.Payload()), blockSize)
  {
    var l := rec.length;
    var i := blockSize - l % blockSize;
    l := l + i;
    FillZeros(rec.buffer, rec.data + rec.length, i);
    rec.length := rec.length + i;
    assert rec.buffer[rec.data..rec.data + l - 1] == old(rec.Payload()) + Repeat<byte>(0, i - 1);
    rec.buffer[rec.data + l - 1] := i - 1;
    assert rec.buffer[rec.data..rec.data + l - 1] == old(rec.Payload()) + Repeat<byte>(0, i - 1);
    assert rec.Payload() == rec.buffer[rec.data..rec.data + l - 1] + [i - 1];
  }

  // ---------- main results ----------

  /** The TLS remover accepts exactly the padded plaintexts, removes exactly the padding
      block, and otherwise removes nothing. */
  lemma TlsRemovalIsExact(s: seq<byte>, macSize: nat)
    requires |s| > 0
    ensures TlsRemoved(s, macSize).0 == 1 <==> exists body, p :: IsTlsPadded(s, macSize, body, p)
    ensures forall body, p :: IsTlsPadded(s, macSize, body, p) ==> TlsRemoved(s, macSize) == (1, body)
    ensures !(exists body, p :: IsTlsPadded(s, macSize, body, p)) ==> TlsRemoved(s, macSize) == (-1, s)
  {
    if EndsInPadding(s, macSize) {
      TlsPaddingSplit(s, macSize);
    }
    forall body, p | IsTlsPadded(s, macSize, body, p)
      ensures TlsRemoved(s, macSize) == (1, body)
    {
      TlsPaddingUnique(s, macSize, body, p);
    }
  }

  lemma Ssl3RemovalIsExact(s: seq<byte>, blockSize: nat, macSize: nat)
    requires |s| > 0
    ensures Ssl3Removed(s, blockSize, macSize).0 == 1 <==> exists body :: IsSsl3Padded(s, blockSize, macSize, body)
    ensures forall body :: IsSsl3Padded(s, blockSize, macSize, body) ==>
      Ssl3Removed(s, blockSize, macSize) == (1, body)
    ensures !(exists body :: IsSsl3Padded(s, blockSize, macSize, body)) ==>
      Ssl3Removed(s, blockSize, macSize) == (-1, s)
  {
    if EndsInSsl3Padding(s, blockSize, macSize) {
      Ssl3PaddingSplit(s, blockSize, macSize);
    }
    forall body | IsSsl3Padded(s, blockSize, macSize, body)
      ensures Ssl3Removed(s, blockSize, macSize) == (1, body)
    {
      Ssl3PaddingUnique(s, blockSize, macSize, body);
    }
  }

  /** Both removers undo the padding added on send. */
  lemma PaddingRoundTrip(s: seq<byte>, blockSize: nat, macSize: nat)
    requires 1 < blockSize <= 256 && |s| >= macSize
    ensures TlsRemoved(TlsPad(s, blockSize), macSize) == (1, s)
    ensures Ssl3Removed(Ssl3Pad(s, blockSize), blockSize, macSize) == (1, s)
  {
    var p: byte := blockSize - |s| % blockSize - 1;
    assert IsTlsPadded(TlsPad(s, blockSize), macSize, s, p);
    TlsRemovalIsExact(TlsPad(s, blockSize), macSize);
    assert Ssl3Pad(s, blockSize) == s + Repeat<byte>(0, p) + [p];
    assert IsSsl3Padded(Ssl3Pad(s, blockSize), blockSize, macSize, s);
    Ssl3RemovalIsExact(Ssl3Pad(s, blockSize), blockSize, macSize);
  }
}
