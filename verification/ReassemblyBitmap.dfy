/**
 The bitmap that records which bytes of a fragmented handshake message have arrived: the
 macros RSMBLY_BITMASK_MARK and RSMBLY_BITMASK_IS_COMPLETE of ssl/d1_both.c.
 */
module ReassemblyBitmap {
  import opened Bits

  /** RSMBLY_BITMASK_SIZE */
  function BitmaskSize(msgLen: nat): nat
  {
    (msgLen + 7) / 8
  }

  const START_VALUES: seq<byte> := [0xff, 0xfe, 0xfc, 0xf8, 0xf0, 0xe0, 0xc0, 0x80]
  const END_VALUES: seq<byte> := [0xff, 0x01, 0x03, 0x07, 0x0f, 0x1f, 0x3f, 0x7f]

  /** Message byte k has been marked. */
  predicate Covered(mask: seq<byte>, k: nat)
    requires k < 8 * |mask|
  {
    Bit(mask[k / 8], k % 8)
  }

  /** `after` is `before` with exactly the bytes [start, end) added. */
  ghost predicate Marks(before: seq<byte>, after: seq<byte>, start: nat, end: nat)
  {
    && |after| == |before|
    && forall k: nat :: k < 8 * |before| ==> (Covered(after, k) <==> Covered(before, k) || start <= k < end)
  }

  lemma StartValue(s: nat, k: nat)
    requires s < 8 && k < 8
    ensures Bit(START_VALUES[s], k) <==> s <= k
  {
    OnesValues();
    SmallOnes();
    OnesGrowTo8(s);
    BitOfOnes(s, k);
    BitOfNot(Ones(s), 8, k);
    assert START_VALUES[s] == 255 - Ones(s);
  }

  lemma EndValue(e: nat, k: nat)
    requires e < 8 && k < 8
    ensures Bit(END_VALUES[e], k) <==> e == 0 || k < e
  {
    OnesValues();
    SmallOnes();
    BitOfOnes(if e == 0 then 8 else e, k);
    assert END_VALUES[e] == if e == 0 then Ones(8) else Ones(e);
  }

  /** The end value of a range covers its last byte up to the end. */
  lemma EndBits(end: nat, j: nat)
    requires end > 0 && j < 8
    ensures Bit(END_VALUES[end % 8], j) <==> j < end - 8 * ((end - 1) / 8)
    ensures 0 < end - 8 * ((end - 1) / 8) <= 8
  {
    EndValue(end % 8, j);
  }

  lemma SmallOnes()
    ensures Ones(0) == 0 && Ones(1) == 1 && Ones(2) == 3 && Ones(3) == 7
    ensures Ones(4) == 15 && Ones(5) == 31 && Ones(6) == 63 && Ones(7) == 127
  {
  }

  lemma OnesGrowTo8(s: nat)
    requires s <= 8
    ensures Ones(s) <= 255
  {
    SmallOnes();
    OnesValues();
  }

  /** Rewriting byte i so that bits [lo, hi) become set marks 8i+lo up to 8i+hi. */
  lemma MarkByte(before: seq<byte>, i: nat, v: byte, lo: nat, hi: nat)
    requires i < |before| && hi <= 8
    requires forall j: nat :: j < 8 ==> (Bit(v, j) <==> Bit(before[i], j) || lo <= j < hi)
    ensures Marks(before, before[i := v], 8 * i + lo, 8 * i + hi)
  {
    var after := before[i := v];
    forall k: nat | k < 8 * |before|
      ensures Covered(after, k) <==> Covered(before, k) || 8 * i + lo <= k < 8 * i + hi
    {
      if k / 8 == i {
        assert Bit(v, k % 8) <==> Bit(before[i], k % 8) || lo <= k % 8 < hi;
      }
    }
  }

  lemma MarksCompose(a: seq<byte>, b: seq<byte>, c: seq<byte>, start: nat, mid: nat, end: nat)
    requires Marks(a, b, start, mid) && Marks(b, c, mid, end) && start <= mid <= end
    ensures Marks(a, c, start, end)
  {
    forall k: nat | k < 8 * |a|
      ensures Covered(c, k) <==> Covered(a, k) || start <= k < end
    {
      assert Covered(b, k) <==> Covered(a, k) || start <= k < mid;
      assert Covered(c, k) <==> Covered(b, k) || mid <= k < end;
    }
  }

  function OrByte(a: byte, b: byte): (r: byte)
    ensures r == BitOr(a, b)
  {
    OnesValues();
    OrBound(a, b, 8);
    BitOr(a, b)
  }

  /** RSMBLY_BITMASK_MARK: bit by bit for short ranges, byte by byte for long ones. */
  method Mark(bitmask: array<byte>, start: nat, end: nat)
    requires start <= end <= 8 * bitmask.Length
    modifies bitmask
    ensures Marks(old(bitmask[..]), bitmask[..], start, end)
  {
    if end - start <= 8 {
      MarkBits(bitmask, start, end);
    } else {
      MarkBytes(bitmask, start, end);
    }
  }

  method MarkBits(bitmask: array<byte>, start: nat, end: nat)
    requires start <= end <= 8 * bitmask.Length
    modifies bitmask
    ensures Marks(old(bitmask[..]), bitmask[..], start, end)
  {
    var ii := start;
    while ii < end
      invariant start <= ii <= end
      invariant Marks(old(bitmask[..]), bitmask[..], start, ii)
    {
      ghost var before := bitmask[..];
      OneBitByte(ii % 8);
      var v := OrByte(bitmask[ii / 8], ShiftLeft(1, ii % 8));
      forall j: nat | j < 8 ensures Bit(v, j) <==> Bit(before[ii / 8], j) || ii % 8 <= j < ii % 8 + 1 {
        BitSet(before[ii / 8], ii % 8, j);
      }
      MarkByte(before, ii / 8, v, ii % 8, ii % 8 + 1);
      bitmask[ii / 8] := v;
      assert bitmask[..] == before[ii / 8 := v];
      MarksCompose(old(bitmask[..]), before, bitmask[..], start, ii, ii + 1);
      ii := ii + 1;
    }
  }

  lemma OneBitByte(s: nat)
    requires s < 8
    ensures ShiftLeft(1, s) < 256
  {
    OnesValues();
    ShiftOneBound(s, 8);
  }

  method MarkBytes(bitmask: array<byte>, start: nat, end: nat)
    requires start + 8 < end <= 8 * bitmask.Length
    modifies bitmask
    ensures Marks(old(bitmask[..]), bitmask[..], start, end)
  {
    MarkFirst(bitmask, start);
    var ii := start / 8 + 1;
    while ii < (end - 1) / 8
      invariant start / 8 + 1 <= ii <= (end - 1) / 8
      invariant Marks(old(bitmask[..]), bitmask[..], start, 8 * ii)
    {
      ghost var before := bitmask[..];
      FullByte();
      MarkByte(before, ii, 0xff, 0, 8);
      bitmask[ii] := 0xff;
      assert bitmask[..] == before[ii := 0xff];
      MarksCompose(old(bitmask[..]), before, bitmask[..], start, 8 * ii, 8 * ii + 8);
      ii := ii + 1;
    }
    ghost var before := bitmask[..];
    MarkLast(bitmask, end);
    MarksCompose(old(bitmask[..]), before, bitmask[..], start, 8 * ii, end);
  }

  lemma FullByte()
    ensures forall j: nat :: j < 8 ==> Bit(0xff, j)
  {
    forall j: nat | j < 8 ensures Bit(0xff, j) {
      EndValue(0, j);
    }
  }

  method MarkFirst(bitmask: array<byte>, start: nat)
    requires start < 8 * bitmask.Length
    modifies bitmask
    ensures Marks(old(bitmask[..]), bitmask[..], start, 8 * (start / 8) + 8)
  {
    ghost var before := bitmask[..];
    var i := start / 8;
    var v := OrByte(bitmask[i], START_VALUES[start % 8]);
    forall j: nat | j < 8 ensures Bit(v, j) <==> Bit(before[i], j) || start % 8 <= j < 8 {
      BitOfOr(before[i], START_VALUES[start % 8], j);
      StartValue(start % 8, j);
    }
    MarkByte(before, i, v, start % 8, 8);
    bitmask[i] := v;
    assert bitmask[..] == before[i := v];
  }

  method MarkLast(bitmask: array<byte>, end: nat)
    requires 0 < end <= 8 * bitmask.Length
    modifies bitmask
    ensures Marks(old(bitmask[..]), bitmask[..], 8 * ((end - 1) / 8), end)
  {
    ghost var before := bitmask[..];
    var i := (end - 1) / 8;
    var v := OrByte(bitmask[i], END_VALUES[end % 8]);
    ghost var hi := end - 8 * i;
    hide Bit;
    hide BitOr;
    forall j: nat | j < 8 ensures Bit(v, j) <==> Bit(before[i], j) || 0 <= j < hi {
      BitOfOr(before[i], END_VALUES[end % 8], j);
      EndBits(end, j);
    }
    EndBits(end, 0);
    MarkByte(before, i, v, 0, hi);
    bitmask[i] := v;
    assert bitmask[..] == before[i := v];
  }

  /** Every byte of the message is marked, and no bit past its end. */
  ghost predicate ExactlyComplete(mask: seq<byte>, msgLen: nat)
    requires |mask| == BitmaskSize(msgLen)
  {
    forall k: nat :: k < 8 * |mask| ==> (Covered(mask, k) <==> k < msgLen)
  }

  /** RSMBLY_BITMASK_IS_COMPLETE */
  method IsComplete(bitmask: array<byte>, msgLen: nat) returns (isComplete: bool)
    requires msgLen > 0 && bitmask.Length == BitmaskSize(msgLen)
    ensures isComplete <==> ExactlyComplete(bitmask[..], msgLen)
  {
    ghost var mask := bitmask[..];
    ExactRows(mask, msgLen);
    forall i | 0 <= i < |mask|
      ensures RowExact(mask[i], i, msgLen) <==>
        mask[i] == if i == (msgLen - 1) / 8 then END_VALUES[msgLen % 8] else 0xff
    {
      RowDecides(mask[i], i, msgLen);
    }
    isComplete := true;
    if bitmask[(msgLen - 1) / 8] != END_VALUES[msgLen % 8] {
      isComplete := false;
    }
    if isComplete {
      var ii := (msgLen - 1) / 8 - 1;
      while ii >= 0
        invariant -1 <= ii < (msgLen - 1) / 8
        invariant forall i :: ii < i < (msgLen - 1) / 8 ==> bitmask[i] == 0xff
      {
        if bitmask[ii] != 0xff {
          isComplete := false;
          break;
        }
        ii := ii - 1;
      }
    }
  }

  /** Byte i of the bitmap has a bit set exactly for each of its message bytes. */
  ghost predicate RowExact(b: byte, i: nat, msgLen: nat)
  {
    forall j: nat :: j < 8 ==> (Bit(b, j) <==> 8 * i + j < msgLen)
  }

  lemma ExactRows(mask: seq<byte>, msgLen: nat)
    requires |mask| == BitmaskSize(msgLen)
    ensures ExactlyComplete(mask, msgLen) <==> forall i :: 0 <= i < |mask| ==> RowExact(mask[i], i, msgLen)
  {
    if ExactlyComplete(mask, msgLen) {
      forall i | 0 <= i < |mask| ensures RowExact(mask[i], i, msgLen) {
        forall j: nat | j < 8 ensures Bit(mask[i], j) <==> 8 * i + j < msgLen {
          assert Covered(mask, 8 * i + j) <==> 8 * i + j < msgLen;
        }
      }
    }
    if forall i :: 0 <= i < |mask| ==> RowExact(mask[i], i, msgLen) {
      forall k: nat | k < 8 * |mask| ensures Covered(mask, k) <==> k < msgLen {
        assert RowExact(mask[k / 8], k / 8, msgLen);
      }
    }
  }

  /** The two byte values the completeness test compares with. */
  lemma RowDecides(b: byte, i: nat, msgLen: nat)
    requires msgLen > 0 && i <= (msgLen - 1) / 8
    ensures b == (if i == (msgLen - 1) / 8 then END_VALUES[msgLen % 8] else 0xff) <==> RowExact(b, i, msgLen)
  {
    var v: byte := if i == (msgLen - 1) / 8 then END_VALUES[msgLen % 8] else 0xff;
    OnesValues();
    FullByte();
    forall j: nat | j < 8 ensures Bit(v, j) <==> 8 * i + j < msgLen {
      EndBits(msgLen, j);
    }
    if RowExact(b, i, msgLen) {
      forall j: nat | j < 8 ensures Bit(b, j) <==> Bit(v, j) {
      }
      EqualBits(b, v, 8);
    }
  }
}
