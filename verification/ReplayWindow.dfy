/**
 The DTLS anti-replay window of ssl/d1_pkt.c: the saturating subtraction of two sequence
 numbers, and the bitmap checked and updated with it (section 4.1.2.6 of RFC 6347).
 */
module ReplayWindow {
  import opened Bits
  import opened Bytes
  import Arith

  const TWO_64: int := 0x1_0000_0000_0000_0000

  /** The bitmap is an `unsigned long`, 64 bits wide. */
  const WINDOW: nat := 64

  // ---------- satsub64be ----------

  function Clamp(x: int): int
  {
    if x > 128 then 128 else if x < -128 then -128 else x
  }

  /** The running state of the subtraction after the bytes from i on: their difference is
      brw times the weight of byte i-1, plus the digits m seen so far. */
  ghost predicate Subtracted(v1: seq<byte>, v2: seq<byte>, i: nat, brw: int, m: nat)
    requires |v1| == |v2| == 8 && i <= 8
  {
    && (brw == 0 || brw == -1)
    && Value(v1[i..]) - Value(v2[i..]) == brw * Power256(8 - i) + m
    && m < Power256(8 - i)
  }

  lemma SubtractStep(v1: seq<byte>, v2: seq<byte>, i: nat, brw: int, m: nat)
    requires |v1| == |v2| == 8 && i < 7 && Subtracted(v1, v2, i + 1, brw, m)
    ensures var t := brw + v1[i] - v2[i];
      m + (t % 256) * Power256(7 - i) >= 0
      && Subtracted(v1, v2, i, t / 256, m + (t % 256) * Power256(7 - i))
  {
    ValueSuffix(v1, i);
    ValueSuffix(v2, i);
    DigitStep(v1[i], v2[i], brw, Power256(7 - i), Value(v1[i + 1..]), Value(v2[i + 1..]), m);
  }

  lemma DigitStep(a: byte, b: byte, brw: int, p: nat, x: nat, y: nat, m: nat)
    requires (brw == 0 || brw == -1) && x - y == brw * p + m && m < p
    ensures var t := brw + a - b;
      && (t / 256 == 0 || t / 256 == -1)
      && (a * p + x) - (b * p + y) == (t / 256) * (256 * p) + (m + (t % 256) * p)
      && 0 <= m + (t % 256) * p < 256 * p
  {
    var t := brw + a - b;
    var q, d := t / 256, t % 256;
    assert t == 256 * q + d && (q == 0 || q == -1);
    Arith.Distribute(brw + a, 0 - b as int, p);
    Arith.Distribute(brw, a, p);
    Arith.Distribute(256 * q, d, p);
    assert t * p == brw * p + a * p - b * p;
    assert (256 * q) * p == q * (256 * p);
    Arith.MulMono(d, 255, p);
  }

  /** What the byte `sat` says about the digits: zero while every digit above the lowest is
      0 (or 255, when the lowest is 0x80 or more). */
  ghost predicate SatMeans(sat: byte, low: byte, m: nat, p: nat)
  {
    low <= m && m % 256 == low && (sat == 0 <==> m == if low >= 0x80 then p - 256 + low else low)
  }

  /** The loop over bytes 6 down to 0. `sat` is only ever tested in its low byte, so its low
      byte is what is kept; the right shifts of negative numbers are arithmetic, so they
      round down. */
  method SubtractBytes(v1: seq<byte>, v2: seq<byte>, low: byte, brw0: int) returns (brw: int, sat: byte, ghost m: nat)
    requires |v1| == |v2| == 8 && Subtracted(v1, v2, 7, brw0, low)
    ensures Subtracted(v1, v2, 0, brw, m) && SatMeans(sat, low, m, Power256(8))
  {
    sat, brw, m := 0, brw0, low;
    assert Power256(1) == 256;
    hide Value;
    var i := 6;
    while i >= 0
      invariant -1 <= i <= 6
      invariant Subtracted(v1, v2, i + 1, brw, m)
      invariant SatMeans(sat, low, m, Power256(7 - i))
    {
      hide Subtracted;
      hide SatMeans;
      SubtractStep(v1, v2, i, brw, m);
      brw := brw + v1[i] - v2[i];
      SaturateStep(sat, low, m, Power256(7 - i), brw % 256);
      m := m + (brw % 256) * Power256(7 - i);
      if low >= 0x80 {
        sat := Saturate(sat, 255 - brw % 256);
      } else {
        sat := Saturate(sat, brw % 256);
      }
      brw := brw / 256;
      i := i - 1;
    }
  }

  /** Saturating subtraction. It is the clamped difference of the two 64-bit numbers exactly
      when that difference stays 127 away from the ends of its range. */
  method SatSub64be(v1: seq<byte>, v2: seq<byte>) returns (r: int)
    requires |v1| == |v2| == 8
    ensures r == Clamp(Value(v1) - Value(v2)) <==> -TWO_64 + 128 <= Value(v1) - Value(v2) <= TWO_64 - 128
  {
    var ret := (v1[7] as int) - (v2[7] as int);
    FirstStep(v1, v2);
    var brw, sat;
    ghost var m: nat;
    brw, sat, m := SubtractBytes(v1, v2, ret % 256, ret / 256);
    assert v1[0..] == v1 && v2[0..] == v2;
    Widths();
    brw := brw * 256;
    r := if sat != 0 then brw + 0x80 else brw + ret % 256;
    FinalStep(Value(v1) - Value(v2), brw / 256, m, ret % 256);
  }

  lemma FinalStep(diff: int, brw: int, m: nat, low: byte)
    requires (brw == 0 || brw == -1) && m < TWO_64 && low <= m && diff == brw * TWO_64 + m
    requires m % 256 == low
    ensures var saturated := m != if low >= 0x80 then TWO_64 - 256 + low else low;
      (if saturated then brw * 256 + 0x80 else brw * 256 + low) == Clamp(diff) <==>
        -TWO_64 + 128 <= diff <= TWO_64 - 128
  {
  }

  function Saturate(sat: byte, b: byte): (r: byte)
    ensures r == 0 <==> sat == 0 && b == 0
  {
    OnesValues();
    OrBound(sat, b, 8);
    OrIsZero(sat, b);
    BitOr(sat, b)
  }

  lemma {:induction false} OrIsZero(a: nat, b: nat)
    ensures BitOr(a, b) == 0 <==> a == 0 && b == 0
  {
    if a != 0 || b != 0 {
      OrIsZero(a / 2, b / 2);
    }
  }

  lemma FirstStep(v1: seq<byte>, v2: seq<byte>)
    requires |v1| == |v2| == 8
    ensures var ret: int := (v1[7] as int) - (v2[7] as int);
      Subtracted(v1, v2, 7, ret / 256, ret % 256)
  {
    ValueSuffix(v1, 7);
    ValueSuffix(v2, 7);
    assert Power256(1) == 256 * Power256(0) && Power256(0) == 1;
    assert v1[8..] == [] && v2[8..] == [];
  }

  /** A further digit keeps the number small (or, for a negative low byte, just below the
      next power) exactly when it is 0 (or 255). */
  lemma SaturateStep(sat: byte, low: byte, m: nat, p: nat, digit: byte)
    requires m < p && 256 <= p && p % 256 == 0 && SatMeans(sat, low, m, p)
    ensures m + digit * p >= m
    ensures SatMeans(Saturate(sat, if low >= 0x80 then 255 - digit else digit), low, m + digit * p, 256 * p)
  {
    assert digit * p == (digit * (p / 256)) * 256;
    Arith.AddMultiple(m, 256, digit * (p / 256));
    if digit > 0 {
      Arith.MulMono(1, digit, p);
    }
    if digit < 255 {
      Arith.MulMono(digit, 254, p);
    }
  }

  // ---------- the bitmap ----------

  /** A record number as `dtls1_get_record` leaves it in `read_sequence`: eight bytes, the
      first two zero. */
  predicate IsRecordNumber(s: seq<byte>)
  {
    |s| == 8 && s[0] == 0 && s[1] == 0
  }

  const TWO_48: int := 0x1_0000_0000_0000

  lemma RecordNumberBound(s: seq<byte>)
    requires IsRecordNumber(s)
    ensures Value(s) < TWO_48
  {
    Widths();
    ValueSuffix(s, 0);
    ValueSuffix(s, 1);
    ValueBound(s[2..]);
    hide Power256;
    hide Value;
    assert s[0..] == s;
  }

  /** A record is wanted if it has not been accepted and is less than a window behind every
      record that has. */
  ghost predicate Wanted(accepted: set<nat>, n: nat)
  {
    n !in accepted && forall a :: a in accepted ==> a < n + WINDOW
  }

  /** `map <<= shift, map |= 1UL` in a 64-bit word. */
  function ShiftIn(w: nat, shift: nat): (r: nat)
    requires w <= Ones(WINDOW)
    ensures r <= Ones(WINDOW)
  {
    TruncateBound(ShiftLeft(w, shift), WINDOW);
    OnesGrow(1, WINDOW);
    OrBound(Truncate(ShiftLeft(w, shift), WINDOW), 1, WINDOW);
    BitOr(Truncate(ShiftLeft(w, shift), WINDOW), 1)
  }

  lemma {:induction false} OnesGrow(j: nat, k: nat)
    requires j <= k
    ensures Ones(j) <= Ones(k)
  {
    if j > 0 {
      OnesGrow(j - 1, k - 1);
    }
  }

  lemma BitOfShiftIn(w: nat, shift: nat, k: nat)
    requires w <= Ones(WINDOW) && k < WINDOW && shift > 0
    ensures Bit(ShiftIn(w, shift), k) <==> k == 0 || (k >= shift && Bit(w, k - shift))
  {
    var t := Truncate(ShiftLeft(w, shift), WINDOW);
    assert ShiftLeft(1, 0) == 1;
    BitSet(t, 0, k);
    BitOfTruncate(ShiftLeft(w, shift), WINDOW, k);
    BitOfShiftLeft(w, shift, k);
  }

  /** What the bitmap word and the maximum say about the accepted records: bit s stands for
      the record s below the maximum. */
  ghost predicate Tracks(w: nat, top: nat, accepted: set<nat>)
  {
    && w <= Ones(WINDOW)
    && (forall a :: a in accepted ==> a <= top)
    && (if accepted == {} then top == 0 else top in accepted)
    && forall s: nat :: s < WINDOW ==> (Bit(w, s) <==> s <= top && top - s in accepted)
  }

  lemma TrackNewer(w: nat, top: nat, accepted: set<nat>, n: nat)
    requires Tracks(w, top, accepted) && n > top
    ensures Tracks(if n - top < WINDOW then ShiftIn(w, n - top) else 1, n, accepted + {n})
  {
    var w' := if n - top < WINDOW then ShiftIn(w, n - top) else 1;
    assert 1 <= Ones(1);
    OnesGrow(1, WINDOW);
    forall s: nat | s < WINDOW
      ensures Bit(w', s) <==> s <= n && n - s in accepted + {n}
    {
      NewerBit(w, top, accepted, n, s);
    }
  }

  lemma NewerBit(w: nat, top: nat, accepted: set<nat>, n: nat, s: nat)
    requires w <= Ones(WINDOW) && s < WINDOW && n > top
    requires forall a :: a in accepted ==> a <= top
    requires s >= n - top ==> (Bit(w, s - (n - top)) <==> s <= n && n - s in accepted)
    ensures Bit(if n - top < WINDOW then ShiftIn(w, n - top) else 1, s) <==> s <= n && n - s in accepted + {n}
  {
    hide ShiftIn;
    hide Bit;
    hide Ones;
    if n - top < WINDOW {
      BitOfShiftIn(w, n - top, s);
    } else {
      BitOfOne(s);
    }
  }

  lemma TrackOlder(w: nat, top: nat, accepted: set<nat>, n: nat)
    requires Tracks(w, top, accepted) && n <= top
    ensures Tracks(if top - n < WINDOW then BitOr(w, ShiftLeft(1, top - n)) else w, top, accepted + {n})
  {
    hide Ones;
    hide BitOr;
    var shift := top - n;
    if shift < WINDOW {
      var w' := BitOr(w, ShiftLeft(1, shift));
      ShiftOneBound(shift, WINDOW);
      OrBound(w, ShiftLeft(1, shift), WINDOW);
      forall s: nat | s < WINDOW
        ensures Bit(w', s) <==> s <= top && top - s in accepted + {n}
      {
        BitSet(w, shift, s);
      }
    }
  }

  lemma WantedIs(w: nat, top: nat, accepted: set<nat>, n: nat)
    requires Tracks(w, top, accepted)
    ensures Wanted(accepted, n) <==> n > top || (top - n < WINDOW && !Bit(w, top - n))
  {
    if n <= top && top - n < WINDOW {
      assert Bit(w, top - n) <==> n in accepted;
    }
  }

  class Bitmap {
    var received: nat
    var maxSeqNum: seq<byte>

    /** The all-zero bitmap of a new epoch. */
    constructor ()
      ensures Valid() && Represents({})
    {
      received := 0;
      maxSeqNum := [0, 0, 0, 0, 0, 0, 0, 0];
      new;
      assert maxSeqNum == seq(8, _ => 0);
      ZeroValue(8);
      forall k: nat ensures !Bit(0, k) {
        BitOfZero(k);
      }
    }

    ghost predicate Valid()
      reads this
    {
      IsRecordNumber(maxSeqNum)
    }

    ghost predicate Represents(accepted: set<nat>)
      reads this
    {
      Tracks(received, Value(maxSeqNum), accepted)
    }

    /** `dtls1_record_replay_check`: exact. */
    method ReplayCheck(seqNum: seq<byte>, ghost accepted: set<nat>) returns (ok: bool)
      requires Valid() && Represents(accepted) && IsRecordNumber(seqNum)
      ensures ok <==> Wanted(accepted, Value(seqNum))
    {
      RecordNumberBound(seqNum);
      RecordNumberBound(maxSeqNum);
      hide Value;
      WantedIs(received, Value(maxSeqNum), accepted, Value(seqNum));
      var cmp := SatSub64be(seqNum, maxSeqNum);
      if cmp > 0 {
        return true;
      }
      var shift: nat := -cmp;
      if shift >= WINDOW {
        return false;
      }
      BitTest(received, shift, WINDOW);
      return BitAnd(received, ShiftLeft(1, shift)) == 0;
    }

    /** `dtls1_record_bitmap_update`: adds one record to the accepted set. */
    method BitmapUpdate(seqNum: seq<byte>, ghost accepted: set<nat>)
      requires Valid() && Represents(accepted) && IsRecordNumber(seqNum)
      modifies this
      ensures Valid() && Represents(accepted + {Value(seqNum)})
    {
      RecordNumberBound(seqNum);
      RecordNumberBound(maxSeqNum);
      var cmp := SatSub64be(seqNum, maxSeqNum);
      if cmp > 0 {
        TrackNewer(received, Value(maxSeqNum), accepted, Value(seqNum));
        var shift: nat := cmp;
        if shift < WINDOW {
          received := ShiftIn(received, shift);
        } else {
          received := 1;
        }
        maxSeqNum := seqNum;
      } else {
        TrackOlder(received, Value(maxSeqNum), accepted, Value(seqNum));
        var shift: nat := -cmp;
        if shift < WINDOW {
          received := BitOr(received, ShiftLeft(1, shift));
        }
      }
    }
  }

  lemma {:induction false} ZeroValue(n: nat)
    ensures Value(seq(n, _ => 0)) == 0
  {
    if n > 0 {
      assert seq(n, _ => 0)[..n - 1] == seq(n - 1, _ => 0);
      ZeroValue(n - 1);
    }
  }

  // ---------- runs within one epoch ----------

  /** A record that arrives: its number, and whether it will authenticate. Only records that
      pass the check are authenticated, and only those that authenticate update the bitmap. */
  datatype Arrival = Arrival(seqNum: seq<byte>, authentic: bool)

  /** The records accepted among the first k arrivals. */
  ghost function AcceptedAmong(arrivals: seq<Arrival>, k: nat): set<nat>
    requires k <= |arrivals|
    decreases k, 0
  {
    if k == 0 then {}
    else
      var before := AcceptedAmong(arrivals, k - 1);
      if IsAccepted(arrivals, k - 1) then before + {Value(arrivals[k - 1].seqNum)} else before
  }

  ghost predicate IsAccepted(arrivals: seq<Arrival>, k: nat)
    requires k < |arrivals|
    decreases k, 1
  {
    arrivals[k].authentic && Wanted(AcceptedAmong(arrivals, k), Value(arrivals[k].seqNum))
  }

  /** Check then update, over any run of one epoch. */
  method Receive(arrivals: seq<Arrival>) returns (verdicts: seq<bool>)
    requires forall k :: 0 <= k < |arrivals| ==> IsRecordNumber(arrivals[k].seqNum)
    ensures |verdicts| == |arrivals|
    ensures forall k :: 0 <= k < |arrivals| ==> (verdicts[k] <==> IsAccepted(arrivals, k))
  {
    var bitmap := new Bitmap();
    verdicts := [];
    for k := 0 to |arrivals|
      invariant bitmap.Valid() && fresh(bitmap) && bitmap.Represents(AcceptedAmong(arrivals, k))
      invariant |verdicts| == k
      invariant forall j :: 0 <= j < k ==> (verdicts[j] <==> IsAccepted(arrivals, j))
    {
      hide Value;
      hide Tracks;
      hide Wanted;
      hide IsRecordNumber;
      ghost var accepted := AcceptedAmong(arrivals, k);
      var ok := bitmap.ReplayCheck(arrivals[k].seqNum, accepted);
      if ok && arrivals[k].authentic {
        bitmap.BitmapUpdate(arrivals[k].seqNum, accepted);
      }
      verdicts := verdicts + [ok && arrivals[k].authentic];
    }
  }

  /** No record number is accepted twice. */
  lemma {:induction false} AcceptedOnce(arrivals: seq<Arrival>, i: nat, j: nat)
    requires i < j < |arrivals| && IsAccepted(arrivals, i) && IsAccepted(arrivals, j)
    ensures Value(arrivals[i].seqNum) != Value(arrivals[j].seqNum)
  {
    AcceptedStays(arrivals, i, j);
  }

  lemma {:induction false} AcceptedStays(arrivals: seq<Arrival>, i: nat, j: nat)
    requires i < j < |arrivals| && IsAccepted(arrivals, i)
    ensures Value(arrivals[i].seqNum) in AcceptedAmong(arrivals, j)
  {
    if i + 1 < j {
      AcceptedStays(arrivals, i, j - 1);
    }
  }
}
