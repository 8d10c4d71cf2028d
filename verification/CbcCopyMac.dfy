/**
 `ssl3_cbc_copy_mac`: the MAC is read out of a record whose true length is secret by a scan
 over a public window into a rotated buffer, which is then un-rotated.
 */
module CbcCopyMac {
  import opened Bits
  import opened ConstantTime
  import Arith

  /** EVP_MAX_MD_SIZE */
  const MAX_MD_SIZE: nat := 64

  /** The constant added before the modulo: md_size >> 1, shifted to the top byte. It is
      meant to be a multiple of md_size. */
  function DivSpoiler(mdSize: nat): nat
  {
    (mdSize / 2) * 0x100_0000
  }

  /** The running index of both loops after k steps: it counts up and drops to 0 at m. */
  function Cycle(k: nat, m: nat): (r: nat)
    requires m > 0
    ensures r < m
  {
    if k == 0 then 0
    else if Cycle(k - 1, m) + 1 < m then Cycle(k - 1, m) + 1 else 0
  }

  lemma {:induction false} CycleIsMod(k: nat, m: nat)
    requires m > 0
    ensures Cycle(k, m) == k % m
  {
    if k == 0 {
      Arith.ModOfMultiple(0, m);
    } else {
      CycleIsMod(k - 1, m);
      Arith.ModSucc(k - 1, m);
    }
  }

  lemma CycleInjective(x: nat, y: nat, m: nat)
    requires m > 0 && x < y + m && y < x + m && Cycle(x, m) == Cycle(y, m)
    ensures x == y
  {
    CycleIsMod(x, m);
    CycleIsMod(y, m);
    Arith.ModInjective(x, y, m);
  }

  /** `s` read cyclically from position `k`. */
  function Rotate(s: seq<byte>, k: nat): (r: seq<byte>)
    requires |s| > 0
    ensures |r| == |s|
  {
    seq(|s|, t requires 0 <= t < |s| => s[Cycle(k + t, |s|)])
  }

  /** The slot of the rotated buffer that byte i of the record falls into. */
  function Slot(i: nat, scanStart: nat, mdSize: nat): (r: nat)
    requires mdSize > 0 && scanStart <= i
    ensures r < mdSize
  {
    Cycle(i - scanStart, mdSize)
  }

  /** What the scan has accumulated once it has passed position i: every byte of the MAC at a
      position below i is in its slot, and the slots of the other MAC bytes are still zero. */
  ghost predicate Scanned(rotated: seq<byte>, data: seq<byte>, macStart: nat, macEnd: nat, scanStart: nat, i: nat)
    requires scanStart <= macStart < macEnd <= |data| && |rotated| == macEnd - macStart
  {
    forall x :: macStart <= x < macEnd ==>
      rotated[Slot(x, scanStart, |rotated|)] == if x < i then data[x] else 0
  }

  /** `rotated_mac[j++] |= b & mac_started & ~mac_ended` */
  function Accumulate(old_: byte, b: byte, started: byte, ended: byte): (r: byte)
    requires IsByteMask(started) && IsByteMask(ended)
    ensures started == 0 || ended == 0xff ==> r == old_
    ensures started == 0xff && ended == 0 && old_ == 0 ==> r == b
  {
    OnesValues();
    OrWithZero(old_);
    OrWithZero(b);
    var masked := Mask8(Mask8(b, started), 255 - ended);
    OrBound(old_, masked, 8);
    BitOr(old_, masked)
  }

  lemma NothingScanned(rotated: seq<byte>, data: seq<byte>, macStart: nat, macEnd: nat, scanStart: nat)
    requires scanStart <= macStart < macEnd <= |data| && |rotated| == macEnd - macStart
    requires forall t :: 0 <= t < |rotated| ==> rotated[t] == 0
    ensures Scanned(rotated, data, macStart, macEnd, scanStart, scanStart)
  {
    forall x | macStart <= x < macEnd
      ensures rotated[Slot(x, scanStart, |rotated|)] == 0
    {
      var t := Slot(x, scanStart, |rotated|);
      assert 0 <= t < |rotated|;
    }
  }

  /** One step of the scan. */
  lemma ScanStep(rotated: seq<byte>, data: seq<byte>, macStart: nat, macEnd: nat, scanStart: nat, i: nat, after: seq<byte>)
    requires scanStart <= macStart < macEnd <= |data| && |rotated| == macEnd - macStart
    requires scanStart <= i < |data|
    requires Scanned(rotated, data, macStart, macEnd, scanStart, i)
    requires var j := Slot(i, scanStart, |rotated|);
      after == rotated[j := if macStart <= i < macEnd then data[i] else rotated[j]]
    ensures Scanned(after, data, macStart, macEnd, scanStart, i + 1)
  {
    var md := |after|;
    forall x | macStart <= x < macEnd
      ensures after[Slot(x, scanStart, md)] == if x < i + 1 then data[x] else 0
    {
      var t := Slot(x, scanStart, md);
      assert rotated[t] == if x < i then data[x] else 0;
      if macStart <= i < macEnd && x != i && t == Slot(i, scanStart, md) {
        CycleInjective(x - scanStart, i - scanStart, md);
      }
    }
  }

  lemma CycleAdd(x: nat, y: nat, m: nat)
    requires m > 0
    ensures Cycle(Cycle(x, m) + y, m) == Cycle(x + y, m)
  {
    CycleIsMod(x, m);
    CycleIsMod(x % m + y, m);
    CycleIsMod(x + y, m);
    Arith.ModAdd(x, y, m);
  }

  /** The un-rotation reads MAC byte (spoiler + t) mod md_size into position t. */
  lemma Unrotate(rotated: seq<byte>, data: seq<byte>, macStart: nat, macEnd: nat, scanStart: nat, spoiler: nat, t: nat)
    requires scanStart <= macStart < macEnd <= |data| && |rotated| == macEnd - macStart
    requires Scanned(rotated, data, macStart, macEnd, scanStart, |data|) && t < |rotated|
    ensures rotated[Cycle(spoiler + macStart - scanStart + t, |rotated|)]
            == Rotate(data[macStart..macEnd], spoiler)[t]
  {
    var md := |rotated|;
    var x := macStart + Cycle(spoiler + t, md);
    CycleAdd(spoiler + t, macStart - scanStart, md);
    assert Slot(x, scanStart, md) == Cycle(spoiler + macStart - scanStart + t, md);
  }

  /** Copies the MAC of the record to `out`. `data` is the record's original extent; `length`
      is its length after padding removal. */
  method Ssl3CbcCopyMac(out: array<byte>, data: seq<byte>, length: nat, mdSize: nat)
    requires 0 < mdSize <= MAX_MD_SIZE && out.Length >= mdSize
    requires mdSize <= length <= |data| <= length + 256 && |data| < 0x10_0000
    modifies out
    ensures out[..mdSize] == Rotate(data[length - mdSize..length], DivSpoiler(mdSize))
    ensures out[mdSize..] == old(out[mdSize..])
  {
    var origLen := |data|;
    var macEnd := length;
    var macStart := macEnd - mdSize;
    var scanStart := 0;
    if origLen > mdSize + 255 + 1 {
      scanStart := origLen - (mdSize + 255 + 1);
    }
    var divSpoiler := mdSize / 2;
    divSpoiler := divSpoiler * 0x100_0000;
    var rotateOffset := (divSpoiler + macStart - scanStart) % mdSize;
    CycleIsMod(divSpoiler + macStart - scanStart, mdSize);
    var rotatedMac := Scan(data, macStart, macEnd, scanStart);
    CopyRotated(out, rotatedMac[..], data, macStart, macEnd, scanStart, rotateOffset);
  }

  /** The scan over the public window [scanStart, orig_len). */
  method Scan(data: seq<byte>, macStart: nat, macEnd: nat, scanStart: nat) returns (rotatedMac: array<byte>)
    requires scanStart <= macStart < macEnd <= |data| < 0x10_0000
    ensures fresh(rotatedMac) && rotatedMac.Length == macEnd - macStart
    ensures Scanned(rotatedMac[..], data, macStart, macEnd, scanStart, |data|)
  {
    var mdSize := macEnd - macStart;
    rotatedMac := new byte[mdSize](_ => 0);
    NothingScanned(rotatedMac[..], data, macStart, macEnd, scanStart);
    var i, j := scanStart, 0;
    while i < |data|
      invariant scanStart <= i <= |data|
      invariant j == Slot(i, scanStart, mdSize)
      invariant Scanned(rotatedMac[..], data, macStart, macEnd, scanStart, i)
    {
      ghost var before := rotatedMac[..];
      SlotStillEmpty(before, data, macStart, macEnd, scanStart, i);
      var macStarted := GeByte(i, macStart);
      var macEnded := GeByte(i, macEnd);
      var b := data[i];
      rotatedMac[j] := Accumulate(rotatedMac[j], b, macStarted, macEnded);
      j := j + 1;
      assert rotatedMac[..] == before[j - 1 := if macStart <= i < macEnd then b else before[j - 1]];
      ScanStep(before, data, macStart, macEnd, scanStart, i, rotatedMac[..]);
      j := Mask(j, ConstantTimeLt(j, mdSize));
      i := i + 1;
    }
  }

  lemma SlotStillEmpty(rotated: seq<byte>, data: seq<byte>, macStart: nat, macEnd: nat, scanStart: nat, i: nat)
    requires scanStart <= macStart < macEnd <= |data| && |rotated| == macEnd - macStart && scanStart <= i
    requires Scanned(rotated, data, macStart, macEnd, scanStart, i)
    ensures macStart <= i < macEnd ==> rotated[Slot(i, scanStart, |rotated|)] == 0
  {
  }

  /** The rotation in place. */
  method CopyRotated(out: array<byte>, rotatedMac: seq<byte>, ghost data: seq<byte>, ghost macStart: nat,
                     ghost macEnd: nat, ghost scanStart: nat, offset: nat)
    requires scanStart <= macStart < macEnd <= |data| && |rotatedMac| == macEnd - macStart <= MAX_MD_SIZE
    requires Scanned(rotatedMac, data, macStart, macEnd, scanStart, |data|)
    requires out.Length >= |rotatedMac|
    requires offset == Cycle(DivSpoiler(|rotatedMac|) + macStart - scanStart, |rotatedMac|)
    modifies out
    ensures out[..|rotatedMac|] == Rotate(data[macStart..macEnd], DivSpoiler(|rotatedMac|))
    ensures out[|rotatedMac|..] == old(out[|rotatedMac|..])
  {
    var mdSize := |rotatedMac|;
    ghost var expected := Rotate(data[macStart..macEnd], DivSpoiler(mdSize));
    ghost var base := DivSpoiler(mdSize) + macStart - scanStart;
    var rotateOffset := offset;
    var i, j := 0, 0;
    while i < mdSize
      invariant 0 <= i == j <= mdSize
      invariant rotateOffset == Cycle(base + i, mdSize)
      invariant out[..i] == expected[..i]
      invariant out[mdSize..] == old(out[mdSize..])
    {
      Unrotate(rotatedMac, data, macStart, macEnd, scanStart, DivSpoiler(mdSize), i);
      out[j] := rotatedMac[rotateOffset];
      j := j + 1;
      rotateOffset := rotateOffset + 1;
      rotateOffset := Mask(rotateOffset, ConstantTimeLt(rotateOffset, mdSize));
      i := i + 1;
    }
  }

  // ---------- main result ----------

  /** For every even digest size the spoiler cancels: the bytes copied are the MAC itself. */
  lemma EvenSizesCancel(mac: seq<byte>)
    requires |mac| > 0 && |mac| % 2 == 0
    ensures Rotate(mac, DivSpoiler(|mac|)) == mac
  {
    var md := |mac|;
    assert DivSpoiler(md) == 0x80_0000 * md;
    forall t | 0 <= t < md ensures Rotate(mac, DivSpoiler(md))[t] == mac[t] {
      CycleIsMod(DivSpoiler(md) + t, md);
      Arith.DivUnique(DivSpoiler(md) + t, md, 0x80_0000, t);
    }
  }

  /** An odd number that divides 2^k * x divides x. */
  lemma {:induction false} OddDividesPastTwos(m: nat, x: nat, q: nat, k: nat)
    requires m % 2 == 1 && q * m == Power2(k) * x
    ensures exists q' :: q' * m == x
  {
    if k == 0 {
      assert q * m == x;
    } else {
      var half := Power2(k - 1) * x;
      assert Power2(k) * x == 2 * half;
      ProductParity(q, m);
      assert q % 2 == 0;
      assert q / 2 * m == half by {
        assert q == 2 * (q / 2);
        assert q * m == 2 * (q / 2 * m);
      }
      OddDividesPastTwos(m, x, q / 2, k - 1);
    }
  }

  function Power2(k: nat): nat
  {
    if k == 0 then 1 else 2 * Power2(k - 1)
  }

  lemma ProductParity(q: nat, m: nat)
    requires m % 2 == 1
    ensures (q * m) % 2 == q % 2
  {
    var h := m / 2;
    assert q * m == 2 * (q * h) + q;
  }

  /** For an odd digest size above 1 the constant is not a multiple of it. */
  lemma OddSizesDoNot(md: nat)
    requires md % 2 == 1 && 1 < md
    ensures DivSpoiler(md) % md != 0
  {
    if DivSpoiler(md) % md == 0 {
      var q := DivSpoiler(md) / md;
      var p := Power2(23);
      assert Power2(8) == 256 && Power2(16) == 65536 && p == 0x80_0000;
      assert DivSpoiler(md) == p * (md - 1);
      assert q * md == p * md - p;
      assert (p - q) * md == p * 1 by {
        assert (p - q) * md == p * md - q * md;
      }
      assert p - q > 0 by {
        if p - q <= 0 {
          Arith.MulMono(0, q - p, md);
        }
      }
      OddDividesPastTwos(md, 1, p - q, 23);
      var q' :| q' * md == 1;
      Arith.SmallMultipleIsZero(q', md, 1);
    }
  }

  /** The function copies the MAC of every record exactly when md_size is even (or 1). */
  lemma CopyMacIsExact(md: nat)
    requires 0 < md <= MAX_MD_SIZE
    ensures (forall mac: seq<byte> :: |mac| == md ==> Rotate(mac, DivSpoiler(md)) == mac) <==> md % 2 == 0 || md == 1
  {
    if md % 2 == 0 {
      forall mac: seq<byte> | |mac| == md ensures Rotate(mac, DivSpoiler(md)) == mac {
        EvenSizesCancel(mac);
      }
    } else if md == 1 {
      forall mac: seq<byte> | |mac| == md ensures Rotate(mac, DivSpoiler(md)) == mac {
        var t := Cycle(DivSpoiler(md) + 0, |mac|);
        assert t == 0 && Rotate(mac, DivSpoiler(md))[0] == mac[t];
      }
    } else {
      var mac: seq<byte> := seq(md, t requires 0 <= t < md => t);
      OddSizesDoNot(md);
      CycleIsMod(DivSpoiler(md), md);
      assert Rotate(mac, DivSpoiler(md))[0] != mac[0];
    }
  }
}
