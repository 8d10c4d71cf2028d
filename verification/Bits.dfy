/**
 Bytes, and C's bitwise operators on unsigned numbers, defined on the binary expansion
 of natural numbers. `Bit(a, k)` is bit k of a, counted from the least significant.
 */
module Bits {

  type byte = x: int | 0 <= x < 256

  predicate Bit(a: nat, k: nat)
  {
    if k == 0 then a % 2 == 1 else Bit(a / 2, k - 1)
  }

  function BitAnd(a: nat, b: nat): nat
  {
    if a == 0 || b == 0 then 0 else 2 * BitAnd(a / 2, b / 2) + (a % 2) * (b % 2)
  }

  function BitOr(a: nat, b: nat): nat
  {
    if a == 0 && b == 0 then 0
    else 2 * BitOr(a / 2, b / 2) + (if a % 2 == 0 && b % 2 == 0 then 0 else 1)
  }

  function BitXor(a: nat, b: nat): nat
  {
    if a == 0 && b == 0 then 0
    else 2 * BitXor(a / 2, b / 2) + (if a % 2 == b % 2 then 0 else 1)
  }

  /** The number whose low `k` bits are ones. */
  function Ones(k: nat): nat
  {
    if k == 0 then 0 else 2 * Ones(k - 1) + 1
  }

  function ShiftRight(a: nat, k: nat): nat
  {
    if k == 0 then a else ShiftRight(a / 2, k - 1)
  }

  function ShiftLeft(a: nat, k: nat): nat
  {
    if k == 0 then a else 2 * ShiftLeft(a, k - 1)
  }

  /** a modulo 2^n: what is left of it in an n-bit word. */
  function Truncate(a: nat, n: nat): nat
  {
    if n == 0 then 0 else 2 * Truncate(a / 2, n - 1) + a % 2
  }

  lemma {:induction false} OnesValues()
    ensures Ones(8) == 0xff && Ones(31) == 0x7fff_ffff && Ones(32) == 0xffff_ffff
  {
    assert Ones(4) == 0xf;
    assert Ones(8) == 0xff;
    assert Ones(12) == 0xfff;
    assert Ones(16) == 0xffff;
    assert Ones(20) == 0xf_ffff;
    assert Ones(24) == 0xff_ffff;
    assert Ones(28) == 0xfff_ffff;
    assert Ones(31) == 0x7fff_ffff;
  }

  // ---------- what each operator does to each bit ----------

  lemma {:induction false} BitOfZero(k: nat)
    ensures !Bit(0, k)
  {
    if k > 0 {
      BitOfZero(k - 1);
    }
  }

  lemma {:induction false} BitOfAnd(a: nat, b: nat, k: nat)
    ensures Bit(BitAnd(a, b), k) <==> Bit(a, k) && Bit(b, k)
  {
    if a == 0 || b == 0 {
      BitOfZero(k);
    } else if k > 0 {
      assert BitAnd(a, b) / 2 == BitAnd(a / 2, b / 2);
      BitOfAnd(a / 2, b / 2, k - 1);
    }
  }

  lemma OrHalves(a: nat, b: nat)
    ensures BitOr(a, b) / 2 == BitOr(a / 2, b / 2)
    ensures BitOr(a, b) % 2 == if a % 2 == 0 && b % 2 == 0 then 0 else 1
  {
  }

  lemma {:induction false} BitOfOr(a: nat, b: nat, k: nat)
    ensures Bit(BitOr(a, b), k) <==> Bit(a, k) || Bit(b, k)
  {
    if a == 0 && b == 0 {
      BitOfZero(k);
    } else if k > 0 {
      BitOfOr(a / 2, b / 2, k - 1);
      OrHalves(a, b);
    } else {
      OrHalves(a, b);
    }
  }

  lemma {:induction false} BitOfNot(a: nat, n: nat, k: nat)
    requires a <= Ones(n) && k < n
    ensures Bit(Ones(n) - a, k) <==> !Bit(a, k)
  {
    assert Ones(n) == 2 * Ones(n - 1) + 1;
    if k > 0 {
      assert (Ones(n) - a) / 2 == Ones(n - 1) - a / 2;
      BitOfNot(a / 2, n - 1, k - 1);
    }
  }

  lemma {:induction false} BitOfOnes(n: nat, k: nat)
    ensures Bit(Ones(n), k) <==> k < n
  {
    if n == 0 {
      BitOfZero(k);
    } else if k > 0 {
      BitOfOnes(n - 1, k - 1);
    }
  }

  lemma {:induction false} BitOfShiftRight(a: nat, j: nat, k: nat)
    ensures Bit(ShiftRight(a, j), k) <==> Bit(a, k + j)
  {
    if j > 0 {
      BitOfShiftRight(a / 2, j - 1, k);
    }
  }

  lemma {:induction false} BitOfShiftLeft(a: nat, j: nat, k: nat)
    ensures Bit(ShiftLeft(a, j), k) <==> k >= j && Bit(a, k - j)
  {
    if j > 0 {
      assert ShiftLeft(a, j) % 2 == 0 && ShiftLeft(a, j) / 2 == ShiftLeft(a, j - 1);
      if k > 0 {
        BitOfShiftLeft(a, j - 1, k - 1);
      }
    }
  }

  lemma {:induction false} TruncateBound(a: nat, n: nat)
    ensures Truncate(a, n) <= Ones(n)
  {
    if n > 0 {
      TruncateBound(a / 2, n - 1);
    }
  }

  lemma {:induction false} BitOfTruncate(a: nat, n: nat, k: nat)
    ensures Bit(Truncate(a, n), k) <==> k < n && Bit(a, k)
  {
    if n == 0 {
      BitOfZero(k);
    } else {
      var t := Truncate(a / 2, n - 1);
      assert Truncate(a, n) / 2 == t && Truncate(a, n) % 2 == a % 2;
      if k > 0 {
        BitOfTruncate(a / 2, n - 1, k - 1);
      }
    }
  }

  lemma {:induction false} BitOfOne(k: nat)
    ensures Bit(1, k) <==> k == 0
  {
    if k > 0 {
      BitOfZero(k - 1);
    }
  }

  /** `a & (1 << s)` tests bit s, and `a | (1 << s)` sets it. */
  lemma BitTest(a: nat, s: nat, n: nat)
    requires a <= Ones(n) && s < n
    ensures BitAnd(a, ShiftLeft(1, s)) != 0 <==> Bit(a, s)
  {
    var m := ShiftLeft(1, s);
    AndBound(a, m);
    forall k | 0 <= k < n ensures Bit(BitAnd(a, m), k) <==> Bit(a, k) && k == s {
      BitOfAnd(a, m, k);
      BitOfShiftLeft(1, s, k);
      if k >= s {
        BitOfOne(k - s);
      }
    }
    BitOfZero(s);
    if !Bit(a, s) {
      forall k | 0 <= k < n ensures Bit(BitAnd(a, m), k) <==> Bit(0, k) {
        BitOfZero(k);
      }
      EqualBits(BitAnd(a, m), 0, n);
    }
  }

  lemma BitSet(a: nat, s: nat, k: nat)
    ensures Bit(BitOr(a, ShiftLeft(1, s)), k) <==> k == s || Bit(a, k)
  {
    BitOfOr(a, ShiftLeft(1, s), k);
    BitOfShiftLeft(1, s, k);
    if k >= s {
      BitOfOne(k - s);
    }
  }

  lemma {:induction false} ShiftOneBound(s: nat, n: nat)
    requires s < n
    ensures ShiftLeft(1, s) <= Ones(n)
  {
    if s > 0 {
      ShiftOneBound(s - 1, n - 1);
    }
  }

  /** Numbers are their bits. */
  lemma {:induction false} EqualBits(a: nat, b: nat, n: nat)
    requires a <= Ones(n) && b <= Ones(n)
    requires forall k :: 0 <= k < n ==> (Bit(a, k) <==> Bit(b, k))
    ensures a == b
  {
    if n > 0 {
      assert Bit(a, 0) <==> Bit(b, 0);
      forall k | 0 <= k < n - 1 ensures Bit(a / 2, k) <==> Bit(b / 2, k) {
        assert Bit(a, k + 1) <==> Bit(b, k + 1);
      }
      EqualBits(a / 2, b / 2, n - 1);
    }
  }

  // ---------- whole-word facts ----------

  lemma {:induction false} AndWithOnes(a: nat, k: nat)
    requires a <= Ones(k)
    ensures BitAnd(a, Ones(k)) == a
  {
    if k != 0 {
      assert Ones(k) / 2 == Ones(k - 1) && Ones(k) % 2 == 1;
      AndWithOnes(a / 2, k - 1);
    }
  }

  lemma {:induction false} AndBound(a: nat, b: nat)
    ensures BitAnd(a, b) <= a && BitAnd(a, b) <= b
  {
    if a != 0 && b != 0 {
      AndBound(a / 2, b / 2);
    }
  }

  lemma {:induction false} OrBound(a: nat, b: nat, k: nat)
    requires a <= Ones(k) && b <= Ones(k)
    ensures BitOr(a, b) <= Ones(k)
  {
    if k != 0 {
      OrBound(a / 2, b / 2, k - 1);
    }
  }

  lemma {:induction false} OrWithZero(a: nat)
    ensures BitOr(a, 0) == a && BitOr(0, a) == a
  {
    if a != 0 {
      OrWithZero(a / 2);
    }
  }

  lemma {:induction false} XorBound(a: nat, b: nat, k: nat)
    requires a <= Ones(k) && b <= Ones(k)
    ensures BitXor(a, b) <= Ones(k)
  {
    if k != 0 {
      XorBound(a / 2, b / 2, k - 1);
    }
  }

  lemma {:induction false} XorZeroIffEqual(a: nat, b: nat)
    ensures BitXor(a, b) == 0 <==> a == b
  {
    if a != 0 || b != 0 {
      XorZeroIffEqual(a / 2, b / 2);
    }
  }

  /** An OR of a low part and a shifted value keeps the two apart. */
  lemma {:induction false} OrDisjoint(a: nat, b: nat, k: nat)
    requires a <= Ones(k)
    ensures BitOr(a, ShiftLeft(b, k)) == a + ShiftLeft(b, k)
  {
    if k == 0 {
      OrWithZero(b);
    } else {
      OrDisjoint(a / 2, b, k - 1);
      OrHalves(a, ShiftLeft(b, k));
    }
  }

  lemma ShiftLeftByte(b: nat)
    ensures ShiftLeft(b, 8) == 256 * b
  {
    assert ShiftLeft(b, 1) == 2 * b;
    assert ShiftLeft(b, 2) == 4 * b;
    assert ShiftLeft(b, 4) == 16 * b;
    assert ShiftLeft(b, 6) == 64 * b;
  }
}
