/** Sequences of bytes: repetition, and the numbers that big-endian bytes stand for. */
module Bytes {
  import opened Bits

  /** `n` copies of `x`. */
  function Repeat<T>(x: T, n: nat): (s: seq<T>)
    ensures |s| == n
  {
    seq(n, _ => x)
  }

  function Zeros(n: nat): (s: seq<byte>)
    ensures |s| == n
  {
    seq(n, _ => 0)
  }

  /** A big-endian number. */
  function Value(s: seq<byte>): nat
  {
    if s == [] then 0 else 256 * Value(s[..|s| - 1]) + s[|s| - 1]
  }

  function Power256(k: nat): (p: nat)
    ensures p > 0
  {
    if k == 0 then 1 else 256 * Power256(k - 1)
  }

  lemma Widths()
    ensures Power256(6) == 0x1_0000_0000_0000 && Power256(8) == 0x1_0000_0000_0000_0000
  {
    assert Power256(2) == 0x1_0000;
    assert Power256(4) == 0x1_0000_0000;
  }

  lemma {:induction false} ValueBound(s: seq<byte>)
    ensures Value(s) < Power256(|s|)
  {
    if s != [] {
      ValueBound(s[..|s| - 1]);
    }
  }

  lemma {:induction false} ValueConcat(s: seq<byte>, t: seq<byte>)
    ensures Value(s + t) == Value(s) * Power256(|t|) + Value(t)
  {
    if t == [] {
      assert s + t == s;
    } else {
      var t0, b := t[..|t| - 1], t[|t| - 1];
      ValueConcat(s, t0);
      assert (s + t)[..|s + t| - 1] == s + t0;
      ValueStep(Value(s), Power256(|t0|), Value(t0), b);
    }
  }

  lemma ValueStep(x: nat, p: nat, y: nat, b: byte)
    ensures 256 * (x * p + y) + b == x * (256 * p) + (256 * y + b)
  {
  }

  lemma ValueSuffix(v: seq<byte>, i: nat)
    requires i < |v|
    ensures Value(v[i..]) == v[i] * Power256(|v| - i - 1) + Value(v[i + 1..])
  {
    assert v[i..] == [v[i]] + v[i + 1..];
    ValueConcat([v[i]], v[i + 1..]);
    assert [v[i]][..0] == [];
  }
}
