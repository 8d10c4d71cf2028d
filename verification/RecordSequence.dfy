/**
 The eight-byte record sequence number, counted up in place (ssl/s3_enc.c,
 `ssl3_record_sequence_update`).
 */
module RecordSequence {
  import opened Bits
  import opened Bytes
  import Arith

  /** Counting up by carries from the last byte */
  function Incremented(s: seq<byte>): (t: seq<byte>)
    ensures |t| == |s|
  {
    if s == [] then []
    else if s[|s| - 1] == 255 then Incremented(s[..|s| - 1]) + [0]
    else s[..|s| - 1] + [s[|s| - 1] + 1]
  }

  /** The number goes up by one, and wraps at the end. */
  lemma {:induction false} IncrementedCounts(s: seq<byte>)
    ensures Value(Incremented(s)) == if Value(s) + 1 == Power256(|s|) then 0 else Value(s) + 1
  {
    ValueBound(s);
    if s != [] {
      var init, last := s[..|s| - 1], s[|s| - 1];
      ValueBound(init);
      IncrementedCounts(init);
      if last == 255 {
        assert (Incremented(init) + [0])[..|init|] == Incremented(init);
      } else {
        assert (init + [last + 1])[..|init|] == init;
      }
    }
  }

  /** `ssl3_record_sequence_update` */
  method UpdateSequence(a: array<byte>)
    requires a.Length == 8
    modifies a
    ensures a[..] == Incremented(old(a[..]))
    ensures Value(a[..]) == if Value(old(a[..])) + 1 == 0x1_0000_0000_0000_0000 then 0 else Value(old(a[..])) + 1
  {
    ghost var s := a[..];
    IncrementedCounts(s);
    Widths();
    var i := 7;
    assert s[..8] == s;
    while i >= 0
      invariant -1 <= i <= 7
      invariant a[..i + 1] == s[..i + 1]
      invariant forall k :: i < k < 8 ==> a[k] == 0
      invariant Incremented(s) == Incremented(s[..i + 1]) + Zeros(7 - i)
      decreases i + 1
    {
      ghost var p := s[..i + 1];
      assert p[..i] == s[..i] && p[i] == s[i] == a[i];
      a[i] := if a[i] == 255 then 0 else a[i] + 1;
      if a[i] != 0 {
        assert Incremented(p) == s[..i] + [s[i] + 1];
        assert a[..] == Incremented(s);
        return;
      }
      assert Incremented(p) == Incremented(s[..i]) + [0];
      assert [0] + Zeros(7 - i) == Zeros(8 - i);
      assert a[..i] == s[..i];
      i := i - 1;
    }
    assert a[..] == Zeros(8);
  }

  /** The six bytes that a DTLS header carries are the number's lower 48 bits. */
  lemma WireBytes(s: seq<byte>)
    requires |s| == 8
    ensures Value(s[2..]) == Value(s) % 0x1_0000_0000_0000
  {
    assert s == s[..2] + s[2..];
    ValueConcat(s[..2], s[2..]);
    ValueBound(s[2..]);
    Widths();
    Arith.DivUnique(Value(s), 0x1_0000_0000_0000, Value(s[..2]), Value(s[2..]));
  }
}
