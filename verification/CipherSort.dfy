/**
 What `ssl_cipher_strength_sort` promises: a stable sort by strength, made of ORD rules
 (ssl/ssl_ciph.c).
 */
module CipherSort {
  import opened CipherRules

  /** The '+' rule that moves one strength to the end of the list. */
  function OrdRule(strength: nat): Rule
  {
    Rule(Ord, {}, {}, {}, {}, {}, {}, strength, false)
  }

  function NotYetOne(e: Entry, i: nat): seq<Entry>
  {
    if !e.active || e.cipher.strengthBits < i then [e] else []
  }

  function OfStrengthOne(e: Entry, i: nat): seq<Entry>
  {
    if e.active && e.cipher.strengthBits == i then [e.(inGroup := false)] else []
  }

  /** The active entries of one strength, in their order; ORD takes them out of their groups. */
  function OfStrength(s: seq<Entry>, strength: nat): seq<Entry>
  {
    if s == [] then []
    else OfStrength(s[..|s| - 1], strength) + OfStrengthOne(s[|s| - 1], strength)
  }

  /** The inactive entries, and the active ones below a strength, in their order. */
  function NotYet(s: seq<Entry>, strength: nat): seq<Entry>
  {
    if s == [] then []
    else NotYet(s[..|s| - 1], strength) + NotYetOne(s[|s| - 1], strength)
  }

  /** The active entries with strengths in low..high - 1, strongest first. */
  function Descending(s: seq<Entry>, high: nat, low: nat): seq<Entry>
    requires low <= high
    decreases high - low
  {
    if low == high then [] else Descending(s, high, low + 1) + OfStrength(s, low)
  }

  /** The inactive entries as they were, then the active ones by descending strength. */
  function Sorted(s: seq<Entry>, high: nat): seq<Entry>
  {
    NotYet(s, 0) + Descending(s, high, 0)
  }

  ghost predicate ActiveBelow(s: seq<Entry>, high: nat)
  {
    forall e :: e in s && e.active ==> e.cipher.strengthBits < high
  }

  // ---------- how the rules compose ----------

  lemma OrdOnOne(e: Entry, i: nat)
    ensures Kept(OrdRule(i), NotYetOne(e, i + 1)) == NotYetOne(e, i)
    ensures Moved(OrdRule(i), NotYetOne(e, i + 1)) == OfStrengthOne(e, i)
  {
    OnOne(OrdRule(i), e);
  }

  lemma {:induction false} OrdOnNotYet(s: seq<Entry>, i: nat)
    ensures Kept(OrdRule(i), NotYet(s, i + 1)) == NotYet(s, i)
    ensures Moved(OrdRule(i), NotYet(s, i + 1)) == OfStrength(s, i)
  {
    if s != [] {
      var e, s0 := s[|s| - 1], s[..|s| - 1];
      OrdOnNotYet(s0, i);
      OrdOnOne(e, i);
      assert NotYet(s, i + 1) == NotYet(s0, i + 1) + NotYetOne(e, i + 1);
      assert NotYet(s, i) == NotYet(s0, i) + NotYetOne(e, i);
      assert OfStrength(s, i) == OfStrength(s0, i) + OfStrengthOne(e, i);
      hide *;
      KeptConcat(OrdRule(i), NotYet(s0, i + 1), NotYetOne(e, i + 1));
      MovedConcat(OrdRule(i), NotYet(s0, i + 1), NotYetOne(e, i + 1));
    }
  }

  lemma {:induction false} OfStrengthMembers(s: seq<Entry>, i: nat)
    ensures forall e :: e in OfStrength(s, i) ==> e.active && !e.inGroup && e.cipher.strengthBits == i
  {
    if s != [] {
      OfStrengthMembers(s[..|s| - 1], i);
    }
  }

  lemma {:induction false} DescendingMembers(s: seq<Entry>, high: nat, low: nat)
    requires low <= high
    ensures forall e :: e in Descending(s, high, low) ==> e.active && !e.inGroup && low <= e.cipher.strengthBits < high
    decreases high - low
  {
    if low < high {
      DescendingMembers(s, high, low + 1);
      OfStrengthMembers(s, low);
    }
  }

  lemma OrdPassesSorted(s: seq<Entry>, high: nat, i: nat)
    requires i < high
    ensures forall e :: e in Descending(s, high, i + 1) ==> !Selected(OrdRule(i), e)
  {
    DescendingMembers(s, high, i + 1);
  }

  lemma OrdParts(s: seq<Entry>, high: nat, i: nat)
    requires i < high
    ensures Kept(OrdRule(i), NotYet(s, i + 1) + Descending(s, high, i + 1)) == NotYet(s, i) + Descending(s, high, i + 1)
    ensures Moved(OrdRule(i), NotYet(s, i + 1) + Descending(s, high, i + 1)) == OfStrength(s, i)
  {
    hide Kept;
    hide Moved;
    hide NotYet;
    hide Descending;
    hide OfStrength;
    hide Selected;
    var r, d := OrdRule(i), Descending(s, high, i + 1);
    OrdOnNotYet(s, i);
    OrdPassesSorted(s, high, i);
    NoneSelected(r, d);
    KeptConcat(r, NotYet(s, i + 1), d);
    MovedConcat(r, NotYet(s, i + 1), d);
  }

  /** One ORD rule puts the next strength behind those already sorted. */
  lemma OrdStep(s: seq<Entry>, high: nat, i: nat)
    requires i < high
    ensures Applied(OrdRule(i), NotYet(s, i + 1) + Descending(s, high, i + 1)) == NotYet(s, i) + Descending(s, high, i)
  {
    OrdParts(s, high, i);
    var r, before := OrdRule(i), NotYet(s, i + 1) + Descending(s, high, i + 1);
    assert Applied(r, before) == Kept(r, before) + Moved(r, before);
    assert Descending(s, high, i) == Descending(s, high, i + 1) + OfStrength(s, i);
    hide *;
    Associate(NotYet(s, i), Descending(s, high, i + 1), OfStrength(s, i));
  }

  lemma {:induction false} NotYetMembers(s: seq<Entry>, i: nat)
    ensures forall e :: e in NotYet(s, i) ==> e in s && (!e.active || e.cipher.strengthBits < i)
  {
    if s != [] {
      NotYetMembers(s[..|s| - 1], i);
    }
  }

  /** A strength nobody uses needs no rule. */
  lemma UnusedStrength(s: seq<Entry>, high: nat, i: nat)
    requires i < high && (forall e :: e in s && e.active ==> e.cipher.strengthBits != i)
    ensures NotYet(s, i + 1) + Descending(s, high, i + 1) == NotYet(s, i) + Descending(s, high, i)
  {
    OrdStep(s, high, i);
    NotYetMembers(s, i + 1);
    DescendingMembers(s, high, i + 1);
    NoneSelected(OrdRule(i), NotYet(s, i + 1) + Descending(s, high, i + 1));
  }

  lemma {:induction false} NothingSortedYet(s: seq<Entry>, high: nat)
    requires ActiveBelow(s, high)
    ensures NotYet(s, high) + Descending(s, high, high) == s
  {
    if s != [] {
      NothingSortedYet(s[..|s| - 1], high);
      assert s == s[..|s| - 1] + [s[|s| - 1]];
      assert s[|s| - 1] in s;
    }
  }

  // ---------- the result is a stable sort ----------

  ghost predicate DescendingStrength(s: seq<Entry>)
  {
    forall i, j :: 0 <= i < j < |s| ==> s[i].cipher.strengthBits >= s[j].cipher.strengthBits
  }

  lemma {:induction false} DescendingIsSorted(s: seq<Entry>, high: nat, low: nat)
    requires low <= high
    ensures DescendingStrength(Descending(s, high, low))
    decreases high - low
  {
    if low < high {
      var d, o := Descending(s, high, low + 1), OfStrength(s, low);
      DescendingIsSorted(s, high, low + 1);
      DescendingMembers(s, high, low + 1);
      OfStrengthMembers(s, low);
      assert forall i :: 0 <= i < |d| ==> d[i] in d;
      assert forall i :: 0 <= i < |o| ==> o[i] in o;
    }
  }

  lemma {:induction false} OfStrengthConcat(s: seq<Entry>, t: seq<Entry>, i: nat)
    ensures OfStrength(s + t, i) == OfStrength(s, i) + OfStrength(t, i)
  {
    hide OfStrengthOne;
    if t == [] {
      Units(s);
      Units(OfStrength(s, i));
    } else {
      var t0, e := t[..|t| - 1], t[|t| - 1];
      OfStrengthConcat(s, t0, i);
      assert (s + t)[..|s + t| - 1] == s + t0;
      assert OfStrength(s + t, i) == OfStrength(s + t0, i) + OfStrengthOne(e, i);
      hide *;
      Associate(OfStrength(s, i), OfStrength(t0, i), OfStrengthOne(e, i));
    }
  }

  lemma {:induction false} OfStrengthAll(s: seq<Entry>, i: nat)
    requires forall e :: e in s ==> e.active && !e.inGroup && e.cipher.strengthBits == i
    ensures OfStrength(s, i) == s
  {
    if s != [] {
      OfStrengthAll(s[..|s| - 1], i);
      assert s == s[..|s| - 1] + [s[|s| - 1]];
      assert s[|s| - 1] in s;
    }
  }

  lemma {:induction false} OfStrengthNone(s: seq<Entry>, i: nat)
    requires forall e :: e in s ==> !e.active || e.cipher.strengthBits != i
    ensures OfStrength(s, i) == []
  {
    if s != [] {
      OfStrengthNone(s[..|s| - 1], i);
      assert s[|s| - 1] in s;
    }
  }

  lemma OfStrengthAgain(s: seq<Entry>, low: nat, i: nat)
    ensures OfStrength(OfStrength(s, low), i) == if i == low then OfStrength(s, i) else []
  {
    OfStrengthMembers(s, low);
    if i == low {
      OfStrengthAll(OfStrength(s, low), i);
    } else {
      OfStrengthNone(OfStrength(s, low), i);
    }
  }

  lemma {:induction false} DescendingIsStable(s: seq<Entry>, high: nat, low: nat, i: nat)
    requires low <= high
    ensures OfStrength(Descending(s, high, low), i) == if low <= i < high then OfStrength(s, i) else []
    decreases high - low
  {
    hide OfStrength;
    if low == high {
      OfStrengthNone([], i);
    } else {
      var d, o := Descending(s, high, low + 1), OfStrength(s, low);
      DescendingIsStable(s, high, low + 1, i);
      OfStrengthConcat(d, o, i);
      OfStrengthAgain(s, low, i);
      assert Descending(s, high, low) == d + o;
      assert OfStrength(d, i) + [] == OfStrength(d, i) && [] + OfStrength(o, i) == OfStrength(o, i);
    }
  }

  function Inactive(s: seq<Entry>): seq<Entry>
  {
    if s == [] then []
    else Inactive(s[..|s| - 1]) + (if s[|s| - 1].active then [] else [s[|s| - 1]])
  }

  lemma {:induction false} NotYetZero(s: seq<Entry>)
    ensures NotYet(s, 0) == Inactive(s)
  {
    if s != [] {
      NotYetZero(s[..|s| - 1]);
    }
  }

  /** The inactive entries stay in front and as they are; the active ones follow by descending
      strength; and among those of one strength the order is the old one. */
  lemma SortedIsStableSort(s: seq<Entry>, high: nat)
    requires ActiveBelow(s, high)
    ensures Sorted(s, high) == Inactive(s) + Descending(s, high, 0)
    ensures DescendingStrength(Descending(s, high, 0))
    ensures forall e :: e in Descending(s, high, 0) ==> e.active && !e.inGroup
    ensures forall i: nat :: OfStrength(Sorted(s, high), i) == OfStrength(s, i)
  {
    NotYetZero(s);
    NotYetMembers(s, 0);
    DescendingIsSorted(s, high, 0);
    DescendingMembers(s, high, 0);
    hide OfStrength;
    forall i: nat ensures OfStrength(Sorted(s, high), i) == OfStrength(s, i) {
      OfStrengthConcat(NotYet(s, 0), Descending(s, high, 0), i);
      OfStrengthNone(NotYet(s, 0), i);
      DescendingIsStable(s, high, 0, i);
      OfStrengthBeyond(s, high, i);
    }
  }

  lemma OfStrengthBeyond(s: seq<Entry>, high: nat, i: nat)
    requires ActiveBelow(s, high)
    ensures i >= high ==> OfStrength(s, i) == []
  {
    if i >= high {
      OfStrengthNone(s, i);
    }
  }

  // ---------- the strengths in use ----------

  function MaxStrength(s: seq<Entry>): nat
  {
    if s == [] then 0
    else
      var m, e := MaxStrength(s[..|s| - 1]), s[|s| - 1];
      if e.active && e.cipher.strengthBits > m then e.cipher.strengthBits else m
  }

  function Uses(s: seq<Entry>, strength: nat): nat
  {
    if s == [] then 0
    else Uses(s[..|s| - 1], strength) + (if s[|s| - 1].active && s[|s| - 1].cipher.strengthBits == strength then 1 else 0)
  }

  lemma {:induction false} MaxStrengthBounds(s: seq<Entry>)
    ensures ActiveBelow(s, MaxStrength(s) + 1)
  {
    if s != [] {
      MaxStrengthBounds(s[..|s| - 1]);
    }
  }

  lemma {:induction false} UsesPositive(s: seq<Entry>, strength: nat)
    ensures Uses(s, strength) == 0 ==> forall e :: e in s && e.active ==> e.cipher.strengthBits != strength
  {
    if s != [] {
      UsesPositive(s[..|s| - 1], strength);
    }
  }

  lemma OneMore(s: seq<Entry>, i: nat)
    requires i < |s|
    ensures MaxStrength(s[..i + 1]) ==
      if s[i].active && s[i].cipher.strengthBits > MaxStrength(s[..i]) then s[i].cipher.strengthBits else MaxStrength(s[..i])
    ensures forall b: nat ::
      Uses(s[..i + 1], b) == Uses(s[..i], b) + (if s[i].active && s[i].cipher.strengthBits == b then 1 else 0)
  {
    assert s[..i + 1][..i] == s[..i];
  }

  /** One round of the loop over strengths, whether or not the strength is used. */
  lemma SortRound(s: seq<Entry>, high: nat, i: nat)
    requires i < high
    ensures Uses(s, i) == 0 ==>
      NotYet(s, i + 1) + Descending(s, high, i + 1) == NotYet(s, i) + Descending(s, high, i)
    ensures Applied(OrdRule(i), NotYet(s, i + 1) + Descending(s, high, i + 1)) == NotYet(s, i) + Descending(s, high, i)
  {
    OrdStep(s, high, i);
    if Uses(s, i) == 0 {
      UsesPositive(s, i);
      UnusedStrength(s, high, i);
    }
  }
}
