/**
 What the rules of a cipher string do to the preference list, on plain sequences
 (ssl/ssl_ciph.c, `ssl_cipher_apply_rule` and `ssl_cipher_strength_sort`).
 */
module CipherRules {

  /** SSL_CIPHER. Algorithm masks are sets of bit positions. */
  datatype Cipher = Cipher(
    id: nat, mkey: set<nat>, auth: set<nat>, enc: set<nat>, mac: set<nat>, ssl: set<nat>,
    algoStrength: set<nat>, strengthBits: nat, valid: bool)

  /** One element of the preference list */
  datatype Entry = Entry(cipher: Cipher, active: bool, inGroup: bool)

  datatype Kind = Add | Ord | Del | Kill

  /** The arguments of `ssl_cipher_apply_rule`; a negative `strengthBits` selects by algorithm. */
  datatype Rule = Rule(
    kind: Kind, mkey: set<nat>, auth: set<nat>, enc: set<nat>, mac: set<nat>, ssl: set<nat>,
    algoStrength: set<nat>, strengthBits: int, inGroup: bool)

  /** The algorithms this build lacks (`ssl_cipher_get_disabled`). */
  datatype Disabled = Disabled(mkey: set<nat>, auth: set<nat>, enc: set<nat>, mac: set<nat>, ssl: set<nat>)

  predicate Available(c: Cipher, d: Disabled)
  {
    && c.valid
    && c.mkey * d.mkey == {} && c.auth * d.auth == {} && c.enc * d.enc == {} && c.mac * d.mac == {}
    && c.ssl * d.ssl == {}
  }

  /** The initial list: the available ciphers of the table, in its order, none active. */
  function Collected(table: seq<Cipher>, d: Disabled): seq<Entry>
  {
    if table == [] then []
    else
      var c := table[|table| - 1];
      Collected(table[..|table| - 1], d) + (if Available(c, d) then [Entry(c, false, false)] else [])
  }

  lemma {:induction false} CollectedInactive(table: seq<Cipher>, d: Disabled)
    ensures InactiveFirst(Collected(table, d))
    ensures forall e :: e in Collected(table, d) ==> !e.active && e.cipher in table && Available(e.cipher, d)
  {
    if table != [] {
      CollectedInactive(table[..|table| - 1], d);
    }
    var s := Collected(table, d);
    assert forall i :: 0 <= i < |s| ==> s[i] in s;
  }

  /** SSL_EXP_MASK and SSL_STRONG_MASK */
  const EXP_MASK: set<nat> := {0, 1}
  const STRONG_MASK: set<nat> := {2, 3, 4, 5, 6, 7, 8}

  predicate Meets(mask: set<nat>, algorithms: set<nat>)
  {
    mask == {} || mask * algorithms != {}
  }

  predicate Matches(r: Rule, c: Cipher)
  {
    if r.strengthBits >= 0 then r.strengthBits == c.strengthBits
    else
      && Meets(r.mkey, c.mkey) && Meets(r.auth, c.auth) && Meets(r.enc, c.enc)
      && Meets(r.mac, c.mac) && Meets(r.ssl, c.ssl)
      && Meets(r.algoStrength * EXP_MASK, c.algoStrength)
      && Meets(r.algoStrength * STRONG_MASK, c.algoStrength)
  }

  /** Entries that a rule acts on: ADD takes inactive ones, ORD and DEL active ones. */
  predicate Selected(r: Rule, e: Entry)
  {
    Matches(r, e.cipher) && (r.kind == Kill || e.active == (r.kind != Add))
  }

  function Touched(r: Rule, e: Entry): Entry
  {
    Entry(e.cipher, r.kind != Del, r.kind == Add && r.inGroup)
  }

  function KeptOne(r: Rule, e: Entry): seq<Entry>
  {
    if Selected(r, e) then [] else [e]
  }

  function MovedOne(r: Rule, e: Entry): seq<Entry>
  {
    if Selected(r, e) && r.kind != Kill then [Touched(r, e)] else []
  }

  /** The entries a rule moves, in their order, as it leaves them. */
  function Moved(r: Rule, s: seq<Entry>): seq<Entry>
  {
    if s == [] then [] else Moved(r, s[..|s| - 1]) + MovedOne(r, s[|s| - 1])
  }

  /** The entries a rule passes over, in their order. */
  function Kept(r: Rule, s: seq<Entry>): seq<Entry>
  {
    if s == [] then [] else Kept(r, s[..|s| - 1]) + KeptOne(r, s[|s| - 1])
  }

  /** What a rule does to the list. */
  function Applied(r: Rule, s: seq<Entry>): seq<Entry>
  {
    if r.kind == Del then Moved(r, s) + Kept(r, s) else Kept(r, s) + Moved(r, s)
  }

  function AppliedAll(rules: seq<Rule>, s: seq<Entry>): seq<Entry>
  {
    if rules == [] then s else Applied(rules[|rules| - 1], AppliedAll(rules[..|rules| - 1], s))
  }

  // ---------- filters and concatenation ----------

  lemma Associate<T>(a: seq<T>, b: seq<T>, c: seq<T>)
    ensures a + b + c == a + (b + c)
  {
  }

  lemma Units<T>(a: seq<T>)
    ensures [] + a == a == a + []
  {
  }

  lemma {:induction false} MovedConcat(r: Rule, s: seq<Entry>, t: seq<Entry>)
    ensures Moved(r, s + t) == Moved(r, s) + Moved(r, t)
  {
    hide MovedOne;
    if t == [] {
      Units(s);
      Units(Moved(r, s));
    } else {
      var t0, e := t[..|t| - 1], t[|t| - 1];
      MovedConcat(r, s, t0);
      assert (s + t)[..|s + t| - 1] == s + t0;
      assert Moved(r, s + t) == Moved(r, s + t0) + MovedOne(r, e);
      hide *;
      Associate(Moved(r, s), Moved(r, t0), MovedOne(r, e));
    }
  }

  lemma {:induction false} KeptConcat(r: Rule, s: seq<Entry>, t: seq<Entry>)
    ensures Kept(r, s + t) == Kept(r, s) + Kept(r, t)
  {
    hide KeptOne;
    if t == [] {
      Units(s);
      Units(Kept(r, s));
    } else {
      var t0, e := t[..|t| - 1], t[|t| - 1];
      KeptConcat(r, s, t0);
      assert (s + t)[..|s + t| - 1] == s + t0;
      assert Kept(r, s + t) == Kept(r, s + t0) + KeptOne(r, e);
      hide *;
      Associate(Kept(r, s), Kept(r, t0), KeptOne(r, e));
    }
  }

  lemma OnOne(r: Rule, e: Entry)
    ensures Moved(r, [e]) == MovedOne(r, e)
    ensures Kept(r, [e]) == KeptOne(r, e)
  {
    assert [e][..0] == [];
  }

  lemma {:induction false} MovedMembers(r: Rule, s: seq<Entry>)
    ensures forall e :: e in Moved(r, s) ==> e.active == (r.kind != Del) && e.inGroup == (r.kind == Add && r.inGroup)
    ensures forall e :: e in Moved(r, s) ==> Matches(r, e.cipher)
  {
    if s != [] {
      MovedMembers(r, s[..|s| - 1]);
    }
  }

  lemma {:induction false} KeptMembers(r: Rule, s: seq<Entry>)
    ensures forall e :: e in Kept(r, s) <==> e in s && !Selected(r, e)
  {
    if s != [] {
      var s0 := s[..|s| - 1];
      KeptMembers(r, s0);
      assert s == s0 + [s[|s| - 1]];
    }
  }

  lemma {:induction false} NoneToMove(r: Rule, s: seq<Entry>)
    requires forall e :: e in s ==> !Selected(r, e)
    ensures Kept(r, s) == s && Moved(r, s) == []
  {
    hide Selected;
    if s != [] {
      var s0, e := s[..|s| - 1], s[|s| - 1];
      NoneToMove(r, s0);
      assert !Selected(r, e);
      assert s == s0 + [e];
    }
  }

  /** A rule that selects nothing changes nothing. */
  lemma NoneSelected(r: Rule, s: seq<Entry>)
    requires forall e :: e in s ==> !Selected(r, e)
    ensures Kept(r, s) == s && Moved(r, s) == [] && Applied(r, s) == s
  {
    NoneToMove(r, s);
    hide Moved;
    hide Kept;
    Units(s);
  }

  lemma {:induction false} KillMovesNone(r: Rule, s: seq<Entry>)
    requires r.kind == Kill
    ensures Moved(r, s) == [] && Applied(r, s) == Kept(r, s)
  {
    if s != [] {
      KillMovesNone(r, s[..|s| - 1]);
    }
  }

  // ---------- conservation ----------

  function Ciphers(s: seq<Entry>): (c: seq<Cipher>)
    ensures |c| == |s|
    ensures forall i :: 0 <= i < |s| ==> c[i] == s[i].cipher
  {
    seq(|s|, i requires 0 <= i < |s| => s[i].cipher)
  }

  lemma CiphersConcat(s: seq<Entry>, t: seq<Entry>)
    ensures Ciphers(s + t) == Ciphers(s) + Ciphers(t)
  {
  }

  lemma CiphersOne(e: Entry)
    ensures Ciphers([e]) == [e.cipher] && Ciphers([]) == []
  {
  }

  lemma {:induction false} MovedAndKept(r: Rule, s: seq<Entry>)
    requires r.kind != Kill
    ensures multiset(Ciphers(Kept(r, s))) + multiset(Ciphers(Moved(r, s))) == multiset(Ciphers(s))
  {
    hide Selected;
    if s != [] {
      var s0, e := s[..|s| - 1], s[|s| - 1];
      MovedAndKept(r, s0);
      assert s == s0 + [e];
      assert Kept(r, s) == Kept(r, s0) + KeptOne(r, e) && Moved(r, s) == Moved(r, s0) + MovedOne(r, e);
      hide Kept;
      hide Moved;
      CiphersConcat(s0, [e]);
      CiphersConcat(Kept(r, s0), KeptOne(r, e));
      CiphersConcat(Moved(r, s0), MovedOne(r, e));
      CiphersOne(e);
      CiphersOne(Touched(r, e));
      hide Ciphers;
    }
  }

  /** ADD, ORD and DEL lose and duplicate nothing. */
  lemma Conservation(r: Rule, s: seq<Entry>)
    requires r.kind != Kill
    ensures multiset(Ciphers(Applied(r, s))) == multiset(Ciphers(s))
  {
    MovedAndKept(r, s);
    CiphersConcat(Moved(r, s), Kept(r, s));
    CiphersConcat(Kept(r, s), Moved(r, s));
  }

  /** `at` lists, in order, exactly the indices of the entries that a rule selects, or of those it
      does not. */
  ghost predicate IndicesOf(r: Rule, s: seq<Entry>, selected: bool, at: seq<nat>)
  {
    && (forall k :: 0 <= k < |at| ==> at[k] < |s| && Selected(r, s[at[k]]) == selected)
    && (forall k, l :: 0 <= k < l < |at| ==> at[k] < at[l])
    && (forall i :: 0 <= i < |s| && Selected(r, s[i]) == selected ==> i in at)
  }

  function Indices(r: Rule, s: seq<Entry>, selected: bool): (at: seq<nat>)
    ensures forall i :: i in at ==> i < |s|
  {
    if s == [] then []
    else Indices(r, s[..|s| - 1], selected) + (if Selected(r, s[|s| - 1]) == selected then [|s| - 1] else [])
  }

  lemma {:induction false} IndicesMembers(r: Rule, s: seq<Entry>, selected: bool)
    ensures forall i :: i in Indices(r, s, selected) <==> 0 <= i < |s| && Selected(r, s[i]) == selected
  {
    hide Selected;
    if s != [] {
      IndicesMembers(r, s[..|s| - 1], selected);
    }
  }

  lemma {:induction false} IndicesIncrease(r: Rule, s: seq<Entry>, selected: bool)
    ensures forall k, l :: 0 <= k < l < |Indices(r, s, selected)| ==> Indices(r, s, selected)[k] < Indices(r, s, selected)[l]
  {
    hide Selected;
    if s != [] {
      var at, n := Indices(r, s[..|s| - 1], selected), |s| - 1;
      IndicesIncrease(r, s[..|s| - 1], selected);
      forall k | 0 <= k < |at| ensures at[k] < n {
        assert at[k] in at;
      }
    }
  }

  lemma IndicesAre(r: Rule, s: seq<Entry>, selected: bool)
    ensures IndicesOf(r, s, selected, Indices(r, s, selected))
  {
    IndicesMembers(r, s, selected);
    IndicesIncrease(r, s, selected);
    var at := Indices(r, s, selected);
    hide Indices;
    hide Selected;
    forall k | 0 <= k < |at| ensures at[k] < |s| && Selected(r, s[at[k]]) == selected {
      assert at[k] in at;
    }
  }

  /** The entries a rule passes over are those it does not select, in their order. */
  lemma {:induction false} KeptInOrder(r: Rule, s: seq<Entry>)
    ensures |Kept(r, s)| == |Indices(r, s, false)|
    ensures forall k :: 0 <= k < |Kept(r, s)| ==> Indices(r, s, false)[k] < |s| && Kept(r, s)[k] == s[Indices(r, s, false)[k]]
  {
    hide Selected;
    if s != [] {
      var n := |s| - 1;
      KeptInOrder(r, s[..n]);
    }
  }

  /** What ADD, ORD or DEL moves are the entries it selects, in their order. */
  lemma {:induction false} MovedInOrder(r: Rule, s: seq<Entry>)
    requires r.kind != Kill
    ensures |Moved(r, s)| == |Indices(r, s, true)|
    ensures forall k :: 0 <= k < |Moved(r, s)| ==>
      Indices(r, s, true)[k] < |s| && Moved(r, s)[k] == Touched(r, s[Indices(r, s, true)[k]])
  {
    hide Selected;
    hide Touched;
    if s != [] {
      var n := |s| - 1;
      MovedInOrder(r, s[..n]);
    }
  }

  /** KILL removes the matching entries, active or not; all others stay, in their order. */
  lemma KillRemoves(r: Rule, s: seq<Entry>) returns (kept: seq<nat>)
    requires r.kind == Kill
    ensures IndicesOf(r, s, false, kept) && |Applied(r, s)| == |kept|
    ensures forall k :: 0 <= k < |kept| ==> Applied(r, s)[k] == s[kept[k]] && !Matches(r, s[kept[k]].cipher)
    ensures forall i :: 0 <= i < |s| && !Matches(r, s[i].cipher) ==> i in kept
  {
    kept := Indices(r, s, false);
    IndicesAre(r, s, false);
    KeptInOrder(r, s);
    KillMovesNone(r, s);
    hide Indices;
    hide Matches;
  }

  // ---------- inactive entries precede active ones ----------

  ghost predicate InactiveFirst(s: seq<Entry>)
  {
    forall i, j :: 0 <= i < j < |s| && s[i].active ==> s[j].active
  }

  lemma {:induction false} KeptInactiveFirst(r: Rule, s: seq<Entry>)
    requires InactiveFirst(s)
    ensures InactiveFirst(Kept(r, s))
  {
    if s != [] {
      var s0 := s[..|s| - 1];
      KeptInactiveFirst(r, s0);
      KeptMembers(r, s0);
      forall i | 0 <= i < |Kept(r, s0)| && Kept(r, s0)[i].active ensures s[|s| - 1].active {
        assert Kept(r, s0)[i] in s0;
      }
    }
  }

  lemma RuleKeepsInactiveFirst(r: Rule, s: seq<Entry>)
    requires InactiveFirst(s)
    ensures InactiveFirst(Applied(r, s))
  {
    KeptInactiveFirst(r, s);
    MovedMembers(r, s);
    var moved := Moved(r, s);
    assert forall i :: 0 <= i < |moved| ==> moved[i] in moved;
    if r.kind == Kill {
      KillMovesNone(r, s);
    }
  }

  /** After any sequence of rules the inactive entries come first. */
  lemma {:induction false} RulesKeepInactiveFirst(rules: seq<Rule>, s: seq<Entry>)
    requires InactiveFirst(s)
    ensures InactiveFirst(AppliedAll(rules, s))
  {
    if rules != [] {
      RulesKeepInactiveFirst(rules[..|rules| - 1], s);
      RuleKeepsInactiveFirst(rules[|rules| - 1], AppliedAll(rules[..|rules| - 1], s));
    }
  }

  // ---------- one visit of the walk ----------

  /** The list after `done` visits: from the tail for DEL, else from the head. */
  function Progress(r: Rule, s: seq<Entry>, done: nat): seq<Entry>
    requires done <= |s|
  {
    if r.kind == Del then
      Moved(r, s[|s| - done..]) + s[..|s| - done] + Kept(r, s[|s| - done..])
    else
      Kept(r, s[..done]) + s[done..] + Moved(r, s[..done])
  }

  /** Where the next entry to visit stands by then, and where the last one stands. */
  function Cursor(r: Rule, s: seq<Entry>, done: nat): int
    requires done <= |s|
  {
    if r.kind == Del then |Moved(r, s[|s| - done..])| + |s| - done - 1 else |Kept(r, s[..done])|
  }

  function LastCursor(r: Rule, s: seq<Entry>, done: nat): int
    requires done <= |s|
  {
    if r.kind == Del then |Moved(r, s[|s| - done..])| else |Kept(r, s[..done])| + |s| - 1 - done
  }

  function Without<T>(s: seq<T>, k: nat): seq<T>
    requires k < |s|
  {
    s[..k] + s[k + 1..]
  }

  /** The effect of a visit to the k-th entry. */
  function Visited(r: Rule, s: seq<Entry>, k: nat): seq<Entry>
    requires k < |s|
  {
    if !Selected(r, s[k]) then s
    else match r.kind
      case Kill => Without(s, k)
      case Del => [Touched(r, s[k])] + Without(s, k)
      case _ => Without(s, k) + [Touched(r, s[k])]
  }

  lemma CursorInRange(r: Rule, s: seq<Entry>, done: nat)
    requires done < |s|
    ensures 0 <= Cursor(r, s, done) < |Progress(r, s, done)|
    ensures 0 <= LastCursor(r, s, done) < |Progress(r, s, done)|
    ensures Progress(r, s, done)[Cursor(r, s, done)] == if r.kind == Del then s[|s| - done - 1] else s[done]
    ensures Cursor(r, s, done) == LastCursor(r, s, done) <==> done == |s| - 1
  {
  }

  lemma VisitForward(r: Rule, s: seq<Entry>, done: nat)
    requires done < |s| && r.kind != Del
    ensures Kept(r, s[..done + 1]) == Kept(r, s[..done]) + KeptOne(r, s[done])
    ensures Moved(r, s[..done + 1]) == Moved(r, s[..done]) + MovedOne(r, s[done])
  {
    assert s[..done + 1][..done] == s[..done];
  }

  lemma BackwardPieces(r: Rule, s: seq<Entry>, i: nat)
    requires i < |s| && r.kind == Del
    ensures Kept(r, s[i..]) == KeptOne(r, s[i]) + Kept(r, s[i + 1..])
    ensures Moved(r, s[i..]) == MovedOne(r, s[i]) + Moved(r, s[i + 1..])
  {
    hide KeptOne;
    hide MovedOne;
    assert s[i..] == [s[i]] + s[i + 1..];
    KeptConcat(r, [s[i]], s[i + 1..]);
    MovedConcat(r, [s[i]], s[i + 1..]);
    hide Kept;
    hide Moved;
    OnOne(r, s[i]);
  }

  lemma VisitBackward(r: Rule, s: seq<Entry>, done: nat)
    requires done < |s| && r.kind == Del
    ensures Kept(r, s[|s| - done - 1..]) == KeptOne(r, s[|s| - done - 1]) + Kept(r, s[|s| - done..])
    ensures Moved(r, s[|s| - done - 1..]) == MovedOne(r, s[|s| - done - 1]) + Moved(r, s[|s| - done..])
  {
    BackwardPieces(r, s, |s| - done - 1);
  }

  lemma WithoutMiddle<T>(a: seq<T>, e: T, t: seq<T>)
    ensures (a + [e] + t)[|a|] == e && Without(a + [e] + t, |a|) == a + t
  {
  }

  lemma VisitMiddle(r: Rule, a: seq<Entry>, e: Entry, t: seq<Entry>)
    ensures (a + [e] + t)[|a|] == e
    ensures Visited(r, a + [e] + t, |a|) ==
      if !Selected(r, e) then a + [e] + t
      else if r.kind == Kill then a + t
      else if r.kind == Del then [Touched(r, e)] + (a + t)
      else a + t + [Touched(r, e)]
  {
    hide Selected;
    hide Touched;
    WithoutMiddle(a, e, t);
  }

  lemma VisitForwardParts(r: Rule, k: seq<Entry>, e: Entry, u: seq<Entry>, m: seq<Entry>)
    requires r.kind != Del
    ensures |k| < |k + ([e] + u) + m|
    ensures Visited(r, k + ([e] + u) + m, |k|) == (k + KeptOne(r, e)) + u + (m + MovedOne(r, e))
  {
    VisitMiddle(r, k, e, u + m);
    hide Visited;
    hide Selected;
    hide Touched;
    Associate(k, [e] + u, m);
    Associate([e], u, m);
    Associate(k, [e], u + m);
    Associate(k + [e], u, m);
    Associate(k, u, m);
    Associate(k + u, m, MovedOne(r, e));
    Units(k);
    Units(m);
  }

  lemma VisitBackwardParts(r: Rule, m: seq<Entry>, u: seq<Entry>, e: Entry, k: seq<Entry>)
    requires r.kind == Del
    ensures |m| + |u| < |m + (u + [e]) + k|
    ensures Visited(r, m + (u + [e]) + k, |m| + |u|) == (MovedOne(r, e) + m) + u + (KeptOne(r, e) + k)
  {
    VisitMiddle(r, m + u, e, k);
    hide Visited;
    hide Selected;
    hide Touched;
    Associate(m, u, [e]);
    Associate(m + u, [e], k);
    Associate(m, u, k);
    Associate(MovedOne(r, e), m, u);
    Associate(MovedOne(r, e), m + u, k);
    Units(k);
    Units(m);
  }

  lemma SplitHere<T>(s: seq<T>, i: nat)
    requires i < |s|
    ensures s[i..] == [s[i]] + s[i + 1..]
    ensures s[..i + 1] == s[..i] + [s[i]]
  {
  }

  lemma ForwardProgress(r: Rule, s: seq<Entry>, done: nat)
    requires done < |s| && r.kind != Del
    ensures 0 <= Cursor(r, s, done) < |Progress(r, s, done)|
    ensures Visited(r, Progress(r, s, done), Cursor(r, s, done)) == Progress(r, s, done + 1)
  {
    VisitForward(r, s, done);
    VisitForwardParts(r, Kept(r, s[..done]), s[done], s[done + 1..], Moved(r, s[..done]));
    SplitHere(s, done);
    hide Kept;
    hide Moved;
    hide Selected;
    hide Visited;
    hide Touched;
  }

  lemma ProgressFromTail(r: Rule, s: seq<Entry>, i: nat)
    requires i <= |s| && r.kind == Del
    ensures Progress(r, s, |s| - i) == Moved(r, s[i..]) + s[..i] + Kept(r, s[i..])
    ensures Cursor(r, s, |s| - i) == |Moved(r, s[i..])| + i - 1
  {
    hide Moved;
    hide Kept;
    assert |s| - (|s| - i) == i;
  }

  lemma BackwardProgress(r: Rule, s: seq<Entry>, i: nat)
    requires i < |s| && r.kind == Del
    ensures 0 <= Cursor(r, s, |s| - i - 1) < |Progress(r, s, |s| - i - 1)|
    ensures Visited(r, Progress(r, s, |s| - i - 1), Cursor(r, s, |s| - i - 1)) == Progress(r, s, |s| - i)
  {
    hide *;
    ProgressFromTail(r, s, i + 1);
    ProgressFromTail(r, s, i);
    BackwardPieces(r, s, i);
    VisitBackwardParts(r, Moved(r, s[i + 1..]), s[..i], s[i], Kept(r, s[i + 1..]));
    SplitHere(s, i);
  }

  /** A visit moves the walk on by one entry. */
  lemma VisitProgress(r: Rule, s: seq<Entry>, done: nat)
    requires done < |s|
    ensures 0 <= Cursor(r, s, done) < |Progress(r, s, done)|
    ensures Visited(r, Progress(r, s, done), Cursor(r, s, done)) == Progress(r, s, done + 1)
  {
    if r.kind == Del {
      BackwardProgress(r, s, |s| - done - 1);
    } else {
      ForwardProgress(r, s, done);
    }
  }

  /** The cursors after a visit, when another entry is still to come. */
  lemma CursorStep(r: Rule, s: seq<Entry>, done: nat)
    requires done + 1 < |s|
    ensures Cursor(r, s, done + 1) == Cursor(r, s, done) +
      (if Selected(r, if r.kind == Del then s[|s| - done - 1] else s[done]) then 0 else if r.kind == Del then -1 else 1)
    ensures LastCursor(r, s, done + 1) == LastCursor(r, s, done) +
      (if Selected(r, if r.kind == Del then s[|s| - done - 1] else s[done]) then (if r.kind == Del then 1 else -1) else 0)
  {
    if r.kind == Del {
      VisitBackward(r, s, done);
    } else {
      VisitForward(r, s, done);
    }
    hide Kept;
    hide Moved;
    hide Selected;
  }

  lemma ProgressEnds(r: Rule, s: seq<Entry>)
    ensures Progress(r, s, 0) == s
    ensures Progress(r, s, |s|) == Applied(r, s)
  {
    assert s[..|s|] == s && s[0..] == s && s[|s|..] == [] && s[..0] == [];
  }
}
