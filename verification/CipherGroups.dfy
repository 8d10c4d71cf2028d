/**
 Cipher strings with equal-preference groups (ssl/ssl_ciph.c, `ssl_cipher_process_rulestr`
 and the end of `ssl_create_cipher_list`), from the commands a string consists of.
 */
module CipherGroups {
  import opened CipherRules
  import opened CipherSort
  import opened CipherList

  /** The commands of a cipher string, as its characters spell them. An operator tells the kind. */
  datatype Command =
    | Open                  // [
    | Close                 // ]
    | Apply(rule: Rule)     // a name that was found
    | Unknown(kind: Kind)   // a name that was not found
    | Broken(kind: Kind)    // a name that ends in '+' with no other behind it
    | Invalid(kind: Kind)   // no name
    | Strength              // @STRENGTH
    | BadSpecial            // @ and another name, or none

  function KindOf(c: Command): Kind
  {
    match c
    case Apply(rule) => rule.kind
    case Unknown(k) => k
    case Broken(k) => k
    case Invalid(k) => k
    case _ => Add
  }

  /** The locals of the parser; `stopped` when it broke out of its loop. */
  datatype Parser = Parser(entries: seq<Entry>, inGroup: bool, hasGroup: bool, ok: bool, stopped: bool)

  /** The command is not allowed where it stands, and the parser stops. */
  predicate Misplaced(p: Parser, c: Command)
  {
    if p.inGroup then c.Open? || c.Strength? || c.BadSpecial? || c.Invalid? || KindOf(c) != Add
    else p.hasGroup && (c.Strength? || c.BadSpecial? || KindOf(c) == Kill)
  }

  /** The rule as it is applied: by algorithms, not by strength, and in the current group */
  function InForce(p: Parser, rule: Rule): Rule
  {
    rule.(strengthBits := -1, inGroup := p.inGroup)
  }

  function Ungroup(s: seq<Entry>): seq<Entry>
  {
    if s == [] then [] else s[..|s| - 1] + [s[|s| - 1].(inGroup := false)]
  }

  /** One command */
  function Parsed(p: Parser, c: Command): Parser
  {
    if p.stopped then p
    else if Misplaced(p, c) then p.(inGroup := false, ok := false, stopped := true)
    else match c
      case Open => p.(inGroup := true, hasGroup := true)
      case Close => if p.inGroup then p.(entries := Ungroup(p.entries), inGroup := false) else p.(ok := false)
      case Apply(rule) => p.(entries := Applied(InForce(p, rule), p.entries))
      case Unknown(kind) => p
      case Strength => p.(entries := Sorted(p.entries, MaxStrength(p.entries) + 1))
      case BadSpecial => p.(ok := false)
      case _ => p.(inGroup := false, ok := false)
  }

  function ParsedAll(commands: seq<Command>, s: seq<Entry>): Parser
  {
    if commands == [] then Parser(s, false, false, true, false)
    else Parsed(ParsedAll(commands[..|commands| - 1], s), commands[|commands| - 1])
  }

  /** The string is accepted. */
  predicate Accepted(p: Parser)
  {
    p.ok && !p.inGroup
  }

  // ---------- group flags ----------

  /** The last cipher of the list does not claim that its group goes on. */
  ghost predicate TailClosed(s: seq<Entry>)
  {
    s == [] || !s[|s| - 1].active || !s[|s| - 1].inGroup
  }

  ghost predicate NoGroups(s: seq<Entry>)
  {
    forall e :: e in s ==> !e.inGroup
  }

  lemma RuleKeepsNoGroups(r: Rule, s: seq<Entry>)
    requires NoGroups(s) && !r.inGroup
    ensures NoGroups(Applied(r, s))
  {
    KeptMembers(r, s);
    MovedMembers(r, s);
  }

  lemma SortKeepsNoGroups(s: seq<Entry>, high: nat)
    requires NoGroups(s)
    ensures NoGroups(Sorted(s, high))
  {
    NotYetMembers(s, 0);
    DescendingMembers(s, high, 0);
  }

  lemma NoGroupsClosed(s: seq<Entry>)
    requires NoGroups(s)
    ensures TailClosed(s)
  {
    if s != [] {
      assert s[|s| - 1] in s;
    }
  }

  lemma {:induction false} NothingMoved(r: Rule, s: seq<Entry>)
    requires Moved(r, s) == [] && r.kind != Kill
    ensures Kept(r, s) == s
  {
    if s != [] {
      NothingMoved(r, s[..|s| - 1]);
      assert s == s[..|s| - 1] + [s[|s| - 1]];
    }
  }

  /** ADD and ORD outside a group leave the tail closed. */
  lemma AppendKeepsClosed(r: Rule, s: seq<Entry>)
    requires TailClosed(s) && !r.inGroup && (r.kind == Add || r.kind == Ord)
    ensures TailClosed(Applied(r, s))
  {
    var moved := Moved(r, s);
    if moved == [] {
      NothingMoved(r, s);
      assert s + [] == s;
    } else {
      MovedMembers(r, s);
      assert Applied(r, s)[|Applied(r, s)| - 1] == moved[|moved| - 1];
      assert moved[|moved| - 1] in moved;
    }
  }

  /** DEL leaves the tail closed exactly when an active entry that stays, and claims that its
      group goes on, is followed by another active entry that stays. */
  ghost predicate StayersClosed(r: Rule, s: seq<Entry>)
  {
    forall i :: 0 <= i < |s| && s[i].active && s[i].inGroup && !Selected(r, s[i]) ==>
      exists j :: i < j < |s| && s[j].active && !Selected(r, s[j])
  }

  lemma {:induction false} DelKeepsClosed(r: Rule, s: seq<Entry>)
    requires r.kind == Del && InactiveFirst(s)
    ensures TailClosed(Applied(r, s)) <==> StayersClosed(r, s)
  {
    MovedMembers(r, s);
    var moved, kept := Moved(r, s), Kept(r, s);
    assert moved != [] ==> moved[|moved| - 1] in moved;
    KeptTail(r, s);
    assert TailClosed(Applied(r, s)) <==> TailClosed(kept) by {
      if kept == [] {
        assert moved + kept == moved;
      } else {
        assert (moved + kept)[|moved + kept| - 1] == kept[|kept| - 1];
      }
    }
  }

  lemma {:induction false} KeptTail(r: Rule, s: seq<Entry>)
    requires r.kind == Del && InactiveFirst(s)
    ensures TailClosed(Kept(r, s)) <==> StayersClosed(r, s)
  {
    if s != [] {
      var s0, n, e := s[..|s| - 1], |s| - 1, s[|s| - 1];
      KeptTail(r, s0);
      if Selected(r, e) {
        assert Kept(r, s) == Kept(r, s0);
        assert StayersClosed(r, s) <==> StayersClosed(r, s0);
      } else {
        assert Kept(r, s)[|Kept(r, s)| - 1] == e;
        assert s[n] == e;
      }
    }
  }

  lemma SortKeepsInactiveFirst(s: seq<Entry>, high: nat)
    ensures InactiveFirst(Sorted(s, high))
  {
    NotYetMembers(s, 0);
    DescendingMembers(s, high, 0);
    var a, d := NotYet(s, 0), Descending(s, high, 0);
    assert forall i :: 0 <= i < |a| ==> a[i] in a;
    assert forall i :: 0 <= i < |d| ==> d[i] in d;
  }

  lemma UngroupKeeps(s: seq<Entry>)
    requires InactiveFirst(s)
    ensures InactiveFirst(Ungroup(s)) && TailClosed(Ungroup(s))
  {
  }

  predicate IsDel(c: Command)
  {
    c.Apply? && c.rule.kind == Del
  }

  /** No '-' follows a group. */
  ghost predicate NoDelAfterGroup(commands: seq<Command>)
  {
    forall i, j :: 0 <= i < j < |commands| && commands[i].Open? ==> !IsDel(commands[j])
  }

  ghost predicate HasOpen(commands: seq<Command>)
  {
    exists i :: 0 <= i < |commands| && commands[i].Open?
  }

  /** What holds after every command. */
  ghost predicate ParserOk(p: Parser)
  {
    && InactiveFirst(p.entries)
    && (!p.hasGroup ==> NoGroups(p.entries) && !p.inGroup)
    && (p.stopped ==> !p.ok)
    && (p.hasGroup && p.ok && !p.inGroup ==> TailClosed(p.entries))
  }

  lemma ApplyKeepsOk(p: Parser, r: Rule)
    requires ParserOk(p) && !p.stopped && !Misplaced(p, Apply(r)) && (p.hasGroup ==> r.kind != Del)
    ensures ParserOk(Parsed(p, Apply(r)))
  {
    var r' := InForce(p, r);
    RuleKeepsInactiveFirst(r', p.entries);
    if !p.hasGroup {
      RuleKeepsNoGroups(r', p.entries);
    } else if p.ok && !p.inGroup {
      AppendKeepsClosed(r', p.entries);
    }
  }

  lemma CommandKeepsOk(p: Parser, c: Command)
    requires ParserOk(p) && (p.hasGroup ==> !IsDel(c))
    ensures ParserOk(Parsed(p, c))
    ensures Parsed(p, c).hasGroup ==> p.hasGroup || c.Open?
  {
    hide InactiveFirst;
    hide Applied;
    hide Sorted;
    hide Ungroup;
    if !p.stopped && !Misplaced(p, c) {
      match c
      case Apply(r) => ApplyKeepsOk(p, r);
      case Strength =>
        SortKeepsInactiveFirst(p.entries, MaxStrength(p.entries) + 1);
        SortKeepsNoGroups(p.entries, MaxStrength(p.entries) + 1);
      case Close =>
        UngroupKeeps(p.entries);
      case _ =>
    }
  }

  lemma {:induction false} CommandsKeepOk(commands: seq<Command>, s: seq<Entry>)
    requires InactiveFirst(s) && NoGroups(s) && NoDelAfterGroup(commands)
    ensures ParserOk(ParsedAll(commands, s))
    ensures ParsedAll(commands, s).hasGroup ==> HasOpen(commands)
  {
    hide Parsed;
    hide Misplaced;
    if commands == [] {
      NoGroupsClosed(s);
    } else {
      var init, c := commands[..|commands| - 1], commands[|commands| - 1];
      CommandsKeepOk(init, s);
      assert HasOpen(init) ==> HasOpen(commands) && !IsDel(c);
      assert c.Open? ==> HasOpen(commands);
      CommandKeepsOk(ParsedAll(init, s), c);
    }
  }

  /** An accepted string with no '-' after a group leaves the last cipher's group closed. */
  lemma AcceptedIsClosed(commands: seq<Command>, s: seq<Entry>)
    requires InactiveFirst(s) && NoGroups(s) && NoDelAfterGroup(commands)
    requires Accepted(ParsedAll(commands, s))
    ensures TailClosed(ParsedAll(commands, s).entries) && InactiveFirst(ParsedAll(commands, s).entries)
  {
    CommandsKeepOk(commands, s);
    if !ParsedAll(commands, s).hasGroup {
      NoGroupsClosed(ParsedAll(commands, s).entries);
    }
  }

  // ---------- exactly when the last group is closed ----------

  function Before(commands: seq<Command>, s: seq<Entry>, i: nat): Parser
    requires i <= |commands|
  {
    ParsedAll(commands[..i], s)
  }

  /** A '-' that leaves an open entry last */
  ghost predicate Reopens(p: Parser, c: Command)
  {
    IsDel(c) && !StayersClosed(InForce(p, c.rule), p.entries)
  }

  /** A command after which the last entry is closed, whatever was before */
  ghost predicate Recloses(p: Parser, c: Command)
  {
    || (c.Close? && p.inGroup)
    || (IsDel(c) && StayersClosed(InForce(p, c.rule), p.entries))
    || (c.Apply? && !p.inGroup && (c.rule.kind == Add || c.rule.kind == Ord) && Moved(InForce(p, c.rule), p.entries) != [])
  }

  /** Every '-' that leaves an open entry last is followed by a command that closes the list. */
  ghost predicate ReclosedAfter(commands: seq<Command>, s: seq<Entry>, i: nat)
    requires i < |commands|
  {
    exists j :: i < j < |commands| && Recloses(Before(commands, s, j), commands[j])
  }

  ghost predicate AllReclosed(commands: seq<Command>, s: seq<Entry>)
  {
    forall i :: 0 <= i < |commands| && Reopens(Before(commands, s, i), commands[i]) ==> ReclosedAfter(commands, s, i)
  }

  /** One more command */
  lemma AllReclosedSnoc(init: seq<Command>, c: Command, s: seq<Entry>)
    ensures var p := ParsedAll(init, s);
      AllReclosed(init + [c], s) <==>
        Recloses(p, c) || (AllReclosed(init, s) && !Reopens(p, c))
  {
    var commands, n := init + [c], |init|;
    assert commands[..n] == init;
    forall i | 0 <= i <= n ensures Before(commands, s, i) == (if i < n then Before(init, s, i) else ParsedAll(init, s)) {
      assert i < n ==> commands[..i] == init[..i];
    }
    hide ParsedAll;
    hide Before;
    forall i | 0 <= i < n ensures ReclosedAfter(commands, s, i) <==> ReclosedAfter(init, s, i) || Recloses(ParsedAll(init, s), c) {
      if ReclosedAfter(init, s, i) {
        var j :| i < j < |init| && Recloses(Before(init, s, j), init[j]);
        assert commands[j] == init[j];
      }
      if Recloses(ParsedAll(init, s), c) {
        assert commands[n] == c;
      }
    }
    hide Recloses;
    hide Reopens;
    AllReclosedSplit(init, c, s, ParsedAll(init, s));
  }

  lemma AllReclosedSplit(init: seq<Command>, c: Command, s: seq<Entry>, p: Parser)
    requires Before(init + [c], s, |init|) == p
    requires forall i :: 0 <= i < |init| ==> Before(init + [c], s, i) == Before(init, s, i)
    requires forall i :: 0 <= i < |init| ==>
      (ReclosedAfter(init + [c], s, i) <==> ReclosedAfter(init, s, i) || Recloses(p, c))
    requires Recloses(p, c) ==> !Reopens(p, c)
    ensures AllReclosed(init + [c], s) <==> Recloses(p, c) || (AllReclosed(init, s) && !Reopens(p, c))
  {
    var commands, n := init + [c], |init|;
    hide Before;
    hide Recloses;
    hide Reopens;
    assert commands[n] == c && forall i :: 0 <= i < n ==> commands[i] == init[i];
    assert !ReclosedAfter(commands, s, n);
  }

  /** What one command does to the last entry, outside of groups */
  lemma CommandCloses(p: Parser, c: Command)
    requires ParserInv(p) && p.ok && !p.stopped
    requires var q := Parsed(p, c); q.ok && !q.inGroup
    ensures TailClosed(Parsed(p, c).entries) <==> Recloses(p, c) || (!p.inGroup && TailClosed(p.entries) && !Reopens(p, c))
  {
    hide Applied;
    hide Moved;
    hide Sorted;
    hide StayersClosed;
    match c
    case Close => UngroupKeeps(p.entries);
    case Strength =>
      SortKeepsNoGroups(p.entries, MaxStrength(p.entries) + 1);
      NoGroupsClosed(Sorted(p.entries, MaxStrength(p.entries) + 1));
      NoGroupsClosed(p.entries);
    case Apply(r) => RuleCloses(p, r);
    case _ =>
  }

  lemma RuleCloses(p: Parser, r: Rule)
    requires ParserInv(p) && !p.inGroup && (p.hasGroup ==> r.kind != Kill)
    ensures TailClosed(Applied(InForce(p, r), p.entries)) <==>
      Recloses(p, Apply(r)) || (TailClosed(p.entries) && !Reopens(p, Apply(r)))
  {
    var r' := InForce(p, r);
    match r.kind
    case Del => DelKeepsClosed(r', p.entries);
    case Kill =>
      RuleKeepsNoGroups(r', p.entries);
      NoGroupsClosed(Applied(r', p.entries));
      NoGroupsClosed(p.entries);
    case _ =>
      if Moved(r', p.entries) == [] {
        NothingMoved(r', p.entries);
        assert p.entries + [] == p.entries;
      } else {
        AppendCloses(r', p.entries);
      }
  }

  lemma AppendCloses(r: Rule, s: seq<Entry>)
    requires !r.inGroup && (r.kind == Add || r.kind == Ord) && Moved(r, s) != []
    ensures TailClosed(Applied(r, s))
  {
    var moved := Moved(r, s);
    MovedMembers(r, s);
    assert Applied(r, s)[|Applied(r, s)| - 1] == moved[|moved| - 1];
    assert moved[|moved| - 1] in moved;
  }

  /** What holds after every command, '-' or not */
  ghost predicate ParserInv(p: Parser)
  {
    && InactiveFirst(p.entries) && (p.stopped ==> !p.ok)
    && (!p.hasGroup ==> NoGroups(p.entries) && !p.inGroup)
  }

  lemma CommandKeepsInv(p: Parser, c: Command)
    requires ParserInv(p)
    ensures ParserInv(Parsed(p, c))
    ensures Parsed(p, c).ok ==> p.ok && !p.stopped
  {
    hide InactiveFirst;
    hide Applied;
    hide Sorted;
    hide Ungroup;
    if !p.stopped && !Misplaced(p, c) {
      match c
      case Apply(r) =>
        RuleKeepsInactiveFirst(InForce(p, r), p.entries);
        if !p.hasGroup {
          RuleKeepsNoGroups(InForce(p, r), p.entries);
        }
      case Strength =>
        SortKeepsInactiveFirst(p.entries, MaxStrength(p.entries) + 1);
        SortKeepsNoGroups(p.entries, MaxStrength(p.entries) + 1);
      case Close =>
        UngroupKeeps(p.entries);
      case _ =>
    }
  }

  /** An accepted string leaves the last cipher's group closed exactly if every '-' in it that leaves
      an open entry last is followed by a command that closes the list: a ']', an addition or a
      '+' that moves something, or a '-' after which no open entry is last. */
  lemma {:induction false} ClosedExactly(commands: seq<Command>, s: seq<Entry>)
    requires InactiveFirst(s) && NoGroups(s)
    ensures var p := ParsedAll(commands, s);
      ParserInv(p) && (Accepted(p) ==> (TailClosed(p.entries) <==> AllReclosed(commands, s)))
  {
    if commands == [] {
      NoGroupsClosed(s);
    } else {
      var init, c := commands[..|commands| - 1], commands[|commands| - 1];
      assert commands == init + [c];
      ClosedExactly(init, s);
      AllReclosedSnoc(init, c, s);
      hide *;
      ClosedExactlyStep(init, c, s, ParsedAll(init, s));
    }
  }

  lemma ClosedExactlyStep(init: seq<Command>, c: Command, s: seq<Entry>, p: Parser)
    requires p == ParsedAll(init, s) && ParserInv(p)
    requires Accepted(p) ==> (TailClosed(p.entries) <==> AllReclosed(init, s))
    requires AllReclosed(init + [c], s) <==> Recloses(p, c) || (AllReclosed(init, s) && !Reopens(p, c))
    ensures var q := ParsedAll(init + [c], s);
      ParserInv(q) && (Accepted(q) ==> (TailClosed(q.entries) <==> AllReclosed(init + [c], s)))
  {
    assert (init + [c])[..|init|] == init;
    assert ParsedAll(init + [c], s) == Parsed(p, c);
    CommandKeepsInv(p, c);
    if Accepted(Parsed(p, c)) {
      CommandCloses(p, c);
      if p.inGroup {
        LeavesGroup(p, c);
      }
    }
    hide TailClosed;
    hide AllReclosed;
    hide Recloses;
    hide Reopens;
    hide ParserInv;
    hide Parsed;
  }

  /** Only a ']' leaves a group with success. */
  lemma LeavesGroup(p: Parser, c: Command)
    requires Accepted(Parsed(p, c)) && p.inGroup && p.ok && !p.stopped
    ensures Recloses(p, c)
  {
    hide Applied;
    hide Sorted;
    hide Ungroup;
  }

  // ---------- exactly when a rule keeps the groups of the others ----------

  /** Entries i to j are of one group: each flag but the last says that it goes on. */
  ghost predicate OneGroup(s: seq<Entry>, i: nat, j: nat)
  {
    forall k :: i <= k < j && k < |s| ==> s[k].inGroup
  }

  /** Active entries that a rule passes over are of one group afterwards exactly if they were before. */
  ghost predicate GroupsKept(r: Rule, s: seq<Entry>)
  {
    var t, at := Kept(r, s), Indices(r, s, false);
    |at| == |t| &&
    forall a, b :: 0 <= a < b < |t| && t[a].active ==> (OneGroup(t, a, b) <==> OneGroup(s, at[a], at[b]))
  }

  ghost predicate Stays(r: Rule, s: seq<Entry>, i: nat)
  {
    i < |s| && !Selected(r, s[i])
  }

  /** i is the last before k that stays. */
  ghost predicate LastStay(r: Rule, s: seq<Entry>, i: nat, k: nat)
  {
    i < k && Stays(r, s, i) && forall m :: i < m < k ==> !Stays(r, s, m)
  }

  /** No group loses its end between an open entry that stays before it and one that stays behind. */
  ghost predicate EndsKept(r: Rule, s: seq<Entry>)
  {
    forall i: nat, k: nat, j: nat ::
      (i < k < j && LastStay(r, s, i, k) && s[i].active && Stays(r, s, j) && !Stays(r, s, k) && !s[k].inGroup) ==>
        !s[i].inGroup
  }

  lemma {:induction false} FindLastStay(r: Rule, s: seq<Entry>, low: nat, k: nat) returns (i: nat)
    requires low < k <= |s| && Stays(r, s, low)
    ensures low <= i && LastStay(r, s, i, k)
    decreases k
  {
    if Stays(r, s, k - 1) {
      i := k - 1;
    } else {
      i := FindLastStay(r, s, low, k - 1);
    }
  }

  /** The place of an entry that stays, among those that stay */
  lemma PlaceOf(r: Rule, s: seq<Entry>, i: nat) returns (a: nat)
    requires Stays(r, s, i)
    ensures a < |Indices(r, s, false)| && Indices(r, s, false)[a] == i
  {
    IndicesMembers(r, s, false);
    var at := Indices(r, s, false);
    assert i in at;
    a :| a < |at| && at[a] == i;
  }

  lemma PlacesGive(r: Rule, s: seq<Entry>, a: nat)
    requires a < |Indices(r, s, false)|
    ensures |Kept(r, s)| == |Indices(r, s, false)|
    ensures var i := Indices(r, s, false)[a]; Stays(r, s, i) && Kept(r, s)[a] == s[i]
  {
    KeptInOrder(r, s);
    IndicesAre(r, s, false);
  }

  lemma PlacesIncrease(r: Rule, s: seq<Entry>, a: nat, b: nat)
    requires a < |Indices(r, s, false)| && b < |Indices(r, s, false)|
    ensures a < b <==> Indices(r, s, false)[a] < Indices(r, s, false)[b]
  {
    IndicesIncrease(r, s, false);
  }

  lemma KeptMeansEnds(r: Rule, s: seq<Entry>, i: nat, k: nat, j: nat)
    requires GroupsKept(r, s) && i < k < j && LastStay(r, s, i, k) && s[i].active && Stays(r, s, j)
    requires !Stays(r, s, k) && !s[k].inGroup
    ensures !s[i].inGroup
  {
    var a := PlaceOf(r, s, i);
    var b := PlaceOf(r, s, j);
    PlacesIncrease(r, s, a, b);
    PlacesGive(r, s, a);
    PlacesGive(r, s, a + 1);
    PlacesIncrease(r, s, a, a + 1);
    hide Indices;
    hide Kept;
    var t, at := Kept(r, s), Indices(r, s, false);
    assert at[a + 1] > k;
    assert !OneGroup(s, i, at[a + 1]);
    assert OneGroup(t, a, a + 1) <==> s[i].inGroup;
  }

  lemma EndsUse(r: Rule, s: seq<Entry>, i: nat, k: nat, j: nat)
    requires EndsKept(r, s) && i < k < j && LastStay(r, s, i, k) && Stays(r, s, j) && !Stays(r, s, k) && j < |s|
    requires s[i].active && s[i].inGroup
    ensures s[k].inGroup
  {
    hide Selected;
  }

  lemma InGroupAt(t: seq<Entry>, a: nat, b: nat, c: nat)
    requires OneGroup(t, a, b) && a <= c < b && c < |t|
    ensures t[c].inGroup
  {
  }

  lemma ActiveAfter(s: seq<Entry>, i: nat, j: nat)
    requires InactiveFirst(s) && i <= j < |s| && s[i].active
    ensures s[j].active
  {
  }

  lemma StaysGives(r: Rule, s: seq<Entry>, i: nat)
    ensures Stays(r, s, i) ==> i < |s|
    ensures forall k: nat :: LastStay(r, s, i, k) ==> i < k && Stays(r, s, i)
  {
  }

  lemma EndsMeanOne(r: Rule, s: seq<Entry>, a: nat, b: nat, m: nat)
    requires InactiveFirst(s) && EndsKept(r, s) && a < b < |Indices(r, s, false)| && |Kept(r, s)| == |Indices(r, s, false)|
    requires OneGroup(Kept(r, s), a, b) && Kept(r, s)[a].active
    requires Indices(r, s, false)[a] <= m < Indices(r, s, false)[b]
    ensures m < |s| && s[m].inGroup
  {
    hide *;
    PlacesGive(r, s, a);
    PlacesGive(r, s, b);
    var t, at := Kept(r, s), Indices(r, s, false);
    StaysGives(r, s, at[a]);
    StaysGives(r, s, at[b]);
    var i := m;
    if !Stays(r, s, m) {
      i := FindLastStay(r, s, at[a], m);
      StaysGives(r, s, i);
    }
    var c := PlaceOf(r, s, i);
    PlacesGive(r, s, c);
    PlacesIncrease(r, s, c, b);
    PlacesIncrease(r, s, c, a);
    InGroupAt(t, a, b, c);
    ActiveAfter(s, at[a], i);
    if i != m {
      EndsUse(r, s, i, m, at[b]);
    }
  }

  lemma OneMeansKept(r: Rule, s: seq<Entry>, a: nat, b: nat)
    requires a < b < |Indices(r, s, false)| && |Kept(r, s)| == |Indices(r, s, false)|
    requires OneGroup(s, Indices(r, s, false)[a], Indices(r, s, false)[b])
    ensures OneGroup(Kept(r, s), a, b)
  {
    forall c | a <= c < b ensures Kept(r, s)[c].inGroup {
      PlacesGive(r, s, c);
      PlacesIncrease(r, s, a, c);
      PlacesIncrease(r, s, c, b);
    }
  }

  /** A rule leaves the groups of the entries it passes over as they were exactly if no group loses
      its end between an open entry that stays before it and one that stays behind. */
  lemma GroupsKeptExactly(r: Rule, s: seq<Entry>)
    requires InactiveFirst(s)
    ensures GroupsKept(r, s) <==> EndsKept(r, s)
  {
    if GroupsKept(r, s) {
      forall i: nat, k: nat, j: nat | i < k < j && LastStay(r, s, i, k) && s[i].active && Stays(r, s, j) &&
        !Stays(r, s, k) && !s[k].inGroup ensures !s[i].inGroup
      {
        KeptMeansEnds(r, s, i, k, j);
      }
    }
    if EndsKept(r, s) {
      KeptInOrder(r, s);
      var t, at := Kept(r, s), Indices(r, s, false);
      forall a, b | 0 <= a < b < |t| && t[a].active ensures OneGroup(t, a, b) <==> OneGroup(s, at[a], at[b]) {
        if OneGroup(t, a, b) {
          forall m | at[a] <= m < at[b] && m < |s| ensures s[m].inGroup {
            EndsMeanOne(r, s, a, b, m);
          }
        }
        if OneGroup(s, at[a], at[b]) {
          OneMeansKept(r, s, a, b);
        }
      }
    }
  }

  // ---------- an accepted string that leaves it open ----------

  /** A rule for, and a cipher with, an encryption algorithm */
  function ByEncryption(kind: Kind, e: nat): Rule
  {
    Rule(kind, {}, {}, {e}, {}, {}, {}, -1, false)
  }

  function WithEncryption(e: nat): Cipher
  {
    Cipher(e, {0}, {0}, {e}, {}, {}, {}, 128, true)
  }

  /** `[A|B]:-B` */
  function ReopeningString(): seq<Command>
  {
    [Open, Apply(ByEncryption(Add, 0)), Apply(ByEncryption(Add, 1)), Close, Apply(ByEncryption(Del, 1))]
  }

  function TwoCiphers(): seq<Entry>
  {
    [Entry(WithEncryption(0), false, false), Entry(WithEncryption(1), false, false)]
  }

  /** With a '-' after a group, an accepted string can leave the last group open. */
  lemma DelCanReopen()
    ensures ParsedAll(ReopeningString(), TwoCiphers()) ==
      Parser([Entry(WithEncryption(1), false, false), Entry(WithEncryption(0), true, true)], false, true, true, false)
    ensures Accepted(ParsedAll(ReopeningString(), TwoCiphers()))
    ensures !TailClosed(ParsedAll(ReopeningString(), TwoCiphers()).entries)
  {
    var a, b := Entry(WithEncryption(0), false, false), Entry(WithEncryption(1), false, false);
    var a', b' := a.(active := true, inGroup := true), b.(active := true, inGroup := true);
    var addA, addB, delB := ByEncryption(Add, 0), ByEncryption(Add, 1), ByEncryption(Del, 1);
    ReopenRules(a, b, a', b');
    assert ReopeningString() == [Open, Apply(addA), Apply(addB), Close, Apply(delB)] && TwoCiphers() == [a, b];
    assert addA.kind == Add && addB.kind == Add && delB.kind == Del;
    assert addA.strengthBits == addB.strengthBits == delB.strengthBits == -1;
    hide *;
    ReopenRun(a, b, a', b', addA, addB, delB);
    ReopenEnd(Parser([b, a'], false, true, true, false));
  }

  lemma ReopenRun(a: Entry, b: Entry, a': Entry, b': Entry, addA: Rule, addB: Rule, delB: Rule)
    requires addA.kind == Add && addB.kind == Add && delB.kind == Del
    requires addA.strengthBits == addB.strengthBits == delB.strengthBits == -1
    requires Applied(addA.(inGroup := true), [a, b]) == [b, a']
    requires Applied(addB.(inGroup := true), [b, a']) == [a', b']
    requires Ungroup([a', b']) == [a', b'.(inGroup := false)]
    requires Applied(delB.(inGroup := false), [a', b'.(inGroup := false)]) == [b, a']
    ensures ParsedAll([Open, Apply(addA), Apply(addB), Close, Apply(delB)], [a, b]) ==
      Parser([b, a'], false, true, true, false)
  {
    hide *;
    var s := [a, b];
    var c1, c2 := [Open], [Open, Apply(addA)];
    var c3, c4 := c2 + [Apply(addB)], c2 + [Apply(addB), Close];
    ParsedNone([], s);
    ReopenStep([], Open, c1, s, Parser(s, false, false, true, false));
    ReopenStep(c1, Apply(addA), c2, s, Parser(s, true, true, true, false));
    ReopenStep(c2, Apply(addB), c3, s, Parser([b, a'], true, true, true, false));
    ReopenStep(c3, Close, c4, s, Parser([a', b'], true, true, true, false));
    ReopenStep(c4, Apply(delB), [Open, Apply(addA), Apply(addB), Close, Apply(delB)], s,
               Parser([a', b'.(inGroup := false)], false, true, true, false));
  }

  lemma ReopenStep(commands: seq<Command>, c: Command, more: seq<Command>, s: seq<Entry>, p: Parser)
    requires more == commands + [c]
    requires ParsedAll(commands, s) == p && p.ok && !p.stopped
    ensures ParsedAll(more, s) == Parsed(p, c)
    ensures c.Open? && !p.inGroup ==> Parsed(p, c) == p.(inGroup := true, hasGroup := true)
    ensures c.Close? && p.inGroup ==> Parsed(p, c) == p.(entries := Ungroup(p.entries), inGroup := false)
    ensures c.Apply? && c.rule.strengthBits == -1 && (if p.inGroup then c.rule.kind == Add else c.rule.kind == Del) ==>
      Parsed(p, c) == p.(entries := Applied(c.rule.(inGroup := p.inGroup), p.entries))
  {
    hide Applied;
    hide Ungroup;
    assert more[..|commands|] == commands;
  }

  lemma ReopenEnd(p: Parser)
    requires p.ok && !p.inGroup && p.entries != []
    ensures Accepted(p)
    ensures TailClosed(p.entries) <==> !p.entries[|p.entries| - 1].active || !p.entries[|p.entries| - 1].inGroup
  {
  }

  lemma ReopenRules(a: Entry, b: Entry, a': Entry, b': Entry)
    requires a == Entry(WithEncryption(0), false, false) && b == Entry(WithEncryption(1), false, false)
    requires a' == a.(active := true, inGroup := true) && b' == b.(active := true, inGroup := true)
    ensures Applied(ByEncryption(Add, 0).(inGroup := true), [a, b]) == [b, a']
    ensures Applied(ByEncryption(Add, 1).(inGroup := true), [b, a']) == [a', b']
    ensures Ungroup([a', b']) == [a', b'.(inGroup := false)]
    ensures Applied(ByEncryption(Del, 1).(inGroup := false), [a', b'.(inGroup := false)]) == [b, a']
  {
    ByEncryptionMatches();
    AppliedOnTwo(ByEncryption(Add, 0).(inGroup := true), a, b);
    AppliedOnTwo(ByEncryption(Add, 1).(inGroup := true), b, a');
    AppliedOnTwo(ByEncryption(Del, 1).(inGroup := false), a', b'.(inGroup := false));
    assert [a', b'][..1] == [a'];
    hide Applied;
    hide Matches;
  }

  /** In `[A|B]:C:-B` the last '-' merges A with C: A stays open in front of C. */
  lemma DelCanMerge()
    ensures var s := [Entry(WithEncryption(0), true, true), Entry(WithEncryption(1), true, false),
                      Entry(WithEncryption(2), true, false)];
      var r := ByEncryption(Del, 1);
      && Kept(r, s) == [s[0], s[2]] && OneGroup(Kept(r, s), 0, 1) && !OneGroup(s, 0, 2) && !EndsKept(r, s)
  {
    var a, b := Entry(WithEncryption(0), true, true), Entry(WithEncryption(1), true, false);
    var c, r := Entry(WithEncryption(2), true, false), ByEncryption(Del, 1);
    DelSelects(a, b, c);
    assert a.active && a.inGroup && !b.inGroup && c.active;
    hide Selected;
    hide WithEncryption;
    hide ByEncryption;
    MergeAt(r, a, b, c);
  }

  lemma DelSelects(a: Entry, b: Entry, c: Entry)
    requires a.cipher == WithEncryption(0) && b.cipher == WithEncryption(1) && c.cipher == WithEncryption(2)
    requires a.active && b.active && c.active
    ensures var r := ByEncryption(Del, 1); !Selected(r, a) && Selected(r, b) && !Selected(r, c)
  {
    ByEncryptionMatches();
    assert ByEncryption(Del, 1) == ByEncryption(Del, 1).(inGroup := false);
    hide Matches;
  }

  lemma MergeAt(r: Rule, a: Entry, b: Entry, c: Entry)
    requires !Selected(r, a) && Selected(r, b) && !Selected(r, c) && a.active && a.inGroup && !b.inGroup
    ensures var s := [a, b, c];
      Kept(r, s) == [a, c] && OneGroup([a, c], 0, 1) && !OneGroup(s, 0, 2) && !EndsKept(r, s)
  {
    var s := [a, b, c];
    hide Selected;
    OnTwo(r, a, b);
    OnOne(r, c);
    KeptConcat(r, [a, b], [c]);
    assert [a, b] + [c] == s;
    hide Kept;
    assert LastStay(r, s, 0, 1) && Stays(r, s, 2) && !Stays(r, s, 1);
    assert !s[1].inGroup && s[0].inGroup;
  }

  lemma ByEncryptionMatches()
    ensures forall kind, e, e', g :: Matches(ByEncryption(kind, e).(inGroup := g), WithEncryption(e')) <==> e == e'
  {
    forall kind, e: nat, e': nat, g
      ensures Matches(ByEncryption(kind, e).(inGroup := g), WithEncryption(e')) <==> e == e'
    {
      assert e in {e} * {e'} <==> e == e';
      assert {} * EXP_MASK == {} && {} * STRONG_MASK == {};
    }
  }

  lemma AppliedOnTwo(r: Rule, x: Entry, y: Entry)
    requires r.kind != Kill
    ensures Applied(r, [x, y]) ==
      if Selected(r, x) && Selected(r, y) then [Touched(r, x), Touched(r, y)]
      else if Selected(r, x) then (if r.kind == Del then [Touched(r, x), y] else [y, Touched(r, x)])
      else if Selected(r, y) then (if r.kind == Del then [Touched(r, y), x] else [x, Touched(r, y)])
      else [x, y]
  {
    OnTwo(r, x, y);
    hide Selected;
    hide Touched;
    hide Kept;
    hide Moved;
  }

  lemma ParsedStep(commands: seq<Command>, k: nat, s: seq<Entry>)
    requires k < |commands|
    ensures ParsedAll(commands[..k + 1], s) == Parsed(ParsedAll(commands[..k], s), commands[k])
  {
    assert commands[..k + 1][..k] == commands[..k];
  }

  lemma OnTwo(r: Rule, x: Entry, y: Entry)
    ensures Kept(r, [x, y]) == KeptOne(r, x) + KeptOne(r, y)
    ensures Moved(r, [x, y]) == MovedOne(r, x) + MovedOne(r, y)
  {
    OnOne(r, x);
    OnOne(r, y);
    KeptConcat(r, [x], [y]);
    MovedConcat(r, [x], [y]);
    assert [x] + [y] == [x, y];
  }

  // ---------- the preference list ----------

  function Active(s: seq<Entry>): (t: seq<Entry>)
  {
    if s == [] then [] else Active(s[..|s| - 1]) + (if s[|s| - 1].active then [s[|s| - 1]] else [])
  }

  function Flags(s: seq<Entry>): (f: seq<bool>)
    ensures |f| == |s|
    ensures forall i :: 0 <= i < |s| ==> f[i] == s[i].inGroup
  {
    seq(|s|, i requires 0 <= i < |s| => s[i].inGroup)
  }

  /** The last flag of the preference list is 0 exactly when the tail is closed. */
  lemma {:induction false} LastFlag(s: seq<Entry>)
    requires InactiveFirst(s)
    ensures TailClosed(s) <==> Active(s) == [] || !Flags(Active(s))[|Active(s)| - 1]
  {
    if s != [] && !s[|s| - 1].active {
      NoneActive(s);
    }
  }

  lemma {:induction false} NoneActive(s: seq<Entry>)
    requires InactiveFirst(s) && (s != [] ==> !s[|s| - 1].active)
    ensures Active(s) == []
  {
    if s != [] {
      NoneActive(s[..|s| - 1]);
    }
  }

  lemma ActiveStep(s: seq<Entry>, i: nat)
    requires i < |s|
    ensures Ciphers(Active(s[..i + 1])) == Ciphers(Active(s[..i])) + (if s[i].active then [s[i].cipher] else [])
    ensures Flags(Active(s[..i + 1])) == Flags(Active(s[..i])) + (if s[i].active then [s[i].inGroup] else [])
  {
    assert s[..i + 1][..i] == s[..i];
    assert Active(s[..i + 1]) == Active(s[..i]) + (if s[i].active then [s[i]] else []);
    hide Active;
  }

  lemma ActiveNone(s: seq<Entry>)
    ensures Ciphers(Active(s[..0])) == [] && Flags(Active(s[..0])) == []
  {
  }

  /** The ciphers and group flags that `ssl_create_cipher_list` hands out */
  method PreferenceList(list: List) returns (ciphers: seq<Cipher>, inGroupFlags: seq<bool>)
    requires list.Valid()
    ensures ciphers == Ciphers(Active(list.Entries())) && inGroupFlags == Flags(Active(list.Entries()))
  {
    hide *;
    ciphers, inGroupFlags := [], [];
    var curr := list.head;
    ghost var i := 0;
    ScanStart(list);
    ActiveNone(list.Entries());
    while curr != null
      invariant 0 <= i <= |list.nodes| && curr == At(list.nodes, i)
      invariant ciphers == Ciphers(Active(list.Entries()[..i])) && inGroupFlags == Flags(Active(list.Entries()[..i]))
      decreases |list.nodes| - i
    {
      ScanHere(list, i);
      ActiveStep(list.Entries(), i);
      if curr.active {
        ciphers := ciphers + [curr.cipher];
        inGroupFlags := inGroupFlags + [curr.inGroup];
      }
      curr := curr.next;
      i := i + 1;
    }
    ScanEnd(list, i);
  }

  /** `]` */
  method CloseGroup(list: List)
    requires list.Valid()
    modifies list.nodes`inGroup
    ensures list.Valid() && list.Entries() == Ungroup(old(list.Entries()))
  {
    hide Linked;
    hide EntriesOf;
    if list.tail != null {
      LinkedGives(list.nodes, 0);
      list.tail.inGroup := false;
    }
    assert list.Entries() == Ungroup(old(list.Entries()));
  }

  /** A rule, where the parser has found an operator and a name */
  method ApplyFound(list: List, rule: Rule, inGroup: bool)
    requires list.Valid()
    modifies list, list.nodes
    ensures list.Valid() && (forall i :: 0 <= i < |list.nodes| ==> list.nodes[i] in old(list.nodes))
    ensures list.Entries() == Applied(rule.(strengthBits := -1, inGroup := inGroup), old(list.Entries()))
  {
    hide *;
    list.ApplyRule(rule.(strengthBits := -1, inGroup := inGroup));
  }

  /** The cases of `Parsed`, as the code goes through them. */
  lemma ParsedIs(p: Parser, c: Command)
    requires !p.stopped
    ensures Misplaced(p, c) <==>
      if p.inGroup then c.Open? || c.Strength? || c.BadSpecial? || c.Invalid? || KindOf(c) != Add
      else p.hasGroup && (c.Strength? || c.BadSpecial? || KindOf(c) == Kill)
    ensures Misplaced(p, c) ==> Parsed(p, c) == p.(inGroup := false, ok := false, stopped := true)
    ensures p.inGroup && c.Close? ==> Parsed(p, c) == p.(entries := Ungroup(p.entries), inGroup := false)
    ensures !p.inGroup && c.Open? ==> Parsed(p, c) == p.(inGroup := true, hasGroup := true)
    ensures c.Apply? && !Misplaced(p, c) ==>
      Parsed(p, c) == p.(entries := Applied(c.rule.(strengthBits := -1, inGroup := p.inGroup), p.entries))
    ensures c.Unknown? && !Misplaced(p, c) ==> Parsed(p, c) == p
    ensures c.Strength? && !Misplaced(p, c) ==>
      Parsed(p, c) == p.(entries := Sorted(p.entries, MaxStrength(p.entries) + 1))
    ensures (c.Invalid? || c.Broken? || c.BadSpecial?) && !Misplaced(p, c) ==> Parsed(p, c) == p.(inGroup := false, ok := false)
    ensures c.Close? && !p.inGroup ==> Parsed(p, c) == p.(ok := false)
  {
    hide Applied;
    hide Sorted;
    hide Ungroup;
    hide MaxStrength;
  }

  /** One turn of the outer loop of `ssl_cipher_process_rulestr` */
  method ProcessOne(list: List, c: Command, inGroup: bool, hasGroup: bool, retval: bool)
    returns (inGroup': bool, hasGroup': bool, retval': bool, stop: bool)
    requires list.Valid()
    modifies list, list.nodes
    ensures list.Valid() && (forall i :: 0 <= i < |list.nodes| ==> list.nodes[i] in old(list.nodes))
    ensures Parsed(Parser(old(list.Entries()), inGroup, hasGroup, retval, false), c) ==
      Parser(list.Entries(), inGroup', hasGroup', retval', stop)
  {
    hide *;
    ParsedIs(Parser(list.Entries(), inGroup, hasGroup, retval, false), c);
    inGroup', hasGroup', retval', stop := inGroup, hasGroup, retval, false;
    var kind := KindOf(c);
    if inGroup {
      if c.Close? {
        CloseGroup(list);
        return false, hasGroup, retval, false;
      } else if c.Open? || c.Strength? || c.BadSpecial? || c.Invalid? || kind != Add {
        return false, hasGroup, false, true;
      }
    } else if hasGroup && (kind == Kill || c.Strength? || c.BadSpecial?) {
      return false, hasGroup, false, true;
    } else if c.Open? {
      return true, true, retval, false;
    }
    match c
    case Apply(rule) =>
      ApplyFound(list, rule, inGroup);
    case Strength =>
      list.StrengthSort();
    case Unknown(_) =>
    case _ =>
      inGroup', retval' := false, false;
  }

  lemma ParsedNone(commands: seq<Command>, s: seq<Entry>)
    ensures ParsedAll(commands[..0], s) == Parser(s, false, false, true, false)
    ensures commands[..|commands|] == commands
  {
  }

  lemma AcceptedIs(p: Parser)
    ensures Accepted(p) == (p.ok && !p.inGroup)
  {
  }

  lemma {:induction false} StaysStopped(commands: seq<Command>, k: nat, s: seq<Entry>)
    requires k <= |commands| && ParsedAll(commands[..k], s).stopped
    ensures ParsedAll(commands, s) == ParsedAll(commands[..k], s)
  {
    if k == |commands| {
      assert commands[..k] == commands;
    } else {
      assert commands[..|commands| - 1][..k] == commands[..k];
      StaysStopped(commands[..|commands| - 1], k, s);
    }
  }

  /** `ssl_cipher_process_rulestr`, on commands */
  method ProcessRules(list: List, commands: seq<Command>) returns (accepted: bool)
    requires list.Valid()
    modifies list, list.nodes
    ensures list.Valid() && (forall i :: 0 <= i < |list.nodes| ==> list.nodes[i] in old(list.nodes))
    ensures list.Entries() == ParsedAll(commands, old(list.Entries())).entries
    ensures accepted == Accepted(ParsedAll(commands, old(list.Entries())))
  {
    hide *;
    ghost var s := list.Entries();
    ParsedNone(commands, s);
    var inGroup, hasGroup, retval, stop := false, false, true, false;
    var k := 0;
    while k < |commands| && !stop
      invariant 0 <= k <= |commands|
      invariant list.Valid() && (forall i :: 0 <= i < |list.nodes| ==> list.nodes[i] in old(list.nodes))
      invariant ParsedAll(commands[..k], s) == Parser(list.Entries(), inGroup, hasGroup, retval, stop)
    {
      ParsedStep(commands, k, s);
      inGroup, hasGroup, retval, stop := ProcessOne(list, commands[k], inGroup, hasGroup, retval);
      k := k + 1;
    }
    if stop {
      StaysStopped(commands, k, s);
    }
    accepted := retval && !inGroup;
    AcceptedIs(Parser(list.Entries(), inGroup, hasGroup, retval, stop));
  }
}
