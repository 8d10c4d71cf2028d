/**
 The intrusive doubly linked list of cipher preferences, edited by rules while it is walked
 (ssl/ssl_ciph.c).
 */
module CipherList {
  import opened CipherRules
  import opened CipherSort

  /** CIPHER_ORDER */
  class CipherOrder {
    const cipher: Cipher
    var active: bool
    var inGroup: bool
    var next: CipherOrder?
    var prev: CipherOrder?

    constructor (cipher: Cipher)
      ensures this.cipher == cipher && !active && !inGroup && next == null && prev == null
    {
      this.cipher := cipher;
      active, inGroup, next, prev := false, false, null, null;
    }
  }

  ghost function At(nodes: seq<CipherOrder>, i: int): CipherOrder?
  {
    if 0 <= i < |nodes| then nodes[i] else null
  }

  ghost predicate NoRepeats(nodes: seq<CipherOrder>)
  {
    forall i, j :: 0 <= i < j < |nodes| ==> nodes[i] != nodes[j]
  }

  ghost predicate LinkedAt(nodes: seq<CipherOrder>, i: nat)
    requires i < |nodes|
    reads nodes`next, nodes`prev
  {
    nodes[i].next == At(nodes, i + 1) && nodes[i].prev == At(nodes, i - 1)
  }

  /** `next` and `prev` lead through the nodes in order. */
  ghost predicate Linked(nodes: seq<CipherOrder>)
    reads nodes`next, nodes`prev
  {
    NoRepeats(nodes) && forall i :: 0 <= i < |nodes| ==> LinkedAt(nodes, i)
  }

  lemma LinkedGives(nodes: seq<CipherOrder>, k: nat)
    requires Linked(nodes) && k < |nodes|
    ensures NoRepeats(nodes) && LinkedAt(nodes, k)
  {
  }

  ghost function EntriesOf(nodes: seq<CipherOrder>): (s: seq<Entry>)
    reads nodes`active, nodes`inGroup
    ensures |s| == |nodes|
    ensures forall i :: 0 <= i < |nodes| ==> s[i] == Entry(nodes[i].cipher, nodes[i].active, nodes[i].inGroup)
  {
    if nodes == [] then []
    else
      var n := nodes[|nodes| - 1];
      EntriesOf(nodes[..|nodes| - 1]) + [Entry(n.cipher, n.active, n.inGroup)]
  }

  /** The pointers of the i-th node of a list, once its k-th node was moved to the tail. */
  ghost predicate MovedToTailAt(nodes: seq<CipherOrder>, k: nat, i: nat)
    requires k + 1 < |nodes| && i < |nodes|
    reads nodes
  {
    && nodes[i].next == (if i == k then null else if i == |nodes| - 1 then nodes[k]
                         else At(nodes, if i == k - 1 then i + 2 else i + 1))
    && nodes[i].prev == (if i == k then nodes[|nodes| - 1] else At(nodes, if i == k + 1 then i - 2 else i - 1))
  }

  ghost predicate MovedToTail(nodes: seq<CipherOrder>, k: nat)
    requires k + 1 < |nodes|
    reads nodes
  {
    forall i :: 0 <= i < |nodes| ==> MovedToTailAt(nodes, k, i)
  }

  function ToTail<T>(s: seq<T>, k: nat): (t: seq<T>)
    requires k < |s|
    ensures |t| == |s|
    ensures forall i :: 0 <= i < |s| ==> t[i] == s[if i == |s| - 1 then k else if i < k then i else i + 1]
  {
    Without(s, k) + [s[k]]
  }

  lemma ToTailLinks(nodes: seq<CipherOrder>, k: nat, i: nat)
    requires k + 1 < |nodes| && i < |nodes| && MovedToTail(nodes, k)
    ensures LinkedAt(ToTail(nodes, k), i)
  {
    hide ToTail;
    assert MovedToTailAt(nodes, k, if i == |nodes| - 1 then k else if i < k then i else i + 1);
  }

  lemma ToTailNoRepeats(nodes: seq<CipherOrder>, k: nat)
    requires k < |nodes| && NoRepeats(nodes)
    ensures NoRepeats(ToTail(nodes, k))
  {
    hide ToTail;
  }

  lemma RelinkedAtTail(nodes: seq<CipherOrder>, k: nat)
    requires k + 1 < |nodes| && NoRepeats(nodes) && MovedToTail(nodes, k)
    ensures Linked(ToTail(nodes, k))
  {
    ToTailNoRepeats(nodes, k);
    forall i | 0 <= i < |nodes|
      ensures LinkedAt(ToTail(nodes, k), i)
    {
      ToTailLinks(nodes, k, i);
    }
    hide ToTail;
    hide MovedToTail;
    hide NoRepeats;
    hide LinkedAt;
  }

  /** The same for a move to the head. */
  ghost predicate MovedToHeadAt(nodes: seq<CipherOrder>, k: nat, i: nat)
    requires 0 < k < |nodes| && i < |nodes|
    reads nodes
  {
    && nodes[i].prev == (if i == k then null else if i == 0 then nodes[k]
                         else At(nodes, if i == k + 1 then i - 2 else i - 1))
    && nodes[i].next == (if i == k then nodes[0] else At(nodes, if i == k - 1 then i + 2 else i + 1))
  }

  function ToHead<T>(s: seq<T>, k: nat): (t: seq<T>)
    requires k < |s|
    ensures |t| == |s|
    ensures forall i :: 0 <= i < |s| ==> t[i] == s[if i == 0 then k else if i <= k then i - 1 else i]
  {
    [s[k]] + Without(s, k)
  }

  lemma ToHeadLinks(nodes: seq<CipherOrder>, k: nat, i: nat)
    requires 0 < k < |nodes| && i < |nodes| && (forall j :: 0 <= j < |nodes| ==> MovedToHeadAt(nodes, k, j))
    ensures LinkedAt(ToHead(nodes, k), i)
  {
    hide ToHead;
    assert MovedToHeadAt(nodes, k, if i == 0 then k else if i <= k then i - 1 else i);
  }

  lemma ToHeadNoRepeats(nodes: seq<CipherOrder>, k: nat)
    requires k < |nodes| && NoRepeats(nodes)
    ensures NoRepeats(ToHead(nodes, k))
  {
    hide ToHead;
  }

  lemma RelinkedAtHead(nodes: seq<CipherOrder>, k: nat)
    requires 0 < k < |nodes| && NoRepeats(nodes) && (forall j :: 0 <= j < |nodes| ==> MovedToHeadAt(nodes, k, j))
    ensures Linked(ToHead(nodes, k))
  {
    ToHeadNoRepeats(nodes, k);
    forall i | 0 <= i < |nodes|
      ensures LinkedAt(ToHead(nodes, k), i)
    {
      ToHeadLinks(nodes, k, i);
    }
    hide ToHead;
    hide MovedToHeadAt;
    hide NoRepeats;
    hide LinkedAt;
  }

  /** The same for a removal. */
  ghost predicate RemovedAt(nodes: seq<CipherOrder>, k: nat, i: nat)
    requires k < |nodes| && i < |nodes|
    reads nodes
  {
    i != k ==>
      && nodes[i].next == At(nodes, if i == k - 1 then i + 2 else i + 1)
      && nodes[i].prev == At(nodes, if i == k + 1 then i - 2 else i - 1)
  }

  lemma RemovedLinks(nodes: seq<CipherOrder>, k: nat, i: nat)
    requires k < |nodes| && i + 1 < |nodes| && (forall j :: 0 <= j < |nodes| ==> RemovedAt(nodes, k, j))
    ensures LinkedAt(Without(nodes, k), i)
  {
    assert RemovedAt(nodes, k, if i < k then i else i + 1);
  }

  lemma Relinked(nodes: seq<CipherOrder>, k: nat)
    requires k < |nodes| && NoRepeats(nodes) && (forall j :: 0 <= j < |nodes| ==> RemovedAt(nodes, k, j))
    ensures Linked(Without(nodes, k))
  {
    var t := Without(nodes, k);
    assert NoRepeats(t);
    forall i | 0 <= i < |t| ensures LinkedAt(t, i) {
      RemovedLinks(nodes, k, i);
    }
    hide RemovedAt;
    hide NoRepeats;
    hide LinkedAt;
    hide Without;
  }

  /** The first half of `ssl_cipher_collect_ciphers`: entries that are not linked yet */
  method CollectEntries(table: seq<Cipher>, disabled: Disabled) returns (coList: seq<CipherOrder>)
    ensures fresh(coList) && NoRepeats(coList)
    ensures EntriesOf(coList) == Collected(table, disabled)
  {
    hide Available;
    hide EntriesOf;
    coList := [];
    for i := 0 to |table|
      invariant fresh(coList) && NoRepeats(coList)
      invariant EntriesOf(coList) == Collected(table[..i], disabled)
    {
      ghost var before, s := coList, EntriesOf(coList);
      assert table[..i + 1][..i] == table[..i];
      if Available(table[i], disabled) {
        var c := new CipherOrder(table[i]);
        coList := coList + [c];
        assert EntriesOf(coList) == s + [Entry(table[i], false, false)];
      }
    }
    assert table[..|table|] == table;
  }

  /** The second half: the links */
  method LinkEntries(coList: seq<CipherOrder>)
    requires NoRepeats(coList)
    modifies coList`next, coList`prev
    ensures Linked(coList)
  {
    var n := |coList|;
    if n > 0 {
      coList[0].prev := null;
      if n > 1 {
        coList[0].next := coList[1];
        for i := 1 to n - 1
          invariant forall j :: 0 <= j < i ==> LinkedAt(coList, j)
        {
          LinkOne(coList, i, coList[i - 1], coList[i + 1]);
        }
        LinkOne(coList, n - 1, coList[n - 2], null);
      } else {
        coList[0].next := null;
      }
    }
  }

  method LinkOne(coList: seq<CipherOrder>, i: nat, prev: CipherOrder?, next: CipherOrder?)
    requires i < |coList| && NoRepeats(coList) && prev == At(coList, i - 1) && next == At(coList, i + 1)
    requires forall j :: 0 <= j < i ==> LinkedAt(coList, j)
    modifies coList`next, coList`prev
    ensures forall j :: 0 <= j < i + 1 ==> LinkedAt(coList, j)
  {
    coList[i].prev := prev;
    coList[i].next := next;
    forall j | 0 <= j < i + 1 ensures LinkedAt(coList, j) {
      assert j < i ==> coList[j] != coList[i] && old(LinkedAt(coList, j));
    }
  }

  lemma ChangedFront(s: seq<Entry>, k: nat, t: seq<Entry>)
    requires k < |s| == |t| && (forall i :: 0 < i < |t| ==> t[i] == ToHead(s, k)[i])
    ensures t == [t[0]] + Without(s, k)
  {
    assert forall i :: 0 < i < |t| ==> t[i] == Without(s, k)[i - 1];
  }

  lemma ChangedBack(s: seq<Entry>, k: nat, t: seq<Entry>)
    requires k < |s| == |t| && (forall i :: 0 <= i < |t| - 1 ==> t[i] == ToTail(s, k)[i])
    ensures t == Without(s, k) + [t[|t| - 1]]
  {
    assert forall i :: 0 <= i < |t| - 1 ==> t[i] == Without(s, k)[i];
  }

  class List {
    var head: CipherOrder?
    var tail: CipherOrder?
    /** The nodes on the list, from head to tail. */
    ghost var nodes: seq<CipherOrder>

    ghost predicate Valid()
      reads this, nodes`next, nodes`prev
    {
      Linked(nodes) && head == At(nodes, 0) && tail == At(nodes, |nodes| - 1)
    }

    ghost function Entries(): (s: seq<Entry>)
      reads this, nodes`active, nodes`inGroup
    {
      EntriesOf(nodes)
    }

    /** `ssl_cipher_collect_ciphers` */
    constructor (table: seq<Cipher>, disabled: Disabled)
      ensures Valid() && Entries() == Collected(table, disabled)
      ensures fresh(nodes)
    {
      head, tail, nodes := null, null, [];
      new;
      hide Linked;
      hide Collected;
      hide EntriesOf;
      var coList := CollectEntries(table, disabled);
      var n := |coList|;
      LinkEntries(coList);
      if n > 0 {
        head, tail := coList[0], coList[n - 1];
      }
      nodes := coList;
    }

    /** `ll_append_tail` */
    method AppendTail(curr: CipherOrder, ghost k: nat)
      requires Valid() && k < |nodes| && nodes[k] == curr
      modifies this, nodes`next, nodes`prev
      ensures Valid() && NoRepeats(nodes) && nodes == ToTail(old(nodes), k)
    {
      assert LinkedAt(nodes, k) && LinkedAt(nodes, |nodes| - 1) && LinkedAt(nodes, 0);
      if curr == tail {
        assert nodes == ToTail(nodes, k);
        return;
      }
      assert forall i :: 0 <= i < |nodes| ==> old(LinkedAt(nodes, i));
      if curr == head {
        head := curr.next;
      }
      if curr.prev != null {
        curr.prev.next := curr.next;
      }
      if curr.next != null {
        curr.next.prev := curr.prev;
      }
      tail.next := curr;
      curr.prev := tail;
      curr.next := null;
      tail := curr;
      forall i | 0 <= i < |nodes| ensures MovedToTailAt(nodes, k, i) {
        assert old(LinkedAt(nodes, i));
      }
      RelinkedAtTail(nodes, k);
      nodes := ToTail(nodes, k);
    }

    /** `ll_append_head` */
    method AppendHead(curr: CipherOrder, ghost k: nat)
      requires Valid() && k < |nodes| && nodes[k] == curr
      modifies this, nodes`next, nodes`prev
      ensures Valid() && NoRepeats(nodes) && nodes == ToHead(old(nodes), k)
    {
      assert LinkedAt(nodes, k) && LinkedAt(nodes, |nodes| - 1) && LinkedAt(nodes, 0);
      if curr == head {
        assert nodes == ToHead(nodes, k);
        return;
      }
      assert forall i :: 0 <= i < |nodes| ==> old(LinkedAt(nodes, i));
      if curr == tail {
        tail := curr.prev;
      }
      if curr.next != null {
        curr.next.prev := curr.prev;
      }
      if curr.prev != null {
        curr.prev.next := curr.next;
      }
      head.prev := curr;
      curr.next := head;
      curr.prev := null;
      head := curr;
      forall i | 0 <= i < |nodes| ensures MovedToHeadAt(nodes, k, i) {
        assert old(LinkedAt(nodes, i));
      }
      RelinkedAtHead(nodes, k);
      nodes := ToHead(nodes, k);
    }

    /** The KILL branch of `ssl_cipher_apply_rule` */
    method Remove(curr: CipherOrder, ghost k: nat)
      requires Valid() && k < |nodes| && nodes[k] == curr
      modifies this, nodes`next, nodes`prev, curr`active
      ensures Valid() && nodes == Without(old(nodes), k) && curr !in nodes
    {
      assert LinkedAt(nodes, k) && LinkedAt(nodes, |nodes| - 1) && LinkedAt(nodes, 0);
      assert forall i :: 0 <= i < |nodes| ==> old(LinkedAt(nodes, i));
      if head == curr {
        head := curr.next;
      } else {
        curr.prev.next := curr.next;
      }
      if tail == curr {
        tail := curr.prev;
      }
      curr.active := false;
      if curr.next != null {
        curr.next.prev := curr.prev;
      }
      if curr.prev != null {
        curr.prev.next := curr.next;
      }
      curr.next := null;
      curr.prev := null;
      forall i | 0 <= i < |nodes| ensures RemovedAt(nodes, k, i) {
        assert old(LinkedAt(nodes, i));
      }
      Relinked(nodes, k);
      nodes := Without(nodes, k);
    }

    /** Moves an entry to the tail and sets its flags. */
    method TakeToTail(curr: CipherOrder, inGroup: bool, ghost k: nat)
      requires Valid() && k < |nodes| && nodes[k] == curr
      modifies this, nodes
      ensures Valid() && nodes == ToTail(old(nodes), k)
      ensures Entries() == Without(old(Entries()), k) + [Entry(curr.cipher, true, inGroup)]
    {
      hide Linked;
      hide EntriesOf;
      hide ToHead;
      hide ToTail;
      hide Without;
      AppendTail(curr, k);
      curr.active := true;
      curr.inGroup := inGroup;
      assert nodes[|nodes| - 1] == curr;
      assert forall i :: 0 <= i < |nodes| - 1 ==> Entries()[i] == ToTail(old(Entries()), k)[i];
      ChangedBack(old(Entries()), k, Entries());
    }

    /** Moves an entry to the head and makes it inactive. */
    method TakeToHead(curr: CipherOrder, ghost k: nat)
      requires Valid() && k < |nodes| && nodes[k] == curr
      modifies this, nodes
      ensures Valid() && nodes == ToHead(old(nodes), k)
      ensures Entries() == [Entry(curr.cipher, false, false)] + Without(old(Entries()), k)
    {
      hide Linked;
      hide EntriesOf;
      hide ToHead;
      hide ToTail;
      hide Without;
      AppendHead(curr, k);
      curr.active := false;
      curr.inGroup := false;
      assert nodes[0] == curr;
      assert forall i :: 0 < i < |nodes| ==> Entries()[i] == ToHead(old(Entries()), k)[i];
      ChangedFront(old(Entries()), k, Entries());
    }

    /** One pass through the body of the loop of `ssl_cipher_apply_rule` */
    method Visit(r: Rule, curr: CipherOrder, ghost k: nat)
      requires Valid() && k < |nodes| && nodes[k] == curr
      modifies this, nodes
      ensures Valid() && Entries() == Visited(r, old(Entries()), k)
      ensures nodes == RelocatedBy(r, old(nodes), k, Selected(r, old(Entries())[k]))
    {
      hide Linked;
      hide Matches;
      hide EntriesOf;
      if !Matches(r, curr.cipher) {
        return;
      }
      match r.kind
      case Add =>
        if !curr.active {
          TakeToTail(curr, r.inGroup, k);
        }
      case Ord =>
        if curr.active {
          TakeToTail(curr, false, k);
        }
      case Del =>
        if curr.active {
          TakeToHead(curr, k);
        }
      case Kill =>
        Remove(curr, k);
        assert Entries() == Without(old(Entries()), k);
    }

    /** `ssl_cipher_apply_rule` */
    method ApplyRule(r: Rule)
      requires Valid()
      modifies this, nodes
      ensures Valid() && Entries() == Applied(r, old(Entries()))
      ensures forall i :: 0 <= i < |nodes| ==> nodes[i] in old(nodes)
    {
      hide *;
      ghost var before, done := Entries(), 0;
      var reverse := r.kind == Del;
      var next, last := if reverse then tail else head, if reverse then head else tail;
      var curr: CipherOrder? := null;
      WalkStart(this, r);
      while curr != last
        invariant Valid() && (forall i :: 0 <= i < |nodes| ==> nodes[i] in old(nodes))
        invariant 0 <= done <= |before|
        invariant Entries() == Progress(r, before, done)
        invariant done < |before| ==> curr != last
        invariant done < |before| ==> next == At(nodes, Cursor(r, before, done))
        invariant done < |before| ==> last == At(nodes, LastCursor(r, before, done))
        invariant done == |before| ==> curr == last
        decreases |before| - done
      {
        ghost var k := Cursor(r, before, done);
        WalkHere(this, r, before, done);
        curr := next;
        next := if reverse then curr.prev else curr.next;
        VisitProgress(r, before, done);
        WalkStep(r, before, nodes, done);
        Visit(r, curr, k);
        done := done + 1;
      }
      ProgressEnds(r, before);
    }

    /** The strongest active entry */
    method MaxActiveStrength() returns (maxStrengthBits: nat)
      requires Valid()
      ensures maxStrengthBits == MaxStrength(Entries())
    {
      hide *;
      maxStrengthBits := 0;
      var curr := head;
      ghost var i := 0;
      ScanStart(this);
      while curr != null
        invariant 0 <= i <= |nodes| && curr == At(nodes, i)
        invariant maxStrengthBits == MaxStrength(Entries()[..i])
        decreases |nodes| - i
      {
        ScanHere(this, i);
        OneMore(Entries(), i);
        if curr.active && curr.cipher.strengthBits > maxStrengthBits {
          maxStrengthBits := curr.cipher.strengthBits;
        }
        curr := curr.next;
        i := i + 1;
      }
      ScanEnd(this, i);
    }

    /** How many active entries have each strength */
    method CountUses(maxStrengthBits: nat) returns (numberUses: array<nat>)
      requires Valid() && maxStrengthBits == MaxStrength(Entries())
      ensures fresh(numberUses) && numberUses.Length == maxStrengthBits + 1
      ensures forall b :: 0 <= b <= maxStrengthBits ==> numberUses[b] == Uses(Entries(), b)
    {
      hide *;
      numberUses := new nat[maxStrengthBits + 1](_ => 0);
      var curr := head;
      ghost var i := 0;
      ScanStart(this);
      while curr != null
        invariant 0 <= i <= |nodes| && curr == At(nodes, i)
        invariant forall b :: 0 <= b <= maxStrengthBits ==> numberUses[b] == Uses(Entries()[..i], b)
        decreases |nodes| - i
      {
        ScanHere(this, i);
        OneMore(Entries(), i);
        StrengthInRange(Entries(), i);
        if curr.active {
          numberUses[curr.cipher.strengthBits] := numberUses[curr.cipher.strengthBits] + 1;
        }
        curr := curr.next;
        i := i + 1;
      }
      ScanEnd(this, i);
    }

    /** One round of the last loop of `ssl_cipher_strength_sort` */
    method SortOne(i: nat, uses: nat, ghost before: seq<Entry>, ghost high: nat)
      requires Valid() && i < high && uses == Uses(before, i)
      requires Entries() == NotYet(before, i + 1) + Descending(before, high, i + 1)
      modifies this, nodes
      ensures Valid() && Entries() == NotYet(before, i) + Descending(before, high, i)
      ensures forall k :: 0 <= k < |nodes| ==> nodes[k] in old(nodes)
    {
      SortRound(before, high, i);
      hide *;
      if uses > 0 {
        ApplyRule(OrdRule(i));
      }
    }

    /** The last loop of `ssl_cipher_strength_sort` */
    method SortDown(max: nat, numberUses: array<nat>, ghost before: seq<Entry>)
      requires Valid() && numberUses.Length == max + 1
      requires forall b :: 0 <= b <= max ==> numberUses[b] == Uses(before, b)
      requires Entries() == NotYet(before, max + 1) + Descending(before, max + 1, max + 1)
      modifies this, nodes
      ensures Valid() && Entries() == NotYet(before, 0) + Descending(before, max + 1, 0)
      ensures forall i :: 0 <= i < |nodes| ==> nodes[i] in old(nodes)
    {
      hide *;
      var i := max + 1;
      while i > 0
        invariant 0 <= i <= max + 1
        invariant Valid() && (forall k :: 0 <= k < |nodes| ==> nodes[k] in old(nodes))
        invariant Entries() == NotYet(before, i) + Descending(before, max + 1, i)
      {
        i := i - 1;
        SortOne(i, numberUses[i], before, max + 1);
      }
    }

    /** `ssl_cipher_strength_sort` */
    method StrengthSort()
      requires Valid()
      modifies this, nodes
      ensures Valid() && Entries() == Sorted(old(Entries()), MaxStrength(old(Entries())) + 1)
      ensures forall i :: 0 <= i < |nodes| ==> nodes[i] in old(nodes)
    {
      hide *;
      ghost var before := Entries();
      var max := MaxActiveStrength();
      SortStarts(before, max);
      var numberUses := CountUses(max);
      SortDown(max, numberUses, before);
    }
  }

  lemma SortStarts(s: seq<Entry>, max: nat)
    requires max == MaxStrength(s)
    ensures s == NotYet(s, max + 1) + Descending(s, max + 1, max + 1)
    ensures Sorted(s, max + 1) == NotYet(s, 0) + Descending(s, max + 1, 0)
  {
    MaxStrengthBounds(s);
    NothingSortedYet(s, max + 1);
  }

  lemma ScanStart(list: List)
    requires list.Valid()
    ensures list.head == At(list.nodes, 0) && |list.Entries()| == |list.nodes|
    ensures MaxStrength(list.Entries()[..0]) == 0 && forall b: nat :: Uses(list.Entries()[..0], b) == 0
  {
  }

  lemma ScanHere(list: List, i: nat)
    requires list.Valid() && At(list.nodes, i) != null
    ensures i < |list.nodes| == |list.Entries()| && At(list.nodes, i) == list.nodes[i]
    ensures list.nodes[i].next == At(list.nodes, i + 1)
    ensures list.Entries()[i] == Entry(list.nodes[i].cipher, list.nodes[i].active, list.nodes[i].inGroup)
  {
    hide EntriesOf;
    assert LinkedAt(list.nodes, i);
  }

  lemma ScanEnd(list: List, i: nat)
    requires i <= |list.nodes| && At(list.nodes, i) == null
    ensures i == |list.nodes| && |list.Entries()| == i && list.Entries()[..i] == list.Entries()
  {
    hide EntriesOf;
  }

  lemma StrengthInRange(s: seq<Entry>, i: nat)
    requires i < |s|
    ensures s[i].active ==> s[i].cipher.strengthBits <= MaxStrength(s)
  {
    MaxStrengthBounds(s);
    assert s[i] in s;
  }

  /** Where a walk starts. */
  lemma WalkStart(list: List, r: Rule)
    requires list.Valid()
    ensures Progress(r, list.Entries(), 0) == list.Entries()
    ensures list.Entries() != [] ==>
      && list.head != null && list.tail != null
      && (if r.kind == Del then list.tail else list.head) == At(list.nodes, Cursor(r, list.Entries(), 0))
      && (if r.kind == Del then list.head else list.tail) == At(list.nodes, LastCursor(r, list.Entries(), 0))
    ensures list.Entries() == [] ==> list.head == null && list.tail == null
  {
    hide Linked;
    hide EntriesOf;
    ProgressEnds(r, list.Entries());
  }

  /** A walk stands on a node of the list. */
  lemma WalkHere(list: List, r: Rule, s: seq<Entry>, done: nat)
    requires list.Valid() && done < |s| && list.Entries() == Progress(r, s, done)
    ensures var k := Cursor(r, s, done);
      && 0 <= k < |list.nodes| && At(list.nodes, k) == list.nodes[k]
      && list.nodes[k].next == At(list.nodes, k + 1) && list.nodes[k].prev == At(list.nodes, k - 1)
    ensures |list.nodes| == |Progress(r, s, done)| && NoRepeats(list.nodes)
    ensures 0 <= LastCursor(r, s, done) < |list.nodes|
    ensures At(list.nodes, LastCursor(r, s, done)) == list.nodes[LastCursor(r, s, done)]
  {
    hide Cursor;
    hide LastCursor;
    hide Progress;
    hide EntriesOf;
    CursorInRange(r, s, done);
    LinkedGives(list.nodes, Cursor(r, s, done));
    assert LinkedAt(list.nodes, Cursor(r, s, done));
  }

  /** The nodes that `next` and `last` point to keep their places in the walk. */
  lemma WalkStep(r: Rule, s: seq<Entry>, nodes: seq<CipherOrder>, done: nat)
    requires done < |s| && |nodes| == |Progress(r, s, done)| && NoRepeats(nodes)
    ensures 0 <= Cursor(r, s, done) < |nodes| && 0 <= LastCursor(r, s, done) < |nodes|
    ensures var k, last := Cursor(r, s, done), LastCursor(r, s, done);
      var t := RelocatedBy(r, nodes, k, Selected(r, Progress(r, s, done)[k]));
      && (done + 1 < |s| ==>
        && nodes[k] != nodes[last]
        && At(t, Cursor(r, s, done + 1)) == At(nodes, if r.kind == Del then k - 1 else k + 1)
        && At(t, LastCursor(r, s, done + 1)) == nodes[last])
      && (done + 1 == |s| ==> nodes[k] == nodes[last])
  {
    CursorInRange(r, s, done);
    if done + 1 < |s| {
      CursorStep(r, s, done);
    }
    hide Cursor;
    hide LastCursor;
    hide Progress;
    hide Selected;
  }

  function RelocatedBy<T>(r: Rule, s: seq<T>, k: nat, selected: bool): (t: seq<T>)
    requires k < |s|
    ensures forall i :: 0 <= i < |t| ==> t[i] in s
  {
    if !selected then s
    else match r.kind
      case Kill => Without(s, k)
      case Del => ToHead(s, k)
      case _ => ToTail(s, k)
  }

  /** The whole preparation of a list: any rules, in order, on the available ciphers. What is on
      the list is what the rules say, and no active cipher precedes an inactive one. */
  method Prepare(table: seq<Cipher>, disabled: Disabled, rules: seq<Rule>) returns (list: List)
    ensures fresh(list) && fresh(list.nodes) && list.Valid()
    ensures list.Entries() == AppliedAll(rules, Collected(table, disabled))
    ensures InactiveFirst(list.Entries())
  {
    hide Linked;
    hide EntriesOf;
    hide Applied;
    hide Collected;
    hide InactiveFirst;
    list := new List(table, disabled);
    for i := 0 to |rules|
      invariant fresh(list) && fresh(list.nodes) && list.Valid()
      invariant list.Entries() == AppliedAll(rules[..i], Collected(table, disabled))
    {
      assert rules[..i + 1][..i] == rules[..i];
      list.ApplyRule(rules[i]);
    }
    assert rules[..|rules|] == rules;
    CollectedInactive(table, disabled);
    RulesKeepInactiveFirst(rules, Collected(table, disabled));
  }
}
