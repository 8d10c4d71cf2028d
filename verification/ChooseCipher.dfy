/**
 The server's choice of a cipher (ssl/s3_lib.c, `ssl3_choose_cipher`) over groups of equal
 preference.
 */
module ChooseCipher {
  import opened CipherRules
  import opened CipherGroups
  import CipherList

  datatype Option<T> = None | Some(value: T)

  /** SSL_kEECDH, SSL_aPSK and SSL_TLSV1_2, as bit positions */
  const K_EECDH: nat := 2
  const A_PSK: nat := 3
  const TLS_V1_2: nat := 2

  /** What the connection and its certificates allow. */
  datatype Config = Config(
    tls12Ciphers: bool,
    pskCallback: bool,
    maskK: Cipher -> set<nat>,    // ssl_set_cert_masks
    maskA: Cipher -> set<nat>,
    ecTmpKey: nat -> bool)        // tls1_check_ec_tmp_key

  predicate Usable(cfg: Config, c: Cipher)
  {
    && (TLS_V1_2 in c.ssl ==> cfg.tls12Ciphers)
    && (A_PSK in c.auth ==> cfg.pskCallback)
    && c.mkey * cfg.maskK(c) != {} && c.auth * cfg.maskA(c) != {}
    && (K_EECDH in c.mkey ==> cfg.ecTmpKey(c.id))
  }

  /** A cipher that both sides have and this side can use. */
  predicate Shared(cfg: Config, allow: seq<Cipher>, c: Cipher)
  {
    Usable(cfg, c) && c in allow
  }

  /** The first index of a member (`sk_find` by pointer) */
  method Find(s: seq<Cipher>, c: Cipher) returns (index: Option<nat>)
    ensures index.None? <==> c !in s
    ensures index.Some? ==> index.value < |s| && s[index.value] == c && c !in s[..index.value]
  {
    var i := 0;
    while i < |s|
      invariant 0 <= i <= |s| && c !in s[..i]
    {
      if s[i] == c {
        return Some(i);
      }
      i := i + 1;
    }
    return None;
  }

  /** Indices first..last form the rest of one group of `prio` (from its first shared cipher on):
      every flag but the last is 1. A list without flags has groups of one. */
  ghost predicate RestOfGroup(flags: Option<seq<bool>>, first: nat, last: nat)
  {
    match flags
    case None => first == last
    case Some(f) => first <= last < |f| && !f[last] && forall k :: first <= k < last ==> f[k]
  }

  ghost predicate FirstShared(cfg: Config, prio: seq<Cipher>, allow: seq<Cipher>, i: nat)
  {
    i < |prio| && Shared(cfg, allow, prio[i]) && forall k :: 0 <= k < i ==> !Shared(cfg, allow, prio[k])
  }

  /** No cipher of prio[first..last] that is shared stands before index m of `allow`. */
  ghost predicate NoneBefore(cfg: Config, prio: seq<Cipher>, allow: seq<Cipher>, first: nat, last: nat, m: nat)
    requires m <= |allow|
  {
    forall k :: first <= k < last && k < |prio| && Usable(cfg, prio[k]) ==> prio[k] !in allow[..m]
  }

  /** m is the least index in `allow` of a shared cipher of prio[first..last]. */
  ghost predicate LeastIndex(cfg: Config, prio: seq<Cipher>, allow: seq<Cipher>, first: nat, last: nat, m: nat)
  {
    && m < |allow| && NoneBefore(cfg, prio, allow, first, last, m)
    && exists k :: first <= k < last && k < |prio| && Usable(cfg, prio[k]) && prio[k] == allow[m]
  }

  lemma LeastGrows(cfg: Config, prio: seq<Cipher>, allow: seq<Cipher>, first: nat, i: nat, m: nat, index: Option<nat>)
    requires first <= i < |prio| && LeastIndex(cfg, prio, allow, first, i, m)
    requires index.None? ==> !Shared(cfg, allow, prio[i])
    requires index.Some? ==>
      Usable(cfg, prio[i]) && index.value < |allow| && allow[index.value] == prio[i] && prio[i] !in allow[..index.value]
    ensures LeastIndex(cfg, prio, allow, first, i + 1,
              if index.Some? && m > index.value then index.value else m)
  {
    hide Usable;
    var k :| first <= k < i && Usable(cfg, prio[k]) && prio[k] == allow[m];
    var m' := if index.Some? && m > index.value then index.value else m;
    assert allow[..m'] == allow[..m][..m'];
    assert index.Some? ==> (m' <= index.value && allow[..m'] == allow[..index.value][..m']);
    if m' == m {
      assert k < i + 1;
    } else {
      assert i < i + 1 && prio[i] == allow[m'];
    }
  }

  lemma LeastStarts(cfg: Config, prio: seq<Cipher>, allow: seq<Cipher>, i: nat, m: nat)
    requires i < |prio| && m < |allow| && Usable(cfg, prio[i]) && allow[m] == prio[i] && prio[i] !in allow[..m]
    ensures LeastIndex(cfg, prio, allow, i, i + 1, m)
  {
    hide Usable;
    assert i < i + 1;
  }

  /** c stands at index m of `allow`, the least of the group of the first shared cipher. */
  ghost predicate ChosenAt(
    cfg: Config, prio: seq<Cipher>, flags: Option<seq<bool>>, allow: seq<Cipher>, c: Cipher,
    first: nat, last: nat, m: nat)
  {
    && FirstShared(cfg, prio, allow, first) && RestOfGroup(flags, first, last)
    && LeastIndex(cfg, prio, allow, first, last + 1, m) && c == allow[m]
  }

  /** What the choice must be: the cipher most preferred in `allow` among the shared ones of the
      first group of `prio` that has any; none only if nothing is shared, or if that group has
      no end. */
  ghost predicate RightChoice(
    cfg: Config, prio: seq<Cipher>, flags: Option<seq<bool>>, allow: seq<Cipher>, ret: Option<Cipher>)
  {
    match ret
    case Some(c) =>
      exists first: nat, last: nat, m: nat :: ChosenAt(cfg, prio, flags, allow, c, first, last, m)
    case None =>
      || (forall k :: 0 <= k < |prio| ==> !Shared(cfg, allow, prio[k]))
      || exists first: nat :: FirstShared(cfg, prio, allow, first) && OpenEnd(flags, first)
  }

  /** A group that never ends: every flag from here on is 1. */
  ghost predicate OpenEnd(flags: Option<seq<bool>>, first: nat)
  {
    flags.Some? && forall k :: first <= k < |flags.value| ==> flags.value[k]
  }

  /** `ssl3_choose_cipher`, once it is settled whose preference counts */
  method Choose(cfg: Config, prio: seq<Cipher>, inGroupFlags: Option<seq<bool>>, allow: seq<Cipher>)
    returns (ret: Option<Cipher>)
    requires inGroupFlags.Some? ==> |inGroupFlags.value| == |prio|
    ensures RightChoice(cfg, prio, inGroupFlags, allow, ret)
  {
    hide Usable;
    hide LeastIndex;
    var groupMin: int := -1;
    ghost var first: nat := 0;
    var i := 0;
    while i < |prio|
      invariant 0 <= i <= |prio|
      invariant groupMin == -1 ==> forall k :: 0 <= k < i ==> !Shared(cfg, allow, prio[k])
      invariant groupMin != -1 ==>
        && groupMin >= 0 && first < i && FirstShared(cfg, prio, allow, first)
        && LeastIndex(cfg, prio, allow, first, i, groupMin)
        && inGroupFlags.Some? && forall k :: first <= k < i ==> inGroupFlags.value[k]
    {
      var c := prio[i];
      var ok := Usable(cfg, c);
      var cipherIndex := Option<nat>.None;
      if ok {
        cipherIndex := Find(allow, c);
      }
      if groupMin != -1 {
        LeastGrows(cfg, prio, allow, first, i, groupMin, cipherIndex);
      } else if cipherIndex.Some? {
        first := i;
        LeastStarts(cfg, prio, allow, i, cipherIndex.value);
      }
      if cipherIndex.Some? {
        if inGroupFlags.Some? && inGroupFlags.value[i] {
          if groupMin == -1 || groupMin > cipherIndex.value {
            groupMin := cipherIndex.value;
          }
        } else {
          var index := cipherIndex.value;
          if groupMin != -1 && groupMin < index {
            index := groupMin;
          }
          assert RestOfGroup(inGroupFlags, first, i);
          assert LeastIndex(cfg, prio, allow, first, i + 1, index);
          LeastInRange(cfg, prio, allow, first, i + 1, index);
          assert ChosenAt(cfg, prio, inGroupFlags, allow, allow[index], first, i, index);
          return Some(allow[index]);
        }
      }
      if inGroupFlags.Some? && !inGroupFlags.value[i] && groupMin != -1 {
        assert RestOfGroup(inGroupFlags, first, i);
        assert LeastIndex(cfg, prio, allow, first, i + 1, groupMin);
        LeastInRange(cfg, prio, allow, first, i + 1, groupMin);
        assert ChosenAt(cfg, prio, inGroupFlags, allow, allow[groupMin], first, i, groupMin);
        return Some(allow[groupMin]);
      }
      i := i + 1;
    }
    assert groupMin != -1 ==> OpenEnd(inGroupFlags, first);
    return None;
  }

  lemma LeastInRange(cfg: Config, prio: seq<Cipher>, allow: seq<Cipher>, first: nat, last: nat, m: nat)
    requires LeastIndex(cfg, prio, allow, first, last, m)
    ensures m < |allow|
  {
  }

  /** There is no choice exactly when nothing is shared or the group of the first shared cipher
      has no end. */
  lemma NoneExactly(
    cfg: Config, prio: seq<Cipher>, flags: Option<seq<bool>>, allow: seq<Cipher>, ret: Option<Cipher>)
    requires RightChoice(cfg, prio, flags, allow, ret)
    ensures ret.None? <==>
      || (forall k :: 0 <= k < |prio| ==> !Shared(cfg, allow, prio[k]))
      || exists first: nat :: FirstShared(cfg, prio, allow, first) && OpenEnd(flags, first)
  {
    if ret.Some? {
      var first: nat, last: nat, m: nat :| ChosenAt(cfg, prio, flags, allow, ret.value, first, last, m);
      forall f: nat | FirstShared(cfg, prio, allow, f) ensures f == first && !OpenEnd(flags, f) {
      }
    }
  }

  /** The rules leave exactly one right choice. */
  lemma ChoiceIsDetermined(
    cfg: Config, prio: seq<Cipher>, flags: Option<seq<bool>>, allow: seq<Cipher>,
    ret: Option<Cipher>, other: Option<Cipher>)
    requires RightChoice(cfg, prio, flags, allow, ret) && RightChoice(cfg, prio, flags, allow, other)
    ensures ret == other
  {
    NoneExactly(cfg, prio, flags, allow, ret);
    NoneExactly(cfg, prio, flags, allow, other);
    if ret.Some? && other.Some? {
      hide Usable;
      hide FirstShared;
      hide LeastIndex;
      hide RestOfGroup;
      hide ChosenAt;
      var f: nat, e: nat, m: nat :| ChosenAt(cfg, prio, flags, allow, ret.value, f, e, m);
      var f': nat, e': nat, m': nat :| ChosenAt(cfg, prio, flags, allow, other.value, f', e', m');
      ChosenIsUnique(cfg, prio, flags, allow, ret.value, f, e, m, other.value, f', e', m');
    }
  }

  lemma ChosenIsUnique(
    cfg: Config, prio: seq<Cipher>, flags: Option<seq<bool>>, allow: seq<Cipher>,
    c: Cipher, f: nat, e: nat, m: nat, c': Cipher, f': nat, e': nat, m': nat)
    requires ChosenAt(cfg, prio, flags, allow, c, f, e, m) && ChosenAt(cfg, prio, flags, allow, c', f', e', m')
    ensures c == c'
  {
    hide FirstShared;
    hide LeastIndex;
    hide RestOfGroup;
    FirstSharedIsUnique(cfg, prio, allow, f, f');
    RestOfGroupIsUnique(flags, f, e, e');
    LeastIsUnique(cfg, prio, allow, f, e + 1, m, m');
  }

  lemma FirstSharedIsUnique(cfg: Config, prio: seq<Cipher>, allow: seq<Cipher>, i: nat, j: nat)
    requires FirstShared(cfg, prio, allow, i) && FirstShared(cfg, prio, allow, j)
    ensures i == j
  {
    hide Shared;
  }

  lemma RestOfGroupIsUnique(flags: Option<seq<bool>>, first: nat, i: nat, j: nat)
    requires RestOfGroup(flags, first, i) && RestOfGroup(flags, first, j)
    ensures i == j
  {
  }

  lemma LeastIsUnique(cfg: Config, prio: seq<Cipher>, allow: seq<Cipher>, first: nat, last: nat, m: nat, n: nat)
    requires LeastIndex(cfg, prio, allow, first, last, m) && LeastIndex(cfg, prio, allow, first, last, n)
    ensures m == n
  {
    hide Usable;
    InPrefix(allow, m, n);
    InPrefix(allow, n, m);
  }

  lemma InPrefix(s: seq<Cipher>, i: nat, n: nat)
    requires i < |s| && n <= |s|
    ensures i < n ==> s[i] in s[..n]
  {
    if i < n {
      assert s[..n][i] == s[i];
    }
  }

  /** With the last flag 0, a shared cipher is always found. */
  lemma ClosedFindsShared(
    cfg: Config, prio: seq<Cipher>, flags: seq<bool>, allow: seq<Cipher>, ret: Option<Cipher>)
    requires |flags| == |prio| && (prio != [] ==> !flags[|flags| - 1])
    requires RightChoice(cfg, prio, Some(flags), allow, ret)
    ensures ret.None? <==> forall k :: 0 <= k < |prio| ==> !Shared(cfg, allow, prio[k])
  {
    NoneExactly(cfg, prio, Some(flags), allow, ret);
    hide Usable;
    hide LeastIndex;
  }

  /** `ssl3_choose_cipher` */
  method ChooseCipher(cfg: Config, clnt: seq<Cipher>, srvr: seq<Cipher>, inGroupFlags: seq<bool>, serverPreference: bool)
    returns (ret: Option<Cipher>)
    requires |inGroupFlags| == |srvr|
    ensures serverPreference ==> RightChoice(cfg, srvr, Some(inGroupFlags), clnt, ret)
    ensures !serverPreference ==> RightChoice(cfg, clnt, None, srvr, ret)
  {
    hide RightChoice;
    if serverPreference {
      ret := Choose(cfg, srvr, Some(inGroupFlags), clnt);
    } else {
      ret := Choose(cfg, clnt, None, srvr);
    }
  }

  /** By the client's preference the choice is its first shared cipher. */
  lemma ClientPreference(cfg: Config, clnt: seq<Cipher>, srvr: seq<Cipher>, ret: Option<Cipher>)
    requires RightChoice(cfg, clnt, None, srvr, ret)
    ensures ret.None? <==> forall k :: 0 <= k < |clnt| ==> !Shared(cfg, srvr, clnt[k])
    ensures ret.Some? ==> exists first: nat :: FirstShared(cfg, clnt, srvr, first) && ret.value == clnt[first]
  {
    NoneExactly(cfg, clnt, None, srvr, ret);
    hide Usable;
    if ret.Some? {
      var first: nat, last: nat, m: nat :| ChosenAt(cfg, clnt, None, srvr, ret.value, first, last, m);
      assert ret.value == clnt[first];
    }
  }

  /** From a cipher string to a choice: what is accepted, the ciphers handed out and the choice are
      those of the string; no shared cipher is missed if every '-' that leaves a group open at the
      end is followed by a command that closes the list again, so in particular if none follows a
      group. */
  method ServerChoice(
    cfg: Config, table: seq<Cipher>, disabled: Disabled, rules: seq<Rule>, commands: seq<Command>, clnt: seq<Cipher>)
    returns (accepted: bool, srvr: seq<Cipher>, ret: Option<Cipher>)
    requires forall r :: r in rules ==> !r.inGroup
    ensures var s := AppliedAll(rules, Collected(table, disabled));
      var p := ParsedAll(commands, s);
      && accepted == Accepted(p)
      && (if !accepted then srvr == [] && ret == None else
            && srvr == Ciphers(Active(p.entries))
            && RightChoice(cfg, srvr, Some(Flags(Active(p.entries))), clnt, ret)
            && (AllReclosed(commands, s) || NoDelAfterGroup(commands) ==>
                  (ret.None? <==> forall k :: 0 <= k < |srvr| ==> !Shared(cfg, clnt, srvr[k]))))
  {
    hide *;
    var list := CipherList.Prepare(table, disabled, rules);
    ghost var s := list.Entries();
    PreparedNoGroups(table, disabled, rules);
    accepted := ProcessRules(list, commands);
    if !accepted {
      return false, [], None;
    }
    ghost var p := ParsedAll(commands, s);
    ClosedExactly(commands, s);
    if NoDelAfterGroup(commands) {
      AcceptedIsClosed(commands, s);
    }
    var flags;
    srvr, flags := PreferenceList(list);
    InvIsOrdered(p);
    LastFlag(p.entries);
    ret := Choose(cfg, srvr, Some(flags), clnt);
    if TailClosed(p.entries) {
      ClosedFindsShared(cfg, srvr, flags, clnt, ret);
    }
  }

  lemma InvIsOrdered(p: Parser)
    requires ParserInv(p)
    ensures InactiveFirst(p.entries)
  {
  }

  /** Where the last group is open a shared cipher is missed: after `[A|B]:-B` the server offers A,
      and to a client that asks for A, which the server can use, it answers that nothing is shared. */
  lemma SharedIsMissed(ret: Option<Cipher>)
    requires var t := Active(ParsedAll(ReopeningString(), TwoCiphers()).entries);
      RightChoice(AllAllowed(), Ciphers(t), Some(Flags(t)), [WithEncryption(0)], ret)
    ensures var t := Active(ParsedAll(ReopeningString(), TwoCiphers()).entries);
      Ciphers(t) == [WithEncryption(0)] && Shared(AllAllowed(), [WithEncryption(0)], WithEncryption(0)) && ret == None
  {
    DelCanReopen();
    var a, b := Entry(WithEncryption(0), true, true), Entry(WithEncryption(1), false, false);
    assert ParsedAll(ReopeningString(), TwoCiphers()).entries == [b, a];
    hide ParsedAll;
    assert Active([b, a]) == [a] by {
      assert [b, a][..1] == [b] && [b][..0] == [];
    }
    var cfg, c := AllAllowed(), WithEncryption(0);
    assert Ciphers([a]) == [c] && Flags([a]) == [true];
    assert 0 in c.mkey * cfg.maskK(c) && 0 in c.auth * cfg.maskA(c);
    assert Shared(cfg, [c], c);
    NoneExactly(cfg, [c], Some([true]), [c], ret);
    assert FirstShared(cfg, [c], [c], 0) && OpenEnd(Some([true]), 0);
  }

  /** A configuration that allows every cipher above */
  function AllAllowed(): Config
  {
    Config(true, true, _ => {0}, _ => {0}, _ => true)
  }

  lemma {:induction false} PreparedNoGroups(table: seq<Cipher>, disabled: Disabled, rules: seq<Rule>)
    requires forall r :: r in rules ==> !r.inGroup
    ensures NoGroups(AppliedAll(rules, Collected(table, disabled)))
  {
    if rules == [] {
      CollectedNoGroups(table, disabled);
    } else {
      PreparedNoGroups(table, disabled, rules[..|rules| - 1]);
      RuleKeepsNoGroups(rules[|rules| - 1], AppliedAll(rules[..|rules| - 1], Collected(table, disabled)));
    }
  }

  lemma {:induction false} CollectedNoGroups(table: seq<Cipher>, disabled: Disabled)
    ensures NoGroups(Collected(table, disabled))
  {
    if table != [] {
      CollectedNoGroups(table[..|table| - 1], disabled);
    }
  }
}
