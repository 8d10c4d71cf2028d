/**
 What must happen in a TLS handshake, and in which order, before it may be called done
 (sections 7.1, 7.3 and 7.4.9 of RFC 5246), as an automaton over the events of a run.
 */
module HandshakeLog {

  datatype Event =
    | Started           // a handshake begins
    | Expecting         // ssl3_expect_change_cipher_spec succeeded
    | ChangedCipher     // a ChangeCipherSpec was consumed
    | HandshakeBytes    // bytes of a handshake record were handed up or stored
    | FinishedVerified  // ssl3_get_finished succeeded
    | Done              // SSL_CB_HANDSHAKE_DONE

  datatype Phase = Idle | Begun | Awaiting | Changed | Verified | Disorder

  function Next(p: Phase, e: Event): Phase
  {
    match e
    case Started => if p == Idle || p == Begun || p == Changed || p == Verified then Begun else Disorder
    case Expecting => if p == Begun then Awaiting else Disorder
    case ChangedCipher => if p == Awaiting then Changed else Disorder
    case HandshakeBytes => if p == Awaiting then Disorder else p
    case FinishedVerified => if p == Changed then Verified else Disorder
    case Done => if p == Verified then Idle else Disorder
  }

  function PhaseOf(log: seq<Event>): Phase
  {
    if log == [] then Idle
    else
      var p := PhaseOf(log[..|log| - 1]);
      if p == Disorder then Disorder else Next(p, log[|log| - 1])
  }

  lemma PhaseSnoc(log: seq<Event>, e: Event)
    ensures PhaseOf(log + [e]) == if PhaseOf(log) == Disorder then Disorder else Next(PhaseOf(log), e)
  {
    assert (log + [e])[..|log|] == log;
  }

  ghost predicate Ordered(log: seq<Event>)
  {
    PhaseOf(log) != Disorder
  }

  /** The last event of each kind, by index */
  datatype Marks = Marks(start: int, wait: int, change: int, finish: int)

  function MarksOf(log: seq<Event>): Marks
  {
    if log == [] then Marks(-1, -1, -1, -1)
    else
      var m, i := MarksOf(log[..|log| - 1]), |log| - 1;
      match log[i]
      case Started => m.(start := i)
      case Expecting => m.(wait := i)
      case ChangedCipher => m.(change := i)
      case FinishedVerified => m.(finish := i)
      case _ => m
  }

  /** No event of one kind in log[low + 1..], but at index `at` */
  ghost predicate OnlyAt(log: seq<Event>, low: int, e: Event, at: int)
  {
    forall i :: low < i < |log| && 0 <= i && log[i] == e ==> i == at
  }

  ghost predicate IsAt(log: seq<Event>, i: int, e: Event)
  {
    0 <= i < |log| && log[i] == e
  }

  /** What a phase says about the log. */
  ghost predicate Meaning(log: seq<Event>, p: Phase, m: Marks)
  {
    && (p == Begun || p == Awaiting || p == Changed || p == Verified ==>
        && IsAt(log, m.start, Started)
        && OnlyAt(log, m.start, Started, -1)
        && OnlyAt(log, m.start, Expecting, if p == Begun then -1 else m.wait)
        && OnlyAt(log, m.start, ChangedCipher, if p == Changed || p == Verified then m.change else -1)
        && OnlyAt(log, m.start, FinishedVerified, if p == Verified then m.finish else -1))
    && (p == Awaiting || p == Changed || p == Verified ==>
        m.start < m.wait && IsAt(log, m.wait, Expecting))
    && (p == Awaiting ==> OnlyAt(log, m.wait, HandshakeBytes, -1))
    && (p == Changed || p == Verified ==>
        m.wait < m.change && IsAt(log, m.change, ChangedCipher)
        && OnlyAt(log[..m.change], m.wait, HandshakeBytes, -1))
    && (p == Verified ==> m.change < m.finish && IsAt(log, m.finish, FinishedVerified))
  }

  lemma OnlyAtSnoc(log: seq<Event>, low: int, e: Event, at: int, new_: Event)
    requires OnlyAt(log, low, e, at) && (new_ == e ==> at == |log|)
    ensures OnlyAt(log + [new_], low, e, at)
  {
  }

  /** In an ordered log every Done closes a handshake that consumed exactly one ChangeCipherSpec
      after expecting it once, let no handshake bytes through in between, and then verified
      Finished. */
  ghost predicate ProperlyDone(log: seq<Event>, d: nat, m: Marks)
    requires d <= |log|
  {
    && 0 <= m.start < m.wait < m.change < m.finish < d
    && log[m.start] == Started && log[m.wait] == Expecting && log[m.change] == ChangedCipher
    && log[m.finish] == FinishedVerified
    && (forall i :: m.start < i < d ==> log[i] != Started)
    && (forall i :: m.start < i < d && log[i] == Expecting ==> i == m.wait)
    && (forall i :: m.start < i < d && log[i] == ChangedCipher ==> i == m.change)
    && (forall i :: m.start < i < d && log[i] == FinishedVerified ==> i == m.finish)
    && (forall i :: m.wait < i < m.change ==> log[i] != HandshakeBytes)
  }

  /** What stays true of the marks whatever comes next, as long as it is no event of their kind. */
  lemma Extend(log: seq<Event>, m: Marks, e: Event)
    ensures forall i, x :: IsAt(log, i, x) ==> IsAt(log + [e], i, x)
    ensures forall low, x, at :: OnlyAt(log, low, x, at) && (x == e ==> at == |log|) ==> OnlyAt(log + [e], low, x, at)
    ensures 0 <= m.change <= |log| ==> (log + [e])[..m.change] == log[..m.change]
  {
    forall low, x, at | OnlyAt(log, low, x, at) && (x == e ==> at == |log|) ensures OnlyAt(log + [e], low, x, at) {
      OnlyAtSnoc(log, low, x, at, e);
    }
  }

  lemma {:induction false} MarksMean(log: seq<Event>)
    requires Ordered(log)
    ensures Meaning(log, PhaseOf(log), MarksOf(log))
  {
    if log != [] {
      var init, e := log[..|log| - 1], log[|log| - 1];
      MarksMean(init);
      assert log == init + [e];
      Extend(init, MarksOf(init), e);
    }
  }

  lemma {:induction false} OrderedPrefix(log: seq<Event>, n: nat)
    requires Ordered(log) && n <= |log|
    ensures Ordered(log[..n])
  {
    if n == |log| {
      assert log[..n] == log;
    } else {
      assert log[..|log| - 1][..n] == log[..n];
      OrderedPrefix(log[..|log| - 1], n);
    }
  }

  /** The meaning of order, for every Done of a log. */
  lemma DoneIsProper(log: seq<Event>, d: nat)
    requires Ordered(log) && d < |log| && log[d] == Done
    ensures ProperlyDone(log, d, MarksOf(log[..d]))
  {
    OrderedPrefix(log, d);
    OrderedPrefix(log, d + 1);
    assert log[..d + 1] == log[..d] + [Done];
    PhaseSnoc(log[..d], Done);
    MarksMean(log[..d]);
  }
}
