/**
 When HANDSHAKE_DONE is earned. It is in every run, but for renegotiations in the window of a
 cut-through handshake: SSL_in_init is false there (`SSL_cutthrough_complete`), so
 `ssl3_renegotiate_check` starts one, and the flag that a ChangeCipherSpec is expected survives. The
 handshake that begins can then consume two of them before it is done: exactly if the first one can
 still arrive.
 */
module CutThroughWindow {
  import opened HandshakeLog
  import opened TlsHandshake
  import opened Bytes

  function Message(): Record
  {
    Record(Handshake, 4, true, true, Warning, false)
  }

  function CcsRecord(): Record
  {
    Record(Ccs, 1, true, true, Warning, false)
  }

  /** Every round succeeds, on one message read from the given records. */
  function Go(records: seq<Record>, cutThrough: bool): Choice
  {
    Choice([Read(4, records)], true, false, false, true, true, false, false, true, false, false, false, false, cutThrough)
  }

  /** A client in some state of a full handshake; `base` gives its other fields. */
  function Client(base: Conn, st: State, next: State, l: Layer): Conn
  {
    base.(state := st, nextState := next, body := false, hit := false, reuseMessage := false, layer := l)
  }

  lemma Round(s: Conn, c: Choice, rest: seq<Choice>, t: Conn)
    requires Step(s, c) == Result(t, 1)
    ensures Loop(s, [c] + rest) == Loop(t, rest)
  {
    hide ClientStep;
    hide ServerStep;
    assert ([c] + rest)[1..] == rest;
  }

  /** The layer after a message, and after a ChangeCipherSpec and a message */
  function AfterMessage(l: Layer): Layer
  {
    Noted(l.(rr := Message().(length := 0)), HandshakeBytes)
  }

  function AfterCcs(l: Layer): Layer
  {
    Noted(l.(rr := CcsRecord().(length := 0), expectCcs := false, changeCipherSpec := true), ChangedCipher)
  }

  ghost predicate Quiet(l: Layer)
  {
    l.rr.length == 0 && l.fragLen == 0 && !l.receivedShutdown
  }

  lemma ReadsMessage(x: Context, l: Layer)
    requires Quiet(l) && !l.expectCcs
    ensures ReadRecords(x, l, Handshake, 4, [Message()]) == Return(AfterMessage(l), 4, false)
  {
    var t := l.(rr := Message());
    assert [Message()][1..] == [];
    assert ReadOnce(x, t, Handshake, 4) == Return(AfterMessage(l), 4, false);
    assert ReadRecords(x, t, Handshake, 4, []) == Return(AfterMessage(l), 4, false);
  }

  lemma ReadsCcsAndMessage(x: Context, l: Layer)
    requires Quiet(l) && l.expectCcs && l.newCipher && !l.changeCipherSpec && !x.sentShutdown
    ensures ReadRecords(x, l, Handshake, 4, [CcsRecord(), Message()]) == Return(AfterMessage(AfterCcs(l)), 4, false)
  {
    var t := l.(rr := CcsRecord());
    assert [CcsRecord(), Message()][1..] == [Message()];
    assert ReadOnce(x, t, Handshake, 4) == Again(AfterCcs(l));
    ReadsMessage(x, AfterCcs(l));
    hide ReadOnce;
    assert ReadRecords(x, t, Handshake, 4, [Message()]) == ReadRecords(x, AfterCcs(l), Handshake, 4, [Message()]);
  }

  lemma OneRead(x: Context, l: Layer, records: seq<Record>, t: Layer)
    requires l.fragLen == 0 && ReadRecords(x, l, Handshake, 4, records) == Return(t, 4, false)
    ensures ReadAll(x, l, [Read(4, records)]) == Return(t, 1, false)
  {
    hide ReadRecords;
    assert [Read(4, records)][1..] == [];
    assert ReadAll(x, t, []) == Return(t, 1, false);
  }

  lemma GetsMessage(s: Conn, c: Choice, records: seq<Record>, t: Layer)
    requires s.layer.fragLen == 0 && !s.reuseMessage && c.inputs == [Read(4, records)] && c.done
    requires ReadRecords(ContextOf(s), s.layer, Handshake, 4, records) == Return(t, 4, false)
    ensures GetMessage(s, c) == Result(s.(layer := t), 1)
  {
    hide ReadRecords;
    OneRead(ContextOf(s), s.layer, records, t);
    hide ReadAll;
  }

  // ---------- the rounds of a full handshake of a client ----------

  /** A layer with nothing stored and no bytes left of a record; f is a flag of an earlier one. */
  function Lay(f: bool, expectCcs: bool, changed: bool, newCipher: bool, log: seq<Event>): Layer
  {
    Layer(expectCcs, changed, newCipher, 0, f, Message().(length := 0), false, log)
  }

  lemma MessageStep(base: Conn, f: bool, st: State, nextState: State, c: Choice, next: State, log: seq<Event>, changed: bool)
    requires !base.isServer && c.inputs == [Read(4, [Message()])] && c.done
    ensures ReadThen(Client(base, st, nextState, Lay(f, false, changed, true, log)), c, next) ==
      Result(Client(base, next, nextState, Lay(f, false, changed, true, log + [HandshakeBytes])).(reuseMessage := c.reuse), 1)
  {
    var s := Client(base, st, nextState, Lay(f, false, changed, true, log));
    ReadsMessage(ContextOf(s), s.layer);
    GetsMessage(s, c, [Message()], AfterMessage(s.layer));
    hide GetMessage;
  }

  /** Where eight rounds from CrCert on lead */
  function After(base: Conn): State
  {
    if base.mayCutThrough && base.canCutThrough then CutThrough else CrChange
  }

  /** From CrCert to the flight of the client and what follows it: eight rounds */
  lemma Middle(base: Conn, f: bool, next: State, changed: bool, log: seq<Event>, cutThrough: bool, rest: seq<Choice>)
    requires !base.isServer && !base.ticket
    ensures Loop(Client(base, CrCert, next, Lay(f, false, changed, true, log)), Repeat(Go([Message()], cutThrough), 8) + rest) ==
      Loop(Client(base, After(base), After(base),
                  Lay(f, false, false, true, log + [HandshakeBytes] + [HandshakeBytes] + [HandshakeBytes])), rest)
  {
    var g := Go([Message()], cutThrough);
    var after := After(base);
    var log1 := log + [HandshakeBytes];
    var log2 := log1 + [HandshakeBytes];
    var log3 := log2 + [HandshakeBytes];
    var s0 := Client(base, CrCert, next, Lay(f, false, changed, true, log));
    var s1 := Client(base, CrKeyExch, next, Lay(f, false, changed, true, log));
    var s2 := Client(base, CrCertReq, next, Lay(f, false, changed, true, log1));
    var s3 := Client(base, CrServerDone, next, Lay(f, false, changed, true, log2));
    var s4 := Client(base, CwKeyExch, next, Lay(f, false, changed, true, log3));
    var s5 := Client(base, CwChange, next, Lay(f, false, false, true, log3));
    var s6 := Client(base, CwFinished, next, Lay(f, false, false, true, log3));
    var s7 := Client(base, Flush, after, Lay(f, false, false, true, log3));
    var s8 := Client(base, after, after, Lay(f, false, false, true, log3));
    assert g.cutThrough == cutThrough;
    hide *;
    MiddleReads(base, f, next, changed, log, g);
    MiddleWrites(base, f, next, changed, log3, g);
    Rounds8(g, rest, s0, s1, s2, s3, s4, s5, s6, s7, s8);
  }

  lemma MiddleReads(base: Conn, f: bool, next: State, changed: bool, log: seq<Event>, g: Choice)
    requires !base.isServer && g == Go([Message()], g.cutThrough)
    ensures var log1 := log + [HandshakeBytes];
      var log2 := log1 + [HandshakeBytes];
      var log3 := log2 + [HandshakeBytes];
      && Step(Client(base, CrCert, next, Lay(f, false, changed, true, log)), g) ==
         Result(Client(base, CrKeyExch, next, Lay(f, false, changed, true, log)), 1)
      && Step(Client(base, CrKeyExch, next, Lay(f, false, changed, true, log)), g) ==
         Result(Client(base, CrCertReq, next, Lay(f, false, changed, true, log1)), 1)
      && Step(Client(base, CrCertReq, next, Lay(f, false, changed, true, log1)), g) ==
         Result(Client(base, CrServerDone, next, Lay(f, false, changed, true, log2)), 1)
      && Step(Client(base, CrServerDone, next, Lay(f, false, changed, true, log2)), g) ==
         Result(Client(base, CwKeyExch, next, Lay(f, false, changed, true, log3)), 1)
  {
    hide ReadThen;
    MessageStep(base, f, CrKeyExch, next, g, CrCertReq, log, changed);
    MessageStep(base, f, CrCertReq, next, g, CrServerDone, log + [HandshakeBytes], changed);
    MessageStep(base, f, CrServerDone, next, g.(reuse := false), CwKeyExch, log + [HandshakeBytes] + [HandshakeBytes], changed);
    hide Lay;
    hide Message;
  }

  lemma MiddleWrites(base: Conn, f: bool, next: State, changed: bool, log: seq<Event>, g: Choice)
    requires !base.isServer && !base.ticket && g == Go([Message()], g.cutThrough)
    ensures var l := Lay(f, false, false, true, log);
      var after := After(base);
      && Step(Client(base, CwKeyExch, next, Lay(f, false, changed, true, log)), g) == Result(Client(base, CwChange, next, l), 1)
      && Step(Client(base, CwChange, next, l), g) == Result(Client(base, CwFinished, next, l), 1)
      && Step(Client(base, CwFinished, next, l), g) == Result(Client(base, Flush, after, l), 1)
      && Step(Client(base, Flush, after, l), g) == Result(Client(base, after, after, l), 1)
  {
    hide Message;
    hide GetMessage;
    hide GetFinished;
    hide ReadThen;
    hide ExpectThen;
    hide ServerStep;
  }

  lemma RepeatStep(c: Choice, k: nat, rest: seq<Choice>)
    ensures Repeat(c, k + 1) + rest == [c] + (Repeat(c, k) + rest)
    ensures Repeat(c, 0) + rest == rest
  {
    assert Repeat(c, k + 1) == [c] + Repeat(c, k);
  }

  lemma Rounds8(
    g: Choice, rest: seq<Choice>,
    s0: Conn, s1: Conn, s2: Conn, s3: Conn, s4: Conn, s5: Conn, s6: Conn, s7: Conn, s8: Conn)
    requires Step(s0, g) == Result(s1, 1) && Step(s1, g) == Result(s2, 1) && Step(s2, g) == Result(s3, 1)
    requires Step(s3, g) == Result(s4, 1) && Step(s4, g) == Result(s5, 1) && Step(s5, g) == Result(s6, 1)
    requires Step(s6, g) == Result(s7, 1) && Step(s7, g) == Result(s8, 1)
    ensures Loop(s0, Repeat(g, 8) + rest) == Loop(s8, rest)
  {
    RepeatSplit(g, rest);
    hide *;
    Rounds4(g, Repeat(g, 4) + rest, s0, s1, s2, s3, s4);
    Rounds4(g, rest, s4, s5, s6, s7, s8);
  }

  lemma Rounds4(g: Choice, rest: seq<Choice>, s0: Conn, s1: Conn, s2: Conn, s3: Conn, s4: Conn)
    requires Step(s0, g) == Result(s1, 1) && Step(s1, g) == Result(s2, 1) && Step(s2, g) == Result(s3, 1)
    requires Step(s3, g) == Result(s4, 1)
    ensures Loop(s0, Repeat(g, 4) + rest) == Loop(s4, rest)
  {
    hide *;
    RepeatStep(g, 3, rest);
    RepeatStep(g, 2, rest);
    RepeatStep(g, 1, rest);
    RepeatStep(g, 0, rest);
    Round(s0, g, Repeat(g, 3) + rest, s1);
    Round(s1, g, Repeat(g, 2) + rest, s2);
    Round(s2, g, Repeat(g, 1) + rest, s3);
    Round(s3, g, Repeat(g, 0) + rest, s4);
  }

  lemma RepeatSplit(g: Choice, rest: seq<Choice>)
    ensures Repeat(g, 8) + rest == Repeat(g, 4) + (Repeat(g, 4) + rest)
  {
    assert Repeat(g, 8) == Repeat(g, 4) + Repeat(g, 4);
  }

  lemma LastRound(s: Conn, c: Choice)
    ensures Loop(s, [c]) == Step(s, c).conn
  {
    hide ClientStep;
    hide ServerStep;
    var r := Step(s, c);
    assert [c][1..] == [];
    assert Loop(r.conn, []) == r.conn;
  }

  lemma TwoRounds(s: Conn, c: Choice, d: Choice, t: Conn)
    requires Step(s, c) == Result(t, 1)
    ensures Loop(s, [c, d]) == Step(t, d).conn
  {
    assert [c, d] == [c] + [d];
    hide *;
    Round(s, c, [d], t);
    LastRound(t, d);
  }

  // ---------- a window is reached ----------

  /** The server's hello arrives: a full handshake goes on. */
  lemma HelloStep(base: Conn, f: bool, next: State, c: Choice, changed: bool, cipher: bool, rr: Record, log: seq<Event>)
    requires !base.isServer && c == Go([Message()], c.cutThrough) && rr.length == 0
    ensures Step(Client(base, CrServerHello, next, Lay(f, false, changed, cipher, log).(rr := rr)), c) ==
      Result(Client(base.(ticket := false, canCutThrough := c.cutThrough), CrCert, next,
                    Lay(f, false, changed, true, log + [HandshakeBytes])), 1)
  {
    var s := Client(base, CrServerHello, next, Lay(f, false, changed, cipher, log).(rr := rr));
    ReadsMessage(ContextOf(s), s.layer);
    GetsMessage(s, c, [Message()], AfterMessage(s.layer));
    hide GetMessage;
  }

  function FirstLog(): seq<Event>
  {
    [Started] + [HandshakeBytes] + [HandshakeBytes] + [HandshakeBytes] + [HandshakeBytes]
  }

  function FirstCall(): Call
  {
    var g := Go([Message()], true);
    Handshaking([g] + ([g] + ([g] + (Repeat(g, 8) + [g]))), false)
  }

  /** The client once a hello allows to cut the handshake through */
  function Allowed(): Conn
  {
    NewClient().(canCutThrough := true)
  }

  function NewClient(): Conn
  {
    Initial(false, true, false, false)
  }

  lemma OpeningSteps(base: Conn, f: bool, next: State, c: Choice, l: Layer)
    requires !base.isServer && c.done
    ensures Step(Client(base, Start, next, l), c) == Result(Client(base, CwClientHello, next, Noted(l, Started)), 1)
    ensures Step(Client(base, CwClientHello, next, l), c) == Result(Client(base, CrServerHello, next, l), 1)
  {
  }

  lemma CutThroughRound(base: Conn, l: Layer, c: Choice)
    requires !base.isServer && !base.ticket
    ensures Step(Client(base, CutThrough, CutThrough, l), c) == Result(Client(base, CrChange, CutThrough, l), 2)
  {
  }

  lemma NewClientIs()
    ensures var base, l := NewClient(), NewClient().layer;
      && base == Client(base, Start, Start, l) && After(Allowed()) == CutThrough && !base.isServer && !base.ticket
      && Noted(l, Started) == Lay(false, false, false, false, [Started]).(rr := l.rr) && l.rr.length == 0
      && base.(ticket := false, canCutThrough := true) == Allowed() && !Allowed().isServer && !Allowed().ticket
  {
  }

  lemma FirstCallIs()
    ensures var g := Go([Message()], true);
      g.done && Called(NewClient(), FirstCall()) == Loop(NewClient(), [g] + ([g] + ([g] + (Repeat(g, 8) + [g]))))
  {
    assert InInit(NewClient(), false);
    hide Loop;
  }

  /** The hellos */
  lemma FirstRounds(rest: seq<Choice>)
    ensures var g := Go([Message()], true);
      Loop(NewClient(), [g] + ([g] + ([g] + rest))) ==
      Loop(Client(Allowed(), CrCert, Start, Lay(false, false, false, true, [Started] + [HandshakeBytes])), rest)
  {
    hide *;
    var g, base := Go([Message()], true), NewClient();
    var l := base.layer;
    var s1 := Client(base, CwClientHello, Start, Noted(l, Started));
    var s2 := Client(base, CrServerHello, Start, Noted(l, Started));
    var s3 := Client(Allowed(), CrCert, Start, Lay(false, false, false, true, [Started] + [HandshakeBytes]));
    NewClientIs();
    GoIs([Message()], true);
    OpeningSteps(base, false, Start, g, l);
    OpeningSteps(base, false, Start, g, Noted(l, Started));
    HelloStep(base, false, Start, g, false, false, l.rr, [Started]);
    Round(base, g, [g] + ([g] + rest), s1);
    Round(s1, g, [g] + rest, s2);
    Round(s2, g, rest, s3);
  }

  /** The first handshake is cut through: the application may write. */
  lemma FirstHandshake()
    ensures Called(NewClient(), FirstCall()) == Client(Allowed(), CrChange, CutThrough, Lay(false, false, false, true, FirstLog()))
  {
    hide *;
    var g := Go([Message()], true);
    NewClientIs();
    FirstCallIs();
    FirstLogIs();
    FirstRounds(Repeat(g, 8) + [g]);
    Middle(Allowed(), false, Start, false, [Started] + [HandshakeBytes], true, [g]);
    CutThroughRound(Allowed(), Lay(false, false, false, true, FirstLog()), g);
    LastRound(Client(Allowed(), CutThrough, CutThrough, Lay(false, false, false, true, FirstLog())), g);
  }

  lemma GoIs(records: seq<Record>, cutThrough: bool)
    ensures var g := Go(records, cutThrough); g == Go(records, g.cutThrough) && g.cutThrough == cutThrough && g.done
  {
  }

  lemma FirstLogIs()
    ensures FirstLog() == [Started] + [HandshakeBytes] + [HandshakeBytes] + [HandshakeBytes] + [HandshakeBytes]
  {
  }

  /** The application reads: the ChangeCipherSpec is expected, but nothing arrives. */
  function WaitCall(): Call
  {
    Handshaking([Go([], true)], true)
  }

  /** A handshake that is cut through, and a read of which nothing comes, lead into the window. */
  lemma WindowIsReached()
    ensures var s := Run(NewClient(), [FirstCall(), WaitCall()]);
      Valid(s) && Unsafe(s)
  {
    var base := NewClient();
    var s1 := Client(Allowed(), CrChange, CutThrough, Lay(false, false, false, true, FirstLog()));
    var s2 := Client(Allowed(), CrFinished, CutThrough, Lay(false, true, false, true, FirstLog() + [Expecting]));
    assert Step(s1, Go([], true)) == Result(s2, 1) && InInit(s1, true);
    LastRound(s1, Go([], true));
    assert Called(s1, WaitCall()) == s2;
    assert InWindow(s2) && TakesCcs(s2);
    InitialIsValid(false, true, false, false);
    assert Valid(base) && !FirstCall().Renegotiating? && !WaitCall().Renegotiating?;
    hide *;
    FirstHandshake();
    RunOfTwo(base, FirstCall(), WaitCall());
    CalledKeeps(base, FirstCall());
    CalledKeeps(s1, WaitCall());
  }

  lemma RunOfTwo(s: Conn, a: Call, b: Call)
    ensures Run(s, [a, b]) == Called(Called(s, a), b)
  {
    hide Called;
    RunOfOne(s, a);
    RunSnoc(s, [a], b);
    assert [a, b] == [a] + [b];
  }

  lemma RunSnoc(s: Conn, calls: seq<Call>, c: Call)
    ensures Run(s, calls + [c]) == Called(Run(s, calls), c)
  {
    hide Called;
    assert (calls + [c])[..|calls|] == calls;
  }

  // ---------- when the ChangeCipherSpec can still come ----------

  /** What is left of the current record does not keep the next ones away. */
  predicate Passable(r: Record)
  {
    match r.kind
    case Alert => r.length == 0 || r.alert == Warning || r.alert == Malformed
    case Ccs => r.length == 0 || (r.length == 1 && r.good)
    case Unknown => r.length == 0 || r.good
    case _ => r.length == 0
  }

  /** The ChangeCipherSpec that is expected can still be consumed. */
  predicate TakesCcs(s: Conn)
  {
    && !s.sentShutdown && !s.layer.receivedShutdown && !s.layer.changeCipherSpec && s.layer.newCipher
    && Passable(s.layer.rr)
  }

  /** A renegotiation must not start here. */
  predicate Unsafe(s: Conn)
  {
    InWindow(s) && TakesCcs(s)
  }

  ghost predicate NoUnsafeRestart(s: Conn, calls: seq<Call>)
  {
    forall i :: 0 <= i < |calls| && calls[i].Renegotiating? ==> !Unsafe(Run(s, calls[..i]))
  }

  // ---------- if it can, a Done may follow two of them ----------

  /** A client that waits for the server's hello, with the ChangeCipherSpec of before taken or not */
  ghost predicate AtHello(base: Conn, f: bool, taken: bool, log: seq<Event>, s: Conn)
  {
    exists rr: Record :: rr.length == 0 && s == Client(base, CrServerHello, base.nextState, Lay(f, !taken, taken, true, log).(rr := rr))
  }

  /** The two rounds that send the client's hello */
  lemma SendsHello(base: Conn, l: Layer)
    requires !base.isServer && base == Client(base, Start, base.nextState, l)
    ensures Called(base, Handshaking([Go([], false), Go([], false)], false)) ==
      Client(base, CrServerHello, base.nextState, Noted(l, Started))
  {
    var g := Go([], false);
    OpeningSteps(base, false, base.nextState, g, l);
    OpeningSteps(base, false, base.nextState, g, Noted(l, Started));
    assert InInit(base, false);
    var s1 := Client(base, CwClientHello, base.nextState, Noted(l, Started));
    TwoRounds(base, g, g, s1);
    hide Loop;
    hide ClientStep;
    hide ServerStep;
  }

  /** A read of the hello that fails, after which the layer is t */
  lemma FailsToRead(s: Conn, records: seq<Record>, t: Layer, ret: int)
    requires s.state == CrServerHello && !s.isServer && !s.reuseMessage && s.layer.fragLen == 0 && ret <= 0
    requires ReadRecords(ContextOf(s), s.layer, Handshake, 4, records) == Return(t, ret, false)
    ensures Called(s, Handshaking([Go(records, false)], false)) == s.(layer := t)
  {
    var c := Go(records, false);
    hide ReadRecords;
    assert ReadAll(ContextOf(s), s.layer, c.inputs) == Return(t, ret, false);
    hide ReadAll;
    assert GetMessage(s, c) == Result(s.(layer := t), ret);
    hide GetMessage;
    assert Step(s, c) == Result(s.(layer := t), ret);
    LastRound(s, c);
    hide Loop;
    hide ClientStep;
    hide ServerStep;
  }

  /** What is left of the current record goes; it may be the ChangeCipherSpec itself. */
  lemma Drained(x: Context, l: Layer)
    requires !x.isServer && !x.atOk && !x.sentShutdown && !l.receivedShutdown && !l.changeCipherSpec && l.newCipher
    requires l.expectCcs && l.fragLen == 0 && Passable(l.rr)
    ensures var p := ReadRecords(x, l, Handshake, 4, []);
      p.ret <= 0 && !p.restart &&
      (if l.rr.kind == Ccs && l.rr.length > 0 then p.layer == AfterCcs(l).(rr := l.rr.(length := 0))
       else p.layer == l.(rr := l.rr.(length := 0)))
  {
    if l.rr.length > 0 {
      var p := ReadOnce(x, l, Handshake, 4);
      if l.rr.kind == Ccs {
        assert p.layer == AfterCcs(l).(rr := l.rr.(length := 0));
      } else {
        assert p.layer == l.(rr := l.rr.(length := 0));
      }
      if p.Again? {
        assert ReadRecords(x, p.layer, Handshake, 4, []) == Return(p.layer, -1, false);
      }
    }
  }

  /** A ChangeCipherSpec that arrives is taken; then nothing comes. */
  lemma TakesOne(x: Context, l: Layer)
    requires !x.sentShutdown && Quiet(l) && !l.changeCipherSpec && l.newCipher && l.expectCcs
    ensures ReadRecords(x, l, Handshake, 4, [CcsRecord()]) == Return(AfterCcs(l), -1, false)
  {
    var t := l.(rr := CcsRecord());
    assert [CcsRecord()][1..] == [];
    assert ReadOnce(x, t, Handshake, 4) == Again(AfterCcs(l));
    assert ReadRecords(x, AfterCcs(l), Handshake, 4, []) == Return(AfterCcs(l), -1, false);
    assert ReadRecords(x, t, Handshake, 4, []) == Return(AfterCcs(l), -1, false);
  }

  /** The log of what follows, from the hello on */
  function RestOfLog(log: seq<Event>): seq<Event>
  {
    log + [HandshakeBytes] + [HandshakeBytes] + [HandshakeBytes] + [HandshakeBytes] +
    [Expecting] + [ChangedCipher] + [HandshakeBytes] + [FinishedVerified] + [Done]
  }

  function LastCall(): Call
  {
    var h, c := Go([Message()], false), Go([CcsRecord(), Message()], false);
    Handshaking([h] + (Repeat(h, 8) + ([h] + ([c] + [h]))), false)
  }

  lemma ExpectRound(base: Conn, f: bool, log: seq<Event>, c: Choice)
    requires !base.isServer
    ensures Step(Client(base, CrChange, CrChange, Lay(f, false, false, true, log)), c) ==
      Result(Client(base, CrFinished, CrChange, Lay(f, true, false, true, log + [Expecting])), 1)
  {
  }

  lemma FinishedRound(base: Conn, f: bool, log: seq<Event>)
    requires !base.isServer && !base.sentShutdown
    ensures Step(Client(base, CrFinished, CrChange, Lay(f, true, false, true, log)), Go([CcsRecord(), Message()], false)) ==
      Result(Client(base, Ok, CrChange, Lay(f, false, false, true, log + [ChangedCipher] + [HandshakeBytes] + [FinishedVerified]))
             .(mayCutThrough := false), 1)
  {
    var c := Go([CcsRecord(), Message()], false);
    var s := Client(base, CrFinished, CrChange, Lay(f, true, false, true, log));
    var t := AfterMessage(AfterCcs(s.layer));
    ReadsCcsAndMessage(ContextOf(s), s.layer);
    GetsMessage(s, c, [CcsRecord(), Message()], t);
    assert t == Lay(f, false, true, true, log + [ChangedCipher] + [HandshakeBytes]);
    hide GetMessage;
    hide ReadThen;
    hide ServerStep;
  }

  lemma DoneRound(base: Conn, l: Layer, c: Choice)
    requires !base.isServer
    ensures Step(Client(base, Ok, CrChange, l).(mayCutThrough := false), c).conn.layer.log == l.log + [Done]
  {
  }

  lemma Ending(base: Conn, f: bool, log: seq<Event>)
    requires !base.isServer && !base.sentShutdown && !base.ticket
    ensures var h, c := Go([Message()], false), Go([CcsRecord(), Message()], false);
      Loop(Client(base, CrChange, CrChange, Lay(f, false, false, true, log)), [h] + ([c] + [h])).layer.log ==
      log + [Expecting] + [ChangedCipher] + [HandshakeBytes] + [FinishedVerified] + [Done]
  {
    var h, c := Go([Message()], false), Go([CcsRecord(), Message()], false);
    var log3 := log + [Expecting] + [ChangedCipher] + [HandshakeBytes] + [FinishedVerified];
    assert Lay(f, false, false, true, log3).log == log3;
    hide *;
    var s0 := Client(base, CrChange, CrChange, Lay(f, false, false, true, log));
    var s1 := Client(base, CrFinished, CrChange, Lay(f, true, false, true, log + [Expecting]));
    var s2 := Client(base, Ok, CrChange, Lay(f, false, false, true, log3)).(mayCutThrough := false);
    ExpectRound(base, f, log, h);
    FinishedRound(base, f, log + [Expecting]);
    DoneRound(base, Lay(f, false, false, true, log3), h);
    Round(s0, h, [c] + [h], s1);
    Round(s1, c, [h], s2);
    LastRound(s2, h);
  }

  /** Behind the hello a handshake goes through, with a ChangeCipherSpec of its own. */
  lemma GoesThrough(base: Conn, f: bool, log: seq<Event>, s: Conn)
    requires !base.isServer && !base.sentShutdown && AtHello(base, f, true, log, s)
    ensures Called(s, LastCall()).layer.log == RestOfLog(log)
  {
    var rr: Record :| rr.length == 0 &&
      s == Client(base, CrServerHello, base.nextState, Lay(f, false, true, true, log).(rr := rr));
    var h, c := Go([Message()], false), Go([CcsRecord(), Message()], false);
    var log1 := log + [HandshakeBytes];
    var full := base.(ticket := false, canCutThrough := false);
    HelloStep(base, f, base.nextState, h, true, true, rr, log);
    assert After(full) == CrChange;
    assert LastCall() == Handshaking([h] + (Repeat(h, 8) + ([h] + ([c] + [h]))), false);
    assert InInit(s, false);
    assert Called(s, LastCall()) == Loop(s, [h] + (Repeat(h, 8) + ([h] + ([c] + [h]))));
    RestOfLogIs(log);
    hide *;
    Round(s, h, Repeat(h, 8) + ([h] + ([c] + [h])), Client(full, CrCert, base.nextState, Lay(f, false, true, true, log1)));
    Middle(full, f, base.nextState, true, log1, false, [h] + ([c] + [h]));
    Ending(full, f, log1 + [HandshakeBytes] + [HandshakeBytes] + [HandshakeBytes]);
  }

  lemma RestOfLogIs(log: seq<Event>)
    ensures RestOfLog(log) == log + [HandshakeBytes] + [HandshakeBytes] + [HandshakeBytes] + [HandshakeBytes] +
      [Expecting] + [ChangedCipher] + [HandshakeBytes] + [FinishedVerified] + [Done]
  {
  }

  function HelloCall(): Call
  {
    Handshaking([Go([], false), Go([], false)], false)
  }

  function RestCall(): Call
  {
    Handshaking([Go([], false)], false)
  }

  function CcsCall(): Call
  {
    Handshaking([Go([CcsRecord()], false)], false)
  }

  /** From the window: the client's hello leaves. */
  lemma AfterHello(s: Conn) returns (s1: Conn)
    requires Valid(s) && InWindow(s) && TakesCcs(s)
    ensures Called(Restarted(s), HelloCall()) == s1 && Waits(s, s1) && s1.layer == Noted(s.layer, Started)
  {
    WindowGives(s);
    hide Valid;
    SendsHello(Restarted(s), s.layer);
    s1 := Client(Restarted(s), CrServerHello, s.nextState, Noted(s.layer, Started));
  }

  /** t waits for the hello; what came before is as in the window s. */
  ghost predicate Waits(s: Conn, t: Conn)
  {
    && t == Client(Restarted(s), CrServerHello, s.nextState, t.layer) && !s.isServer && !s.sentShutdown
    && t.layer.fragLen == 0 && t.layer.newCipher && !t.layer.receivedShutdown && Passable(t.layer.rr)
    && t.layer.fragHelloRequest == s.layer.fragHelloRequest
    && if t.layer.expectCcs then !t.layer.changeCipherSpec && t.layer.log == s.layer.log + [Started]
       else t.layer.changeCipherSpec && t.layer.rr.length == 0 && t.layer.log == s.layer.log + [Started] + [ChangedCipher]
  }

  /** What is left of the current record goes. */
  lemma AfterRest(s: Conn, s1: Conn) returns (s2: Conn)
    requires Waits(s, s1) && s1.layer.expectCcs
    ensures Called(s1, RestCall()) == s2 && Waits(s, s2) && s2.layer.rr.length == 0
  {
    var x := ContextOf(s1);
    Drained(x, s1.layer);
    var p := ReadRecords(x, s1.layer, Handshake, 4, []);
    FailsToRead(s1, [], p.layer, p.ret);
    s2 := s1.(layer := p.layer);
    hide ReadRecords;
    hide Called;
    hide Restarted;
    RestWaits(s, s1, p.layer);
  }

  lemma RestWaits(s: Conn, s1: Conn, l: Layer)
    requires Waits(s, s1) && s1.layer.expectCcs
    requires if s1.layer.rr.kind == Ccs && s1.layer.rr.length > 0 then l == AfterCcs(s1.layer).(rr := s1.layer.rr.(length := 0))
             else l == s1.layer.(rr := s1.layer.rr.(length := 0))
    ensures Waits(s, s1.(layer := l))
  {
    hide Restarted;
  }

  /** The old ChangeCipherSpec comes. */
  lemma AfterCcsCame(s: Conn, s2: Conn) returns (s3: Conn)
    requires Waits(s, s2) && s2.layer.expectCcs && s2.layer.rr.length == 0
    ensures Called(s2, CcsCall()) == s3 && Waits(s, s3) && !s3.layer.expectCcs
  {
    TakesOne(ContextOf(s2), s2.layer);
    FailsToRead(s2, [CcsRecord()], AfterCcs(s2.layer), -1);
    s3 := s2.(layer := AfterCcs(s2.layer));
    hide ReadRecords;
    hide Called;
  }

  lemma WaitsAtHello(s: Conn, t: Conn)
    requires Waits(s, t) && !t.layer.expectCcs
    ensures AtHello(Restarted(s), s.layer.fragHelloRequest, true, s.layer.log + [Started] + [ChangedCipher], t)
  {
    var rr := t.layer.rr;
    assert t == Client(Restarted(s), CrServerHello, Restarted(s).nextState,
      Lay(s.layer.fragHelloRequest, false, true, true, s.layer.log + [Started] + [ChangedCipher]).(rr := rr));
  }

  /** The old ChangeCipherSpec is taken by the new handshake. */
  lemma TakesOld(s: Conn) returns (calls: seq<Call>, t: Conn)
    requires Valid(s) && InWindow(s) && TakesCcs(s)
    ensures t == Run(Restarted(s), calls) && OnlyHandshakes(calls)
    ensures AtHello(Restarted(s), s.layer.fragHelloRequest, true, s.layer.log + [Started] + [ChangedCipher], t)
  {
    WindowExpects(s);
    OldCalls();
    hide *;
    var s1 := AfterHello(s);
    NotedExpects(s.layer);
    var s2 := AfterRest(s, s1);
    RunOfTwo(Restarted(s), HelloCall(), RestCall());
    calls, t := [HelloCall(), RestCall()], s2;
    if s2.layer.expectCcs {
      t := AfterCcsCame(s, s2);
      RunSnoc(Restarted(s), calls, CcsCall());
      calls := calls + [CcsCall()];
    }
    WaitsAtHello(s, t);
  }

  ghost predicate OnlyHandshakes(calls: seq<Call>)
  {
    forall i :: 0 <= i < |calls| ==> calls[i].Handshaking?
  }

  lemma OldCalls()
    ensures OnlyHandshakes([HelloCall(), RestCall()])
    ensures OnlyHandshakes([HelloCall(), RestCall()] + [CcsCall()])
  {
  }

  lemma NotedExpects(l: Layer)
    ensures Noted(l, Started).expectCcs == l.expectCcs
  {
  }

  lemma WindowExpects(s: Conn)
    requires InWindow(s)
    ensures s.layer.expectCcs
  {
  }

  lemma RunOfOne(s: Conn, a: Call)
    ensures Run(s, [a]) == Called(s, a)
  {
    hide Called;
    assert [a][..0] == [];
  }

  lemma WindowGives(s: Conn)
    requires Valid(s) && InWindow(s)
    ensures var base := Restarted(s);
      && base == Client(base, Start, base.nextState, s.layer) && !base.isServer && base.mayCutThrough
      && s.layer.expectCcs && s.layer.fragLen == 0 && !s.reuseMessage
  {
  }

  ghost predicate NeverProper(log: seq<Event>, d: nat)
    requires d <= |log|
  {
    forall m: Marks :: !ProperlyDone(log, d, m)
  }

  lemma TwoIsNotOne(log: seq<Event>, all: seq<Event>)
    requires all == RestOfLog(log + [Started] + [ChangedCipher])
    ensures |all| == |log| + 11 && all[|log| + 10] == Done && NeverProper(all, |log| + 10)
  {
    var n := |log|;
    assert all == log + [Started, ChangedCipher, HandshakeBytes, HandshakeBytes, HandshakeBytes, HandshakeBytes,
                         Expecting, ChangedCipher, HandshakeBytes, FinishedVerified, Done];
    assert all[n] == Started && all[n + 1] == ChangedCipher && all[n + 7] == ChangedCipher;
    forall i | n < i < n + 10 ensures all[i] != Started {
    }
  }

  // ---------- if it cannot, nothing is ever done again ----------

  /** Waiting for a ChangeCipherSpec that cannot come */
  ghost predicate Barred(x: Context, l: Layer)
  {
    && l.expectCcs && l.fragLen == 0
    && (x.sentShutdown || l.receivedShutdown || l.changeCipherSpec || !l.newCipher || !Passable(l.rr))
  }

  lemma BarredOnce(x: Context, l: Layer, len: nat)
    requires Barred(x, l) && !x.isServer && l.rr.length > 0
    ensures var p := ReadOnce(x, l, Handshake, len);
      Barred(x, p.layer) && p.layer.log == l.log && (p.Return? ==> p.ret <= 0)
      && (p.Again? ==> p.layer.rr.length == 0)
  {
  }

  lemma {:induction false} BarredRecords(x: Context, l: Layer, len: nat, records: seq<Record>)
    requires Barred(x, l) && !x.isServer
    ensures var p := ReadRecords(x, l, Handshake, len, records);
      Barred(x, p.layer) && p.layer.log == l.log && p.ret <= 0
    decreases |records|, l.rr.length
  {
    if l.rr.length > 0 {
      BarredOnce(x, l, len);
      hide ReadOnce;
      var p := ReadOnce(x, l, Handshake, len);
      if p.Again? {
        BarredRecords(x, p.layer, len, records);
      }
    } else if records != [] {
      BarredRecords(x, l.(rr := records[0]), len, records[1..]);
    }
  }

  ghost predicate Hopeless(s: Conn)
  {
    && !s.isServer && !s.reuseMessage && (s.state == Start || s.state == CwClientHello || s.state == CrServerHello)
    && Barred(ContextOf(s), s.layer)
  }

  /** A log that grew by starts only */
  ghost predicate OnlyStarts(before: seq<Event>, log: seq<Event>)
  {
    before <= log && forall i :: |before| <= i < |log| ==> log[i] == Started
  }

  lemma HopelessMessage(s: Conn, c: Choice)
    requires Hopeless(s)
    ensures var r := GetMessage(s, c);
      r.ret <= 0 && r.conn == s.(layer := r.conn.layer, body := r.conn.body) && r.conn.layer.log == s.layer.log
      && Barred(ContextOf(s), r.conn.layer)
  {
    if c.inputs != [] {
      BarredRecords(ContextOf(s), s.layer, c.inputs[0].len, c.inputs[0].records);
    }
    hide ReadRecords;
  }

  lemma HopelessStart(s: Conn, c: Choice)
    requires Hopeless(s) && s.state != CrServerHello
    ensures Hopeless(ClientStep(s, c).conn) && OnlyStarts(s.layer.log, ClientStep(s, c).conn.layer.log)
  {
    hide Passable;
  }

  lemma HopelessHello(s: Conn, c: Choice)
    requires Hopeless(s) && s.state == CrServerHello
    ensures ClientStep(s, c) == GetMessage(s, c)
  {
    HopelessMessage(s, c);
    hide GetMessage;
    hide Hopeless;
  }

  lemma HopelessStep(s: Conn, c: Choice)
    requires Hopeless(s)
    ensures Hopeless(ClientStep(s, c).conn) && OnlyStarts(s.layer.log, ClientStep(s, c).conn.layer.log)
  {
    hide ClientStep;
    hide GetMessage;
    hide Barred;
    if s.state == CrServerHello {
      HopelessHello(s, c);
      HopelessMessage(s, c);
    } else {
      HopelessStart(s, c);
    }
  }

  lemma {:induction false} HopelessLoop(s: Conn, choices: seq<Choice>, before: seq<Event>)
    requires Hopeless(s) && OnlyStarts(before, s.layer.log)
    ensures Hopeless(Loop(s, choices)) && OnlyStarts(before, Loop(s, choices).layer.log)
    decreases choices
  {
    if choices != [] {
      HopelessStep(s, choices[0]);
      hide ClientStep;
      hide ServerStep;
      var r := Step(s, choices[0]);
      if r.ret == 1 {
        HopelessLoop(r.conn, choices[1..], before);
      }
    }
  }

  lemma {:induction false} HopelessRun(s: Conn, calls: seq<Call>)
    requires Hopeless(s)
    ensures Hopeless(Run(s, calls)) && OnlyStarts(s.layer.log, Run(s, calls).layer.log)
  {
    if calls != [] {
      var init, last := calls[..|calls| - 1], calls[|calls| - 1];
      HopelessRun(s, init);
      var t := Run(s, init);
      assert InInit(t, false) && forall reading :: InInit(t, reading);
      if last.Handshaking? {
        HopelessLoop(t, last.choices, s.layer.log);
      }
      hide Loop;
    }
  }

  // ---------- every handshake done was earned ----------

  /** Every HANDSHAKE_DONE from index `from` on was earned. */
  ghost predicate DonesProper(log: seq<Event>, from: nat)
  {
    forall d: nat :: from <= d < |log| && log[d] == Done ==> exists m: Marks :: ProperlyDone(log, d, m)
  }

  lemma OrderedIsProper(log: seq<Event>)
    requires Ordered(log)
    ensures DonesProper(log, 0)
  {
    hide ProperlyDone;
    forall d: nat | d < |log| && log[d] == Done ensures exists m: Marks :: ProperlyDone(log, d, m) {
      DoneIsProper(log, d);
    }
  }

  lemma StartsStayProper(before: seq<Event>, log: seq<Event>)
    requires DonesProper(before, 0) && OnlyStarts(before, log)
    ensures DonesProper(log, 0)
  {
    forall d: nat | d < |log| && log[d] == Done ensures exists m: Marks :: ProperlyDone(log, d, m) {
      var m: Marks :| ProperlyDone(before, d, m);
      assert ProperlyDone(log, d, m);
    }
  }

  /** What every run keeps: state, flags and phase are in step, or no handshake can ever be done. */
  ghost predicate Sound(s: Conn)
  {
    DonesProper(s.layer.log, 0) && (Valid(s) || Hopeless(s))
  }

  lemma ValidIsSound(s: Conn)
    requires Valid(s)
    ensures Sound(s)
  {
    OrderedIsProper(s.layer.log);
    hide DonesProper;
  }

  lemma SoundStep(s: Conn, call: Call)
    requires Sound(s) && (call.Renegotiating? ==> !Unsafe(s))
    ensures Sound(Called(s, call))
  {
    hide *;
    SoundIs(s);
    UnsafeIs(s);
    if !Valid(s) {
      HopelessRun(s, [call]);
      RunOfOne(s, call);
      StartsStayProper(s.layer.log, Called(s, call).layer.log);
      SoundIs(Called(s, call));
    } else if call.Renegotiating? && InWindow(s) {
      BarredInWindow(s);
      SoundIs(Called(s, call));
    } else {
      CalledKeeps(s, call);
      ValidIsSound(Called(s, call));
    }
  }

  lemma SoundIs(s: Conn)
    ensures Sound(s) <==> DonesProper(s.layer.log, 0) && (Valid(s) || Hopeless(s))
  {
    hide DonesProper;
    hide Valid;
    hide Hopeless;
  }

  lemma UnsafeIs(s: Conn)
    ensures Unsafe(s) <==> InWindow(s) && TakesCcs(s)
  {
  }

  lemma BarredInWindow(s: Conn)
    requires Valid(s) && InWindow(s) && !TakesCcs(s)
    ensures Called(s, Renegotiating) == Restarted(s) && Hopeless(Restarted(s)) && Restarted(s).layer.log == s.layer.log
  {
    WindowGives(s);
  }

  lemma {:induction false} RunIsSound(s: Conn, calls: seq<Call>)
    requires Sound(s) && NoUnsafeRestart(s, calls)
    ensures Sound(Run(s, calls))
  {
    hide Sound;
    hide Called;
    hide Unsafe;
    if calls != [] {
      var init, last := calls[..|calls| - 1], calls[|calls| - 1];
      assert forall i :: 0 <= i <= |init| ==> init[..i] == calls[..i];
      RunIsSound(s, init);
      SoundStep(Run(s, init), last);
    }
  }

  /** In every run of either side, with any interruptions, resumptions, cut-throughs and
      renegotiations but unsafe ones, HANDSHAKE_DONE is reported only for a handshake that consumed
      exactly one ChangeCipherSpec, when it was expected, with no handshake bytes in between, and
      then verified Finished. */
  lemma DoneIsEarned(
    isServer: bool, mayCutThrough: bool, refusesHello: bool, sentShutdown: bool, calls: seq<Call>)
    requires NoUnsafeRestart(Initial(isServer, mayCutThrough, refusesHello, sentShutdown), calls)
    ensures DonesProper(Run(Initial(isServer, mayCutThrough, refusesHello, sentShutdown), calls).layer.log, 0)
  {
    hide *;
    var s := Initial(isServer, mayCutThrough, refusesHello, sentShutdown);
    InitialIsValid(isServer, mayCutThrough, refusesHello, sentShutdown);
    ValidIsSound(s);
    RunIsSound(s, calls);
    SoundIs(Run(s, calls));
  }

  // ---------- exactly when a renegotiation is safe ----------

  /** Whatever follows a renegotiation that starts in s, short of another unsafe one */
  ghost predicate SafeAfter(s: Conn)
  {
    forall more: seq<Call> :: NoUnsafeRestart(Restarted(s), more) ==> DonesProper(Run(Restarted(s), more).layer.log, 0)
  }

  lemma SafeOutside(s: Conn)
    requires Sound(s) && !InInit(s, false) && !Unsafe(s)
    ensures SafeAfter(s)
  {
    SoundStep(s, Renegotiating);
    assert Called(s, Renegotiating) == Restarted(s);
    hide *;
    forall more: seq<Call> | NoUnsafeRestart(Restarted(s), more)
      ensures DonesProper(Run(Restarted(s), more).layer.log, 0)
    {
      RunIsSound(Restarted(s), more);
      SoundIs(Run(Restarted(s), more));
    }
    SafeAfterIs(s);
  }

  lemma SafeAfterIs(s: Conn)
    ensures SafeAfter(s) <==> forall more: seq<Call> :: NoUnsafeRestart(Restarted(s), more) ==>
      DonesProper(Run(Restarted(s), more).layer.log, 0)
  {
    hide DonesProper;
    hide NoUnsafeRestart;
    hide Run;
    hide Restarted;
  }

  lemma UnsafeIsUnsafe(s: Conn)
    requires Valid(s) && InWindow(s) && TakesCcs(s)
    ensures !SafeAfter(s)
  {
    WindowGives(s);
    assert !Restarted(s).sentShutdown;
    hide *;
    var calls, t := TakesOld(s);
    GoesThrough(Restarted(s), s.layer.fragHelloRequest, s.layer.log + [Started] + [ChangedCipher], t);
    RunSnoc(Restarted(s), calls, LastCall());
    var log := Run(Restarted(s), calls + [LastCall()]).layer.log;
    TwoIsNotOne(s.layer.log, log);
    HandshakesOnly(Restarted(s), calls);
    NotSafe(s, calls + [LastCall()], |s.layer.log| + 10);
  }

  lemma HandshakesOnly(s: Conn, calls: seq<Call>)
    requires OnlyHandshakes(calls)
    ensures NoUnsafeRestart(s, calls + [LastCall()])
  {
    hide Run;
  }

  lemma NotSafe(s: Conn, more: seq<Call>, d: nat)
    requires NoUnsafeRestart(Restarted(s), more)
    requires var log := Run(Restarted(s), more).layer.log;
      d < |log| && log[d] == Done && NeverProper(log, d)
    ensures !SafeAfter(s)
  {
    hide Run;
    hide ProperlyDone;
    hide Restarted;
    assert !DonesProper(Run(Restarted(s), more).layer.log, 0);
  }

  /** A renegotiation that may start in a state that a run reaches keeps every HANDSHAKE_DONE
      earned, whatever happens then, if and only if no ChangeCipherSpec is expected there that can
      still come. */
  lemma RenegotiationIsSafeExactly(
    isServer: bool, mayCutThrough: bool, refusesHello: bool, sentShutdown: bool, calls: seq<Call>)
    requires NoUnsafeRestart(Initial(isServer, mayCutThrough, refusesHello, sentShutdown), calls)
    requires !InInit(Run(Initial(isServer, mayCutThrough, refusesHello, sentShutdown), calls), false)
    ensures var s := Run(Initial(isServer, mayCutThrough, refusesHello, sentShutdown), calls);
      SafeAfter(s) <==> !Unsafe(s)
  {
    hide *;
    var s := Initial(isServer, mayCutThrough, refusesHello, sentShutdown);
    InitialIsValid(isServer, mayCutThrough, refusesHello, sentShutdown);
    ValidIsSound(s);
    RunIsSound(s, calls);
    var t := Run(s, calls);
    UnsafeIs(t);
    if Unsafe(t) {
      SoundIs(t);
      HopelessIsInInit(t);
      UnsafeIsUnsafe(t);
    } else {
      SafeOutside(t);
    }
  }

  lemma HopelessIsInInit(s: Conn)
    ensures Hopeless(s) ==> InInit(s, false)
  {
  }

  /** So there is a run, with one renegotiation, in which a handshake is done that was not earned. */
  lemma TwoChangeCipherSpecs() returns (calls: seq<Call>)
    ensures |calls| >= 3 && calls[..3] == [FirstCall(), WaitCall(), Renegotiating]
    ensures NoUnsafeRestart(Run(NewClient(), calls[..3]), calls[3..])
    ensures !DonesProper(Run(NewClient(), calls).layer.log, 0)
  {
    var begin := [FirstCall(), WaitCall(), Renegotiating];
    var s := Run(NewClient(), [FirstCall(), WaitCall()]);
    hide *;
    WindowIsReached();
    UnsafeIs(s);
    UnsafeIsUnsafe(s);
    SafeAfterIs(s);
    var more: seq<Call> :| NoUnsafeRestart(Restarted(s), more) && !DonesProper(Run(Restarted(s), more).layer.log, 0);
    InWindowRestarts(s);
    assert begin == [FirstCall(), WaitCall()] + [Renegotiating];
    RunSnoc(NewClient(), [FirstCall(), WaitCall()], Renegotiating);
    RunConcat(NewClient(), begin, more);
    calls := begin + more;
  }

  lemma InWindowRestarts(s: Conn)
    requires InWindow(s)
    ensures Called(s, Renegotiating) == Restarted(s)
  {
  }

  lemma {:induction false} RunConcat(s: Conn, first: seq<Call>, second: seq<Call>)
    ensures Run(s, first + second) == Run(Run(s, first), second)
  {
    hide Called;
    if second == [] {
      assert first + second == first;
    } else {
      var init, last := second[..|second| - 1], second[|second| - 1];
      RunConcat(s, first, init);
      assert (first + second)[..|first + second| - 1] == first + init;
    }
  }
}
