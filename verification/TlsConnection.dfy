/**
 The TLS connection as the code keeps it: fields that the record layer and the handshake loops
 update in place. Every method does what the function of TlsHandshake of that name says, and keeps
 flags and state in step with the phase of the handshake.
 */
module TlsConnection {
  import opened HandshakeLog
  import H = TlsHandshake
  import Window = CutThroughWindow

  type State = H.State
  type Kind = H.Kind
  type Choice = H.Choice

  class Connection {
    const isServer: bool
    const refusesHello: bool
    const sentShutdown: bool
    var mayCutThrough: bool
    var canCutThrough: bool
    /** s->state, s->s3->tmp.next_state, and whether the state is in its B half */
    var state: State
    var nextState: State
    var body: bool
    var hit: bool
    var ticket: bool
    var renegotiate: nat
    var reuseMessage: bool
    /** SSL3_FLAGS_EXPECT_CCS, s->s3->change_cipher_spec, and whether tmp.new_cipher is set */
    var expectCcs: bool
    var changeCipherSpec: bool
    var newCipher: bool
    /** s->s3->handshake_fragment, s->s3->rrec, s->shutdown */
    var fragLen: nat
    var fragHelloRequest: bool
    var rr: H.Record
    var receivedShutdown: bool
    ghost var log: seq<Event>

    ghost function LayerValue(): H.Layer
      reads this`expectCcs, this`changeCipherSpec, this`newCipher, this`fragLen, this`fragHelloRequest, this`rr
      reads this`receivedShutdown, this`log
    {
      H.Layer(expectCcs, changeCipherSpec, newCipher, fragLen, fragHelloRequest, rr, receivedShutdown, log)
    }

    ghost function Value(): H.Conn
      reads this
    {
      H.Conn(isServer, refusesHello, sentShutdown, mayCutThrough, canCutThrough, state, nextState, body, hit, ticket, renegotiate,
             reuseMessage, LayerValue())
    }

    ghost function ContextValue(): H.Context
      reads this`state
    {
      H.Context(isServer, state == H.Ok, refusesHello, sentShutdown)
    }

    /** Where the handshake stands, by what happened so far */
    ghost function Phase(): HandshakeLog.Phase
      reads this`log
    {
      PhaseOf(log)
    }

    /** The flags of the record layer agree with the phase. */
    ghost predicate RecordsOk()
      reads this`expectCcs, this`changeCipherSpec, this`newCipher, this`fragLen, this`fragHelloRequest, this`rr
      reads this`receivedShutdown, this`log
    {
      H.LayerOk(LayerValue())
    }

    /** So does the state. */
    ghost predicate Valid()
      reads this
    {
      H.Valid(Value())
    }

    /** Inside a loop, a state Ok that was just reached stands for a verified handshake. */
    ghost predicate Live()
      reads this
    {
      H.Live(Value())
    }

    constructor (isServer: bool, mayCutThrough: bool, refusesHello: bool, sentShutdown: bool)
      ensures Value() == H.Initial(isServer, mayCutThrough, refusesHello, sentShutdown) && Valid()
    {
      this.isServer, this.mayCutThrough, canCutThrough := isServer, mayCutThrough, false;
      this.refusesHello, this.sentShutdown := refusesHello, sentShutdown;
      state, nextState, body, hit, ticket, renegotiate, reuseMessage := H.Start, H.Start, false, false, false, 0, false;
      expectCcs, changeCipherSpec, newCipher := false, false, false;
      fragLen, fragHelloRequest, receivedShutdown, log := 0, false, false, [];
      rr := H.Record(H.Unknown, 0, false, false, H.Warning, false);
    }

    // ---------- the record layer ----------

    /** `ssl3_expect_change_cipher_spec`: only if no handshake bytes and no message are left over;
        then the phase Awaiting begins, otherwise nothing changes. */
    method ExpectCcs() returns (ret: int)
      modifies this`expectCcs, this`log
      ensures H.Result(Value(), ret) == H.ExpectCcs(old(Value()))
      ensures ret == (if fragLen == 0 && !reuseMessage then 1 else 0)
      ensures ret == 0 ==> expectCcs == old(expectCcs) && log == old(log)
      ensures old(RecordsOk() && Phase() == Begun) ==>
        RecordsOk() && Phase() == if ret == 1 then Awaiting else Begun
    {
      PhaseSnoc(log, Expecting);
      hide PhaseOf;
      if fragLen > 0 || reuseMessage {
        return 0;
      }
      expectCcs := true;
      log := log + [Expecting];
      return 1;
    }

    method Store()
      requires fragLen < 4
      modifies this`fragLen, this`fragHelloRequest, this`rr, this`log
      ensures LayerValue() == H.Stored(old(LayerValue()))
    {
      var n := if 4 - fragLen < rr.length then 4 - fragLen else rr.length;
      if fragLen == 0 {
        fragHelloRequest := rr.helloRequest;
      }
      fragLen := fragLen + n;
      rr := rr.(length := rr.length - n);
      log := log + [HandshakeBytes];
    }

    ghost function ProgressValue(again: bool, ret: int, restart: bool): H.Progress
      reads this`expectCcs, this`changeCipherSpec, this`newCipher, this`fragLen, this`fragHelloRequest, this`rr
      reads this`receivedShutdown, this`log
    {
      if again then H.Again(LayerValue()) else H.Return(LayerValue(), ret, restart)
    }

    method TakeAlert() returns (again: bool, ret: int)
      modifies this`rr, this`receivedShutdown
      ensures ProgressValue(again, ret, false) == H.TakeAlert(old(LayerValue()))
    {
      again, ret := false, -1;
      match rr.alert
      case Warning =>
        again := rr.length > 0;
        rr := rr.(length := 0);
      case Malformed =>
        rr := rr.(length := 0);
      case _ =>
        rr := rr.(length := 0);
        receivedShutdown := true;
        ret := 0;
    }

    /** The record is the ChangeCipherSpec that is awaited. */
    predicate IsAwaitedCcs()
      reads this`expectCcs, this`newCipher, this`rr
    {
      rr.length == 1 && rr.good && newCipher && expectCcs
    }

    /** A ChangeCipherSpec record: taken only when it is expected, and once; nothing changes else. */
    method TakeCcs() returns (again: bool, ret: int)
      modifies this`expectCcs, this`changeCipherSpec, this`rr, this`log
      ensures ProgressValue(again, ret, false) == H.TakeCcs(old(LayerValue()))
      ensures old(IsAwaitedCcs()) ==> !expectCcs && changeCipherSpec && log == old(log) + [ChangedCipher]
      ensures !old(IsAwaitedCcs()) ==> LayerValue() == old(LayerValue()) && ret <= 0 && !again
      ensures old(RecordsOk()) ==> RecordsOk() && Phase() == if old(IsAwaitedCcs()) then Changed else old(Phase())
    {
      PhaseSnoc(log, ChangedCipher);
      hide PhaseOf;
      if rr.length != 1 || !rr.good || !newCipher || !expectCcs {
        return false, -1;
      }
      expectCcs := false;
      rr := rr.(length := 0);
      changeCipherSpec := true;
      log := log + [ChangedCipher];
      return rr.changed, -1;
    }

    method Surprise(want: Kind) returns (again: bool, ret: int, restart: bool)
      modifies this`expectCcs, this`changeCipherSpec, this`fragLen, this`rr, this`receivedShutdown, this`log
      ensures ProgressValue(again, ret, restart) == H.Surprise(ContextValue(), old(LayerValue()), want)
    {
      hide H.TakeAlert;
      hide H.TakeCcs;
      again, ret, restart := false, -1, false;
      if !isServer && fragLen >= 4 && fragHelloRequest {
        fragLen := 0;
        again, restart := state != H.Ok, state == H.Ok;
      } else if isServer && state == H.Ok && refusesHello && fragLen >= 4 {
        if rr.length > 0 {
          rr := rr.(length := 0);
          again := true;
        }
      } else if rr.kind == H.Alert {
        again, ret := TakeAlert();
      } else if sentShutdown {
        rr := rr.(length := 0);
        ret := 0;
      } else if rr.kind == H.Ccs {
        again, ret := TakeCcs();
      } else if fragLen >= 4 && want != H.Handshake {
        restart := state == H.Ok;
      } else if rr.kind == H.Unknown && rr.good && rr.length > 0 {
        rr := rr.(length := 0);
        again := true;
      }
    }

    /** One pass of `ssl3_read_bytes` with a record at hand: the phase stays, or the ChangeCipherSpec
        that is awaited is taken; while it is awaited nothing else gets through. */
    method ReadOnce(want: Kind, len: nat) returns (again: bool, ret: int, restart: bool)
      requires rr.length > 0
      modifies this`expectCcs, this`changeCipherSpec, this`fragLen, this`fragHelloRequest, this`rr
      modifies this`receivedShutdown, this`log
      ensures ProgressValue(again, ret, restart) == H.ReadOnce(ContextValue(), old(LayerValue()), want, len)
      ensures old(RecordsOk()) ==> H.ReadChange(old(LayerValue()), LayerValue()) && (!again && restart ==> state == H.Ok)
      ensures old(RecordsOk() && LayerValue().expectCcs) ==>
        (log == old(LayerValue().log) || (log == old(LayerValue().log) + [ChangedCipher] && !expectCcs))
    {
      ghost var l := LayerValue();
      again, ret, restart := OnePass(want, len);
      hide *;
      KeptByPass(l, want, len, again, ret, restart);
    }

    lemma KeptByPass(l: H.Layer, want: Kind, len: nat, again: bool, ret: int, restart: bool)
      requires l.rr.length > 0 && ProgressValue(again, ret, restart) == H.ReadOnce(ContextValue(), l, want, len)
      ensures H.LayerOk(l) ==> H.ReadChange(l, LayerValue()) && (!again && restart ==> state == H.Ok)
      ensures H.LayerOk(l) && l.expectCcs ==> log == l.log || (log == l.log + [ChangedCipher] && !expectCcs)
    {
      hide H.ReadOnce;
      hide H.LayerOk;
      hide H.ReadChange;
      if H.LayerOk(l) {
        H.ReadOnceKeeps(ContextValue(), l, want, len);
        H.AwaitingLetsNothingElse(ContextValue(), l, want, len);
      }
    }

    method OnePass(want: Kind, len: nat) returns (again: bool, ret: int, restart: bool)
      requires rr.length > 0
      modifies this`expectCcs, this`changeCipherSpec, this`fragLen, this`fragHelloRequest, this`rr
      modifies this`receivedShutdown, this`log
      ensures ProgressValue(again, ret, restart) == H.ReadOnce(ContextValue(), old(LayerValue()), want, len)
    {
      hide H.Surprise;
      hide H.Stored;
      again, ret, restart := false, -1, false;
      if changeCipherSpec && rr.kind != H.Handshake {
        return;
      }
      if rr.kind == H.Handshake && expectCcs {
        return;
      }
      if receivedShutdown {
        rr := rr.(length := 0);
        return false, 0, false;
      }
      if want == rr.kind && want != H.Unknown {
        if len == 0 {
          return false, 0, false;
        }
        ret := if len > rr.length then rr.length else len;
        rr := rr.(length := rr.length - ret);
        if want == H.Handshake {
          log := log + [HandshakeBytes];
        }
        return;
      }
      if rr.kind == H.Handshake && fragLen < 4 {
        Store();
        if fragLen < 4 {
          return true, -1, false;
        }
      }
      again, ret, restart := Surprise(want);
    }

    /** `ssl3_read_bytes` */
    method ReadBytes(want: Kind, len: nat, records: seq<H.Record>) returns (ret: int, restart: bool)
      modifies this`expectCcs, this`changeCipherSpec, this`fragLen, this`fragHelloRequest, this`rr
      modifies this`receivedShutdown, this`log
      ensures H.Return(LayerValue(), ret, restart) == H.ReadBytes(ContextValue(), old(LayerValue()), want, len, records)
    {
      hide H.ReadOnce;
      if want == H.Handshake && fragLen > 0 {
        ret := if len < fragLen then len else fragLen;
        fragLen := fragLen - ret;
        if ret > 0 {
          log := log + [HandshakeBytes];
        }
        return ret, false;
      }
      var k := 0;
      while true
        invariant 0 <= k <= |records|
        invariant H.ReadRecords(ContextValue(), LayerValue(), want, len, records[k..]) ==
                  H.ReadRecords(ContextValue(), old(LayerValue()), want, len, records)
        decreases |records| - k, rr.length, fragLen
      {
        if rr.length == 0 {
          if k == |records| {
            return -1, false;
          }
          assert records[k..][1..] == records[k + 1..];
          rr := records[k];
          k := k + 1;
        } else {
          ghost var before := LayerValue();
          var again;
          again, ret, restart := ReadOnce(want, len);
          if !again {
            return;
          }
          H.ReadOnceDecreases(ContextValue(), before, want, len);
        }
      }
    }

    // ---------- single fields ----------

    /** The fields that decide where a loop goes. */
    lemma Fields()
      ensures Value().state == state && Value().nextState == nextState && Value().hit == hit && Value().ticket == ticket
      ensures Value().mayCutThrough == mayCutThrough && Value().canCutThrough == canCutThrough
      ensures Value().isServer == isServer && Value().body == body
      ensures Value().renegotiate == renegotiate && Value().reuseMessage == reuseMessage
      ensures Value().layer == LayerValue() && LayerValue().changeCipherSpec == changeCipherSpec
      ensures H.ContextOf(Value()) == ContextValue()
    {
    }

    method Go(next: State)
      modifies this`state
      ensures Value() == old(Value()).(state := next)
    {
      state := next;
    }

    method Enter(next: State)
      modifies this`state, this`body
      ensures Value() == old(Value()).(state := next, body := false)
    {
      state, body := next, false;
    }

    method EnterKeeping(next: State, reuse: bool)
      modifies this`state, this`body, this`reuseMessage
      ensures Value() == old(Value()).(state := next, body := false, reuseMessage := reuse)
    {
      state, body, reuseMessage := next, false, reuse;
    }

    method GoFlush(next: State)
      modifies this`state, this`nextState
      ensures Value() == old(Value()).(state := H.Flush, nextState := next)
    {
      state, nextState := H.Flush, next;
    }

    method GoRenegotiate(next: State, count: nat)
      modifies this`state, this`renegotiate
      ensures Value() == old(Value()).(state := next, renegotiate := count)
    {
      state, renegotiate := next, count;
    }

    method ClearCcs()
      modifies this`changeCipherSpec
      ensures Value() == H.CcsCleared(old(Value()))
    {
      changeCipherSpec := false;
    }

    ghost method Note(e: Event)
      modifies this`log
      ensures Value() == H.NotedIn(old(Value()), e)
    {
      log := log + [e];
    }

    /** What a hello settles */
    method AcceptHello(c: Choice)
      modifies this`hit, this`ticket, this`canCutThrough, this`newCipher
      ensures Value() == old(Value()).(hit := c.hit, ticket := c.ticket, canCutThrough := c.cutThrough,
                                            layer := old(LayerValue()).(newCipher := true))
    {
      hit, ticket, canCutThrough, newCipher := c.hit, c.ticket, c.cutThrough, true;
    }

    // ---------- messages ----------

    /** `ssl3_get_message`: only the record layer, the kept message and the half of the state change;
        no message is handed up while a ChangeCipherSpec is expected. */
    method GetMessage(c: Choice) returns (ret: int)
      modifies this
      ensures H.Result(Value(), ret) == H.GetMessage(old(Value()), c)
      ensures old(Valid()) ==> H.MessageChange(old(Value()), Value()) && (ret > 0 ==> !expectCcs)
    {
      ghost var s := Value();
      ret := ReadMessage(c);
      hide *;
      KeptByMessage(s, c, ret);
    }

    lemma KeptByMessage(s: H.Conn, c: Choice, ret: int)
      requires H.Result(Value(), ret) == H.GetMessage(s, c)
      ensures H.Valid(s) ==> H.MessageChange(s, Value()) && (ret > 0 ==> !expectCcs)
    {
      hide H.GetMessage;
      hide H.Valid;
      hide H.MessageChange;
      if H.Valid(s) {
        H.GetMessageKeeps(s, c);
        if ret > 0 {
          H.GetMessageSucceeds(s, c);
        }
      }
    }

    method ReadMessage(c: Choice) returns (ret: int)
      modifies this
      ensures H.Result(Value(), ret) == H.GetMessage(old(Value()), c)
    {
      hide H.ReadAll;
      if reuseMessage {
        reuseMessage := false;
        return if c.done then 1 else 0;
      }
      ret := ReadAll(c.inputs);
      if ret <= 0 || c.inputs == [] || !c.done {
        body := body || c.headerRead;
        return if ret <= 0 then ret else 0;
      }
      return 1;
    }

    /** The reads of a message, until one fails */
    method ReadAll(inputs: seq<H.Read>) returns (ret: int)
      modifies this`expectCcs, this`changeCipherSpec, this`fragLen, this`fragHelloRequest, this`rr
      modifies this`receivedShutdown, this`log
      ensures LayerValue() == H.ReadAll(ContextValue(), old(LayerValue()), inputs).layer
      ensures ret == H.ReadAll(ContextValue(), old(LayerValue()), inputs).ret
    {
      hide H.ReadBytes;
      ret := 1;
      var k := 0;
      while k < |inputs|
        invariant 0 <= k <= |inputs| && ret > 0
        invariant H.ReadAll(ContextValue(), LayerValue(), inputs[k..]) ==
                  H.ReadAll(ContextValue(), old(LayerValue()), inputs)
      {
        assert inputs[k..][0] == inputs[k] && inputs[k..][1..] == inputs[k + 1..];
        var restart;
        ret, restart := ReadBytes(H.Handshake, inputs[k].len, inputs[k].records);
        if ret <= 0 {
          return;
        }
        k := k + 1;
      }
      ret := 1;
    }

    lemma VerifiedGives()
      requires H.LayerOk(LayerValue()) && PhaseOf(log) == Verified
      ensures RecordsOk() && !expectCcs && !changeCipherSpec
    {
    }

    /** `ssl3_get_finished`: succeeds only behind the ChangeCipherSpec, which it uses up; after a
        failure the connection is in step as before. */
    method GetFinished(c: Choice) returns (ret: int)
      modifies this
      ensures H.Result(Value(), ret) == H.GetFinished(old(Value()), c)
      ensures old(Valid() && H.Late(state)) && ret > 0 ==>
        RecordsOk() && Phase() == Verified && !expectCcs && !changeCipherSpec && state == old(state)
      ensures old(Valid() && H.Late(state)) && ret <= 0 ==> Valid() && state == old(state)
    {
      ghost var s := Value();
      Fields();
      ret := FinishMessage(c);
      Fields();
      hide *;
      if H.Valid(s) && H.Late(s.state) {
        H.GetFinishedKeeps(s, c);
      }
      FinishedIs(s, c, ret);
    }

    lemma FinishedIs(s: H.Conn, c: Choice, ret: int)
      requires H.Result(Value(), ret) == H.GetFinished(s, c)
      requires H.Valid(s) && H.Late(s.state) ==>
        var r := H.GetFinished(s, c);
        && r.conn.state == s.state && (r.ret > 0 ==> H.LayerOk(r.conn.layer) && PhaseOf(r.conn.layer.log) == Verified)
        && (r.ret <= 0 ==> H.Valid(r.conn))
      ensures H.Valid(s) && H.Late(s.state) && ret > 0 ==>
        RecordsOk() && Phase() == Verified && !expectCcs && !changeCipherSpec && state == s.state
      ensures H.Valid(s) && H.Late(s.state) && ret <= 0 ==> Valid() && state == s.state
    {
      hide H.GetFinished;
      hide H.Valid;
      hide H.Late;
      if H.Valid(s) && H.Late(s.state) && ret > 0 {
        VerifiedGives();
      }
    }

    method FinishMessage(c: Choice) returns (ret: int)
      modifies this
      ensures H.Result(Value(), ret) == H.GetFinished(old(Value()), c)
    {
      hide H.GetMessage;
      hide Value;
      ret := GetMessage(c);
      if ret <= 0 {
        return;
      }
      Fields();
      if !changeCipherSpec {
        return 0;
      }
      ClearCcs();
      if !c.digestOk {
        return 0;
      }
      Note(FinishedVerified);
      return 1;
    }

    method ReadThen(c: Choice, next: State) returns (ret: int)
      modifies this
      ensures H.Result(Value(), ret) == H.ReadThen(old(Value()), c, next)
    {
      hide H.GetMessage;
      hide Value;
      ret := GetMessage(c);
      if ret > 0 {
        EnterKeeping(next, c.reuse);
        ret := 1;
      }
    }

    method ReadAfterCcs(c: Choice, next: State) returns (ret: int)
      modifies this
      ensures H.Result(Value(), ret) == H.ReadAfterCcs(old(Value()), c, next)
    {
      hide H.GetMessage;
      hide Value;
      ret := GetMessage(c);
      if ret <= 0 {
        return;
      }
      Fields();
      if !changeCipherSpec {
        return -1;
      }
      Enter(next);
      return 1;
    }

    method SendThen(c: Choice, next: State) returns (ret: int)
      modifies this`state
      ensures H.Result(Value(), ret) == H.SendThen(old(Value()), c, next)
    {
      hide Value;
      if !c.done {
        return -1;
      }
      Go(next);
      return 1;
    }

    method SendThenFlush(c: Choice, next: State) returns (ret: int)
      modifies this`state, this`nextState
      ensures H.Result(Value(), ret) == H.SendThenFlush(old(Value()), c, next)
    {
      hide Value;
      if !c.done {
        return -1;
      }
      GoFlush(next);
      return 1;
    }

    method ExpectThen(next: State) returns (ret: int)
      modifies this
      ensures H.Result(Value(), ret) == H.ExpectThen(old(Value()), next)
    {
      hide Value;
      ret := ExpectCcs();
      if ret == 0 {
        return -1;
      }
      Enter(next);
      return 1;
    }

    method ChangeThen(c: Choice, next: State) returns (ret: int)
      modifies this`state
      ensures H.Result(Value(), ret) == H.ChangeThen(old(Value()), c, next)
    {
      hide Value;
      if !c.done {
        return -1;
      }
      Go(next);
      return if c.keysOk then 1 else -1;
    }

    /** Messages that the cipher suite or the settings may leave out */
    method SkipOrSend(c: Choice, skipped: State, next: State) returns (ret: int)
      modifies this`state
      ensures H.Result(Value(), ret) ==
        if c.skip then H.Result(old(Value()).(state := skipped), 1) else H.SendThen(old(Value()), c, next)
    {
      hide H.SendThen;
      hide Value;
      if c.skip {
        Go(skipped);
        ret := 1;
      } else {
        ret := SendThen(c, next);
      }
    }

    method SkipOrRead(c: Choice, skipped: State, next: State) returns (ret: int)
      modifies this
      ensures H.Result(Value(), ret) ==
        if c.skip then H.Result(old(Value()).(state := skipped), 1) else H.ReadThen(old(Value()), c, next)
    {
      hide H.ReadThen;
      hide Value;
      if c.skip {
        Go(skipped);
        ret := 1;
      } else {
        ret := ReadThen(c, next);
      }
    }

    // ---------- the loops ----------

    method GetServerHello(c: Choice) returns (ret: int)
      requires state == H.CrServerHello
      modifies this
      ensures H.Result(Value(), ret) == H.ClientStep(old(Value()), c)
    {
      hide *;
      Fields();
      H.ServerHelloIs(Value(), c);
      ret := GetMessage(c);
      Fields();
      if ret > 0 {
        AcceptHello(c);
        Enter(if !c.hit then H.CrCert else if c.ticket then H.CrSessionTicket else H.CrChange);
        ret := 1;
      }
    }

    method GetServerFinished(c: Choice) returns (ret: int)
      requires state == H.CrFinished
      modifies this
      ensures H.Result(Value(), ret) == H.ClientStep(old(Value()), c)
    {
      hide H.GetFinished;
      ret := GetFinished(c);
      if ret > 0 {
        state, mayCutThrough := if hit then H.CwChange else H.Ok, false;
        ret := 1;
      }
    }

    /** Rounds of the client that send */
    method ClientWrite(c: Choice) returns (ret: int)
      requires H.ClientWrites(state)
      modifies this
      ensures H.Result(Value(), ret) == H.ClientStep(old(Value()), c)
    {
      hide H.GetMessage;
      hide H.GetFinished;
      hide H.ReadThen;
      hide H.SendThen;
      hide H.SendThenFlush;
      hide H.ChangeThen;
      hide H.ExpectThen;
      hide H.CcsCleared;
      Fields();
      hide Value;
      match state
      case CwClientHello => ret := SendThen(c, H.CrServerHello);
      case CwCert => ret := SendThen(c, H.CwKeyExch);
      case CwKeyExch =>
        if c.request {
          ret := SendThen(c, H.CwCertVerify);
        } else {
          if c.done {
            ClearCcs();
          }
          ret := SendThen(c, H.CwChange);
        }
      case CwCertVerify =>
        if c.done {
          ClearCcs();
        }
        ret := SendThen(c, H.CwChange);
      case CwChange =>
        ret := ChangeThen(c, if c.nextProto then H.CwNextProto else if c.channelId then H.CwChannelId else H.CwFinished);
      case CwNextProto => ret := SendThen(c, if c.channelId then H.CwChannelId else H.CwFinished);
      case CwChannelId => ret := SendThen(c, H.CwFinished);
      case CwFinished =>
        ret := SendThenFlush(c,
          if hit then H.Ok else if mayCutThrough && canCutThrough then H.CutThrough
          else if ticket then H.CrSessionTicket else H.CrChange);
    }

    /** Rounds of the client that read */
    method ClientRead(c: Choice) returns (ret: int)
      requires H.ClientReads(state) || state == H.CrChange || state == H.CrFinished
      modifies this
      ensures H.Result(Value(), ret) == H.ClientStep(old(Value()), c)
    {
      hide H.GetMessage;
      hide H.GetFinished;
      hide H.ReadThen;
      hide H.SendThen;
      hide H.SendThenFlush;
      hide H.ChangeThen;
      hide H.ExpectThen;
      Fields();
      hide Value;
      match state
      case CrServerHello => ret := GetServerHello(c);
      case CrCert =>
        ret := SkipOrRead(c.(reuse := false), H.CrKeyExch, if c.certStatus then H.CrCertStatus else H.CrKeyExch);
      case CrCertStatus => ret := ReadThen(c, H.CrKeyExch);
      case CrKeyExch =>
        ret := ReadThen(c, H.CrCertReq);
        if ret > 0 && !c.keysOk {
          ret := -1;
        }
      case CrCertReq => ret := ReadThen(c, H.CrServerDone);
      case CrServerDone => ret := ReadThen(c.(reuse := false), if c.request then H.CwCert else H.CwKeyExch);
      case CrSessionTicket => ret := ReadThen(c, H.CrChange);
      case CrChange => ret := ExpectThen(H.CrFinished);
      case CrFinished => ret := GetServerFinished(c);
    }

    /** Rounds of the client that neither read nor send */
    method ClientOther(c: Choice) returns (ret: int)
      requires !H.ClientReads(state) && state != H.CrChange && state != H.CrFinished && !H.ClientWrites(state)
      modifies this
      ensures H.Result(Value(), ret) == H.ClientStep(old(Value()), c)
    {
      hide H.GetMessage;
      hide H.GetFinished;
      hide H.ReadThen;
      hide H.SendThen;
      hide H.SendThenFlush;
      hide H.ChangeThen;
      hide H.ExpectThen;
      hide H.NotedIn;
      Fields();
      hide Value;
      ret := 1;
      match state
      case Start =>
        Go(H.CwClientHello);
        Note(Started);
      case Flush =>
        if c.done {
          Go(nextState);
        } else {
          ret := -1;
        }
      case CutThrough =>
        Enter(if ticket then H.CrSessionTicket else H.CrChange);
        ret := 2;
      case Ok =>
        GoRenegotiate(state, 0);
        Note(Done);
        ret := 2;
      case _ =>
        ret := -1;
    }

    /** One round of `ssl3_connect`: state, flags and phase stay in step, and the loop goes on to
        report a handshake done only if it was verified. */
    method ClientStep(c: Choice) returns (ret: int)
      requires !isServer
      modifies this
      ensures H.Result(Value(), ret) == H.ClientStep(old(Value()), c)
      ensures old(Valid() && Live()) ==> Valid() && (ret == 1 ==> Live())
    {
      ghost var s := Value();
      if H.Valid(s) && H.Live(s) {
        H.ClientStepKeeps(s, c);
      }
      hide H.Valid;
      hide H.Live;
      hide H.ClientStep;
      hide Value;
      if H.ClientReads(state) || state == H.CrChange || state == H.CrFinished {
        ret := ClientRead(c);
      } else if H.ClientWrites(state) {
        ret := ClientWrite(c);
      } else {
        ret := ClientOther(c);
      }
    }

    method GetClientHello(c: Choice) returns (ret: int)
      requires state == H.SrClientHello
      modifies this
      ensures H.Result(Value(), ret) == H.ServerStep(old(Value()), c)
    {
      hide H.GetMessage;
      Fields();
      hide Value;
      ret := GetMessage(c);
      Fields();
      if ret > 0 {
        AcceptHello(c);
        Enter(H.SwServerHello);
        Fields();
        GoRenegotiate(state, 2);
        ret := 1;
      }
    }

    method GetClientFinished(c: Choice) returns (ret: int)
      requires state == H.SrFinished
      modifies this
      ensures H.Result(Value(), ret) == H.ServerStep(old(Value()), c)
    {
      hide H.GetFinished;
      Fields();
      hide Value;
      ret := GetFinished(c);
      Fields();
      if ret > 0 {
        Go(if hit then H.Ok else if ticket then H.SwSessionTicket else H.SwChange);
        ret := if c.keysOk then 1 else -1;
      }
    }

    /** Rounds of the server that read */
    method ServerRead(c: Choice) returns (ret: int)
      requires H.ServerReads(state) || state == H.SrChange || (H.Late(state) && state != H.CrFinished)
      modifies this
      ensures H.Result(Value(), ret) == H.ServerStep(old(Value()), c)
    {
      hide H.GetMessage;
      hide H.GetFinished;
      hide H.ReadThen;
      hide H.SendThen;
      hide H.SendThenFlush;
      hide H.ChangeThen;
      hide H.ExpectThen;
      hide H.ReadAfterCcs;
      Fields();
      hide Value;
      match state
      case SrClientHello => ret := GetClientHello(c);
      case SrCert => ret := SkipOrRead(c, H.SrKeyExch, H.SrKeyExch);
      case SrKeyExch => ret := ReadThen(c, H.SrCertVerify);
      case SrCertVerify => ret := SkipOrRead(c, H.SrChange, H.SrChange);
      case SrChange =>
        ret := ExpectThen(if c.nextProto then H.SrNextProto else if c.channelId then H.SrChannelId else H.SrFinished);
      case SrNextProto => ret := ReadAfterCcs(c, if c.channelId then H.SrChannelId else H.SrFinished);
      case SrChannelId => ret := ReadAfterCcs(c, H.SrFinished);
      case SrFinished => ret := GetClientFinished(c);
    }

    /** Rounds of the server that send its first flight */
    method ServerWriteFirst(c: Choice) returns (ret: int)
      requires H.ServerWrites(state) && !H.ServerSends(state)
      modifies this
      ensures H.Result(Value(), ret) == H.ServerStep(old(Value()), c)
    {
      hide H.GetMessage;
      hide H.GetFinished;
      hide H.ReadThen;
      hide H.SendThen;
      hide H.SendThenFlush;
      hide H.ChangeThen;
      hide H.ExpectThen;
      hide H.ReadAfterCcs;
      Fields();
      hide Value;
      match state
      case SwHelloRequest => ret := SendThenFlush(c, H.SwHelloRequestDone);
      case SwServerHello =>
        ret := SendThen(c, if !hit then H.SwCert else if ticket then H.SwSessionTicket else H.SwChange);
      case SwCert => ret := SkipOrSend(c, H.SwKeyExch, if c.certStatus then H.SwCertStatus else H.SwKeyExch);
      case SwCertStatus => ret := SendThen(c, H.SwKeyExch);
      case SwKeyExch => ret := SkipOrSend(c, H.SwCertReq, H.SwCertReq);
      case SwCertReq => ret := SkipOrSend(c, H.SwServerDone, H.SwServerDone);
      case SwServerDone => ret := SendThenFlush(c, H.SrCert);
    }

    /** Rounds of the server that send its last flight */
    method ServerWriteLast(c: Choice) returns (ret: int)
      requires H.ServerSends(state)
      modifies this
      ensures H.Result(Value(), ret) == H.ServerStep(old(Value()), c)
    {
      hide H.GetMessage;
      hide H.GetFinished;
      hide H.ReadThen;
      hide H.SendThen;
      hide H.SendThenFlush;
      hide H.ChangeThen;
      hide H.ExpectThen;
      hide H.ReadAfterCcs;
      Fields();
      hide Value;
      match state
      case SwSessionTicket => ret := SendThen(c, H.SwChange);
      case SwChange => ret := ChangeThen(c, H.SwFinished);
      case SwFinished => ret := SendThenFlush(c, if hit then H.SrChange else H.Ok);
    }

    /** Rounds of the server that neither read nor send */
    method ServerOther(c: Choice) returns (ret: int)
      requires !H.ServerReads(state) && state != H.SrChange && !(H.Late(state) && state != H.CrFinished)
      requires !H.ServerWrites(state)
      modifies this
      ensures H.Result(Value(), ret) == H.ServerStep(old(Value()), c)
    {
      hide H.GetMessage;
      hide H.GetFinished;
      hide H.ReadThen;
      hide H.SendThen;
      hide H.SendThenFlush;
      hide H.ChangeThen;
      hide H.ExpectThen;
      hide H.ReadAfterCcs;
      hide H.NotedIn;
      Fields();
      hide Value;
      ret := 1;
      match state
      case Start =>
        GoRenegotiate(if c.request then H.SwHelloRequest else H.SrClientHello, if c.request then 1 else renegotiate);
        Note(Started);
      case SwHelloRequestDone =>
        Go(H.Ok);
      case Flush =>
        if c.done {
          Go(nextState);
        } else {
          ret := -1;
        }
      case Ok =>
        if renegotiate == 2 {
          GoRenegotiate(state, 0);
          Note(Done);
        }
        ret := 2;
      case _ =>
        ret := -1;
    }

    /** One round of `ssl3_accept`: the same for the server */
    method ServerStep(c: Choice) returns (ret: int)
      requires isServer
      modifies this
      ensures H.Result(Value(), ret) == H.ServerStep(old(Value()), c)
      ensures old(Valid() && Live()) ==> Valid() && (ret == 1 ==> Live())
    {
      ghost var s := Value();
      if H.Valid(s) && H.Live(s) {
        H.ServerStepKeeps(s, c);
      }
      hide H.Valid;
      hide H.Live;
      hide H.ServerStep;
      hide Value;
      if H.ServerReads(state) || state == H.SrChange || (H.Late(state) && state != H.CrFinished) {
        ret := ServerRead(c);
      } else if H.ServerSends(state) {
        ret := ServerWriteLast(c);
      } else if H.ServerWrites(state) {
        ret := ServerWriteFirst(c);
      } else {
        ret := ServerOther(c);
      }
    }

    /** The loop of either side */
    method Loop(choices: seq<Choice>)
      modifies this
      ensures Value() == H.Loop(old(Value()), choices)
      ensures old(Valid() && Live()) ==> Valid()
    {
      hide H.ClientStep;
      hide H.ServerStep;
      hide Value;
      hide Valid;
      hide Live;
      var k := 0;
      while k < |choices|
        invariant 0 <= k <= |choices|
        invariant old(Valid() && Live()) ==> Valid() && Live()
        invariant H.Loop(Value(), choices[k..]) == H.Loop(old(Value()), choices)
      {
        assert choices[k..][0] == choices[k] && choices[k..][1..] == choices[k + 1..];
        Fields();
        var ret;
        if isServer {
          ret := ServerStep(choices[k]);
        } else {
          ret := ClientStep(choices[k]);
        }
        k := k + 1;
        if ret != 1 {
          return;
        }
      }
    }

    method Read(want: Kind, len: nat, records: seq<H.Record>)
      modifies this
      ensures Value() == H.Called(old(Value()), H.Reading(want, len, records))
    {
      hide H.ReadBytes;
      Fields();
      CutThroughIs(false);
      hide Value;
      hide H.MayWriteEarly;
      if want != H.Handshake && (state == H.Ok || H.MayWriteEarly(isServer, hit, mayCutThrough, canCutThrough, state, body, false)) {
        Fields();
        var restart := ReadLayer(want, len, records);
        if restart {
          GoRenegotiate(H.Start, 1);
        }
      }
    }

    method ReadLayer(want: Kind, len: nat, records: seq<H.Record>) returns (restart: bool)
      modifies this`expectCcs, this`changeCipherSpec, this`fragLen, this`fragHelloRequest, this`rr
      modifies this`receivedShutdown, this`log
      ensures restart == H.ReadBytes(H.ContextOf(old(Value())), old(Value()).layer, want, len, records).restart
      ensures Value() == old(Value()).(layer := H.ReadBytes(H.ContextOf(old(Value())), old(Value()).layer, want, len, records).layer)
    {
      hide H.ReadBytes;
      var ret;
      ret, restart := ReadBytes(want, len, records);
    }

    lemma CutThroughIs(reading: bool)
      ensures H.MayWriteEarly(isServer, hit, mayCutThrough, canCutThrough, state, body, reading) == H.CutThroughComplete(Value(), reading)
    {
    }

    /** One call of the library. Short of a renegotiation in the window it keeps all in step. */
    method Call(call: H.Call)
      modifies this
      ensures Value() == H.Called(old(Value()), call)
      ensures old(Valid()) && (call.Renegotiating? ==> !H.InWindow(old(Value()))) ==> Valid()
    {
      ghost var s := Value();
      DoCall(call);
      hide *;
      KeptByCall(s, call);
    }

    lemma KeptByCall(s: H.Conn, call: H.Call)
      requires Value() == H.Called(s, call)
      ensures H.Valid(s) && (call.Renegotiating? ==> !H.InWindow(s)) ==> Valid()
    {
      hide H.Called;
      hide H.Valid;
      hide H.InWindow;
      if H.Valid(s) && (call.Renegotiating? ==> !H.InWindow(s)) {
        H.CalledKeeps(s, call);
      }
    }

    method DoCall(call: H.Call)
      modifies this
      ensures Value() == H.Called(old(Value()), call)
    {
      hide H.Loop;
      hide H.ReadBytes;
      Fields();
      CutThroughIs(false);
      hide Value;
      match call
      case Handshaking(choices, reading) =>
        CutThroughIs(reading);
        hide H.MayWriteEarly;
        if state != H.Ok && !H.MayWriteEarly(isServer, hit, mayCutThrough, canCutThrough, state, body, reading) {
          Loop(choices);
        }
      case Reading(want, len, records) =>
        Read(want, len, records);
      case Renegotiating =>
        hide H.MayWriteEarly;
        if state == H.Ok || H.MayWriteEarly(isServer, hit, mayCutThrough, canCutThrough, state, body, false) {
          GoRenegotiate(H.Start, 1);
        }
    }
  }

  /** A run on the fields: every HANDSHAKE_DONE it reports was earned. */
  method Run(isServer: bool, mayCutThrough: bool, refusesHello: bool, sentShutdown: bool, calls: seq<H.Call>)
    returns (connection: Connection)
    requires Window.NoUnsafeRestart(H.Initial(isServer, mayCutThrough, refusesHello, sentShutdown), calls)
    ensures fresh(connection)
    ensures connection.Value() == H.Run(H.Initial(isServer, mayCutThrough, refusesHello, sentShutdown), calls)
    ensures Window.DonesProper(connection.log, 0)
  {
    hide H.Called;
    hide Window.NoUnsafeRestart;
    hide Window.DonesProper;
    ghost var s := H.Initial(isServer, mayCutThrough, refusesHello, sentShutdown);
    connection := new Connection(isServer, mayCutThrough, refusesHello, sentShutdown);
    for k := 0 to |calls|
      invariant fresh(connection) && connection.Value() == H.Run(s, calls[..k])
    {
      assert calls[..k + 1][..k] == calls[..k];
      connection.Call(calls[k]);
    }
    assert calls[..|calls|] == calls;
    Window.DoneIsEarned(isServer, mayCutThrough, refusesHello, sentShutdown, calls);
  }
}
