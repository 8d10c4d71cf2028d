/**
 The TLS handshake loops (ssl/s3_clnt.c, ssl/s3_srvr.c) over the record layer's handling of
 ChangeCipherSpec (ssl/s3_pkt.c, ssl/s3_both.c), as functions on the fields they touch.
 */
module TlsHandshake {
  import opened HandshakeLog

  /** The states of `ssl3_connect` and `ssl3_accept`; the A and B halves are one, but for the
      field `body`. */
  datatype State =
    | Start | Flush | Ok
    // client
    | CwClientHello | CrServerHello | CrCert | CrCertStatus | CrKeyExch | CrCertReq | CrServerDone
    | CwCert | CwKeyExch | CwCertVerify | CwChange | CwNextProto | CwChannelId | CwFinished
    | CrSessionTicket | CrChange | CrFinished | CutThrough
    // server
    | SwHelloRequest | SwHelloRequestDone | SrClientHello | SwServerHello | SwCert | SwCertStatus | SwKeyExch
    | SwCertReq | SwServerDone | SrCert | SrKeyExch | SrCertVerify | SrChange | SrNextProto | SrChannelId
    | SrFinished | SwSessionTicket | SwChange | SwFinished

  datatype Kind = Handshake | Ccs | Alert | AppData | Unknown

  datatype Outcome = Warning | CloseNotify | Fatal | Malformed

  /** A record that passed `ssl3_get_record`. `good` says that a ChangeCipherSpec holds its one
      byte, or that an unknown type is ignored; `changed` that the new keys could be set up. */
  datatype Record = Record(kind: Kind, length: nat, good: bool, changed: bool, alert: Outcome, helloRequest: bool)

  /** The fields of the record layer that matter here: flags, stored handshake bytes, the current
      record. `log` records what happens. */
  datatype Layer = Layer(
    expectCcs: bool, changeCipherSpec: bool, newCipher: bool,
    fragLen: nat, fragHelloRequest: bool, rr: Record, receivedShutdown: bool, log: seq<Event>)

  /** What `ssl3_read_bytes` sees of the rest of the connection. */
  datatype Context = Context(isServer: bool, atOk: bool, refusesHello: bool, sentShutdown: bool)

  function Noted(l: Layer, e: Event): Layer
  {
    l.(log := l.log + [e])
  }

  function Min(a: nat, b: nat): nat
  {
    if a < b then a else b
  }

  // ---------- the record layer ----------

  /** Either a read returns, possibly after it found a reason to start a handshake, or it goes on. */
  datatype Progress = Return(layer: Layer, ret: int, restart: bool) | Again(layer: Layer)

  /** One pass of `ssl3_read_bytes` from the label start on, with a record at hand. Where the code
      calls the handshake the read ends here, and the handshake is a call of its own. A read of the
      type Unknown, as SSL_shutdown makes it, asks for no record. */
  function ReadOnce(x: Context, l: Layer, want: Kind, len: nat): Progress
    requires l.rr.length > 0
  {
    if l.changeCipherSpec && l.rr.kind != Handshake then Return(l, -1, false)
    else if l.rr.kind == Handshake && l.expectCcs then Return(l, -1, false)
    else if l.receivedShutdown then Return(Dropped(l), 0, false)
    else if want == l.rr.kind && want != Unknown then
      if len == 0 then Return(l, 0, false)
      else
        var n := Min(len, l.rr.length);
        var t := l.(rr := l.rr.(length := l.rr.length - n));
        Return(if want == Handshake then Noted(t, HandshakeBytes) else t, n, false)
    else if l.rr.kind == Handshake && l.fragLen < 4 then
      var t := Stored(l);
      if t.fragLen < 4 then Again(t) else Surprise(x, t, want)
    else Surprise(x, l, want)
  }

  function Dropped(l: Layer): Layer
  {
    l.(rr := l.rr.(length := 0))
  }

  /** Bytes of a handshake record nobody asked for are stored, up to four. */
  function Stored(l: Layer): Layer
    requires l.fragLen < 4
  {
    var n := Min(4 - l.fragLen, l.rr.length);
    Noted(l.(rr := l.rr.(length := l.rr.length - n), fragLen := l.fragLen + n,
             fragHelloRequest := if l.fragLen == 0 then l.rr.helloRequest else l.fragHelloRequest),
          HandshakeBytes)
  }

  function TakeAlert(l: Layer): Progress
  {
    match l.rr.alert
    case Warning => if l.rr.length > 0 then Again(Dropped(l)) else Return(l, -1, false)
    case Malformed => Return(Dropped(l), -1, false)
    case _ => Return(Dropped(l).(receivedShutdown := true), 0, false)
  }

  /** A ChangeCipherSpec is taken only when it is expected, and once. */
  function TakeCcs(l: Layer): Progress
  {
    if l.rr.length != 1 || !l.rr.good || !l.newCipher || !l.expectCcs then Return(l, -1, false)
    else
      var t := Noted(Dropped(l).(expectCcs := false, changeCipherSpec := true), ChangedCipher);
      if l.rr.changed then Again(t) else Return(t, -1, false)
  }

  /** The rest of the pass, for records nobody asked for */
  function Surprise(x: Context, l: Layer, want: Kind): Progress
  {
    if !x.isServer && l.fragLen >= 4 && l.fragHelloRequest then
      if x.atOk then Return(l.(fragLen := 0), -1, true) else Again(l.(fragLen := 0))
    else if x.isServer && x.atOk && x.refusesHello && l.fragLen >= 4 then
      if l.rr.length > 0 then Again(Dropped(l)) else Return(l, -1, false)
    else if l.rr.kind == Alert then TakeAlert(l)
    else if x.sentShutdown then Return(Dropped(l), 0, false)
    else if l.rr.kind == Ccs then TakeCcs(l)
    else if l.fragLen >= 4 && want != Handshake then Return(l, -1, x.atOk)
    else if l.rr.kind == Unknown && l.rr.good && l.rr.length > 0 then Again(Dropped(l))
    else Return(l, -1, false)
  }

  lemma SurpriseDecreases(x: Context, l: Layer, want: Kind)
    ensures var p := Surprise(x, l, want);
      p.Again? ==> p.layer.rr.length < l.rr.length || (p.layer.rr.length == l.rr.length && p.layer.fragLen < l.fragLen)
  {
  }

  lemma ReadOnceDecreases(x: Context, l: Layer, want: Kind, len: nat)
    requires l.rr.length > 0 && ReadOnce(x, l, want, len).Again?
    ensures var t := ReadOnce(x, l, want, len).layer;
      t.rr.length < l.rr.length || (t.rr.length == l.rr.length && t.fragLen < l.fragLen)
  {
    hide Surprise;
    SurpriseDecreases(x, l, want);
    if l.rr.kind == Handshake && l.fragLen < 4 {
      assert Stored(l).rr.length < l.rr.length;
      SurpriseDecreases(x, Stored(l), want);
    }
  }

  /** `ssl3_read_bytes` from the label start on; `records` are those still to come. */
  function ReadRecords(x: Context, l: Layer, want: Kind, len: nat, records: seq<Record>): (p: Progress)
    ensures p.Return?
    decreases |records|, l.rr.length, l.fragLen
  {
    if l.rr.length == 0 then
      if records == [] then Return(l, -1, false)
      else ReadRecords(x, l.(rr := records[0]), want, len, records[1..])
    else
      var p := ReadOnce(x, l, want, len);
      if p.Return? then p
      else
        ReadOnceDecreases(x, l, want, len);
        ReadRecords(x, p.layer, want, len, records)
  }

  /** `ssl3_read_bytes` */
  function ReadBytes(x: Context, l: Layer, want: Kind, len: nat, records: seq<Record>): (p: Progress)
    ensures p.Return?
  {
    if want == Handshake && l.fragLen > 0 then
      var n := Min(len, l.fragLen);
      Return(if n == 0 then l else Noted(l.(fragLen := l.fragLen - n), HandshakeBytes), n, false)
    else ReadRecords(x, l, want, len, records)
  }

  // ---------- the handshake ----------

  /** `mayCutThrough` is the mode of the connection, for its first handshake only; `canCutThrough` is
      `ssl3_can_cutthrough`, which the server's hello decides. */
  datatype Conn = Conn(
    isServer: bool, refusesHello: bool, sentShutdown: bool, mayCutThrough: bool, canCutThrough: bool,
    state: State, nextState: State, body: bool, hit: bool, ticket: bool, renegotiate: nat,
    reuseMessage: bool, layer: Layer)

  /** The result of a call, and the connection after it */
  datatype Result = Result(conn: Conn, ret: int)

  function ContextOf(s: Conn): Context
  {
    Context(s.isServer, s.state == Ok, s.refusesHello, s.sentShutdown)
  }

  function NotedIn(s: Conn, e: Event): Conn
  {
    s.(layer := Noted(s.layer, e))
  }

  /** `ssl3_expect_change_cipher_spec` */
  function ExpectCcs(s: Conn): Result
  {
    if s.layer.fragLen > 0 || s.reuseMessage then Result(s, 0)
    else Result(NotedIn(s.(layer := s.layer.(expectCcs := true)), Expecting), 1)
  }

  // ---------- messages ----------

  /** One call of `ssl3_read_bytes` on behalf of a message */
  datatype Read = Read(len: nat, records: seq<Record>)

  /** What the peer, the application and the network decide in one round of a loop. */
  datatype Choice = Choice(
    inputs: seq<Read>, done: bool, headerRead: bool, reuse: bool, digestOk: bool, keysOk: bool,
    hit: bool, ticket: bool, skip: bool, request: bool, certStatus: bool, nextProto: bool, channelId: bool,
    cutThrough: bool)

  /** The reads of a message, until one fails */
  function ReadAll(x: Context, l: Layer, inputs: seq<Read>): (p: Progress)
    ensures p.Return?
    decreases inputs
  {
    if inputs == [] then Return(l, 1, false)
    else
      var p := ReadBytes(x, l, Handshake, inputs[0].len, inputs[0].records);
      if p.ret <= 0 then p else ReadAll(x, p.layer, inputs[1..])
  }

  /** `ssl3_get_message`: a message kept from before, or one that is read */
  function GetMessage(s: Conn, c: Choice): Result
  {
    if s.reuseMessage then Result(s.(reuseMessage := false), if c.done then 1 else 0)
    else
      var p := ReadAll(ContextOf(s), s.layer, c.inputs);
      var t := s.(layer := p.layer);
      if p.ret <= 0 || c.inputs == [] || !c.done then
        Result(t.(body := t.body || c.headerRead), if p.ret <= 0 then p.ret else 0)
      else Result(t, 1)
  }

  function CcsCleared(s: Conn): Conn
  {
    s.(layer := s.layer.(changeCipherSpec := false))
  }

  /** `ssl3_get_finished` */
  function GetFinished(s: Conn, c: Choice): Result
  {
    var r := GetMessage(s, c);
    if r.ret <= 0 then r
    else if !r.conn.layer.changeCipherSpec then Result(r.conn, 0)
    else
      var t := CcsCleared(r.conn);
      if c.digestOk then Result(NotedIn(t, FinishedVerified), 1) else Result(t, 0)
  }

  /** Reads a message, then goes to a state; a message that turns out to be another one is kept. */
  function ReadThen(s: Conn, c: Choice, next: State): Result
  {
    var r := GetMessage(s, c);
    if r.ret <= 0 then r else Result(r.conn.(state := next, body := false, reuseMessage := c.reuse), 1)
  }

  /** Sends a message, then goes to a state. */
  function SendThen(s: Conn, c: Choice, next: State): Result
  {
    if c.done then Result(s.(state := next), 1) else Result(s, -1)
  }

  function SendThenFlush(s: Conn, c: Choice, next: State): Result
  {
    if c.done then Result(s.(state := Flush, nextState := next), 1) else Result(s, -1)
  }

  function ExpectThen(s: Conn, next: State): Result
  {
    var r := ExpectCcs(s);
    if r.ret == 0 then Result(s, -1) else Result(r.conn.(state := next, body := false), 1)
  }

  /** The ChangeCipherSpec of this side: the state moves on even if the new keys fail. */
  function ChangeThen(s: Conn, c: Choice, next: State): Result
  {
    if !c.done then Result(s, -1) else Result(s.(state := next), if c.keysOk then 1 else -1)
  }

  // ---------- the loops ----------

  /** A message behind the ChangeCipherSpec other than Finished */
  function ReadAfterCcs(s: Conn, c: Choice, next: State): Result
  {
    var r := GetMessage(s, c);
    if r.ret <= 0 then r
    else if !r.conn.layer.changeCipherSpec then Result(r.conn, -1)
    else Result(r.conn.(state := next, body := false), 1)
  }

  /** One round of `ssl3_connect`. The loop goes on while the result is 1; a result of 2 leaves it
      with success. */
  function ClientStep(s: Conn, c: Choice): Result
  {
    match s.state
    case Start => Result(NotedIn(s.(state := CwClientHello), Started), 1)
    case CwClientHello => SendThen(s, c, CrServerHello)
    case CrServerHello =>
      var r := GetMessage(s, c);
      if r.ret <= 0 then r
      else Result(r.conn.(state := if !c.hit then CrCert else if c.ticket then CrSessionTicket else CrChange,
                          hit := c.hit, ticket := c.ticket, body := false,
                          canCutThrough := c.cutThrough, layer := r.conn.layer.(newCipher := true)), 1)
    case CrCert =>
      if c.skip then Result(s.(state := CrKeyExch), 1)
      else ReadThen(s, c.(reuse := false), if c.certStatus then CrCertStatus else CrKeyExch)
    case CrCertStatus => ReadThen(s, c, CrKeyExch)
    case CrKeyExch =>
      var r := ReadThen(s, c, CrCertReq);
      if r.ret > 0 && !c.keysOk then Result(r.conn, -1) else r
    case CrCertReq => ReadThen(s, c, CrServerDone)
    case CrServerDone => ReadThen(s, c.(reuse := false), if c.request then CwCert else CwKeyExch)
    case CwCert => SendThen(s, c, CwKeyExch)
    case CwKeyExch =>
      if c.request then SendThen(s, c, CwCertVerify)
      else SendThen(if c.done then CcsCleared(s) else s, c, CwChange)
    case CwCertVerify => SendThen(if c.done then CcsCleared(s) else s, c, CwChange)
    case CwChange =>
      ChangeThen(s, c, if c.nextProto then CwNextProto else if c.channelId then CwChannelId else CwFinished)
    case CwNextProto => SendThen(s, c, if c.channelId then CwChannelId else CwFinished)
    case CwChannelId => SendThen(s, c, CwFinished)
    case CwFinished =>
      SendThenFlush(s, c,
        if s.hit then Ok else if s.mayCutThrough && s.canCutThrough then CutThrough
        else if s.ticket then CrSessionTicket else CrChange)
    case CrSessionTicket => ReadThen(s, c, CrChange)
    case CrChange => ExpectThen(s, CrFinished)
    case CrFinished =>
      var r := GetFinished(s, c);
      if r.ret <= 0 then r
      else Result(r.conn.(state := if r.conn.hit then CwChange else Ok, mayCutThrough := false), 1)
    case Flush => if c.done then Result(s.(state := s.nextState), 1) else Result(s, -1)
    case CutThrough => Result(s.(state := if s.ticket then CrSessionTicket else CrChange, body := false), 2)
    case Ok => Result(NotedIn(s.(renegotiate := 0), Done), 2)
    case _ => Result(s, -1)
  }

  lemma ServerHelloIs(s: Conn, c: Choice)
    requires s.state == CrServerHello
    ensures var r := GetMessage(s, c);
      ClientStep(s, c) == if r.ret <= 0 then r else
        Result(r.conn.(hit := c.hit, ticket := c.ticket, canCutThrough := c.cutThrough,
                       layer := r.conn.layer.(newCipher := true))
               .(state := if !c.hit then CrCert else if c.ticket then CrSessionTicket else CrChange, body := false), 1)
  {
    hide GetMessage;
  }

  /** One round of `ssl3_accept` */
  function ServerStep(s: Conn, c: Choice): Result
  {
    match s.state
    case Start =>
      // RENEGOTIATE sets renegotiate and sends a HelloRequest; the other entries read a ClientHello
      Result(NotedIn(s.(state := if c.request then SwHelloRequest else SrClientHello,
                      renegotiate := if c.request then 1 else s.renegotiate), Started), 1)
    case SwHelloRequest => SendThenFlush(s, c, SwHelloRequestDone)
    case SwHelloRequestDone => Result(s.(state := Ok), 1)
    case SrClientHello =>
      var r := GetMessage(s, c);
      if r.ret <= 0 then r
      else Result(r.conn.(state := SwServerHello, renegotiate := 2, hit := c.hit, ticket := c.ticket,
                          body := false, canCutThrough := c.cutThrough, layer := r.conn.layer.(newCipher := true)), 1)
    case SwServerHello =>
      SendThen(s, c, if !s.hit then SwCert else if s.ticket then SwSessionTicket else SwChange)
    case SwCert =>
      if c.skip then Result(s.(state := SwKeyExch), 1)
      else SendThen(s, c, if c.certStatus then SwCertStatus else SwKeyExch)
    case SwCertStatus => SendThen(s, c, SwKeyExch)
    case SwKeyExch => if c.skip then Result(s.(state := SwCertReq), 1) else SendThen(s, c, SwCertReq)
    case SwCertReq => if c.skip then Result(s.(state := SwServerDone), 1) else SendThen(s, c, SwServerDone)
    case SwServerDone => SendThenFlush(s, c, SrCert)
    case SrCert => if c.skip then Result(s.(state := SrKeyExch), 1) else ReadThen(s, c, SrKeyExch)
    case SrKeyExch => ReadThen(s, c, SrCertVerify)
    case SrCertVerify => if c.skip then Result(s.(state := SrChange), 1) else ReadThen(s, c, SrChange)
    case SrChange => ExpectThen(s, if c.nextProto then SrNextProto else if c.channelId then SrChannelId else SrFinished)
    case SrNextProto => ReadAfterCcs(s, c, if c.channelId then SrChannelId else SrFinished)
    case SrChannelId => ReadAfterCcs(s, c, SrFinished)
    case SrFinished =>
      var r := GetFinished(s, c);
      if r.ret <= 0 then r
      else
        var t := r.conn.(state := if r.conn.hit then Ok else if r.conn.ticket then SwSessionTicket else SwChange);
        Result(t, if c.keysOk then 1 else -1)
    case SwSessionTicket => SendThen(s, c, SwChange)
    case SwChange => ChangeThen(s, c, SwFinished)
    case SwFinished => SendThenFlush(s, c, if s.hit then SrChange else Ok)
    case Flush => if c.done then Result(s.(state := s.nextState), 1) else Result(s, -1)
    case Ok => if s.renegotiate == 2 then Result(NotedIn(s.(renegotiate := 0), Done), 2) else Result(s, 2)
    case _ => Result(s, -1)
  }

  function Step(s: Conn, c: Choice): Result
  {
    if s.isServer then ServerStep(s, c) else ClientStep(s, c)
  }

  /** `SSL_cutthrough_complete`, on the fields it reads */
  predicate MayWriteEarly(
    isServer: bool, hit: bool, mayCutThrough: bool, canCutThrough: bool, state: State, body: bool, reading: bool)
  {
    && !isServer && !hit && !reading && mayCutThrough && canCutThrough
    && (state == CrSessionTicket || state == CrChange || state == CrFinished) && !body
  }

  predicate CutThroughComplete(s: Conn, reading: bool)
  {
    MayWriteEarly(s.isServer, s.hit, s.mayCutThrough, s.canCutThrough, s.state, s.body, reading)
  }

  /** `SSL_in_init` */
  predicate InInit(s: Conn, reading: bool)
  {
    s.state != Ok && !CutThroughComplete(s, reading)
  }

  /** The loop of `ssl3_connect` or `ssl3_accept`, once it is called */
  function Loop(s: Conn, choices: seq<Choice>): Conn
    decreases choices
  {
    if choices == [] then s
    else
      var r := Step(s, choices[0]);
      if r.ret == 1 then Loop(r.conn, choices[1..]) else r.conn
  }

  /** What the application can do between two calls of the library */
  datatype Call =
    | Handshaking(choices: seq<Choice>, reading: bool)   // SSL_do_handshake, or a read or write that needs it
    | Reading(want: Kind, len: nat, records: seq<Record>)
    | Renegotiating                                      // SSL_renegotiate, then ssl3_renegotiate_check

  function Called(s: Conn, call: Call): Conn
  {
    match call
    case Handshaking(choices, reading) => if InInit(s, reading) then Loop(s, choices) else s
    case Reading(want, len, records) =>
      // inside a handshake a read runs the handshake, and goes on only after its success
      if want == Handshake || InInit(s, false) then s
      else
        var p := ReadBytes(ContextOf(s), s.layer, want, len, records);
        var t := s.(layer := p.layer);
        if p.restart then Restarted(t) else t
    case Renegotiating => if InInit(s, false) then s else Restarted(s)
  }

  function Restarted(s: Conn): Conn
  {
    s.(state := Start, renegotiate := 1)
  }

  function Initial(isServer: bool, mayCutThrough: bool, refusesHello: bool, sentShutdown: bool): Conn
  {
    Conn(isServer, refusesHello, sentShutdown, mayCutThrough, false, Start, Start, false, false, false, 0, false,
         Layer(false, false, false, 0, false, Record(Unknown, 0, false, false, Warning, false), false, []))
  }

  function Run(s: Conn, calls: seq<Call>): Conn
  {
    if calls == [] then s else Called(Run(s, calls[..|calls| - 1]), calls[|calls| - 1])
  }

  // ---------- what every read keeps ----------

  /** The flags agree with the phase of the handshake. */
  ghost predicate LayerOk(l: Layer)
  {
    var p := PhaseOf(l.log);
    && p != Disorder
    && (l.expectCcs <==> p == Awaiting)
    && (l.changeCipherSpec ==> p == Begun || p == Awaiting || p == Changed)
    && (l.expectCcs ==> l.fragLen == 0)
  }

  /** A read leaves the phase alone, or takes the ChangeCipherSpec that is awaited. */
  ghost predicate ReadChange(l: Layer, t: Layer)
  {
    && LayerOk(t)
    && (PhaseOf(t.log) != PhaseOf(l.log) ==> PhaseOf(l.log) == Awaiting && PhaseOf(t.log) == Changed)
  }

  lemma SurpriseKeeps(x: Context, l: Layer, want: Kind)
    requires LayerOk(l)
    ensures ReadChange(l, Surprise(x, l, want).layer)
    ensures Surprise(x, l, want).Return? && Surprise(x, l, want).restart ==> x.atOk
  {
    PhaseSnoc(l.log, ChangedCipher);
    hide PhaseOf;
  }

  lemma StoredKeeps(l: Layer)
    requires LayerOk(l) && !l.expectCcs && l.fragLen < 4
    ensures ReadChange(l, Stored(l)) && PhaseOf(Stored(l).log) == PhaseOf(l.log)
  {
    PhaseSnoc(l.log, HandshakeBytes);
    hide PhaseOf;
  }

  lemma TakenKeeps(l: Layer, n: nat)
    requires LayerOk(l) && !l.expectCcs && n <= l.rr.length
    ensures ReadChange(l, Noted(l.(rr := l.rr.(length := l.rr.length - n)), HandshakeBytes))
    ensures ReadChange(l, l.(rr := l.rr.(length := l.rr.length - n)))
  {
    PhaseSnoc(l.log, HandshakeBytes);
    hide PhaseOf;
  }

  lemma ReadOnceKeeps(x: Context, l: Layer, want: Kind, len: nat)
    requires LayerOk(l) && l.rr.length > 0
    ensures ReadChange(l, ReadOnce(x, l, want, len).layer)
    ensures ReadOnce(x, l, want, len).Return? && ReadOnce(x, l, want, len).restart ==> x.atOk
  {
    hide PhaseOf;
    hide Surprise;
    hide Stored;
    hide Noted;
    SurpriseKeeps(x, l, want);
    if l.rr.kind == Handshake && !l.expectCcs {
      TakenKeeps(l, Min(len, l.rr.length));
      if l.fragLen < 4 {
        StoredKeeps(l);
        SurpriseKeeps(x, Stored(l), want);
      }
    }
  }

  /** While a ChangeCipherSpec is awaited, a read logs nothing, or that it is taken. */
  lemma AwaitingLetsNothingElse(x: Context, l: Layer, want: Kind, len: nat)
    requires LayerOk(l) && l.rr.length > 0
    ensures var t := ReadOnce(x, l, want, len).layer;
      l.expectCcs ==> t.log == l.log || (t.log == l.log + [ChangedCipher] && !t.expectCcs)
  {
    hide PhaseOf;
  }

  lemma {:induction false} ReadRecordsKeep(x: Context, l: Layer, want: Kind, len: nat, records: seq<Record>)
    requires LayerOk(l)
    ensures var p := ReadRecords(x, l, want, len, records);
      ReadChange(l, p.layer) && (p.restart ==> x.atOk)
    decreases |records|, l.rr.length, l.fragLen
  {
    hide PhaseOf;
    hide ReadOnce;
    if l.rr.length > 0 {
      ReadOnceKeeps(x, l, want, len);
      var p := ReadOnce(x, l, want, len);
      if p.Again? {
        ReadOnceDecreases(x, l, want, len);
        ReadRecordsKeep(x, p.layer, want, len, records);
      }
    } else if records != [] {
      ReadRecordsKeep(x, l.(rr := records[0]), want, len, records[1..]);
    }
  }

  lemma ReadBytesKeep(x: Context, l: Layer, want: Kind, len: nat, records: seq<Record>)
    requires LayerOk(l)
    ensures var p := ReadBytes(x, l, want, len, records);
      ReadChange(l, p.layer) && (p.restart ==> x.atOk)
  {
    ReadRecordsKeep(x, l, want, len, records);
    PhaseSnoc(l.log, HandshakeBytes);
    hide PhaseOf;
    hide ReadRecords;
  }

  lemma {:induction false} ReadAllKeep(x: Context, l: Layer, inputs: seq<Read>)
    requires LayerOk(l)
    ensures ReadChange(l, ReadAll(x, l, inputs).layer)
    decreases inputs
  {
    hide PhaseOf;
    hide ReadBytes;
    if inputs != [] {
      ReadBytesKeep(x, l, Handshake, inputs[0].len, inputs[0].records);
      var p := ReadBytes(x, l, Handshake, inputs[0].len, inputs[0].records);
      ReadAllKeep(x, p.layer, inputs[1..]);
    }
  }

  /** Handshake bytes are handed up only while no ChangeCipherSpec is expected. */
  lemma {:induction false} ReadRecordsSucceed(x: Context, l: Layer, len: nat, records: seq<Record>)
    requires LayerOk(l) && ReadRecords(x, l, Handshake, len, records).ret > 0
    ensures !ReadRecords(x, l, Handshake, len, records).layer.expectCcs
    decreases |records|, l.rr.length, l.fragLen
  {
    hide PhaseOf;
    if l.rr.length > 0 {
      ReadOnceKeeps(x, l, Handshake, len);
      var p := ReadOnce(x, l, Handshake, len);
      ReadOnceSucceeds(x, l, len);
      hide ReadOnce;
      if p.Again? {
        ReadOnceDecreases(x, l, Handshake, len);
        ReadRecordsSucceed(x, p.layer, len, records);
      }
    } else if records != [] {
      ReadRecordsSucceed(x, l.(rr := records[0]), len, records[1..]);
    }
  }

  lemma ReadOnceSucceeds(x: Context, l: Layer, len: nat)
    requires l.rr.length > 0
    ensures var p := ReadOnce(x, l, Handshake, len); p.Return? && p.ret > 0 ==> !p.layer.expectCcs
  {
  }

  lemma {:induction false} ReadAllSucceed(x: Context, l: Layer, inputs: seq<Read>)
    requires LayerOk(l) && ReadAll(x, l, inputs).ret > 0 && inputs != []
    ensures !ReadAll(x, l, inputs).layer.expectCcs
    decreases inputs
  {
    hide PhaseOf;
    hide ReadRecords;
    ReadBytesKeep(x, l, Handshake, inputs[0].len, inputs[0].records);
    var p := ReadBytes(x, l, Handshake, inputs[0].len, inputs[0].records);
    if l.fragLen == 0 && p.ret > 0 {
      ReadRecordsSucceed(x, l, inputs[0].len, inputs[0].records);
    }
    if inputs[1..] != [] {
      ReadAllSucceed(x, p.layer, inputs[1..]);
    }
  }

  // ---------- what every round of the loops keeps ----------

  /** States before this handshake may expect a ChangeCipherSpec, whether or not it resumes */
  predicate Early(st: State)
  {
    || st.CwClientHello? || st.CrServerHello? || st.CrSessionTicket? || st.CrChange?
    || st.SwHelloRequest? || st.SwHelloRequestDone? || st.SrClientHello? || st.SwServerHello? || st.SwCert?
    || st.SwCertStatus? || st.SwKeyExch? || st.SwCertReq? || st.SwServerDone? || st.SrCert? || st.SrKeyExch?
    || st.SrCertVerify? || st.SrChange?
  }

  /** The same, in a client's full handshake only */
  predicate EarlyFull(st: State)
  {
    || st.CrCert? || st.CrCertStatus? || st.CrKeyExch? || st.CrCertReq? || st.CrServerDone? || st.CwCert?
    || st.CwKeyExch? || st.CwCertVerify? || st.CutThrough?
  }

  /** States that a handshake only reaches expecting a ChangeCipherSpec */
  predicate Late(st: State)
  {
    st.CrFinished? || st.SrNextProto? || st.SrChannelId? || st.SrFinished?
  }

  predicate ClientSends(st: State)
  {
    st.CwChange? || st.CwNextProto? || st.CwChannelId? || st.CwFinished?
  }

  predicate ServerSends(st: State)
  {
    st.SwSessionTicket? || st.SwChange? || st.SwFinished?
  }

  /** The phase each state is in. In a resumption the two Finished messages change places. */
  predicate Fits(s: Conn, p: Phase)
  {
    match s.state
    case Start => (p == Idle || p == Begun || p == Changed || p == Verified) && s.renegotiate != 2
    case Ok => p == Verified || p == Idle || (p == Begun && s.isServer && s.renegotiate != 2)
    case Flush =>
      if s.nextState == Ok then p == Verified
      else p == Begun && (Early(s.nextState) || (EarlyFull(s.nextState) && !s.hit)) &&
           s.nextState != SwHelloRequest && (s.nextState == SwHelloRequestDone ==> s.isServer && s.renegotiate != 2)
    case _ =>
      if Late(s.state) then p == Awaiting || p == Changed
      else if ClientSends(s.state) then p == if s.hit then Verified else Begun
      else if ServerSends(s.state) then p == if s.hit then Begun else Verified
      else
        && p == Begun && (EarlyFull(s.state) ==> !s.hit)
        && (s.state == SwHelloRequest || s.state == SwHelloRequestDone ==> s.isServer && s.renegotiate != 2)
  }

  ghost predicate Valid(s: Conn)
  {
    LayerOk(s.layer) && (s.layer.expectCcs ==> !s.reuseMessage) && Fits(s, PhaseOf(s.layer.log))
  }

  /** Inside a loop: a state Ok that was just reached stands for a verified handshake, or for a
      mere HelloRequest. */
  ghost predicate Live(s: Conn)
  {
    s.state == Ok ==> PhaseOf(s.layer.log) == Verified || (s.isServer && s.renegotiate != 2)
  }

  /** What reading a message may change */
  ghost predicate MessageChange(s: Conn, t: Conn)
  {
    && ReadChange(s.layer, t.layer) && (t.reuseMessage ==> s.reuseMessage)
    && t == s.(layer := t.layer, reuseMessage := t.reuseMessage, body := t.body)
  }

  lemma GetMessageKeeps(s: Conn, c: Choice)
    requires Valid(s)
    ensures MessageChange(s, GetMessage(s, c).conn)
  {
    ReadAllKeep(ContextOf(s), s.layer, c.inputs);
    hide PhaseOf;
    hide ReadAll;
    hide Fits;
  }

  lemma GetMessageSucceeds(s: Conn, c: Choice)
    requires Valid(s) && GetMessage(s, c).ret > 0
    ensures !GetMessage(s, c).conn.layer.expectCcs
  {
    hide PhaseOf;
    hide ReadAll;
    hide Fits;
    if !s.reuseMessage {
      ReadAllSucceed(ContextOf(s), s.layer, c.inputs);
    }
  }

  lemma StillFits(s: Conn, t: Conn)
    requires Valid(s) && MessageChange(s, t) && s.state != Ok
    ensures Valid(t)
  {
    hide PhaseOf;
  }

  /** The phase of an early state, and that nothing is expected yet */
  lemma EarlyPhase(s: Conn)
    requires Valid(s) && (Early(s.state) || EarlyFull(s.state))
    ensures PhaseOf(s.layer.log) == Begun && !s.layer.expectCcs
    ensures EarlyFull(s.state) ==> !s.hit
  {
    hide PhaseOf;
  }

  lemma LatePhase(s: Conn)
    requires Valid(s) && Late(s.state)
    ensures PhaseOf(s.layer.log) == Awaiting || PhaseOf(s.layer.log) == Changed
  {
    hide PhaseOf;
  }

  /** In the phase Begun, any early state fits. */
  lemma ValidWhenEarly(s: Conn)
    requires LayerOk(s.layer) && PhaseOf(s.layer.log) == Begun
    requires Early(s.state) || (EarlyFull(s.state) && !s.hit)
    requires s.state == SwHelloRequest || s.state == SwHelloRequestDone ==> s.isServer && s.renegotiate != 2
    ensures Valid(s) && s.state != Ok
  {
    hide PhaseOf;
  }

  lemma ValidWhenLate(s: Conn)
    requires LayerOk(s.layer) && Late(s.state) && (s.layer.expectCcs ==> !s.reuseMessage)
    requires PhaseOf(s.layer.log) == Awaiting || PhaseOf(s.layer.log) == Changed
    ensures Valid(s) && s.state != Ok
  {
    hide PhaseOf;
  }

  lemma BegunStays(l: Layer, t: Layer)
    requires ReadChange(l, t) && PhaseOf(l.log) == Begun
    ensures LayerOk(t) && PhaseOf(t.log) == Begun
  {
    hide PhaseOf;
  }

  lemma LateStays(l: Layer, t: Layer)
    requires ReadChange(l, t) && (PhaseOf(l.log) == Awaiting || PhaseOf(l.log) == Changed)
    ensures LayerOk(t) && (PhaseOf(t.log) == Awaiting || PhaseOf(t.log) == Changed)
    ensures t.changeCipherSpec && !t.expectCcs ==> PhaseOf(t.log) == Changed
  {
    hide PhaseOf;
  }

  lemma MessageGives(s: Conn, t: Conn)
    requires Valid(s) && MessageChange(s, t)
    ensures ReadChange(s.layer, t.layer)
    ensures t.state == s.state && t.hit == s.hit && t.ticket == s.ticket && t.isServer == s.isServer
    ensures t.renegotiate == s.renegotiate && t.mayCutThrough == s.mayCutThrough && t.nextState == s.nextState
    ensures t.reuseMessage ==> s.reuseMessage
    ensures t.layer.expectCcs ==> !t.reuseMessage
  {
    hide PhaseOf;
    hide Fits;
  }

  /** A message of an early state leads to another early state. */
  lemma ReadThenKeeps(s: Conn, c: Choice, next: State)
    requires Valid(s) && (Early(s.state) || EarlyFull(s.state))
    requires Early(next) || (EarlyFull(next) && !s.hit)
    requires next != SwHelloRequest && next != SwHelloRequestDone
    ensures Valid(ReadThen(s, c, next).conn) && ReadThen(s, c, next).conn.state != Ok
  {
    var t := GetMessage(s, c).conn;
    var r := ReadThen(s, c, next);
    assert r.conn == t || r.conn == t.(state := next, body := false, reuseMessage := c.reuse);
    hide *;
    GetMessageKeeps(s, c);
    EarlyPhase(s);
    NotOk(s);
    StillFits(s, t);
    MessageGives(s, t);
    BegunStays(s.layer, t.layer);
    if r.conn != t {
      ValidWhenEarly(r.conn);
    }
  }

  lemma NotOk(s: Conn)
    requires Early(s.state) || EarlyFull(s.state) || Late(s.state)
    ensures s.state != Ok
  {
  }

  lemma ExpectThenKeeps(s: Conn, next: State)
    requires Valid(s) && Early(s.state) && Late(next)
    ensures Valid(ExpectThen(s, next).conn) && ExpectThen(s, next).conn.state != Ok
  {
    EarlyPhase(s);
    PhaseSnoc(s.layer.log, Expecting);
    hide PhaseOf;
    hide Fits;
    NotOk(s);
    var r := ExpectThen(s, next);
    if r.ret == 1 {
      ValidWhenLate(r.conn);
    }
  }

  /** Finished is accepted only behind the ChangeCipherSpec. */
  lemma GetFinishedKeeps(s: Conn, c: Choice)
    requires Valid(s) && Late(s.state)
    ensures var r := GetFinished(s, c);
      && r.conn.state == s.state && r.conn.hit == s.hit && r.conn.isServer == s.isServer
      && r.conn.renegotiate == s.renegotiate
      && LayerOk(r.conn.layer) && (r.conn.layer.expectCcs ==> !r.conn.reuseMessage)
      && (r.ret > 0 ==> PhaseOf(r.conn.layer.log) == Verified)
      && (r.ret <= 0 ==> Valid(r.conn) && r.conn.state != Ok)
  {
    var t := GetMessage(s, c).conn;
    GetMessageKeeps(s, c);
    LatePhase(s);
    MessageGives(s, t);
    LateStays(s.layer, t.layer);
    FinishedNoted(t);
    if GetMessage(s, c).ret > 0 {
      GetMessageSucceeds(s, c);
    }
    hide GetMessage;
    hide PhaseOf;
    hide Fits;
    hide LayerOk;
    hide MessageChange;
    hide ReadChange;
    hide Valid;
    hide NotedIn;
    ValidWhenLate(t);
  }

  lemma FinishedNoted(t: Conn)
    requires LayerOk(t.layer) && (t.layer.expectCcs ==> !t.reuseMessage) && Late(t.state)
    requires PhaseOf(t.layer.log) == Awaiting || PhaseOf(t.layer.log) == Changed
    ensures t.layer.changeCipherSpec ==> Valid(CcsCleared(t))
    ensures t.layer.changeCipherSpec && !t.layer.expectCcs ==> LayerOk(NotedIn(CcsCleared(t), FinishedVerified).layer)
    ensures t.layer.changeCipherSpec && !t.layer.expectCcs ==> PhaseOf(NotedIn(CcsCleared(t), FinishedVerified).layer.log) == Verified
    ensures t.layer.changeCipherSpec && !t.layer.expectCcs ==> !NotedIn(CcsCleared(t), FinishedVerified).layer.expectCcs
    ensures NotedIn(CcsCleared(t), FinishedVerified).state == t.state == CcsCleared(t).state
    ensures NotedIn(CcsCleared(t), FinishedVerified).hit == t.hit == CcsCleared(t).hit
    ensures NotedIn(CcsCleared(t), FinishedVerified).isServer == t.isServer == CcsCleared(t).isServer
    ensures NotedIn(CcsCleared(t), FinishedVerified).renegotiate == t.renegotiate == CcsCleared(t).renegotiate
    ensures CcsCleared(t).layer.expectCcs == t.layer.expectCcs && CcsCleared(t).reuseMessage == t.reuseMessage
  {
    PhaseSnoc(t.layer.log, FinishedVerified);
    hide PhaseOf;
  }

  lemma ReadAfterCcsKeeps(s: Conn, c: Choice, next: State)
    requires Valid(s) && Late(s.state) && Late(next)
    ensures Valid(ReadAfterCcs(s, c, next).conn) && ReadAfterCcs(s, c, next).conn.state != Ok
  {
    var t := GetMessage(s, c).conn;
    var r := ReadAfterCcs(s, c, next);
    assert r.conn == t || r.conn == t.(state := next, body := false);
    hide *;
    GetMessageKeeps(s, c);
    LatePhase(s);
    NotOk(s);
    StillFits(s, t);
    MessageGives(s, t);
    LateStays(s.layer, t.layer);
    if r.conn != t {
      ValidWhenLate(r.conn);
    }
  }

  /** A step that touches neither the record layer nor the kept message */
  lemma Moved(s: Conn, t: Conn)
    requires Valid(s) && t.layer == s.layer && t.reuseMessage == s.reuseMessage && Fits(t, PhaseOf(s.layer.log))
    ensures Valid(t)
  {
    hide PhaseOf;
    hide Fits;
  }

  /** What a round has to keep */
  ghost predicate Kept(r: Result)
  {
    Valid(r.conn) && (r.ret == 1 ==> Live(r.conn))
  }

  lemma KeptWhenNotOk(r: Result)
    requires Valid(r.conn) && r.conn.state != Ok
    ensures Kept(r)
  {
  }

  lemma SendThenFlushKeeps(s: Conn, c: Choice, next: State)
    requires Valid(s) && s.state != Ok
    requires Fits(s.(state := Flush, nextState := next), PhaseOf(s.layer.log))
    ensures Kept(SendThenFlush(s, c, next))
  {
    Moved(s, s.(state := Flush, nextState := next));
    hide Valid;
    hide Fits;
    hide PhaseOf;
  }

  lemma FlushKeeps(s: Conn)
    requires Valid(s) && s.state == Flush
    ensures Valid(s.(state := s.nextState)) && Live(s.(state := s.nextState))
  {
    hide PhaseOf;
  }

  lemma StartKeeps(s: Conn, next: State, renegotiate: nat)
    requires Valid(s) && s.state == Start && (next == CwClientHello || next == SwHelloRequest || next == SrClientHello)
    requires renegotiate != 2 && (next == SwHelloRequest ==> s.isServer)
    ensures Kept(Result(NotedIn(s.(state := next, renegotiate := renegotiate), Started), 1))
  {
    PhaseSnoc(s.layer.log, Started);
    hide PhaseOf;
  }

  lemma OkKeeps(s: Conn)
    requires Valid(s) && Live(s) && s.state == Ok
    ensures !s.isServer || s.renegotiate == 2 ==> Valid(NotedIn(s.(renegotiate := 0), Done))
  {
    PhaseSnoc(s.layer.log, Done);
    hide PhaseOf;
  }

  lemma HelloKeeps(s: Conn, c: Choice, next: State, renegotiate: nat)
    requires Valid(s) && (s.state == CrServerHello || s.state == SrClientHello) && GetMessage(s, c).ret > 0
    requires Early(next) || (EarlyFull(next) && !c.hit)
    requires next != SwHelloRequest && next != SwHelloRequestDone
    ensures var t := GetMessage(s, c).conn;
      Kept(Result(t.(state := next, hit := c.hit, ticket := c.ticket, renegotiate := renegotiate, body := false,
                     canCutThrough := c.cutThrough, layer := t.layer.(newCipher := true)), 1))
  {
    var t := GetMessage(s, c).conn;
    GetMessageKeeps(s, c);
    EarlyPhase(s);
    MessageGives(s, t);
    BegunStays(s.layer, t.layer);
    hide PhaseOf;
    hide GetMessage;
    hide Fits;
    hide MessageChange;
    hide ReadChange;
    ValidWhenEarly(t.(state := next, hit := c.hit, ticket := c.ticket, renegotiate := renegotiate, body := false,
                      canCutThrough := c.cutThrough, layer := t.layer.(newCipher := true)));
  }

  lemma GetMessageFails(s: Conn, c: Choice)
    requires Valid(s) && (Early(s.state) || EarlyFull(s.state) || Late(s.state))
    ensures Valid(GetMessage(s, c).conn) && GetMessage(s, c).conn.state != Ok
  {
    GetMessageKeeps(s, c);
    NotOk(s);
    StillFits(s, GetMessage(s, c).conn);
    MessageGives(s, GetMessage(s, c).conn);
  }

  lemma ValidWhenVerified(s: Conn)
    requires LayerOk(s.layer) && PhaseOf(s.layer.log) == Verified
    requires s.state == Ok || (ClientSends(s.state) && s.hit) || (ServerSends(s.state) && !s.hit)
    ensures Valid(s) && Live(s)
  {
    hide PhaseOf;
  }

  /** After Finished: the other side's Finished, or none if it was first. */
  lemma FinishedMoves(s: Conn, c: Choice, next: State, mayCutThrough: bool)
    requires Valid(s) && Late(s.state) && GetFinished(s, c).ret > 0
    requires next == Ok || (ClientSends(next) && s.hit) || (ServerSends(next) && !s.hit)
    ensures forall ret :: Kept(Result(GetFinished(s, c).conn.(state := next, mayCutThrough := mayCutThrough), ret))
  {
    GetFinishedKeeps(s, c);
    hide GetFinished;
    hide PhaseOf;
    hide LayerOk;
    hide Valid;
    hide Live;
    ValidWhenVerified(GetFinished(s, c).conn.(state := next, mayCutThrough := mayCutThrough));
  }

  // ---------- the loops ----------

  /** Sending on the way to an early state */
  lemma SendEarly(s: Conn, c: Choice, next: State)
    requires Valid(s) && (Early(s.state) || EarlyFull(s.state))
    requires Early(next) || (EarlyFull(next) && !s.hit)
    requires next != SwHelloRequest && next != SwHelloRequestDone
    ensures Kept(SendThen(s, c, next)) && Kept(Result(s.(state := next), 1))
  {
    ValidWhenEarlyNext(s, next);
    NotOk(s);
    hide Valid;
    hide Early;
    hide EarlyFull;
  }

  /** The client's own ChangeCipherSpec and Finished: before or after the server's */
  lemma SendClient(s: Conn, c: Choice, next: State)
    requires Valid(s) && ClientSends(next)
    requires ClientSends(s.state) || s.state == CwKeyExch || s.state == CwCertVerify
    ensures Kept(SendThen(s, c, next)) && Kept(ChangeThen(s, c, next))
  {
    hide PhaseOf;
    hide LayerOk;
    Moved(s, s.(state := next));
    hide Valid;
    hide ClientSends;
  }

  /** The server's, likewise */
  lemma SendServer(s: Conn, c: Choice, next: State)
    requires Valid(s) && ServerSends(next)
    requires ServerSends(s.state) || (s.state == SwServerHello && s.hit)
    ensures Kept(SendThen(s, c, next)) && Kept(ChangeThen(s, c, next))
  {
    hide PhaseOf;
    hide LayerOk;
    Moved(s, s.(state := next));
    hide Valid;
    hide ServerSends;
  }

  lemma Cleared(s: Conn)
    requires Valid(s)
    ensures Valid(CcsCleared(s)) && CcsCleared(s).state == s.state && CcsCleared(s).hit == s.hit
  {
    hide PhaseOf;
  }

  lemma ClientFlush(s: Conn, c: Choice, next: State)
    requires Valid(s) && s.state == CwFinished
    requires if s.hit then next == Ok else next == CutThrough || next == CrSessionTicket || next == CrChange
    ensures Kept(SendThenFlush(s, c, next))
  {
    hide PhaseOf;
    hide LayerOk;
    SendThenFlushKeeps(s, c, next);
  }

  lemma ServerFlush(s: Conn, c: Choice, next: State)
    requires Valid(s)
    requires s.state == SwFinished || s.state == SwServerDone || s.state == SwHelloRequest
    requires s.state == SwFinished ==> next == if s.hit then SrChange else Ok
    requires s.state == SwServerDone ==> next == SrCert
    requires s.state == SwHelloRequest ==> next == SwHelloRequestDone
    ensures Kept(SendThenFlush(s, c, next))
  {
    hide PhaseOf;
    hide LayerOk;
    SendThenFlushKeeps(s, c, next);
  }

  predicate ClientReads(st: State)
  {
    || st.CrServerHello? || st.CrCert? || st.CrCertStatus? || st.CrKeyExch? || st.CrCertReq? || st.CrServerDone?
    || st.CrSessionTicket?
  }

  lemma ClientReadKeeps(s: Conn, c: Choice)
    requires Valid(s) && ClientReads(s.state)
    ensures Kept(ClientStep(s, c))
  {
    hide PhaseOf;
    hide GetMessage;
    hide ReadThen;
    hide Valid;
    hide Live;
    EarlyPhase(s);
    match s.state
    case CrServerHello =>
      GetMessageFails(s, c);
      KeptWhenNotOk(Result(GetMessage(s, c).conn, GetMessage(s, c).ret));
      if GetMessage(s, c).ret > 0 {
        MessageUnchanged(s, c);
        HelloKeeps(s, c, if !c.hit then CrCert else if c.ticket then CrSessionTicket else CrChange, s.renegotiate);
      }
    case CrCert =>
      if c.skip {
        SendEarly(s, c, CrKeyExch);
      } else {
        ReadThenIsKept(s, c.(reuse := false), if c.certStatus then CrCertStatus else CrKeyExch);
      }
    case CrCertStatus => ReadThenIsKept(s, c, CrKeyExch);
    case CrKeyExch => ReadThenIsKept(s, c, CrCertReq);
    case CrCertReq => ReadThenIsKept(s, c, CrServerDone);
    case CrServerDone => ReadThenIsKept(s, c.(reuse := false), if c.request then CwCert else CwKeyExch);
    case CrSessionTicket => ReadThenIsKept(s, c, CrChange);
  }

  lemma ReadThenIsKept(s: Conn, c: Choice, next: State)
    requires Valid(s) && (Early(s.state) || EarlyFull(s.state))
    requires Early(next) || (EarlyFull(next) && !s.hit)
    requires next != SwHelloRequest && next != SwHelloRequestDone
    ensures Kept(ReadThen(s, c, next)) && Kept(Result(ReadThen(s, c, next).conn, -1))
  {
    ReadThenKeeps(s, c, next);
    hide Valid;
    hide ReadThen;
    hide PhaseOf;
  }

  lemma FinishedIsKept(s: Conn, c: Choice)
    requires Valid(s) && Late(s.state)
    ensures GetFinished(s, c).ret <= 0 ==> Kept(GetFinished(s, c))
    ensures GetFinished(s, c).conn.hit == s.hit && GetFinished(s, c).conn.isServer == s.isServer
  {
    GetFinishedKeeps(s, c);
    hide Valid;
    hide GetFinished;
    hide PhaseOf;
    hide LayerOk;
  }

  lemma ClientLateKeeps(s: Conn, c: Choice)
    requires Valid(s) && (s.state == CrChange || s.state == CrFinished)
    ensures Kept(ClientStep(s, c))
  {
    hide PhaseOf;
    hide GetFinished;
    hide ExpectThen;
    hide Valid;
    if s.state == CrChange {
      ExpectThenKeeps(s, CrFinished);
    } else {
      FinishedIsKept(s, c);
      if GetFinished(s, c).ret > 0 {
        FinishedMoves(s, c, if s.hit then CwChange else Ok, false);
      }
    }
  }

  lemma MessageUnchanged(s: Conn, c: Choice)
    requires Valid(s)
    ensures GetMessage(s, c).conn.renegotiate == s.renegotiate && GetMessage(s, c).conn.isServer == s.isServer
  {
    GetMessageKeeps(s, c);
    MessageGives(s, GetMessage(s, c).conn);
  }

  lemma ValidWhenEarlyNext(s: Conn, next: State)
    requires Valid(s) && (Early(s.state) || EarlyFull(s.state))
    requires Early(next) || (EarlyFull(next) && !s.hit)
    requires next != SwHelloRequest && next != SwHelloRequestDone
    ensures Valid(s.(state := next)) && next != Ok
  {
    EarlyPhase(s);
    ValidWhenEarly(s.(state := next));
  }

  predicate ClientWrites(st: State)
  {
    || st.CwClientHello? || st.CwCert? || st.CwKeyExch? || st.CwCertVerify? || ClientSends(st)
  }

  lemma ClientWriteKeeps(s: Conn, c: Choice)
    requires Valid(s) && ClientWrites(s.state)
    ensures Kept(ClientStep(s, c))
  {
    hide PhaseOf;
    hide SendThen;
    hide SendThenFlush;
    hide ChangeThen;
    hide Valid;
    hide CcsCleared;
    if Early(s.state) || EarlyFull(s.state) {
      EarlyPhase(s);
    }
    match s.state
    case CwClientHello => SendEarly(s, c, CrServerHello);
    case CwCert => SendEarly(s, c, CwKeyExch);
    case CwKeyExch =>
      if c.request {
        SendEarly(s, c, CwCertVerify);
      } else {
        Cleared(s);
        SendClient(if c.done then CcsCleared(s) else s, c, CwChange);
      }
    case CwCertVerify =>
      Cleared(s);
      SendClient(if c.done then CcsCleared(s) else s, c, CwChange);
    case CwChange =>
      SendClient(s, c, if c.nextProto then CwNextProto else if c.channelId then CwChannelId else CwFinished);
    case CwNextProto => SendClient(s, c, if c.channelId then CwChannelId else CwFinished);
    case CwChannelId => SendClient(s, c, CwFinished);
    case CwFinished =>
      ClientFlush(s, c,
        if s.hit then Ok else if s.mayCutThrough && s.canCutThrough then CutThrough
        else if s.ticket then CrSessionTicket else CrChange);
  }

  lemma ClientStepKeeps(s: Conn, c: Choice)
    requires Valid(s) && Live(s) && !s.isServer
    ensures Kept(ClientStep(s, c))
  {
    if ClientReads(s.state) {
      ClientReadKeeps(s, c);
    } else if s.state == CrChange || s.state == CrFinished {
      ClientLateKeeps(s, c);
    } else if ClientWrites(s.state) {
      ClientWriteKeeps(s, c);
    } else {
      hide PhaseOf;
      hide Valid;
      match s.state
      case Start =>
        StartNotTwo(s);
        StartKeeps(s, CwClientHello, s.renegotiate);
      case Flush => FlushKeeps(s);
      case CutThrough => CutThroughKeeps(s);
      case Ok => OkKeeps(s);
      case _ =>
    }
  }

  lemma StartNotTwo(s: Conn)
    requires Valid(s) && s.state == Start
    ensures s.renegotiate != 2
  {
  }

  lemma CutThroughKeeps(s: Conn)
    requires Valid(s) && s.state == CutThrough
    ensures Valid(s.(state := if s.ticket then CrSessionTicket else CrChange, body := false))
  {
    EarlyPhase(s);
    ValidWhenEarly(s.(state := if s.ticket then CrSessionTicket else CrChange, body := false));
  }

  predicate ServerReads(st: State)
  {
    st.SrClientHello? || st.SrCert? || st.SrKeyExch? || st.SrCertVerify?
  }

  lemma ServerReadKeeps(s: Conn, c: Choice)
    requires Valid(s) && ServerReads(s.state)
    ensures Kept(ServerStep(s, c))
  {
    hide PhaseOf;
    hide GetMessage;
    hide ReadThen;
    hide Valid;
    hide Live;
    match s.state
    case SrClientHello =>
      GetMessageFails(s, c);
      KeptWhenNotOk(Result(GetMessage(s, c).conn, GetMessage(s, c).ret));
      if GetMessage(s, c).ret > 0 {
        MessageUnchanged(s, c);
        HelloKeeps(s, c, SwServerHello, 2);
      }
    case SrCert =>
      if c.skip {
        SendEarly(s, c, SrKeyExch);
      } else {
        ReadThenIsKept(s, c, SrKeyExch);
      }
    case SrKeyExch => ReadThenIsKept(s, c, SrCertVerify);
    case SrCertVerify =>
      if c.skip {
        SendEarly(s, c, SrChange);
      } else {
        ReadThenIsKept(s, c, SrChange);
      }
  }

  lemma ServerLateKeeps(s: Conn, c: Choice)
    requires Valid(s) && (s.state == SrChange || Late(s.state))
    ensures Kept(ServerStep(s, c)) || s.state == CrFinished
  {
    hide PhaseOf;
    hide ReadAfterCcs;
    hide GetFinished;
    hide ExpectThen;
    hide Valid;
    match s.state
    case SrChange =>
      ExpectThenKeeps(s, if c.nextProto then SrNextProto else if c.channelId then SrChannelId else SrFinished);
    case SrNextProto => ReadAfterCcsKeeps(s, c, if c.channelId then SrChannelId else SrFinished);
    case SrChannelId => ReadAfterCcsKeeps(s, c, SrFinished);
    case SrFinished =>
      FinishedIsKept(s, c);
      if GetFinished(s, c).ret > 0 {
        var t := GetFinished(s, c).conn;
        FinishedMoves(s, c, if s.hit then Ok else if t.ticket then SwSessionTicket else SwChange, t.mayCutThrough);
      }
    case _ =>
  }

  predicate ServerWrites(st: State)
  {
    || st.SwHelloRequest? || st.SwServerHello? || st.SwCert? || st.SwCertStatus?
    || st.SwKeyExch? || st.SwCertReq? || st.SwServerDone? || ServerSends(st)
  }

  lemma ServerWriteKeeps(s: Conn, c: Choice)
    requires Valid(s) && ServerWrites(s.state)
    ensures Kept(ServerStep(s, c))
  {
    hide PhaseOf;
    hide SendThen;
    hide SendThenFlush;
    hide ChangeThen;
    hide Valid;
    hide Live;
    match s.state
    case SwHelloRequest => ServerFlush(s, c, SwHelloRequestDone);
    case SwServerHello =>
      if s.hit {
        SendServer(s, c, if s.ticket then SwSessionTicket else SwChange);
      } else {
        SendEarly(s, c, SwCert);
      }
    case SwCert => SendEarly(s, c, if !c.skip && c.certStatus then SwCertStatus else SwKeyExch);
    case SwCertStatus => SendEarly(s, c, SwKeyExch);
    case SwKeyExch => SendEarly(s, c, SwCertReq);
    case SwCertReq => SendEarly(s, c, SwServerDone);
    case SwServerDone => ServerFlush(s, c, SrCert);
    case SwSessionTicket => SendServer(s, c, SwChange);
    case SwChange => SendServer(s, c, SwFinished);
    case SwFinished => ServerFlush(s, c, if s.hit then SrChange else Ok);
  }

  lemma HelloRequestDone(s: Conn)
    requires Valid(s) && s.state == SwHelloRequestDone
    ensures Valid(s.(state := Ok)) && Live(s.(state := Ok))
  {
    hide PhaseOf;
  }

  lemma ServerStepKeeps(s: Conn, c: Choice)
    requires Valid(s) && Live(s) && s.isServer
    ensures Kept(ServerStep(s, c))
  {
    if ServerReads(s.state) {
      ServerReadKeeps(s, c);
    } else if s.state == SrChange || s.state == SrNextProto || s.state == SrChannelId || s.state == SrFinished {
      ServerLateKeeps(s, c);
    } else if ServerWrites(s.state) {
      ServerWriteKeeps(s, c);
    } else {
      hide PhaseOf;
      hide Valid;
      match s.state
      case Start =>
        StartNotTwo(s);
        StartKeeps(s, if c.request then SwHelloRequest else SrClientHello, if c.request then 1 else s.renegotiate);
      case Flush => FlushKeeps(s);
      case SwHelloRequestDone => HelloRequestDone(s);
      case Ok => OkKeeps(s);
      case _ =>
    }
  }

  // ---------- runs ----------

  lemma {:induction false} LoopKeeps(s: Conn, choices: seq<Choice>)
    requires Valid(s) && Live(s)
    ensures Valid(Loop(s, choices))
    decreases choices
  {
    hide ClientStep;
    hide ServerStep;
    hide Valid;
    hide Live;
    if choices != [] {
      if s.isServer {
        ServerStepKeeps(s, choices[0]);
      } else {
        ClientStepKeeps(s, choices[0]);
      }
      var r := Step(s, choices[0]);
      if r.ret == 1 {
        LoopKeeps(r.conn, choices[1..]);
      }
    }
  }

  lemma RestartFits(s: Conn, l: Layer)
    requires Valid(s) && ReadChange(s.layer, l)
    ensures s.state == Ok ==> Valid(Restarted(s.(layer := l)))
    ensures Valid(s.(layer := l))
  {
    hide PhaseOf;
  }

  lemma ReadingKeeps(s: Conn, want: Kind, len: nat, records: seq<Record>)
    requires Valid(s)
    ensures Valid(Called(s, Reading(want, len, records)))
  {
    assert LayerOk(s.layer);
    assert ContextOf(s).atOk == (s.state == Ok);
    ReadBytesKeep(ContextOf(s), s.layer, want, len, records);
    RestartFits(s, ReadBytes(ContextOf(s), s.layer, want, len, records).layer);
    hide ReadBytes;
    hide PhaseOf;
    hide Valid;
    hide LayerOk;
    hide ReadChange;
    hide ContextOf;
  }

  /** The window: a handshake that was cut through still expects its ChangeCipherSpec, and yet it
      does not count as one (`SSL_in_init`). */
  predicate InWindow(s: Conn)
  {
    !InInit(s, false) && s.state == CrFinished && s.layer.expectCcs
  }

  /** Where a renegotiation may start it keeps what every call keeps, exactly outside the window. */
  lemma RenegotiatingKeeps(s: Conn)
    requires Valid(s) && !InInit(s, false)
    ensures Valid(Called(s, Renegotiating)) <==> !InWindow(s)
  {
    hide PhaseOf;
  }

  lemma CalledKeeps(s: Conn, call: Call)
    requires Valid(s) && (call.Renegotiating? ==> !InWindow(s))
    ensures Valid(Called(s, call))
  {
    hide Valid;
    hide InInit;
    match call
    case Handshaking(choices, reading) =>
      if InInit(s, reading) {
        InInitIsLive(s, reading);
        LoopKeeps(s, choices);
      }
    case Reading(want, len, records) => ReadingKeeps(s, want, len, records);
    case Renegotiating =>
      if !InInit(s, false) {
        RenegotiatingKeeps(s);
      }
  }

  lemma InInitIsLive(s: Conn, reading: bool)
    requires InInit(s, reading)
    ensures Live(s)
  {
  }

  lemma InitialIsValid(isServer: bool, mayCutThrough: bool, refusesHello: bool, sentShutdown: bool)
    ensures Valid(Initial(isServer, mayCutThrough, refusesHello, sentShutdown))
  {
  }
}
