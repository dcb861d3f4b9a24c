/** The life of secure connections: each public call as an operation on one
    connection and the process-wide adaptor, with the results of the layers below
    as inputs, and runs over any number of connections. */
module ConnectionLifecycle {
  import opened Common

  datatype Phase = Init | Connecting | Connected | Closing | Closed | Failed

  /** One connection. Engines are named by numbers; a connection may use an engine that
      another one owns. */
  datatype Conn = Conn(
    phase: Phase,
    hasCtx: bool,
    hasObj: bool,
    hasTransport: bool,
    engine: Option<nat>,
    ownsEngine: bool,
    isServer: bool,
    handshakeDone: bool)

  /** The adaptor's engine, the engines made so far, and those deleted, in order. */
  datatype Engines = Engines(current: Option<nat>, made: nat, deleted: seq<nat>)

  // ---------------------------------------------------------------- results of the layers below

  datatype EngineResult = NoEngine | InitFails | EngineReady

  /** Setting up a policy context: the engine, the context object, and the status of the
      configuration calls that follow. */
  datatype SetupResult = SetupResult(engine: EngineResult, ctxMade: bool, configured: Status)

  datatype TransportResult = NoTransport | TransportFails | TransportUp

  datatype ObjResult = NoObj | FdRefused | ObjReady

  // ---------------------------------------------------------------- operations

  function NewConn(isServer: bool): Conn {
    Conn(Init, false, false, false, None, false, isServer, false)
  }

  function CloseConn(c: Conn): Conn {
    if c.phase == Closed || c.phase == Closing then c
    else c.(phase := Closed, handshakeDone := false)
  }

  // Only an owned engine is deleted, after the adaptor has let go of it.
  function Cleanup(c: Conn, g: Engines): (Conn, Engines) {
    var closed := if c.phase == Connected || c.phase == Connecting then CloseConn(c) else c;
    var bare := closed.(hasObj := false, hasCtx := false, hasTransport := false, phase := Closed);
    if c.engine.Some? && c.ownsEngine
    then (bare.(engine := None, ownsEngine := false),
          g.(current := None, deleted := g.deleted + [c.engine.value]))
    else (bare, g)
  }

  function SetupEngine(c: Conn, g: Engines, r: EngineResult): (Conn, Engines) {
    if c.engine.Some? then (c, g.(current := c.engine))
    else
      match r
      case NoEngine => (c, g)
      case InitFails => (c, g.(made := g.made + 1, deleted := g.deleted + [g.made]))
      case EngineReady => (c.(engine := Some(g.made), ownsEngine := true), g.(made := g.made + 1, current := Some(g.made)))
  }

  function SetupPolicyContext(c: Conn, g: Engines, r: SetupResult): (Conn, Engines, Status) {
    var (c1, g1) := SetupEngine(c, g, r.engine);
    (c1.(hasCtx := r.ctxMade), g1, if r.ctxMade then r.configured else MemAlloc)
  }

  function TransportStatus(t: TransportResult): Status {
    match t
    case NoTransport => MemAlloc
    case TransportFails => SecureTransport
    case TransportUp => Success
  }

  function SetupTransport(c: Conn, t: TransportResult, phase: Phase): Conn {
    var c1 := c.(hasTransport := t != NoTransport);
    if t == TransportUp then c1.(phase := phase) else c1
  }

  function ObjStatus(o: ObjResult): Status {
    match o
    case NoObj => MemAlloc
    case FdRefused => InvalidParam
    case ObjReady => Success
  }

  function CreatePolicyObj(c: Conn, o: ObjResult): Conn {
    c.(hasObj := o != NoObj)
  }

  function PhaseAfter(h: Status): Phase {
    if h == Success then Connected
    else if h == WantRead || h == WantWrite then Connecting
    else Failed
  }

  function HandshakeStep(c: Conn, h: Status): (Conn, Status) {
    if !c.hasObj then (c, NullInput)
    else (c.(phase := PhaseAfter(h), handshakeDone := c.handshakeDone || h == Success), h)
  }

  datatype ConnectResult = ConnectResult(setup: SetupResult, transport: TransportResult, obj: ObjResult, handshake: Status)

  // A failed setup only records the error; later failures clean up.
  function Connect(c: Conn, g: Engines, r: ConnectResult): (Conn, Engines, Status) {
    var (c1, g1, s1) := SetupPolicyContext(c, g, r.setup);
    FinishConnect(c1, g1, s1, r)
  }

  function FinishConnect(c: Conn, g: Engines, status: Status, r: ConnectResult): (Conn, Engines, Status) {
    if status != Success then (c.(phase := Failed), g, status)
    else
      var c2 := SetupTransport(c, r.transport, Connecting);
      if r.transport != TransportUp then CleanupWith(c2, g, TransportStatus(r.transport))
      else
        var c3 := CreatePolicyObj(c2, r.obj);
        if r.obj != ObjReady then CleanupWith(c3, g, ObjStatus(r.obj))
        else
          var (c4, s4) := HandshakeStep(c3, r.handshake); (c4, g, s4)
  }

  function CleanupWith(c: Conn, g: Engines, status: Status): (Conn, Engines, Status) {
    var (d, h) := Cleanup(c.(phase := Failed), g); (d, h, status)
  }

  function Listen(c: Conn, g: Engines, setup: SetupResult, t: TransportResult): (Conn, Engines, Status) {
    var (c1, g1, s1) := SetupPolicyContext(c, g, setup);
    var (c2, s2) := FinishListen(c1, s1, t);
    (c2, g1, s2)
  }

  function FinishListen(c: Conn, status: Status, t: TransportResult): (Conn, Status) {
    if status != Success then (c.(phase := Failed), status)
    else
      var c2 := SetupTransport(c, t, Init);
      if t != TransportUp then (c2.(phase := Failed), TransportStatus(t)) else (c2, Success)
  }

  datatype AcceptResult = AcceptResult(incoming: bool, setup: SetupResult, obj: ObjResult, handshake: Status)

  // The accepted connection borrows the listener's engine. If it cannot be set up it is
  // destroyed again and nothing is returned.
  function Accept(listener: Conn, g: Engines, r: AcceptResult): (Option<Conn>, Engines) {
    if !listener.isServer || !listener.hasTransport || !r.incoming then (None, g)
    else
      var child := NewConn(true).(hasTransport := true, engine := listener.engine);
      var g0 := if listener.engine.Some? then g.(current := listener.engine) else g;
      var (c1, g1, s1) := SetupPolicyContext(child, g0, r.setup);
      FinishAccept(c1, g1, s1, r)
  }

  function FinishAccept(c: Conn, g: Engines, status: Status, r: AcceptResult): (Option<Conn>, Engines) {
    if status != Success then (None, Cleanup(c, g).1)
    else
      var c2 := CreatePolicyObj(c, r.obj);
      if r.obj != ObjReady then (None, Cleanup(c2, g).1) else StartHandshake(c2, g, r.handshake)
  }

  function StartHandshake(c: Conn, g: Engines, handshake: Status): (Option<Conn>, Engines) {
    var (c1, status) := HandshakeStep(c, handshake);
    match PhaseAfter(status)
    case Connecting => (Some(c1.(phase := Connecting)), g)
    case Connected => (Some(c1.(phase := Connected, handshakeDone := true)), g)
    case _ => (None, Cleanup(c1, g).1)
  }

  predicate IsConnected(c: Conn) {
    c.phase == Connected && c.handshakeDone
  }

  // ---------------------------------------------------------------- one connection

  /** A connected connection has its policy object and a finished handshake. */
  predicate IsSound(c: Conn) {
    && (c.phase == Connected ==> c.hasObj && c.handshakeDone)
    && (c.ownsEngine ==> c.engine.Some?)
  }

  lemma SetupKeepsSound(c: Conn, g: Engines, r: SetupResult)
    requires IsSound(c)
    ensures IsSound(SetupPolicyContext(c, g, r).0)
  {
  }

  lemma CleanupEndsClosed(c: Conn, g: Engines)
    requires IsSound(c)
    ensures var d := Cleanup(c, g).0;
            IsSound(d) && d.phase == Closed && !d.hasObj && !d.hasCtx && !d.hasTransport && !d.ownsEngine
  {
  }

  lemma ConnectKeepsSound(c: Conn, g: Engines, r: ConnectResult)
    requires IsSound(c)
    ensures IsSound(Connect(c, g, r).0)
  {
    SetupKeepsSound(c, g, r.setup);
    var (c1, g1, s1) := SetupPolicyContext(c, g, r.setup);
    FinishKeepsSound(c1, g1, s1, r);
  }

  lemma FinishKeepsSound(c: Conn, g: Engines, status: Status, r: ConnectResult)
    requires IsSound(c)
    ensures IsSound(FinishConnect(c, g, status, r).0)
  {
    var c2 := SetupTransport(c, r.transport, Connecting);
    if r.transport != TransportUp {
      CleanupEndsClosed(c2.(phase := Failed), g);
    } else {
      CleanupEndsClosed(CreatePolicyObj(c2, r.obj).(phase := Failed), g);
    }
  }

  lemma ListenKeepsSound(c: Conn, g: Engines, setup: SetupResult, t: TransportResult)
    requires IsSound(c)
    ensures IsSound(Listen(c, g, setup, t).0)
  {
    SetupKeepsSound(c, g, setup);
  }

  lemma AcceptGivesSound(listener: Conn, g: Engines, a: AcceptResult)
    ensures Accept(listener, g, a).0.Some? ==> IsSound(Accept(listener, g, a).0.value)
  {
  }

  // ---------------------------------------------------------------- every answer

  predicate IsSetUp(r: SetupResult) {
    r.ctxMade && r.configured == Success
  }

  predicate IsWaiting(h: Status) {
    h == WantRead || h == WantWrite
  }

  /** A later handshake step: success connects, want-read and want-write wait, anything else
      fails, and without a policy object nothing happens. */
  lemma HandshakeAnswersExactly(c: Conn, h: Status)
    ensures var (d, status) := HandshakeStep(c, h);
            if !c.hasObj then d == c && status == NullInput
            else && status == h
                 && d.phase == (if h == Success then Connected else if IsWaiting(h) then Connecting else Failed)
                 && (IsConnected(d) <==> h == Success)
                 && (d.handshakeDone <==> c.handshakeDone || h == Success)
                 && d == c.(phase := d.phase, handshakeDone := d.handshakeDone)
  {
  }

  /** An accept returns a connection exactly when there was one to accept, every layer
      succeeded and the handshake succeeded or has to wait. It is connected exactly if the
      handshake succeeded, and borrows the listener's engine if there is one. */
  lemma AcceptAnswersExactly(listener: Conn, g: Engines, r: AcceptResult)
    ensures var child := Accept(listener, g, r).0;
            && (child.Some? <==>
                  && listener.isServer && listener.hasTransport && r.incoming
                  && IsSetUp(r.setup) && r.obj == ObjReady && (r.handshake == Success || IsWaiting(r.handshake)))
            && (child.Some? ==>
                  && (IsConnected(child.value) <==> r.handshake == Success)
                  && (child.value.phase == Connecting <==> r.handshake != Success)
                  && child.value.isServer && child.value.hasTransport && child.value.hasCtx && child.value.hasObj
                  && (listener.engine.Some? ==> child.value.engine == listener.engine && !child.value.ownsEngine))
  {
    if listener.isServer && listener.hasTransport && r.incoming {
      var child := NewConn(true).(hasTransport := true, engine := listener.engine);
      var g0 := if listener.engine.Some? then g.(current := listener.engine) else g;
      var (c1, g1, s1) := SetupPolicyContext(child, g0, r.setup);
      SetupExactly(child, g0, r.setup);
      FinishAcceptAnswers(c1, g1, s1, r);
    }
  }

  lemma FinishAcceptAnswers(c: Conn, g: Engines, setup: Status, r: AcceptResult)
    ensures var child := FinishAccept(c, g, setup, r).0;
            && (child.Some? <==>
                  setup == Success && r.obj == ObjReady && (r.handshake == Success || IsWaiting(r.handshake)))
            && (child.Some? ==>
                  && child.value == c.(hasObj := true, phase := child.value.phase,
                                       handshakeDone := c.handshakeDone || r.handshake == Success)
                  && child.value.phase == if r.handshake == Success then Connected else Connecting)
  {
  }

  /** A listen succeeds exactly when the setup and the transport did. The listener then waits
      in its initial state, and has failed otherwise. */
  lemma ListenAnswersExactly(c: Conn, g: Engines, setup: SetupResult, t: TransportResult)
    ensures var (d, _, status) := Listen(c, g, setup, t);
            && status == (if !setup.ctxMade then MemAlloc
                          else if setup.configured != Success then setup.configured
                          else if t == NoTransport then MemAlloc
                          else if t == TransportFails then SecureTransport
                          else Success)
            && d.phase == (if status == Success then Init else Failed)
            && (status == Success ==> d.hasCtx && d.hasTransport)
  {
    SetupExactly(c, g, setup);
  }

  /** A setup makes an engine only where there was none, owns it only if it works, and leaves
      the adaptor with the engine of the connection if there is one. */
  lemma SetupExactly(c: Conn, g: Engines, r: SetupResult)
    ensures var (d, h, status) := SetupPolicyContext(c, g, r);
            && status == (if r.ctxMade then r.configured else MemAlloc)
            && d == c.(hasCtx := r.ctxMade, engine := d.engine, ownsEngine := d.ownsEngine)
            && (d.engine.Some? <==> c.engine.Some? || r.engine == EngineReady)
            && (c.engine.Some? ==> d.engine == c.engine && d.ownsEngine == c.ownsEngine)
            && (c.engine.None? && d.engine.Some? ==> d.engine == Some(g.made) && d.ownsEngine)
            && h.current == (if d.engine.Some? then d.engine else g.current)
            && h.made == g.made + (if c.engine.None? && r.engine != NoEngine then 1 else 0)
            && h.deleted == g.deleted + (if c.engine.None? && r.engine == InitFails then [g.made] else [])
  {
  }

  /** A cleanup gives up everything. It deletes the engine exactly if the connection owns it,
      and only then takes it from the adaptor. */
  lemma CleanupExactly(c: Conn, g: Engines)
    ensures var (d, h) := Cleanup(c, g);
            && d.phase == Closed && !d.hasObj && !d.hasCtx && !d.hasTransport && !IsConnected(d)
            && h.made == g.made
            && (if c.engine.Some? && c.ownsEngine
                then h.current == None && h.deleted == g.deleted + [c.engine.value] && d.engine == None && !d.ownsEngine
                else h == g && d.engine == c.engine && d.ownsEngine == c.ownsEngine)
            && (d.handshakeDone <==> c.handshakeDone && c.phase !in {Connected, Connecting})
  {
  }

  /** A close always leaves a connection that is not up, and gives nothing back. */
  lemma CloseExactly(c: Conn)
    ensures var d := CloseConn(c);
            && d.phase == (if c.phase == Closing then Closing else Closed) && !IsConnected(d)
            && d == c.(phase := d.phase, handshakeDone := d.handshakeDone)
            && (d.handshakeDone <==> c.handshakeDone && c.phase in {Closed, Closing})
  {
  }

  lemma FinishConnectAnswers(c: Conn, g: Engines, setup: Status, r: ConnectResult)
    ensures var (d, _, status) := FinishConnect(c, g, setup, r);
            && status == (if setup != Success then setup
                          else if r.transport == NoTransport then MemAlloc
                          else if r.transport == TransportFails then SecureTransport
                          else if r.obj == NoObj then MemAlloc
                          else if r.obj == FdRefused then InvalidParam
                          else r.handshake)
            && d.phase == (if setup != Success then Failed
                           else if r.transport != TransportUp || r.obj != ObjReady then Closed
                           else if r.handshake == Success then Connected
                           else if IsWaiting(r.handshake) then Connecting
                           else Failed)
            && (d.phase == Connected ==> d.handshakeDone)
  {
    var c2 := SetupTransport(c, r.transport, Connecting);
    var c3 := CreatePolicyObj(c2, r.obj);
    if setup == Success && r.transport != TransportUp {
      CleanupWithAnswers(c2, g, TransportStatus(r.transport));
    } else if setup == Success && r.obj != ObjReady {
      CleanupWithAnswers(c3, g, ObjStatus(r.obj));
    } else if setup == Success {
      HandshakeAnswersExactly(c3, r.handshake);
    }
  }

  lemma CleanupWithAnswers(c: Conn, g: Engines, status: Status)
    ensures CleanupWith(c, g, status).0.phase == Closed && CleanupWith(c, g, status).2 == status
  {
    CleanupExactly(c.(phase := Failed), g);
  }

  /** A connect reports the first layer that fails, or the handshake, and leaves the connection
      connected exactly when it reports success: when setup, transport, object and handshake
      all succeeded. Where a handshake has to wait it is connecting, where a layer failed after
      the setup it is closed, and otherwise it has failed. */
  lemma ConnectAnswersExactly(c: Conn, g: Engines, r: ConnectResult)
    ensures var (d, _, status) := Connect(c, g, r);
            && status == (if !r.setup.ctxMade then MemAlloc
                          else if r.setup.configured != Success then r.setup.configured
                          else if r.transport == NoTransport then MemAlloc
                          else if r.transport == TransportFails then SecureTransport
                          else if r.obj == NoObj then MemAlloc
                          else if r.obj == FdRefused then InvalidParam
                          else r.handshake)
            && (status == Success <==>
                  IsSetUp(r.setup) && r.transport == TransportUp && r.obj == ObjReady && r.handshake == Success)
            && (IsConnected(d) <==> status == Success)
            && (d.phase == Connected <==> status == Success)
            && (d.phase == Connecting <==>
                  IsSetUp(r.setup) && r.transport == TransportUp && r.obj == ObjReady && IsWaiting(r.handshake))
            && (d.phase == Closed <==> IsSetUp(r.setup) && (r.transport != TransportUp || r.obj != ObjReady))
            && d.phase in {Connected, Connecting, Closed, Failed}
  {
    var (c1, g1, s1) := SetupPolicyContext(c, g, r.setup);
    FinishConnectAnswers(c1, g1, s1, r);
  }

  /** A new connection has nothing and is not up. */
  lemma NewConnExactly(isServer: bool)
    ensures var c := NewConn(isServer);
            && c.phase == Init && c.isServer == isServer && !IsConnected(c) && !c.handshakeDone
            && !c.hasCtx && !c.hasObj && !c.hasTransport && c.engine == None && !c.ownsEngine
  {
  }

  // ---------------------------------------------------------------- engines

  ghost predicate IsDistinct(s: seq<nat>) {
    forall i, j :: 0 <= i < j < |s| ==> s[i] != s[j]
  }

  /** Engines are numbered below the counter, none has been deleted twice, and what the
      connection owns is still there. */
  ghost predicate EnginesFit(c: Conn, g: Engines) {
    && IsSound(c)
    && IsDistinct(g.deleted)
    && (forall i :: 0 <= i < |g.deleted| ==> g.deleted[i] < g.made)
    && (c.engine.Some? ==> c.engine.value < g.made)
    && (c.ownsEngine ==> c.engine.value !in g.deleted)
  }

  predicate Owns(c: Conn, e: nat) {
    c.ownsEngine && c.engine == Some(e)
  }

  /** A call deletes only engines that are new or that its connection owned, and afterwards
      the connection owns only what it did or something new. */
  ghost predicate TouchesOnlyOwn(c: Conn, g: Engines, c': Conn, g': Engines) {
    && g.made <= g'.made
    && g.deleted <= g'.deleted
    && (forall e :: e in g'.deleted ==> e in g.deleted || e >= g.made || Owns(c, e))
    && (forall e: nat :: Owns(c', e) ==> e >= g.made || Owns(c, e))
  }

  /** Every engine that is new or that the connection owned is deleted or still owned. */
  ghost predicate LosesNone(c: Conn, g: Engines, c': Conn, g': Engines) {
    forall e: nat :: e < g'.made && (e >= g.made || Owns(c, e)) ==> e in g'.deleted || Owns(c', e)
  }

  ghost predicate IsFairCall(c: Conn, g: Engines, c': Conn, g': Engines) {
    EnginesFit(c', g') && TouchesOnlyOwn(c, g, c', g') && LosesNone(c, g, c', g')
  }

  lemma SetupIsFair(c: Conn, g: Engines, r: SetupResult)
    requires EnginesFit(c, g)
    ensures var (c', g', _) := SetupPolicyContext(c, g, r); IsFairCall(c, g, c', g')
  {
  }

  lemma CleanupIsFair(c: Conn, g: Engines)
    requires EnginesFit(c, g)
    ensures var (c', g') := Cleanup(c, g); IsFairCall(c, g, c', g')
  {
  }

  lemma FairCallsCompose(c: Conn, g: Engines, c1: Conn, g1: Engines, c2: Conn, g2: Engines)
    requires IsFairCall(c, g, c1, g1) && IsFairCall(c1, g1, c2, g2)
    ensures IsFairCall(c, g, c2, g2)
  {
  }

  /** Changing anything but the engine fields keeps a call fair. */
  lemma SameEngineIsFair(c: Conn, g: Engines, c1: Conn, c2: Conn, g1: Engines)
    requires IsFairCall(c, g, c1, g1) && IsSound(c2)
    requires c2.engine == c1.engine && c2.ownsEngine == c1.ownsEngine
    ensures IsFairCall(c, g, c2, g1)
  {
  }

  lemma SetupThenCleanup(c: Conn, g: Engines, r: SetupResult, c2: Conn)
    requires EnginesFit(c, g) && IsSound(c2)
    requires var (c1, g1, _) := SetupPolicyContext(c, g, r);
             c2.engine == c1.engine && c2.ownsEngine == c1.ownsEngine
    ensures var (_, g1, _) := SetupPolicyContext(c, g, r);
            IsFairCall(c, g, c2, g1) && IsFairCall(c, g, Cleanup(c2, g1).0, Cleanup(c2, g1).1)
  {
    var (c1, g1, _) := SetupPolicyContext(c, g, r);
    SetupIsFair(c, g, r);
    SameEngineIsFair(c, g, c1, c2, g1);
    CleanupIsFair(c2, g1);
    FairCallsCompose(c, g, c2, g1, Cleanup(c2, g1).0, Cleanup(c2, g1).1);
  }

  lemma ConnectIsFair(c: Conn, g: Engines, r: ConnectResult)
    requires EnginesFit(c, g)
    ensures var (c', g', _) := Connect(c, g, r); IsFairCall(c, g, c', g')
  {
    var (c1, g1, s1) := SetupPolicyContext(c, g, r.setup);
    SetupIsFair(c, g, r.setup);
    FinishConnectIsFair(c1, g1, s1, r);
    var (c2, g2, _) := FinishConnect(c1, g1, s1, r);
    FairCallsCompose(c, g, c1, g1, c2, g2);
  }

  lemma StayingIsFair(c: Conn, g: Engines, c2: Conn)
    requires EnginesFit(c, g) && IsSound(c2)
    requires c2.engine == c.engine && c2.ownsEngine == c.ownsEngine
    ensures IsFairCall(c, g, c2, g)
  {
  }

  lemma CleanupWithIsFair(c: Conn, g: Engines, c2: Conn, status: Status)
    requires EnginesFit(c, g) && IsSound(c2)
    requires c2.engine == c.engine && c2.ownsEngine == c.ownsEngine
    ensures var (c', g', _) := CleanupWith(c2, g, status); IsFairCall(c, g, c', g')
  {
    var failed := c2.(phase := Failed);
    StayingIsFair(c, g, failed);
    CleanupIsFair(failed, g);
    FairCallsCompose(c, g, failed, g, Cleanup(failed, g).0, Cleanup(failed, g).1);
  }

  lemma FinishConnectIsFair(c: Conn, g: Engines, status: Status, r: ConnectResult)
    requires EnginesFit(c, g)
    ensures var (c', g', _) := FinishConnect(c, g, status, r); IsFairCall(c, g, c', g')
  {
    var c2 := SetupTransport(c, r.transport, Connecting);
    var c3 := CreatePolicyObj(c2, r.obj);
    if status != Success {
      StayingIsFair(c, g, c.(phase := Failed));
    } else if r.transport != TransportUp {
      CleanupWithIsFair(c, g, c2, TransportStatus(r.transport));
    } else if r.obj != ObjReady {
      CleanupWithIsFair(c, g, c3, ObjStatus(r.obj));
    } else {
      StayingIsFair(c, g, HandshakeStep(c3, r.handshake).0);
    }
  }

  lemma ListenIsFair(c: Conn, g: Engines, setup: SetupResult, t: TransportResult)
    requires EnginesFit(c, g)
    ensures var (c', g', _) := Listen(c, g, setup, t); IsFairCall(c, g, c', g')
  {
    var (c1, g1, s1) := SetupPolicyContext(c, g, setup);
    SetupIsFair(c, g, setup);
    if s1 != Success {
      SameEngineIsFair(c, g, c1, c1.(phase := Failed), g1);
    } else if t != TransportUp {
      SameEngineIsFair(c, g, c1, SetupTransport(c1, t, Init).(phase := Failed), g1);
    } else {
      SameEngineIsFair(c, g, c1, SetupTransport(c1, t, Init), g1);
    }
  }

  /** What an accept leaves: nothing that existed before is touched, and a refused
      connection leaves no engine behind. */
  ghost predicate IsFairOutcome(child: Conn, g: Engines, accepted: Option<Conn>, g': Engines) {
    && TouchesOnlyOwn(child, g, child, g') && EnginesFit(child, g')
    && (accepted.None? ==> LosesNone(child, g, child, g'))
    && (accepted.Some? ==> IsFairCall(child, g, accepted.value, g'))
  }

  lemma RefusalIsFair(child: Conn, g: Engines, r: SetupResult, c2: Conn)
    requires EnginesFit(child, g) && !child.ownsEngine && IsSound(c2)
    requires var (c1, g1, _) := SetupPolicyContext(child, g, r);
             c2.engine == c1.engine && c2.ownsEngine == c1.ownsEngine
    ensures IsFairOutcome(child, g, None, Cleanup(c2, SetupPolicyContext(child, g, r).1).1)
  {
    SetupThenCleanup(child, g, r, c2);
  }

  lemma AcceptanceIsFair(child: Conn, g: Engines, r: SetupResult, c2: Conn)
    requires EnginesFit(child, g) && !child.ownsEngine && IsSound(c2)
    requires var (c1, g1, _) := SetupPolicyContext(child, g, r);
             c2.engine == c1.engine && c2.ownsEngine == c1.ownsEngine
    ensures IsFairOutcome(child, g, Some(c2), SetupPolicyContext(child, g, r).1)
  {
    var (c1, g1, _) := SetupPolicyContext(child, g, r);
    SetupIsFair(child, g, r);
    SameEngineIsFair(child, g, c1, c2, g1);
  }

  lemma StartHandshakeIsFair(child: Conn, g: Engines, r: SetupResult, c2: Conn, handshake: Status)
    requires EnginesFit(child, g) && !child.ownsEngine && IsSound(c2) && c2.hasObj
    requires var (c1, g1, _) := SetupPolicyContext(child, g, r);
             c2.engine == c1.engine && c2.ownsEngine == c1.ownsEngine
    ensures var (accepted, g') := StartHandshake(c2, SetupPolicyContext(child, g, r).1, handshake);
            IsFairOutcome(child, g, accepted, g')
  {
    var (c3, s3) := HandshakeStep(c2, handshake);
    match PhaseAfter(s3)
    case Connecting => AcceptanceIsFair(child, g, r, c3.(phase := Connecting));
    case Connected => AcceptanceIsFair(child, g, r, c3.(phase := Connected, handshakeDone := true));
    case _ => RefusalIsFair(child, g, r, c3);
  }

  lemma FinishIsFair(child: Conn, g: Engines, r: AcceptResult)
    requires EnginesFit(child, g) && !child.ownsEngine && child.phase == Init
    ensures var (c1, g1, s1) := SetupPolicyContext(child, g, r.setup);
            var (accepted, g') := FinishAccept(c1, g1, s1, r);
            IsFairOutcome(child, g, accepted, g')
  {
    var (c1, g1, s1) := SetupPolicyContext(child, g, r.setup);
    var c2 := CreatePolicyObj(c1, r.obj);
    if s1 != Success {
      RefusalIsFair(child, g, r.setup, c1);
    } else if r.obj != ObjReady {
      RefusalIsFair(child, g, r.setup, c2);
    } else {
      StartHandshakeIsFair(child, g, r.setup, c2, r.handshake);
    }
  }

  /** Accepting is fair to the new connection, which starts out owning nothing; the
      listener is not changed at all. */
  lemma AcceptIsFair(listener: Conn, g: Engines, r: AcceptResult)
    requires EnginesFit(listener, g)
    ensures var (accepted, g') := Accept(listener, g, r); IsFairOutcome(NewConn(true), g, accepted, g')
  {
    if listener.isServer && listener.hasTransport && r.incoming {
      var child := NewConn(true).(hasTransport := true, engine := listener.engine);
      var g0 := if listener.engine.Some? then g.(current := listener.engine) else g;
      FinishIsFair(child, g0, r);
    }
  }

  // ---------------------------------------------------------------- many connections

  datatype World = World(conns: map<nat, Conn>, engines: Engines)

  datatype Event =
    | CreateEvent(id: nat, isServer: bool)
    | ConnectEvent(id: nat, connect: ConnectResult)
    | ListenEvent(id: nat, setup: SetupResult, transport: TransportResult)
    | AcceptEvent(id: nat, childId: nat, accept: AcceptResult)
    | HandshakeEvent(id: nat, handshake: Status)
    | CloseEvent(id: nat)
    | DestroyEvent(id: nat)

  const EmptyWorld := World(map[], Engines(None, 0, []))

  function Put(w: World, id: nat, c: Conn, g: Engines): World {
    World(w.conns[id := c], g)
  }

  // An event about a connection that does not exist, or an id already in use, does nothing.
  function Step(w: World, e: Event): World {
    if e.CreateEvent? then
      if e.id in w.conns then w else Put(w, e.id, NewConn(e.isServer), w.engines)
    else if e.id !in w.conns then w
    else
      var c := w.conns[e.id];
      match e
      case ConnectEvent(id, r) => var (c', g', _) := Connect(c, w.engines, r); Put(w, id, c', g')
      case ListenEvent(id, setup, t) => var (c', g', _) := Listen(c, w.engines, setup, t); Put(w, id, c', g')
      case AcceptEvent(_, childId, r) =>
        if childId in w.conns then w
        else
          var (child, g') := Accept(c, w.engines, r);
          if child.Some? then Put(w, childId, child.value, g') else w.(engines := g')
      case HandshakeEvent(id, h) => Put(w, id, HandshakeStep(c, h).0, w.engines)
      case CloseEvent(id) => Put(w, id, CloseConn(c), w.engines)
      case DestroyEvent(id) => World(w.conns - {id}, Cleanup(c, w.engines).1)
  }

  /** Each event is its call on one connection, creates one or removes it. It leaves every
      other connection alone, and an accept leaves the listener alone too. */
  lemma EventsAreCalls(w: World, e: Event)
    ensures var after := Step(w, e);
            var present := e.id in w.conns;
            && (e.CreateEvent? && !present ==> after == Put(w, e.id, NewConn(e.isServer), w.engines))
            && (e.CreateEvent? && present ==> after == w)
            && (!e.CreateEvent? && !present ==> after == w)
            && (e.ConnectEvent? && present ==>
                  e.id in after.conns &&
                  (after.conns[e.id], after.engines) ==
                  (Connect(w.conns[e.id], w.engines, e.connect).0, Connect(w.conns[e.id], w.engines, e.connect).1))
            && (e.HandshakeEvent? && present ==>
                  e.id in after.conns && after.conns[e.id] == HandshakeStep(w.conns[e.id], e.handshake).0
                  && after.engines == w.engines)
            && (e.CloseEvent? && present ==>
                  e.id in after.conns && after.conns[e.id] == CloseConn(w.conns[e.id]) && after.engines == w.engines)
            && (e.DestroyEvent? && present ==>
                  e.id !in after.conns && after.engines == Cleanup(w.conns[e.id], w.engines).1)
            && (e.AcceptEvent? && present && e.childId !in w.conns ==>
                  && (e.childId in after.conns <==> Accept(w.conns[e.id], w.engines, e.accept).0.Some?)
                  && (e.childId in after.conns ==>
                        Some(after.conns[e.childId]) == Accept(w.conns[e.id], w.engines, e.accept).0)
                  && after.engines == Accept(w.conns[e.id], w.engines, e.accept).1)
            && (forall b :: b in w.conns && (b != e.id || e.AcceptEvent?) ==>
                  b in after.conns && after.conns[b] == w.conns[b])
  {
  }

  function Run(events: seq<Event>): World {
    if events == [] then EmptyWorld else Step(Run(events[..|events| - 1]), events[|events| - 1])
  }

  /** Every engine ever made is deleted or owned by a connection. */
  ghost predicate NoneLost(w: World) {
    forall e: nat :: e < w.engines.made ==>
      e in w.engines.deleted || exists id :: id in w.conns && Owns(w.conns[id], e)
  }

  /** Every connection fits, no engine has two owners, and none is lost. */
  ghost predicate ValidWorld(w: World) {
    && NoneLost(w)
    && EnginesFit(NewConn(true), w.engines)
    && (forall id :: id in w.conns ==> EnginesFit(w.conns[id], w.engines))
    && (forall a, b, e: nat ::
          a in w.conns && b in w.conns && Owns(w.conns[a], e) && Owns(w.conns[b], e) ==> a == b)
  }

  lemma FairCallKeepsWorld(w: World, id: nat, c': Conn, g': Engines)
    requires ValidWorld(w) && id in w.conns
    requires IsFairCall(w.conns[id], w.engines, c', g')
    ensures ValidWorld(Put(w, id, c', g'))
  {
    OthersStillFit(w, w.conns[id], g', id);
    StillNoneLost(w, Put(w, id, c', g'), id, w.conns[id], c');
  }

  lemma StillNoneLost(w: World, w': World, id: nat, c: Conn, c': Conn)
    requires NoneLost(w)
    requires if id in w.conns then w.conns[id] == c else !c.ownsEngine
    requires forall b :: b in w.conns && b != id ==> b in w'.conns && w'.conns[b] == w.conns[b]
    requires if id in w'.conns then w'.conns[id] == c' else !c'.ownsEngine
    requires w.engines.deleted <= w'.engines.deleted && LosesNone(c, w.engines, c', w'.engines)
    ensures NoneLost(w')
  {
    forall e: nat | e < w'.engines.made && e !in w'.engines.deleted
      ensures exists b :: b in w'.conns && Owns(w'.conns[b], e)
    {
      if e >= w.engines.made || Owns(c, e) {
        assert Owns(c', e);
      } else {
        assert e !in w.engines.deleted;
        var b :| b in w.conns && Owns(w.conns[b], e);
        assert b in w'.conns && Owns(w'.conns[b], e);
      }
    }
  }

  lemma OthersStillFit(w: World, c: Conn, g': Engines, id: nat)
    requires ValidWorld(w)
    requires id in w.conns ==> w.conns[id] == c
    requires id !in w.conns ==> !c.ownsEngine
    requires EnginesFit(NewConn(true), g')
    requires w.engines.made <= g'.made
    requires forall e :: e in g'.deleted ==> e in w.engines.deleted || e >= w.engines.made || Owns(c, e)
    ensures forall b :: b in w.conns && b != id ==> EnginesFit(w.conns[b], g')
  {
  }

  lemma NewcomerKeepsWorld(w: World, id: nat, c': Conn, g': Engines)
    requires ValidWorld(w) && id !in w.conns
    requires IsFairCall(NewConn(true), w.engines, c', g')
    ensures ValidWorld(Put(w, id, c', g'))
  {
    OthersStillFit(w, NewConn(true), g', id);
    StillNoneLost(w, Put(w, id, c', g'), id, NewConn(true), c');
  }

  lemma RefusalKeepsWorld(w: World, id: nat, g': Engines)
    requires ValidWorld(w) && id !in w.conns
    requires TouchesOnlyOwn(NewConn(true), w.engines, NewConn(true), g') && EnginesFit(NewConn(true), g')
    requires LosesNone(NewConn(true), w.engines, NewConn(true), g')
    ensures ValidWorld(w.(engines := g'))
  {
    OthersStillFit(w, NewConn(true), g', id);
    StillNoneLost(w, w.(engines := g'), id, NewConn(true), NewConn(true));
  }

  lemma DestroyKeepsWorld(w: World, id: nat)
    requires ValidWorld(w) && id in w.conns
    ensures ValidWorld(World(w.conns - {id}, Cleanup(w.conns[id], w.engines).1))
  {
    var (c', g') := Cleanup(w.conns[id], w.engines);
    CleanupIsFair(w.conns[id], w.engines);
    OthersStillFit(w, w.conns[id], g', id);
    StillNoneLost(w, World(w.conns - {id}, g'), id, w.conns[id], c');
  }

  lemma AcceptKeepsWorld(w: World, id: nat, childId: nat, r: AcceptResult)
    requires ValidWorld(w) && id in w.conns
    ensures ValidWorld(Step(w, AcceptEvent(id, childId, r)))
  {
    if childId !in w.conns {
      AcceptIsFair(w.conns[id], w.engines, r);
      var (child, g') := Accept(w.conns[id], w.engines, r);
      if child.Some? {
        NewcomerKeepsWorld(w, childId, child.value, g');
      } else {
        RefusalKeepsWorld(w, childId, g');
      }
    }
  }

  lemma CallKeepsWorld(w: World, e: Event)
    requires ValidWorld(w) && e.id in w.conns
    requires e.ConnectEvent? || e.ListenEvent? || e.HandshakeEvent? || e.CloseEvent?
    ensures ValidWorld(Step(w, e))
  {
    var c, g := w.conns[e.id], w.engines;
    match e
    case ConnectEvent(id, r) =>
      ConnectIsFair(c, g, r);
      FairCallKeepsWorld(w, id, Connect(c, g, r).0, Connect(c, g, r).1);
    case ListenEvent(id, setup, t) =>
      ListenIsFair(c, g, setup, t);
      FairCallKeepsWorld(w, id, Listen(c, g, setup, t).0, Listen(c, g, setup, t).1);
    case HandshakeEvent(id, h) =>
      StayingIsFair(c, g, HandshakeStep(c, h).0);
      FairCallKeepsWorld(w, id, HandshakeStep(c, h).0, g);
    case CloseEvent(id) =>
      StayingIsFair(c, g, CloseConn(c));
      FairCallKeepsWorld(w, id, CloseConn(c), g);
  }

  lemma StepKeepsWorld(w: World, e: Event)
    requires ValidWorld(w)
    ensures ValidWorld(Step(w, e))
  {
    if e.CreateEvent? {
      if e.id !in w.conns {
        OthersStillFit(w, NewConn(true), w.engines, e.id);
        StillNoneLost(w, Step(w, e), e.id, NewConn(true), NewConn(e.isServer));
      }
    } else if e.id in w.conns {
      match e
      case AcceptEvent(id, childId, r) => AcceptKeepsWorld(w, id, childId, r);
      case DestroyEvent(id) => DestroyKeepsWorld(w, id);
      case _ => CallKeepsWorld(w, e);
    }
  }

  /** Over every run, with connections created, accepted and destroyed in any order: no
      engine is deleted twice, an owned engine is never a deleted one, and every connection
      is up exactly when its state says so. */
  lemma {:induction false} NoEngineDeletedTwice(events: seq<Event>)
    ensures ValidWorld(Run(events))
    ensures IsDistinct(Run(events).engines.deleted)
    ensures forall id :: id in Run(events).conns ==>
              (IsConnected(Run(events).conns[id]) <==> Run(events).conns[id].phase == Connected)
  {
    if events != [] {
      NoEngineDeletedTwice(events[..|events| - 1]);
      StepKeepsWorld(Run(events[..|events| - 1]), events[|events| - 1]);
    }
  }

  const UpResult := ConnectResult(SetupResult(NoEngine, true, Success), TransportUp, ObjReady, Success)

  const DownResult := UpResult.(transport := TransportFails)

  /** A connection that was up and fails to connect again is closed, and still remembers its
      old handshake. */
  lemma FailedReconnectKeepsHandshake()
    ensures exists events :: 0 in Run(events).conns &&
              Run(events).conns[0].phase == Closed && Run(events).conns[0].handshakeDone
  {
    var events := [] + [CreateEvent(0, false)];
    RunPlus([], CreateEvent(0, false));
    RunPlus(events, ConnectEvent(0, UpResult));
    assert Run(events + [ConnectEvent(0, UpResult)]).conns[0].handshakeDone;
    RunPlus(events + [ConnectEvent(0, UpResult)], ConnectEvent(0, DownResult));
    var c := Run(events + [ConnectEvent(0, UpResult)] + [ConnectEvent(0, DownResult)]).conns[0];
    assert c.phase == Closed && c.handshakeDone;
  }

  /** When every connection has been destroyed, each engine ever made has been deleted,
      exactly once. */
  lemma EveryEngineDeletedOnce(events: seq<Event>)
    requires Run(events).conns == map[]
    ensures var g := Run(events).engines;
            && IsDistinct(g.deleted)
            && (forall e: nat :: e in g.deleted <==> e < g.made)
  {
    NoEngineDeletedTwice(events);
  }

  // ---------------------------------------------------------------- the adaptor's engine

  /** The adaptor refers to no engine or to one that still exists. */
  ghost predicate CurrentAlive(g: Engines) {
    g.current.Some? ==> g.current.value < g.made && g.current.value !in g.deleted
  }

  ghost predicate EngineAlive(c: Conn, g: Engines) {
    c.engine.Some? ==> c.engine.value < g.made && c.engine.value !in g.deleted
  }

  lemma SetupKeepsAlive(c: Conn, g: Engines, r: SetupResult)
    requires CurrentAlive(g) && EngineAlive(c, g)
    requires EnginesFit(NewConn(true), g)
    ensures CurrentAlive(SetupPolicyContext(c, g, r).1)
  {
  }

  lemma CleanupKeepsAlive(c: Conn, g: Engines)
    requires CurrentAlive(g)
    ensures CurrentAlive(Cleanup(c, g).1)
  {
  }

  lemma CallsKeepAlive(c: Conn, g: Engines, r: ConnectResult, setup: SetupResult, t: TransportResult)
    requires CurrentAlive(g) && EngineAlive(c, g)
    requires EnginesFit(NewConn(true), g)
    ensures CurrentAlive(Connect(c, g, r).1)
    ensures CurrentAlive(Listen(c, g, setup, t).1)
  {
    SetupKeepsAlive(c, g, r.setup);
    SetupKeepsAlive(c, g, setup);
    var (c1, g1, _) := SetupPolicyContext(c, g, r.setup);
    var c2 := SetupTransport(c1, r.transport, Connecting);
    CleanupKeepsAlive(c2.(phase := Failed), g1);
    CleanupKeepsAlive(CreatePolicyObj(c2, r.obj).(phase := Failed), g1);
  }

  lemma AcceptKeepsAlive(c: Conn, g: Engines, r: AcceptResult)
    requires CurrentAlive(g) && EngineAlive(c, g)
    requires EnginesFit(NewConn(true), g)
    ensures CurrentAlive(Accept(c, g, r).1)
  {
    var child := NewConn(true).(hasTransport := true, engine := c.engine);
    var g0 := if c.engine.Some? then g.(current := c.engine) else g;
    SetupKeepsAlive(child, g0, r.setup);
    var (c1, g1, _) := SetupPolicyContext(child, g0, r.setup);
    var c2 := CreatePolicyObj(c1, r.obj);
    CleanupKeepsAlive(c1, g1);
    CleanupKeepsAlive(c2, g1);
    CleanupKeepsAlive(HandshakeStep(c2, r.handshake).0, g1);
  }

  /** The call gets as far as setting up a policy context with the engine of this
      connection, for itself or for a connection it accepts. */
  predicate UsesEngineOf(w: World, e: Event) {
    && e.id in w.conns
    && (|| e.ConnectEvent? || e.ListenEvent?
        || (e.AcceptEvent? && e.childId !in w.conns && e.accept.incoming
            && w.conns[e.id].isServer && w.conns[e.id].hasTransport))
  }

  ghost predicate RevivesDeadEngine(w: World, e: Event) {
    UsesEngineOf(w, e) && !EngineAlive(w.conns[e.id], w.engines)
  }

  lemma SetupRefersToEngine(c: Conn, g: Engines, r: SetupResult)
    requires c.engine.Some? && !c.ownsEngine
    ensures var (c1, g1, _) := SetupPolicyContext(c, g, r);
            g1 == g.(current := c.engine) && c1.engine == c.engine && !c1.ownsEngine
  {
  }

  lemma BorrowedConnectDeletesNothing(c: Conn, g: Engines, status: Status, r: ConnectResult)
    requires !c.ownsEngine
    ensures FinishConnect(c, g, status, r).1 == g
  {
  }

  lemma BorrowedAcceptDeletesNothing(c: Conn, g: Engines, status: Status, r: AcceptResult)
    requires !c.ownsEngine
    ensures FinishAccept(c, g, status, r).1 == g
  {
  }

  lemma RevivalDangles(w: World, e: Event)
    requires ValidWorld(w) && RevivesDeadEngine(w, e)
    ensures !CurrentAlive(Step(w, e).engines)
  {
    var c, g := w.conns[e.id], w.engines;
    assert !c.ownsEngine;
    match e
    case ConnectEvent(_, r) =>
      SetupRefersToEngine(c, g, r.setup);
      var (c1, g1, s1) := SetupPolicyContext(c, g, r.setup);
      BorrowedConnectDeletesNothing(c1, g1, s1, r);
    case ListenEvent(_, setup, t) =>
      SetupRefersToEngine(c, g, setup);
    case AcceptEvent(_, _, a) =>
      var child := NewConn(true).(hasTransport := true, engine := c.engine);
      var g0 := g.(current := c.engine);
      SetupRefersToEngine(child, g0, a.setup);
      var (c1, g1, s1) := SetupPolicyContext(child, g0, a.setup);
      BorrowedAcceptDeletesNothing(c1, g1, s1, a);
  }

  lemma StepKeepsAlive(w: World, e: Event)
    requires ValidWorld(w) && CurrentAlive(w.engines) && !RevivesDeadEngine(w, e)
    ensures CurrentAlive(Step(w, e).engines)
  {
    if !e.CreateEvent? && e.id in w.conns {
      var c := w.conns[e.id];
      match e
      case ConnectEvent(_, r) => CallsKeepAlive(c, w.engines, r, r.setup, NoTransport);
      case ListenEvent(_, setup, t) =>
        CallsKeepAlive(c, w.engines, ConnectResult(setup, t, NoObj, Success), setup, t);
      case AcceptEvent(_, _, r) =>
        if UsesEngineOf(w, e) {
          AcceptKeepsAlive(c, w.engines, r);
        }
      case DestroyEvent(_) => CleanupKeepsAlive(c, w.engines);
      case _ =>
    }
  }

  ghost predicate AliveAt(events: seq<Event>, n: nat)
    requires n <= |events|
  {
    CurrentAlive(Run(events[..n]).engines)
  }

  ghost predicate RevivalAt(events: seq<Event>, n: nat)
    requires n < |events|
  {
    RevivesDeadEngine(Run(events[..n]), events[n])
  }

  lemma StepDanglesExactly(w: World, e: Event)
    requires ValidWorld(w) && CurrentAlive(w.engines)
    ensures CurrentAlive(Step(w, e).engines) <==> !RevivesDeadEngine(w, e)
  {
    if RevivesDeadEngine(w, e) {
      RevivalDangles(w, e);
    } else {
      StepKeepsAlive(w, e);
    }
  }

  lemma NextMoment(events: seq<Event>, n: nat)
    requires n < |events| && AliveAt(events, n)
    ensures AliveAt(events, n + 1) <==> !RevivalAt(events, n)
  {
    NoEngineDeletedTwice(events[..n]);
    assert events[..n + 1][..n] == events[..n];
    StepDanglesExactly(Run(events[..n]), events[n]);
  }

  lemma {:induction false} AliveWithoutRevival(events: seq<Event>, n: nat)
    requires n <= |events|
    requires forall m :: 0 <= m < n ==> !RevivalAt(events, m)
    ensures AliveAt(events, n)
  {
    if n == 0 {
      assert events[..0] == [];
    } else {
      AliveWithoutRevival(events, n - 1);
      NextMoment(events, n - 1);
    }
  }

  /** The adaptor never refers to a deleted engine, at any moment of a run, exactly when no
      call of the run sets up a policy context with an engine that is gone. */
  lemma AdaptorDanglesExactly(events: seq<Event>)
    ensures (forall n :: 0 <= n <= |events| ==> AliveAt(events, n))
            <==> forall n :: 0 <= n < |events| ==> !RevivalAt(events, n)
  {
    if forall n :: 0 <= n < |events| ==> !RevivalAt(events, n) {
      forall n | 0 <= n <= |events|
        ensures AliveAt(events, n)
      {
        AliveWithoutRevival(events, n);
      }
    }
    if forall n :: 0 <= n <= |events| ==> AliveAt(events, n) {
      forall n | 0 <= n < |events|
        ensures !RevivalAt(events, n)
      {
        NextMoment(events, n);
      }
    }
  }

  lemma RunPlus(events: seq<Event>, e: Event)
    ensures Run(events + [e]) == Step(Run(events), e)
  {
    assert (events + [e])[..|events|] == events;
  }

  const EasySetup := SetupResult(EngineReady, true, Success)

  /** Connection 0 owns the only engine and connection 1 borrows it. */
  ghost predicate IsListenerWithChild(v: World) {
    && v.engines == Engines(Some(0), 1, [])
    && 0 in v.conns && Owns(v.conns[0], 0)
    && 1 in v.conns && v.conns[1].engine == Some(0)
  }

  lemma ListenerWithChild(w: World)
    requires w == Put(EmptyWorld, 0, NewConn(true), EmptyWorld.engines)
    ensures IsListenerWithChild(Step(Step(w, ListenEvent(0, EasySetup, TransportUp)),
                                     AcceptEvent(0, 1, AcceptResult(true, EasySetup, ObjReady, Success))))
  {
    var listening := Step(w, ListenEvent(0, EasySetup, TransportUp));
    assert listening.conns[0].hasTransport && listening.conns[0].engine == Some(0);
  }

  lemma SomeListenerHasChild()
    ensures exists events :: IsListenerWithChild(Run(events))
  {
    var listen := ListenEvent(0, EasySetup, TransportUp);
    var accept := AcceptEvent(0, 1, AcceptResult(true, EasySetup, ObjReady, Success));
    var created := [] + [CreateEvent(0, true)];
    RunPlus([], CreateEvent(0, true));
    RunPlus(created, listen);
    RunPlus(created + [listen], accept);
    ListenerWithChild(Run(created));
    assert IsListenerWithChild(Run(created + [listen] + [accept]));
  }

  lemma OrphanReconnects(v: World)
    requires IsListenerWithChild(v)
    ensures var r := ConnectResult(EasySetup, TransportUp, ObjReady, Success);
            !CurrentAlive(Step(Step(v, DestroyEvent(0)), ConnectEvent(1, r)).engines)
  {
    var orphaned := Step(v, DestroyEvent(0));
    assert orphaned.engines == Engines(None, 1, [0]);
    assert orphaned.conns[1].engine == Some(0);
  }

  /** Calls that do so exist: connecting once more through an accepted connection, after
      its listener was destroyed, hands the adaptor a deleted engine. */
  lemma OutlivingTheListenerDangles()
    ensures exists events :: !CurrentAlive(Run(events).engines)
  {
    SomeListenerHasChild();
    var events :| IsListenerWithChild(Run(events));
    OrphanRun(events);
  }

  lemma OrphanRun(events: seq<Event>)
    requires IsListenerWithChild(Run(events))
    ensures exists longer :: !CurrentAlive(Run(longer).engines)
  {
    var connect := ConnectEvent(1, ConnectResult(EasySetup, TransportUp, ObjReady, Success));
    var orphaned := events + [DestroyEvent(0)];
    OrphanReconnects(Run(events));
    RunPlus(events, DestroyEvent(0));
    RunPlus(orphaned, connect);
    assert !CurrentAlive(Run(orphaned + [connect]).engines);
  }
}
