/** What one connection sets up and gives back: its policy context, its transport and its
    policy object. Each is one pointer that a setup overwrites and a cleanup releases. */
module ConnectionResources {
  import opened Common
  import opened ConnectionLifecycle

  datatype Kind = Context | Transport | Object

  /** The calls that reach one connection. `AcceptedCall` is the new connection's half of an
      accept: it is handed a transport and borrows an engine. The code makes it the first call
      on its connection; runs here may also make it later, so they include more than all real
      ones. The engines are whatever the other connections have left. */
  datatype Call =
    | ConnectCall(g: Engines, connect: ConnectResult)
    | ListenCall(g: Engines, setup: SetupResult, transport: TransportResult)
    | AcceptedCall(g: Engines, engine: Option<nat>, accept: AcceptResult)
    | HandshakeCall(handshake: Status)
    | CloseCall
    | DestroyCall(g: Engines)

  function After(c: Conn, call: Call): Conn {
    match call
    case ConnectCall(g, r) => Connect(c, g, r).0
    case ListenCall(g, setup, t) => Listen(c, g, setup, t).0
    case AcceptedCall(g, engine, a) =>
      var (c1, g1, s1) := SetupPolicyContext(c.(hasTransport := true, engine := engine), g, a.setup);
      var (kept, _) := FinishAccept(c1, g1, s1, a);
      if kept.Some? then kept.value else Cleanup(c1, g1).0
    case HandshakeCall(h) => HandshakeStep(c, h).0
    case CloseCall => CloseConn(c)
    case DestroyCall(g) => Cleanup(c, g).0
  }

  function RunConn(isServer: bool, calls: seq<Call>): Conn {
    if calls == [] then NewConn(isServer) else After(RunConn(isServer, calls[..|calls| - 1]), calls[|calls| - 1])
  }

  predicate Holds(k: Kind, c: Conn) {
    match k
    case Context => c.hasCtx
    case Transport => c.hasTransport
    case Object => c.hasObj
  }

  // ---------------------------------------------------------------- what a call does to a pointer

  /** The call gets as far as storing a new pointer. */
  predicate SetsUp(k: Kind, call: Call) {
    match call
    case ConnectCall(_, r) =>
      k == Context || (IsSetUp(r.setup) && (k == Transport || r.transport == TransportUp))
    case ListenCall(_, setup, _) => k == Context || (k == Transport && IsSetUp(setup))
    case AcceptedCall(_, _, a) => k != Object || IsSetUp(a.setup)
    case _ => false
  }

  /** The new pointer is not null. */
  predicate Makes(k: Kind, call: Call)
    requires SetsUp(k, call)
  {
    match call
    case ConnectCall(_, r) =>
      if k == Context then r.setup.ctxMade else if k == Transport then r.transport != NoTransport else r.obj != NoObj
    case ListenCall(_, setup, t) => if k == Context then setup.ctxMade else t != NoTransport
    case AcceptedCall(_, _, a) => k == Transport || (if k == Context then a.setup.ctxMade else a.obj != NoObj)
  }

  predicate IsRefused(a: AcceptResult) {
    !IsSetUp(a.setup) || a.obj != ObjReady || PhaseAfter(a.handshake) == Failed
  }

  /** The call cleans up before it returns. */
  predicate CleansUp(call: Call) {
    match call
    case ConnectCall(_, r) => IsSetUp(r.setup) && (r.transport != TransportUp || r.obj != ObjReady)
    case AcceptedCall(_, _, a) => IsRefused(a)
    case DestroyCall(_) => true
    case _ => false
  }

  lemma SetupActsOnContext(c: Conn, g: Engines, r: SetupResult)
    ensures var (c1, _, s1) := SetupPolicyContext(c, g, r);
            && c1.hasCtx == r.ctxMade && c1.hasTransport == c.hasTransport && c1.hasObj == c.hasObj
            && (s1 == Success <==> IsSetUp(r))
  {
  }

  lemma CleanupClearsAll(c: Conn, g: Engines)
    ensures var d := Cleanup(c, g).0; !d.hasCtx && !d.hasTransport && !d.hasObj
  {
  }

  lemma FinishConnectActs(c: Conn, g: Engines, status: Status, r: ConnectResult)
    ensures var d := FinishConnect(c, g, status, r).0;
            if status != Success then d == c.(phase := Failed)
            else if r.transport != TransportUp || r.obj != ObjReady
            then !d.hasCtx && !d.hasTransport && !d.hasObj
            else d.hasCtx == c.hasCtx && d.hasTransport && d.hasObj
  {
    if status == Success {
      var c2 := SetupTransport(c, r.transport, Phase.Connecting);
      CleanupClearsAll(c2.(phase := Failed), g);
      CleanupClearsAll(CreatePolicyObj(c2, r.obj).(phase := Failed), g);
    }
  }

  lemma ConnectActsOnPointers(k: Kind, c: Conn, g: Engines, r: ConnectResult)
    ensures ActsAsRecorded(k, c, ConnectCall(g, r))
  {
    var (c1, g1, s1) := SetupPolicyContext(c, g, r.setup);
    SetupActsOnContext(c, g, r.setup);
    FinishConnectActs(c1, g1, s1, r);
  }

  lemma ListenActsOnPointers(k: Kind, c: Conn, g: Engines, setup: SetupResult, t: TransportResult)
    ensures ActsAsRecorded(k, c, ListenCall(g, setup, t))
  {
    SetupActsOnContext(c, g, setup);
  }

  lemma AcceptActsOnPointers(k: Kind, c: Conn, g: Engines, engine: Option<nat>, a: AcceptResult)
    ensures ActsAsRecorded(k, c, AcceptedCall(g, engine, a))
  {
    var child := c.(hasTransport := true, engine := engine);
    SetupActsOnContext(child, g, a.setup);
    var (c1, g1, s1) := SetupPolicyContext(child, g, a.setup);
    CleanupClearsAll(c1, g1);
  }

  /** The call leaves the pointer empty if it cleans up, as it stored it if it stored it, and
      as it was otherwise. */
  predicate ActsAsRecorded(k: Kind, c: Conn, call: Call) {
    Holds(k, After(c, call)) <==>
    !CleansUp(call) && if SetsUp(k, call) then Makes(k, call) else Holds(k, c)
  }

  lemma CallsActOnPointers(k: Kind, c: Conn, call: Call)
    ensures ActsAsRecorded(k, c, call)
  {
    match call
    case ConnectCall(g, r) => ConnectActsOnPointers(k, c, g, r);
    case ListenCall(g, setup, t) => ListenActsOnPointers(k, c, g, setup, t);
    case AcceptedCall(g, engine, a) => AcceptActsOnPointers(k, c, g, engine, a);
    case _ =>
  }

  // ---------------------------------------------------------------- the ledger

  /** What the pointer holds, how many things it has been given, and those released. */
  datatype Ledger = Ledger(held: Option<nat>, made: nat, released: seq<nat>)

  // Storing a pointer forgets what it held.
  function Store(l: Ledger, made: bool): Ledger {
    if made then l.(held := Some(l.made), made := l.made + 1) else l.(held := None)
  }

  function Release(l: Ledger): Ledger {
    match l.held
    case Some(x) => l.(held := None, released := l.released + [x])
    case None => l
  }

  function Record(k: Kind, l: Ledger, call: Call): Ledger {
    var stored := if SetsUp(k, call) then Store(l, Makes(k, call)) else l;
    if CleansUp(call) then Release(stored) else stored
  }

  function RunLedger(k: Kind, calls: seq<Call>): Ledger {
    if calls == [] then Ledger(None, 0, [])
    else Record(k, RunLedger(k, calls[..|calls| - 1]), calls[|calls| - 1])
  }

  ghost predicate ValidLedger(l: Ledger) {
    && IsDistinct(l.released)
    && (forall x :: x in l.released ==> x < l.made)
    && (l.held.Some? ==> l.held.value < l.made && l.held.value !in l.released)
  }

  /** Nothing is forgotten. */
  ghost predicate KeepsAll(l: Ledger) {
    forall x: nat :: x < l.made ==> x in l.released || l.held == Some(x)
  }

  lemma StoreForgetsHeld(l: Ledger, made: bool)
    requires ValidLedger(l)
    ensures ValidLedger(Store(l, made))
    ensures KeepsAll(Store(l, made)) <==> KeepsAll(l) && l.held.None?
  {
    var after := Store(l, made);
    if l.held.Some? {
      assert l.held.value < after.made && after.held != l.held && l.held.value !in after.released;
    }
    if x: nat :| x < l.made && x !in l.released && l.held != Some(x) {
      assert x < after.made && x !in after.released && after.held != Some(x);
    }
  }

  lemma ReleaseForgetsNothing(l: Ledger)
    requires ValidLedger(l)
    ensures ValidLedger(Release(l)) && Release(l).held.None?
    ensures KeepsAll(Release(l)) <==> KeepsAll(l)
  {
    if x: nat :| x < l.made && x !in l.released && l.held != Some(x) {
      assert x !in Release(l).released;
    }
  }

  lemma RecordKeepsExactly(k: Kind, l: Ledger, call: Call)
    requires ValidLedger(l)
    ensures ValidLedger(Record(k, l, call))
    ensures KeepsAll(Record(k, l, call)) <==> KeepsAll(l) && !(SetsUp(k, call) && l.held.Some?)
    ensures Record(k, l, call).held.Some? <==>
            !CleansUp(call) && if SetsUp(k, call) then Makes(k, call) else l.held.Some?
  {
    if SetsUp(k, call) {
      StoreForgetsHeld(l, Makes(k, call));
      ReleaseForgetsNothing(Store(l, Makes(k, call)));
    } else {
      ReleaseForgetsNothing(l);
    }
  }

  /** The call overwrites a pointer that still holds something. */
  predicate Overwrites(k: Kind, isServer: bool, calls: seq<Call>, n: nat)
    requires n < |calls|
  {
    SetsUp(k, calls[n]) && Holds(k, RunConn(isServer, calls[..n]))
  }

  ghost predicate NeverOverwrites(k: Kind, isServer: bool, calls: seq<Call>) {
    forall n :: 0 <= n < |calls| ==> !Overwrites(k, isServer, calls, n)
  }

  lemma OneMoreCall(k: Kind, isServer: bool, calls: seq<Call>, call: Call)
    ensures NeverOverwrites(k, isServer, calls + [call]) <==>
            NeverOverwrites(k, isServer, calls) && !(SetsUp(k, call) && Holds(k, RunConn(isServer, calls)))
  {
    var more := calls + [call];
    assert more[..|calls|] == calls;
    forall n: nat | n < |calls|
      ensures Overwrites(k, isServer, more, n) <==> Overwrites(k, isServer, calls, n)
    {
      assert more[..n] == calls[..n];
    }
    assert Overwrites(k, isServer, more, |calls|) <==> SetsUp(k, call) && Holds(k, RunConn(isServer, calls));
  }

  ghost predicate Agree(k: Kind, l: Ledger, c: Conn) {
    ValidLedger(l) && (l.held.Some? <==> Holds(k, c))
  }

  lemma CallKeepsAgreement(k: Kind, l: Ledger, c: Conn, call: Call)
    requires Agree(k, l, c)
    ensures Agree(k, Record(k, l, call), After(c, call))
    ensures KeepsAll(Record(k, l, call)) <==> KeepsAll(l) && !(SetsUp(k, call) && Holds(k, c))
  {
    RecordKeepsExactly(k, l, call);
    CallsActOnPointers(k, c, call);
  }

  lemma RunsGoOn(k: Kind, isServer: bool, calls: seq<Call>, call: Call)
    ensures RunConn(isServer, calls + [call]) == After(RunConn(isServer, calls), call)
    ensures RunLedger(k, calls + [call]) == Record(k, RunLedger(k, calls), call)
  {
    assert (calls + [call])[..|calls|] == calls;
  }

  ghost predicate IsLedgerOf(k: Kind, isServer: bool, calls: seq<Call>) {
    && Agree(k, RunLedger(k, calls), RunConn(isServer, calls))
    && (KeepsAll(RunLedger(k, calls)) <==> NeverOverwrites(k, isServer, calls))
  }

  lemma LastCallIsLedger(k: Kind, isServer: bool, calls: seq<Call>)
    requires calls != [] && IsLedgerOf(k, isServer, calls[..|calls| - 1])
    ensures IsLedgerOf(k, isServer, calls)
  {
    var init, call := calls[..|calls| - 1], calls[|calls| - 1];
    assert init + [call] == calls;
    RunsGoOn(k, isServer, init, call);
    OneMoreCall(k, isServer, init, call);
    CallKeepsAgreement(k, RunLedger(k, init), RunConn(isServer, init), call);
  }

  /** In every run the ledger agrees with the connection's pointer, and forgets nothing
      exactly when no call overwrites a pointer in use. */
  lemma {:induction false} LedgerKeepsExactly(k: Kind, isServer: bool, calls: seq<Call>)
    ensures IsLedgerOf(k, isServer, calls)
  {
    if calls != [] {
      LedgerKeepsExactly(k, isServer, calls[..|calls| - 1]);
      LastCallIsLedger(k, isServer, calls);
    }
  }

  ghost predicate EachReleasedOnce(l: Ledger) {
    IsDistinct(l.released) && forall x: nat :: x < l.made <==> x in l.released
  }

  /** A connection that is destroyed has released every context, transport and object it was
      given, each once, exactly when no call set one up while the connection still had one. */
  lemma ReleasedOnceExactly(k: Kind, isServer: bool, calls: seq<Call>, g: Engines)
    ensures EachReleasedOnce(RunLedger(k, calls + [DestroyCall(g)])) <==> NeverOverwrites(k, isServer, calls)
  {
    var l := RunLedger(k, calls);
    assert (calls + [DestroyCall(g)])[..|calls|] == calls;
    LedgerKeepsExactly(k, isServer, calls);
    RecordKeepsExactly(k, l, DestroyCall(g));
  }

  /** Connecting a second time through a connection that is up loses all three. */
  lemma SecondConnectLoses(k: Kind, g: Engines, r: ConnectResult)
    requires IsSetUp(r.setup) && r.transport == TransportUp && r.obj == ObjReady
    ensures !EachReleasedOnce(RunLedger(k, [ConnectCall(g, r), ConnectCall(g, r)] + [DestroyCall(g)]))
  {
    var calls := [ConnectCall(g, r), ConnectCall(g, r)];
    assert calls[..1] == [ConnectCall(g, r)];
    assert [ConnectCall(g, r)][..0] == [];
    CallsActOnPointers(k, NewConn(false), ConnectCall(g, r));
    assert RunConn(false, calls[..1]) == After(NewConn(false), ConnectCall(g, r));
    assert Overwrites(k, false, calls, 1);
    ReleasedOnceExactly(k, false, calls, g);
  }
}
