/** The connection object: fields that the public calls update in place, each call
    proved to perform its operation of the connection lifecycle. */
module Connection {
  import opened Common
  import opened ConnectionLifecycle

  /** What all connections share: the adaptor's engine and the engines' fates. */
  class Adaptor {
    var cryptoEngine: Option<nat>
    var enginesMade: nat
    var enginesDeleted: seq<nat>

    ghost function State(): Engines
      reads this
    {
      Engines(cryptoEngine, enginesMade, enginesDeleted)
    }

    constructor ()
      ensures State() == EmptyWorld.engines
    {
      cryptoEngine := None;
      enginesMade := 0;
      enginesDeleted := [];
    }
  }

  class SCFConnectionImpl {
    const adaptor: Adaptor
    const isServer: bool
    var state: Phase
    var hasPolicyCtx: bool
    var hasPolicyObj: bool
    var hasTransport: bool
    var cryptoEngine: Option<nat>
    var ownsCryptoEngine: bool
    var handshakeDone: bool

    ghost function View(): Conn
      reads this
    {
      Conn(state, hasPolicyCtx, hasPolicyObj, hasTransport, cryptoEngine, ownsCryptoEngine, isServer, handshakeDone)
    }

    constructor (shared: Adaptor, server: bool)
      ensures adaptor == shared && View() == NewConn(server)
    {
      adaptor := shared;
      isServer := server;
      state := Init;
      hasPolicyCtx, hasPolicyObj, hasTransport := false, false, false;
      cryptoEngine := None;
      ownsCryptoEngine := false;
      handshakeDone := false;
    }

    /** `lower` is what closing the TLS session answers; it is only asked while there is a
        session. A connection that was already closed keeps its handshake flag. */
    method Close(lower: Status) returns (status: Status)
      modifies this
      ensures View() == CloseConn(old(View()))
      ensures status == if old(state) in {Closed, Closing} || !hasPolicyObj then Success else lower
      ensures handshakeDone <==> old(handshakeDone) && old(state) in {Closed, Closing}
    {
      if state == Closed || state == Closing {
        return Success;
      }
      state := Closing;
      status := if hasPolicyObj then lower else Success;
      state := Closed;
      handshakeDone := false;
    }

    method Cleanup()
      modifies this, adaptor
      ensures (View(), adaptor.State()) == ConnectionLifecycle.Cleanup(old(View()), old(adaptor.State()))
      ensures state == Closed
    {
      if state == Connected || state == Connecting {
        var lower: Status := *;
        var _ := Close(lower);
      }
      hasPolicyObj := false;
      hasPolicyCtx := false;
      hasTransport := false;
      if cryptoEngine.Some? && ownsCryptoEngine {
        adaptor.cryptoEngine := None;
        adaptor.enginesDeleted := adaptor.enginesDeleted + [cryptoEngine.value];
        cryptoEngine := None;
        ownsCryptoEngine := false;
      }
      state := Closed;
    }

    method SetupPolicyContext(r: SetupResult) returns (status: Status)
      modifies this, adaptor
      ensures (View(), adaptor.State(), status)
              == ConnectionLifecycle.SetupPolicyContext(old(View()), old(adaptor.State()), r)
    {
      if cryptoEngine.None? {
        if r.engine != NoEngine {
          var made := adaptor.enginesMade;
          adaptor.enginesMade := made + 1;
          if r.engine == InitFails {
            adaptor.enginesDeleted := adaptor.enginesDeleted + [made];
          } else {
            cryptoEngine := Some(made);
            ownsCryptoEngine := true;
            adaptor.cryptoEngine := cryptoEngine;
          }
        }
      } else {
        adaptor.cryptoEngine := cryptoEngine;
      }
      hasPolicyCtx := r.ctxMade;
      if !r.ctxMade {
        return MemAlloc;
      }
      status := r.configured;
    }

    method HandshakeStep(h: Status) returns (status: Status)
      modifies this
      ensures (View(), status) == ConnectionLifecycle.HandshakeStep(old(View()), h)
    {
      if !hasPolicyObj {
        return NullInput;
      }
      if h == Success {
        handshakeDone := true;
        state := Connected;
      } else if h == WantRead || h == WantWrite {
        state := Connecting;
      } else {
        state := Failed;
      }
      status := h;
    }

    /** The connection stays sound whatever the layers below answer. */
    method Connect(r: ConnectResult) returns (status: Status)
      modifies this, adaptor
      ensures (View(), adaptor.State(), status)
              == ConnectionLifecycle.Connect(old(View()), old(adaptor.State()), r)
      ensures old(IsSound(View())) ==> IsSound(View())
    {
      ghost var c, g := View(), adaptor.State();
      if IsSound(c) {
        ConnectKeepsSound(c, g, r);
      }
      status := SetupPolicyContext(r.setup);
      status := FinishConnect(status, r);
    }

    method FailAndCleanup()
      modifies this, adaptor
      ensures (View(), adaptor.State(), MemAlloc) == CleanupWith(old(View()), old(adaptor.State()), MemAlloc)
    {
      state := Failed;
      assert View() == old(View()).(phase := Failed);
      Cleanup();
    }

    method FinishConnect(setup: Status, r: ConnectResult) returns (status: Status)
      modifies this, adaptor
      ensures (View(), adaptor.State(), status)
              == ConnectionLifecycle.FinishConnect(old(View()), old(adaptor.State()), setup, r)
    {
      if setup != Success {
        state := Failed;
        return setup;
      }
      hasTransport := r.transport != NoTransport;
      if r.transport != TransportUp {
        assert View() == SetupTransport(old(View()), r.transport, Connecting);
        FailAndCleanup();
        return TransportStatus(r.transport);
      }
      state := Connecting;
      ghost var c2 := View();
      assert c2 == SetupTransport(old(View()), r.transport, Connecting);
      hasPolicyObj := r.obj != NoObj;
      if r.obj != ObjReady {
        assert View() == CreatePolicyObj(c2, r.obj);
        FailAndCleanup();
        return ObjStatus(r.obj);
      }
      assert View() == CreatePolicyObj(c2, r.obj);
      status := HandshakeStep(r.handshake);
    }

    method Listen(setup: SetupResult, t: TransportResult) returns (status: Status)
      modifies this, adaptor
      ensures (View(), adaptor.State(), status)
              == ConnectionLifecycle.Listen(old(View()), old(adaptor.State()), setup, t)
      ensures old(IsSound(View())) ==> IsSound(View())
    {
      if IsSound(View()) {
        ListenKeepsSound(View(), adaptor.State(), setup, t);
      }
      status := SetupPolicyContext(setup);
      status := FinishListen(status, t);
    }

    method FinishListen(setup: Status, t: TransportResult) returns (status: Status)
      modifies this
      ensures (View(), status) == ConnectionLifecycle.FinishListen(old(View()), setup, t)
    {
      if setup != Success {
        state := Failed;
        return setup;
      }
      hasTransport := t != NoTransport;
      if t != TransportUp {
        state := Failed;
        return TransportStatus(t);
      }
      state := Init;
      status := Success;
    }

    method Accept(r: AcceptResult) returns (child: SCFConnectionImpl?)
      modifies adaptor
      ensures View() == old(View())
      ensures child != null ==> fresh(child) && child.adaptor == adaptor && IsSound(child.View())
      ensures (if child == null then None else Some(child.View()), adaptor.State())
              == ConnectionLifecycle.Accept(old(View()), old(adaptor.State()), r)
    {
      AcceptGivesSound(View(), adaptor.State(), r);
      if !isServer || !hasTransport || !r.incoming {
        return null;
      }
      var newConn := new SCFConnectionImpl(adaptor, true);
      newConn.hasTransport := true;
      if cryptoEngine.Some? {
        newConn.cryptoEngine := cryptoEngine;
        adaptor.cryptoEngine := cryptoEngine;
      }
      var status := newConn.SetupPolicyContext(r.setup);
      var kept := newConn.FinishAccept(status, r);
      child := if kept then newConn else null;
    }

    // The new connection's half of an accept; one that fails is cleaned up and given up.
    method FinishAccept(setup: Status, r: AcceptResult) returns (kept: bool)
      modifies this, adaptor
      ensures (if kept then Some(View()) else None, adaptor.State())
              == ConnectionLifecycle.FinishAccept(old(View()), old(adaptor.State()), setup, r)
    {
      if setup != Success {
        Cleanup();
        return false;
      }
      hasPolicyObj := r.obj != NoObj;
      assert View() == CreatePolicyObj(old(View()), r.obj);
      if r.obj != ObjReady {
        Cleanup();
        return false;
      }
      kept := StartHandshake(r.handshake);
    }

    method StartHandshake(handshake: Status) returns (kept: bool)
      modifies this, adaptor
      ensures var (accepted, g) := ConnectionLifecycle.StartHandshake(old(View()), old(adaptor.State()), handshake);
              && (kept <==> accepted.Some?) && (kept ==> accepted.value == View())
              && adaptor.State() == g
    {
      ghost var c, g := View(), adaptor.State();
      var status := HandshakeStep(handshake);
      ghost var c1 := View();
      assert (c1, status) == ConnectionLifecycle.HandshakeStep(c, handshake);
      if status == WantRead || status == WantWrite {
        state := Connecting;
        assert View() == c1.(phase := Connecting);
        return true;
      }
      if status != Success {
        assert ConnectionLifecycle.StartHandshake(c, g, handshake) == (None, ConnectionLifecycle.Cleanup(c1, g).1);
        Cleanup();
        return false;
      }
      state := Connected;
      handshakeDone := true;
      assert View() == c1.(phase := Connected, handshakeDone := true);
      kept := true;
    }

    /** Reading and writing reach the TLS layer exactly while the connection is up. */
    method Transfer(lower: Status) returns (reached: bool, status: Status)
      requires IsSound(View())
      ensures reached <==> IsConnected(View())
      ensures status == if reached then lower else InvalidParam
    {
      if state != Connected || !hasPolicyObj {
        return false, InvalidParam;
      }
      return true, lower;
    }
  }
}
