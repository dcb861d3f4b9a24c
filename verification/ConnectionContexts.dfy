/** The reference counts of the policy contexts that one connection makes: one reference is
    the connection's, one its policy object's, and one, with a pre-shared key, that of a
    temporary object which nothing releases. */
module ConnectionContexts {
  import opened Common
  import opened ConnectionLifecycle
  import opened ConnectionResources

  /** A call, and whether setting up a pre-shared key made its temporary object. */
  datatype Entry = Entry(call: Call, temporary: bool)

  function CallsOf(entries: seq<Entry>): (calls: seq<Call>)
    ensures |calls| == |entries|
  {
    seq(|entries|, i requires 0 <= i < |entries| => entries[i].call)
  }

  /** The count of each context made so far, the context the connection refers to, and the
      one that its object refers to. */
  datatype Counts = Counts(counts: seq<nat>, own: Option<nat>, ofObject: Option<nat>)

  function StoreContext(t: Counts, made: bool, temporary: bool): Counts {
    if made then t.(counts := t.counts + [if temporary then 2 else 1], own := Some(|t.counts|))
    else t.(own := None)
  }

  // A new object takes a reference to the connection's context.
  function StoreObject(t: Counts, made: bool): Counts
    requires t.own.Some? ==> t.own.value < |t.counts|
  {
    if made && t.own.Some?
    then t.(counts := t.counts[t.own.value := t.counts[t.own.value] + 1], ofObject := t.own)
    else t.(ofObject := None)
  }

  function Drop(counts: seq<nat>, reference: Option<nat>): seq<nat> {
    if reference.Some? && reference.value < |counts| && counts[reference.value] > 0
    then counts[reference.value := counts[reference.value] - 1]
    else counts
  }

  // Cleanup frees the object first, which gives its reference back, and then the context.
  function ReleaseBoth(t: Counts): Counts {
    Counts(Drop(Drop(t.counts, t.ofObject), t.own), None, None)
  }

  function Count(t: Counts, e: Entry): Counts
    requires t.own.Some? ==> t.own.value < |t.counts|
  {
    var t1 := if SetsUp(Context, e.call) then StoreContext(t, Makes(Context, e.call), e.temporary) else t;
    var t2 := if SetsUp(Object, e.call) then StoreObject(t1, Makes(Object, e.call)) else t1;
    if CleansUp(e.call) then ReleaseBoth(t2) else t2
  }

  // ---------------------------------------------------------------- references that are held

  function HeldBy(t: Counts, x: nat): nat {
    (if t.own == Some(x) then 1 else 0) + (if t.ofObject == Some(x) then 1 else 0)
  }

  /** Every count covers the references still held, and none exceeds three. */
  ghost predicate Covers(t: Counts) {
    && (t.own.Some? ==> t.own.value < |t.counts|)
    && (t.ofObject.Some? ==> t.ofObject.value < |t.counts|)
    && forall x :: 0 <= x < |t.counts| ==> HeldBy(t, x) <= t.counts[x] <= 3
  }

  /** Every count is the number of references still held. */
  ghost predicate IsExact(t: Counts) {
    forall x :: 0 <= x < |t.counts| ==> t.counts[x] == HeldBy(t, x)
  }

  lemma StoreContextCounts(t: Counts, made: bool, temporary: bool)
    requires Covers(t)
    ensures var s := StoreContext(t, made, temporary);
            && Covers(s) && (s.own.Some? <==> made) && s.ofObject == t.ofObject
            && (made ==> s.counts[s.own.value] <= 2)
            && (IsExact(s) <==> IsExact(t) && t.own.None? && !(made && temporary))
  {
    var s := StoreContext(t, made, temporary);
    if t.own.Some? {
      var x := t.own.value;
      assert s.counts[x] == t.counts[x] && HeldBy(s, x) < HeldBy(t, x);
    }
    if made {
      assert s.counts[|t.counts|] == if temporary then 2 else 1;
      assert HeldBy(s, |t.counts|) == 1;
    }
    if x :| 0 <= x < |t.counts| && t.counts[x] != HeldBy(t, x) {
      assert s.counts[x] != HeldBy(s, x);
    }
  }

  lemma StoreObjectCounts(t: Counts, made: bool)
    requires Covers(t) && t.own.Some? && t.counts[t.own.value] <= 2
    ensures var s := StoreObject(t, made);
            && Covers(s) && (s.ofObject.Some? <==> made) && s.own == t.own && |s.counts| == |t.counts|
            && (t.ofObject.None? ==>
                  forall x :: 0 <= x < |t.counts| ==> s.counts[x] - HeldBy(s, x) == t.counts[x] - HeldBy(t, x))
            && (IsExact(s) <==> IsExact(t) && t.ofObject.None?)
  {
    var s := StoreObject(t, made);
    if t.ofObject.Some? {
      var x := t.ofObject.value;
      assert s.counts[x] - HeldBy(s, x) == t.counts[x] - HeldBy(t, x) + 1;
    }
    forall x | 0 <= x < |t.counts| && t.ofObject != Some(x)
      ensures s.counts[x] - HeldBy(s, x) == t.counts[x] - HeldBy(t, x)
    {
    }
  }

  lemma ReleaseBothCounts(t: Counts)
    requires Covers(t)
    ensures Covers(ReleaseBoth(t)) && |ReleaseBoth(t).counts| == |t.counts|
    ensures forall x :: 0 <= x < |t.counts| ==> ReleaseBoth(t).counts[x] == t.counts[x] - HeldBy(t, x)
    ensures IsExact(ReleaseBoth(t)) <==> IsExact(t)
  {
    var s := ReleaseBoth(t);
    forall x | 0 <= x < |t.counts|
      ensures s.counts[x] == t.counts[x] - HeldBy(t, x)
    {
    }
  }

  // ---------------------------------------------------------------- one call

  /** The call leaves a reference that nothing will release: it stores a context or an object
      over one in use, or makes a temporary object. */
  predicate Leaks(c: Conn, e: Entry) {
    || (SetsUp(Context, e.call) && (c.hasCtx || (Makes(Context, e.call) && e.temporary)))
    || (SetsUp(Object, e.call) && c.hasObj)
  }

  ghost predicate IsCountOf(t: Counts, c: Conn) {
    Covers(t) && (t.own.Some? <==> c.hasCtx) && (t.ofObject.Some? <==> c.hasObj)
  }

  lemma ObjectNeedsContext(call: Call)
    requires SetsUp(Object, call)
    ensures SetsUp(Context, call) && Makes(Context, call)
  {
  }

  lemma CallCounts(t: Counts, c: Conn, e: Entry)
    requires IsCountOf(t, c)
    ensures IsCountOf(Count(t, e), After(c, e.call))
    ensures IsExact(Count(t, e)) <==> IsExact(t) && !Leaks(c, e)
  {
    CallsActOnPointers(Context, c, e.call);
    CallsActOnPointers(Object, c, e.call);
    var t1 := t;
    if SetsUp(Context, e.call) {
      t1 := StoreContext(t, Makes(Context, e.call), e.temporary);
      StoreContextCounts(t, Makes(Context, e.call), e.temporary);
    }
    var t2 := t1;
    if SetsUp(Object, e.call) {
      ObjectNeedsContext(e.call);
      StoreObjectCounts(t1, Makes(Object, e.call));
      t2 := StoreObject(t1, Makes(Object, e.call));
    }
    ReleaseBothCounts(t2);
  }

  // ---------------------------------------------------------------- runs

  datatype Tally = Tally(conn: Conn, counts: Counts)

  ghost predicate IsTally(s: Tally) {
    IsCountOf(s.counts, s.conn)
  }

  function Step(s: Tally, e: Entry): Tally
    requires s.counts.own.Some? ==> s.counts.own.value < |s.counts.counts|
  {
    Tally(After(s.conn, e.call), Count(s.counts, e))
  }

  ghost function Run(isServer: bool, entries: seq<Entry>): (s: Tally)
    ensures IsTally(s)
  {
    if entries == [] then Tally(NewConn(isServer), Counts([], None, None))
    else
      var s := Run(isServer, entries[..|entries| - 1]);
      CallCounts(s.counts, s.conn, entries[|entries| - 1]);
      Step(s, entries[|entries| - 1])
  }

  ghost predicate LeaksAt(isServer: bool, entries: seq<Entry>, n: nat)
    requires n < |entries|
  {
    Leaks(Run(isServer, entries[..n]).conn, entries[n])
  }

  ghost predicate NeverLeaks(isServer: bool, entries: seq<Entry>) {
    forall n :: 0 <= n < |entries| ==> !LeaksAt(isServer, entries, n)
  }

  lemma LeaksInPrefix(isServer: bool, entries: seq<Entry>, n: nat)
    requires n < |entries| - 1
    ensures LeaksAt(isServer, entries[..|entries| - 1], n) <==> LeaksAt(isServer, entries, n)
  {
    assert entries[..|entries| - 1][..n] == entries[..n];
  }

  lemma EarlierLeaks(isServer: bool, entries: seq<Entry>)
    requires entries != []
    ensures NeverLeaks(isServer, entries[..|entries| - 1]) <==>
            forall n :: 0 <= n < |entries| - 1 ==> !LeaksAt(isServer, entries, n)
  {
    var init := entries[..|entries| - 1];
    forall n | 0 <= n < |init|
      ensures LeaksAt(isServer, init, n) <==> LeaksAt(isServer, entries, n)
    {
      LeaksInPrefix(isServer, entries, n);
    }
  }

  lemma LastEntryLeaks(isServer: bool, entries: seq<Entry>)
    requires entries != []
    ensures NeverLeaks(isServer, entries) <==>
            NeverLeaks(isServer, entries[..|entries| - 1]) && !LeaksAt(isServer, entries, |entries| - 1)
  {
    EarlierLeaks(isServer, entries);
  }

  lemma {:induction false} CountsAreExact(isServer: bool, entries: seq<Entry>)
    ensures IsExact(Run(isServer, entries).counts) <==> NeverLeaks(isServer, entries)
  {
    if entries != [] {
      var init := entries[..|entries| - 1];
      CountsAreExact(isServer, init);
      LastEntryLeaks(isServer, entries);
      CallCounts(Run(isServer, init).counts, Run(isServer, init).conn, entries[|entries| - 1]);
    }
  }

  /** The connection of a run is the one of its calls. */
  lemma {:induction false} SameConnection(isServer: bool, entries: seq<Entry>)
    ensures Run(isServer, entries).conn == RunConn(isServer, CallsOf(entries))
  {
    if entries != [] {
      SameConnection(isServer, entries[..|entries| - 1]);
      assert CallsOf(entries)[..|entries| - 1] == CallsOf(entries[..|entries| - 1]);
    }
  }

  ghost predicate AllDeleted(t: Counts) {
    forall x :: 0 <= x < |t.counts| ==> t.counts[x] == 0
  }

  /** When a connection is destroyed, the counts of all contexts it made have come down to 0,
      so each was deleted, exactly when none of its calls leaked: none stored a context or an
      object over one in use, and none set up a pre-shared key with a temporary object. */
  lemma ContextsDeletedExactly(isServer: bool, entries: seq<Entry>, g: Engines)
    ensures AllDeleted(Run(isServer, entries + [Entry(DestroyCall(g), false)]).counts)
            <==> NeverLeaks(isServer, entries)
  {
    var last := Entry(DestroyCall(g), false);
    var s := Run(isServer, entries);
    assert (entries + [last])[..|entries|] == entries;
    CountsAreExact(isServer, entries);
    CallCounts(s.counts, s.conn, last);
  }

  /** Without temporary objects, as with certificates, that is when no pointer to a context
      or an object in use was overwritten. */
  lemma CertificateModeExactly(isServer: bool, entries: seq<Entry>)
    requires forall n :: 0 <= n < |entries| ==> !entries[n].temporary
    ensures NeverLeaks(isServer, entries) <==>
            NeverOverwrites(Context, isServer, CallsOf(entries)) && NeverOverwrites(Object, isServer, CallsOf(entries))
  {
    var calls := CallsOf(entries);
    forall n: nat | n < |entries|
      ensures LeaksAt(isServer, entries, n) <==>
              Overwrites(Context, isServer, calls, n) || Overwrites(Object, isServer, calls, n)
    {
      SameConnection(isServer, entries[..n]);
      assert CallsOf(entries[..n]) == calls[..n];
    }
  }

  lemma RunPlus(isServer: bool, entries: seq<Entry>, e: Entry)
    ensures Run(isServer, entries + [e]) == Step(Run(isServer, entries), e)
  {
    assert (entries + [e])[..|entries|] == entries;
  }

  /** The first context has one reference more than are held. */
  ghost predicate HasOneSpare(t: Counts) {
    Covers(t) && |t.counts| == 1 && t.counts[0] == HeldBy(t, 0) + 1
  }

  lemma TemporaryIsSpare(connect: Entry)
    requires connect.call.ConnectCall? && connect.temporary && connect.call.connect.setup.ctxMade
    ensures HasOneSpare(Count(Counts([], None, None), connect))
  {
    var t1 := StoreContext(Counts([], None, None), true, true);
    assert HasOneSpare(t1);
    var t2 := t1;
    if SetsUp(Object, connect.call) {
      StoreObjectCounts(t1, Makes(Object, connect.call));
      t2 := StoreObject(t1, Makes(Object, connect.call));
    }
    ReleaseBothCounts(t2);
  }

  lemma TemporaryKeepsCount(connect: Entry, destroy: Entry)
    requires connect.call.ConnectCall? && connect.temporary && connect.call.connect.setup.ctxMade
    requires destroy.call.DestroyCall?
    ensures var t := Count(Counts([], None, None), connect);
            Covers(t) && Count(t, destroy).counts == [1]
  {
    TemporaryIsSpare(connect);
    ReleaseBothCounts(Count(Counts([], None, None), connect));
  }

  /** One connect with a pre-shared key already leaves its context behind, with the temporary
      object's reference. */
  lemma TemporaryKeepsContext(isServer: bool, g: Engines, r: ConnectResult)
    requires r.setup.ctxMade
    ensures Run(isServer, [Entry(ConnectCall(g, r), true)] + [Entry(DestroyCall(g), false)]).counts.counts == [1]
  {
    var connect, destroy := Entry(ConnectCall(g, r), true), Entry(DestroyCall(g), false);
    assert [] + [connect] == [connect];
    RunPlus(isServer, [], connect);
    RunPlus(isServer, [connect], destroy);
    TemporaryKeepsCount(connect, destroy);
  }
}
