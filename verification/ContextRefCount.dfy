/** The reference count of a policy context under any interleaving of threads
    that create objects and release references. A release is a load, a weak
    compare-and-swap that may fail for no reason, and, for the thread that took
    the count from 1 to 0, the destruction. Each shared access is one step. */
module ContextRefCount {
  import opened Common

  /** Between its steps a releasing thread holds the reference and the value it expects. */
  datatype Pc =
    | Idle
    | Loaded(reference: nat, expected: U32)
    | FreeingSsl
    | Deleting

  /** `owner` maps each reference still held to the thread that holds it. The last four
      fields observe the run: who took the count to 0, how often the context was
      deleted, whether any step used it afterwards, and whether a release found 0. */
  datatype State = State(
    refCnt: U32,
    owner: map<nat, nat>,
    pcs: map<nat, Pc>,
    taker: Option<nat>,
    deletions: nat,
    usedAfterDelete: bool,
    foundZero: bool)

  datatype Event =
    | CreateObj(thread: nat, via: nat, created: nat)
    | Use(thread: nat, via: nat)
    | Give(thread: nat, reference: nat, receiver: nat)
    | Load(thread: nat, reference: nat)
    | CompareExchange(thread: nat, spurious: bool)
    | FreeSsl(thread: nat)
    | Delete(thread: nat)

  // The creator of the context holds the first reference.
  const InitialState := State(1, map[0 := 0], map[], None, 0, false, false)

  function PcOf(pcs: map<nat, Pc>, t: nat): Pc {
    if t in pcs then pcs[t] else Idle
  }

  predicate Owns(s: State, t: nat, reference: nat) {
    reference in s.owner && s.owner[reference] == t
  }

  /** The reference is held and its holder is not in the middle of releasing it. */
  predicate IsUsable(s: State, reference: nat) {
    && reference in s.owner
    && var pc := PcOf(s.pcs, s.owner[reference]);
       pc.Loaded? ==> pc.reference != reference
  }

  function Touch(s: State): State {
    s.(usedAfterDelete := s.usedAfterDelete || s.deletions > 0)
  }

  function Goto(s: State, t: nat, pc: Pc): State {
    s.(pcs := s.pcs[t := pc])
  }

  // On failure the expected value becomes the current one and the loop goes on.
  function StepCas(s: State, t: nat, reference: nat, expected: U32, spurious: bool): State {
    if expected == 0 then Goto(s.(foundZero := true), t, Idle)
    else if s.refCnt != expected || spurious then Goto(Touch(s), t, Loaded(reference, s.refCnt))
    else
      var released := Touch(s).(refCnt := expected - 1, owner := s.owner - {reference});
      if expected == 1 then Goto(released.(taker := Some(t)), t, FreeingSsl)
      else Goto(released, t, Idle)
  }

  // An idle thread may use the context, or create an object of it, through any reference
  // that some thread holds and is not releasing. Only its holder may release a reference or
  // hand it on. An event that is not enabled changes nothing.
  function Step(s: State, e: Event): State {
    match e
    case CreateObj(t, via, created) =>
      if PcOf(s.pcs, t) == Idle && IsUsable(s, via) && created !in s.owner
      then Touch(s).(refCnt := WrapU32(s.refCnt + 1), owner := s.owner[created := t]) else s
    case Use(t, via) =>
      if PcOf(s.pcs, t) == Idle && IsUsable(s, via) then Touch(s) else s
    case Give(t, reference, receiver) =>
      if Owns(s, t, reference) && IsUsable(s, reference) then s.(owner := s.owner[reference := receiver]) else s
    case Load(t, reference) =>
      if PcOf(s.pcs, t) == Idle && Owns(s, t, reference)
      then Goto(Touch(s), t, Loaded(reference, s.refCnt)) else s
    case CompareExchange(t, spurious) =>
      match PcOf(s.pcs, t) {
        case Loaded(reference, expected) => StepCas(s, t, reference, expected, spurious)
        case _ => s
      }
    case FreeSsl(t) =>
      if PcOf(s.pcs, t) == FreeingSsl then Goto(Touch(s), t, Deleting) else s
    case Delete(t) =>
      if PcOf(s.pcs, t) == Deleting then Goto(Touch(s).(deletions := s.deletions + 1), t, Idle) else s
  }

  function Run(events: seq<Event>): State {
    if events == [] then InitialState else Step(Run(events[..|events| - 1]), events[|events| - 1])
  }

  // ---------------------------------------------------------------- the invariant

  predicate IsFinishing(pc: Pc) {
    pc == FreeingSsl || pc == Deleting
  }

  /** A releasing thread still holds its reference and expects a positive count. */
  ghost predicate ReleasesAreHeld(s: State) {
    forall t: nat :: PcOf(s.pcs, t).Loaded? ==> Owns(s, t, PcOf(s.pcs, t).reference) && PcOf(s.pcs, t).expected > 0
  }

  /** Exactly one thread takes the last reference, and until it deletes the context it is
      the only one still working on it. */
  ghost predicate OneFinisher(s: State) {
    && (s.taker.None? <==> s.owner != map[])
    && (s.taker.None? ==> s.deletions == 0)
    && (forall t: nat :: IsFinishing(PcOf(s.pcs, t)) <==> s.taker == Some(t) && s.deletions == 0)
    && s.deletions <= 1
  }

  ghost predicate Inv(s: State) {
    && s.refCnt == |s.owner|
    && ReleasesAreHeld(s)
    && OneFinisher(s)
    && !s.usedAfterDelete
    && !s.foundZero
  }

  /** Moving one thread leaves the program counters of the others alone. */
  lemma GotoMovesOne(s: State, t: nat, pc: Pc, u: nat)
    ensures PcOf(Goto(s, t, pc).pcs, u) == if u == t then pc else PcOf(s.pcs, u)
  {
  }

  lemma CasKeepsInv(s: State, t: nat, spurious: bool)
    requires Inv(s) && PcOf(s.pcs, t).Loaded?
    ensures Inv(StepCas(s, t, PcOf(s.pcs, t).reference, PcOf(s.pcs, t).expected, spurious))
  {
    var reference, expected := PcOf(s.pcs, t).reference, PcOf(s.pcs, t).expected;
    var s' := StepCas(s, t, reference, expected, spurious);
    assert Owns(s, t, reference);
    assert s.owner.Keys == (s.owner - {reference}).Keys + {reference};
    assert |s.owner| == |s.owner - {reference}| + 1;
    assert s.owner - {reference} == map[] <==> |s.owner - {reference}| == 0;
    forall u: nat | PcOf(s'.pcs, u).Loaded?
      ensures Owns(s', u, PcOf(s'.pcs, u).reference) && PcOf(s'.pcs, u).expected > 0
    {
      if u != t {
        assert PcOf(s.pcs, u).Loaded?;
        assert PcOf(s.pcs, u).reference != reference;
      }
    }
  }

  lemma GiveKeepsInv(s: State, t: nat, reference: nat, receiver: nat)
    requires Inv(s) && Owns(s, t, reference) && IsUsable(s, reference)
    ensures Inv(s.(owner := s.owner[reference := receiver]))
  {
  }

  lemma CreateKeepsInv(s: State, t: nat, via: nat, created: nat)
    requires Inv(s) && via in s.owner && created !in s.owner
    requires |s.owner| < U32_MAX
    ensures Inv(Touch(s).(refCnt := WrapU32(s.refCnt + 1), owner := s.owner[created := t]))
  {
  }

  lemma LoadKeepsInv(s: State, t: nat, reference: nat)
    requires Inv(s) && PcOf(s.pcs, t) == Idle && Owns(s, t, reference)
    ensures Inv(Goto(Touch(s), t, Loaded(reference, s.refCnt)))
  {
    var s' := Goto(Touch(s), t, Loaded(reference, s.refCnt));
    assert s.owner.Keys == (s.owner.Keys - {reference}) + {reference};
    assert |s.owner| == |s.owner.Keys - {reference}| + 1;
    forall u: nat
      ensures PcOf(s'.pcs, u).Loaded? ==> Owns(s', u, PcOf(s'.pcs, u).reference) && PcOf(s'.pcs, u).expected > 0
      ensures IsFinishing(PcOf(s'.pcs, u)) <==> IsFinishing(PcOf(s.pcs, u))
    {
      GotoMovesOne(Touch(s), t, Loaded(reference, s.refCnt), u);
    }
  }

  lemma FreeSslKeepsInv(s: State, t: nat)
    requires Inv(s) && PcOf(s.pcs, t) == FreeingSsl
    ensures Inv(Goto(Touch(s), t, Deleting))
  {
    var s' := Goto(Touch(s), t, Deleting);
    assert IsFinishing(PcOf(s.pcs, t));
    forall u: nat
      ensures PcOf(s'.pcs, u).Loaded? <==> PcOf(s.pcs, u).Loaded?
      ensures PcOf(s'.pcs, u).Loaded? ==> PcOf(s'.pcs, u) == PcOf(s.pcs, u)
      ensures IsFinishing(PcOf(s'.pcs, u)) <==> IsFinishing(PcOf(s.pcs, u))
    {
      GotoMovesOne(Touch(s), t, Deleting, u);
    }
  }

  lemma DeleteKeepsInv(s: State, t: nat)
    requires Inv(s) && PcOf(s.pcs, t) == Deleting
    ensures Inv(Goto(Touch(s).(deletions := s.deletions + 1), t, Idle))
  {
    var after := Touch(s).(deletions := s.deletions + 1);
    var s' := Goto(after, t, Idle);
    assert IsFinishing(PcOf(s.pcs, t));
    forall u: nat
      ensures PcOf(s'.pcs, u).Loaded? ==> PcOf(s'.pcs, u) == PcOf(s.pcs, u)
      ensures !IsFinishing(PcOf(s'.pcs, u))
    {
      GotoMovesOne(after, t, Idle, u);
      assert u != t ==> !IsFinishing(PcOf(s.pcs, u));
    }
  }

  lemma StepKeepsInv(s: State, e: Event)
    requires Inv(s) && |Step(s, e).owner| <= U32_MAX
    ensures Inv(Step(s, e))
  {
    match e
    case CreateObj(t, via, created) =>
      if PcOf(s.pcs, t) == Idle && IsUsable(s, via) && created !in s.owner {
        assert s.owner[created := t].Keys == s.owner.Keys + {created};
        CreateKeepsInv(s, t, via, created);
      }
    case Use(t, via) =>
    case Give(t, reference, receiver) =>
      if Owns(s, t, reference) && IsUsable(s, reference) {
        GiveKeepsInv(s, t, reference, receiver);
      }
    case Load(t, reference) =>
      if PcOf(s.pcs, t) == Idle && Owns(s, t, reference) {
        LoadKeepsInv(s, t, reference);
      }
    case CompareExchange(t, spurious) =>
      if PcOf(s.pcs, t).Loaded? {
        CasKeepsInv(s, t, spurious);
      }
    case FreeSsl(t) =>
      if PcOf(s.pcs, t) == FreeingSsl {
        FreeSslKeepsInv(s, t);
      }
    case Delete(t) =>
      if PcOf(s.pcs, t) == Deleting {
        DeleteKeepsInv(s, t);
      }
  }

  /** At no moment are 2^32 references held at once. */
  ghost predicate FewReferences(events: seq<Event>) {
    forall n :: 0 <= n <= |events| ==> |Run(events[..n]).owner| <= U32_MAX
  }

  /** Over every run that never holds 2^32 references: the count is the number of
      references held, the context is deleted at most once, by the thread whose exchange
      took the count from 1 to 0, nothing uses it afterwards, and no release finds 0. */
  lemma {:induction false} RunKeepsInv(events: seq<Event>)
    requires FewReferences(events)
    ensures Inv(Run(events))
  {
    if events == [] {
      assert |map[0 := 0]| == 1;
    } else {
      var init := events[..|events| - 1];
      assert forall n :: 0 <= n <= |init| ==> init[..n] == events[..n];
      assert events[..|events|] == events;
      RunKeepsInv(init);
      StepKeepsInv(Run(init), events[|events| - 1]);
    }
  }

  /** The bound is exactly what the invariant needs at every moment of a run. */
  lemma SafeExactly(events: seq<Event>)
    ensures FewReferences(events) <==> forall n :: 0 <= n <= |events| ==> Inv(Run(events[..n]))
  {
    forall n | FewReferences(events) && 0 <= n <= |events|
      ensures Inv(Run(events[..n]))
    {
      var prefix := events[..n];
      assert forall m :: 0 <= m <= n ==> prefix[..m] == events[..m];
      RunKeepsInv(prefix);
    }
  }

  /** The context is gone exactly when every reference has been released and the thread
      that released the last one has finished. */
  lemma DeletedExactly(events: seq<Event>)
    requires FewReferences(events)
    ensures var s := Run(events);
            && s.deletions <= 1
            && (s.deletions == 1 <==> s.owner == map[] && forall t: nat :: PcOf(s.pcs, t) == Idle)
            && (s.deletions == 1 ==> s.taker.Some?)
  {
    RunKeepsInv(events);
    var s := Run(events);
    if s.taker.Some? && s.deletions == 0 {
      assert IsFinishing(PcOf(s.pcs, s.taker.value));
    }
  }

  // ---------------------------------------------------------------- what each operation does

  /** An exchange gives the reference back and lowers the count by one exactly when it meets
      the value it expects and does not fail for no reason. Otherwise it changes neither, and
      the thread tries again with the value it found. */
  lemma ExchangeExactly(s: State, t: nat, spurious: bool)
    requires Inv(s) && PcOf(s.pcs, t).Loaded?
    ensures var reference, expected := PcOf(s.pcs, t).reference, PcOf(s.pcs, t).expected;
            var s' := Step(s, CompareExchange(t, spurious));
            if s.refCnt == expected && !spurious
            then && s'.owner == s.owner - {reference} && s'.refCnt == s.refCnt - 1
                 && s'.pcs == s.pcs[t := if s.refCnt == 1 then FreeingSsl else Idle]
                 && s'.taker == (if s.refCnt == 1 then Some(t) else s.taker)
            else && s'.owner == s.owner && s'.refCnt == s.refCnt
                 && s'.pcs == s.pcs[t := Loaded(reference, s.refCnt)] && s'.taker == s.taker
  {
    assert Owns(s, t, PcOf(s.pcs, t).reference);
  }

  /** A release that nothing disturbs removes its own reference, lowers the count by one and
      leaves every other reference and every other thread alone. */
  lemma ReleaseExactly(s: State, t: nat, reference: nat)
    requires Inv(s) && PcOf(s.pcs, t) == Idle && Owns(s, t, reference)
    ensures var s' := Step(Step(s, Load(t, reference)), CompareExchange(t, false));
            && Inv(s') && s'.owner == s.owner - {reference} && |s'.owner| == |s.owner| - 1
            && s'.refCnt == s.refCnt - 1 && s'.deletions == s.deletions
            && s'.pcs == s.pcs[t := if s.refCnt == 1 then FreeingSsl else Idle]
  {
    var loaded := Step(s, Load(t, reference));
    LoadKeepsInv(s, t, reference);
    assert PcOf(loaded.pcs, t) == Loaded(reference, s.refCnt);
    CasKeepsInv(loaded, t, false);
    ExchangeExactly(loaded, t, false);
    assert s.owner.Keys == (s.owner - {reference}).Keys + {reference};
  }

  /** Creating an object adds one reference for its maker, and using or handing on a
      reference changes no count. */
  lemma OthersExactly(s: State, t: nat, via: nat, created: nat, receiver: nat)
    requires PcOf(s.pcs, t) == Idle && IsUsable(s, via) && created !in s.owner
    ensures var made := Step(s, CreateObj(t, via, created));
            made.owner == s.owner[created := t] && made.refCnt == (s.refCnt + 1) % 0x1_0000_0000 && made.pcs == s.pcs
    ensures var used := Step(s, Use(t, via)); used.owner == s.owner && used.refCnt == s.refCnt && used.pcs == s.pcs
    ensures var given := Step(s, Give(s.owner[via], via, receiver));
            given.owner == s.owner[via := receiver] && given.refCnt == s.refCnt && given.pcs == s.pcs
  {
  }

  // ---------------------------------------------------------------- releasing everything

  lemma RunPlus(events: seq<Event>, e: Event)
    ensures Run(events + [e]) == Step(Run(events), e)
  {
    assert (events + [e])[..|events|] == events;
  }

  /** The events of releases alone. */
  predicate OnlyReleases(events: seq<Event>) {
    forall i :: 0 <= i < |events| ==>
      events[i].Load? || events[i].CompareExchange? || events[i].FreeSsl? || events[i].Delete?
  }

  lemma TwoMore(events: seq<Event>, a: Event, b: Event)
    ensures Run(events + [a, b]) == Step(Step(Run(events), a), b)
  {
    var more := events + [a, b];
    assert more[..|more| - 1] == events + [a];
    RunPlus(events, a);
  }

  /** A release that has loaded ends after at most two exchanges that nothing disturbs: the
      first may find that its value is out of date. */
  lemma LoadedReleaseEnds(s: State, t: nat)
    requires Inv(s) && PcOf(s.pcs, t).Loaded?
    ensures var s' := Step(s, CompareExchange(t, false));
            var s'' := Step(s', CompareExchange(t, false));
            || (Inv(s') && |s'.owner| == |s.owner| - 1)
            || (Inv(s'') && |s''.owner| == |s.owner| - 1)
  {
    var reference := PcOf(s.pcs, t).reference;
    var s' := Step(s, CompareExchange(t, false));
    CasKeepsInv(s, t, false);
    ExchangeExactly(s, t, false);
    assert s.owner.Keys == (s.owner - {reference}).Keys + {reference};
    if s'.owner == s.owner {
      assert PcOf(s'.pcs, t) == Loaded(reference, s'.refCnt);
      CasKeepsInv(s', t, false);
      ExchangeExactly(s', t, false);
    }
  }

  /** Releases alone lead from the run to a state with one reference fewer. */
  ghost predicate CanReleaseOne(events: seq<Event>) {
    exists more :: OnlyReleases(more) && Inv(Run(events + more))
      && |Run(events + more).owner| == |Run(events).owner| - 1
  }

  lemma IdleHolderReleases(events: seq<Event>, t: nat, reference: nat)
    requires var s := Run(events); Inv(s) && PcOf(s.pcs, t) == Idle && Owns(s, t, reference)
    ensures CanReleaseOne(events)
  {
    var more := [Load(t, reference), CompareExchange(t, false)];
    ReleaseExactly(Run(events), t, reference);
    TwoMore(events, Load(t, reference), CompareExchange(t, false));
    assert OnlyReleases(more);
  }

  lemma LoadedHolderReleases(events: seq<Event>, t: nat)
    requires Inv(Run(events)) && PcOf(Run(events).pcs, t).Loaded?
    ensures CanReleaseOne(events)
  {
    var exchange := CompareExchange(t, false);
    LoadedReleaseEnds(Run(events), t);
    RunPlus(events, exchange);
    TwoMore(events, exchange, exchange);
    assert OnlyReleases([exchange]) && OnlyReleases([exchange, exchange]);
  }

  /** While a reference is held, some holder can go on to give one back. */
  lemma OneReleaseIsPossible(events: seq<Event>)
    requires Inv(Run(events)) && Run(events).owner != map[]
    ensures CanReleaseOne(events)
  {
    var s := Run(events);
    var reference :| reference in s.owner;
    var t := s.owner[reference];
    assert !IsFinishing(PcOf(s.pcs, t));
    if PcOf(s.pcs, t) == Idle {
      IdleHolderReleases(events, t, reference);
    } else {
      LoadedHolderReleases(events, t);
    }
  }

  /** Once the last reference is given back, its releaser can go on to the deletion. */
  lemma DeletionIsPossible(events: seq<Event>)
    requires Inv(Run(events)) && Run(events).owner == map[]
    ensures exists more :: OnlyReleases(more) && Run(events + more).owner == map[] && Run(events + more).deletions == 1
  {
    var s := Run(events);
    if s.deletions == 1 {
      assert events + [] == events;
      assert OnlyReleases([]);
    } else {
      var t := s.taker.value;
      assert IsFinishing(PcOf(s.pcs, t));
      if PcOf(s.pcs, t) == Deleting {
        RunPlus(events, Delete(t));
        assert OnlyReleases([Delete(t)]);
      } else {
        var freed := Step(s, FreeSsl(t));
        assert PcOf(freed.pcs, t) == Deleting;
        TwoMore(events, FreeSsl(t), Delete(t));
        assert OnlyReleases([FreeSsl(t), Delete(t)]);
      }
    }
  }

  lemma ReleasesJoin(events: seq<Event>, first: seq<Event>, second: seq<Event>)
    requires OnlyReleases(first) && OnlyReleases(second)
    ensures OnlyReleases(first + second) && events + first + second == events + (first + second)
  {
  }

  /** Nothing can block the end: from every reachable state below the bound, the holders can
      give back all they hold, and then the context has been deleted, exactly once. */
  lemma {:induction false} EverythingCanBeReleased(events: seq<Event>)
    requires Inv(Run(events))
    ensures exists more :: OnlyReleases(more) && Run(events + more).owner == map[] && Run(events + more).deletions == 1
    decreases |Run(events).owner|
  {
    if Run(events).owner == map[] {
      DeletionIsPossible(events);
    } else {
      OneReleaseIsPossible(events);
      var first :| OnlyReleases(first) && Inv(Run(events + first))
        && |Run(events + first).owner| == |Run(events).owner| - 1;
      EverythingCanBeReleased(events + first);
      var second :| OnlyReleases(second)
        && Run(events + first + second).owner == map[] && Run(events + first + second).deletions == 1;
      ReleasesJoin(events, first, second);
    }
  }

  // ---------------------------------------------------------------- why the bound is needed

  // Thread 0 creates n objects through the first reference.
  function Creations(n: nat): (events: seq<Event>)
    ensures |events| == n
  {
    if n == 0 then [] else Creations(n - 1) + [CreateObj(0, 0, n)]
  }

  function OwnedUpTo(n: nat): map<nat, nat> {
    if n == 0 then map[0 := 0] else OwnedUpTo(n - 1)[n := 0]
  }

  lemma {:induction false} OwnedUpToKeys(n: nat, i: nat)
    ensures i in OwnedUpTo(n) <==> i <= n
    ensures i in OwnedUpTo(n) ==> OwnedUpTo(n)[i] == 0
  {
    if n > 0 {
      OwnedUpToKeys(n - 1, i);
    }
  }

  lemma WrapOfSuccessor(x: nat)
    ensures WrapU32(WrapU32(x) + 1) == WrapU32(x + 1)
  {
  }

  /** The state after thread 0 has created n objects. */
  function Crowd(n: nat): State {
    State(WrapU32(n + 1), OwnedUpTo(n), map[], None, 0, false, false)
  }

  lemma CrowdGrows(n: nat)
    ensures Step(Crowd(n), CreateObj(0, 0, n + 1)) == Crowd(n + 1)
  {
    OwnedUpToKeys(n, 0);
    OwnedUpToKeys(n, n + 1);
    WrapOfSuccessor(n + 1);
  }

  lemma {:induction false} AfterCreations(n: nat)
    ensures Run(Creations(n)) == Crowd(n)
  {
    if n > 0 {
      AfterCreations(n - 1);
      RunPlus(Creations(n - 1), CreateObj(0, 0, n));
      CrowdGrows(n - 1);
    }
  }

  /** One release by thread 0, with the destruction if it is the last, then one use. */
  function ReleaseAndUse(events: seq<Event>): seq<Event> {
    events + [Load(0, 1)] + [CompareExchange(0, false)] + [FreeSsl(0)] + [Delete(0)] + [Use(0, 0)]
  }

  /** In a state where thread 0 holds references 0 and 1, releasing 1 takes the thread to the
      destruction exactly when the count reads 1. */
  lemma ReleaseStarts(s: State)
    requires s.pcs == map[] && s.deletions == 0 && Owns(s, 0, 0) && Owns(s, 0, 1)
    ensures var t := Step(Step(s, Load(0, 1)), CompareExchange(0, false));
            && PcOf(t.pcs, 0) == (if s.refCnt == 1 then FreeingSsl else Idle)
            && Owns(t, 0, 0) && t.deletions == 0 && t.usedAfterDelete == s.usedAfterDelete
  {
    var loaded := Step(s, Load(0, 1));
    assert PcOf(loaded.pcs, 0) == Loaded(1, s.refCnt);
  }

  lemma FinishThenUse(s: State)
    requires PcOf(s.pcs, 0) in {FreeingSsl, Idle} && Owns(s, 0, 0) && s.deletions == 0 && !s.usedAfterDelete
    ensures var t := Step(Step(Step(s, FreeSsl(0)), Delete(0)), Use(0, 0));
            && (t.usedAfterDelete <==> PcOf(s.pcs, 0) == FreeingSsl)
            && 0 in t.owner
  {
    var freed := Step(s, FreeSsl(0));
    assert PcOf(freed.pcs, 0) == if PcOf(s.pcs, 0) == FreeingSsl then Deleting else Idle;
    assert PcOf(Step(freed, Delete(0)).pcs, 0) == Idle;
  }

  lemma ReleaseAndUseExactly(events: seq<Event>)
    requires var s := Run(events);
             s.pcs == map[] && s.deletions == 0 && !s.usedAfterDelete && Owns(s, 0, 0) && Owns(s, 0, 1)
    ensures var t := Run(ReleaseAndUse(events));
            0 in t.owner && (t.usedAfterDelete <==> Run(events).refCnt == 1)
  {
    var e1 := events + [Load(0, 1)];
    var e2 := e1 + [CompareExchange(0, false)];
    var e3 := e2 + [FreeSsl(0)];
    RunPlus(events, Load(0, 1));
    RunPlus(e1, CompareExchange(0, false));
    ReleaseStarts(Run(events));
    RunPlus(e2, FreeSsl(0));
    RunPlus(e3, Delete(0));
    RunPlus(e3 + [Delete(0)], Use(0, 0));
    FinishThenUse(Run(e2));
  }

  lemma WrapsToOneExactly(n: nat)
    ensures WrapU32(n + 1) == 1 <==> n % 0x1_0000_0000 == 0
  {
  }

  /** The count is 32 bits wide and nothing guards the increment. After n objects have been
      created, releasing one deletes a context that the others still use exactly when n is a
      multiple of 2^32. */
  lemma WrappedCountDeletesUsedContext(n: nat)
    requires n > 0
    ensures var s := Run(ReleaseAndUse(Creations(n)));
            0 in s.owner && (s.usedAfterDelete <==> n % 0x1_0000_0000 == 0)
  {
    AfterCreations(n);
    OwnedUpToKeys(n, 0);
    OwnedUpToKeys(n, 1);
    ReleaseAndUseExactly(Creations(n));
    WrapsToOneExactly(n);
  }
}
