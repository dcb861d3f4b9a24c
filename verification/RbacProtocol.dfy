/** Permission checks running concurrently with everything that changes the
    access-control state. A check takes no single lock: it reads the enable flag,
    then the role map under one mutex, then the rules under another. Each of those
    reads, and each update, is one step of the machine. A run is any list of steps,
    so the runs are all the interleavings. */
module RbacProtocol {
  import opened Common
  import opened RbacTypes
  import opened PolicyMatcher
  import opened RuleStore
  import opened RoleMap
  import opened RbacDecision

  datatype Shared = Shared(rules: Store, roles: Roles, enabled: bool)

  /** Where a check is: between its steps it carries only what it has read. */
  datatype Phase =
    | Begun
    | EnabledRead
    | RoleRead(who: Identity)
    | Done(status: Status)

  datatype Check = Check(question: Question, phase: Phase)

  datatype System = System(shared: Shared, checks: map<nat, Check>)

  datatype Event =
    | Begin(id: nat, question: Question)
    | ReadEnabled(id: nat)
    | ReadRole(id: nat)
    | ReadRules(id: nat)
    | AddRuleEvent(subject: CString, target: CString, types: bv32, actions: bv32, effectCode: int)
    | RemoveRuleEvent(ruleId: U32)
    | SetRoleEvent(nodeId: CString, role: Role)
    | RemoveRoleEvent(nodeId: CString)
    | Handshake(outcome: Status)
    | Enable(enable: bool)

  const InitialSystem := System(Shared(EmptyStore, EmptyRoles, false), map[])

  ghost function StepShared(s: Shared, e: Event): Shared {
    match e
    case AddRuleEvent(subject, target, types, actions, effectCode) =>
      s.(rules := AddRule(s.rules, subject, target, types, actions, effectCode).store)
    case RemoveRuleEvent(ruleId) => s.(rules := RemoveRule(s.rules, ruleId).0)
    case SetRoleEvent(nodeId, role) => s.(roles := SetRole(s.roles, nodeId, role).0)
    case RemoveRoleEvent(nodeId) => s.(roles := RemoveRole(s.roles, nodeId).0)
    case Handshake(outcome) => s.(roles := AfterHandshake(s.roles, outcome))
    case Enable(enable) => s.(enabled := enable)
    case _ => s
  }

  // Arguments are validated before anything shared is read.
  function AfterBegin(q: Question): Phase {
    if IsValidQuestion(q) then Begun else Done(InvalidParam)
  }

  function AfterEnabled(enabled: bool): Phase {
    if enabled then EnabledRead else Done(RbacDisabled)
  }

  function AfterRole(m: Roles, q: Question): Phase {
    match ResolveLocalIdentity(m, q.cert)
    case Ok(who) => RoleRead(who)
    case Err(status) => Done(status)
  }

  ghost function AfterRules(rules: RuleMap, who: Identity, q: Question): Phase {
    Done(RulePermission(rules, who, q))
  }

  // An event that is not enabled changes nothing.
  ghost function StepCheck(s: Shared, c: Check, e: Event): Check {
    match e
    case ReadEnabled(_) => if c.phase == Begun then c.(phase := AfterEnabled(s.enabled)) else c
    case ReadRole(_) => if c.phase == EnabledRead then c.(phase := AfterRole(s.roles, c.question)) else c
    case ReadRules(_) =>
      if c.phase.RoleRead? then c.(phase := AfterRules(s.rules.rules, c.phase.who, c.question)) else c
    case _ => c
  }

  predicate IsCheckStep(e: Event) {
    e.ReadEnabled? || e.ReadRole? || e.ReadRules?
  }

  // Every call has its own id.
  ghost function Step(s: System, e: Event): System {
    if e.Begin? then
      if e.id in s.checks then s
      else s.(checks := s.checks[e.id := Check(e.question, AfterBegin(e.question))])
    else if IsCheckStep(e) then
      if e.id !in s.checks then s
      else s.(checks := s.checks[e.id := StepCheck(s.shared, s.checks[e.id], e)])
    else s.(shared := StepShared(s.shared, e))
  }

  ghost function Run(events: seq<Event>): System {
    if events == [] then InitialSystem
    else Step(Run(events[..|events| - 1]), events[|events| - 1])
  }

  /** The system after the first n events. */
  ghost function At(events: seq<Event>, n: nat): System
    requires n <= |events|
  {
    Run(events[..n])
  }

  lemma AtNext(events: seq<Event>, n: nat)
    requires n < |events|
    ensures At(events, n + 1) == Step(At(events, n), events[n])
  {
    assert events[..n + 1][..n] == events[..n];
  }

  // ---------------------------------------------------------------- invariants of every run

  ghost predicate ValidShared(s: Shared) {
    ValidStore(s.rules) && ValidRoles(s.roles)
  }

  lemma StepKeepsShared(s: Shared, e: Event)
    requires ValidShared(s)
    ensures ValidShared(StepShared(s, e))
  {
    match e
    case AddRuleEvent(subject, target, types, actions, effectCode) =>
      AddKeepsValid(s.rules, subject, target, types, actions, effectCode);
    case RemoveRuleEvent(ruleId) => RuleStore.RemoveKeepsValid(s.rules, ruleId);
    case SetRoleEvent(nodeId, role) => SetKeepsValid(s.roles, nodeId, role);
    case RemoveRoleEvent(nodeId) => RoleMap.RemoveKeepsValid(s.roles, nodeId);
    case _ =>
  }

  lemma {:induction false} RunKeepsShared(events: seq<Event>)
    ensures ValidShared(Run(events).shared)
  {
    if events == [] {
      assert EmptyStore.rules == map[] && EmptyRoles.roles == map[];
    } else {
      RunKeepsShared(events[..|events| - 1]);
      StepKeepsShared(Run(events[..|events| - 1]).shared, events[|events| - 1]);
    }
  }

  lemma OnlyHandshakesFreeze(s: System, e: Event)
    ensures Step(s, e).shared.roles.frozen <==> s.shared.roles.frozen || e == Handshake(Success)
  {
  }

  /** The map is frozen exactly when some handshake has succeeded: want-read, want-write
      and failed handshakes leave the flag alone, and nothing clears it. */
  lemma {:induction false} FrozenExactly(events: seq<Event>, n: nat)
    requires n <= |events|
    ensures At(events, n).shared.roles.frozen <==> exists i :: 0 <= i < n && events[i] == Handshake(Success)
  {
    if n > 0 {
      FrozenExactly(events, n - 1);
      AtNext(events, n - 1);
      OnlyHandshakesFreeze(At(events, n - 1), events[n - 1]);
    } else {
      assert events[..0] == [];
    }
  }

  /** Once frozen, the role map is the same for the rest of the run. */
  lemma {:induction false} FrozenRolesAreConstant(events: seq<Event>, i: nat, n: nat)
    requires i <= n <= |events|
    requires At(events, i).shared.roles.frozen
    ensures At(events, n).shared.roles == At(events, i).shared.roles
    decreases n
  {
    if i < n {
      FrozenRolesAreConstant(events, i, n - 1);
      AtNext(events, n - 1);
    }
  }

  // ---------------------------------------------------------------- what the shared state is

  /** What an event is to the rules: an add, a remove, or nothing. */
  function RuleOpOf(e: Event): seq<RuleOp> {
    match e
    case AddRuleEvent(subject, target, types, actions, effectCode) =>
      [Add(subject, target, types, actions, effectCode)]
    case RemoveRuleEvent(ruleId) => [Remove(ruleId)]
    case _ => []
  }

  /** The adds and removes of a run, in order. */
  function RuleOps(events: seq<Event>): seq<RuleOp> {
    if events == [] then [] else RuleOps(events[..|events| - 1]) + RuleOpOf(events[|events| - 1])
  }

  lemma RulesChangeByTheirOps(s: System, e: Event, ops: seq<RuleOp>)
    requires s.shared.rules == RunRules(ops).store
    ensures Step(s, e).shared.rules == RunRules(ops + RuleOpOf(e)).store
  {
    if RuleOpOf(e) == [] {
      assert ops + RuleOpOf(e) == ops;
    } else {
      RuleStore.RunPlus(ops, RuleOpOf(e)[0]);
    }
  }

  /** However the steps interleave, the stored rules are those of the adds and removes alone. */
  lemma {:induction false} RulesAreThoseOfTheOps(events: seq<Event>)
    ensures Run(events).shared.rules == RunRules(RuleOps(events)).store
  {
    if events != [] {
      var init := events[..|events| - 1];
      RulesAreThoseOfTheOps(init);
      RulesChangeByTheirOps(Run(init), events[|events| - 1], RuleOps(init));
    }
  }

  /** Event i is the last one before n that switches the engine. */
  ghost predicate IsLastSwitch(events: seq<Event>, n: nat, i: nat) {
    i < n <= |events| && events[i].Enable? && forall j :: i < j < n ==> !events[j].Enable?
  }

  lemma OnlySwitchesSwitch(s: System, e: Event)
    ensures Step(s, e).shared.enabled == if e.Enable? then e.enable else s.shared.enabled
  {
  }

  /** The engine is on exactly when it was last switched on. */
  lemma {:induction false} EnabledExactly(events: seq<Event>, n: nat)
    requires n <= |events|
    ensures At(events, n).shared.enabled <==> exists i: nat :: IsLastSwitch(events, n, i) && events[i].enable
  {
    if n == 0 {
      assert events[..0] == [];
    } else {
      EnabledExactly(events, n - 1);
      AtNext(events, n - 1);
      OnlySwitchesSwitch(At(events, n - 1), events[n - 1]);
      if events[n - 1].Enable? {
        assert IsLastSwitch(events, n, n - 1);
      } else if i: nat :| IsLastSwitch(events, n - 1, i) && events[i].enable {
        assert IsLastSwitch(events, n, i);
      }
    }
  }

  /** One step changes the role map as its own call does, and no other step changes it. */
  lemma RolesChangeByTheirCalls(s: System, e: Event)
    ensures var after := Step(s, e).shared.roles;
            && (e.SetRoleEvent? ==> after == SetRole(s.shared.roles, e.nodeId, e.role).0)
            && (e.RemoveRoleEvent? ==> after == RemoveRole(s.shared.roles, e.nodeId).0)
            && (e.Handshake? ==> after.roles == s.shared.roles.roles)
            && (!e.SetRoleEvent? && !e.RemoveRoleEvent? && !e.Handshake? ==> after == s.shared.roles)
  {
  }

  // ---------------------------------------------------------------- what a check returns

  /** From any state, a new check that takes its reads undisturbed returns the decision on
      that state and changes nothing else. */
  lemma UndisturbedCheckDecides(s: System, id: nat, q: Question)
    requires id !in s.checks
    ensures var t := Step(Step(Step(Step(s, Begin(id, q)), ReadEnabled(id)), ReadRole(id)), ReadRules(id));
            && t.shared == s.shared
            && t.checks == s.checks[id := Check(q, Done(Decide(s.shared.enabled, s.shared.roles, s.shared.rules.rules, q)))]
  {
    var begun := Step(s, Begin(id, q));
    var flagRead := Step(begun, ReadEnabled(id));
    var roleRead := Step(flagRead, ReadRole(id));
    assert begun.checks[id].phase == AfterBegin(q);
    assert roleRead.checks == s.checks[id := roleRead.checks[id]];
  }

  /** The read that a check is waiting for. */
  function NextRead(id: nat, phase: Phase): Option<Event> {
    match phase
    case Begun => Some(ReadEnabled(id))
    case EnabledRead => Some(ReadRole(id))
    case RoleRead(_) => Some(ReadRules(id))
    case Done(_) => None
  }

  function ReadsLeft(phase: Phase): nat {
    match phase
    case Begun => 3
    case EnabledRead => 2
    case RoleRead(_) => 1
    case Done(_) => 0
  }

  /** In any interleaving the read a check waits for brings it nearer to its answer, so three
      reads finish it, and no other event touches it. */
  lemma OnlyTheNextReadMovesACheck(s: System, e: Event, id: nat)
    requires id in s.checks
    ensures var before := s.checks[id];
            && id in Step(s, e).checks && Step(s, e).checks[id].question == before.question
            && (if Some(e) == NextRead(id, before.phase)
                then ReadsLeft(Step(s, e).checks[id].phase) < ReadsLeft(before.phase)
                else Step(s, e).checks[id] == before)
  {
  }

  /** Event n is a step that the check really takes: it is waiting in this phase for it. */
  ghost predicate TakesStep(events: seq<Event>, n: nat, e: Event, q: Question, phase: Phase) {
    && n < |events| && events[n] == e && IsCheckStep(e)
    && e.id in At(events, n).checks
    && At(events, n).checks[e.id] == Check(q, phase)
  }

  /** The check read the enable flag at event i. */
  ghost predicate FlagRead(events: seq<Event>, n: nat, id: nat, q: Question, i: nat, value: bool) {
    && i < n <= |events|
    && TakesStep(events, i, ReadEnabled(id), q, Begun)
    && At(events, i).shared.enabled == value
  }

  /** Having found the flag set at event i, it read the role map at event j. */
  ghost predicate RoleReadAt(events: seq<Event>, n: nat, id: nat, q: Question, phase: Phase, i: nat, j: nat) {
    && i < j < n <= |events|
    && FlagRead(events, j, id, q, i, true)
    && TakesStep(events, j, ReadRole(id), q, EnabledRead)
    && phase == AfterRole(At(events, j).shared.roles, q)
  }

  /** Having found a role at event j, it read the rules at event k, which settled the answer. */
  ghost predicate RulesReadAt(events: seq<Event>, n: nat, id: nat, q: Question, phase: Phase, i: nat, j: nat, k: nat) {
    && i < j < k < n <= |events|
    && ResolvedAs(events, n, id, q, phase, i, j, k, AfterRole(At(events, j).shared.roles, q))
  }

  ghost predicate ResolvedAs(events: seq<Event>, n: nat, id: nat, q: Question, phase: Phase,
    i: nat, j: nat, k: nat, resolved: Phase)
  {
    && i < j < k < n <= |events|
    && resolved.RoleRead?
    && RoleReadAt(events, k, id, q, resolved, i, j)
    && TakesStep(events, k, ReadRules(id), q, resolved)
    && phase == AfterRules(At(events, k).shared.rules.rules, resolved.who, q)
  }

  /** Each phase of a check is the result of its own reads, in order, in this run. */
  ghost predicate Explained(events: seq<Event>, n: nat, id: nat, c: Check) {
    var q := c.question;
    || c.phase == AfterBegin(q)
    || (IsValidQuestion(q)
        && (|| (c.phase == AfterEnabled(true) && exists i :: FlagRead(events, n, id, q, i, true))
            || (c.phase == AfterEnabled(false) && exists i :: FlagRead(events, n, id, q, i, false))
            || (exists i, j :: RoleReadAt(events, n, id, q, c.phase, i, j))
            || (exists i, j, k :: RulesReadAt(events, n, id, q, c.phase, i, j, k))))
  }

  lemma ExplainedLater(events: seq<Event>, n: nat, id: nat, c: Check)
    requires n < |events| && Explained(events, n, id, c)
    ensures Explained(events, n + 1, id, c)
  {
    var q := c.question;
    if i :| FlagRead(events, n, id, q, i, true) {
      assert FlagRead(events, n + 1, id, q, i, true);
    }
    if i :| FlagRead(events, n, id, q, i, false) {
      assert FlagRead(events, n + 1, id, q, i, false);
    }
    if i, j :| RoleReadAt(events, n, id, q, c.phase, i, j) {
      assert RoleReadAt(events, n + 1, id, q, c.phase, i, j);
    }
    if i, j, k :| RulesReadAt(events, n, id, q, c.phase, i, j, k) {
      assert RulesReadAt(events, n + 1, id, q, c.phase, i, j, k);
    }
  }

  lemma StepIsExplained(events: seq<Event>, n: nat, id: nat)
    requires n < |events| && id in At(events, n).checks
    requires Explained(events, n, id, At(events, n).checks[id])
    requires IsCheckStep(events[n]) && events[n].id == id
    ensures Explained(events, n + 1, id, StepCheck(At(events, n).shared, At(events, n).checks[id], events[n]))
  {
    var c, shared := At(events, n).checks[id], At(events, n).shared;
    ExplainedLater(events, n, id, c);
    var q := c.question;
    if events[n].ReadEnabled? && c.phase == Begun {
      assert FlagRead(events, n + 1, id, q, n, shared.enabled);
    } else if events[n].ReadRole? && c.phase == EnabledRead {
      var i :| FlagRead(events, n, id, q, i, true);
      assert RoleReadAt(events, n + 1, id, q, AfterRole(shared.roles, q), i, n);
    } else if events[n].ReadRules? && c.phase.RoleRead? {
      var i, j :| RoleReadAt(events, n, id, q, c.phase, i, j);
      assert RulesReadAt(events, n + 1, id, q, AfterRules(shared.rules.rules, c.phase.who, q), i, j, n);
    }
  }

  lemma CheckAfterStep(s: System, e: Event, id: nat)
    requires id in Step(s, e).checks
    ensures id !in s.checks ==>
              Step(s, e).checks[id].phase == AfterBegin(Step(s, e).checks[id].question)
    ensures id in s.checks ==>
              Step(s, e).checks[id] ==
              if IsCheckStep(e) && e.id == id then StepCheck(s.shared, s.checks[id], e) else s.checks[id]
  {
  }

  /** In every run, every check is explained. */
  lemma {:induction false} ChecksAreExplained(events: seq<Event>, n: nat, id: nat)
    requires n <= |events| && id in At(events, n).checks
    ensures Explained(events, n, id, At(events, n).checks[id])
  {
    if n > 0 {
      AtNext(events, n - 1);
      var before, e := At(events, n - 1), events[n - 1];
      CheckAfterStep(before, e, id);
      if id in before.checks {
        ChecksAreExplained(events, n - 1, id);
        if IsCheckStep(e) && e.id == id {
          StepIsExplained(events, n - 1, id);
        } else {
          ExplainedLater(events, n - 1, id, before.checks[id]);
        }
      }
    }
  }

  /** The check's answer is the decision on the flag, the roles and the rules of three
      moments in this order, and each of the reads it needed is a step that it took at that
      moment. */
  ghost predicate AnswersWith(events: seq<Event>, n: nat, id: nat, c: Check, i: nat, j: nat, k: nat) {
    i <= j <= k <= n <= |events| &&
    var flag, roles := At(events, i).shared.enabled, At(events, j).shared.roles;
    && c.phase == Done(Decide(flag, roles, At(events, k).shared.rules.rules, c.question))
    && (IsValidQuestion(c.question) ==>
          && TakesStep(events, i, ReadEnabled(id), c.question, Begun)
          && (flag ==> TakesStep(events, j, ReadRole(id), c.question, EnabledRead))
          && (flag && AfterRole(roles, c.question).RoleRead? ==>
                TakesStep(events, k, ReadRules(id), c.question, AfterRole(roles, c.question))))
  }

  /** Every finished check answers with its own reads. */
  lemma CheckAnswersDecision(events: seq<Event>, n: nat, id: nat)
    requires n <= |events| && id in At(events, n).checks
    requires At(events, n).checks[id].phase.Done?
    ensures exists i: nat, j: nat, k: nat :: AnswersWith(events, n, id, At(events, n).checks[id], i, j, k)
  {
    ChecksAreExplained(events, n, id);
    var c := At(events, n).checks[id];
    if c.phase == AfterBegin(c.question) {
      assert AnswersWith(events, n, id, c, 0, 0, 0);
    } else if i, j :| RoleReadAt(events, n, id, c.question, c.phase, i, j) {
      assert AnswersWith(events, n, id, c, i, j, j);
    } else if i, j, k :| RulesReadAt(events, n, id, c.question, c.phase, i, j, k) {
      assert AnswersWith(events, n, id, c, i, j, k);
    } else {
      var i :| FlagRead(events, n, id, c.question, i, false);
      assert AnswersWith(events, n, id, c, i, i, i);
    }
  }

  /** The answer is the decision on the whole shared state of this moment. */
  ghost predicate IsDecisionAt(events: seq<Event>, n: nat, q: Question, status: Status)
    requires n <= |events|
  {
    var s := At(events, n).shared;
    Decide(s.enabled, s.roles, s.rules.rules, q) == status
  }

  ghost predicate IsRunning(events: seq<Event>, n: nat, id: nat)
    requires n <= |events|
  {
    id in At(events, n).checks && !At(events, n).checks[id].phase.Done?
  }

  /** Event k is the read that settled the check: the role read, if no role was found, or
      else the rule read. */
  ghost predicate SettlesAt(events: seq<Event>, id: nat, q: Question, k: nat) {
    || (TakesStep(events, k, ReadRole(id), q, EnabledRead) && AfterRole(At(events, k).shared.roles, q).Done?)
    || exists who :: TakesStep(events, k, ReadRules(id), q, RoleRead(who))
  }

  /** The check was running at event k, which settled it. The answer is the decision on the
      roles and rules of that moment with the engine enabled, so on the whole state if the
      flag is still set; the role map of that moment is the final one. */
  ghost predicate AtomicAt(events: seq<Event>, n: nat, id: nat, c: Check, k: nat) {
    && k < n <= |events|
    && SettlesAt(events, id, c.question, k) && IsRunning(events, k, id)
    && At(events, k).shared.roles == At(events, n).shared.roles
    && c.phase == Done(Decide(true, At(events, n).shared.roles, At(events, k).shared.rules.rules, c.question))
    && (At(events, k).shared.enabled ==> IsDecisionAt(events, k, c.question, c.phase.status))
  }

  lemma SameRolesAfterFreeze(events: seq<Event>, f: nat, m: nat, n: nat)
    requires f <= m <= n <= |events| && At(events, f).shared.roles.frozen
    ensures At(events, m).shared.roles == At(events, n).shared.roles == At(events, f).shared.roles
  {
    FrozenRolesAreConstant(events, f, m);
    FrozenRolesAreConstant(events, f, n);
  }

  lemma RoleReadSettles(events: seq<Event>, n: nat, id: nat, c: Check, f: nat, i: nat, j: nat)
    requires RoleReadAt(events, n, id, c.question, c.phase, i, j) && c.phase.Done?
    requires f <= j && At(events, f).shared.roles.frozen && IsValidQuestion(c.question)
    ensures AtomicAt(events, n, id, c, j)
  {
    SameRolesAfterFreeze(events, f, j, n);
  }

  lemma RulesReadSettles(events: seq<Event>, n: nat, id: nat, c: Check, f: nat, i: nat, j: nat, k: nat)
    requires RulesReadAt(events, n, id, c.question, c.phase, i, j, k)
    requires f <= j && At(events, f).shared.roles.frozen && IsValidQuestion(c.question)
    ensures AtomicAt(events, n, id, c, k)
  {
    SameRolesAfterFreeze(events, f, j, n);
    SameRolesAfterFreeze(events, f, k, n);
  }

  /** A check that read the role map after it was frozen, and saw the engine enabled,
      returns the atomic decision on the frozen role map and the rules of the moment that
      settled it, however the other steps interleave. If the engine is still enabled at that
      moment, this is the decision on all of its state. */
  lemma FrozenCheckIsAtomic(events: seq<Event>, n: nat, id: nat, f: nat)
    requires f <= n <= |events| && id in At(events, n).checks
    requires At(events, f).shared.roles.frozen
    requires forall j, q :: 0 <= j < f ==> !TakesStep(events, j, ReadRole(id), q, EnabledRead)
    requires var c := At(events, n).checks[id];
             IsValidQuestion(c.question) && c.phase.Done? && c.phase.status != RbacDisabled
    ensures exists k :: f <= k && AtomicAt(events, n, id, At(events, n).checks[id], k)
  {
    ChecksAreExplained(events, n, id);
    var c := At(events, n).checks[id];
    if i, j :| RoleReadAt(events, n, id, c.question, c.phase, i, j) {
      RoleReadSettles(events, n, id, c, f, i, j);
    } else {
      var i, j, k :| RulesReadAt(events, n, id, c.question, c.phase, i, j, k);
      RulesReadSettles(events, n, id, c, f, i, j, k);
    }
  }

  // ---------------------------------------------------------------- which checks mix states

  ghost predicate IsFinished(events: seq<Event>, id: nat, q: Question) {
    id in Run(events).checks && Run(events).checks[id].question == q && Run(events).checks[id].phase.Done?
  }

  /** The finished check of `q` answered what no moment of the run decides. */
  ghost predicate MixesStates(events: seq<Event>, id: nat, q: Question) {
    && IsFinished(events, id, q)
    && forall n: nat :: n <= |events| ==> !IsDecisionAt(events, n, q, Run(events).checks[id].phase.status)
  }

  /** The answer is the decision of a moment at which the check was running. */
  ghost predicate IsAtomic(events: seq<Event>, id: nat, q: Question)
    requires IsFinished(events, id, q)
  {
    exists n: nat :: n <= |events| && IsRunning(events, n, id)
      && IsDecisionAt(events, n, q, Run(events).checks[id].phase.status)
  }

  /** Nobody switches the engine off while the check runs. */
  ghost predicate FlagStaysSet(events: seq<Event>, id: nat) {
    forall n: nat :: n <= |events| && IsRunning(events, n, id) ==> At(events, n).shared.enabled
  }

  /** The role map is frozen whenever the check is running, so from its beginning. */
  ghost predicate IsFrozenFor(events: seq<Event>, id: nat) {
    forall n: nat :: n <= |events| && IsRunning(events, n, id) ==> At(events, n).shared.roles.frozen
  }

  /** The certificate names its node and spells a role, or has no role extension. */
  ghost predicate MayResolve(cert: Cert) {
    && (exists id :: NamesNode(cert, id))
    && (cert.role.Absent? || (cert.role.Present? && exists role :: SpellsRole(cert.role.value, role)))
  }

  /** The certificate names its node and has no role extension. */
  ghost predicate LeavesRoleToMap(cert: Cert) {
    cert.role.Absent? && exists id :: NamesNode(cert, id)
  }

  lemma UnresolvableIsFixed(m: Roles, other: Roles, cert: Cert)
    requires !MayResolve(cert)
    ensures ResolveLocalIdentity(m, cert).Err? && ResolveLocalIdentity(m, cert) == ResolveLocalIdentity(other, cert)
  {
    var nodeId, role := GetCertNodeId(cert, MAX_NODE_ID_LEN), GetCertRbacRole(cert);
    if nodeId.Ok? {
      CertNodeIdExactly(cert, nodeId.value);
    }
    if role.Ok? {
      CertRoleExactly(cert, role.value);
    }
  }

  lemma OtherRolesAreFixed(m: Roles, other: Roles, cert: Cert)
    requires !LeavesRoleToMap(cert)
    ensures ResolveLocalIdentity(m, cert) == ResolveLocalIdentity(other, cert)
  {
    var nodeId := GetCertNodeId(cert, MAX_NODE_ID_LEN);
    if nodeId.Ok? {
      CertNodeIdExactly(cert, nodeId.value);
    }
  }

  /** A check whose certificate can never resolve answers the decision of its flag read. */
  lemma UnresolvableChecksAreAtomic(events: seq<Event>, id: nat, q: Question)
    requires IsValidQuestion(q) && !MayResolve(q.cert)
    requires IsFinished(events, id, q)
    ensures IsAtomic(events, id, q)
  {
    assert events[..|events|] == events;
    CheckAnswersDecision(events, |events|, id);
    var i: nat, j: nat, k: nat :| AnswersWith(events, |events|, id, Run(events).checks[id], i, j, k);
    UnresolvableIsFixed(At(events, i).shared.roles, At(events, j).shared.roles, q.cert);
    assert IsRunning(events, i, id) && IsDecisionAt(events, i, q, Run(events).checks[id].phase.status);
  }

  /** While the flag stays set, a check whose certificate does not leave the role to the map
      answers the decision of the read that settled it, frozen or not. */
  lemma FixedRoleChecksAreAtomic(events: seq<Event>, id: nat, q: Question)
    requires IsValidQuestion(q) && !LeavesRoleToMap(q.cert)
    requires IsFinished(events, id, q) && FlagStaysSet(events, id)
    ensures IsAtomic(events, id, q)
  {
    assert events[..|events|] == events;
    CheckAnswersDecision(events, |events|, id);
    var i: nat, j: nat, k: nat :| AnswersWith(events, |events|, id, Run(events).checks[id], i, j, k);
    assert IsRunning(events, i, id) && IsRunning(events, j, id);
    var n := if AfterRole(At(events, j).shared.roles, q).RoleRead? then k else j;
    OtherRolesAreFixed(At(events, j).shared.roles, At(events, n).shared.roles, q.cert);
    assert IsRunning(events, n, id) && IsDecisionAt(events, n, q, Run(events).checks[id].phase.status);
  }

  /** While the flag stays set, every check that runs on a frozen map is atomic. */
  lemma FrozenChecksAreAtomic(events: seq<Event>, id: nat, q: Question)
    requires IsValidQuestion(q) && IsFinished(events, id, q)
    requires FlagStaysSet(events, id) && IsFrozenFor(events, id)
    ensures IsAtomic(events, id, q)
  {
    assert events[..|events|] == events;
    CheckAnswersDecision(events, |events|, id);
    var i: nat, j: nat, k: nat :| AnswersWith(events, |events|, id, Run(events).checks[id], i, j, k);
    assert IsRunning(events, i, id) && IsRunning(events, j, id);
    var n := if AfterRole(At(events, j).shared.roles, q).RoleRead? then k else j;
    FrozenRolesAreConstant(events, j, n);
    assert IsRunning(events, n, id) && IsDecisionAt(events, n, q, Run(events).checks[id].phase.status);
  }

  lemma InvalidQuestionsNeverMix(events: seq<Event>, id: nat, q: Question)
    requires !IsValidQuestion(q)
    ensures !MixesStates(events, id, q)
  {
    if IsFinished(events, id, q) {
      assert events[..|events|] == events;
      CheckAnswersDecision(events, |events|, id);
      assert IsDecisionAt(events, 0, q, Run(events).checks[id].phase.status);
    }
  }

  /** The store after one rule, naming the question exactly, was added first. */
  function OneRuleStore(node: CString, q: Question, effect: Effect): Store {
    Store(map[1 := Rule(1, node, q.target, q.resourceType, q.action, effect)], 2)
  }

  function RoleOnly(node: CString, role: Role, frozen: bool): Roles {
    Roles(map[node := role], frozen)
  }

  // While a check runs, the node loses its role and then the rule that denied its request.
  function MixingRun(node: CString, q: Question): seq<Event> {
    [
      Enable(true),
      AddRuleEvent(node, q.target, q.resourceType, q.action, 1),
      SetRoleEvent(node, Master),
      Begin(0, q),
      ReadEnabled(0),
      ReadRole(0),
      RemoveRoleEvent(node),
      RemoveRuleEvent(1),
      ReadRules(0)]
  }

  /** The system at each point of that run. */
  function MixingSystem(node: CString, q: Question, n: nat): System {
    System(
      Shared(
        if n <= 1 then EmptyStore else if n <= 7 then OneRuleStore(node, q, Deny) else Store(map[], 2),
        if 3 <= n <= 6 then RoleOnly(node, Master, false) else EmptyRoles,
        n >= 1),
      if n <= 3 then map[]
      else map[0 := Check(q,
        if n == 4 then Begun
        else if n == 5 then EnabledRead
        else if n <= 8 then RoleRead(Identity(node, Master))
        else Done(Success))])
  }

  lemma MasterResolves(node: CString, q: Question)
    requires NamesNode(q.cert, node) && q.cert.role.Absent?
    ensures ResolveLocalIdentity(RoleOnly(node, Master, false), q.cert) == Ok(Identity(node, Master))
  {
    CertNodeIdExactly(q.cert, node);
  }

  lemma MasterIsDenied(node: CString, q: Question)
    requires IsValidQuestion(q) && NamesNode(q.cert, node) && q.cert.role.Absent?
    ensures Decide(true, RoleOnly(node, Master, false), OneRuleStore(node, q, Deny).rules, q) == RbacDenied
  {
    MasterResolves(node, q);
    ExactRuleDecides(OneRuleStore(node, q, Deny).rules, 1, RequestOf(q, node));
  }

  lemma MixingUpdates(node: CString, q: Question)
    requires IsValidQuestion(q) && NamesNode(q.cert, node)
    ensures AddRule(EmptyStore, node, q.target, q.resourceType, q.action, 1).store == OneRuleStore(node, q, Deny)
    ensures RemoveRule(OneRuleStore(node, q, Deny), 1).0 == Store(map[], 2)
    ensures SetRole(EmptyRoles, node, Master).0 == RoleOnly(node, Master, false)
    ensures RemoveRole(RoleOnly(node, Master, false), node).0 == EmptyRoles
  {
    OnlyRule(q, node, Deny);
    assert OneRuleStore(node, q, Deny).rules - {1} == map[];
    assert RoleOnly(node, Master, false).roles - {node} == map[];
  }

  lemma MixingSetup(node: CString, q: Question, n: nat)
    requires IsValidQuestion(q) && NamesNode(q.cert, node)
    requires n < 3
    ensures Step(MixingSystem(node, q, n), MixingRun(node, q)[n]) == MixingSystem(node, q, n + 1)
  {
    MixingUpdates(node, q);
  }

  lemma MixingReads(node: CString, q: Question, n: nat)
    requires IsValidQuestion(q) && NamesNode(q.cert, node) && q.cert.role.Absent?
    requires 3 <= n < 6
    ensures Step(MixingSystem(node, q, n), MixingRun(node, q)[n]) == MixingSystem(node, q, n + 1)
  {
    MasterResolves(node, q);
  }

  lemma MixingRemovals(node: CString, q: Question, n: nat)
    requires IsValidQuestion(q) && NamesNode(q.cert, node)
    requires 6 <= n < 8
    ensures Step(MixingSystem(node, q, n), MixingRun(node, q)[n]) == MixingSystem(node, q, n + 1)
  {
    MixingUpdates(node, q);
  }

  lemma MixingAnswer(node: CString, q: Question)
    ensures Step(MixingSystem(node, q, 8), MixingRun(node, q)[8]) == MixingSystem(node, q, 9)
  {
    assert RulePermission(map[], Identity(node, Master), q) == Success;
  }

  lemma {:induction false} MixingStates(node: CString, q: Question, n: nat)
    requires IsValidQuestion(q) && NamesNode(q.cert, node) && q.cert.role.Absent?
    requires n <= |MixingRun(node, q)|
    ensures At(MixingRun(node, q), n) == MixingSystem(node, q, n)
  {
    if n > 0 {
      MixingStates(node, q, n - 1);
      AtNext(MixingRun(node, q), n - 1);
      if n <= 3 {
        MixingSetup(node, q, n - 1);
      } else if n <= 6 {
        MixingReads(node, q, n - 1);
      } else if n <= 8 {
        MixingRemovals(node, q, n - 1);
      } else {
        MixingAnswer(node, q);
      }
    }
  }

  lemma NoMomentGrants(node: CString, q: Question, n: nat)
    requires IsValidQuestion(q) && NamesNode(q.cert, node) && q.cert.role.Absent?
    requires n <= |MixingRun(node, q)|
    ensures !IsDecisionAt(MixingRun(node, q), n, q, Success)
    ensures IsRunning(MixingRun(node, q), n, 0) ==> At(MixingRun(node, q), n).shared.enabled
  {
    MixingStates(node, q, n);
    var rules := At(MixingRun(node, q), n).shared.rules.rules;
    if 3 <= n <= 6 {
      MasterIsDenied(node, q);
    } else {
      UnknownWithoutRole(q, node, rules);
    }
  }

  lemma MixingRunMixes(node: CString, q: Question)
    requires IsValidQuestion(q) && NamesNode(q.cert, node) && q.cert.role.Absent?
    ensures MixesStates(MixingRun(node, q), 0, q) && FlagStaysSet(MixingRun(node, q), 0)
  {
    var events := MixingRun(node, q);
    MixingStates(node, q, |events|);
    assert events[..|events|] == events;
    assert Run(events).checks[0] == Check(q, Done(Success));
    forall n: nat | n <= |events|
      ensures !IsDecisionAt(events, n, q, Success)
      ensures IsRunning(events, n, 0) ==> At(events, n).shared.enabled
    {
      NoMomentGrants(node, q, n);
    }
  }

  /** With the engine left on, the certificate alone tells which checks may answer what no
      moment decides: those of a named node whose role is left to the map. */
  lemma MixesWithFlagSetExactly(q: Question)
    ensures (exists events, id :: MixesStates(events, id, q) && FlagStaysSet(events, id))
            <==> IsValidQuestion(q) && LeavesRoleToMap(q.cert)
  {
    if IsValidQuestion(q) && LeavesRoleToMap(q.cert) {
      var node :| NamesNode(q.cert, node);
      MixingRunMixes(node, q);
    } else {
      forall events, id | FlagStaysSet(events, id)
        ensures !MixesStates(events, id, q)
      {
        if !IsValidQuestion(q) {
          InvalidQuestionsNeverMix(events, id, q);
        } else if IsFinished(events, id, q) {
          FixedRoleChecksAreAtomic(events, id, q);
        }
      }
    }
  }

  // ---------------------------------------------------------------- switching the engine off

  // The node has a role, the map is frozen, and a check finds the engine on. Then the engine is
  // switched off and a rule against the default of the role is added.
  function ToggledRun(node: CString, role: Role, q: Question, effect: Effect): seq<Event> {
    [
      SetRoleEvent(node, role),
      Handshake(Success),
      Enable(true),
      Begin(0, q),
      ReadEnabled(0),
      Enable(false),
      AddRuleEvent(node, q.target, q.resourceType, q.action, if effect == Allow then 0 else 1),
      ReadRole(0),
      ReadRules(0)]
  }

  function AnswerOf(effect: Effect): Status {
    if effect == Allow then Success else RbacDenied
  }

  /** The system at each point of that run. */
  function ToggledSystem(node: CString, role: Role, q: Question, effect: Effect, n: nat): System {
    System(
      Shared(
        if n <= 6 then EmptyStore else OneRuleStore(node, q, effect),
        if n == 0 then EmptyRoles else RoleOnly(node, role, n >= 2),
        3 <= n <= 5),
      if n <= 3 then map[]
      else map[0 := Check(q,
        if n == 4 then Begun
        else if n <= 7 then EnabledRead
        else if n == 8 then RoleRead(Identity(node, role))
        else Done(AnswerOf(effect)))])
  }

  /** The question is valid, and its certificate spells the role or leaves it to the map. */
  ghost predicate MayHaveRole(q: Question, node: CString, role: Role) {
    && IsValidQuestion(q) && NamesNode(q.cert, node) && IsValidRole(role)
    && (q.cert.role.Absent? || (q.cert.role.Present? && SpellsRole(q.cert.role.value, role)))
  }

  lemma RoleResolves(node: CString, role: Role, q: Question)
    requires MayHaveRole(q, node, role)
    ensures ResolveLocalIdentity(RoleOnly(node, role, true), q.cert) == Ok(Identity(node, role))
  {
    IdentityExactly(RoleOnly(node, role, true), q.cert, node, role);
  }

  lemma OneRuleAnswers(node: CString, role: Role, q: Question, effect: Effect)
    requires IsValidQuestion(q)
    ensures RulePermission(OneRuleStore(node, q, effect).rules, Identity(node, role), q) == AnswerOf(effect)
  {
    ExactRuleDecides(OneRuleStore(node, q, effect).rules, 1, RequestOf(q, node));
  }

  lemma ToggledStart(node: CString, role: Role, q: Question, effect: Effect, n: nat)
    requires MayHaveRole(q, node, role) && n < 6
    ensures Step(ToggledSystem(node, role, q, effect, n), ToggledRun(node, role, q, effect)[n])
            == ToggledSystem(node, role, q, effect, n + 1)
  {
    if n == 0 {
      assert SetRole(EmptyRoles, node, role).0 == RoleOnly(node, role, false);
    }
  }

  lemma ToggledAdd(node: CString, role: Role, q: Question, effect: Effect)
    requires IsValidQuestion(q) && NamesNode(q.cert, node)
    ensures Step(ToggledSystem(node, role, q, effect, 6), ToggledRun(node, role, q, effect)[6])
            == ToggledSystem(node, role, q, effect, 7)
  {
    OnlyRule(q, node, effect);
  }

  lemma ToggledReads(node: CString, role: Role, q: Question, effect: Effect, n: nat)
    requires MayHaveRole(q, node, role) && 7 <= n < 9
    ensures Step(ToggledSystem(node, role, q, effect, n), ToggledRun(node, role, q, effect)[n])
            == ToggledSystem(node, role, q, effect, n + 1)
  {
    RoleResolves(node, role, q);
    OneRuleAnswers(node, role, q, effect);
  }

  lemma {:induction false} ToggledStates(node: CString, role: Role, q: Question, effect: Effect, n: nat)
    requires MayHaveRole(q, node, role)
    requires n <= |ToggledRun(node, role, q, effect)|
    ensures At(ToggledRun(node, role, q, effect), n) == ToggledSystem(node, role, q, effect, n)
  {
    if n > 0 {
      ToggledStates(node, role, q, effect, n - 1);
      AtNext(ToggledRun(node, role, q, effect), n - 1);
      if n <= 6 {
        ToggledStart(node, role, q, effect, n - 1);
      } else if n == 7 {
        ToggledAdd(node, role, q, effect);
      } else {
        ToggledReads(node, role, q, effect, n - 1);
      }
    }
  }

  /** While the engine is on there is no rule, so the default answers. */
  lemma NoMomentAnswersSo(node: CString, role: Role, q: Question, effect: Effect, n: nat)
    requires MayHaveRole(q, node, role)
    requires DefaultPermission(role, node, q.target) != AnswerOf(effect)
    requires n <= |ToggledRun(node, role, q, effect)|
    ensures !IsDecisionAt(ToggledRun(node, role, q, effect), n, q, AnswerOf(effect))
    ensures IsRunning(ToggledRun(node, role, q, effect), n, 0) ==>
            At(ToggledRun(node, role, q, effect), n).shared.roles.frozen
  {
    ToggledStates(node, role, q, effect, n);
    RoleResolves(node, role, q);
    assert RuleVerdict(map[], RequestOf(q, node)) == NoMatch;
  }

  lemma ToggledRunMixes(node: CString, role: Role, q: Question)
    requires MayHaveRole(q, node, role)
    ensures exists events, id :: MixesStates(events, id, q) && IsFrozenFor(events, id)
  {
    var effect := if DefaultPermission(role, node, q.target) == Success then Deny else Allow;
    var events := ToggledRun(node, role, q, effect);
    ToggledStates(node, role, q, effect, |events|);
    assert events[..|events|] == events;
    assert Run(events).checks[0] == Check(q, Done(AnswerOf(effect)));
    forall n: nat | n <= |events|
      ensures !IsDecisionAt(events, n, q, AnswerOf(effect))
      ensures IsRunning(events, n, 0) ==> At(events, n).shared.roles.frozen
    {
      NoMomentAnswersSo(node, role, q, effect, n);
    }
    assert MixesStates(events, 0, q) && IsFrozenFor(events, 0);
  }

  /** In all runs, those that switch the engine off included, a check may answer what no
      moment decides exactly when its certificate can resolve at all: it names its node and
      spells a role or leaves it to the map. The freeze makes no difference to that. Every
      other check is atomic. */
  lemma MixesExactly(q: Question)
    ensures (exists events, id :: MixesStates(events, id, q)) <==> IsValidQuestion(q) && MayResolve(q.cert)
    ensures (exists events, id :: MixesStates(events, id, q) && IsFrozenFor(events, id))
            <==> IsValidQuestion(q) && MayResolve(q.cert)
  {
    if IsValidQuestion(q) && MayResolve(q.cert) {
      var node :| NamesNode(q.cert, node);
      var role :| IsValidRole(role) && (q.cert.role.Present? ==> SpellsRole(q.cert.role.value, role));
      ToggledRunMixes(node, role, q);
    } else {
      forall events, id
        ensures !MixesStates(events, id, q)
      {
        if !IsValidQuestion(q) {
          InvalidQuestionsNeverMix(events, id, q);
        } else if IsFinished(events, id, q) {
          UnresolvableChecksAreAtomic(events, id, q);
        }
      }
    }
  }

  /** Such a question exists, and the engine need not be switched off. */
  lemma UnfrozenCheckMayMixStates()
    ensures exists events, id, q :: IsValidQuestion(q) && MixesStates(events, id, q) && FlagStaysSet(events, id)
  {
    var q := Question(Cert(Present("a"), Absent), "b", RES_TYPE_FD, RES_ACTION_APPLY);
    assert "a"[0] != '*' && "b"[0] != '*';
    assert NamesNode(q.cert, "a");
    MixesWithFlagSetExactly(q);
  }
}
