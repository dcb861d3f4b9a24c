/** The whole permission check as one function of the state, its declarative
    meaning, and how it responds to changes of the rules. */
module RbacDecision {
  import opened Common
  import opened RbacTypes
  import opened PolicyMatcher
  import opened RuleStore
  import opened RoleMap

  datatype Question = Question(cert: Cert, target: CString, resourceType: bv32, action: bv32)

  function RequestOf(q: Question, localNodeId: CString): Request {
    Request(localNodeId, q.target, q.resourceType, q.action)
  }

  predicate IsValidQuestion(q: Question) {
    IsValidTarget(q.target, q.resourceType, q.action)
  }

  datatype Identity = Identity(nodeId: CString, role: Role)

  function ResolveLocalIdentity(m: Roles, cert: Cert): Result<Identity> {
    match GetCertNodeId(cert, MAX_NODE_ID_LEN)
    case Err(status) => Err(status)
    case Ok(nodeId) =>
      match GetNodeRbacRole(m, Some(cert), None)
      case Err(status) => Err(status)
      case Ok(answer) => Ok(Identity(nodeId, answer.role))
  }

  function DefaultPermission(role: Role, localNodeId: CString, targetNodeId: CString): Status {
    if role == Master then Success
    else if role == Slave && localNodeId == targetNodeId then Success
    else if role == Slave then RbacDenied
    else RbacRoleUnknown
  }

  ghost function RulePermission(rules: RuleMap, who: Identity, q: Question): Status {
    match RuleVerdict(rules, RequestOf(q, who.nodeId))
    case Matched(effect) => if effect == Allow then Success else RbacDenied
    case NoMatch => DefaultPermission(who.role, who.nodeId, q.target)
  }

  /** The atomic decision on one flag, one role map and one rule map. */
  ghost function Decide(enabled: bool, m: Roles, rules: RuleMap, q: Question): Status {
    if !IsValidQuestion(q) then InvalidParam
    else if !enabled then RbacDisabled
    else
      match ResolveLocalIdentity(m, q.cert)
      case Err(status) => status
      case Ok(who) => RulePermission(rules, who, q)
  }

  // ---------------------------------------------------------------- meaning

  /** A most specific matching rule allows, and none of them denies. */
  ghost predicate RulesAllow(rules: RuleMap, r: Request) {
    && (exists id :: IsTopMatch(rules, id, r) && rules[id].effect == Allow)
    && !(exists id :: IsTopMatch(rules, id, r) && rules[id].effect == Deny)
  }

  ghost predicate RulesSilent(rules: RuleMap, r: Request) {
    forall id :: id in rules ==> !IsRuleMatched(rules[id], r)
  }

  /** The node has a role, and the rules allow the request or leave it to a role that may. */
  ghost predicate IsEntitled(m: Roles, rules: RuleMap, q: Question, id: CString, role: Role) {
    && NamesNode(q.cert, id)
    && HasRole(m, q.cert, id, role)
    && (|| RulesAllow(rules, RequestOf(q, id))
        || (RulesSilent(rules, RequestOf(q, id)) && (role == Master || id == q.target)))
  }

  lemma VerdictMeaning(rules: RuleMap, r: Request)
    ensures RuleVerdict(rules, r) == Matched(Allow) <==> RulesAllow(rules, r)
    ensures RuleVerdict(rules, r) == NoMatch <==> RulesSilent(rules, r)
  {
    if SomeMatch(rules, r) {
      TopMatchExists(rules, r);
      var id :| IsTopMatch(rules, id, r);
      assert rules[id].effect == Deny || rules[id].effect == Allow;
    }
  }

  lemma IdentityExactly(m: Roles, cert: Cert, id: CString, role: Role)
    requires ValidRoles(m)
    ensures ResolveLocalIdentity(m, cert) == Ok(Identity(id, role))
            <==> NamesNode(cert, id) && HasRole(m, cert, id, role)
  {
    CertNodeIdExactly(cert, id);
    if NamesNode(cert, id) {
      LookupExactly(m, cert, id, role);
    }
  }

  lemma ResolvedRoleIsNamed(m: Roles, cert: Cert)
    requires ValidRoles(m)
    ensures ResolveLocalIdentity(m, cert).Ok? ==>
              var who := ResolveLocalIdentity(m, cert).value;
              IsValidRole(who.role) && NamesNode(cert, who.nodeId) && HasRole(m, cert, who.nodeId, who.role)
  {
    if ResolveLocalIdentity(m, cert).Ok? {
      var who := ResolveLocalIdentity(m, cert).value;
      IdentityExactly(m, cert, who.nodeId, who.role);
      LookupExactly(m, cert, who.nodeId, who.role);
    }
  }

  /** A check succeeds exactly for valid questions, with the engine enabled, whose
      certificate names a node that has a role and is entitled. */
  lemma GrantedExactly(enabled: bool, m: Roles, rules: RuleMap, q: Question)
    requires ValidRoles(m)
    ensures Decide(enabled, m, rules, q) == Success <==>
            && IsValidQuestion(q) && enabled
            && exists id, role :: IsEntitled(m, rules, q, id, role)
  {
    ResolvedRoleIsNamed(m, q.cert);
    if Decide(enabled, m, rules, q) == Success {
      var who := ResolveLocalIdentity(m, q.cert).value;
      VerdictMeaning(rules, RequestOf(q, who.nodeId));
      assert IsEntitled(m, rules, q, who.nodeId, who.role);
    }
    forall id, role | IsValidQuestion(q) && enabled && IsEntitled(m, rules, q, id, role)
      ensures Decide(enabled, m, rules, q) == Success
    {
      IdentityExactly(m, q.cert, id, role);
      LookupExactly(m, q.cert, id, role);
      VerdictMeaning(rules, RequestOf(q, id));
    }
  }

  /** An unknown role is reported exactly when the certificate names a node, says
      nothing about a role, and the map has no entry for it. The default policy itself
      never answers that the role is unknown. */
  lemma UnknownRoleExactly(m: Roles, rules: RuleMap, q: Question)
    requires ValidRoles(m) && IsValidQuestion(q)
    ensures Decide(true, m, rules, q) == RbacRoleUnknown <==>
            q.cert.role.Absent? && exists id :: NamesNode(q.cert, id) && id !in m.roles
    ensures ResolveLocalIdentity(m, q.cert).Ok? ==>
            RulePermission(rules, ResolveLocalIdentity(m, q.cert).value, q) in {Success, RbacDenied}
  {
    ResolvedRoleIsNamed(m, q.cert);
    forall id | NamesNode(q.cert, id)
      ensures GetCertNodeId(q.cert, MAX_NODE_ID_LEN) == Ok(id)
    {
      CertNodeIdExactly(q.cert, id);
    }
    match GetCertNodeId(q.cert, MAX_NODE_ID_LEN)
    case Ok(id) => CertNodeIdExactly(q.cert, id);
    case Err(_) =>
  }

  // ---------------------------------------------------------------- every answer

  /** The target is a node name, and the type and the action are single ones. */
  predicate IsProperQuestion(q: Question) {
    IsNodeName(q.target) && q.resourceType in {1, 2, 4} && q.action in {1, 2}
  }

  predicate ConcernsAsked(rule: Rule, node: CString, q: Question) {
    Concerns(rule, node, q.target, q.resourceType, q.action)
  }

  /** How many of target, type and action the rule names exactly. */
  function Exactness(rule: Rule, q: Question): nat {
    |ExactFields(rule, Request("", q.target, q.resourceType, q.action))|
  }

  /** The rule is about the question, and as exact as any other rule about it. */
  ghost predicate IsMostExact(rules: RuleMap, id: U32, node: CString, q: Question) {
    && id in rules && ConcernsAsked(rules[id], node, q)
    && forall other :: other in rules && ConcernsAsked(rules[other], node, q)
         ==> Exactness(rules[other], q) <= Exactness(rules[id], q)
  }

  ghost predicate RulesSay(rules: RuleMap, node: CString, q: Question, effect: Effect) {
    exists id :: IsMostExact(rules, id, node, q) && rules[id].effect == effect
  }

  lemma RuleReadsTheSame(s: Store, id: U32, node: CString, q: Question)
    requires ValidStore(s) && IsValidQuestion(q) && id in s.rules
    ensures IsRuleMatched(s.rules[id], RequestOf(q, node)) <==> ConcernsAsked(s.rules[id], node, q)
    ensures |ExactFields(s.rules[id], RequestOf(q, node))| == Exactness(s.rules[id], q)
  {
    MatchedExactly(s.rules[id], node, q.target, q.resourceType, q.action);
    assert ExactFields(s.rules[id], RequestOf(q, node))
        == ExactFields(s.rules[id], Request("", q.target, q.resourceType, q.action));
  }

  lemma MostExactReadsTheSame(s: Store, id: U32, node: CString, q: Question)
    requires ValidStore(s) && IsValidQuestion(q)
    ensures IsMostExact(s.rules, id, node, q) <==> NamesMost(s.rules, id, RequestOf(q, node))
  {
    forall other | other in s.rules
      ensures IsRuleMatched(s.rules[other], RequestOf(q, node)) <==> ConcernsAsked(s.rules[other], node, q)
      ensures |ExactFields(s.rules[other], RequestOf(q, node))| == Exactness(s.rules[other], q)
    {
      RuleReadsTheSame(s, other, node, q);
    }
  }

  lemma MostExactSpeaks(s: Store, id: U32, node: CString, q: Question)
    requires ValidStore(s) && IsValidQuestion(q) && IsMostExact(s.rules, id, node, q)
    ensures MostExactSay(s.rules, RequestOf(q, node), s.rules[id].effect)
  {
    MostExactReadsTheSame(s, id, node, q);
  }

  lemma NamingMostSpeaks(s: Store, id: U32, node: CString, q: Question)
    requires ValidStore(s) && IsValidQuestion(q) && NamesMost(s.rules, id, RequestOf(q, node))
    ensures RulesSay(s.rules, node, q, s.rules[id].effect)
  {
    MostExactReadsTheSame(s, id, node, q);
  }

  lemma RulesSayExactly(s: Store, node: CString, q: Question, effect: Effect)
    requires ValidStore(s) && IsValidQuestion(q)
    ensures RulesSay(s.rules, node, q, effect) <==> MostExactSay(s.rules, RequestOf(q, node), effect)
  {
    if RulesSay(s.rules, node, q, effect) {
      var id :| IsMostExact(s.rules, id, node, q) && s.rules[id].effect == effect;
      MostExactSpeaks(s, id, node, q);
    } else if MostExactSay(s.rules, RequestOf(q, node), effect) {
      var id :| NamesMost(s.rules, id, RequestOf(q, node)) && s.rules[id].effect == effect;
      NamingMostSpeaks(s, id, node, q);
    }
  }

  /** The rules allow the node's request, or they are silent and its role does. */
  ghost predicate IsAllowed(rules: RuleMap, node: CString, role: Role, q: Question) {
    if RulesSay(rules, node, q, Deny) then false
    else RulesSay(rules, node, q, Allow) || role == Master || node == q.target
  }

  lemma PermissionExactly(s: Store, who: Identity, q: Question)
    requires ValidStore(s) && IsValidQuestion(q) && IsValidRole(who.role)
    ensures RulePermission(s.rules, who, q) == if IsAllowed(s.rules, who.nodeId, who.role, q) then Success else RbacDenied
  {
    RulesSayExactly(s, who.nodeId, q, Allow);
    RulesSayExactly(s, who.nodeId, q, Deny);
    VerdictByFields(s.rules, RequestOf(q, who.nodeId));
  }

  lemma ResolutionExactly(m: Roles, cert: Cert)
    requires ValidRoles(m)
    ensures var r := ResolveLocalIdentity(m, cert);
            var named := exists id :: NamesNode(cert, id);
            var spelled := cert.role.Present? && exists role :: SpellsRole(cert.role.value, role);
            && (r == Err(CertNodeIdAbsent) <==> cert.nodeId.Absent?)
            && (r == Err(ParseCert) <==>
                  (!cert.nodeId.Absent? && !named) || (named && !cert.role.Absent? && !spelled))
            && (r == Err(RbacRoleUnknown) <==>
                  cert.role.Absent? && exists id :: NamesNode(cert, id) && id !in m.roles)
            && (r.Ok? || r in {Err(CertNodeIdAbsent), Err(ParseCert), Err(RbacRoleUnknown)})
  {
    CertNodeIdAnswersExactly(cert, MAX_NODE_ID_LEN);
    CertRoleAnswersExactly(cert);
    if GetCertNodeId(cert, MAX_NODE_ID_LEN).Ok? {
      assert NamesNode(cert, GetCertNodeId(cert, MAX_NODE_ID_LEN).value);
    }
  }

  ghost predicate IsNodeWithRole(m: Roles, cert: Cert, id: CString, role: Role) {
    NamesNode(cert, id) && HasRole(m, cert, id, role)
  }

  /** Every answer of the permission check on a reachable state, in terms of the question, the
      certificate, the stored roles and the stored rules. */
  lemma AnswersExactly(enabled: bool, m: Roles, s: Store, q: Question)
    requires ValidRoles(m) && ValidStore(s)
    ensures var answer := Decide(enabled, m, s.rules, q);
            var asked := IsProperQuestion(q) && enabled;
            var named := exists id :: NamesNode(q.cert, id);
            var spelled := q.cert.role.Present? && exists role :: SpellsRole(q.cert.role.value, role);
            && (answer == InvalidParam <==> !IsProperQuestion(q))
            && (answer == RbacDisabled <==> IsProperQuestion(q) && !enabled)
            && (answer == CertNodeIdAbsent <==> asked && q.cert.nodeId.Absent?)
            && (answer == ParseCert <==>
                  asked && ((!q.cert.nodeId.Absent? && !named) || (named && !q.cert.role.Absent? && !spelled)))
            && (answer == RbacRoleUnknown <==>
                  asked && q.cert.role.Absent? && exists id :: NamesNode(q.cert, id) && id !in m.roles)
            && (answer == Success <==>
                  asked && exists id, role :: IsNodeWithRole(m, q.cert, id, role) && IsAllowed(s.rules, id, role, q))
            && (answer == RbacDenied <==>
                  asked && exists id, role :: IsNodeWithRole(m, q.cert, id, role) && !IsAllowed(s.rules, id, role, q))
  {
    ValidityExactly(Rule(0, "", "", 0, 0, Allow), q.target, q.resourceType, q.action);
    if IsValidQuestion(q) {
      ResolutionExactly(m, q.cert);
      forall id, role
        ensures ResolveLocalIdentity(m, q.cert) == Ok(Identity(id, role))
                <==> IsNodeWithRole(m, q.cert, id, role)
      {
        IdentityExactly(m, q.cert, id, role);
      }
      if ResolveLocalIdentity(m, q.cert).Ok? {
        ResolvedRoleIsNamed(m, q.cert);
        var who := ResolveLocalIdentity(m, q.cert).value;
        assert who == Identity(who.nodeId, who.role);
        PermissionExactly(s, who, q);
      }
    }
  }

  // ---------------------------------------------------------------- rules before roles

  /** The decision as the documentation tells it: for a node that is named, the rules come
      first, and its role only matters when they are silent. */
  ghost function RulesFirst(enabled: bool, m: Roles, rules: RuleMap, q: Question): Status {
    if !IsValidQuestion(q) then InvalidParam
    else if !enabled then RbacDisabled
    else
      match GetCertNodeId(q.cert, MAX_NODE_ID_LEN)
      case Err(status) => status
      case Ok(nodeId) =>
        match RuleVerdict(rules, RequestOf(q, nodeId))
        case Matched(effect) => if effect == Allow then Success else RbacDenied
        case NoMatch => Decide(enabled, m, rules, q)
  }

  /** The code differs exactly for a named node that has no role while a rule matches. */
  lemma RulesFirstDiffersExactly(enabled: bool, m: Roles, rules: RuleMap, q: Question)
    requires ValidRoles(m)
    ensures Decide(enabled, m, rules, q) != RulesFirst(enabled, m, rules, q) <==>
            && IsValidQuestion(q) && enabled
            && exists id :: NamesNode(q.cert, id)
                 && (forall role :: !HasRole(m, q.cert, id, role))
                 && !RulesSilent(rules, RequestOf(q, id))
  {
    var nodeId := GetCertNodeId(q.cert, MAX_NODE_ID_LEN);
    forall id
      ensures nodeId == Ok(id) <==> NamesNode(q.cert, id)
    {
      CertNodeIdExactly(q.cert, id);
    }
    if nodeId.Ok? {
      VerdictMeaning(rules, RequestOf(q, nodeId.value));
      forall role
        ensures ResolveLocalIdentity(m, q.cert) == Ok(Identity(nodeId.value, role))
                <==> HasRole(m, q.cert, nodeId.value, role)
      {
        IdentityExactly(m, q.cert, nodeId.value, role);
      }
      RoleErrorsAreNoVerdicts(m, q.cert);
    }
  }

  lemma RoleErrorsAreNoVerdicts(m: Roles, cert: Cert)
    ensures ResolveLocalIdentity(m, cert).Err? ==> ResolveLocalIdentity(m, cert).status !in {Success, RbacDenied}
    ensures ResolveLocalIdentity(m, cert).Ok? ==>
            GetCertNodeId(cert, MAX_NODE_ID_LEN) == Ok(ResolveLocalIdentity(m, cert).value.nodeId)
  {
  }

  lemma UnknownWithoutRole(q: Question, id: CString, rules: RuleMap)
    requires IsValidQuestion(q) && NamesNode(q.cert, id) && q.cert.role.Absent?
    ensures Decide(true, EmptyRoles, rules, q) == RbacRoleUnknown
  {
    CertNodeIdExactly(q.cert, id);
  }

  /** Every question a nameable node can ask without a role of its own meets the difference:
      with one rule that allows exactly this request and an empty role map, the rules say
      Allow and the check answers that the role is unknown. */
  lemma AllowRuleDoesNotHelp(q: Question, id: CString)
    requires IsValidQuestion(q) && NamesNode(q.cert, id) && q.cert.role.Absent?
    ensures var s := AddRule(EmptyStore, id, q.target, q.resourceType, q.action, 0).store;
            && RuleVerdict(s.rules, RequestOf(q, id)) == Matched(Allow)
            && RulesFirst(true, EmptyRoles, s.rules, q) == Success
            && Decide(true, EmptyRoles, s.rules, q) == RbacRoleUnknown
  {
    var rule := Rule(1, id, q.target, q.resourceType, q.action, Allow);
    OnlyRule(q, id, Allow);
    CertNodeIdExactly(q.cert, id);
    UnknownWithoutRole(q, id, map[1 := rule]);
    ExactRuleDecides(map[1 := rule], 1, RequestOf(q, id));
  }

  /** The first rule ever added, naming the request exactly, is stored under id 1. */
  lemma OnlyRule(q: Question, id: CString, effect: Effect)
    requires IsValidQuestion(q) && NamesNode(q.cert, id)
    ensures var rule := Rule(1, id, q.target, q.resourceType, q.action, effect);
            var code := if effect == Allow then 0 else 1;
            AddRule(EmptyStore, id, q.target, q.resourceType, q.action, code).store == Store(map[1 := rule], 2)
  {
    assert IsValidBitmap(q.resourceType, RES_TYPE_ALL);
    assert IsValidBitmap(q.action, RES_ACTION_APPLY | RES_ACTION_RELEASE);
  }

  // ---------------------------------------------------------------- monotonicity

  /** Relaxing the rules never takes a grant away. */
  lemma DecisionIsMonotone(enabled: bool, m: Roles, strict: RuleMap, lax: RuleMap, q: Question)
    requires IsStricter(strict, lax)
    ensures Decide(enabled, m, strict, q) == Success ==> Decide(enabled, m, lax, q) == Success
  {
    if ResolveLocalIdentity(m, q.cert).Ok? {
      var request := RequestOf(q, ResolveLocalIdentity(m, q.cert).value.nodeId);
      match RuleVerdict(strict, request)
      case Matched(Allow) => RelaxingKeepsAllow(strict, lax, request);
      case Matched(Deny) =>
      case NoMatch => RelaxingNeverDenies(strict, lax, request);
    }
  }

  /** The four single edits: a Deny rule added or an Allow rule removed never grants,
      an Allow rule added or a Deny rule removed never denies. */
  lemma SingleEdits(enabled: bool, m: Roles, s: Store, rule: Rule, id: U32, q: Question)
    requires ValidStore(s)
    ensures var before := Decide(enabled, m, s.rules, q) == Success;
            var added := Decide(enabled, m, InsertRule(s, rule).store.rules, q) == Success;
            var removed := Decide(enabled, m, RemoveRule(s, id).0.rules, q) == Success;
            && (rule.effect == Deny ==> (added ==> before))
            && (rule.effect == Allow ==> (before ==> added))
            && (id in s.rules && s.rules[id].effect == Allow ==> (removed ==> before))
            && (id in s.rules && s.rules[id].effect == Deny ==> (before ==> removed))
  {
    var more := InsertRule(s, rule).store.rules;
    var fewer := RemoveRule(s, id).0.rules;
    AddedRuleOrder(s, rule);
    if rule.effect == Deny {
      DecisionIsMonotone(enabled, m, more, s.rules, q);
    } else {
      DecisionIsMonotone(enabled, m, s.rules, more, q);
    }
    if id in s.rules {
      RemovedRuleOrder(s, id);
      if s.rules[id].effect == Allow {
        DecisionIsMonotone(enabled, m, fewer, s.rules, q);
      } else {
        DecisionIsMonotone(enabled, m, s.rules, fewer, q);
      }
    }
  }

  lemma SubmapIsContained(fewer: RuleMap, more: RuleMap)
    requires forall id :: id in fewer ==> id in more && IsSameButId(more[id], fewer[id])
    ensures forall id :: id in fewer ==> HasRule(more, fewer[id])
  {
  }

  lemma RemovedRuleOrder(s: Store, id: U32)
    requires ValidStore(s) && id in s.rules
    ensures s.rules[id].effect == Allow ==> IsStricter(RemoveRule(s, id).0.rules, s.rules)
    ensures s.rules[id].effect == Deny ==> IsStricter(s.rules, RemoveRule(s, id).0.rules)
  {
    var fewer := RemoveRule(s, id).0.rules;
    SubmapIsContained(fewer, s.rules);
    SubmapIsContained(s.rules - {id}, fewer);
    forall other | other in s.rules && other != id
      ensures HasRule(fewer, s.rules[other])
    {
      assert (s.rules - {id})[other] == s.rules[other];
    }
  }

  lemma AddedRuleOrder(s: Store, rule: Rule)
    requires ValidStore(s)
    ensures rule.effect == Deny ==> IsStricter(InsertRule(s, rule).store.rules, s.rules)
    ensures rule.effect == Allow ==> IsStricter(s.rules, InsertRule(s, rule).store.rules)
  {
    var more := InsertRule(s, rule).store.rules;
    SubmapIsContained(s.rules, more);
    forall id | id in more && more[id].effect != rule.effect
      ensures HasRule(s.rules, more[id])
    {
      assert id in s.rules && IsSameButId(s.rules[id], more[id]);
    }
  }

  /** In a valid store, a rule that names exactly the request of a resolved check
      decides that check. */
  lemma ExactRuleDecidesCheck(m: Roles, s: Store, id: U32, q: Question)
    requires ValidStore(s) && IsValidQuestion(q)
    requires ResolveLocalIdentity(m, q.cert).Ok?
    requires id in s.rules
    requires NamesExactly(s.rules[id], RequestOf(q, ResolveLocalIdentity(m, q.cert).value.nodeId))
    ensures Decide(true, m, s.rules, q) == if s.rules[id].effect == Allow then Success else RbacDenied
  {
    ExactRuleDecides(s.rules, id, RequestOf(q, ResolveLocalIdentity(m, q.cert).value.nodeId));
  }
}
