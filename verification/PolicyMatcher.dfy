/** The rule scan. One pass keeps the most specific match, with Deny winning
    ties; its specification mentions no order. */
module PolicyMatcher {
  import opened Common
  import opened RbacTypes

  type RuleMap = map<U32, Rule>

  predicate IsRuleMatched(rule: Rule, request: Request) {
    && rule.subjectNodeId == request.subjectNodeId
    && (rule.targetNodeId == request.targetNodeId || rule.targetNodeId == "*")
    && rule.resourceTypeBitmap & request.resourceType != 0
    && rule.actionBitmap & request.action != 0
  }

  // One point for matching at all, one more for each field named exactly.
  function GetMatchPriority(rule: Rule, request: Request): (priority: U32) {
    1
    + (if rule.targetNodeId == request.targetNodeId then 1 else 0)
    + (if rule.resourceTypeBitmap == request.resourceType then 1 else 0)
    + (if rule.actionBitmap == request.action then 1 else 0)
  }

  predicate ShouldReplaceMatch(priority: U32, effect: Effect, highestPriority: U32) {
    priority > highestPriority || (priority == highestPriority && effect == Deny)
  }

  // ---------------------------------------------------------------- specification

  ghost predicate SomeMatch(rules: RuleMap, request: Request) {
    exists id :: id in rules && IsRuleMatched(rules[id], request)
  }

  /** The rule matches and no matching rule is more specific. */
  ghost predicate IsTopMatch(rules: RuleMap, id: U32, request: Request) {
    && id in rules
    && IsRuleMatched(rules[id], request)
    && forall other :: other in rules && IsRuleMatched(rules[other], request)
         ==> GetMatchPriority(rules[other], request) <= GetMatchPriority(rules[id], request)
  }

  ghost predicate SomeTopDeny(rules: RuleMap, request: Request) {
    exists id :: IsTopMatch(rules, id, request) && rules[id].effect == Deny
  }

  datatype Verdict = NoMatch | Matched(effect: Effect)

  ghost function RuleVerdict(rules: RuleMap, request: Request): Verdict {
    if !SomeMatch(rules, request) then NoMatch
    else if SomeTopDeny(rules, request) then Matched(Deny)
    else Matched(Allow)
  }

  /** `order` lists the keys of a container, each once: one possible iteration of it. */
  ghost predicate IsIteration<K(!new)>(order: seq<K>, keys: set<K>) {
    && (forall k :: k in keys <==> k in order)
    && (forall i, j :: 0 <= i < j < |order| ==> order[i] != order[j])
  }

  // ---------------------------------------------------------------- the scan

  /** What the scan knows after visiting the rules in `seen`: nothing matched yet, or
      `best` is a most specific match so far and Deny has won every tie. */
  ghost predicate ScanState(rules: RuleMap, seen: set<U32>, request: Request,
    highestPriority: U32, effect: Effect, best: U32)
  {
    && seen <= rules.Keys
    && (highestPriority > 0 ==>
          && best in seen
          && IsRuleMatched(rules[best], request)
          && GetMatchPriority(rules[best], request) == highestPriority
          && rules[best].effect == effect)
    && (forall id :: id in seen && IsRuleMatched(rules[id], request) ==> !Beats(rules[id], request, highestPriority, effect))
  }

  predicate Beats(rule: Rule, request: Request, highestPriority: U32, effect: Effect) {
    var priority := GetMatchPriority(rule, request);
    priority > highestPriority || (priority == highestPriority && rule.effect == Deny && effect != Deny)
  }

  lemma ScanStep(rules: RuleMap, seen: set<U32>, request: Request,
    highestPriority: U32, effect: Effect, best: U32, next: U32)
    requires ScanState(rules, seen, request, highestPriority, effect, best)
    requires next in rules
    ensures var rule := rules[next];
            var priority := GetMatchPriority(rule, request);
            if IsRuleMatched(rule, request) && ShouldReplaceMatch(priority, rule.effect, highestPriority)
            then ScanState(rules, seen + {next}, request, priority, rule.effect, next)
            else ScanState(rules, seen + {next}, request, highestPriority, effect, best)
  {
  }

  method MatchPolicyRule(rules: RuleMap, order: seq<U32>, request: Request, before: Effect)
    returns (matched: bool, effect: Effect)
    requires IsIteration(order, rules.Keys)
    ensures matched <==> SomeMatch(rules, request)
    ensures matched ==> (effect == Deny <==> SomeTopDeny(rules, request))
    ensures !matched ==> effect == before
    ensures matched ==> RuleVerdict(rules, request) == Matched(effect)
  {
    effect := before;
    var highestPriority: U32 := 0;
    ghost var seen: set<U32> := {};
    ghost var best: U32 := 0;
    for n := 0 to |order|
      invariant highestPriority == 0 ==> effect == before
      invariant forall i :: 0 <= i < n ==> order[i] in seen
      invariant ScanState(rules, seen, request, highestPriority, effect, best)
    {
      var rule := rules[order[n]];
      ScanStep(rules, seen, request, highestPriority, effect, best, order[n]);
      seen := seen + {order[n]};
      if IsRuleMatched(rule, request) {
        var priority := GetMatchPriority(rule, request);
        if ShouldReplaceMatch(priority, rule.effect, highestPriority) {
          highestPriority, effect, best := priority, rule.effect, order[n];
        }
      }
    }
    matched := highestPriority != 0;
    assert seen == rules.Keys;
    FullScanIsVerdict(rules, request, highestPriority, effect, best);
  }

  lemma FullScanIsVerdict(rules: RuleMap, request: Request, highestPriority: U32, effect: Effect, best: U32)
    requires ScanState(rules, rules.Keys, request, highestPriority, effect, best)
    ensures highestPriority != 0 <==> SomeMatch(rules, request)
    ensures highestPriority != 0 ==> (effect == Deny <==> SomeTopDeny(rules, request))
  {
  }

  // ---------------------------------------------------------------- facts about verdicts

  /** In a finite map some matching rule is at least as specific as all others. */
  lemma {:induction false} TopMatchExists(rules: RuleMap, request: Request)
    requires SomeMatch(rules, request)
    ensures exists id :: IsTopMatch(rules, id, request)
  {
    var start :| start in rules && IsRuleMatched(rules[start], request);
    Climb(rules, start, request);
  }

  lemma {:induction false} Climb(rules: RuleMap, id: U32, request: Request)
    requires id in rules && IsRuleMatched(rules[id], request)
    ensures exists top :: IsTopMatch(rules, top, request)
    decreases 4 - GetMatchPriority(rules[id], request)
  {
    if !IsTopMatch(rules, id, request) {
      var other :| other in rules && IsRuleMatched(rules[other], request)
        && GetMatchPriority(rules[other], request) > GetMatchPriority(rules[id], request);
      Climb(rules, other, request);
    }
  }

  predicate IsSameButId(a: Rule, b: Rule) {
    IsSamePolicyRuleKey(a, b) && a.effect == b.effect
  }

  ghost predicate HasRule(rules: RuleMap, rule: Rule) {
    exists id :: id in rules && IsSameButId(rules[id], rule)
  }

  /** `strict` has every Deny rule of `lax`, and `lax` every Allow rule of `strict`.
      Ids are free to differ. */
  ghost predicate IsStricter(strict: RuleMap, lax: RuleMap) {
    && (forall id :: id in lax && lax[id].effect == Deny ==> HasRule(strict, lax[id]))
    && (forall id :: id in strict && strict[id].effect == Allow ==> HasRule(lax, strict[id]))
  }

  lemma TwinsMatchAlike(a: Rule, b: Rule, request: Request)
    requires IsSameButId(a, b)
    ensures IsRuleMatched(a, request) ==> IsRuleMatched(b, request)
  {
  }

  lemma TwinsRankAlike(a: Rule, b: Rule, request: Request)
    requires IsSameButId(a, b)
    ensures GetMatchPriority(a, request) == GetMatchPriority(b, request)
  {
    assert a.(ruleId := b.ruleId) == b;
  }

  /** A Deny rule that tops the relaxed map already topped the stricter one, which has it
      too, unless nothing there allowed the request. */
  lemma TopDenyComesFromStrict(strict: RuleMap, lax: RuleMap, request: Request, top: U32, d: U32)
    requires IsStricter(strict, lax)
    requires IsTopMatch(strict, top, request) && strict[top].effect == Allow
    requires IsTopMatch(lax, d, request) && lax[d].effect == Deny
    ensures SomeTopDeny(strict, request)
  {
    var twin :| twin in lax && IsSameButId(lax[twin], strict[top]);
    TwinsMatchAlike(strict[top], lax[twin], request);
    TwinsRankAlike(strict[top], lax[twin], request);
    var e :| e in strict && IsSameButId(strict[e], lax[d]);
    TwinsMatchAlike(lax[d], strict[e], request);
    TwinsRankAlike(lax[d], strict[e], request);
    assert IsTopMatch(strict, e, request);
  }

  lemma AllowHasTwin(strict: RuleMap, lax: RuleMap, request: Request, top: U32)
    requires IsStricter(strict, lax)
    requires top in strict && strict[top].effect == Allow && IsRuleMatched(strict[top], request)
    ensures SomeMatch(lax, request)
  {
    var twin :| twin in lax && IsSameButId(lax[twin], strict[top]);
    TwinsMatchAlike(strict[top], lax[twin], request);
  }

  /** A request that a stricter map allows by rule stays allowed by rule when it is relaxed. */
  lemma RelaxingKeepsAllow(strict: RuleMap, lax: RuleMap, request: Request)
    requires IsStricter(strict, lax)
    requires RuleVerdict(strict, request) == Matched(Allow)
    ensures RuleVerdict(lax, request) == Matched(Allow)
  {
    TopMatchExists(strict, request);
    var top :| IsTopMatch(strict, top, request);
    assert strict[top].effect == Allow;
    AllowHasTwin(strict, lax, request, top);
    if SomeTopDeny(lax, request) {
      var d :| IsTopMatch(lax, d, request) && lax[d].effect == Deny;
      TopDenyComesFromStrict(strict, lax, request, top, d);
    }
  }

  /** A request on which a stricter map is silent is not denied by rule when it is relaxed. */
  lemma RelaxingNeverDenies(strict: RuleMap, lax: RuleMap, request: Request)
    requires IsStricter(strict, lax)
    requires RuleVerdict(strict, request) == NoMatch
    ensures RuleVerdict(lax, request) != Matched(Deny)
  {
    forall d | d in lax && lax[d].effect == Deny
      ensures !IsRuleMatched(lax[d], request)
    {
      var e :| e in strict && IsSameButId(strict[e], lax[d]);
      if IsRuleMatched(lax[d], request) {
        TwinsMatchAlike(lax[d], strict[e], request);
      }
    }
  }

  /** No two stored rules have the same key. */
  ghost predicate KeysDistinct(rules: RuleMap) {
    forall a, b {:trigger IsSamePolicyRuleKey(rules[a], rules[b])} ::
      a in rules && b in rules && IsSamePolicyRuleKey(rules[a], rules[b]) ==> a == b
  }

  ghost predicate NamesExactly(rule: Rule, request: Request) {
    && rule.subjectNodeId == request.subjectNodeId
    && rule.targetNodeId == request.targetNodeId
    && rule.resourceTypeBitmap == request.resourceType
    && rule.actionBitmap == request.action
  }

  // ---------------------------------------------------------------- what matching and ranking mean

  /** The rule is about this subject, target, type and action. */
  predicate Concerns(rule: Rule, subject: CString, target: CString, resourceType: bv32, action: bv32) {
    && rule.subjectNodeId == subject
    && (rule.targetNodeId == target || rule.targetNodeId == "*")
    && IncludesType(rule.resourceTypeBitmap, resourceType)
    && IncludesAction(rule.actionBitmap, action)
  }

  lemma TypesOverlapExactly(bitmap: bv32, resourceType: bv32)
    requires IsTypeSet(bitmap) && resourceType in {1, 2, 4}
    ensures bitmap & resourceType != 0 <==> IncludesType(bitmap, resourceType)
  {
  }

  lemma ActionsOverlapExactly(bitmap: bv32, action: bv32)
    requires IsActionSet(bitmap) && action in {1, 2}
    ensures bitmap & action != 0 <==> IncludesAction(bitmap, action)
  {
  }

  lemma MatchedExactly(rule: Rule, subject: CString, target: CString, resourceType: bv32, action: bv32)
    requires IsValidRuleKey(rule) && IsValidTarget(target, resourceType, action)
    ensures IsRuleMatched(rule, Request(subject, target, resourceType, action))
            <==> Concerns(rule, subject, target, resourceType, action)
  {
    ValidityExactly(rule, target, resourceType, action);
    TypesOverlapExactly(rule.resourceTypeBitmap, resourceType);
    ActionsOverlapExactly(rule.actionBitmap, action);
  }

  datatype Field = TargetField | TypeField | ActionField

  /** The fields in which the rule names exactly what is requested. */
  function ExactFields(rule: Rule, request: Request): set<Field> {
    (if rule.targetNodeId == request.targetNodeId then {TargetField} else {})
    + (if rule.resourceTypeBitmap == request.resourceType then {TypeField} else {})
    + (if rule.actionBitmap == request.action then {ActionField} else {})
  }

  lemma PriorityCountsFields(rule: Rule, request: Request)
    ensures GetMatchPriority(rule, request) == 1 + |ExactFields(rule, request)|
  {
    var target := if rule.targetNodeId == request.targetNodeId then {TargetField} else {};
    var types := if rule.resourceTypeBitmap == request.resourceType then {TypeField} else {};
    var actions := if rule.actionBitmap == request.action then {ActionField} else {};
    assert target !! types && (target + types) !! actions;
    assert |target + types| == |target| + |types|;
  }

  /** The rule matches, and no matching rule names more fields exactly. */
  ghost predicate NamesMost(rules: RuleMap, id: U32, request: Request) {
    && id in rules && IsRuleMatched(rules[id], request)
    && forall other :: other in rules && IsRuleMatched(rules[other], request)
         ==> |ExactFields(rules[other], request)| <= |ExactFields(rules[id], request)|
  }

  lemma TopNamesMost(rules: RuleMap, id: U32, request: Request)
    ensures IsTopMatch(rules, id, request) <==> NamesMost(rules, id, request)
  {
    forall other | other in rules
      ensures GetMatchPriority(rules[other], request) == 1 + |ExactFields(rules[other], request)|
    {
      PriorityCountsFields(rules[other], request);
    }
  }

  /** Some rule that names the most fields has this effect. */
  ghost predicate MostExactSay(rules: RuleMap, request: Request, effect: Effect) {
    exists id :: NamesMost(rules, id, request) && rules[id].effect == effect
  }

  lemma TopsSayTheSame(rules: RuleMap, request: Request, effect: Effect)
    ensures MostExactSay(rules, request, effect) <==>
            exists id :: IsTopMatch(rules, id, request) && rules[id].effect == effect
  {
    if id :| NamesMost(rules, id, request) && rules[id].effect == effect {
      TopNamesMost(rules, id, request);
    }
    if id :| IsTopMatch(rules, id, request) && rules[id].effect == effect {
      TopNamesMost(rules, id, request);
    }
  }

  lemma SomeTopSays(rules: RuleMap, request: Request)
    requires SomeMatch(rules, request)
    ensures MostExactSay(rules, request, Allow) || MostExactSay(rules, request, Deny)
  {
    TopMatchExists(rules, request);
    var id :| IsTopMatch(rules, id, request);
    TopNamesMost(rules, id, request);
    assert rules[id].effect == Allow || rules[id].effect == Deny;
  }

  /** Among the matching rules, those that name the most fields exactly decide: they deny if
      one of them denies, and allow otherwise. */
  lemma VerdictByFields(rules: RuleMap, request: Request)
    ensures RuleVerdict(rules, request) == Matched(Deny) <==> MostExactSay(rules, request, Deny)
    ensures RuleVerdict(rules, request) == Matched(Allow) <==>
            MostExactSay(rules, request, Allow) && !MostExactSay(rules, request, Deny)
    ensures RuleVerdict(rules, request) == NoMatch <==>
            !MostExactSay(rules, request, Allow) && !MostExactSay(rules, request, Deny)
  {
    TopsSayTheSame(rules, request, Deny);
    TopsSayTheSame(rules, request, Allow);
    if SomeMatch(rules, request) {
      SomeTopSays(rules, request);
    }
  }

  /** A matching rule that names more fields exactly than every other one decides alone. */
  lemma MostExactRuleDecides(rules: RuleMap, id: U32, request: Request)
    requires id in rules && IsRuleMatched(rules[id], request)
    requires forall other :: other in rules && other != id && IsRuleMatched(rules[other], request)
               ==> |ExactFields(rules[other], request)| < |ExactFields(rules[id], request)|
    ensures RuleVerdict(rules, request) == Matched(rules[id].effect)
  {
    assert NamesMost(rules, id, request);
    VerdictByFields(rules, request);
  }

  /** Where keys are distinct, at most one matching rule reaches priority 4, and a
      rule that names the request exactly decides it whatever else is stored. */
  lemma ExactRuleDecides(rules: RuleMap, id: U32, request: Request)
    requires KeysDistinct(rules)
    requires id in rules && NamesExactly(rules[id], request)
    requires request.resourceType != 0 && request.action != 0
    ensures RuleVerdict(rules, request) == Matched(rules[id].effect)
    ensures forall other ::
              (other in rules && IsRuleMatched(rules[other], request)
                && GetMatchPriority(rules[other], request) == 4) ==> other == id
  {
    assert IsRuleMatched(rules[id], request) by {
      assert request.resourceType & request.resourceType == request.resourceType;
      assert request.action & request.action == request.action;
    }
    assert GetMatchPriority(rules[id], request) == 4;
    assert IsTopMatch(rules, id, request);
    forall other | other in rules && IsRuleMatched(rules[other], request)
        && GetMatchPriority(rules[other], request) == 4
      ensures other == id
    {
      assert IsSamePolicyRuleKey(rules[other], rules[id]);
    }
  }
}
