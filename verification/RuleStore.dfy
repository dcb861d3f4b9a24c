/** The rule map and its id counter as a value, the operations on it, and what
    holds over every run of adds and removes. */
module RuleStore {
  import opened Common
  import opened RbacTypes
  import opened PolicyMatcher

  datatype Store = Store(rules: RuleMap, nextId: U32)

  const EmptyStore := Store(map[], 1)

  datatype AddResult = AddResult(store: Store, status: Status, ruleId: Option<U32>)

  predicate HasDuplicate(rules: RuleMap, rule: Rule) {
    exists id :: id in rules && IsSamePolicyRuleKey(rules[id], rule)
  }

  // A duplicate is reported before a full map, and the effect is not part of the key.
  function InsertRule(s: Store, rule: Rule): AddResult {
    if HasDuplicate(s.rules, rule) then AddResult(s, RbacPolicyDuplicate, None)
    else if |s.rules| >= MAX_POLICY_RULE_SIZE || s.nextId == 0 then AddResult(s, RbacPolicyFull, None)
    else if s.nextId in s.rules then AddResult(s, RbacPolicyFull, None)
    else AddResult(
      Store(s.rules[s.nextId := rule.(ruleId := s.nextId)], if s.nextId == U32_MAX then 0 else s.nextId + 1),
      Success, Some(s.nextId))
  }

  // The effect arrives as a C enumerator: 0 allows, 1 denies, anything else is invalid.
  function AddRule(s: Store, subject: CString, target: CString, types: bv32, actions: bv32, effectCode: int): AddResult {
    var rule := Rule(0, subject, target, types, actions, if effectCode == 0 then Allow else Deny);
    if !IsValidRuleKey(rule) || !(effectCode == 0 || effectCode == 1) then AddResult(s, RbacPolicyInvalid, None)
    else InsertRule(s, rule)
  }

  function RemoveRule(s: Store, ruleId: U32): (Store, Status) {
    if ruleId == 0 then (s, InvalidParam)
    else if ruleId !in s.rules then (s, RbacPolicyNotFound)
    else (s.(rules := s.rules - {ruleId}), Success)
  }

  /** The representation invariant of a reachable store. */
  ghost predicate ValidStore(s: Store) {
    && KeysDistinct(s.rules)
    && |s.rules| <= MAX_POLICY_RULE_SIZE
    && forall id :: id in s.rules ==>
         && id != 0
         && (s.nextId == 0 || id < s.nextId)
         && s.rules[id].ruleId == id
         && IsValidRuleKey(s.rules[id])
  }

  lemma InsertKeepsValid(s: Store, rule: Rule)
    requires ValidStore(s) && IsValidRuleKey(rule)
    ensures ValidStore(InsertRule(s, rule).store)
  {
  }

  lemma AddKeepsValid(s: Store, subject: CString, target: CString, types: bv32, actions: bv32, effectCode: int)
    requires ValidStore(s)
    ensures ValidStore(AddRule(s, subject, target, types, actions, effectCode).store)
  {
    var rule := Rule(0, subject, target, types, actions, if effectCode == 0 then Allow else Deny);
    if IsValidRuleKey(rule) {
      InsertKeepsValid(s, rule);
    }
  }

  lemma RemoveKeepsValid(s: Store, ruleId: U32)
    requires ValidStore(s)
    ensures ValidStore(RemoveRule(s, ruleId).0)
  {
  }

  // ---------------------------------------------------------------- runs

  datatype RuleOp =
    | Add(subject: CString, target: CString, types: bv32, actions: bv32, effectCode: int)
    | Remove(ruleId: U32)

  /** A run remembers every rule it accepted, in order, and every id it removed. */
  datatype History = History(store: Store, issued: seq<Rule>, removed: set<U32>)

  function RecordAdd(h: History, r: AddResult): History
    requires r.ruleId.Some? ==> r.ruleId.value in r.store.rules
  {
    History(r.store,
      if r.ruleId.Some? then h.issued + [r.store.rules[r.ruleId.value]] else h.issued,
      h.removed)
  }

  function RecordRemove(h: History, id: U32): History {
    var (store, status) := RemoveRule(h.store, id);
    History(store, h.issued, if status == Success then h.removed + {id} else h.removed)
  }

  function StepRules(h: History, op: RuleOp): History {
    match op
    case Add(subject, target, types, actions, effectCode) =>
      RecordAdd(h, AddRule(h.store, subject, target, types, actions, effectCode))
    case Remove(id) =>
      RecordRemove(h, id)
  }

  function RunRules(ops: seq<RuleOp>): History {
    if ops == [] then History(EmptyStore, [], {})
    else StepRules(RunRules(ops[..|ops| - 1]), ops[|ops| - 1])
  }

  function IdAfter(issued: nat): int {
    if issued == U32_MAX then 0 else issued + 1
  }

  /** The n-th accepted rule got id n, the counter follows the number of accepted
      rules, and the map is exactly the accepted rules not removed since. */
  ghost predicate ValidHistory(h: History) {
    && ValidStore(h.store)
    && IdsCountUp(h.issued, h.removed)
    && h.store.nextId == IdAfter(|h.issued|)
    && MapFollowsHistory(h.store.rules, h.issued, h.removed)
  }

  ghost predicate IdsCountUp(issued: seq<Rule>, removed: set<U32>) {
    && |issued| <= U32_MAX
    && (forall i :: 0 <= i < |issued| ==> issued[i].ruleId == i + 1)
    && (forall id :: id in removed ==> 1 <= id <= |issued|)
  }

  ghost predicate MapFollowsHistory(rules: RuleMap, issued: seq<Rule>, removed: set<U32>) {
    && (forall id :: id in rules <==> 1 <= id <= |issued| && id !in removed)
    && (forall id :: id in rules ==> rules[id] == issued[id - 1])
  }

  lemma AppendKeepsHistory(rules: RuleMap, issued: seq<Rule>, removed: set<U32>, rule: Rule)
    requires IdsCountUp(issued, removed) && MapFollowsHistory(rules, issued, removed)
    requires |issued| < U32_MAX && rule.ruleId == |issued| + 1
    ensures IdsCountUp(issued + [rule], removed)
    ensures MapFollowsHistory(rules[rule.ruleId := rule], issued + [rule], removed)
  {
  }

  lemma InsertKeepsValidHistory(h: History, rule: Rule)
    requires ValidHistory(h) && IsValidRuleKey(rule)
    ensures ValidHistory(RecordAdd(h, InsertRule(h.store, rule)))
  {
    var r := InsertRule(h.store, rule);
    if r.status == Success {
      InsertKeepsValid(h.store, rule);
      AppendKeepsHistory(h.store.rules, h.issued, h.removed, r.store.rules[h.store.nextId]);
    } else {
      assert RecordAdd(h, r) == h;
    }
  }

  lemma RemoveKeepsValidHistory(h: History, id: U32)
    requires ValidHistory(h)
    ensures ValidHistory(RecordRemove(h, id))
  {
  }

  lemma StepKeepsValidHistory(h: History, op: RuleOp)
    requires ValidHistory(h)
    ensures ValidHistory(StepRules(h, op))
  {
    match op
    case Add(subject, target, types, actions, effectCode) =>
      var r := AddRule(h.store, subject, target, types, actions, effectCode);
      if r.status == RbacPolicyInvalid {
        assert RecordAdd(h, r) == h;
      } else {
        InsertKeepsValidHistory(h,
          Rule(0, subject, target, types, actions, if effectCode == 0 then Allow else Deny));
      }
    case Remove(id) =>
      RemoveKeepsValidHistory(h, id);
  }

  /** Over every run of adds and removes. */
  lemma {:induction false} RunIsValid(ops: seq<RuleOp>)
    ensures ValidHistory(RunRules(ops))
  {
    if ops == [] {
      assert EmptyStore.rules == map[];
    } else {
      RunIsValid(ops[..|ops| - 1]);
      StepKeepsValidHistory(RunRules(ops[..|ops| - 1]), ops[|ops| - 1]);
    }
  }

  lemma StepExtends(h: History, op: RuleOp)
    ensures h.issued <= StepRules(h, op).issued
    ensures h.removed <= StepRules(h, op).removed
  {
  }

  lemma {:induction false} RunExtends(ops: seq<RuleOp>, more: seq<RuleOp>)
    ensures RunRules(ops).issued <= RunRules(ops + more).issued
    ensures RunRules(ops).removed <= RunRules(ops + more).removed
  {
    if more == [] {
      assert ops + more == ops;
    } else {
      var init := more[..|more| - 1];
      RunExtends(ops, init);
      assert (ops + more)[..|ops + more| - 1] == ops + init;
      StepExtends(RunRules(ops + init), more[|more| - 1]);
    }
  }

  /** A longer run extends the list of accepted rules, whose n-th entry has id n, so ids
      are issued in increasing order and never twice; a removed id never comes back. */
  lemma IdsAreNeverReused(ops: seq<RuleOp>, more: seq<RuleOp>)
    ensures RunRules(ops).issued <= RunRules(ops + more).issued
    ensures forall i, j :: 0 <= i < j < |RunRules(ops + more).issued| ==>
              RunRules(ops + more).issued[i].ruleId < RunRules(ops + more).issued[j].ruleId
    ensures forall id :: id in RunRules(ops).removed ==> id !in RunRules(ops + more).store.rules
  {
    RunExtends(ops, more);
    RunIsValid(ops + more);
  }

  /** In a reachable store an add succeeds exactly on valid arguments with a new key,
      while there is room and fewer than 4294967295 ids have been issued. The branch
      that answers a colliding id is never the reason for a refusal. */
  lemma AddSucceedsExactly(ops: seq<RuleOp>, subject: CString, target: CString,
    types: bv32, actions: bv32, effectCode: int)
    ensures var h := RunRules(ops);
            var rule := Rule(0, subject, target, types, actions, if effectCode == 0 then Allow else Deny);
            && h.store.nextId !in h.store.rules
            && (AddRule(h.store, subject, target, types, actions, effectCode).status == Success <==>
                  && IsValidRuleKey(rule) && effectCode in {0, 1}
                  && !HasDuplicate(h.store.rules, rule)
                  && |h.store.rules| < MAX_POLICY_RULE_SIZE
                  && |h.issued| < U32_MAX)
  {
    RunIsValid(ops);
  }

  /** What a caller passes to an add, in plain terms. */
  predicate IsProperRule(subject: CString, target: CString, types: bv32, actions: bv32, effectCode: int) {
    && IsNodeName(subject) && (IsNodeName(target) || target == "*")
    && IsTypeSet(types) && IsActionSet(actions) && effectCode in {0, 1}
  }

  /** A rule about just these subject, target, types and actions is stored, whatever it says. */
  ghost predicate IsTaken(rules: RuleMap, subject: CString, target: CString, types: bv32, actions: bv32) {
    exists id :: id in rules
      && rules[id].subjectNodeId == subject && rules[id].targetNodeId == target
      && rules[id].resourceTypeBitmap == types && rules[id].actionBitmap == actions
  }

  lemma DuplicateExactly(rules: RuleMap, rule: Rule)
    ensures HasDuplicate(rules, rule) <==>
            IsTaken(rules, rule.subjectNodeId, rule.targetNodeId, rule.resourceTypeBitmap, rule.actionBitmap)
  {
  }

  lemma InsertAnswersExactly(h: History, rule: Rule)
    requires ValidHistory(h)
    ensures var r := InsertRule(h.store, rule);
            var taken := IsTaken(h.store.rules, rule.subjectNodeId, rule.targetNodeId,
                                 rule.resourceTypeBitmap, rule.actionBitmap);
            var full := |h.store.rules| >= 8192 || |h.issued| >= 0xFFFF_FFFF;
            && r.status == (if taken then RbacPolicyDuplicate else if full then RbacPolicyFull else Success)
            && (r.status == Success ==>
                  var id := |h.issued| + 1;
                  r.ruleId == Some(id) && r.store.rules == h.store.rules[id := rule.(ruleId := id)])
            && (r.status != Success ==> r.store == h.store && r.ruleId == None)
  {
    DuplicateExactly(h.store.rules, rule);
  }

  /** Adding a proper rule is inserting it; anything else is refused as invalid. */
  lemma ProperRulesAreInserted(s: Store, rule: Rule, effectCode: int)
    requires rule.ruleId == 0 && rule.effect == if effectCode == 0 then Allow else Deny
    ensures var r := AddRule(s, rule.subjectNodeId, rule.targetNodeId,
                             rule.resourceTypeBitmap, rule.actionBitmap, effectCode);
            if IsProperRule(rule.subjectNodeId, rule.targetNodeId,
                            rule.resourceTypeBitmap, rule.actionBitmap, effectCode)
            then r == InsertRule(s, rule)
            else r == AddResult(s, RbacPolicyInvalid, None)
  {
    ValidityExactly(rule, "", 0, 0);
  }

  /** Every answer of an add, by the rules stored and the number accepted before. */
  ghost function AddAnswer(h: History, subject: CString, target: CString, types: bv32, actions: bv32, effectCode: int): Status {
    if !IsProperRule(subject, target, types, actions, effectCode) then RbacPolicyInvalid
    else if IsTaken(h.store.rules, subject, target, types, actions) then RbacPolicyDuplicate
    else if |h.store.rules| >= 8192 || |h.issued| >= 0xFFFF_FFFF then RbacPolicyFull
    else Success
  }

  /** In a reachable store an add gives this answer, and leaves the new rule under the next id
      with just the values it was given, or the store as it was. */
  lemma AddAnswersExactly(h: History, subject: CString, target: CString, types: bv32, actions: bv32, effectCode: int)
    requires ValidHistory(h)
    ensures var r := AddRule(h.store, subject, target, types, actions, effectCode);
            && r.status == AddAnswer(h, subject, target, types, actions, effectCode)
            && (r.status == Success ==>
                  var id := |h.issued| + 1;
                  && r.ruleId == Some(id)
                  && r.store.rules == h.store.rules[id :=
                       Rule(id, subject, target, types, actions, if effectCode == 0 then Allow else Deny)])
            && (r.status != Success ==> r.store == h.store && r.ruleId == None)
  {
    var rule := Rule(0, subject, target, types, actions, if effectCode == 0 then Allow else Deny);
    ProperRulesAreInserted(h.store, rule, effectCode);
    InsertAnswersExactly(h, rule);
  }

  /** Every answer of a remove in a valid store: it succeeds exactly on a stored id, and takes
      away that rule and nothing else. */
  lemma RemoveAnswersExactly(s: Store, ruleId: U32)
    requires ValidStore(s)
    ensures var (t, status) := RemoveRule(s, ruleId);
            && (status == Success <==> ruleId in s.rules)
            && (status == InvalidParam <==> ruleId == 0)
            && (status == RbacPolicyNotFound <==> ruleId != 0 && ruleId !in s.rules)
            && (status != Success ==> t == s)
            && t.nextId == s.nextId && ruleId !in t.rules
            && (forall id :: id in s.rules && id != ruleId ==> id in t.rules && t.rules[id] == s.rules[id])
            && (forall id :: id in t.rules ==> id in s.rules)
  {
  }

  /** Once the last id has been issued nothing is ever accepted again. */
  lemma {:induction false} ExhaustionIsFinal(ops: seq<RuleOp>, more: seq<RuleOp>)
    requires |RunRules(ops).issued| == U32_MAX
    ensures RunRules(ops + more).issued == RunRules(ops).issued
    ensures RunRules(ops + more).store.nextId == 0
  {
    RunIsValid(ops + more);
    RunExtends(ops, more);
  }

  const SomeAdd := Add("a", "b", RES_TYPE_FD, RES_ACTION_APPLY, 0)

  lemma RunPlus(ops: seq<RuleOp>, op: RuleOp)
    ensures RunRules(ops + [op]) == StepRules(RunRules(ops), op)
  {
    assert (ops + [op])[..|ops|] == ops;
  }

  /** As many rules have been accepted, and none of them is stored any more. */
  ghost predicate IsSpent(h: History, issued: nat) {
    |h.issued| == issued && h.store.rules == map[]
  }

  lemma SomeAddIsValid()
    ensures IsValidRuleKey(Rule(0, "a", "b", RES_TYPE_FD, RES_ACTION_APPLY, Allow))
  {
    assert "a"[0] != '*' && "b"[0] != '*';
  }

  lemma AddToEmpty(h: History)
    requires h.store.rules == map[] && h.store.nextId != 0
    ensures var t := StepRules(h, SomeAdd);
            |t.issued| == |h.issued| + 1 && t.store.rules.Keys == {h.store.nextId}
  {
    SomeAddIsValid();
  }

  lemma RemoveOnly(h: History, id: U32)
    requires h.store.rules.Keys == {id} && id != 0
    ensures var t := StepRules(h, Remove(id)); t.issued == h.issued && t.store.rules == map[]
  {
  }

  lemma ChurnOnce(h: History, issued: nat)
    requires ValidHistory(h) && IsSpent(h, issued) && issued < U32_MAX
    ensures IsSpent(StepRules(StepRules(h, SomeAdd), Remove(issued + 1)), issued + 1)
  {
    AddToEmpty(h);
    RemoveOnly(StepRules(h, SomeAdd), issued + 1);
  }

  lemma ChurnMore(ops: seq<RuleOp>, issued: nat)
    requires IsSpent(RunRules(ops), issued) && issued < U32_MAX
    ensures IsSpent(RunRules(ops + [SomeAdd] + [Remove(issued + 1)]), issued + 1)
  {
    RunIsValid(ops);
    RunPlus(ops, SomeAdd);
    RunPlus(ops + [SomeAdd], Remove(issued + 1));
    ChurnOnce(RunRules(ops), issued);
  }

  /** Every number of ids can be used up with an empty map left behind, by adding a rule and
      removing it again that often. */
  lemma {:induction false} AnyNumberOfIdsIsIssued(n: nat)
    requires n <= U32_MAX
    ensures exists ops :: IsSpent(RunRules(ops), n)
  {
    if n == 0 {
      assert IsSpent(RunRules([]), 0);
    } else {
      AnyNumberOfIdsIsIssued(n - 1);
      var ops :| IsSpent(RunRules(ops), n - 1);
      ChurnMore(ops, n - 1);
    }
  }

  /** The end is reached: a run after which no rule is stored and yet no id is left. */
  lemma ExhaustionIsReached()
    ensures exists ops :: IsSpent(RunRules(ops), U32_MAX) && RunRules(ops).store.nextId == 0
  {
    AnyNumberOfIdsIsIssued(U32_MAX);
    var ops :| IsSpent(RunRules(ops), U32_MAX);
    RunIsValid(ops);
  }

  // ---------------------------------------------------------------- listing order

  ghost predicate IsAscending(s: seq<U32>) {
    forall i, j :: 0 <= i < j < |s| ==> s[i] < s[j]
  }

  lemma {:induction false} MinExists(s: set<U32>)
    requires s != {}
    ensures exists m :: IsLeast(s, m)
  {
    var x :| x in s;
    if s == {x} {
      assert IsLeast(s, x);
    } else {
      MinExists(s - {x});
      var m :| IsLeast(s - {x}, m);
      assert s == (s - {x}) + {x};
      assert IsLeast(s, if m < x then m else x);
    }
  }

  predicate IsLeast(s: set<U32>, m: U32) {
    m in s && forall x :: x in s ==> m <= x
  }

  function Least(s: set<U32>): (m: U32)
    requires s != {}
    ensures IsLeast(s, m)
  {
    MinExists(s);
    var m :| m in s && IsLeast(s, m);
    m
  }

  /** The keys in ascending order, as an ordered map hands them out. */
  function Ascending(keys: set<U32>): (order: seq<U32>)
    ensures |order| == |keys|
    ensures forall i :: 0 <= i < |order| ==> order[i] in keys
  {
    if keys == {} then []
    else var m := Least(keys); [m] + Ascending(keys - {m})
  }

  lemma PrependLeast(m: U32, rest: seq<U32>)
    requires IsAscending(rest)
    requires forall i :: 0 <= i < |rest| ==> m < rest[i]
    ensures IsAscending([m] + rest)
  {
  }

  lemma {:induction false} AscendingVisitsEachKey(keys: set<U32>)
    ensures IsAscending(Ascending(keys))
    ensures forall k :: k in keys ==> k in Ascending(keys)
  {
    if keys != {} {
      var m := Least(keys);
      var rest := Ascending(keys - {m});
      AscendingVisitsEachKey(keys - {m});
      PrependLeast(m, rest);
      forall k | k in keys
        ensures k in [m] + rest
      {
        if k != m {
          assert k in keys - {m};
        }
      }
    }
  }

  lemma AscendingIsIteration(keys: set<U32>)
    ensures IsIteration(Ascending(keys), keys)
  {
    AscendingVisitsEachKey(keys);
  }

  function Listing(rules: RuleMap): (listed: seq<Rule>)
    ensures |listed| == |rules|
  {
    var order := Ascending(rules.Keys);
    seq(|order|, i requires 0 <= i < |order| => rules[order[i]])
  }

  function Elements(s: seq<U32>): (elements: set<U32>)
    ensures forall k :: k in elements <==> k in s
  {
    set k | k in s
  }

  lemma TailDropsLeast(a: seq<U32>)
    requires a != [] && IsAscending(a)
    ensures IsAscending(a[1..])
    ensures forall k :: k in a ==> a[0] <= k
    ensures Elements(a[1..]) == Elements(a) - {a[0]}
  {
    assert a == [a[0]] + a[1..];
  }

  /** Two ascending sequences of the same ids are equal. */
  lemma {:induction false} AscendingIsUnique(a: seq<U32>, b: seq<U32>)
    requires IsAscending(a) && IsAscending(b)
    requires Elements(a) == Elements(b)
    ensures a == b
  {
    assert a != [] ==> a[0] in Elements(b);
    assert b != [] ==> b[0] in Elements(a);
    if a != [] && b != [] {
      TailDropsLeast(a);
      TailDropsLeast(b);
      AscendingIsUnique(a[1..], b[1..]);
      assert a == [a[0]] + a[1..] && b == [b[0]] + b[1..];
    }
  }

  /** The accepted rules still stored, in the order they were added. */
  function Survivors(issued: seq<Rule>, removed: set<U32>): seq<Rule> {
    if issued == [] then []
    else
      var last := issued[|issued| - 1];
      Survivors(issued[..|issued| - 1], removed) + (if last.ruleId in removed then [] else [last])
  }

  function IdsOf(rules: seq<Rule>): (ids: seq<U32>)
    ensures |ids| == |rules|
    ensures forall i :: 0 <= i < |rules| ==> ids[i] == rules[i].ruleId
  {
    seq(|rules|, i requires 0 <= i < |rules| => rules[i].ruleId)
  }

  lemma {:induction false} SurvivorsAscend(issued: seq<Rule>, removed: set<U32>)
    requires forall i :: 0 <= i < |issued| ==> issued[i].ruleId == i + 1
    ensures IsAscending(IdsOf(Survivors(issued, removed)))
    ensures forall r :: r in Survivors(issued, removed) <==> r in issued && r.ruleId !in removed
  {
    if issued != [] {
      var init, last := issued[..|issued| - 1], issued[|issued| - 1];
      SurvivorsAscend(init, removed);
      assert issued == init + [last];
      var kept := Survivors(init, removed);
      forall i | 0 <= i < |kept|
        ensures kept[i].ruleId < last.ruleId
      {
        assert kept[i] in init;
      }
    }
  }

  lemma AscendingIsOnly(keys: set<U32>, order: seq<U32>)
    requires IsAscending(order) && Elements(order) == keys
    ensures order == Ascending(keys)
  {
    AscendingVisitsEachKey(keys);
    assert Elements(Ascending(keys)) == keys;
    AscendingIsUnique(order, Ascending(keys));
  }

  lemma SurvivorsAreStored(h: History)
    requires IdsCountUp(h.issued, h.removed)
    requires MapFollowsHistory(h.store.rules, h.issued, h.removed)
    ensures forall r :: r in Survivors(h.issued, h.removed) ==>
              r.ruleId in h.store.rules && h.store.rules[r.ruleId] == r
  {
    SurvivorsAscend(h.issued, h.removed);
    forall r | r in Survivors(h.issued, h.removed)
      ensures r.ruleId in h.store.rules && h.store.rules[r.ruleId] == r
    {
      var i :| 0 <= i < |h.issued| && h.issued[i] == r;
    }
  }

  lemma SurvivorIds(h: History)
    requires IdsCountUp(h.issued, h.removed)
    requires MapFollowsHistory(h.store.rules, h.issued, h.removed)
    ensures IsAscending(IdsOf(Survivors(h.issued, h.removed)))
    ensures Elements(IdsOf(Survivors(h.issued, h.removed))) == h.store.rules.Keys
  {
    var survivors := Survivors(h.issued, h.removed);
    SurvivorsAscend(h.issued, h.removed);
    SurvivorsAreStored(h);
    forall k | k in h.store.rules
      ensures k in IdsOf(survivors)
    {
      assert h.issued[k - 1] in survivors;
      var i :| 0 <= i < |survivors| && survivors[i] == h.issued[k - 1];
      assert IdsOf(survivors)[i] == k;
    }
  }

  lemma ListingIsByIds(rules: RuleMap, listed: seq<Rule>)
    requires IsAscending(IdsOf(listed))
    requires Elements(IdsOf(listed)) == rules.Keys
    requires forall r :: r in listed ==> r.ruleId in rules && rules[r.ruleId] == r
    ensures Listing(rules) == listed
  {
    AscendingIsOnly(rules.Keys, IdsOf(listed));
    forall i | 0 <= i < |listed|
      ensures Listing(rules)[i] == listed[i]
    {
      assert listed[i] in listed;
    }
  }

  /** Listing a reachable store in key order gives the surviving rules in the order
      they were added. */
  lemma ListingIsAdditionOrder(ops: seq<RuleOp>)
    ensures var h := RunRules(ops); Listing(h.store.rules) == Survivors(h.issued, h.removed)
  {
    RunIsValid(ops);
    HistoryListing(RunRules(ops));
  }

  lemma HistoryListing(h: History)
    requires IdsCountUp(h.issued, h.removed)
    requires MapFollowsHistory(h.store.rules, h.issued, h.removed)
    ensures Listing(h.store.rules) == Survivors(h.issued, h.removed)
  {
    SurvivorIds(h);
    SurvivorsAreStored(h);
    ListingIsByIds(h.store.rules, Survivors(h.issued, h.removed));
  }
}
