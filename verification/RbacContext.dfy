/** The access-control part of a policy context: the fields the public calls
    update in place, each call proved against the value-level operations. */
module RbacContext {
  import opened Common
  import opened RbacTypes
  import opened PolicyMatcher
  import opened RuleStore
  import opened RoleMap
  import opened RbacDecision

  /** The keys of `order` mapped to the master role, in that order. */
  ghost function MastersIn(order: seq<CString>, roles: map<CString, Role>): seq<CString> {
    if order == [] then []
    else
      var last := order[|order| - 1];
      MastersIn(order[..|order| - 1], roles) + (if last in roles && roles[last] == Master then [last] else [])
  }

  ghost function MasterSet(roles: map<CString, Role>): set<CString> {
    set id | id in roles && roles[id] == Master
  }

  /** Every iteration order lists each master once and nothing else. */
  lemma {:induction false} MastersListedOnce(order: seq<CString>, roles: map<CString, Role>)
    requires forall i, j :: 0 <= i < j < |order| ==> order[i] != order[j]
    ensures var masters := MastersIn(order, roles);
            && (forall id :: id in masters <==> id in order && id in roles && roles[id] == Master)
            && (forall i, j :: 0 <= i < j < |masters| ==> masters[i] != masters[j])
  {
    if order != [] {
      var init, last := order[..|order| - 1], order[|order| - 1];
      MastersListedOnce(init, roles);
      assert order == init + [last];
      var before := MastersIn(init, roles);
      forall i | 0 <= i < |before|
        ensures before[i] != last
      {
        assert before[i] in init;
      }
    }
  }

  lemma {:induction false} DistinctCount<T>(s: seq<T>, elements: set<T>)
    requires forall i, j :: 0 <= i < j < |s| ==> s[i] != s[j]
    requires forall x :: x in elements <==> x in s
    ensures |s| == |elements|
  {
    if s == [] {
      assert elements == {};
    } else {
      var init, last := s[..|s| - 1], s[|s| - 1];
      assert s == init + [last];
      DistinctCount(init, elements - {last});
    }
  }

  lemma MasterCount(order: seq<CString>, roles: map<CString, Role>)
    requires IsIteration(order, roles.Keys)
    ensures |MastersIn(order, roles)| == |MasterSet(roles)|
  {
    MastersListedOnce(order, roles);
    DistinctCount(MastersIn(order, roles), MasterSet(roles));
  }

  // The rows of a two-dimensional buffer, as values.
  ghost function Rows(list: array2<char>): (rows: seq<seq<char>>)
    reads list
    ensures |rows| == list.Length0
    ensures forall k :: 0 <= k < |rows| ==> |rows[k]| == list.Length1
  {
    seq(list.Length0, k requires 0 <= k < list.Length0 reads list =>
      seq(list.Length1, c requires 0 <= c < list.Length1 reads list => list[k, c]))
  }

  /** A row after a NUL-terminated string was copied to its start. */
  ghost function Written(row: seq<char>, id: CString): seq<char>
    requires |id| < |row|
  {
    id + ['\0'] + row[|id| + 1..]
  }

  /** A copied id reads back as a string, ends with its NUL, and what follows is untouched. */
  lemma WrittenExactly(row: seq<char>, id: CString)
    requires |id| < |row|
    ensures |Written(row, id)| == |row|
    ensures CStr(Written(row, id)) == id
    ensures forall c :: 0 <= c < |row| ==>
              Written(row, id)[c] == if c < |id| then id[c] else if c == |id| then '\0' else row[c]
  {
    CStrStopsAtNul(id, row[|id| + 1..]);
  }

  /** The first rows hold the listed ids and no other byte has changed. */
  ghost predicate RowsWritten(now: seq<seq<char>>, start: seq<seq<char>>, ids: seq<CString>) {
    && |now| == |start| && |ids| <= |start|
    && forall k :: 0 <= k < |start| ==>
         if k < |ids| then |ids[k]| < |start[k]| && now[k] == Written(start[k], ids[k])
         else now[k] == start[k]
  }

  /** The rows written from any iteration order read back as different master ids; with
      room for all of them, every master is among them. */
  lemma MasterRowsReadBack(now: seq<seq<char>>, start: seq<seq<char>>, order: seq<CString>,
    roles: map<CString, Role>, count: nat)
    requires IsIteration(order, roles.Keys)
    requires count <= |MastersIn(order, roles)|
    requires RowsWritten(now, start, MastersIn(order, roles)[..count])
    ensures forall k :: 0 <= k < count ==> CStr(now[k]) in roles && roles[CStr(now[k])] == Master
    ensures forall j, k :: 0 <= j < k < count ==> CStr(now[j]) != CStr(now[k])
    ensures count == |MasterSet(roles)| ==>
              forall id :: id in MasterSet(roles) ==> exists k :: 0 <= k < count && CStr(now[k]) == id
  {
    var masters := MastersIn(order, roles);
    MastersListedOnce(order, roles);
    MasterCount(order, roles);
    forall k | 0 <= k < count
      ensures CStr(now[k]) == masters[k]
    {
      CStrStopsAtNul(masters[k], start[k][|masters[k]| + 1..]);
    }
    forall id | count == |MasterSet(roles)| && id in MasterSet(roles)
      ensures exists k :: 0 <= k < count && CStr(now[k]) == id
    {
      assert id in masters;
      var k :| 0 <= k < |masters| && masters[k] == id;
      assert CStr(now[k]) == id;
    }
  }

  lemma RowAppended(now: seq<seq<char>>, start: seq<seq<char>>, ids: seq<CString>, id: CString)
    requires RowsWritten(now, start, ids)
    requires |ids| < |start| && |id| < |start[|ids|]|
    ensures RowsWritten(now[|ids| := Written(now[|ids|], id)], start, ids + [id])
  {
  }

  lemma MastersStep(order: seq<CString>, i: nat, roles: map<CString, Role>)
    requires i < |order| && order[i] in roles
    ensures MastersIn(order[..i + 1], roles)
            == MastersIn(order[..i], roles) + (if roles[order[i]] == Master then [order[i]] else [])
  {
    assert order[..i + 1][..i] == order[..i];
  }

  class Context {
    var policyRuleMap: RuleMap
    var nextPolicyRuleId: U32
    var nodeRoleMap: map<CString, Role>
    var nodeRoleMapFrozen: bool
    var rbacEnabled: bool

    ghost function RuleState(): Store
      reads this
    {
      Store(policyRuleMap, nextPolicyRuleId)
    }

    ghost function RoleState(): Roles
      reads this
    {
      Roles(nodeRoleMap, nodeRoleMapFrozen)
    }

    ghost predicate Valid()
      reads this
    {
      ValidStore(RuleState()) && ValidRoles(RoleState())
    }

    constructor ()
      ensures Valid()
      ensures RuleState() == EmptyStore && RoleState() == EmptyRoles && !rbacEnabled
    {
      policyRuleMap := map[];
      nextPolicyRuleId := 1;
      nodeRoleMap := map[];
      nodeRoleMapFrozen := false;
      rbacEnabled := false;
    }

    // ------------------------------------------------------------ rules

    method InsertPolicyRule(rule: Rule) returns (status: Status, ruleId: Option<U32>)
      modifies this`policyRuleMap, this`nextPolicyRuleId
      ensures AddResult(RuleState(), status, ruleId) == InsertRule(old(RuleState()), rule)
    {
      ruleId := None;
      var order := Ascending(policyRuleMap.Keys);
      for i := 0 to |order|
        invariant forall j :: 0 <= j < i ==> !IsSamePolicyRuleKey(policyRuleMap[order[j]], rule)
      {
        if IsSamePolicyRuleKey(policyRuleMap[order[i]], rule) {
          return RbacPolicyDuplicate, None;
        }
      }
      AscendingVisitsEachKey(policyRuleMap.Keys);
      assert !HasDuplicate(policyRuleMap, rule);
      if |policyRuleMap| >= MAX_POLICY_RULE_SIZE || nextPolicyRuleId == 0 {
        return RbacPolicyFull, None;
      }
      if nextPolicyRuleId in policyRuleMap {
        return RbacPolicyFull, None;
      }
      policyRuleMap := policyRuleMap[nextPolicyRuleId := rule.(ruleId := nextPolicyRuleId)];
      ruleId := Some(nextPolicyRuleId);
      nextPolicyRuleId := if nextPolicyRuleId == U32_MAX then 0 else nextPolicyRuleId + 1;
      status := Success;
    }

    method AddPolicyRule(subject: CString, target: CString, types: bv32, actions: bv32, effectCode: int)
      returns (status: Status, ruleId: Option<U32>)
      requires Valid()
      modifies this`policyRuleMap, this`nextPolicyRuleId
      ensures Valid()
      ensures AddResult(RuleState(), status, ruleId)
              == AddRule(old(RuleState()), subject, target, types, actions, effectCode)
    {
      if !IsValidNodeId(subject) || !(IsValidNodeId(target) || target == "*")
        || !IsValidBitmap(types, RES_TYPE_ALL)
        || !IsValidBitmap(actions, RES_ACTION_APPLY | RES_ACTION_RELEASE)
        || !(effectCode == 0 || effectCode == 1)
      {
        return RbacPolicyInvalid, None;
      }
      var rule := Rule(0, subject, target, types, actions, if effectCode == 0 then Allow else Deny);
      AddKeepsValid(RuleState(), subject, target, types, actions, effectCode);
      status, ruleId := InsertPolicyRule(rule);
    }

    method RemovePolicyRule(ruleId: U32) returns (status: Status)
      requires Valid()
      modifies this`policyRuleMap
      ensures Valid()
      ensures (RuleState(), status) == RemoveRule(old(RuleState()), ruleId)
    {
      RuleStore.RemoveKeepsValid(RuleState(), ruleId);
      if ruleId == 0 {
        return InvalidParam;
      }
      if ruleId !in policyRuleMap {
        return RbacPolicyNotFound;
      }
      policyRuleMap := policyRuleMap - {ruleId};
      status := Success;
    }

    /** `allocations` is the number of copies after which memory runs out, if it does, and
        `countBefore` what the count holds on entry. The counted prefix is right either
        way and later elements keep their value. */
    method ListPolicyRules(rules: array<Rule>, ruleCap: U32, countBefore: U32, allocations: Option<nat>)
      returns (status: Status, actualCount: U32)
      requires ruleCap <= rules.Length
      modifies rules
      ensures ruleCap == 0 ==> status == InvalidParam && actualCount == countBefore && rules[..] == old(rules[..])
      ensures ruleCap != 0 ==>
                var wanted := Min(ruleCap, |policyRuleMap|);
                if allocations.Some? && allocations.value < wanted
                then status == MemAlloc && actualCount == allocations.value
                else status == Success && actualCount == wanted
      ensures ruleCap != 0 ==> rules[..actualCount] == Listing(policyRuleMap)[..actualCount]
      ensures ruleCap != 0 ==> rules[actualCount..] == old(rules[..])[actualCount..]
    {
      if ruleCap == 0 {
        return InvalidParam, countBefore;
      }
      actualCount := 0;
      var order := Ascending(policyRuleMap.Keys);
      ghost var listing := Listing(policyRuleMap);
      while actualCount < |order| && actualCount != ruleCap
        invariant 0 <= actualCount <= |order| && actualCount <= ruleCap
        invariant allocations.Some? ==> actualCount <= allocations.value
        invariant forall k :: 0 <= k < actualCount ==> rules[k] == listing[k]
        invariant forall k :: actualCount <= k < rules.Length ==> rules[k] == old(rules[k])
      {
        if allocations == Some(actualCount) {
          return MemAlloc, actualCount;
        }
        assert listing[actualCount] == policyRuleMap[order[actualCount]];
        rules[actualCount] := policyRuleMap[order[actualCount]];
        actualCount := actualCount + 1;
      }
      status := Success;
    }

    // ------------------------------------------------------------ roles

    method SetNodeRoleMapping(nodeId: CString, role: Role) returns (status: Status)
      requires Valid()
      modifies this`nodeRoleMap
      ensures Valid()
      ensures (RoleState(), status) == SetRole(old(RoleState()), nodeId, role)
    {
      SetKeepsValid(RoleState(), nodeId, role);
      if !IsValidNodeId(nodeId) || !IsValidRole(role) {
        return InvalidParam;
      }
      if nodeRoleMapFrozen {
        return RbacMapFrozen;
      }
      if nodeId !in nodeRoleMap && |nodeRoleMap| >= MAX_NODE_ROLE_MAP_SIZE {
        return RbacMapFull;
      }
      nodeRoleMap := nodeRoleMap[nodeId := role];
      status := Success;
    }

    method RemoveNodeRoleMapping(nodeId: CString) returns (status: Status)
      requires Valid()
      modifies this`nodeRoleMap
      ensures Valid()
      ensures (RoleState(), status) == RemoveRole(old(RoleState()), nodeId)
    {
      RoleMap.RemoveKeepsValid(RoleState(), nodeId);
      if !IsValidNodeId(nodeId) {
        return InvalidParam;
      }
      if nodeRoleMapFrozen {
        return RbacMapFrozen;
      }
      if nodeId !in nodeRoleMap {
        return RbacMapNotFound;
      }
      nodeRoleMap := nodeRoleMap - {nodeId};
      status := Success;
    }

    /** SCF_Connect and SCF_Accept: the handshake result is the TLS library's. */
    method FinishHandshake(handshake: Status) returns (status: Status)
      requires Valid()
      modifies this`nodeRoleMapFrozen
      ensures Valid()
      ensures RoleState() == AfterHandshake(old(RoleState()), handshake) && status == handshake
    {
      if handshake == Success {
        nodeRoleMapFrozen := true;
      }
      status := handshake;
    }

    /** While the engine is off every valid question gets the same answer, whoever asks. */
    method EnableRbac(enable: bool)
      modifies this`rbacEnabled
      ensures rbacEnabled == enable
      ensures forall q :: IsValidQuestion(q) ==>
                (Decide(rbacEnabled, RoleState(), policyRuleMap, q) == RbacDisabled <==> !enable)
    {
      rbacEnabled := enable;
    }

    /** `order` is whatever order the hash map iterates in. The result is the first masters
        met, each a NUL-terminated string in its row; no other byte is written. */
    method ListMasterNodes(list: array2<char>, listCap: U32, countBefore: U32, order: seq<CString>)
      returns (status: Status, actualCount: U32)
      requires Valid()
      requires listCap <= list.Length0 && list.Length1 == MAX_NODE_ID_LEN
      requires IsIteration(order, nodeRoleMap.Keys)
      modifies list
      ensures listCap == 0 ==> status == InvalidParam && actualCount == countBefore && Rows(list) == old(Rows(list))
      ensures listCap != 0 ==> status == Success && actualCount == Min(listCap, |MasterSet(nodeRoleMap)|)
      ensures listCap != 0 ==> actualCount <= |MastersIn(order, nodeRoleMap)|
      ensures listCap != 0 ==>
                RowsWritten(Rows(list), old(Rows(list)), MastersIn(order, nodeRoleMap)[..actualCount])
    {
      if listCap == 0 {
        return InvalidParam, countBefore;
      }
      MasterCount(order, nodeRoleMap);
      forall i | 0 <= i < |order|
        ensures order[i] in nodeRoleMap && |order[i]| < MAX_NODE_ID_LEN
      {
        assert order[i] in nodeRoleMap.Keys;
      }
      actualCount := FillMasterRows(list, listCap, order, nodeRoleMap);
      status := Success;
    }

    // ------------------------------------------------------------ the check

    method GetCustomPolicyEffect(request: Request, before: Effect) returns (matched: bool, effect: Effect)
      ensures RuleVerdict(policyRuleMap, request) == if matched then Matched(effect) else NoMatch
      ensures !matched ==> effect == before
    {
      AscendingIsIteration(policyRuleMap.Keys);
      matched, effect := MatchPolicyRule(policyRuleMap, Ascending(policyRuleMap.Keys), request, before);
    }

    method CheckResourcePermission(cert: Cert, target: CString, resourceType: bv32, action: bv32)
      returns (status: Status)
      requires Valid()
      ensures status == Decide(rbacEnabled, RoleState(), policyRuleMap, Question(cert, target, resourceType, action))
    {
      if !IsValidNodeId(target) || !IsSingleResourceType(resourceType) || !IsSingleResourceAction(action) {
        return InvalidParam;
      }
      if !rbacEnabled {
        return RbacDisabled;
      }
      var who := ResolveLocalIdentity(Roles(nodeRoleMap, nodeRoleMapFrozen), cert);
      if who.Err? {
        return who.status;
      }
      status := DecideByRules(who.value, Question(cert, target, resourceType, action));
    }

    // Custom rules come before the defaults of the role.
    method DecideByRules(who: Identity, q: Question) returns (status: Status)
      ensures status == RulePermission(policyRuleMap, who, q)
    {
      var matched, effect := GetCustomPolicyEffect(RequestOf(q, who.nodeId), Deny);
      if matched {
        if effect == Allow {
          return Success;
        }
        return RbacDenied;
      }
      status := DefaultPermission(who.role, who.nodeId, q.target);
    }
  }

  method CopyNodeId(list: array2<char>, row: U32, nodeId: CString)
    requires row < list.Length0 && |nodeId| < list.Length1
    modifies list
    ensures Rows(list) == old(Rows(list))[row := Written(old(Rows(list))[row], nodeId)]
  {
    for n := 0 to |nodeId|
      invariant forall k, c :: 0 <= k < list.Length0 && 0 <= c < list.Length1 ==>
                  list[k, c] == if k == row && c < n then nodeId[c] else old(list[k, c])
    {
      list[row, n] := nodeId[n];
    }
    list[row, |nodeId|] := '\0';
    ghost var start := old(Rows(list));
    forall k | 0 <= k < list.Length0
      ensures Rows(list)[k] == if k == row then Written(start[row], nodeId) else start[k]
    {
    }
  }

  method FillMasterRows(list: array2<char>, listCap: U32, order: seq<CString>, roles: map<CString, Role>)
    returns (count: U32)
    requires listCap <= list.Length0
    requires forall i :: 0 <= i < |order| ==> order[i] in roles && |order[i]| < list.Length1
    modifies list
    ensures count == Min(listCap, |MastersIn(order, roles)|)
    ensures RowsWritten(Rows(list), old(Rows(list)), MastersIn(order, roles)[..count])
  {
    count := 0;
    ghost var listed: seq<CString> := [];
    var i := 0;
    while i < |order| && count != listCap
      invariant 0 <= i <= |order| && count <= listCap
      invariant listed == MastersIn(order[..i], roles) && |listed| == count
      invariant RowsWritten(Rows(list), old(Rows(list)), listed)
    {
      MastersStep(order, i, roles);
      if roles[order[i]] == Master {
        RowAppended(Rows(list), old(Rows(list)), listed, order[i]);
        CopyNodeId(list, count, order[i]);
        listed := listed + [order[i]];
        count := count + 1;
      }
      i := i + 1;
    }
    MastersPrefix(order, i, roles);
    assert listed == MastersIn(order, roles)[..count];
  }

  lemma {:induction false} MastersPrefix(order: seq<CString>, i: nat, roles: map<CString, Role>)
    requires i <= |order|
    ensures MastersIn(order[..i], roles) <= MastersIn(order, roles)
    ensures i == |order| ==> MastersIn(order[..i], roles) == MastersIn(order, roles)
  {
    if i == |order| {
      assert order[..i] == order;
    } else {
      MastersPrefix(order[..|order| - 1], i, roles);
      assert order[..|order| - 1][..i] == order[..i];
    }
  }
}
