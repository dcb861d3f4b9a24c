/** The entities of the access-control engine: rules, requests, certificates
    and the checks on their fields. */
module RbacTypes {
  import opened Common

  const MAX_NODE_ID_LEN := 128
  const MAX_NODE_ROLE_MAP_SIZE := 4096
  const MAX_POLICY_RULE_SIZE := 8192

  const RES_TYPE_FD: bv32 := 1
  const RES_TYPE_NUMA: bv32 := 2
  const RES_TYPE_ADDR: bv32 := 4
  const RES_TYPE_ALL: bv32 := 7
  const RES_ACTION_APPLY: bv32 := 1
  const RES_ACTION_RELEASE: bv32 := 2

  datatype Effect = Allow | Deny

  /** UnknownRole stands for every value that is neither of the two roles. */
  datatype Role = UnknownRole | Master | Slave

  datatype RoleSource = NoSource | FromCert | FromMapping

  datatype Rule = Rule(
    ruleId: U32,
    subjectNodeId: CString,
    targetNodeId: CString,
    resourceTypeBitmap: bv32,
    actionBitmap: bv32,
    effect: Effect)

  datatype Request = Request(
    subjectNodeId: CString,
    targetNodeId: CString,
    resourceType: bv32,
    action: bv32)

  /** What the TLS library reports for one certificate extension. */
  datatype Extension = Absent | Malformed | Present(value: string)

  datatype Cert = Cert(nodeId: Extension, role: Extension)

  predicate IsValidNodeId(nodeId: CString) {
    nodeId != "*" && 0 < |nodeId| < MAX_NODE_ID_LEN
  }

  predicate IsValidRole(role: Role) {
    role == Master || role == Slave
  }

  predicate IsValidBitmap(bitmap: bv32, validBitmap: bv32) {
    bitmap != 0 && bitmap & !validBitmap == 0
  }

  predicate IsSingleResourceType(resourceType: bv32) {
    resourceType == RES_TYPE_FD || resourceType == RES_TYPE_NUMA || resourceType == RES_TYPE_ADDR
  }

  predicate IsSingleResourceAction(action: bv32) {
    action == RES_ACTION_APPLY || action == RES_ACTION_RELEASE
  }

  predicate IsSamePolicyRuleKey(left: Rule, right: Rule) {
    && left.subjectNodeId == right.subjectNodeId
    && left.targetNodeId == right.targetNodeId
    && left.resourceTypeBitmap == right.resourceTypeBitmap
    && left.actionBitmap == right.actionBitmap
  }

  predicate IsValidRuleKey(rule: Rule) {
    && IsValidNodeId(rule.subjectNodeId)
    && (IsValidNodeId(rule.targetNodeId) || rule.targetNodeId == "*")
    && IsValidBitmap(rule.resourceTypeBitmap, RES_TYPE_ALL)
    && IsValidBitmap(rule.actionBitmap, RES_ACTION_APPLY | RES_ACTION_RELEASE)
  }

  /** The requests the permission check lets through to the engine. */
  predicate IsValidTarget(targetNodeId: CString, resourceType: bv32, action: bv32) {
    IsValidNodeId(targetNodeId) && IsSingleResourceType(resourceType) && IsSingleResourceAction(action)
  }

  // ---------------------------------------------------------------- the same in plain terms

  /** A name for a node: 1 to 127 bytes, and not the wildcard. */
  predicate IsNodeName(id: CString) {
    id != "*" && 1 <= |id| <= 127
  }

  /** The seven nonempty sets of descriptors (1), NUMA nodes (2) and addresses (4). */
  predicate IsTypeSet(bitmap: bv32) {
    bitmap in {1, 2, 3, 4, 5, 6, 7}
  }

  /** The three nonempty sets of apply (1) and release (2). */
  predicate IsActionSet(bitmap: bv32) {
    bitmap in {1, 2, 3}
  }

  predicate IncludesType(bitmap: bv32, resourceType: bv32) {
    || (resourceType == 1 && bitmap in {1, 3, 5, 7})
    || (resourceType == 2 && bitmap in {2, 3, 6, 7})
    || (resourceType == 4 && bitmap in {4, 5, 6, 7})
  }

  predicate IncludesAction(bitmap: bv32, action: bv32) {
    (action == 1 && bitmap in {1, 3}) || (action == 2 && bitmap in {2, 3})
  }

  lemma TypeSetsExactly(bitmap: bv32)
    ensures IsValidBitmap(bitmap, RES_TYPE_ALL) <==> IsTypeSet(bitmap)
  {
    assert bitmap & !7 == 0 <==> bitmap <= 7;
  }

  lemma ActionSetsExactly(bitmap: bv32)
    ensures IsValidBitmap(bitmap, RES_ACTION_APPLY | RES_ACTION_RELEASE) <==> IsActionSet(bitmap)
  {
    assert RES_ACTION_APPLY | RES_ACTION_RELEASE == 3;
    assert bitmap & !3 == 0 <==> bitmap <= 3;
  }

  /** The rules that can be stored and the requests that are let through. */
  lemma ValidityExactly(rule: Rule, target: CString, resourceType: bv32, action: bv32)
    ensures IsValidRuleKey(rule) <==>
            && IsNodeName(rule.subjectNodeId)
            && (IsNodeName(rule.targetNodeId) || rule.targetNodeId == "*")
            && IsTypeSet(rule.resourceTypeBitmap) && IsActionSet(rule.actionBitmap)
    ensures IsValidTarget(target, resourceType, action) <==>
            IsNodeName(target) && resourceType in {1, 2, 4} && action in {1, 2}
  {
    TypeSetsExactly(rule.resourceTypeBitmap);
    ActionSetsExactly(rule.actionBitmap);
  }

  // ASCII lower case, as std::tolower gives in the "C" locale.
  function ToLower(s: string): (r: string)
    ensures |r| == |s|
    ensures forall i :: 0 <= i < |s| ==> r[i] == if 'A' <= s[i] <= 'Z' then s[i] - 'A' + 'a' else s[i]
  {
    seq(|s|, i requires 0 <= i < |s| => if 'A' <= s[i] <= 'Z' then s[i] - 'A' + 'a' else s[i])
  }
}
