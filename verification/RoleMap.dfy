/** Where a node's role comes from: its certificate first, then the role map,
    which freezes when a connection is established. */
module RoleMap {
  import opened Common
  import opened RbacTypes

  datatype Roles = Roles(roles: map<CString, Role>, frozen: bool)

  const EmptyRoles := Roles(map[], false)

  function SetRole(m: Roles, nodeId: CString, role: Role): (Roles, Status) {
    if !IsValidNodeId(nodeId) || !IsValidRole(role) then (m, InvalidParam)
    else if m.frozen then (m, RbacMapFrozen)
    else if nodeId !in m.roles && |m.roles| >= MAX_NODE_ROLE_MAP_SIZE then (m, RbacMapFull)
    else (m.(roles := m.roles[nodeId := role]), Success)
  }

  function RemoveRole(m: Roles, nodeId: CString): (Roles, Status) {
    if !IsValidNodeId(nodeId) then (m, InvalidParam)
    else if m.frozen then (m, RbacMapFrozen)
    else if nodeId !in m.roles then (m, RbacMapNotFound)
    else (m.(roles := m.roles - {nodeId}), Success)
  }

  // A connect or accept freezes the map only when the handshake has finished.
  function AfterHandshake(m: Roles, handshake: Status): Roles {
    if handshake == Success then m.(frozen := true) else m
  }

  /** Only valid ids and the two named roles are ever stored, within the capacity. */
  ghost predicate ValidRoles(m: Roles) {
    && |m.roles| <= MAX_NODE_ROLE_MAP_SIZE
    && forall id :: id in m.roles ==> IsValidNodeId(id) && IsValidRole(m.roles[id])
  }

  lemma SetKeepsValid(m: Roles, nodeId: CString, role: Role)
    requires ValidRoles(m)
    ensures ValidRoles(SetRole(m, nodeId, role).0)
  {
  }

  lemma RemoveKeepsValid(m: Roles, nodeId: CString)
    requires ValidRoles(m)
    ensures ValidRoles(RemoveRole(m, nodeId).0)
  {
  }

  // ---------------------------------------------------------------- role lookup

  datatype RoleAnswer = RoleAnswer(role: Role, source: RoleSource)

  function GetCertNodeId(cert: Cert, bufferLen: nat): Result<CString> {
    if bufferLen == 0 then Err(InvalidParam)
    else
      match cert.nodeId
      case Absent => Err(CertNodeIdAbsent)
      case Malformed => Err(ParseCert)
      case Present(value) =>
        if '\0' in value || !IsValidNodeId(value) then Err(ParseCert)
        else if |value| >= bufferLen then Err(InvalidParam)
        else Ok(value)
  }

  function GetCertRbacRole(cert: Cert): Result<Role> {
    match cert.role
    case Absent => Err(CertRoleAbsent)
    case Malformed => Err(ParseCert)
    case Present(value) =>
      if ToLower(value) == "master" then Ok(Master)
      else if ToLower(value) == "slave" then Ok(Slave)
      else Err(ParseCert)
  }

  function GetMappingRole(m: Roles, nodeId: Option<CString>): Result<Role> {
    match nodeId
    case None => Err(RbacRoleUnknown)
    case Some(id) =>
      if !IsValidNodeId(id) || id !in m.roles then Err(RbacRoleUnknown) else Ok(m.roles[id])
  }

  // A broken extension is an error even when the other one would do; only an absent
  // one falls through to the next source.
  function GetNodeRbacRole(m: Roles, cert: Option<Cert>, nodeId: Option<CString>): Result<RoleAnswer> {
    if cert == None && nodeId == None then Err(NullInput)
    else if nodeId.Some? && !IsValidNodeId(nodeId.value) then Err(InvalidParam)
    else if cert.Some? then
      var certRole := GetCertRbacRole(cert.value);
      var certNodeId := GetCertNodeId(cert.value, MAX_NODE_ID_LEN);
      if certRole.Err? && certRole.status != CertRoleAbsent then Err(certRole.status)
      else if certNodeId.Err? && certNodeId.status != CertNodeIdAbsent then Err(certNodeId.status)
      else if certRole.Ok? then Ok(RoleAnswer(certRole.value, FromCert))
      else FromMap(m, if certNodeId.Ok? then Some(certNodeId.value) else nodeId)
    else FromMap(m, nodeId)
  }

  function FromMap(m: Roles, nodeId: Option<CString>): Result<RoleAnswer> {
    match GetMappingRole(m, nodeId)
    case Ok(role) => Ok(RoleAnswer(role, FromMapping))
    case Err(status) => Err(RbacRoleUnknown)
  }

  /** The certificate names the node `id`. */
  ghost predicate NamesNode(cert: Cert, id: CString) {
    cert.nodeId == Present(id) && IsNodeName(id)
  }

  ghost predicate SpellsRole(text: string, role: Role) {
    (role == Master && ToLower(text) == "master") || (role == Slave && ToLower(text) == "slave")
  }

  /** The role of the certificate's node: spelled by the certificate, or, when the
      certificate says nothing about a role, stored for its node id. */
  ghost predicate HasRole(m: Roles, cert: Cert, id: CString, role: Role) {
    || (cert.role.Present? && SpellsRole(cert.role.value, role))
    || (cert.role.Absent? && id in m.roles && m.roles[id] == role)
  }

  lemma CertNodeIdExactly(cert: Cert, id: CString)
    ensures GetCertNodeId(cert, MAX_NODE_ID_LEN) == Ok(id) <==> NamesNode(cert, id)
  {
  }

  /** For a certificate that names its node, lookup gives a role exactly when the node
      has it, and the answer is always one of the two named roles. */
  lemma LookupExactly(m: Roles, cert: Cert, id: CString, role: Role)
    requires ValidRoles(m) && NamesNode(cert, id)
    ensures (exists source :: GetNodeRbacRole(m, Some(cert), None) == Ok(RoleAnswer(role, source)))
            <==> HasRole(m, cert, id, role)
    ensures HasRole(m, cert, id, role) ==> IsValidRole(role)
  {
    CertNodeIdExactly(cert, id);
    if HasRole(m, cert, id, role) {
      var source := if cert.role.Present? then FromCert else FromMapping;
      assert "master" != "slave" by {
        assert "master"[0] != "slave"[0];
      }
      assert GetNodeRbacRole(m, Some(cert), None) == Ok(RoleAnswer(role, source));
    }
  }

  /** Each extension of the certificate is absent or has a proper value. */
  ghost predicate IsReadable(cert: Cert) {
    && (cert.role.Absent? || (cert.role.Present? && exists role :: SpellsRole(cert.role.value, role)))
    && (cert.nodeId.Absent? || exists id :: NamesNode(cert, id))
  }

  /** The node asked about: the certificate's own, or else the one given by id. */
  ghost predicate IsNodeAskedFor(cert: Option<Cert>, nodeId: Option<CString>, id: CString) {
    if cert.Some? && cert.value.nodeId.Present? then NamesNode(cert.value, id) else nodeId == Some(id)
  }

  lemma CertRoleExactly(cert: Cert, role: Role)
    ensures GetCertRbacRole(cert) == Ok(role) <==> cert.role.Present? && SpellsRole(cert.role.value, role)
  {
  }

  lemma CertReads(cert: Cert)
    ensures IsReadable(cert) <==>
            && (GetCertRbacRole(cert).Ok? || GetCertRbacRole(cert) == Err(CertRoleAbsent))
            && (GetCertNodeId(cert, MAX_NODE_ID_LEN).Ok?
                || GetCertNodeId(cert, MAX_NODE_ID_LEN) == Err(CertNodeIdAbsent))
  {
    forall role
      ensures GetCertRbacRole(cert) == Ok(role) <==> cert.role.Present? && SpellsRole(cert.role.value, role)
    {
      CertRoleExactly(cert, role);
    }
    forall id: CString
      ensures GetCertNodeId(cert, MAX_NODE_ID_LEN) == Ok(id) <==> NamesNode(cert, id)
    {
      CertNodeIdExactly(cert, id);
    }
    if GetCertRbacRole(cert).Ok? {
      assert SpellsRole(cert.role.value, GetCertRbacRole(cert).value);
    }
  }

  /** The order of precedence: a lookup answers exactly when everything it is given is
      proper; a role in the certificate wins over the map, and the certificate's node over
      the given id. */
  lemma PrecedenceExactly(m: Roles, cert: Option<Cert>, nodeId: Option<CString>, answer: RoleAnswer)
    requires ValidRoles(m)
    ensures GetNodeRbacRole(m, cert, nodeId) == Ok(answer) <==>
            && (cert.Some? ==> IsReadable(cert.value))
            && (nodeId.Some? ==> IsValidNodeId(nodeId.value))
            && if cert.Some? && cert.value.role.Present?
               then answer.source == FromCert && SpellsRole(cert.value.role.value, answer.role)
               else answer.source == FromMapping
                    && exists id :: IsNodeAskedFor(cert, nodeId, id) && id in m.roles && m.roles[id] == answer.role
  {
    if cert.Some? {
      CertReads(cert.value);
      CertRoleExactly(cert.value, answer.role);
      var own := GetCertNodeId(cert.value, MAX_NODE_ID_LEN);
      if own.Ok? {
        CertNodeIdExactly(cert.value, own.value);
        assert IsNodeAskedFor(cert, nodeId, own.value);
      }
    }
    if nodeId.Some? {
      assert (cert.Some? ==> cert.value.nodeId.Absent?) ==> IsNodeAskedFor(cert, nodeId, nodeId.value);
    }
  }

  // ---------------------------------------------------------------- every answer

  /** The text is the word, in any mix of upper and lower case. */
  predicate IsWord(text: string, lower: string, upper: string)
    requires |lower| == |upper|
  {
    |text| == |lower| && forall i :: 0 <= i < |text| ==> text[i] == lower[i] || text[i] == upper[i]
  }

  /** A role is spelled by its English name, in any case. */
  lemma SpellsExactly(text: string, role: Role)
    ensures SpellsRole(text, role) <==>
            || (role == Master && IsWord(text, "master", "MASTER"))
            || (role == Slave && IsWord(text, "slave", "SLAVE"))
  {
    LowerExactly(text, "master", "MASTER");
    LowerExactly(text, "slave", "SLAVE");
  }

  lemma LowerExactly(text: string, lower: string, upper: string)
    requires |lower| == |upper|
    requires forall i :: 0 <= i < |lower| ==> 'a' <= lower[i] <= 'z' && upper[i] == lower[i] - 'a' + 'A'
    ensures ToLower(text) == lower <==> IsWord(text, lower, upper)
  {
    if ToLower(text) == lower {
      forall i | 0 <= i < |text|
        ensures text[i] == lower[i] || text[i] == upper[i]
      {
        assert ToLower(text)[i] == lower[i];
      }
    }
    if IsWord(text, lower, upper) {
      forall i | 0 <= i < |text|
        ensures ToLower(text)[i] == lower[i]
      {
        assert text[i] == lower[i] || text[i] == upper[i];
      }
    }
  }

  /** Every answer of a read of the node id, for any buffer. */
  lemma CertNodeIdAnswersExactly(cert: Cert, bufferLen: nat)
    ensures var r := GetCertNodeId(cert, bufferLen);
            var named := exists id :: NamesNode(cert, id);
            && (r == Err(CertNodeIdAbsent) <==> bufferLen > 0 && cert.nodeId.Absent?)
            && (r == Err(ParseCert) <==> bufferLen > 0 && !cert.nodeId.Absent? && !named)
            && (r == Err(InvalidParam) <==>
                  bufferLen == 0 || (named && cert.nodeId.Present? && |cert.nodeId.value| >= bufferLen))
            && (forall id :: r == Ok(id) <==> NamesNode(cert, id) && |id| < bufferLen)
  {
    if cert.nodeId.Present? && '\0' !in cert.nodeId.value && IsValidNodeId(cert.nodeId.value) {
      var id: CString := cert.nodeId.value;
      assert NamesNode(cert, id);
    }
  }

  lemma CertRoleAnswersExactly(cert: Cert)
    ensures GetCertRbacRole(cert) == Err(CertRoleAbsent) <==> cert.role.Absent?
    ensures GetCertRbacRole(cert) == Err(ParseCert) <==>
            !cert.role.Absent? && !(cert.role.Present? && exists role :: SpellsRole(cert.role.value, role))
    ensures forall role :: GetCertRbacRole(cert) == Ok(role) <==>
              cert.role.Present? && SpellsRole(cert.role.value, role)
  {
    forall role
      ensures GetCertRbacRole(cert) == Ok(role) <==> cert.role.Present? && SpellsRole(cert.role.value, role)
    {
      CertRoleExactly(cert, role);
    }
    if cert.role.Present? && ToLower(cert.role.value) == "master" {
      assert SpellsRole(cert.role.value, Master);
    }
    if cert.role.Present? && ToLower(cert.role.value) == "slave" {
      assert SpellsRole(cert.role.value, Slave);
    }
  }

  /** Every refusal of a lookup. The answers themselves are those of `PrecedenceExactly`. */
  lemma LookupRefusalsExactly(m: Roles, cert: Option<Cert>, nodeId: Option<CString>)
    ensures var r := GetNodeRbacRole(m, cert, nodeId);
            var proper := nodeId.Some? ==> IsNodeName(nodeId.value);
            var readable := cert.Some? ==> IsReadable(cert.value);
            && (r == Err(NullInput) <==> cert.None? && nodeId.None?)
            && (r == Err(InvalidParam) <==> !proper)
            && (r == Err(ParseCert) <==> proper && !readable)
            && (r == Err(RbacRoleUnknown) <==>
                  && (cert.Some? || nodeId.Some?) && proper && readable
                  && (cert.Some? ==> cert.value.role.Absent?)
                  && forall id :: IsNodeAskedFor(cert, nodeId, id) ==> id !in m.roles || !IsNodeName(id))
  {
    if cert.Some? {
      CertReads(cert.value);
      CertRoleAnswersExactly(cert.value);
      CertNodeIdAnswersExactly(cert.value, MAX_NODE_ID_LEN);
      var own := GetCertNodeId(cert.value, MAX_NODE_ID_LEN);
      if own.Ok? {
        assert IsNodeAskedFor(cert, nodeId, own.value);
      }
    }
    if nodeId.Some? {
      assert (cert.Some? ==> cert.value.nodeId.Absent?) ==> IsNodeAskedFor(cert, nodeId, nodeId.value);
    }
  }

  /** Every answer of a change to the role map, and what it leaves. */
  lemma SetAnswersExactly(m: Roles, nodeId: CString, role: Role)
    ensures var (t, status) := SetRole(m, nodeId, role);
            var proper := IsNodeName(nodeId) && role in {Master, Slave};
            var full := nodeId !in m.roles && |m.roles| >= 4096;
            && (status == InvalidParam <==> !proper)
            && (status == RbacMapFrozen <==> proper && m.frozen)
            && (status == RbacMapFull <==> proper && !m.frozen && full)
            && (status == Success <==> proper && !m.frozen && !full)
            && t == if status == Success then Roles(m.roles[nodeId := role], false) else m
  {
  }

  lemma RemoveAnswersExactly(m: Roles, nodeId: CString)
    ensures var (t, status) := RemoveRole(m, nodeId);
            && (status == InvalidParam <==> !IsNodeName(nodeId))
            && (status == RbacMapFrozen <==> IsNodeName(nodeId) && m.frozen)
            && (status == RbacMapNotFound <==> IsNodeName(nodeId) && !m.frozen && nodeId !in m.roles)
            && (status == Success <==> IsNodeName(nodeId) && !m.frozen && nodeId in m.roles)
            && (status != Success ==> t == m)
            && (status == Success ==> !t.frozen && nodeId !in t.roles && t.roles[nodeId := m.roles[nodeId]] == m.roles)
  {
    if nodeId in m.roles {
      assert (m.roles - {nodeId})[nodeId := m.roles[nodeId]] == m.roles;
    }
  }

  /** Setting a role succeeds exactly on valid arguments, before the freeze, where the node
      has an entry or there is room. The lookup then finds the role, no other node's role
      changes, and removing a new entry restores the map. */
  lemma SetThenLookup(m: Roles, nodeId: CString, role: Role, other: CString)
    ensures var (t, status) := SetRole(m, nodeId, role);
            && (status == Success <==>
                  && IsValidNodeId(nodeId) && IsValidRole(role) && !m.frozen
                  && (nodeId in m.roles || |m.roles| < MAX_NODE_ROLE_MAP_SIZE))
            && (status != Success ==> t == m)
            && (status == Success ==> GetNodeRbacRole(t, None, Some(nodeId)) == Ok(RoleAnswer(role, FromMapping)))
            && (other != nodeId ==>
                  GetNodeRbacRole(t, None, Some(other)) == GetNodeRbacRole(m, None, Some(other)))
            && (status == Success && nodeId !in m.roles ==> RemoveRole(t, nodeId) == (m, Success))
  {
    var (t, status) := SetRole(m, nodeId, role);
    if status == Success && nodeId !in m.roles {
      assert t.roles - {nodeId} == m.roles;
    }
  }
}
