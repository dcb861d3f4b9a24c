# Secure Communication Framework: a verified model

The Secure Communication Framework wraps a TLS library with policy contexts, role-based access
control (RBAC), automatic key updates and connection objects. This project models its stateful core
in Dafny and proves what the core is meant to keep: over every input, every run of calls and, where
threads meet, every interleaving of their steps.

| file | what it models |
|---|---|
| `Common.dfy` | machine integers, status codes, NUL-terminated strings |
| `RbacTypes.dfy` | rules, requests, certificates, roles and their validity |
| `PolicyMatcher.dfy` | the one-pass rule scan and its order-free meaning |
| `RuleStore.dfy` | the rule map, its id counter, and every run of adds and removes |
| `RoleMap.dfy` | the node-to-role map, its freeze, and role lookup |
| `RbacDecision.dfy` | the whole permission check as one function, its meaning and its monotonicity |
| `RbacContext.dfy` | the RBAC fields of a policy context as a class, its calls and their output arrays |
| `RbacProtocol.dfy` | permission checks interleaved with everything that changes the RBAC state |
| `ContextRefCount.dfy` | the lock-free reference count of a policy context |
| `KeyUpdate.dfy` | byte accounting for the KeyUpdate message of section 4.6.3 of RFC 8446 |
| `VersionWindow.dfy` | the protocol-version range, the forbidden versions and the scan for one that is left |
| `CipherString.dfy` | the two-pass cipher-suite string and the parser that undoes it |
| `HexPrinter.dfy` | the hexadecimal printer and the decoder that undoes it |
| `ConnectionLifecycle.dfy` | connections, engine ownership and every run over many connections |
| `ConnectionResources.dfy` | the context, transport and object of one connection, and when each is released once |
| `ConnectionContexts.dfy` | the reference counts of the policy contexts a connection makes |
| `Connection.dfy` | the connection object as a class, tied to the lifecycle operations |

The TLS library, the clock, the negotiated version, the transport and the certificate decoder are
inputs: each answer they can give is a parameter, and the theorems hold for all answers. A method on
a class is proved equal to an operation on values, and the lemmas about runs are about those
operations. `dafny verify dfyconfig.toml` checks the whole project.

## Main results

- **A check is one decision.** A permission check takes its three reads at three times. While the role
  map is frozen and nobody switches RBAC off, it returns the decision of one moment at which it was
  running, in every interleaving (`RbacProtocol.FrozenChecksAreAtomic`, and `FrozenCheckIsAtomic` for
  the roles and rules alone). `MixesWithFlagSetExactly` and `MixesExactly` say which checks may answer
  what no moment decides without the one or the other condition.
- **Every answer of the check, exactly**, in terms of the question, the certificate, the stored roles and
  the stored rules: `RbacDecision.AnswersExactly`; and `DecisionIsMonotone` for two whole rule maps.
- **The scan has no order.** `PolicyMatcher.MatchPolicyRule` is proved for every iteration order, and
  `VerdictByFields` says who wins: the matching rules that name the most fields exactly.
- **Ids are never reused**, and listing is addition order: `RuleStore.IdsAreNeverReused`,
  `RuleStore.ListingIsAdditionOrder`.
- **The context is deleted once, by the last releaser, and never touched again**:
  `ContextRefCount.RunKeepsInv`, `DeletedExactly`; and nothing can block that deletion:
  `EverythingCanBeReleased`.
- **The counter is the saturated sum of the bytes since the last reset**: `KeyUpdate.CounterIsSaturatedSum`.
- **No engine is deleted twice, and none is lost**: `ConnectionLifecycle.NoEngineDeletedTwice`,
  `EveryEngineDeletedOnce`. **A destroyed connection has released all it was given, once**, exactly
  when no call overwrote a pointer in use: `ConnectionResources.ReleasedOnceExactly`.
- **Printers are invertible**: `CipherString.BuiltStringParses`, `HexPrinter.PrintedStringDecodes`.

## Where the code does less than it seems to

Each is kept as the code has it, with the exact condition where one exists.

- A successful key update stamps time 0 (src/adaptor/openssl/openssl_adaptor.cpp:407), so updates by
  the clock are not spaced by the interval: `KeyUpdate.SpacedExactlyAtTimeZero` and `EveryLaterWriteAsks`.
- The high-security mode is stored before the TLS context is rebuilt (src/scf/policy/policy.cpp:147).
  If no new context can be had, the old one and its range stay: `VersionWindow.HighLimitsRangeExactly`
  and `HighModeMayAllowTls12`.
- The reference count has 32 bits and nothing guards the increment. The invariant holds throughout a run
  exactly when fewer than 2^32 references ever exist at once (`ContextRefCount.SafeExactly`). After n
  creations one release deletes the context under a held reference exactly when n is a multiple of 2^32
  (`WrappedCountDeletesUsedContext`).
- A check may answer what no moment of the run decides, because its three reads are separate. With RBAC
  left on, that happens in some run exactly when the certificate names its node and has no role
  extension, and the freeze prevents it (`RbacProtocol.MixesWithFlagSetExactly`,
  `FrozenChecksAreAtomic`). When RBAC may be switched off in between, it happens exactly when the
  certificate names its node and spells a role or leaves it to the map, and the freeze does not prevent
  it (`MixesExactly`).
- The documentation (docs/cn/api_documentation.md:3000-3015) lets custom rules decide before roles are
  looked at. The code differs exactly for a named node that has no role while a rule matches:
  `RbacDecision.RulesFirstDiffersExactly`. `AllowRuleDoesNotHelp` gives the map for every such question.
- Each copy of a cipher name is checked against the room left in the whole buffer, so a copy function
  that refuses large destinations refuses every name. The buffer is filled exactly when its size is
  supported (`CipherString.CopiesFillExactly`), and a list of ids that is too large exists exactly when
  the limit is below 46 * (2^32 - 1) (`SomeListExceedsExactly`), as 2^31 - 1 is.
- The hexadecimal printer turns down one request for which there is room, the largest:
  `HexPrinter.OnlyLargestIsRefused`.
- Connecting again through a connection that still holds its context, transport or object drops the old
  ones: `ConnectionResources.ReleasedOnceExactly` and `SecondConnectLoses`.
- Closing a connection that is already closed or closing leaves its handshake flag as it was
  (`Connection.SCFConnectionImpl.Close`), and a closed connection with the flag still set is reached by
  connecting again without success: `ConnectionLifecycle.FailedReconnectKeepsHandshake`.
- Setting up a pre-shared key makes an object that nothing frees
  (src/connection/scf_connection_impl.cpp:703), so its context is never deleted. The contexts of a
  destroyed connection are all deleted exactly when that did not happen and no context or object in use
  was overwritten: `ConnectionContexts.ContextsDeletedExactly` and `TemporaryKeepsContext`.
- `SCF_SetKeyAutoUpdateParam` stores the enable flag before it validates the numbers
  (src/scf/policy/auth/psk/psk_key_policy.cpp:31). The limits stay in range, but a refused call switches
  automatic updates on exactly when they were off: `KeyUpdate.RefusedCallSwitchesOn`.
- An accepted connection borrows its listener's engine. Setting it up again after the listener is gone
  gives the adaptor a deleted engine: `ConnectionLifecycle.AdaptorDanglesExactly` says exactly when,
  and `OutlivingTheListenerDangles` gives a run.

## Model

| member | source | states |
|---|---|---|
| PolicyMatcher.MatchPolicyRule | src/scf/policy/auth/rbac/policy_matcher.cpp:47-68 | for every iteration order of the rules: true iff some rule matches; the effect is Deny iff a matching rule of greatest priority denies; with no match the output keeps its value |
| PolicyMatcher.ScanStep | src/scf/policy/auth/rbac/policy_matcher.cpp:55-66 | one iteration keeps the scan's meaning: the best match so far has greatest priority among the rules seen, and Deny has won every tie |
| PolicyMatcher.FullScanIsVerdict | src/scf/policy/auth/rbac/policy_matcher.cpp:54-67 | once all rules are seen the scan's variables are the order-free verdict |
| PolicyMatcher.TopMatchExists | src/scf/policy/auth/rbac/policy_matcher.cpp:26-45 | whenever some rule matches, one of them is at least as specific as all the others |
| PolicyMatcher.MatchedExactly | src/scf/policy/auth/rbac/policy_matcher.cpp:18-24 | a stored rule matches an asked request iff it is about its subject, its target or any target, and its bitmaps include the single type and action, listed set by set |
| PolicyMatcher.PriorityCountsFields | src/scf/policy/auth/rbac/policy_matcher.cpp:26-40 | the priority is one more than the number of fields, among target, type and action, that the rule names exactly |
| PolicyMatcher.VerdictByFields | src/scf/policy/auth/rbac/policy_matcher.cpp:26-68 | the matching rules that name the most fields exactly decide: Deny iff one of them denies, Allow iff one allows and none denies, nothing iff no rule matches |
| PolicyMatcher.MostExactRuleDecides | src/scf/policy/auth/rbac/policy_matcher.cpp:42-68 | a matching rule that names more fields exactly than every other matching rule decides alone |
| PolicyMatcher.RelaxingKeepsAllow | src/scf/policy/auth/rbac/policy_matcher.cpp:26-68 | dropping Deny rules and adding Allow rules, any number at once and whatever the ids, never turns an Allow into anything else |
| PolicyMatcher.RelaxingNeverDenies | src/scf/policy/auth/rbac/policy_matcher.cpp:26-68 | nor a silent rule map into a denial |
| PolicyMatcher.ExactRuleDecides | src/scf/policy/auth/rbac/policy_matcher.cpp:18-45 | with distinct keys, a rule naming the request exactly decides it whatever else is stored, and no other matching rule reaches priority 4 |
| RuleStore.InsertKeepsValid | src/scf/policy/auth/rbac/rbac.cpp:72-89 | an insert keeps keys distinct, the map within capacity, ids below the counter and every rule's own id equal to its key |
| RuleStore.AddKeepsValid | src/scf/policy/auth/rbac/rbac.cpp:359-387 | the same for the public add, for all arguments |
| RuleStore.RemoveKeepsValid | src/scf/policy/auth/rbac/rbac.cpp:389-409 | the same for a remove |
| RuleStore.StepKeepsValidHistory | src/scf/policy/auth/rbac/rbac.cpp:72-89 | each call keeps the tie between the map, the counter, the accepted rules and the removed ids |
| RuleStore.RunIsValid | src/scf/policy/auth/rbac/rbac.cpp:72-89 | in every run the n-th accepted rule has id n, the counter is one more than the number accepted, or 0 after 4294967295, and the map holds exactly the accepted rules not removed since |
| RuleStore.IdsAreNeverReused | src/scf/policy/auth/rbac/rbac.cpp:82-87 | over every run ids are issued in strictly increasing order and a removed id never names a rule again |
| RuleStore.AddSucceedsExactly | src/scf/policy/auth/rbac/rbac.cpp:72-89 | in a reachable store an add succeeds iff the arguments are valid, the key is new, there is room and ids are left; the next id is never in the map, so the colliding branch is unreachable |
| RbacTypes.ValidityExactly | src/scf/policy/auth/rbac/rbac.cpp:29-64 | the accepted rules are those with node names of 1 to 127 bytes other than "*", any target allowed, a nonempty set of the three types and of the two actions; the accepted questions have one node, one type and one action |
| RuleStore.AddAnswersExactly | src/scf/policy/auth/rbac/rbac.cpp:72-89 | in a reachable store every answer of an add, by the values given and the rules stored: invalid, then duplicate (same subject, target, types and actions, whatever the effect), then full; on success just those values are stored under the next id and nothing else changes |
| RuleStore.RemoveAnswersExactly | src/scf/policy/auth/rbac/rbac.cpp:389-409 | a remove succeeds iff the id is stored, takes away that rule and keeps every other, and otherwise changes nothing |
| RuleStore.ExhaustionIsFinal | src/scf/policy/auth/rbac/rbac.cpp:79-87 | once id 4294967295 has been issued no later add of any run is accepted, and the counter stays 0 |
| RuleStore.ExhaustionIsReached | src/scf/policy/auth/rbac/rbac.cpp:79-87 | a run exists that uses up every id and leaves an empty map in which no rule can be stored again |
| RuleStore.AscendingVisitsEachKey | src/scf/policy/auth/rbac/rbac.cpp:425-433 | walking an ordered map visits each id once, in ascending order |
| RuleStore.AscendingIsUnique | src/scf/policy/auth/rbac/rbac.cpp:425-433 | that order is determined by the ids alone |
| RuleStore.ListingIsAdditionOrder | src/scf/policy/auth/rbac/rbac.cpp:411-439 | after every run the listing is exactly the surviving rules in the order they were added, as the documentation of the call promises |
| RoleMap.SetKeepsValid | src/scf/policy/auth/rbac/rbac.cpp:190-219 | setting a role stores only valid ids and the two named roles, within the capacity |
| RoleMap.RemoveKeepsValid | src/scf/policy/auth/rbac/rbac.cpp:221-243 | removing one does too |
| RoleMap.SetThenLookup | src/scf/policy/auth/rbac/rbac.cpp:190-290 | a set succeeds iff the arguments are valid, the map is not frozen and there is an entry or room; lookup then finds the role, other nodes keep theirs, and removing a new entry undoes the set |
| RoleMap.CertNodeIdExactly | src/scf/policy/auth/rbac/rbac.cpp:117-155 | the node id read from a certificate is the extension's text iff that is 1 to 127 bytes without NUL and not "*" |
| RoleMap.LookupExactly | src/scf/policy/auth/rbac/rbac.cpp:245-290 | for a certificate naming its node, lookup yields a role iff the certificate spells it, or has no role extension and the map stores it; it is then Master or Slave |
| RoleMap.PrecedenceExactly | src/scf/policy/auth/rbac/rbac.cpp:245-290 | for any certificate and given id, lookup answers iff everything given is proper; a certificate's role wins over the map and its node over the given id, and the source is reported accordingly |
| RoleMap.LookupRefusalsExactly | src/scf/policy/auth/rbac/rbac.cpp:245-290 | every refusal of a lookup: nothing given, an improper id, an unreadable certificate, or no role in the certificate and none stored for the node asked about |
| RoleMap.CertNodeIdAnswersExactly | src/scf/policy/auth/rbac/rbac.cpp:117-155 | every answer of a node-id read for any buffer size, among them that a proper name is returned iff it fits with its terminator |
| RoleMap.SpellsExactly | src/scf/policy/auth/rbac/rbac.cpp:175-187 | the certificate spells a role iff its text is "master" or "slave", letter by letter in either case |
| RbacDecision.VerdictMeaning | src/scf/policy/auth/rbac/policy_matcher.cpp:47-68 | the verdict is Allow iff a most specific match allows and none of them denies, and there is no verdict iff no rule matches |
| RbacDecision.IdentityExactly | src/scf/policy/auth/rbac/rbac.cpp:441-457 | resolving the local identity yields a node and role iff the certificate names the node and the node has the role |
| RbacDecision.GrantedExactly | src/scf/policy/auth/rbac/rbac.cpp:484-519 | a check succeeds iff its arguments are valid, RBAC is enabled, and the certificate's node has a role and either the rules allow or they are silent and the role is Master or the target is the node itself |
| RbacDecision.AnswersExactly | src/scf/policy/auth/rbac/rbac.cpp:441-519 | on every reachable state, each of the seven answers of a check iff its own condition on the question, the flag, the certificate, the stored roles and the stored rules, none stated through the matcher |
| RbacDecision.PermissionExactly | src/scf/policy/auth/rbac/rbac.cpp:459-482 | a node with a role is allowed iff the most exact rules about the question do not deny, and they allow or its role does |
| RbacDecision.UnknownRoleExactly | src/scf/policy/auth/rbac/rbac.cpp:441-482 | the unknown-role error occurs iff a named node has neither a role extension nor a stored role; the default policy's own unknown-role branch is unreachable |
| RbacDecision.RulesFirstDiffersExactly | src/scf/policy/auth/rbac/rbac.cpp:501-518 | the check differs from the documented order, rules before roles, iff a named node has no role and a rule matches |
| RbacDecision.AllowRuleDoesNotHelp | src/scf/policy/auth/rbac/rbac.cpp:503-506 | for every question of a named node without a role extension: with one rule allowing exactly it and an empty role map, the check answers that the role is unknown |
| RbacDecision.DecisionIsMonotone | src/scf/policy/auth/rbac/rbac.cpp:484-519 | replacing the rules by any less strict map, compared by key and effect, never turns a grant into a denial, defaults included |
| RbacDecision.SingleEdits | src/scf/policy/auth/rbac/rbac.cpp:359-409 | adding Deny or removing Allow never grants; adding Allow or removing Deny never denies |
| RbacDecision.ExactRuleDecidesCheck | src/scf/policy/auth/rbac/rbac.cpp:491-518 | in a valid store a rule naming the request exactly decides the whole check |
| RbacContext.Context.constructor | src/scf/policy/policy.cpp:97-101 | a new context is valid, with no rules or roles, not frozen, and with RBAC off |
| RbacContext.Context.InsertPolicyRule | src/scf/policy/auth/rbac/rbac.cpp:72-89 | the loop over stored rules and the counter update perform the insert on values |
| RbacContext.Context.AddPolicyRule | src/scf/policy/auth/rbac/rbac.cpp:359-387 | performs the add and keeps the context valid |
| RbacContext.Context.RemovePolicyRule | src/scf/policy/auth/rbac/rbac.cpp:389-409 | performs the remove and keeps the context valid |
| RbacContext.Context.ListPolicyRules | src/scf/policy/auth/rbac/rbac.cpp:411-439 | writes exactly the first min(capacity, size) rules of the listing and leaves later elements alone; if memory runs out after n copies the count is n and that prefix is right; a zero capacity changes nothing |
| RbacContext.Context.SetNodeRoleMapping | src/scf/policy/auth/rbac/rbac.cpp:190-219 | performs the set and keeps the context valid |
| RbacContext.Context.RemoveNodeRoleMapping | src/scf/policy/auth/rbac/rbac.cpp:221-243 | performs the remove and keeps the context valid |
| RbacContext.Context.FinishHandshake | src/scf/connection/connection.cpp:30-45 | freezes the role map iff the handshake succeeded |
| RbacContext.Context.ListMasterNodes | src/scf/policy/auth/rbac/rbac.cpp:304-334 | for every iteration order of the hash map, counts min(capacity, masters) and writes the first masters met, each NUL-terminated in its own 128-byte row, touching no other byte |
| RbacContext.FillMasterRows | src/scf/policy/auth/rbac/rbac.cpp:318-331 | the loop fills the rows with a prefix of the masters in iteration order |
| RbacContext.CopyNodeId | src/scf/policy/auth/rbac/rbac.cpp:325-329 | one row gets the id and its terminator and nothing else changes |
| RbacContext.MastersListedOnce | src/scf/policy/auth/rbac/rbac.cpp:318-331 | every iteration order lists each master once and nobody else |
| RbacContext.MasterCount | src/scf/policy/auth/rbac/rbac.cpp:318-331 | so their number does not depend on the order |
| RbacContext.MasterRowsReadBack | src/scf/policy/auth/rbac/rbac.cpp:318-331 | the rows read back as C strings are distinct masters, and all of them when there is room |
| RbacContext.Context.GetCustomPolicyEffect | src/scf/policy/auth/rbac/rbac.cpp:459-464 | scanning the stored rules gives the order-free verdict on them |
| RbacContext.Context.DecideByRules | src/scf/policy/auth/rbac/rbac.cpp:508-518 | the order-free verdict on the stored rules decides, and the role's default only where they are silent |
| RbacContext.Context.CheckResourcePermission | src/scf/policy/auth/rbac/rbac.cpp:484-519 | run alone, the check returns the decision on the context's current state |
| RbacProtocol.RunKeepsShared | src/scf/policy/auth/rbac/rbac.cpp:72-243 | in every interleaving the rule store and the role map stay valid |
| RbacProtocol.UndisturbedCheckDecides | src/scf/policy/auth/rbac/rbac.cpp:484-519 | from any state, a check that takes its reads undisturbed returns the decision on that state and changes nothing else |
| RbacProtocol.OnlyTheNextReadMovesACheck | src/scf/policy/auth/rbac/rbac.cpp:484-519 | in any state the read a check waits for brings it nearer to its answer, so three reads finish it, and no other event touches it |
| RbacProtocol.RulesAreThoseOfTheOps | src/scf/policy/auth/rbac/rbac.cpp:375-376 | in every interleaving the stored rules are those of the adds and removes alone, in their order |
| RbacProtocol.EnabledExactly | src/scf/policy/auth/rbac/rbac.cpp:299 | RBAC is on iff it was last switched on |
| RbacProtocol.FrozenExactly | src/scf/policy/auth/rbac/rbac.cpp:91-100 | the map is frozen iff a handshake has succeeded: want-read, want-write and failures leave the flag, and nothing clears it |
| RbacProtocol.FrozenRolesAreConstant | src/scf/policy/auth/rbac/rbac.cpp:190-243 | once frozen the role map is the same for the rest of the run |
| RbacProtocol.ChecksAreExplained | src/scf/policy/auth/rbac/rbac.cpp:484-519 | whatever a check holds comes from steps that it took in this run, flag before roles before rules |
| RbacProtocol.CheckAnswersDecision | src/scf/policy/auth/rbac/rbac.cpp:484-519 | every finished check returned the decision on the flag, the roles and the rules of three ordered moments, and each read it needed is a step it took at that moment; the rules are all from one |
| RbacProtocol.FrozenCheckIsAtomic | src/scf/policy/auth/rbac/rbac.cpp:441-519 | a check whose role read follows the freeze and that saw RBAC enabled returns the atomic decision on the frozen roles and the rules of the moment that settled it: its rule read, or its role read if that found no role; if the flag is still set there, it is the decision on the whole state of that moment |
| RbacProtocol.FrozenChecksAreAtomic | src/scf/policy/auth/rbac/rbac.cpp:441-519 | a check that runs on a frozen map, with the flag never cleared while it runs, returns the decision on the whole state of a moment at which it was running |
| RbacProtocol.FixedRoleChecksAreAtomic | src/scf/policy/auth/rbac/rbac.cpp:441-519 | frozen or not: while the flag stays set, so does a check whose certificate does not leave the role of a named node to the map |
| RbacProtocol.UnresolvableChecksAreAtomic | src/scf/policy/auth/rbac/rbac.cpp:441-506 | whatever happens to map and flag, so does a check whose certificate names no node or has a role extension that spells no role |
| RbacProtocol.MixesWithFlagSetExactly | src/scf/policy/auth/rbac/rbac.cpp:496-518 | with the flag never cleared while the check runs, some run lets it answer what the whole state of none of its moments decides iff the question is valid and the certificate names the node and has no role extension |
| RbacProtocol.MixesExactly | src/scf/policy/auth/rbac/rbac.cpp:496-518 | over all runs that happens iff the question is valid and the certificate names the node and spells a role or has no role extension; the same with the map frozen from the beginning of the check |
| RbacProtocol.UnfrozenCheckMayMixStates | src/scf/policy/auth/rbac/rbac.cpp:501-518 | a valid question and a run that mixes states without the flag being cleared |
| ContextRefCount.StepKeepsInv | src/scf/policy/policy.cpp:116-132 | each load, exchange, creation, hand-over and destruction step of any thread keeps the invariant |
| ContextRefCount.CasKeepsInv | src/scf/policy/policy.cpp:117-128 | so does the weak exchange, whether it succeeds, loses a race or fails for no reason |
| ContextRefCount.ExchangeExactly | src/scf/policy/policy.cpp:117-128 | an exchange gives back its reference and lowers the count by one iff it meets the expected value and does not fail for no reason; otherwise it changes neither and retries with the value found |
| ContextRefCount.ReleaseExactly | src/scf/policy/policy.cpp:116-132 | in every reachable state an undisturbed release removes exactly its own reference, lowers the count by one and leaves all others; it goes on to the deletion iff the count was 1 |
| ContextRefCount.CreateKeepsInv | src/scf/connection/obj.cpp:42-43 | so does object creation below 2^32 references |
| ContextRefCount.RunKeepsInv | src/scf/policy/policy.cpp:105-133 | in every interleaving the count is the number of references held, one thread at most takes it to 0 and deletes, no step uses the context after that, and no release finds 0 |
| ContextRefCount.SafeExactly | src/scf/connection/obj.cpp:42-43 | all of that holds at every moment of a run iff fewer than 2^32 references are ever held at once |
| ContextRefCount.DeletedExactly | src/scf/policy/policy.cpp:122-132 | the context is deleted iff all references are released and no thread is still at work, and then exactly once |
| ContextRefCount.EverythingCanBeReleased | src/scf/policy/policy.cpp:116-132 | from every reachable state below the bound, releases alone lead to a state with no reference left and the context deleted exactly once |
| ContextRefCount.WrappedCountDeletesUsedContext | src/scf/connection/obj.cpp:43 | for every n > 0: after n creations, releasing one object deletes a context that is used afterwards through a held reference iff n is a multiple of 2^32 |
| KeyUpdate.UpdateContext.SetKeyAutoUpdateParam | src/scf/policy/auth/psk/psk_key_policy.cpp:22-46 | stores the flag first, the limits only when valid, and keeps the limits in range |
| KeyUpdate.RefusedCallSwitchesOn | src/scf/policy/auth/psk/psk_key_policy.cpp:31-42 | a refused call is one to enable; it keeps the numbers and changes nothing iff automatic updates were already on |
| KeyUpdate.SecureObject.constructor | src/scf/connection/obj.cpp:53-58 | a new object has counted nothing and is stamped with the creation time |
| KeyUpdate.SecureObject.CheckTimeInterval | src/adaptor/session_key_update.cpp:19-37 | true iff, over the integers, the interval has passed; an error iff the clock is behind the stamp |
| KeyUpdate.SecureObject.CheckNeedKeyUpdate | src/adaptor/session_key_update.cpp:39-66 | with wrapping 64-bit operators, over the integers and for every stamp: the counter saturates; reaching the threshold asks; below it the clock asks iff it is at least the stamp plus the interval and fails iff it is before the stamp; the second threshold test never fires |
| KeyUpdate.SecureObject.AdaptorKeyUpdate | src/adaptor/openssl/openssl_adaptor.cpp:381-410 | only a successful update resets the counter and the stamp, both to 0 |
| KeyUpdate.SecureObject.Write | src/scf/connection/connection.cpp:128-147 | counts and updates after a write; after a successful auto-update TLS 1.3 write the counter is below the threshold |
| KeyUpdate.WriteAnswersExactly | src/scf/connection/connection.cpp:128-147 | every answer of a write and the meter it leaves, by the library's answers, the limits and the clock |
| KeyUpdate.SecureObject.ObjKeyUpdate | src/scf/policy/auth/psk/psk_key_policy.cpp:90-115 | clears the counter before the library is asked, and counts only successful updates, in 32 bits |
| KeyUpdate.SecureObject.GetKeyUpdateInfo | src/scf/policy/auth/psk/psk_key_policy.cpp:68-88 | reports the stamp, the context's interval and the traffic left, never negative |
| KeyUpdate.CounterIsSaturatedSum | src/adaptor/session_key_update.cpp:50-63 | in every run the counter is min(2^64-1, bytes counted since the last reset) and the limits are in range |
| KeyUpdate.SuccessfulWriteLeavesRoom | src/scf/connection/connection.cpp:139-147 | in every run the remaining traffic after a successful auto-update TLS 1.3 write is positive and exact |
| KeyUpdate.UpdatesAreCounted | src/scf/policy/auth/psk/psk_key_policy.cpp:113 | in every run the number of updates is that of the forced updates the library carried out, in 32 bits |
| KeyUpdate.ClockCountsFromCreation | src/adaptor/session_key_update.cpp:27-34 | while nothing has moved its stamp, an object below the threshold is asked from its creation time plus the interval on, and the clock fails iff it is before the creation |
| KeyUpdate.ClockCountsFromForce | src/scf/policy/auth/psk/psk_key_policy.cpp:104-107 | the same after a forced update, from the time of the attempt if it failed and from 0 if it succeeded |
| KeyUpdate.SpacedExactlyAtTimeZero | src/adaptor/openssl/openssl_adaptor.cpp:406-408 | after a successful update the clock waits for the interval iff the update happened at time 0 |
| KeyUpdate.StampStaysZero | src/adaptor/openssl/openssl_adaptor.cpp:406-408 | from any successful update of a run on, forced or by a write, the stamp is 0 for as long as no forced update fails |
| KeyUpdate.EveryLaterWriteAsks | src/adaptor/session_key_update.cpp:31-34 | while the stamp is 0 and no forced update fails, every auto-update TLS 1.3 write asks for an update, at any clock from the largest interval on |
| VersionWindow.CheckVersion | src/adaptor/openssl/openssl_adaptor.cpp:306-331 | for every range, succeeds iff the range is unrestricted or holds a free version with only forbidden supported ones before it |
| VersionWindow.ScanMeansFreeVersion | src/adaptor/openssl/openssl_adaptor.cpp:319-330 | for supported ends that is: iff some version of the range is free |
| VersionWindow.ScanExactly | src/adaptor/openssl/openssl_adaptor.cpp:306-331 | for every range: the scan succeeds iff the range is (0, 0), or starts at TLS 1.2 or 1.3 and one of these in it is free |
| VersionWindow.ForbidBitsMeaning | src/adaptor/openssl/openssl_adaptor.cpp:989-997 | the accumulated option bits forbid exactly the listed versions |
| VersionWindow.TlsContext.SetProtocolVersion | src/adaptor/openssl/openssl_adaptor.cpp:971-1003 | performs the change; it succeeds iff the library takes both ends and every forbidden version is supported, and then leaves exactly the asked ends |
| VersionWindow.ChangeExactly | src/adaptor/openssl/openssl_adaptor.cpp:979-1000 | every answer of the change, the ends left behind by a refused one, and that it forbids just the listed versions, if it succeeds |
| VersionWindow.OptionsRecordForbids | src/adaptor/openssl/openssl_adaptor.cpp:998-1000 | in every run a version is forbidden iff some successful call since the context was built, or the library's own defaults, forbade it |
| VersionWindow.RangeIsLastAccepted | src/scf/policy/policy.cpp:251-279 | in every run the current ends are those of the mode when the context was built, or the last minimum and the last maximum that the library accepted since |
| VersionWindow.CheckSeesWholeHistory | src/adaptor/openssl/openssl_adaptor.cpp:306-331 | in every run and for every range: the check succeeds iff the last accepted range is (0, 0), or starts at TLS 1.2 or 1.3 and one of these in it is outside everything forbidden since the context was built |
| VersionWindow.HighStaysTls13 | src/scf/policy/policy.cpp:264-269 | from a successful high-security call on, no run of version calls moves the range off TLS 1.3 |
| VersionWindow.HighCallsKeepTls13 | src/scf/policy/policy.cpp:145-153 | from a high-security call that built a context on, in every run whose mode calls are all for that mode, a context that exists is limited to TLS 1.3, through failures too |
| VersionWindow.HighLimitsRangeExactly | src/scf/policy/policy.cpp:145-153 | a high-security call leaves the range at TLS 1.3 iff it built a new context, or kept an old one already limited |
| VersionWindow.HighModeMayAllowTls12 | src/scf/policy/policy.cpp:147-153 | a run ending in high-security mode with TLS 1.2 allowed |
| CipherString.GetCipherSuitesStrLen | src/adaptor/openssl/openssl_adaptor.cpp:888-901 | the 64-bit sum never wraps and is the length of the concatenated entries |
| CipherString.SetCipherSuites | src/adaptor/openssl/openssl_adaptor.cpp:903-948 | the buffer ends up holding the recognised names joined by single colons plus one NUL, filled exactly; refused iff nothing is recognised or the library refuses; with a too small copy limit nothing is copied |
| CipherString.FillBuffer | src/adaptor/openssl/openssl_adaptor.cpp:926-938 | every copy fits within the precomputed length and the offset ends at it |
| CipherString.CopiesFillExactly | src/adaptor/openssl/openssl_adaptor.cpp:926-938 | the copies fill the buffer iff the copy function supports one of its size |
| CipherString.SomeListExceedsExactly | src/adaptor/openssl/openssl_adaptor.cpp:914-936 | a list that the call can receive exceeds the supported size iff that is below 46 * (2^32 - 1) |
| CipherString.CopyInto | src/adaptor/openssl/openssl_adaptor.cpp:934 | a copy changes only its own stretch |
| CipherString.ConcatenatedIsJoined | src/adaptor/openssl/openssl_adaptor.cpp:940 | the entries with their own colons are the joined names with one colon too many |
| CipherString.SplitUndoesJoin | src/adaptor/openssl/openssl_adaptor.cpp:926-940 | splitting at colons recovers the list of names |
| CipherString.NameReadsBack | src/adaptor/openssl/openssl_adaptor.cpp:856-886 | the name table is injective and its names hold no colon |
| CipherString.RegisteredIds | src/adaptor/openssl/openssl_adaptor.cpp:856-886 | exactly ten ids are known |
| CipherString.RegisteredTls13Names | src/adaptor/openssl/openssl_adaptor.cpp:873-880 | the TLS 1.3 ids stand for the names that appendix B.4 of RFC 8446 registers |
| CipherString.RecognisedInOrder | src/adaptor/openssl/openssl_adaptor.cpp:926-938 | ids are judged one by one and keep their order, repeated ones included |
| CipherString.JoinUndoesSplit | src/adaptor/openssl/openssl_adaptor.cpp:926-940 | any text is the join of its parts between colons |
| CipherString.BuiltStringParses | src/adaptor/openssl/openssl_adaptor.cpp:914-941 | parsing the C string handed to the library gives the recognised ids in order |
| HexPrinter.Num2HexStr | src/common/utils/policy_utils.cpp:189-208 | the 32-bit product never decides wrongly: a nonempty input shorter than 2^31 - 1 bytes with room over the integers gives two digits a byte and a NUL, any other request the empty string, and only missing buffers are errors |
| HexPrinter.OnlyLargestIsRefused | src/common/utils/policy_utils.cpp:198-201 | a request with room over the integers gets the empty string iff it is the one with 2^31 - 1 bytes and a buffer of 2^32 - 1 |
| HexPrinter.PrintDigits | src/common/utils/policy_utils.cpp:202-206 | the moving pointer writes the digits in place and leaves what follows alone |
| HexPrinter.HexReadsBack | src/common/utils/policy_utils.cpp:202-205 | decoding the digits gives the bytes back |
| HexPrinter.HexSpellsTheNumber | src/common/utils/policy_utils.cpp:202-205 | the digits are lower-case and spell, the most significant first, the number that the bytes hold |
| HexPrinter.PrintedStringDecodes | src/common/utils/policy_utils.cpp:202-206 | decoding the C string in the buffer gives the input, whatever follows the terminator |
| ConnectionLifecycle.CleanupEndsClosed | src/connection/scf_connection_impl.cpp:396-430 | cleanup always ends closed, holding no object, context, transport or owned engine |
| ConnectionLifecycle.ConnectAnswersExactly | src/connection/scf_connection_impl.cpp:809-839 | a connect reports success, and leaves the connection connected, iff setup, transport, object and handshake all succeeded; otherwise it reports the first that failed, and is connecting iff only the handshake has to wait |
| ConnectionLifecycle.HandshakeAnswersExactly | src/connection/scf_connection_impl.cpp:924-955 | a later step connects iff the handshake succeeds, waits iff it wants to read or write, and fails otherwise |
| ConnectionLifecycle.AcceptAnswersExactly | src/connection/scf_connection_impl.cpp:860-922 | an accept returns a connection iff there was one, every layer succeeded and the handshake succeeded or waits; it is connected iff the handshake succeeded, and borrows the listener's engine |
| ConnectionLifecycle.ListenAnswersExactly | src/connection/scf_connection_impl.cpp:841-858 | a listen succeeds, and leaves the listener in its initial state, iff setup and transport did, and reports the first that failed |
| ConnectionLifecycle.ConnectKeepsSound | src/connection/scf_connection_impl.cpp:809-839 | connected implies a policy object and a finished handshake, through every outcome of a connect |
| ConnectionLifecycle.ListenKeepsSound | src/connection/scf_connection_impl.cpp:841-858 | and of a listen |
| ConnectionLifecycle.AcceptGivesSound | src/connection/scf_connection_impl.cpp:860-922 | and for every accepted connection |
| ConnectionLifecycle.FailedReconnectKeepsHandshake | src/connection/scf_connection_impl.cpp:396-430 | a run that ends with a closed connection whose handshake flag is still set |
| ConnectionLifecycle.ConnectIsFair | src/connection/scf_connection_impl.cpp:809-839 | a connect deletes only engines that are new or its own, once, and loses none |
| ConnectionLifecycle.ListenIsFair | src/connection/scf_connection_impl.cpp:841-858 | so does a listen |
| ConnectionLifecycle.AcceptIsFair | src/connection/scf_connection_impl.cpp:860-922 | an accept, refused or not, never touches an engine that existed before, and a refused one leaves none behind |
| ConnectionLifecycle.StepKeepsWorld | src/connection/scf_connection_impl.cpp:809-978 | any call on any of many connections keeps: one owner an engine, owned engines alive, none lost, all connections sound |
| ConnectionLifecycle.NoEngineDeletedTwice | src/connection/scf_connection_impl.cpp:391-430 | over every run, in any order of destruction, no engine is deleted twice, and a connection reports itself connected iff its state is connected |
| ConnectionLifecycle.EveryEngineDeletedOnce | src/connection/scf_connection_impl.cpp:418-427 | after every run that destroys all its connections, each engine ever made has been deleted exactly once |
| ConnectionLifecycle.AdaptorDanglesExactly | src/connection/scf_connection_impl.cpp:418-475 | the adaptor refers to no deleted engine at any moment of a run iff no call sets up a policy context with an engine that is gone |
| ConnectionLifecycle.OutlivingTheListenerDangles | src/connection/scf_connection_impl.cpp:469-473 | such calls exist: a run in which the adaptor ends with a deleted engine |
| ConnectionResources.CallsActOnPointers | src/connection/scf_connection_impl.cpp:809-922 | after any call the connection has a context, transport or object iff the call did not clean up and either stored one or left one in place |
| ConnectionResources.LedgerKeepsExactly | src/connection/scf_connection_impl.cpp:396-430 | in every run nothing is released twice, and nothing is forgotten iff no call stored a pointer over one in use |
| ConnectionResources.ReleasedOnceExactly | src/connection/scf_connection_impl.cpp:391-416 | a destroyed connection has released each context, transport and object it was given exactly once iff no call set one up while it still had one |
| ConnectionResources.SecondConnectLoses | src/connection/scf_connection_impl.cpp:809-839 | two connects in a row that both reach the handshake lose one of each |
| ConnectionContexts.CallCounts | src/connection/scf_connection_impl.cpp:436-839 | each call keeps every context's count at or above the references still held, and at most 3; exactly the leaking calls put a count above them |
| ConnectionContexts.ContextsDeletedExactly | src/connection/scf_connection_impl.cpp:396-430 | when a connection is destroyed, the counts of all contexts it made have come down to 0 iff no call overwrote a context or object in use and none made the temporary object of a pre-shared key |
| ConnectionContexts.CertificateModeExactly | src/connection/scf_connection_impl.cpp:533-537 | without temporary objects that is: iff no context or object pointer in use was overwritten |
| ConnectionContexts.TemporaryKeepsContext | src/connection/scf_connection_impl.cpp:702-703 | one connect with the temporary object, then destruction, leaves its context with a count of 1 |
| Connection.SCFConnectionImpl.Close | src/connection/scf_connection_impl.cpp:957-978 | performs the close and reports what closing the session answered; the handshake is forgotten unless the connection was already closed or closing |
| Connection.SCFConnectionImpl.Cleanup | src/connection/scf_connection_impl.cpp:396-430 | performs the cleanup on the connection and the adaptor, and ends closed |
| Connection.SCFConnectionImpl.SetupPolicyContext | src/connection/scf_connection_impl.cpp:436-564 | performs the setup: an engine is made only when there is none, and owned only when it works |
| Connection.SCFConnectionImpl.HandshakeStep | src/connection/scf_connection_impl.cpp:924-955 | performs one handshake step |
| Connection.SCFConnectionImpl.Connect | src/connection/scf_connection_impl.cpp:809-839 | performs the connect and keeps the connection sound |
| Connection.SCFConnectionImpl.Listen | src/connection/scf_connection_impl.cpp:841-858 | performs the listen and keeps the connection sound |
| Connection.SCFConnectionImpl.Accept | src/connection/scf_connection_impl.cpp:860-922 | returns a new sound connection or none, and never changes the listener |
| Connection.SCFConnectionImpl.Transfer | src/connection/scf_connection_impl.cpp:980-994 | reads and writes reach the TLS layer iff the connection reports itself connected, and then report its answer |

## Left out

- RbacContext.Context.CheckResourcePermission: one call on its own; interleaved calls are in `RbacProtocol`, whose steps are the regions guarded by the enable flag and the two mutexes.
- ContextRefCount.RunKeepsInv: assumes that fewer than 2^32 references are held at any moment, because the counter wraps; `ContextRefCount.SafeExactly` shows that no weaker bound will do.
- KeyUpdate.CounterIsSaturatedSum: follows one object of a context, as limits are shared by objects but counters are not.
- ConnectionResources.ReleasedOnceExactly: counts the connection's own references; the count of a context, with its objects' references, is in `ConnectionContexts`. Runs there may hand a connection an accepted transport later than its first call, which the code never does.
- HexPrinter.Num2HexStr: the input buffer is a value, so an output buffer that overlaps it is not modelled.
- VersionWindow.TlsContext.SetProtocolVersion: an option word is the set of the positions of its one bits.
- Null pointers and the initialisation checks at the head of each call.
- C enumerators outside their range, except the effect of a new rule and the role of a mapping.
- Running out of memory, except while rules are listed and where a connection is set up.
- The reason a certificate extension cannot be read: one malformed value stands for all of them.
- Which error setting a file descriptor gives: one code stands for all of them.
- Memory order: each atomic access and each locked region is one step, in one order seen by all threads.
- TLS records, handshakes, certificates, engines and sockets themselves: they belong to other libraries.
- JSON configuration, file checks, password buffers, logging, error-message and security-level tables, `SCF_IsMasterNode` and the plain getters: they would only add easy members.
