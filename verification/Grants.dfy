// The approval grants of src/acl/approval_grant.rs: signing, verifying, the
// lifecycle of one grant, and the glob scopes.
module Grants {
  import opened Wrappers
  import opened Text

  datatype RiskLevel = Low | Medium | High {
    function Rank(): nat {
      match this case Low => 0 case Medium => 1 case High => 2
    }
  }

  datatype IssuerAuthority = RuntimeAutomatic | HumanReview | ExternalOAuth | Delegated

  datatype OpIdMatch = Exact | GlobPattern(pattern: string)

  datatype Subject = Subject(agentId: string, principalId: string, ownerId: string, workspaceId: string,
                             sessionKey: Option<string>)

  datatype Issuer = Issuer(authority: IssuerAuthority, authorityId: string, publicKeyId: string)

  datatype Capability = Capability(opId: string, opIdMatch: OpIdMatch, riskLevel: RiskLevel)

  datatype ResourceConstraints = ResourceConstraints(
    absPathPrefix: Option<string>,
    urlHostAllowlist: Option<seq<string>>,
    recipientAllowlist: Option<seq<string>>,
    maxPayloadBytes: Option<nat>,
    maxConcurrentCalls: Option<nat>)

  datatype DecisionApprovalBinding = DecisionApprovalBinding(decisionId: string, catalogGeneration: seq<int>,
                                                             callDigest: seq<int>)

  datatype WitnessSignature = WitnessSignature(alg: string, signature: string, signedPayloadSha256: string)

  const NO_SIGNATURE: WitnessSignature := WitnessSignature("", "", "")

  const VERSION: int := 2

  // A grant as a value; times count seconds.
  datatype Grant = Grant(
    grantId: string,
    version: int,
    subject: Subject,
    issuer: Issuer,
    capability: Capability,
    resourceConstraints: ResourceConstraints,
    issuedAt: int,
    notBefore: int,
    expiresAt: int,
    maxUses: nat,
    usesConsumed: nat,
    witnessSignature: WitnessSignature,
    relatedTaskId: Option<string>,
    relatedMessageEventId: Option<int>,
    revokedAt: Option<int>,
    revocationReason: Option<string>,
    decisionBinding: Option<DecisionApprovalBinding>)

  // The signature scheme and the canonical encoding, as functions of the grant
  // with its signature blanked.
  datatype Crypto = Crypto(
    sign: (string, Grant) -> string,
    verifies: (string, Grant, string) -> bool,
    sha: Grant -> string)

  datatype Keyring = Keyring(kid: string, key: string)

  // What a signer produces verifies.
  ghost predicate IsSound(crypto: Crypto) {
    forall key, g :: crypto.verifies(key, g, crypto.sign(key, g))
  }

  // Only what the key signed verifies, and a signature signs one grant.
  ghost predicate IsUnforgeable(crypto: Crypto) {
    && (forall key, g, s :: crypto.verifies(key, g, s) ==> s == crypto.sign(key, g))
    && (forall key, g, h :: crypto.sign(key, g) == crypto.sign(key, h) ==> g == h)
  }

  datatype Verdict = Verified | Refused(reason: string)

  // ---------------------------------------------------------------- signing

  function Unsigned(g: Grant): Grant {
    g.(witnessSignature := NO_SIGNATURE)
  }

  // `sign_grant`: the grant under the current version and key, signed afresh.
  function Signed(crypto: Crypto, keyring: Keyring, g: Grant): Grant {
    var payload := g.(version := VERSION, issuer := g.issuer.(publicKeyId := keyring.kid),
                      witnessSignature := NO_SIGNATURE);
    payload.(witnessSignature := WitnessSignature("Ed25519", crypto.sign(keyring.key, payload), crypto.sha(payload)))
  }

  function VerifyGrant(crypto: Crypto, keyring: Keyring, g: Grant): Verdict {
    if g.version != VERSION then Refused("unsupported approval grant version")
    else if g.witnessSignature.alg != "Ed25519" then Refused("unsupported approval grant signature alg")
    else if g.issuer.publicKeyId != keyring.kid then Refused("unknown witness key id")
    else if crypto.sha(Unsigned(g)) != g.witnessSignature.signedPayloadSha256 then
      Refused("signed_payload_sha256 mismatch")
    else if !crypto.verifies(keyring.key, Unsigned(g), g.witnessSignature.signature) then
      Refused("approval grant signature verification failed")
    else Verified
  }

  lemma {:induction false} SigningVerifies(crypto: Crypto, keyring: Keyring, g: Grant)
    requires IsSound(crypto)
    ensures VerifyGrant(crypto, keyring, Signed(crypto, keyring, g)) == Verified
  {
    var signed := Signed(crypto, keyring, g);
    var payload := Unsigned(signed);
    assert signed == payload.(witnessSignature := signed.witnessSignature);
  }

  // A signature covers every field: two verified grants that carry the same
  // signature are the same grant.
  lemma {:induction false} SignatureCoversEveryField(crypto: Crypto, keyring: Keyring, g: Grant, h: Grant)
    requires IsUnforgeable(crypto)
    requires VerifyGrant(crypto, keyring, g) == Verified && VerifyGrant(crypto, keyring, h) == Verified
    requires g.witnessSignature == h.witnessSignature
    ensures g == h
  {
    assert crypto.sign(keyring.key, Unsigned(g)) == crypto.sign(keyring.key, Unsigned(h));
    assert g == Unsigned(g).(witnessSignature := g.witnessSignature);
    assert h == Unsigned(h).(witnessSignature := h.witnessSignature);
  }

  // ---------------------------------------------------------------- the verifiers

  predicate IsTimeValid(g: Grant, now: int) {
    g.notBefore <= now < g.expiresAt
  }

  predicate HasUsesRemaining(g: Grant) {
    g.maxUses == 0 || g.usesConsumed < g.maxUses
  }

  predicate OpIdMatches(granted: string, mode: OpIdMatch, requested: string) {
    match mode
    case Exact => granted == requested
    case GlobPattern(pattern) => ConservativeGlobMatch(pattern, requested)
  }

  predicate MatchesOperation(g: Grant, opId: string, risk: RiskLevel) {
    g.capability.riskLevel.Rank() >= risk.Rank() && OpIdMatches(g.capability.opId, g.capability.opIdMatch, opId)
  }

  function VerifyOperationSignature(crypto: Crypto, keyring: Keyring, g: Grant, opId: string, risk: RiskLevel,
                                    now: int): Verdict
  {
    var signature := VerifyGrant(crypto, keyring, g);
    if signature.Refused? then signature
    else if g.revokedAt.Some? then Refused("approval grant is revoked")
    else if !IsTimeValid(g, now) then Refused("approval grant is outside its validity window")
    else if !HasUsesRemaining(g) then Refused("approval grant has no remaining uses")
    else if !MatchesOperation(g, opId, risk) then Refused("approval grant does not match requested operation")
    else Verified
  }

  function VerifyForOperation(crypto: Crypto, keyring: Keyring, g: Grant, opId: string, risk: RiskLevel,
                              now: int): Verdict
  {
    if g.decisionBinding.Some? then Refused("decision-bound approval requires decision-scope verification")
    else VerifyOperationSignature(crypto, keyring, g, opId, risk, now)
  }

  function VerifyForOperationBound(crypto: Crypto, keyring: Keyring, g: Grant, opId: string, risk: RiskLevel,
                                   caller: Option<string>, now: int): Verdict
  {
    var operation := VerifyForOperation(crypto, keyring, g, opId, risk, now);
    if operation.Refused? then operation
    else if caller.None? then Refused("approval grant requires a caller principal (none provided)")
    else if caller.value == "" then Refused("approval grant requires a non-empty caller principal")
    else if g.subject.principalId == "" then Refused("approval grant subject principal is empty")
    else if g.subject.principalId != caller.value then
      Refused("approval grant principal mismatch: grant subject does not match caller principal")
    else Verified
  }

  function VerifyForDecision(crypto: Crypto, keyring: Keyring, g: Grant, subject: Subject,
                             binding: DecisionApprovalBinding, opId: string, risk: RiskLevel, now: int): Verdict
  {
    var operation := VerifyOperationSignature(crypto, keyring, g, opId, risk, now);
    if operation.Refused? then operation
    else if g.subject == subject && g.decisionBinding == Some(binding) && g.issuer.authority == HumanReview
            && g.maxUses == 1 && g.usesConsumed == 0 && g.capability.opIdMatch == Exact && g.capability.opId == opId
    then Verified
    else Refused("approval grant does not match the pending decision call")
  }

  // A grant verifies exactly in version 2, signed with Ed25519 by the keyring's key
  // over its canonical form, whose digest it carries.
  lemma {:induction false} VerifiesExactly(crypto: Crypto, keyring: Keyring, g: Grant)
    ensures VerifyGrant(crypto, keyring, g) == Verified <==>
            var unsigned := g.(witnessSignature := WitnessSignature("", "", ""));
            && g.version == 2 && g.witnessSignature.alg == "Ed25519" && g.issuer.publicKeyId == keyring.kid
            && g.witnessSignature.signedPayloadSha256 == crypto.sha(unsigned)
            && crypto.verifies(keyring.key, unsigned, g.witnessSignature.signature)
  {
  }

  // An operation is granted exactly by an unbound, unrevoked grant with a valid
  // signature, in its window, with uses left, for the operation and no less risk.
  lemma {:induction false} OperationGrantedExactly(crypto: Crypto, keyring: Keyring, g: Grant, opId: string,
                                                   risk: RiskLevel, now: int)
    ensures VerifyForOperation(crypto, keyring, g, opId, risk, now) == Verified <==>
            && g.decisionBinding.None? && VerifyGrant(crypto, keyring, g) == Verified && g.revokedAt.None?
            && g.notBefore <= now < g.expiresAt && (g.maxUses == 0 || g.usesConsumed < g.maxUses)
            && (g.capability.riskLevel == High || risk == Low || risk == g.capability.riskLevel)
            && match g.capability.opIdMatch
               case Exact => opId == g.capability.opId
               case GlobPattern(pattern) => ConservativeGlobMatch(pattern, opId)
  {
    hide VerifyGrant, ConservativeGlobMatch;
  }

  // A decision is granted exactly by an unrevoked, human-reviewed, unused one-shot
  // grant with a valid signature, in its window, bound to that decision of that
  // subject, for the very operation and no less risk.
  lemma {:induction false} DecisionGrantedExactly(crypto: Crypto, keyring: Keyring, g: Grant, subject: Subject,
                                                  binding: DecisionApprovalBinding, opId: string, risk: RiskLevel,
                                                  now: int)
    ensures VerifyForDecision(crypto, keyring, g, subject, binding, opId, risk, now) == Verified <==>
            && VerifyGrant(crypto, keyring, g) == Verified && g.revokedAt.None? && g.notBefore <= now < g.expiresAt
            && g.subject == subject && g.decisionBinding == Some(binding) && g.issuer.authority == HumanReview
            && g.maxUses == 1 && g.usesConsumed == 0
            && g.capability.opIdMatch == Exact && g.capability.opId == opId
            && (g.capability.riskLevel == High || risk == Low || risk == g.capability.riskLevel)
  {
    hide VerifyGrant, ConservativeGlobMatch;
  }

  // The bound verifier honours a grant for the one named principal it was
  // issued for, and for nobody when no principal is named.
  lemma {:induction false} BoundVerifierNeedsThePrincipal(crypto: Crypto, keyring: Keyring, g: Grant, opId: string,
                                                          risk: RiskLevel, caller: Option<string>, now: int)
    ensures VerifyForOperationBound(crypto, keyring, g, opId, risk, caller, now) == Verified
            <==> VerifyForOperation(crypto, keyring, g, opId, risk, now) == Verified
                 && caller == Some(g.subject.principalId) && g.subject.principalId != ""
  {
    hide VerifyForOperation;
  }

  // One fault in a signature that verifies, and the reason it is refused for.
  lemma {:induction false} SignatureFaultsAreNamed(crypto: Crypto, keyring: Keyring, g: Grant)
    requires VerifyGrant(crypto, keyring, g) == Verified
    ensures forall version :: version != 2 ==>
              VerifyGrant(crypto, keyring, g.(version := version)) == Refused("unsupported approval grant version")
    ensures forall alg :: alg != "Ed25519" ==>
              VerifyGrant(crypto, keyring, g.(witnessSignature := g.witnessSignature.(alg := alg)))
              == Refused("unsupported approval grant signature alg")
    ensures forall kid :: kid != keyring.kid ==>
              VerifyGrant(crypto, keyring.(kid := kid), g) == Refused("unknown witness key id")
    ensures forall digest :: digest != g.witnessSignature.signedPayloadSha256 ==>
              VerifyGrant(crypto, keyring, g.(witnessSignature := g.witnessSignature.(signedPayloadSha256 := digest)))
              == Refused("signed_payload_sha256 mismatch")
    ensures forall key :: !crypto.verifies(key, Unsigned(g), g.witnessSignature.signature) ==>
              VerifyGrant(crypto, keyring.(key := key), g) == Refused("approval grant signature verification failed")
  {
    forall digest
      ensures Unsigned(g.(witnessSignature := g.witnessSignature.(signedPayloadSha256 := digest))) == Unsigned(g)
    {
    }
  }

  // One fault in a signed grant that passes for an operation, likewise.
  lemma {:induction false} OperationFaultsAreNamed(crypto: Crypto, keyring: Keyring, g: Grant, opId: string,
                                                   risk: RiskLevel, now: int)
    requires IsSound(crypto)
    requires VerifyForOperation(crypto, keyring, Signed(crypto, keyring, g), opId, risk, now) == Verified
    ensures forall t, why ::
              VerifyForOperation(crypto, keyring,
                                 Signed(crypto, keyring, g.(revokedAt := Some(t), revocationReason := why)),
                                 opId, risk, now) == Refused("approval grant is revoked")
    ensures forall t :: t < g.notBefore || g.expiresAt <= t ==>
              VerifyForOperation(crypto, keyring, Signed(crypto, keyring, g), opId, risk, t)
              == Refused("approval grant is outside its validity window")
    ensures forall max, used :: 0 < max <= used ==>
              VerifyForOperation(crypto, keyring, Signed(crypto, keyring, g.(maxUses := max, usesConsumed := used)),
                                 opId, risk, now) == Refused("approval grant has no remaining uses")
    ensures forall other, asked :: !MatchesOperation(g, other, asked) ==>
              VerifyForOperation(crypto, keyring, Signed(crypto, keyring, g), other, asked, now)
              == Refused("approval grant does not match requested operation")
    ensures forall binding ::
              VerifyForOperation(crypto, keyring, Signed(crypto, keyring, g.(decisionBinding := Some(binding))),
                                 opId, risk, now)
              == Refused("decision-bound approval requires decision-scope verification")
  {
    hide Signed, VerifyGrant, ConservativeGlobMatch, IsSound;
    SigningKeeps(crypto, keyring);
  }

  lemma {:induction false} SigningKeeps(crypto: Crypto, keyring: Keyring)
    requires IsSound(crypto)
    ensures forall g :: VerifyGrant(crypto, keyring, Signed(crypto, keyring, g)) == Verified
    ensures forall g ::
              var signed := Signed(crypto, keyring, g);
              && signed.revokedAt == g.revokedAt && signed.notBefore == g.notBefore && signed.expiresAt == g.expiresAt
              && signed.maxUses == g.maxUses && signed.usesConsumed == g.usesConsumed
              && signed.capability == g.capability && signed.decisionBinding == g.decisionBinding
  {
    forall g ensures VerifyGrant(crypto, keyring, Signed(crypto, keyring, g)) == Verified {
      SigningVerifies(crypto, keyring, g);
    }
  }

  // The callers a grant that passes for an operation is refused to.
  lemma {:induction false} CallerFaultsAreNamed(crypto: Crypto, keyring: Keyring, g: Grant, opId: string,
                                                risk: RiskLevel, now: int)
    requires VerifyForOperation(crypto, keyring, g, opId, risk, now) == Verified
    ensures VerifyForOperationBound(crypto, keyring, g, opId, risk, None, now)
            == Refused("approval grant requires a caller principal (none provided)")
    ensures VerifyForOperationBound(crypto, keyring, g, opId, risk, Some(""), now)
            == Refused("approval grant requires a non-empty caller principal")
    ensures forall caller :: caller != "" && caller != g.subject.principalId ==>
              VerifyForOperationBound(crypto, keyring, g, opId, risk, Some(caller), now)
              == Refused(if g.subject.principalId == "" then "approval grant subject principal is empty"
                         else "approval grant principal mismatch: grant subject does not match caller principal")
  {
    hide VerifyForOperation;
  }

  // ---------------------------------------------------------------- issuing

  // `issue_one_shot_match`, with the clock and the fresh id as parameters.
  function IssueOneShotMatch(crypto: Crypto, keyring: Keyring, grantId: string, subject: Subject,
                             authority: IssuerAuthority, opId: string, mode: OpIdMatch, risk: RiskLevel,
                             now: int): Grant
  {
    Signed(crypto, keyring,
           Grant(grantId, VERSION, subject, Issuer(authority, "runtime", keyring.kid), Capability(opId, mode, risk),
                 ResourceConstraints(None, None, None, None, None), now, now, now + 60, 1, 0, NO_SIGNATURE,
                 None, None, None, None, None))
  }

  // A freshly issued grant verifies for the operations it names and no riskier,
  // for a minute.
  lemma {:induction false} IssuedGrantVerifies(crypto: Crypto, keyring: Keyring, grantId: string, subject: Subject,
                                               authority: IssuerAuthority, opId: string, mode: OpIdMatch,
                                               risk: RiskLevel,
                                               now: int, requested: string, riskOf: RiskLevel, t: int)
    requires IsSound(crypto)
    ensures var g := IssueOneShotMatch(crypto, keyring, grantId, subject, authority, opId, mode, risk, now);
            VerifyForOperation(crypto, keyring, g, requested, riskOf, t) == Verified
            <==> now <= t < now + 60 && (risk == High || riskOf == Low || riskOf == risk)
                 && match mode
                    case Exact => requested == opId
                    case GlobPattern(pattern) => ConservativeGlobMatch(pattern, requested)
  {
    hide ConservativeGlobMatch, VerifyGrant, VerifyForOperation, OpIdMatches;
    var first := Grant(grantId, VERSION, subject, Issuer(authority, "runtime", keyring.kid),
                       Capability(opId, mode, risk),
                       ResourceConstraints(None, None, None, None, None), now, now, now + 60, 1, 0, NO_SIGNATURE,
                       None, None, None, None, None);
    SigningVerifies(crypto, keyring, first);
    OperationGrantedExactly(crypto, keyring, Signed(crypto, keyring, first), requested, riskOf, t);
  }

  // What `issue_decision_one_shot` demands; `isDecisionId` says that the text is
  // a UUID other than the nil one.
  predicate IsCompleteScope(isDecisionId: string -> bool, subject: Subject, opId: string,
                            binding: DecisionApprovalBinding, expiresAt: int, now: int)
  {
    && isDecisionId(binding.decisionId) && Trim(opId) != ""
    && subject.agentId != "" && subject.principalId != "" && subject.ownerId != "" && subject.workspaceId != ""
    && subject.sessionKey.Some? && subject.sessionKey.value != ""
    && now < expiresAt <= now + 5 * 60
  }

  // The clock is read twice: for the checks, and for the grant.
  function IssueDecisionOneShot(crypto: Crypto, keyring: Keyring, isDecisionId: string -> bool, grantId: string,
                                subject: Subject, opId: string, risk: RiskLevel, binding: DecisionApprovalBinding,
                                expiresAt: int, now: int, issued: int): Option<Grant>
  {
    if !IsCompleteScope(isDecisionId, subject, opId, binding, expiresAt, now) then None
    else
      var g := IssueOneShotMatch(crypto, keyring, grantId, subject, HumanReview, opId, Exact, risk, issued);
      var expires := if g.expiresAt < expiresAt then g.expiresAt else expiresAt;
      Some(Signed(crypto, keyring, g.(expiresAt := expires, decisionBinding := Some(binding))))
  }

  // A decision grant is issued exactly for a complete scope and an expiry in the
  // next five minutes.
  lemma {:induction false} DecisionGrantIsIssuedExactly(
    crypto: Crypto, keyring: Keyring, isDecisionId: string -> bool, grantId: string, subject: Subject, opId: string,
    risk: RiskLevel, binding: DecisionApprovalBinding, expiresAt: int, now: int, issued: int)
    ensures IssueDecisionOneShot(crypto, keyring, isDecisionId, grantId, subject, opId, risk, binding, expiresAt, now,
                                 issued).Some? <==>
            && isDecisionId(binding.decisionId) && Trim(opId) != ""
            && subject.agentId != "" && subject.principalId != "" && subject.ownerId != "" && subject.workspaceId != ""
            && subject.sessionKey.Some? && subject.sessionKey != Some("")
            && now < expiresAt && expiresAt <= now + 300
  {
    hide Signed, IssueOneShotMatch, Trim;
  }

  // A decision grant verifies for exactly the decision it was issued for: the
  // same subject, binding and operation, no higher risk, in its window.
  lemma {:induction false} DecisionGrantVerifies(
    crypto: Crypto, keyring: Keyring, isDecisionId: string -> bool, grantId: string, subject: Subject, opId: string,
    risk: RiskLevel, binding: DecisionApprovalBinding, expiresAt: int, now: int, issued: int,
    caller: Subject, pending: DecisionApprovalBinding, requested: string, riskOf: RiskLevel, t: int)
    requires IsSound(crypto)
    requires IsCompleteScope(isDecisionId, subject, opId, binding, expiresAt, now)
    ensures var g := IssueDecisionOneShot(crypto, keyring, isDecisionId, grantId, subject, opId, risk, binding,
                                          expiresAt,
                                          now, issued).value;
            && (VerifyForDecision(crypto, keyring, g, caller, pending, requested, riskOf, t) == Verified
                <==> caller == subject && pending == binding && requested == opId
                     && (risk == High || riskOf == Low || riskOf == risk)
                     && issued <= t < issued + 60 && t < expiresAt)
            && VerifyForOperation(crypto, keyring, g, requested, riskOf, t).Refused?
  {
    hide VerifyGrant, IsCompleteScope, VerifyOperationSignature, VerifyForDecision, Trim;
    var g := IssueOneShotMatch(crypto, keyring, grantId, subject, HumanReview, opId, Exact, risk, issued);
    var expires := if g.expiresAt < expiresAt then g.expiresAt else expiresAt;
    var bound := g.(expiresAt := expires, decisionBinding := Some(binding));
    SigningVerifies(crypto, keyring, bound);
    DecisionGrantedExactly(crypto, keyring, Signed(crypto, keyring, bound), caller, pending, requested, riskOf, t);
  }

  // ---------------------------------------------------------------- the lifecycle

  datatype Event = Touch(ttlSecs: int, now: int) | Revoke(reason: string, at: int) | Resign

  // What one call does to a grant; a refused touch does nothing.
  function After(crypto: Crypto, keyring: Keyring, g: Grant, e: Event): Grant {
    match e
    case Touch(ttl, now) =>
      if ttl <= 0 || g.revokedAt.Some? then g else Signed(crypto, keyring, g.(expiresAt := now + ttl))
    case Revoke(reason, at) => g.(revokedAt := Some(at), revocationReason := Some(reason))
    case Resign => Signed(crypto, keyring, g)
  }

  function AfterAll(crypto: Crypto, keyring: Keyring, g: Grant, events: seq<Event>): Grant {
    if events == [] then g
    else After(crypto, keyring, AfterAll(crypto, keyring, g, events[..|events| - 1]), events[|events| - 1])
  }

  predicate IsRevocation(events: seq<Event>) {
    exists i :: 0 <= i < |events| && events[i].Revoke?
  }

  // Over every sequence of calls a grant is revoked exactly when it was or a
  // call revoked it; its scope never changes.
  lemma {:induction false} LifecycleKeepsTheScope(crypto: Crypto, keyring: Keyring, g: Grant, events: seq<Event>)
    ensures var h := AfterAll(crypto, keyring, g, events);
            && (h.revokedAt.Some? <==> g.revokedAt.Some? || IsRevocation(events))
            && h.decisionBinding == g.decisionBinding && h.subject == g.subject && h.capability == g.capability
            && h.notBefore == g.notBefore && h.maxUses == g.maxUses && h.usesConsumed == g.usesConsumed
            && h.issuer.authority == g.issuer.authority && h.resourceConstraints == g.resourceConstraints
  {
    if events != [] {
      var n := |events| - 1;
      LifecycleKeepsTheScope(crypto, keyring, g, events[..n]);
      assert IsRevocation(events) <==> IsRevocation(events[..n]) || events[n].Revoke? by {
        if i :| 0 <= i < |events| && events[i].Revoke? { assert i < n ==> events[..n][i].Revoke?; }
        if i :| 0 <= i < n && events[..n][i].Revoke? { assert events[i].Revoke?; }
      }
    }
  }

  // Once revoked, before the calls or by one of them, never verified again: by
  // no verifier, for no caller, at no time.
  lemma {:induction false} RevokedNeverVerifies(crypto: Crypto, keyring: Keyring, g: Grant, events: seq<Event>,
                                                opId: string, risk: RiskLevel, caller: Option<string>, subject: Subject,
                                                binding: DecisionApprovalBinding, t: int)
    requires g.revokedAt.Some? || IsRevocation(events)
    ensures var h := AfterAll(crypto, keyring, g, events);
            && VerifyForOperation(crypto, keyring, h, opId, risk, t).Refused?
            && VerifyForOperationBound(crypto, keyring, h, opId, risk, caller, t).Refused?
            && VerifyForDecision(crypto, keyring, h, subject, binding, opId, risk, t).Refused?
  {
    hide VerifyGrant, MatchesOperation, AfterAll, VerifyForOperationBound;
    LifecycleKeepsTheScope(crypto, keyring, g, events);
    BoundVerifierNeedsThePrincipal(crypto, keyring, AfterAll(crypto, keyring, g, events), opId, risk, caller, t);
  }

  // A decision-bound grant never passes the verifier of operations.
  lemma {:induction false} DecisionBoundStaysBound(crypto: Crypto, keyring: Keyring, g: Grant, events: seq<Event>,
                                                   opId: string, risk: RiskLevel, t: int)
    requires g.decisionBinding.Some?
    ensures VerifyForOperation(crypto, keyring, AfterAll(crypto, keyring, g, events), opId, risk, t).Refused?
  {
    hide VerifyOperationSignature;
    LifecycleKeepsTheScope(crypto, keyring, g, events);
  }

  // A grant that passes the verifier of decisions at one point of its life passes
  // that of operations at no point of it, for no operation.
  lemma {:induction false} VerifiersStayDisjoint(crypto: Crypto, keyring: Keyring, g: Grant, events: seq<Event>,
                                                 others: seq<Event>, subject: Subject,
                                                 binding: DecisionApprovalBinding, opId: string, risk: RiskLevel,
                                                 t: int, otherId: string, otherRisk: RiskLevel, u: int)
    requires VerifyForDecision(crypto, keyring, AfterAll(crypto, keyring, g, events), subject, binding, opId, risk, t)
             == Verified
    ensures VerifyForOperation(crypto, keyring, AfterAll(crypto, keyring, g, others), otherId, otherRisk, u).Refused?
  {
    hide VerifyOperationSignature, AfterAll;
    LifecycleKeepsTheScope(crypto, keyring, g, events);
    LifecycleKeepsTheScope(crypto, keyring, g, others);
  }

  // The grant as it was last signed.
  function LastSigned(crypto: Crypto, keyring: Keyring, g: Grant, events: seq<Event>): Grant {
    if events == [] then g
    else
      var n := |events| - 1;
      var before := AfterAll(crypto, keyring, g, events[..n]);
      match events[n]
      case Touch(ttl, _) =>
        if ttl <= 0 || before.revokedAt.Some? then LastSigned(crypto, keyring, g, events[..n])
        else After(crypto, keyring, before, events[n])
      case Revoke(_, _) => LastSigned(crypto, keyring, g, events[..n])
      case Resign => After(crypto, keyring, before, events[n])
  }

  lemma {:induction false} LastSignedVerifies(crypto: Crypto, keyring: Keyring, g: Grant, events: seq<Event>)
    requires IsSound(crypto) && VerifyGrant(crypto, keyring, g) == Verified
    ensures var signed := LastSigned(crypto, keyring, g, events);
            && VerifyGrant(crypto, keyring, signed) == Verified
            && signed.witnessSignature == AfterAll(crypto, keyring, g, events).witnessSignature
  {
    hide VerifyGrant, IsSound, Signed;
    if events != [] {
      var n := |events| - 1;
      LastSignedVerifies(crypto, keyring, g, events[..n]);
      var before := AfterAll(crypto, keyring, g, events[..n]);
      match events[n]
      case Touch(ttl, now) => SigningVerifies(crypto, keyring, before.(expiresAt := now + ttl));
      case Revoke(_, _) =>
      case Resign => SigningVerifies(crypto, keyring, before);
    }
  }

  // Over any sequence of calls the signature stands for the grant as it was last
  // signed and for no other: a revocation that changes it and is not signed again
  // leaves no valid signature.
  lemma {:induction false} SignatureStandsForTheLastSigning(crypto: Crypto, keyring: Keyring, g: Grant,
                                                            events: seq<Event>)
    requires IsSound(crypto) && IsUnforgeable(crypto) && VerifyGrant(crypto, keyring, g) == Verified
    ensures VerifyGrant(crypto, keyring, AfterAll(crypto, keyring, g, events)) == Verified
            <==> AfterAll(crypto, keyring, g, events) == LastSigned(crypto, keyring, g, events)
  {
    hide VerifyGrant, IsSound, IsUnforgeable, AfterAll, LastSigned;
    LastSignedVerifies(crypto, keyring, g, events);
    var h, signed := AfterAll(crypto, keyring, g, events), LastSigned(crypto, keyring, g, events);
    if VerifyGrant(crypto, keyring, h) == Verified { SignatureCoversEveryField(crypto, keyring, h, signed); }
  }

  // A refresh that succeeds leaves a grant that verifies for the same operations
  // over [not_before, now + ttl), while uses remain.
  lemma {:induction false} TouchRefreshes(crypto: Crypto, keyring: Keyring, g: Grant, ttl: int, now: int,
                                          opId: string, risk: RiskLevel, t: int)
    requires IsSound(crypto) && ttl > 0 && g.revokedAt.None?
    ensures VerifyForOperation(crypto, keyring, After(crypto, keyring, g, Touch(ttl, now)), opId, risk, t) == Verified
            <==> g.decisionBinding.None? && (g.maxUses == 0 || g.usesConsumed < g.maxUses)
                 && (g.capability.riskLevel == High || risk == Low || risk == g.capability.riskLevel)
                 && (match g.capability.opIdMatch
                     case Exact => opId == g.capability.opId
                     case GlobPattern(pattern) => ConservativeGlobMatch(pattern, opId))
                 && g.notBefore <= t < now + ttl
  {
    hide VerifyGrant, ConservativeGlobMatch, VerifyForOperation;
    var touched := g.(expiresAt := now + ttl);
    SigningVerifies(crypto, keyring, touched);
    OperationGrantedExactly(crypto, keyring, Signed(crypto, keyring, touched), opId, risk, t);
  }

  // The grant as the program holds it, updated in place.
  class ApprovalGrantV2 {
    var grantId: string
    var version: int
    var subject: Subject
    var issuer: Issuer
    var capability: Capability
    var resourceConstraints: ResourceConstraints
    var issuedAt: int
    var notBefore: int
    var expiresAt: int
    var maxUses: nat
    var usesConsumed: nat
    var witnessSignature: WitnessSignature
    var relatedTaskId: Option<string>
    var relatedMessageEventId: Option<int>
    var revokedAt: Option<int>
    var revocationReason: Option<string>
    var decisionBinding: Option<DecisionApprovalBinding>

    function Value(): Grant
      reads this
    {
      Grant(grantId, version, subject, issuer, capability, resourceConstraints, issuedAt, notBefore, expiresAt, maxUses,
            usesConsumed, witnessSignature, relatedTaskId, relatedMessageEventId, revokedAt, revocationReason,
            decisionBinding)
    }

    constructor (g: Grant)
      ensures Value() == g
    {
      grantId, version, subject, issuer, capability := g.grantId, g.version, g.subject, g.issuer, g.capability;
      resourceConstraints, issuedAt := g.resourceConstraints, g.issuedAt;
      notBefore, expiresAt := g.notBefore, g.expiresAt;
      maxUses, usesConsumed, witnessSignature := g.maxUses, g.usesConsumed, g.witnessSignature;
      relatedTaskId, relatedMessageEventId := g.relatedTaskId, g.relatedMessageEventId;
      revokedAt, revocationReason, decisionBinding := g.revokedAt, g.revocationReason, g.decisionBinding;
    }

    method SignGrant(crypto: Crypto, keyring: Keyring)
      modifies this
      ensures Value() == After(crypto, keyring, old(Value()), Resign)
    {
      version := VERSION;
      issuer := issuer.(publicKeyId := keyring.kid);
      witnessSignature := NO_SIGNATURE;
      var canonical := Value();
      witnessSignature := WitnessSignature("Ed25519", crypto.sign(keyring.key, canonical), crypto.sha(canonical));
    }

    method TouchGrant(crypto: Crypto, keyring: Keyring, ttlSecs: int, now: int) returns (verdict: Verdict)
      modifies this
      ensures Value() == After(crypto, keyring, old(Value()), Touch(ttlSecs, now))
      ensures verdict == Verified <==> ttlSecs > 0 && old(revokedAt).None?
    {
      if ttlSecs <= 0 {
        return Refused("approval grant touch requires a positive ttl_secs");
      }
      if revokedAt.Some? {
        return Refused("cannot refresh a revoked approval grant");
      }
      expiresAt := now + ttlSecs;
      SignGrant(crypto, keyring);
      return Verified;
    }

    method RevokeGrant(reason: string, at: int)
      modifies this
      ensures Value() == old(Value()).(revokedAt := Some(at), revocationReason := Some(reason))
    {
      revokedAt := Some(at);
      revocationReason := Some(reason);
    }
  }

  // ---------------------------------------------------------------- glob scopes

  function Stars(s: string): nat {
    if s == "" then 0 else (if s[0] == '*' then 1 else 0) + Stars(s[1..])
  }

  function TrimEndStars(s: string): (r: string)
    ensures |r| <= |s|
  {
    if s != "" && s[|s| - 1] == '*' then TrimEndStars(s[..|s| - 1]) else s
  }

  predicate ConservativeGlobMatch(pattern: string, value: string) {
    if pattern == "" || pattern == "*" then false
    else if '*' !in pattern then pattern == value
    else if Stars(pattern) != 1 || pattern[|pattern| - 1] != '*' then false
    else
      var prefix := TrimEndStars(pattern);
      Utf8Len(prefix) >= 3 && ':' in prefix && prefix <= value
  }

  // A scope of the form `tool:verb:` and one trailing star.
  predicate IsGlobPrefix(pattern: string, prefix: string) {
    pattern == prefix + "*" && '*' !in prefix && ':' in prefix && Utf8Len(prefix) >= 3
  }

  lemma {:induction false} StarsOfJoin(a: string, b: string)
    ensures Stars(a + b) == Stars(a) + Stars(b)
  {
    if a == "" {
      assert a + b == b;
    } else {
      assert (a + b)[1..] == a[1..] + b && (a + b)[0] == a[0];
      StarsOfJoin(a[1..], b);
    }
  }

  lemma {:induction false} NoStars(s: string)
    ensures Stars(s) == 0 <==> '*' !in s
  {
    if s != "" {
      NoStars(s[1..]);
      assert s == [s[0]] + s[1..];
    }
  }

  lemma {:induction false} TrimsOneStar(prefix: string)
    requires '*' !in prefix
    ensures TrimEndStars(prefix + "*") == prefix
  {
    assert (prefix + "*")[..|prefix|] == prefix;
  }

  // A scope without a star is the operation itself; a scope with one matches
  // exactly the operations that extend its prefix; no other scope matches.
  lemma {:induction false} GlobMatchesExtensions(pattern: string, value: string)
    ensures ConservativeGlobMatch(pattern, value)
            <==> (pattern != "" && '*' !in pattern && value == pattern)
                 || (exists prefix :: pattern == prefix + "*" && '*' !in prefix && ':' in prefix
                                      && Utf8Len(prefix) >= 3 && prefix <= value)
  {
    hide TrimEndStars, Stars, Utf8Len;
    if pattern != "" && '*' in pattern {
      var n := |pattern| - 1;
      var front := pattern[..n];
      assert pattern == front + [pattern[n]];
      StarsOfJoin(front, [pattern[n]]);
      OneStar(pattern[n]);
      NoStars(front);
      if pattern[n] == '*' && '*' !in front {
        TrimsOneStar(front);
        assert IsGlobPrefix(pattern, front) <==> ':' in front && Utf8Len(front) >= 3;
      }
      forall prefix | IsGlobPrefix(pattern, prefix) ensures prefix == front && pattern[n] == '*' {
        assert (prefix + "*")[..n] == prefix;
      }
    }
  }

  lemma {:induction false} OneStar(c: char)
    ensures Stars([c]) == if c == '*' then 1 else 0
  {
    assert [c][1..] == "";
  }
}
