/**
 The decision whether a policy snapshot allows a principal an action on a resource, delegated principals
 being bounded by the current rights of their issuer.
 */
module PolicyEvaluation {
  import opened Options

  datatype Resource = Resource(tenantId: string, id: string)

  datatype Effect = AllowEffect | DenyEffect

  /** `unjudged` marks a statement with a term the evaluator does not judge. */
  datatype Statement = Statement(
    id: string,
    effect: Effect,
    subjectId: string,
    credentialId: Option<string>,
    action: string,
    resource: Resource,
    unjudged: bool)

  datatype Membership = Membership(subjectId: string, version: nat)

  datatype Policy = Policy(tenantId: string, memberships: seq<Membership>, statements: seq<Statement>)

  datatype Delegation = Delegation(
    issuerId: string,
    issuerCredentialId: string,
    allowedActions: seq<string>,
    allowedResources: seq<Resource>)

  datatype SubjectKind = Human | DelegatedAgent | Worker | ServiceAccount

  datatype Principal = Principal(
    tenantId: string,
    subjectId: string,
    kind: SubjectKind,
    credentialId: string,
    membershipVersion: nat,
    delegation: Option<Delegation>)

  datatype Decision = Granted | NotAuthorized | UnsupportedAction | UnsupportedSemantics

  const SUPPORTED_ACTIONS := {
    "read", "search", "list", "count", "create", "update", "share", "publish_standard", "manage_membership",
    "manage_credentials", "delete", "restore", "export", "background_derive", "background_replay"
  }

  predicate OnePerSubject(memberships: seq<Membership>) {
    forall i, k | 0 <= i < k < |memberships| :: memberships[i].subjectId != memberships[k].subjectId
  }

  /** At most one membership per subject and one statement per id, every resource in the policy's tenant. */
  ghost predicate ValidPolicy(policy: Policy) {
    && OnePerSubject(policy.memberships)
    && (forall i, k | 0 <= i < k < |policy.statements| :: policy.statements[i].id != policy.statements[k].id)
    && (forall i | 0 <= i < |policy.statements| :: policy.statements[i].resource.tenantId == policy.tenantId)
  }

  /** A delegated principal names another subject and credential as its issuer; no other principal does. */
  ghost predicate ValidPrincipal(p: Principal) {
    && (p.kind.DelegatedAgent? || p.kind.Worker? <==> p.delegation.Some?)
    && (p.delegation.Some? ==>
          && p.delegation.value.issuerId != p.subjectId
          && p.delegation.value.issuerCredentialId != p.credentialId
          && forall r | r in p.delegation.value.allowedResources :: r.tenantId == p.tenantId)
  }

  // ---------------------------------------------------------------- the decision

  predicate Matches(s: Statement, subjectId: string, credentialId: string, action: string, resource: Resource) {
    && s.subjectId == subjectId && s.action == action && s.resource == resource
    && (s.credentialId.None? || s.credentialId.value == credentialId)
  }

  /** A matching allow and no matching deny, in whatever order they are stated. */
  predicate HoldsCurrentRight(
    policy: Policy, subjectId: string, credentialId: string, action: string, resource: Resource)
  {
    && (forall s | s in policy.statements && Matches(s, subjectId, credentialId, action, resource) ::
          !s.effect.DenyEffect?)
    && (exists s | s in policy.statements :: s.effect.AllowEffect? && Matches(s, subjectId, credentialId, action, resource))
  }

  /** The first membership of a subject. */
  function CurrentMembership(memberships: seq<Membership>, subjectId: string): (m: Option<Membership>)
    ensures m.Some? ==> m.value in memberships && m.value.subjectId == subjectId
    ensures m.None? ==> forall o | o in memberships :: o.subjectId != subjectId
  {
    if memberships == [] then None
    else if memberships[0].subjectId == subjectId then Some(memberships[0])
    else CurrentMembership(memberships[1..], subjectId)
  }

  function Evaluate(p: Principal, action: string, resource: Resource, policy: Policy): Decision {
    var membership := CurrentMembership(policy.memberships, p.subjectId);
    if action !in SUPPORTED_ACTIONS then UnsupportedAction
    else if exists s | s in policy.statements :: s.action !in SUPPORTED_ACTIONS then UnsupportedSemantics
    else if p.delegation.Some? && exists a | a in p.delegation.value.allowedActions :: a !in SUPPORTED_ACTIONS then
      UnsupportedSemantics
    else if exists s | s in policy.statements :: s.unjudged then UnsupportedSemantics
    else if !(p.tenantId == policy.tenantId && resource.tenantId == policy.tenantId) then NotAuthorized
    else if membership.None? || membership.value.version != p.membershipVersion then NotAuthorized
    else if p.delegation.Some? && action !in p.delegation.value.allowedActions then NotAuthorized
    else if p.delegation.Some? && resource !in p.delegation.value.allowedResources then NotAuthorized
    else if !HoldsCurrentRight(policy, p.subjectId, p.credentialId, action, resource) then NotAuthorized
    else if p.delegation.Some? && CurrentMembership(policy.memberships, p.delegation.value.issuerId).None? then
      NotAuthorized
    else if p.delegation.Some?
            && !HoldsCurrentRight(policy, p.delegation.value.issuerId, p.delegation.value.issuerCredentialId,
                                  action, resource) then
      NotAuthorized
    else Granted
  }

  // ---------------------------------------------------------------- what it may depend on

  /** Every term of the snapshot and of the delegation is one the evaluator understands. */
  ghost predicate Understood(p: Principal, policy: Policy) {
    && (forall s | s in policy.statements :: s.action in SUPPORTED_ACTIONS && !s.unjudged)
    && (p.delegation.Some? ==> forall a | a in p.delegation.value.allowedActions :: a in SUPPORTED_ACTIONS)
  }

  ghost predicate Member(policy: Policy, subjectId: string) {
    exists m | m in policy.memberships :: m.subjectId == subjectId
  }

  /** What a delegation adds to the conditions: its ceiling, and the issuer's own current right. */
  ghost predicate WithinDelegation(d: Delegation, action: string, resource: Resource, policy: Policy) {
    && action in d.allowedActions && resource in d.allowedResources
    && Member(policy, d.issuerId)
    && HoldsCurrentRight(policy, d.issuerId, d.issuerCredentialId, action, resource)
  }

  ghost predicate Permitted(p: Principal, action: string, resource: Resource, policy: Policy) {
    && action in SUPPORTED_ACTIONS && Understood(p, policy)
    && p.tenantId == policy.tenantId == resource.tenantId
    && Membership(p.subjectId, p.membershipVersion) in policy.memberships
    && HoldsCurrentRight(policy, p.subjectId, p.credentialId, action, resource)
    && (p.delegation.Some? ==> WithinDelegation(p.delegation.value, action, resource, policy))
  }

  /** The membership found is the only one of its subject. */
  lemma MembershipIsCurrent(policy: Policy, subjectId: string, version: nat)
    requires ValidPolicy(policy)
    ensures CurrentMembership(policy.memberships, subjectId) == Some(Membership(subjectId, version)) <==>
              Membership(subjectId, version) in policy.memberships
    ensures CurrentMembership(policy.memberships, subjectId).Some? <==> Member(policy, subjectId)
  {
    var found := CurrentMembership(policy.memberships, subjectId);
    if Membership(subjectId, version) in policy.memberships {
      var i :| 0 <= i < |policy.memberships| && policy.memberships[i] == Membership(subjectId, version);
      var k :| 0 <= k < |policy.memberships| && policy.memberships[k] == found.value;
    }
  }

  /** What is granted, and which refusal the others get, without regard to order. */
  lemma DecisionMeaning(p: Principal, action: string, resource: Resource, policy: Policy)
    requires ValidPolicy(policy)
    ensures var d := Evaluate(p, action, resource, policy);
            && (d.Granted? <==> Permitted(p, action, resource, policy))
            && (d.UnsupportedAction? <==> action !in SUPPORTED_ACTIONS)
            && (d.UnsupportedSemantics? <==> action in SUPPORTED_ACTIONS && !Understood(p, policy))
  {
    hide HoldsCurrentRight;
    MembershipIsCurrent(policy, p.subjectId, p.membershipVersion);
    if p.delegation.Some? { MembershipIsCurrent(policy, p.delegation.value.issuerId, 0); }
  }

  // ---------------------------------------------------------------- delegation

  /** The subject acting for itself with the version its membership has in the snapshot. */
  function Independently(subjectId: string, credentialId: string, version: nat, tenantId: string): Principal {
    Principal(tenantId, subjectId, Human, credentialId, version, None)
  }

  /** A delegate is never allowed what its issuer, or it without its delegation, would not be. */
  lemma DelegationNeverWidens(p: Principal, action: string, resource: Resource, policy: Policy)
    returns (issuer: Membership)
    requires ValidPolicy(policy) && ValidPrincipal(p) && p.delegation.Some?
    requires Evaluate(p, action, resource, policy).Granted?
    ensures issuer in policy.memberships && issuer.subjectId == p.delegation.value.issuerId != p.subjectId
    ensures var own := Independently(issuer.subjectId, p.delegation.value.issuerCredentialId, issuer.version, p.tenantId);
            ValidPrincipal(own) && Evaluate(own, action, resource, policy).Granted?
    ensures var alone := Independently(p.subjectId, p.credentialId, p.membershipVersion, p.tenantId);
            ValidPrincipal(alone) && Evaluate(alone, action, resource, policy).Granted?
  {
    hide HoldsCurrentRight, Evaluate;
    DecisionMeaning(p, action, resource, policy);
    issuer :| issuer in policy.memberships && issuer.subjectId == p.delegation.value.issuerId;
    var own := Independently(issuer.subjectId, p.delegation.value.issuerCredentialId, issuer.version, p.tenantId);
    DecisionMeaning(own, action, resource, policy);
    var alone := Independently(p.subjectId, p.credentialId, p.membershipVersion, p.tenantId);
    DecisionMeaning(alone, action, resource, policy);
  }

  /** Conversely, a delegate gets all that both hold within the ceiling, and nothing else. */
  lemma DelegationIsIntersection(p: Principal, action: string, resource: Resource, policy: Policy)
    requires ValidPolicy(policy) && ValidPrincipal(p) && p.delegation.Some? && Understood(p, policy)
    ensures var d := p.delegation.value;
            Evaluate(p, action, resource, policy).Granted? <==>
              && action in d.allowedActions && resource in d.allowedResources
              && Evaluate(Independently(p.subjectId, p.credentialId, p.membershipVersion, p.tenantId),
                          action, resource, policy).Granted?
              && exists m | m in policy.memberships :: m.subjectId == d.issuerId &&
                   Evaluate(Independently(m.subjectId, d.issuerCredentialId, m.version, p.tenantId),
                            action, resource, policy).Granted?
  {
    hide HoldsCurrentRight, Evaluate;
    var d := p.delegation.value;
    DecisionMeaning(p, action, resource, policy);
    DecisionMeaning(Independently(p.subjectId, p.credentialId, p.membershipVersion, p.tenantId), action, resource, policy);
    forall m | m in policy.memberships && m.subjectId == d.issuerId
      ensures var own := Independently(m.subjectId, d.issuerCredentialId, m.version, p.tenantId);
              Evaluate(own, action, resource, policy).Granted? <==> Permitted(own, action, resource, policy)
    {
      DecisionMeaning(Independently(m.subjectId, d.issuerCredentialId, m.version, p.tenantId), action, resource, policy);
    }
  }

  /** The memberships of all other subjects. */
  function OtherMemberships(memberships: seq<Membership>, subjectId: string): (r: seq<Membership>)
    ensures forall m :: m in r <==> m in memberships && m.subjectId != subjectId
  {
    if memberships == [] then []
    else
      assert memberships == [memberships[0]] + memberships[1..];
      (if memberships[0].subjectId == subjectId then [] else [memberships[0]])
      + OtherMemberships(memberships[1..], subjectId)
  }

  function Removing(policy: Policy, subjectId: string): Policy {
    policy.(memberships := OtherMemberships(policy.memberships, subjectId))
  }

  lemma {:induction false} OthersStayDistinct(memberships: seq<Membership>, subjectId: string)
    requires OnePerSubject(memberships)
    ensures OnePerSubject(OtherMemberships(memberships, subjectId))
  {
    if memberships != [] {
      OthersStayDistinct(memberships[1..], subjectId);
      var rest := OtherMemberships(memberships[1..], subjectId);
      forall m | m in rest ensures m.subjectId != memberships[0].subjectId {
        var i :| 0 <= i < |memberships[1..]| && memberships[1..][i] == m;
        assert memberships[i + 1] == m;
      }
    }
  }

  /**
   Taking a subject's membership away denies it, and every delegate it issued, everything at once; for everybody
   else neither the outcome nor the reason of any decision changes.
   */
  lemma RemovalRevokes(p: Principal, action: string, resource: Resource, policy: Policy, subjectId: string)
    requires ValidPolicy(policy)
    ensures ValidPolicy(Removing(policy, subjectId))
    ensures var after := Evaluate(p, action, resource, Removing(policy, subjectId));
            if p.subjectId == subjectId || (p.delegation.Some? && p.delegation.value.issuerId == subjectId)
            then !after.Granted?
            else after == Evaluate(p, action, resource, policy)
  {
    hide HoldsCurrentRight, Evaluate;
    var less := Removing(policy, subjectId);
    OthersStayDistinct(policy.memberships, subjectId);
    DecisionMeaning(p, action, resource, policy);
    DecisionMeaning(p, action, resource, less);
    SameStatements(less, policy, p.subjectId, p.credentialId, action, resource);
    if p.delegation.Some? {
      var d := p.delegation.value;
      SameStatements(less, policy, d.issuerId, d.issuerCredentialId, action, resource);
    }
  }

  lemma SameStatements(
    policy: Policy, other: Policy, subjectId: string, credentialId: string, action: string, resource: Resource)
    requires policy.statements == other.statements
    ensures HoldsCurrentRight(policy, subjectId, credentialId, action, resource) <==>
              HoldsCurrentRight(other, subjectId, credentialId, action, resource)
  {
  }

  // ---------------------------------------------------------------- order and added statements

  /** The two policies state the same things, in any order and however often. */
  ghost predicate SameContents(policy: Policy, other: Policy) {
    && policy.tenantId == other.tenantId
    && (forall s :: s in policy.statements <==> s in other.statements)
    && (forall m :: m in policy.memberships <==> m in other.memberships)
  }

  lemma SameRights(
    policy: Policy, other: Policy, subjectId: string, credentialId: string, action: string, resource: Resource)
    requires SameContents(policy, other)
    ensures HoldsCurrentRight(policy, subjectId, credentialId, action, resource) <==>
              HoldsCurrentRight(other, subjectId, credentialId, action, resource)
  {
  }

  /** Reordering statements or memberships changes neither the outcome nor the reason. */
  lemma OrderIsIrrelevant(p: Principal, action: string, resource: Resource, policy: Policy, other: Policy)
    requires ValidPolicy(policy) && ValidPolicy(other) && SameContents(policy, other)
    ensures Evaluate(p, action, resource, policy) == Evaluate(p, action, resource, other)
  {
    hide HoldsCurrentRight, Evaluate;
    DecisionMeaning(p, action, resource, policy);
    DecisionMeaning(p, action, resource, other);
    SameRights(policy, other, p.subjectId, p.credentialId, action, resource);
    if p.delegation.Some? {
      var d := p.delegation.value;
      SameRights(policy, other, d.issuerId, d.issuerCredentialId, action, resource);
    }
    assert Understood(p, policy) <==> Understood(p, other);
  }

  /** The statement binds a subject acting with a credential: it names the subject, and no other credential. */
  ghost predicate Binds(s: Statement, subjectId: string, credentialId: string) {
    s.subjectId == subjectId && (s.credentialId == None || s.credentialId == Some(credentialId))
  }

  /** A right is an allow for that subject, credential, action and resource, with no such deny. */
  lemma RightMeaning(policy: Policy, subjectId: string, credentialId: string, action: string, resource: Resource)
    ensures HoldsCurrentRight(policy, subjectId, credentialId, action, resource) <==>
              && (exists s | s in policy.statements ::
                    s.effect == AllowEffect && s.action == action && s.resource == resource
                    && Binds(s, subjectId, credentialId))
              && (forall s | s in policy.statements && s.effect == DenyEffect ::
                    !(s.action == action && s.resource == resource && Binds(s, subjectId, credentialId)))
  {
    if s :| s in policy.statements && s.effect == AllowEffect && s.action == action && s.resource == resource
            && Binds(s, subjectId, credentialId) {
      assert Matches(s, subjectId, credentialId, action, resource);
    }
  }

  /** The statement is about the principal or its issuer, as they act. */
  ghost predicate Concerns(s: Statement, p: Principal) {
    || Binds(s, p.subjectId, p.credentialId)
    || (p.delegation.Some? && Binds(s, p.delegation.value.issuerId, p.delegation.value.issuerCredentialId))
  }

  lemma UnrelatedRight(
    policy: Policy, s: Statement, subjectId: string, credentialId: string, action: string, resource: Resource)
    requires !(s.action == action && s.resource == resource && Binds(s, subjectId, credentialId))
    ensures HoldsCurrentRight(With(policy, s), subjectId, credentialId, action, resource) <==>
              HoldsCurrentRight(policy, subjectId, credentialId, action, resource)
  {
    var more := With(policy, s).statements;
    assert forall o :: o in more <==> o in policy.statements || o == s;
  }

  /**
   Adding a statement about another action, another resource, or nobody involved, or bound to a credential that is
   not the one used, changes neither outcome nor reason.
   */
  lemma UnrelatedStatementChangesNothing(
    p: Principal, action: string, resource: Resource, policy: Policy, s: Statement)
    requires ValidPolicy(policy) && ValidPolicy(With(policy, s)) && s.action in SUPPORTED_ACTIONS && !s.unjudged
    requires s.action != action || s.resource != resource || !Concerns(s, p)
    ensures Evaluate(p, action, resource, With(policy, s)) == Evaluate(p, action, resource, policy)
  {
    hide HoldsCurrentRight, Evaluate;
    DecisionMeaning(p, action, resource, policy);
    DecisionMeaning(p, action, resource, With(policy, s));
    UnrelatedRight(policy, s, p.subjectId, p.credentialId, action, resource);
    if p.delegation.Some? {
      UnrelatedRight(policy, s, p.delegation.value.issuerId, p.delegation.value.issuerCredentialId, action, resource);
    }
    var more := With(policy, s).statements;
    assert forall o :: o in more <==> o in policy.statements || o == s;
  }

  /** A deny of that action on that resource to the principal or its issuer, as they act, denies. */
  lemma DenyDenies(p: Principal, action: string, resource: Resource, policy: Policy, s: Statement)
    requires ValidPolicy(policy) && s in policy.statements && s.effect == DenyEffect
    requires s.action == action && s.resource == resource && Concerns(s, p)
    ensures !Evaluate(p, action, resource, policy).Granted?
  {
    hide HoldsCurrentRight, Evaluate;
    DecisionMeaning(p, action, resource, policy);
    RightMeaning(policy, p.subjectId, p.credentialId, action, resource);
    if p.delegation.Some? {
      var d := p.delegation.value;
      RightMeaning(policy, d.issuerId, d.issuerCredentialId, action, resource);
    }
  }

  function With(policy: Policy, s: Statement): Policy {
    policy.(statements := policy.statements + [s])
  }

  lemma AddedDenyTakesRight(
    policy: Policy, s: Statement, subjectId: string, credentialId: string, action: string, resource: Resource)
    requires s.effect.DenyEffect?
    ensures HoldsCurrentRight(With(policy, s), subjectId, credentialId, action, resource) <==>
              HoldsCurrentRight(policy, subjectId, credentialId, action, resource)
              && !Matches(s, subjectId, credentialId, action, resource)
  {
    var more := With(policy, s).statements;
    assert forall o :: o in more <==> o in policy.statements || o == s;
  }

  /** Adding a deny allows nothing new: what is still allowed was, and is not what the deny names. */
  lemma AddedDenyOnlyNarrows(p: Principal, action: string, resource: Resource, policy: Policy, s: Statement)
    requires ValidPolicy(policy) && ValidPolicy(With(policy, s)) && s.effect.DenyEffect?
    ensures Evaluate(p, action, resource, With(policy, s)).Granted? <==>
              && Evaluate(p, action, resource, policy).Granted?
              && s.action in SUPPORTED_ACTIONS && !s.unjudged
              && !Matches(s, p.subjectId, p.credentialId, action, resource)
              && (p.delegation.Some? ==>
                    !Matches(s, p.delegation.value.issuerId, p.delegation.value.issuerCredentialId, action, resource))
  {
    hide HoldsCurrentRight, Evaluate, Matches;
    DecisionMeaning(p, action, resource, policy);
    DecisionMeaning(p, action, resource, With(policy, s));
    AddedDenyTakesRight(policy, s, p.subjectId, p.credentialId, action, resource);
    if p.delegation.Some? {
      var d := p.delegation.value;
      AddedDenyTakesRight(policy, s, d.issuerId, d.issuerCredentialId, action, resource);
    }
    var more := With(policy, s).statements;
    assert forall o :: o in more <==> o in policy.statements || o == s;
  }
}
