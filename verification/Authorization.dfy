/**
 Permission evaluation and the moderation order. The source's sort comparator answers 1 for two
 grants in either order; the key it stands for is used here: the more specific scope first, a deny
 before a grant.
 */
module Authorization {
  import opened Sorting
  import opened Wrappers

  datatype ScopeType = Instance | Community | Category | Space | Resource

  datatype Scope = Scope(kind: ScopeType, id: string)

  datatype Effect = Grant | Deny

  datatype Decision = Decision(roleId: string, permission: string, scope: Scope, effect: Effect)

  datatype Role = Role(id: string, communityId: Option<string>, position: int)

  datatype Assignment = Assignment(roleId: string, actorId: string, communityId: string)

  datatype ActorState = ActorState(sessionValid: bool, sessionRevoked: bool, suspended: bool, ownerOf: set<string>)

  datatype Reason = Owner | Granted | Denied | MissingGrant | InvalidActor

  datatype Verdict = Verdict(allowed: bool, reason: Reason, scope: Option<Scope>)

  /** A snapshot of one actor. */
  datatype Input = Input(
    actorId: string, actor: ActorState, permission: string, scopes: seq<Scope>,
    roles: seq<Role>, assignments: seq<Assignment>, decisions: seq<Decision>)

  function Specificity(t: ScopeType): nat
  {
    match t
    case Instance => 0
    case Community => 1
    case Category => 2
    case Space => 3
    case Resource => 4
  }

  function TypeName(t: ScopeType): string
  {
    match t
    case Instance => "instance"
    case Community => "community"
    case Category => "category"
    case Space => "space"
    case Resource => "resource"
  }

  function ScopeKey(s: Scope): string { TypeName(s.kind) + ":" + s.id }

  /** No two scopes share a key. */
  lemma ScopeKeyIsInjective(a: Scope, b: Scope)
    requires ScopeKey(a) == ScopeKey(b)
    ensures a == b
  {
    var s := ScopeKey(a);
    assert s[0] == TypeName(a.kind)[0] == TypeName(b.kind)[0];
    assert s[2] == TypeName(a.kind)[2] == TypeName(b.kind)[2];
    assert s[|TypeName(a.kind)| + 1..] == a.id;
    assert s[|TypeName(b.kind)| + 1..] == b.id;
  }

  /** `scopes.find` of the first community. */
  function CommunityOf(scopes: seq<Scope>): Option<Scope>
  {
    if scopes == [] then None
    else if scopes[0].kind.Community? then Some(scopes[0])
    else CommunityOf(scopes[1..])
  }

  predicate IsRoleOf(roles: seq<Role>, roleId: string, communityId: string)
  {
    exists i :: 0 <= i < |roles| && roles[i].id == roleId
                && (roles[i].communityId.None? || roles[i].communityId == Some(communityId))
  }

  /** The role reaches the actor through an assignment in the community. */
  predicate IsAssigned(input: Input, roleId: string)
  {
    var community := CommunityOf(input.scopes);
    && community.Some?
    && IsRoleOf(input.roles, roleId, community.value.id)
    && exists i :: 0 <= i < |input.assignments|
                   && input.assignments[i] == Assignment(roleId, input.actorId, community.value.id)
  }

  predicate Applies(input: Input, d: Decision)
  {
    && IsAssigned(input, d.roleId)
    && d.permission == input.permission
    && exists i :: 0 <= i < |input.scopes| && ScopeKey(input.scopes[i]) == ScopeKey(d.scope)
  }

  function Applicable(input: Input, decisions: seq<Decision>): seq<Decision>
  {
    if decisions == [] then []
    else (if Applies(input, decisions[0]) then [decisions[0]] else []) + Applicable(input, decisions[1..])
  }

  /** The key of the sort. */
  predicate Precedes(left: Decision, right: Decision)
  {
    var l, r := Specificity(left.scope.kind), Specificity(right.scope.kind);
    l > r || (l == r && left.effect.Deny? && right.effect.Grant?)
  }

  function Order(): (Decision, Decision) -> bool { (left, right) => Precedes(left, right) }

  function Sort(decisions: seq<Decision>): seq<Decision> { Sorting.Sort(Order(), decisions) }

  predicate IsValidActor(a: ActorState) { a.sessionValid && !a.sessionRevoked && !a.suspended }

  predicate IsOwner(a: ActorState, scopes: seq<Scope>)
  {
    CommunityOf(scopes).Some? && CommunityOf(scopes).value.id in a.ownerOf
  }

  function EvaluatePermission(input: Input): Verdict
  {
    if !IsValidActor(input.actor) then Verdict(false, InvalidActor, None)
    else if IsOwner(input.actor, input.scopes) then Verdict(true, Owner, CommunityOf(input.scopes))
    else
      var applicable := Sort(Applicable(input, input.decisions));
      if applicable == [] then Verdict(false, MissingGrant, None)
      else Verdict(applicable[0].effect.Grant?, if applicable[0].effect.Grant? then Granted else Denied, Some(applicable[0].scope))
  }

  // ----- what decides -----

  lemma {:induction false} ApplicableIs(input: Input, decisions: seq<Decision>)
    ensures forall d :: d in Applicable(input, decisions) <==> d in decisions && Applies(input, d)
  {
    hide Applies;
    if decisions != [] {
      ApplicableIs(input, decisions[1..]);
      assert decisions == [decisions[0]] + decisions[1..];
    }
  }

  /** Nothing in the list comes before the head of its sorted form. */
  lemma SortedHead(decisions: seq<Decision>)
    ensures forall d :: d in Sort(decisions) <==> d in decisions
    ensures Sort(decisions) != [] ==> forall d :: d in decisions ==> !Precedes(d, Sort(decisions)[0])
  {
    SortSorts(Order(), decisions);
    var sorted := Sort(decisions);
    forall d | sorted != [] && d in sorted ensures !Precedes(d, sorted[0]) {
      var k :| 0 <= k < |sorted| && sorted[k] == d;
    }
  }

  predicate IsGrantAbove(input: Input, decisions: seq<Decision>, g: Decision)
  {
    && g in decisions && Applies(input, g) && g.effect.Grant?
    && forall d :: d in decisions && Applies(input, d) && d.effect.Deny? ==> Specificity(d.scope.kind) < Specificity(g.scope.kind)
  }

  /** Some applicable grant is more specific than every applicable deny. */
  ghost predicate GrantWins(input: Input)
  {
    exists g :: IsGrantAbove(input, input.decisions, g)
  }

  /** The scope of a verdict is that of an applicable decision of this effect which none outranks. */
  ghost predicate IsDecidedBy(input: Input, effect: Effect, scope: Option<Scope>)
  {
    exists d :: Decides(input, d) && d.effect == effect && Some(d.scope) == scope
  }

  predicate Decides(input: Input, d: Decision)
  {
    && d in input.decisions && Applies(input, d)
    && forall other :: other in input.decisions && Applies(input, other) ==> !Precedes(other, d)
  }

  /** Without ownership an actor is allowed exactly when a grant outranks every deny; reason and scope follow. */
  lemma EvaluationOfMembers(input: Input)
    requires IsValidActor(input.actor) && !IsOwner(input.actor, input.scopes)
    ensures var v := EvaluatePermission(input);
            && (v.allowed <==> GrantWins(input))
            && v.reason == (if GrantWins(input) then Granted
                            else if exists d :: d in input.decisions && Applies(input, d) then Denied else MissingGrant)
            && (if v.reason.MissingGrant? then v.scope == None
                else IsDecidedBy(input, if v.allowed then Grant else Deny, v.scope))
  {
    hide Applies, Sort, Applicable;
    var applicable := Applicable(input, input.decisions);
    var sorted := Sort(applicable);
    ApplicableIs(input, input.decisions);
    SortedHead(applicable);
    if sorted == [] {
      assert forall d :: d in input.decisions ==> !Applies(input, d);
    } else {
      var head := sorted[0];
      assert head in sorted;
      forall d | d in input.decisions && Applies(input, d) ensures !Precedes(d, head) {
        assert d in applicable;
      }
      assert Decides(input, head);
      if head.effect.Grant? {
        assert IsGrantAbove(input, input.decisions, head);
      }
    }
  }

  /** Allowed exactly for a valid actor who owns the community or whose grant outranks every deny. */
  lemma EvaluationIs(input: Input)
    ensures EvaluatePermission(input).allowed <==>
              IsValidActor(input.actor) && (IsOwner(input.actor, input.scopes) || GrantWins(input))
    ensures EvaluatePermission(input).reason ==
              if !IsValidActor(input.actor) then InvalidActor
              else if IsOwner(input.actor, input.scopes) then Owner
              else if GrantWins(input) then Granted
              else if exists d :: d in input.decisions && Applies(input, d) then Denied
              else MissingGrant
  {
    hide Applies, Sort, Applicable, GrantWins, CommunityOf;
    if IsValidActor(input.actor) && !IsOwner(input.actor, input.scopes) { EvaluationOfMembers(input); }
  }

  lemma AppliesIgnoresDecisions(input: Input, decisions: seq<Decision>, d: Decision)
    ensures Applies(input.(decisions := decisions), d) <==> Applies(input, d)
  {
  }

  /** The order and repetition of decisions do not matter. */
  lemma OrderDoesNotMatter(input: Input, decisions: seq<Decision>)
    requires forall d :: d in decisions <==> d in input.decisions
    ensures EvaluatePermission(input.(decisions := decisions)).allowed == EvaluatePermission(input).allowed
    ensures EvaluatePermission(input.(decisions := decisions)).reason == EvaluatePermission(input).reason
  {
    hide Applies, Sort, Applicable, CommunityOf;
    var other := input.(decisions := decisions);
    forall d ensures Applies(other, d) <==> Applies(input, d) { AppliesIgnoresDecisions(input, decisions, d); }
    EvaluationIs(input);
    EvaluationIs(other);
    assert forall g :: IsGrantAbove(input, input.decisions, g) <==> IsGrantAbove(other, other.decisions, g);
  }

  /** One more deny, anywhere in the list, never turns a refusal into a permission. */
  lemma DenyNeverAllows(input: Input, before: seq<Decision>, after: seq<Decision>, d: Decision)
    requires input.decisions == before + after && d.effect.Deny?
    ensures EvaluatePermission(input.(decisions := before + [d] + after)).allowed ==> EvaluatePermission(input).allowed
  {
    hide Applies, Sort, Applicable, CommunityOf;
    var more := input.(decisions := before + [d] + after);
    forall x ensures Applies(more, x) <==> Applies(input, x) { AppliesIgnoresDecisions(input, more.decisions, x); }
    EvaluationIs(input);
    EvaluationIs(more);
    if GrantWins(more) {
      var g :| IsGrantAbove(more, more.decisions, g);
      assert IsGrantAbove(input, input.decisions, g);
    }
  }

  /** One more grant never turns a permission into a refusal. */
  lemma GrantNeverRefuses(input: Input, before: seq<Decision>, after: seq<Decision>, g: Decision)
    requires input.decisions == before + after && g.effect.Grant?
    ensures EvaluatePermission(input).allowed ==> EvaluatePermission(input.(decisions := before + [g] + after)).allowed
  {
    hide Applies, Sort, Applicable, CommunityOf;
    var more := input.(decisions := before + [g] + after);
    forall x ensures Applies(more, x) <==> Applies(input, x) { AppliesIgnoresDecisions(input, more.decisions, x); }
    EvaluationIs(input);
    EvaluationIs(more);
    if GrantWins(input) {
      var w :| IsGrantAbove(input, input.decisions, w);
      assert IsGrantAbove(more, more.decisions, w);
    }
  }

  // ----- the evaluation in the terms of its input -----

  /** The id of the first community among the scopes. */
  ghost predicate IsCommunity(scopes: seq<Scope>, id: string)
  {
    exists i :: 0 <= i < |scopes| && scopes[i] == Scope(Community, id) && forall j :: 0 <= j < i ==> !scopes[j].kind.Community?
  }

  /**
   The decision is about the permission asked for, stands at one of the scopes, and its role is
   global or the community's and is assigned to the actor in the community.
   */
  ghost predicate IsWitness(input: Input, d: Decision)
  {
    && d in input.decisions && d.permission == input.permission && d.scope in input.scopes
    && exists id, role :: IsCommunity(input.scopes, id) && role in input.roles && role.id == d.roleId
                          && (role.communityId == None || role.communityId == Some(id))
                          && Assignment(d.roleId, input.actorId, id) in input.assignments
  }

  /** Of two scope types the left one is the less specific. */
  predicate IsBroader(a: ScopeType, b: ScopeType)
  {
    match a
    case Instance => !b.Instance?
    case Community => b.Category? || b.Space? || b.Resource?
    case Category => b.Space? || b.Resource?
    case Space => b.Resource?
    case Resource => false
  }

  /** A grant at a scope more specific than that of every deny. */
  ghost predicate IsGranted(input: Input)
  {
    exists g :: IsWitness(input, g) && g.effect == Grant
      && forall d :: IsWitness(input, d) && d.effect == Deny ==> IsBroader(d.scope.kind, g.scope.kind)
  }

  ghost predicate IsOwned(input: Input)
  {
    exists id :: IsCommunity(input.scopes, id) && id in input.actor.ownerOf
  }

  lemma {:induction false} CommunityIs(scopes: seq<Scope>)
    ensures CommunityOf(scopes).Some? ==> CommunityOf(scopes).value.kind == Community && IsCommunity(scopes, CommunityOf(scopes).value.id)
    ensures forall id :: IsCommunity(scopes, id) ==> CommunityOf(scopes) == Some(Scope(Community, id))
  {
    if scopes != [] {
      var rest := scopes[1..];
      CommunityIs(rest);
      if !scopes[0].kind.Community? {
        if CommunityOf(rest).Some? {
          var id := CommunityOf(rest).value.id;
          var i :| 0 <= i < |rest| && rest[i] == Scope(Community, id) && forall j :: 0 <= j < i ==> !rest[j].kind.Community?;
          assert scopes[i + 1] == Scope(Community, id);
          assert forall j :: 0 < j < i + 1 ==> scopes[j] == rest[j - 1];
        }
        forall id | IsCommunity(scopes, id) ensures IsCommunity(rest, id) {
          var i :| 0 <= i < |scopes| && scopes[i] == Scope(Community, id) && forall j :: 0 <= j < i ==> !scopes[j].kind.Community?;
          assert rest[i - 1] == scopes[i];
          assert forall j :: 0 <= j < i - 1 ==> rest[j] == scopes[j + 1];
        }
      } else {
        assert scopes[0] == Scope(Community, scopes[0].id);
      }
    }
  }

  lemma WitnessesApply(input: Input, d: Decision)
    ensures IsWitness(input, d) <==> d in input.decisions && Applies(input, d)
  {
    hide ScopeKey, CommunityOf, IsCommunity;
    CommunityIs(input.scopes);
    if d in input.decisions && Applies(input, d) {
      var k :| 0 <= k < |input.scopes| && ScopeKey(input.scopes[k]) == ScopeKey(d.scope);
      ScopeKeyIsInjective(input.scopes[k], d.scope);
      var i :| 0 <= i < |input.roles| && input.roles[i].id == d.roleId
               && (input.roles[i].communityId.None? || input.roles[i].communityId == Some(CommunityOf(input.scopes).value.id));
      assert input.roles[i] in input.roles;
    }
    if IsWitness(input, d) {
      var k :| 0 <= k < |input.scopes| && input.scopes[k] == d.scope;
      assert ScopeKey(input.scopes[k]) == ScopeKey(d.scope);
    }
  }

  lemma BroaderIsLess(a: ScopeType, b: ScopeType)
    ensures IsBroader(a, b) <==> Specificity(a) < Specificity(b)
  {
  }

  lemma GrantsWin(input: Input)
    ensures GrantWins(input) <==> IsGranted(input)
  {
    hide Applies, IsWitness, IsBroader, Specificity;
    forall d ensures IsWitness(input, d) <==> d in input.decisions && Applies(input, d) { WitnessesApply(input, d); }
    forall a: ScopeType, b: ScopeType ensures IsBroader(a, b) <==> Specificity(a) < Specificity(b) { BroaderIsLess(a, b); }
    if GrantWins(input) {
      var g :| IsGrantAbove(input, input.decisions, g);
      assert IsWitness(input, g);
    }
    if IsGranted(input) {
      var g :| IsWitness(input, g) && g.effect == Grant
               && forall d :: IsWitness(input, d) && d.effect == Deny ==> IsBroader(d.scope.kind, g.scope.kind);
      assert IsGrantAbove(input, input.decisions, g);
    }
  }

  lemma OwnersOwn(input: Input)
    ensures IsOwner(input.actor, input.scopes) <==> IsOwned(input)
  {
    hide CommunityOf, IsCommunity;
    CommunityIs(input.scopes);
  }

  /** The answer and its reason, from the input alone. */
  lemma EvaluationIsExact(input: Input)
    ensures var v, valid := EvaluatePermission(input), input.actor.sessionValid && !input.actor.sessionRevoked && !input.actor.suspended;
            && v.reason == (if !valid then InvalidActor
                            else if IsOwned(input) then Owner
                            else if IsGranted(input) then Granted
                            else if exists d :: IsWitness(input, d) then Denied
                            else MissingGrant)
            && (v.allowed <==> v.reason == Owner || v.reason == Granted)
  {
    hide Applies, IsWitness, GrantWins, IsGranted, IsOwner, IsOwned;
    EvaluationIs(input);
    GrantsWin(input);
    OwnersOwn(input);
    forall d ensures IsWitness(input, d) <==> d in input.decisions && Applies(input, d) { WitnessesApply(input, d); }
  }

  /** A decided answer names the scope of a witness of its effect that no witness is more specific than; a deny comes first. */
  lemma ScopeIsThatOfWitness(input: Input)
    requires EvaluatePermission(input).reason.Granted? || EvaluatePermission(input).reason.Denied?
    ensures exists d :: IsWitness(input, d) && EvaluatePermission(input).scope == Some(d.scope)
              && d.effect == (if EvaluatePermission(input).allowed then Grant else Deny)
              && forall other :: IsWitness(input, other) ==>
                   !IsBroader(d.scope.kind, other.scope.kind)
                   && (other.scope.kind == d.scope.kind && other.effect == Deny ==> d.effect == Deny)
  {
    hide Applies, IsWitness, GrantWins, Sort, Applicable, CommunityOf, IsBroader, Specificity;
    EvaluationOfMembers(input);
    var v := EvaluatePermission(input);
    forall d ensures IsWitness(input, d) <==> d in input.decisions && Applies(input, d) { WitnessesApply(input, d); }
    forall a: ScopeType, b: ScopeType ensures IsBroader(a, b) <==> Specificity(a) < Specificity(b) { BroaderIsLess(a, b); }
    var d :| Decides(input, d) && d.effect == (if v.allowed then Grant else Deny) && Some(d.scope) == v.scope;
    assert IsWitness(input, d);
  }

  /** The owner's answer names the community. */
  lemma OwnerNamesTheCommunity(input: Input)
    requires EvaluatePermission(input).reason.Owner?
    ensures exists id :: IsCommunity(input.scopes, id) && EvaluatePermission(input).scope == Some(Scope(Community, id))
  {
    hide Applies, Sort, Applicable, IsCommunity, CommunityOf;
    CommunityIs(input.scopes);
  }

  /** Decisions that are no witnesses change neither answer nor reason. */
  lemma OnlyWitnessesMatter(input: Input, decisions: seq<Decision>)
    requires forall d :: IsWitness(input, d) ==> d in decisions
    requires forall d :: d in decisions ==> d in input.decisions
    ensures EvaluatePermission(input.(decisions := decisions)).allowed == EvaluatePermission(input).allowed
    ensures EvaluatePermission(input.(decisions := decisions)).reason == EvaluatePermission(input).reason
  {
    hide IsCommunity, EvaluatePermission;
    var other := input.(decisions := decisions);
    forall d ensures IsWitness(other, d) <==> IsWitness(input, d) { SameWitness(input, decisions, d); }
    EvaluationIsExact(input);
    EvaluationIsExact(other);
  }

  lemma SameWitness(input: Input, decisions: seq<Decision>, d: Decision)
    requires IsWitness(input, d) ==> d in decisions
    requires d in decisions ==> d in input.decisions
    ensures IsWitness(input.(decisions := decisions), d) <==> IsWitness(input, d)
  {
  }

  // ----- moderation -----

  /** The store during one transaction: a state per actor, everything else shared. */
  datatype Store = Store(actors: map<string, ActorState>, roles: seq<Role>, assignments: seq<Assignment>, decisions: seq<Decision>)

  /** An account without a state of its own counts as having no session. */
  const STRANGER := ActorState(false, false, false, {})

  function StateOf(st: Store, actorId: string): ActorState
  {
    if actorId in st.actors then st.actors[actorId] else STRANGER
  }

  function InputFor(st: Store, actorId: string, communityId: string, permission: string): Input
  {
    Input(actorId, StateOf(st, actorId), permission, [Scope(Community, communityId)], st.roles, st.assignments, st.decisions)
  }

  predicate Holds(st: Store, subject: string, roleId: string)
  {
    exists i :: 0 <= i < |st.assignments| && st.assignments[i].actorId == subject && st.assignments[i].roleId == roleId
  }

  /** `Math.max(-1, ...)` over the positions of the roles the subject holds. */
  function Position(st: Store, roles: seq<Role>, subject: string): int
  {
    if roles == [] then -1
    else
      var rest := Position(st, roles[1..], subject);
      if Holds(st, subject, roles[0].id) && roles[0].position > rest then roles[0].position else rest
  }

  function AssertCanModerate(st: Store, actorId: string, targetId: string, communityId: string, permission: string): Result<(), Reason>
  {
    var authority := EvaluatePermission(InputFor(st, actorId, communityId, permission));
    if !authority.allowed || actorId == targetId then Failure(authority.reason)
    else if communityId in StateOf(st, targetId).ownerOf then Failure(Denied)
    else if communityId in StateOf(st, actorId).ownerOf then Success(())
    else if Position(st, st.roles, actorId) <= Position(st, st.roles, targetId) then Failure(Denied)
    else Success(())
  }

  predicate MayModerate(st: Store, actorId: string, targetId: string, communityId: string, permission: string)
  {
    AssertCanModerate(st, actorId, targetId, communityId, permission).Success?
  }

  /** Nobody moderates themselves, and no two accounts moderate each other. */
  lemma ModerationIsAsymmetric(st: Store, a: string, b: string, communityId: string, permission: string)
    requires MayModerate(st, a, b, communityId, permission)
    ensures a != b && !MayModerate(st, b, a, communityId, permission)
  {
    hide EvaluatePermission, Position;
  }

  lemma ModerationIsTransitive(st: Store, a: string, b: string, c: string, communityId: string, permission: string)
    requires MayModerate(st, a, b, communityId, permission) && MayModerate(st, b, c, communityId, permission)
    ensures MayModerate(st, a, c, communityId, permission)
  {
    hide EvaluatePermission, Position;
  }

  /** A cycle of moderators is impossible at any length. */
  lemma {:induction false} NoModerationCycle(st: Store, chain: seq<string>, communityId: string, permission: string)
    requires |chain| >= 2
    requires forall i :: 0 <= i < |chain| - 1 ==> MayModerate(st, chain[i], chain[i + 1], communityId, permission)
    ensures MayModerate(st, chain[0], chain[|chain| - 1], communityId, permission) && chain[0] != chain[|chain| - 1]
  {
    hide MayModerate;
    var n := |chain| - 1;
    if n == 1 {
      ModerationIsAsymmetric(st, chain[0], chain[1], communityId, permission);
    } else {
      NoModerationCycle(st, chain[..n], communityId, permission);
      assert MayModerate(st, chain[n - 1], chain[n - 1 + 1], communityId, permission);
      ModerationIsTransitive(st, chain[0], chain[n - 1], chain[n], communityId, permission);
      ModerationIsAsymmetric(st, chain[0], chain[n], communityId, permission);
    }
  }

  /** A position is the highest one held, and -1 without any. */
  lemma {:induction false} PositionIsHighest(st: Store, roles: seq<Role>, subject: string)
    ensures var p := Position(st, roles, subject);
            && p >= -1
            && (forall r :: r in roles && Holds(st, subject, r.id) ==> r.position <= p)
            && (p > -1 ==> exists r :: r in roles && Holds(st, subject, r.id) && r.position == p)
  {
    hide Holds;
    if roles != [] {
      PositionIsHighest(st, roles[1..], subject);
      assert roles == [roles[0]] + roles[1..];
      var p := Position(st, roles[1..], subject);
      if p > -1 {
        var r :| r in roles[1..] && Holds(st, subject, r.id) && r.position == p;
        assert r in roles;
      }
    }
  }

  predicate HoldsRole(st: Store, subject: string, r: Role)
  {
    r in st.roles && exists a :: a in st.assignments && a.actorId == subject && a.roleId == r.id
  }

  /** The actor holds a role above every role of the target, or any role when the target has none. */
  ghost predicate Outranks(st: Store, actorId: string, targetId: string)
  {
    exists r :: HoldsRole(st, actorId, r) && r.position >= 0 && forall other :: HoldsRole(st, targetId, other) ==> other.position < r.position
  }

  lemma HoldersHold(st: Store, subject: string, r: Role)
    ensures HoldsRole(st, subject, r) <==> r in st.roles && Holds(st, subject, r.id)
  {
    if r in st.roles && Holds(st, subject, r.id) {
      var i :| 0 <= i < |st.assignments| && st.assignments[i].actorId == subject && st.assignments[i].roleId == r.id;
      assert st.assignments[i] in st.assignments;
    }
  }

  lemma HigherOutranks(st: Store, actorId: string, targetId: string)
    ensures Position(st, st.roles, actorId) > Position(st, st.roles, targetId) <==> Outranks(st, actorId, targetId)
  {
    hide Position, Holds, HoldsRole;
    PositionIsHighest(st, st.roles, actorId);
    PositionIsHighest(st, st.roles, targetId);
    forall r: Role ensures HoldsRole(st, actorId, r) <==> r in st.roles && Holds(st, actorId, r.id) { HoldersHold(st, actorId, r); }
    forall r: Role ensures HoldsRole(st, targetId, r) <==> r in st.roles && Holds(st, targetId, r.id) { HoldersHold(st, targetId, r); }
    var p := Position(st, st.roles, actorId);
    if p > Position(st, st.roles, targetId) {
      var r :| r in st.roles && Holds(st, actorId, r.id) && r.position == p;
      assert HoldsRole(st, actorId, r);
    }
    if Outranks(st, actorId, targetId) {
      var r :| HoldsRole(st, actorId, r) && r.position >= 0 && forall other :: HoldsRole(st, targetId, other) ==> other.position < r.position;
      assert r.position <= p;
    }
  }

  /**
   Moderation needs the permission in the community, another account as its target that does not
   own the community, and an owner or a role above every role of the target.
   */
  lemma ModerationIsExact(st: Store, actorId: string, targetId: string, communityId: string, permission: string)
    ensures MayModerate(st, actorId, targetId, communityId, permission) <==>
              && actorId != targetId
              && actorId in st.actors
              && EvaluatePermission(Input(actorId, st.actors[actorId], permission, [Scope(Community, communityId)],
                                          st.roles, st.assignments, st.decisions)).allowed
              && !(targetId in st.actors && communityId in st.actors[targetId].ownerOf)
              && (communityId in st.actors[actorId].ownerOf || Outranks(st, actorId, targetId))
  {
    hide EvaluatePermission, Position, Outranks;
    HigherOutranks(st, actorId, targetId);
    if actorId !in st.actors { StrangersMayNothing(st, actorId, communityId, permission); }
  }

  lemma StrangersMayNothing(st: Store, actorId: string, communityId: string, permission: string)
    requires actorId !in st.actors
    ensures EvaluatePermission(InputFor(st, actorId, communityId, permission)) == Verdict(false, InvalidActor, None)
  {
  }

  /** A refusal names the actor's own reason when the permission is missing or the target is the actor, else a deny. */
  lemma ModerationReason(st: Store, actorId: string, targetId: string, communityId: string, permission: string)
    requires !MayModerate(st, actorId, targetId, communityId, permission)
    ensures var authority := EvaluatePermission(InputFor(st, actorId, communityId, permission));
            AssertCanModerate(st, actorId, targetId, communityId, permission)
            == Failure(if authority.allowed && actorId != targetId then Denied else authority.reason)
  {
    hide EvaluatePermission, Position;
  }
}
