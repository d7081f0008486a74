/**
 * Who may do what to a workflow: the role-based check over access rows and
 * memberships, the legacy fall-back over the owning and referred groups, and
 * the transitions offered to a user.
 */
module Permissions {
  import opened Common

  type UserId = nat
  type GroupId = nat
  type RoleId = nat
  type StateId = nat
  type TypeId = nat
  type Time = int

  datatype User = User(id: UserId, isActive: bool, isSuperuser: bool)

  datatype Membership = Membership(user: UserId, group: GroupId, role: RoleId, isActive: bool)

  datatype StatePermission = StatePermission(
    roles: set<RoleId>, canView: bool, canEdit: bool, canDelete: bool, canTransition: bool)

  datatype Transition = Transition(
    workflowType: TypeId, fromState: StateId, toState: StateId, allowedRoles: set<RoleId>, requiresComment: bool)

  /** The configuration a request reads besides the workflow itself. */
  datatype Directory = Directory(
    memberships: seq<Membership>,
    statePermissions: map<StateId, seq<StatePermission>>,
    transitions: seq<Transition>,
    permissionManagers: set<RoleId>,
    terminal: set<StateId>,
    referable: set<StateId>,
    typeGroup: map<TypeId, GroupId>)

  /** A per-workflow override for one role; an empty set of states means every state. */
  datatype Override = Override(
    canView: bool, canEdit: bool, canDelete: bool, canTransition: bool, allowedStates: set<StateId>)

  /** One access row. There is at most one override per role, hence a map. */
  datatype Access = Access(
    group: GroupId, isPrimary: bool, grantedBy: Option<UserId>, notes: string, overrides: map<RoleId, Override>)

  datatype Referral = Referral(
    group: GroupId, referredBy: UserId, referredAt: Time, deadline: Option<Time>,
    recalledAt: Option<Time>, recalledBy: Option<UserId>)

  datatype LogEntry = LogEntry(fromState: StateId, toState: StateId, user: UserId, comment: string, at: Time)

  datatype Workflow = Workflow(
    workflowType: TypeId,
    owner: UserId,
    state: StateId,
    primaryGroup: Option<GroupId>,
    access: seq<Access>,
    referrals: seq<Referral>,
    referredTo: set<GroupId>,
    log: seq<LogEntry>)
  {
    /** The owning group, or the workflow type's group when none is set. */
    function EffectiveGroup(d: Directory): Option<GroupId> {
      if primaryGroup.Some? then primaryGroup
      else if workflowType in d.typeGroup then Some(d.typeGroup[workflowType])
      else None
    }

    predicate IsReferred() {
      exists r :: r in referrals && r.recalledAt.None?
    }
  }

  datatype Permission = View | Edit | Delete | Transit | ManagePermissions

  /** Reading the id of a missing owning group raises; that outcome is NoGroup. */
  datatype Verdict = Allowed | Denied | NoGroup

  predicate OverrideGrants(o: Override, p: Permission) {
    match p
    case View => o.canView
    case Edit => o.canEdit
    case Delete => o.canDelete
    case Transit => o.canTransition
    case ManagePermissions => false
  }

  predicate StateGrants(s: StatePermission, p: Permission) {
    match p
    case View => s.canView
    case Edit => s.canEdit
    case Delete => s.canDelete
    case Transit => s.canTransition
    case ManagePermissions => false
  }

  function StatePermissionsOf(d: Directory, s: StateId): seq<StatePermission> {
    if s in d.statePermissions then d.statePermissions[s] else []
  }

  /** The first state permission that lists the role. */
  function FirstFor(perms: seq<StatePermission>, role: RoleId): Option<StatePermission> {
    if perms == [] then None
    else if role in perms[0].roles then Some(perms[0])
    else FirstFor(perms[1..], role)
  }

  // ---------------------------------------------------------------- the role-based check

  /** A membership of u that is active and in the access row's group. */
  predicate Meets(a: Access, m: Membership, u: UserId) {
    m.user == u && m.isActive && m.group == a.group
  }

  /** An override for the role decides alone; otherwise the state (or the role's own flag) does. */
  ghost predicate PairGrants(d: Directory, w: Workflow, a: Access, role: RoleId, p: Permission) {
    if role in a.overrides then
      var o := a.overrides[role];
      (o.allowedStates == {} || w.state in o.allowedStates) && OverrideGrants(o, p)
    else if p == ManagePermissions then
      role in d.permissionManagers
    else
      var s := FirstFor(StatePermissionsOf(d, w.state), role);
      if s.Some? then StateGrants(s.value, p)
      else p == Transit && exists t :: t in d.transitions && Defined(w, t) && role in t.allowedRoles
  }

  /** t starts where the workflow is and belongs to its type. */
  predicate Defined(w: Workflow, t: Transition) {
    t.workflowType == w.workflowType && t.fromState == w.state
  }

  /** The check as one existential over (access row, membership) pairs. */
  ghost predicate RbacAllows(d: Directory, w: Workflow, u: User, p: Permission) {
    && u.isActive
    && ((u.id == w.owner && p != ManagePermissions)
        || exists a, m :: a in w.access && m in d.memberships && Meets(a, m, u.id) && PairGrants(d, w, a, m.role, p))
  }

  /** The nested loops with their early exits decide exactly that existential. */
  method CheckRbacPermission(d: Directory, w: Workflow, u: User, p: Permission) returns (ok: bool)
    ensures ok <==> RbacAllows(d, w, u, p)
  {
    if !u.isActive {
      return false;
    }
    if u.id == w.owner && p != ManagePermissions {
      return true;
    }
    for i := 0 to |w.access|
      invariant forall a, m :: a in w.access[..i] && m in d.memberships && Meets(a, m, u.id) ==>
                                 !PairGrants(d, w, a, m.role, p)
    {
      var a := w.access[i];
      for j := 0 to |d.memberships|
        invariant forall m :: m in d.memberships[..j] && Meets(a, m, u.id) ==> !PairGrants(d, w, a, m.role, p)
      {
        var m := d.memberships[j];
        assert d.memberships[..j + 1] == d.memberships[..j] + [m];
        if !Meets(a, m, u.id) {
          continue;
        }
        if m.role in a.overrides {
          var o := a.overrides[m.role];
          if o.allowedStates != {} {
            if w.state !in o.allowedStates {
              continue;
            }
          }
          if OverrideGrants(o, p) {
            assert PairGrants(d, w, a, m.role, p);
            return true;
          }
          continue;
        }
        if p != ManagePermissions {
          var s := FirstFor(StatePermissionsOf(d, w.state), m.role);
          if s.Some? {
            if StateGrants(s.value, p) {
              assert PairGrants(d, w, a, m.role, p);
              return true;
            }
          } else if p == Transit {
            if exists t :: t in d.transitions && Defined(w, t) && m.role in t.allowedRoles {
              assert PairGrants(d, w, a, m.role, p);
              return true;
            }
          }
          continue;
        }
        if m.role in d.permissionManagers {
          assert PairGrants(d, w, a, m.role, p);
          return true;
        }
      }
      assert d.memberships[..|d.memberships|] == d.memberships;
      assert w.access[..i + 1] == w.access[..i] + [a];
    }
    assert w.access[..|w.access|] == w.access;
    return false;
  }

  /** The order in which access rows and memberships come back from the database is immaterial. */
  lemma RbacIgnoresOrder(d: Directory, w: Workflow, u: User, p: Permission,
                         access: seq<Access>, memberships: seq<Membership>)
    requires multiset(access) == multiset(w.access)
    requires multiset(memberships) == multiset(d.memberships)
    ensures RbacAllows(d.(memberships := memberships), w.(access := access), u, p) <==> RbacAllows(d, w, u, p)
  {
    var e, v := d.(memberships := memberships), w.(access := access);
    forall a ensures a in access <==> a in w.access {
      assert a in multiset(access) <==> a in multiset(w.access);
    }
    forall m ensures m in memberships <==> m in d.memberships {
      assert m in multiset(memberships) <==> m in multiset(d.memberships);
    }
    forall a, role ensures PairGrants(e, v, a, role, p) <==> PairGrants(d, w, a, role, p) {
      assert forall t :: Defined(v, t) <==> Defined(w, t);
      assert StatePermissionsOf(e, v.state) == StatePermissionsOf(d, w.state);
    }
  }

  /** Where every matching role is overridden, state permissions and transition roles are not consulted. */
  lemma OverrideHidesConfiguration(d: Directory, e: Directory, w: Workflow, u: User, p: Permission)
    requires d.memberships == e.memberships
    requires forall a, m :: a in w.access && m in d.memberships && Meets(a, m, u.id) ==> m.role in a.overrides
    ensures RbacAllows(d, w, u, p) <==> RbacAllows(e, w, u, p)
  {
    forall a, m | a in w.access && m in d.memberships && Meets(a, m, u.id)
      ensures PairGrants(d, w, a, m.role, p) <==> PairGrants(e, w, a, m.role, p)
    {
    }
  }

  // ---------------------------------------------------------------- view, edit, delete

  ghost predicate ActiveIn(d: Directory, u: UserId, g: GroupId) {
    exists m :: m in d.memberships && m.user == u && m.isActive && m.group == g
  }

  /** The group memberships the fall-back looks at. */
  ghost predicate LegacyRole(d: Directory, w: Workflow, u: UserId, role: RoleId) {
    exists m :: m in d.memberships && m.user == u && m.isActive && m.role == role
                && (Some(m.group) == w.EffectiveGroup(d) || m.group in w.referredTo)
  }

  ghost predicate InReferredGroup(d: Directory, w: Workflow, u: UserId) {
    exists g :: g in w.referredTo && ActiveIn(d, u, g)
  }

  ghost function Ruling(d: Directory, w: Workflow, u: User, p: Permission): Verdict {
    if !u.isActive then Denied
    else if u.isSuperuser then Allowed
    else if w.access != [] && RbacAllows(d, w, u, p) then Allowed
    else if w.EffectiveGroup(d).None? then NoGroup
    else if p != Delete && InReferredGroup(d, w, u.id) then Allowed
    else if exists s, role :: s in StatePermissionsOf(d, w.state) && role in s.roles
                              && LegacyRole(d, w, u.id, role) && StateGrants(s, p) then Allowed
    else Denied
  }

  /** can_user_view, can_user_edit and can_user_delete; delete gives referred groups nothing of their own. */
  method CanUser(d: Directory, w: Workflow, u: User, p: Permission) returns (v: Verdict)
    requires p == View || p == Edit || p == Delete
    ensures v == Ruling(d, w, u, p)
  {
    if !u.isActive {
      return Denied;
    }
    if u.isSuperuser {
      return Allowed;
    }
    if w.access != [] {
      var granted := CheckRbacPermission(d, w, u, p);
      if granted {
        return Allowed;
      }
    }
    var own := w.EffectiveGroup(d);
    if own.None? {
      return NoGroup;
    }
    var userGroups := ActiveGroups(d, u.id);
    if own.value !in userGroups && w.referredTo * userGroups == {} {
      forall g | g in w.referredTo ensures !ActiveIn(d, u.id, g) {
        assert g !in w.referredTo * userGroups;
      }
      forall role ensures !LegacyRole(d, w, u.id, role) {
        assert forall m :: m in d.memberships && m.user == u.id && m.isActive ==> ActiveIn(d, u.id, m.group);
      }
      return Denied;
    }
    if p != Delete && w.referredTo * userGroups != {} {
      assert InReferredGroup(d, w, u.id) by {
        var g :| g in w.referredTo * userGroups;
      }
      return Allowed;
    }
    var roles := RolesIn(d, u.id, {own.value} + w.referredTo);
    var perms := StatePermissionsOf(d, w.state);
    if exists s :: s in perms && s.roles * roles != {} && StateGrants(s, p) {
      var s :| s in perms && s.roles * roles != {} && StateGrants(s, p);
      var role :| role in s.roles * roles;
      assert LegacyRole(d, w, u.id, role);
      return Allowed;
    }
    assert p == Delete || !InReferredGroup(d, w, u.id) by {
      forall g | g in w.referredTo && ActiveIn(d, u.id, g) ensures p == Delete {
        assert g in w.referredTo * userGroups;
      }
    }
    forall s, role | s in perms && role in s.roles && LegacyRole(d, w, u.id, role)
      ensures !StateGrants(s, p)
    {
      assert role in s.roles * roles;
    }
    return Denied;
  }

  function ActiveGroups(d: Directory, u: UserId): (gs: set<GroupId>)
    ensures forall g :: g in gs <==> ActiveIn(d, u, g)
  {
    set m | m in d.memberships && m.user == u && m.isActive :: m.group
  }

  function RolesIn(d: Directory, u: UserId, groups: set<GroupId>): (rs: set<RoleId>)
    ensures forall r :: r in rs <==>
                          exists m :: m in d.memberships && m.user == u && m.isActive
                                      && m.role == r && m.group in groups
  {
    set m | m in d.memberships && m.user == u && m.isActive && m.group in groups :: m.role
  }

  // ---------------------------------------------------------------- transitions

  /** The groups whose members' roles count for transitions. */
  ghost function TransitGroups(d: Directory, w: Workflow): set<GroupId> {
    (if w.access != [] then set a | a in w.access :: a.group
     else if w.EffectiveGroup(d).Some? then {w.EffectiveGroup(d).value}
     else {}) + w.referredTo
  }

  ghost predicate Offered(d: Directory, w: Workflow, u: UserId, t: Transition) {
    && t in d.transitions && Defined(w, t)
    && !(w.IsReferred() && u == w.owner)
    && exists m :: m in d.memberships && m.user == u && m.isActive
                   && m.group in TransitGroups(d, w) && m.role in t.allowedRoles
  }

  method GetAvailableTransitions(d: Directory, w: Workflow, u: User) returns (ts: seq<Transition>)
    ensures forall t :: t in ts <==> Offered(d, w, u.id, t)
  {
    var roles := {};
    if w.access != [] {
      for i := 0 to |w.access|
        invariant forall r :: r in roles <==>
                                exists m :: m in d.memberships && m.user == u.id && m.isActive && m.role == r
                                            && m.group in set a | a in w.access[..i] :: a.group
      {
        assert (set a | a in w.access[..i + 1] :: a.group)
            == (set a | a in w.access[..i] :: a.group) + {w.access[i].group} by {
          assert w.access[..i + 1] == w.access[..i] + [w.access[i]];
        }
        roles := roles + RolesIn(d, u.id, {w.access[i].group});
      }
      assert w.access[..|w.access|] == w.access;
    } else if w.EffectiveGroup(d).Some? {
      roles := RolesIn(d, u.id, {w.EffectiveGroup(d).value});
    }
    roles := roles + RolesIn(d, u.id, w.referredTo);
    assert forall r :: r in roles <==>
                         exists m :: m in d.memberships && m.user == u.id && m.isActive && m.role == r
                                     && m.group in TransitGroups(d, w);
    if w.IsReferred() {
      if u.id == w.owner {
        return [];
      }
    }
    ts := [];
    for i := 0 to |d.transitions|
      invariant forall t :: t in ts <==> t in d.transitions[..i] && Defined(w, t) && t.allowedRoles * roles != {}
    {
      var t := d.transitions[i];
      assert d.transitions[..i + 1] == d.transitions[..i] + [t];
      if Defined(w, t) && t.allowedRoles * roles != {} {
        ts := ts + [t];
      }
    }
    assert d.transitions[..|d.transitions|] == d.transitions;
    forall t: Transition ensures t.allowedRoles * roles != {} <==>
                       exists m :: m in d.memberships && m.user == u.id && m.isActive
                                   && m.group in TransitGroups(d, w) && m.role in t.allowedRoles
    {
      if t.allowedRoles * roles != {} {
        var r :| r in t.allowedRoles * roles;
      }
      if m :| m in d.memberships && m.user == u.id && m.isActive
              && m.group in TransitGroups(d, w) && m.role in t.allowedRoles {
        assert m.role in t.allowedRoles * roles;
      }
    }
  }

  /** A new active referral takes a transition away from the owner, and from nobody else. */
  lemma ReferralBlocksOnlyOwner(d: Directory, w: Workflow, r: Referral, u: UserId, t: Transition)
    requires r.recalledAt.None?
    ensures var v := w.(referrals := w.referrals + [r], referredTo := w.referredTo + {r.group});
            Offered(d, w, u, t) && !Offered(d, v, u, t) <==> Offered(d, w, u, t) && u == w.owner
  {
    var v := w.(referrals := w.referrals + [r], referredTo := w.referredTo + {r.group});
    assert r in v.referrals;
    assert TransitGroups(d, w) <= TransitGroups(d, v);
    if Offered(d, w, u, t) && u != w.owner {
      var m :| m in d.memberships && m.user == u && m.isActive
               && m.group in TransitGroups(d, w) && m.role in t.allowedRoles;
      assert m.group in TransitGroups(d, v);
    }
  }
}
