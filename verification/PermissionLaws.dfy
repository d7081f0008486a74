/** Which flag grants which permission, stated on the flags of the configuration rows. */
module PermissionLaws {
  import opened Common
  import opened Permissions

  // ---------------------------------------------------------------- state permissions, without access rows

  /** The owning group: the workflow's own, or the type's where none is set. */
  ghost predicate Owns(d: Directory, w: Workflow, g: GroupId) {
    w.primaryGroup == Some(g)
    || (w.primaryGroup == None && w.workflowType in d.typeGroup && d.typeGroup[w.workflowType] == g)
  }

  /** A state permission of the current state lists a role the user has in the owning or a referred group. */
  ghost predicate ListsMember(d: Directory, w: Workflow, u: UserId, own: GroupId, s: StatePermission) {
    && w.state in d.statePermissions && s in d.statePermissions[w.state]
    && exists m :: m in d.memberships && m.user == u && m.isActive && m.role in s.roles
                   && (m.group == own || m.group in w.referredTo)
  }

  ghost predicate IsReferredMember(d: Directory, w: Workflow, u: UserId) {
    exists m :: m in d.memberships && m.user == u && m.isActive && m.group in w.referredTo
  }

  lemma GrantedByListed(d: Directory, w: Workflow, u: User, own: GroupId, p: Permission)
    requires u.isActive && !u.isSuperuser && w.access == [] && Owns(d, w, own)
    requires p == Delete || !IsReferredMember(d, w, u.id)
    ensures Ruling(d, w, u, p) == (if exists s :: ListsMember(d, w, u.id, own, s) && StateGrants(s, p)
                                   then Allowed else Denied)
  {
    assert w.EffectiveGroup(d) == Some(own);
    if s :| ListsMember(d, w, u.id, own, s) && StateGrants(s, p) {
      var m :| m in d.memberships && m.user == u.id && m.isActive && m.role in s.roles
               && (m.group == own || m.group in w.referredTo);
      assert LegacyRole(d, w, u.id, m.role);
    }
    if s, role :| s in StatePermissionsOf(d, w.state) && role in s.roles
                  && LegacyRole(d, w, u.id, role) && StateGrants(s, p) {
      assert ListsMember(d, w, u.id, own, s);
    }
  }

  /**
   * Without access rows the flags of the state permissions decide: canView for
   * View, canEdit for Edit, canDelete for Delete. A member of a referred group may
   * view and edit whatever they say.
   */
  lemma StateFlagsDecide(d: Directory, w: Workflow, u: User, own: GroupId)
    requires u.isActive && !u.isSuperuser && w.access == [] && Owns(d, w, own)
    ensures IsReferredMember(d, w, u.id) ==> Ruling(d, w, u, View) == Allowed && Ruling(d, w, u, Edit) == Allowed
    ensures !IsReferredMember(d, w, u.id) ==>
              && Ruling(d, w, u, View)
                 == (if exists s :: ListsMember(d, w, u.id, own, s) && s.canView then Allowed else Denied)
              && Ruling(d, w, u, Edit)
                 == (if exists s :: ListsMember(d, w, u.id, own, s) && s.canEdit then Allowed else Denied)
    ensures Ruling(d, w, u, Delete)
            == (if exists s :: ListsMember(d, w, u.id, own, s) && s.canDelete then Allowed else Denied)
  {
    GrantedByListed(d, w, u, own, Delete);
    if IsReferredMember(d, w, u.id) {
      var m :| m in d.memberships && m.user == u.id && m.isActive && m.group in w.referredTo;
      assert ActiveIn(d, u.id, m.group);
    } else {
      GrantedByListed(d, w, u, own, View);
      GrantedByListed(d, w, u, own, Edit);
    }
  }

  /** Who stands outside the rules: the inactive, superusers, and everybody where there is no owning group. */
  lemma OutsideTheRules(d: Directory, w: Workflow, u: User, p: Permission)
    ensures !u.isActive ==> Ruling(d, w, u, p) == Denied
    ensures u.isActive && u.isSuperuser ==> Ruling(d, w, u, p) == Allowed
    ensures u.isActive && !u.isSuperuser && w.access == [] && (forall g :: !Owns(d, w, g)) ==>
              Ruling(d, w, u, p) == NoGroup
    ensures u.isActive && !u.isSuperuser && w.access != [] && u.id == w.owner && p != ManagePermissions ==>
              Ruling(d, w, u, p) == Allowed
    ensures !u.isActive ==> !RbacAllows(d, w, u, p)
    ensures u.isActive && u.id == w.owner && p != ManagePermissions ==> RbacAllows(d, w, u, p)
  {
    if w.EffectiveGroup(d).Some? {
      assert Owns(d, w, w.EffectiveGroup(d).value);
    }
  }

  // ---------------------------------------------------------------- access rows

  /** Every access row and active membership of the user that meet do so in this row and role. */
  ghost predicate OnlyPair(d: Directory, w: Workflow, u: UserId, a: Access, role: RoleId) {
    && a in w.access
    && (exists m :: m in d.memberships && m.user == u && m.isActive && m.group == a.group && m.role == role)
    && (forall b, m :: b in w.access && m in d.memberships && m.user == u && m.isActive && m.group == b.group ==>
                         b == a && m.role == role)
  }

  lemma OnlyPairDecides(d: Directory, w: Workflow, u: User, a: Access, role: RoleId, p: Permission)
    requires u.isActive && u.id != w.owner && OnlyPair(d, w, u.id, a, role)
    ensures RbacAllows(d, w, u, p) <==> PairGrants(d, w, a, role, p)
  {
    var m :| m in d.memberships && m.user == u.id && m.isActive && m.group == a.group && m.role == role;
    assert Meets(a, m, u.id);
    assert forall b, n :: Meets(b, n, u.id) <==> n.user == u.id && n.isActive && n.group == b.group;
  }

  /** An override decides alone, flag by flag, and outside its states it grants nothing. */
  lemma OverrideFlagsDecide(d: Directory, w: Workflow, u: User, a: Access, role: RoleId)
    requires u.isActive && u.id != w.owner && OnlyPair(d, w, u.id, a, role) && role in a.overrides
    ensures var o := a.overrides[role];
            var applies := o.allowedStates == {} || w.state in o.allowedStates;
            && (RbacAllows(d, w, u, View) <==> applies && o.canView)
            && (RbacAllows(d, w, u, Edit) <==> applies && o.canEdit)
            && (RbacAllows(d, w, u, Delete) <==> applies && o.canDelete)
            && (RbacAllows(d, w, u, Transit) <==> applies && o.canTransition)
            && !RbacAllows(d, w, u, ManagePermissions)
  {
    OnlyPairDecides(d, w, u, a, role, View);
    OnlyPairDecides(d, w, u, a, role, Edit);
    OnlyPairDecides(d, w, u, a, role, Delete);
    OnlyPairDecides(d, w, u, a, role, Transit);
    OnlyPairDecides(d, w, u, a, role, ManagePermissions);
  }

  /** s is the first state permission of the current state that lists the role. */
  ghost predicate FirstListing(d: Directory, w: Workflow, role: RoleId, k: nat) {
    && w.state in d.statePermissions && k < |d.statePermissions[w.state]|
    && role in d.statePermissions[w.state][k].roles
    && forall j :: 0 <= j < k ==> role !in d.statePermissions[w.state][j].roles
  }

  ghost predicate Unlisted(d: Directory, w: Workflow, role: RoleId) {
    w.state in d.statePermissions ==> forall s :: s in d.statePermissions[w.state] ==> role !in s.roles
  }

  lemma {:induction false} FirstForExactly(perms: seq<StatePermission>, role: RoleId)
    ensures FirstFor(perms, role).None? <==> forall s :: s in perms ==> role !in s.roles
    ensures forall k :: 0 <= k < |perms| && role in perms[k].roles
                        && (forall j :: 0 <= j < k ==> role !in perms[j].roles) ==>
                          FirstFor(perms, role) == Some(perms[k])
  {
    if perms != [] {
      FirstForExactly(perms[1..], role);
      assert perms == [perms[0]] + perms[1..];
      forall k | 0 <= k < |perms| && role in perms[k].roles && (forall j :: 0 <= j < k ==> role !in perms[j].roles)
        ensures FirstFor(perms, role) == Some(perms[k])
      {
        if k > 0 {
          assert role !in perms[0].roles;
          assert perms[1..][k - 1] == perms[k];
          assert forall j :: 0 <= j < k - 1 ==> perms[1..][j] == perms[j + 1];
        }
      }
    }
  }

  /**
   * Without an override the first state permission listing the role decides, flag by
   * flag. Where none lists it, nothing is granted but a transition the role is
   * allowed on. Managing permissions is the role's own flag.
   */
  lemma RoleFlagsDecide(d: Directory, w: Workflow, u: User, a: Access, role: RoleId, k: nat)
    requires u.isActive && u.id != w.owner && OnlyPair(d, w, u.id, a, role) && role !in a.overrides
    ensures FirstListing(d, w, role, k) ==>
              var s := d.statePermissions[w.state][k];
              && (RbacAllows(d, w, u, View) <==> s.canView)
              && (RbacAllows(d, w, u, Edit) <==> s.canEdit)
              && (RbacAllows(d, w, u, Delete) <==> s.canDelete)
              && (RbacAllows(d, w, u, Transit) <==> s.canTransition)
    ensures Unlisted(d, w, role) ==>
              && !RbacAllows(d, w, u, View) && !RbacAllows(d, w, u, Edit) && !RbacAllows(d, w, u, Delete)
              && (RbacAllows(d, w, u, Transit) <==>
                  exists t :: t in d.transitions && t.workflowType == w.workflowType && t.fromState == w.state
                              && role in t.allowedRoles)
    ensures RbacAllows(d, w, u, ManagePermissions) <==> role in d.permissionManagers
  {
    FirstForExactly(StatePermissionsOf(d, w.state), role);
    OnlyPairDecides(d, w, u, a, role, View);
    OnlyPairDecides(d, w, u, a, role, Edit);
    OnlyPairDecides(d, w, u, a, role, Delete);
    OnlyPairDecides(d, w, u, a, role, Transit);
    OnlyPairDecides(d, w, u, a, role, ManagePermissions);
    assert forall t :: Defined(w, t) <==> t.workflowType == w.workflowType && t.fromState == w.state;
  }

  // ---------------------------------------------------------------- one flag, one permission

  /** The row without the flag of one permission. */
  function Blanked(s: StatePermission, p: Permission): StatePermission {
    match p
    case View => s.(canView := false)
    case Edit => s.(canEdit := false)
    case Delete => s.(canDelete := false)
    case Transit => s.(canTransition := false)
    case ManagePermissions => s
  }

  /** The directories differ, if at all, in one permission's flag of their state permissions. */
  ghost predicate DifferInFlag(d: Directory, e: Directory, p: Permission) {
    && e == d.(statePermissions := e.statePermissions)
    && d.statePermissions.Keys == e.statePermissions.Keys
    && forall x :: x in d.statePermissions ==>
                     && |d.statePermissions[x]| == |e.statePermissions[x]|
                     && forall k :: 0 <= k < |d.statePermissions[x]| ==>
                                      Blanked(d.statePermissions[x][k], p) == Blanked(e.statePermissions[x][k], p)
  }

  lemma {:induction false} FirstForBlanked(s: seq<StatePermission>, t: seq<StatePermission>, role: RoleId,
                                           p: Permission)
    requires |s| == |t| && forall k :: 0 <= k < |s| ==> Blanked(s[k], p) == Blanked(t[k], p)
    ensures FirstFor(s, role).Some? <==> FirstFor(t, role).Some?
    ensures FirstFor(s, role).Some? ==> Blanked(FirstFor(s, role).value, p) == Blanked(FirstFor(t, role).value, p)
  {
    if s != [] {
      assert Blanked(s[0], p) == Blanked(t[0], p);
      assert s[0].roles == t[0].roles;
      FirstForBlanked(s[1..], t[1..], role, p);
    }
  }

  lemma PairIgnoresFlag(d: Directory, e: Directory, w: Workflow, a: Access, role: RoleId, p: Permission, q: Permission)
    requires DifferInFlag(d, e, p) && q != p
    ensures PairGrants(d, w, a, role, q) <==> PairGrants(e, w, a, role, q)
  {
    FirstForBlanked(StatePermissionsOf(d, w.state), StatePermissionsOf(e, w.state), role, p);
  }

  lemma RowsIgnoreFlag(d: Directory, e: Directory, w: Workflow, p: Permission, q: Permission)
    requires DifferInFlag(d, e, p) && q != p
    ensures var (s, t) := (StatePermissionsOf(d, w.state), StatePermissionsOf(e, w.state));
            |s| == |t| && forall k :: 0 <= k < |s| ==>
                                        s[k].roles == t[k].roles && (StateGrants(s[k], q) <==> StateGrants(t[k], q))
  {
    var (s, t) := (StatePermissionsOf(d, w.state), StatePermissionsOf(e, w.state));
    forall k | 0 <= k < |s| ensures s[k].roles == t[k].roles && (StateGrants(s[k], q) <==> StateGrants(t[k], q)) {
      assert Blanked(s[k], p) == Blanked(t[k], p);
    }
  }

  /** One permission's flag has no say in any other permission, in the role-based check and in the ruling. */
  lemma FlagTouchesOwnPermission(d: Directory, e: Directory, w: Workflow, u: User, p: Permission, q: Permission)
    requires DifferInFlag(d, e, p) && q != p
    ensures RbacAllows(d, w, u, q) <==> RbacAllows(e, w, u, q)
    ensures Ruling(d, w, u, q) == Ruling(e, w, u, q)
  {
    forall a, role ensures PairGrants(d, w, a, role, q) <==> PairGrants(e, w, a, role, q) {
      PairIgnoresFlag(d, e, w, a, role, p, q);
    }
    RowsIgnoreFlag(d, e, w, p, q);
    assert forall role :: LegacyRole(d, w, u.id, role) <==> LegacyRole(e, w, u.id, role);
    assert InReferredGroup(d, w, u.id) <==> InReferredGroup(e, w, u.id);
    StateGrantsAlike(d, e, w, u.id, q);
    StateGrantsAlike(e, d, w, u.id, q);
  }

  lemma StateGrantsAlike(d: Directory, e: Directory, w: Workflow, u: UserId, q: Permission)
    requires var (s, t) := (StatePermissionsOf(d, w.state), StatePermissionsOf(e, w.state));
             |s| == |t| && forall k :: 0 <= k < |s| ==>
                                         s[k].roles == t[k].roles && (StateGrants(s[k], q) <==> StateGrants(t[k], q))
    requires forall role :: LegacyRole(d, w, u, role) ==> LegacyRole(e, w, u, role)
    ensures (exists s, role :: s in StatePermissionsOf(d, w.state) && role in s.roles
                               && LegacyRole(d, w, u, role) && StateGrants(s, q)) ==>
            (exists s, role :: s in StatePermissionsOf(e, w.state) && role in s.roles
                               && LegacyRole(e, w, u, role) && StateGrants(s, q))
  {
    if s, role :| s in StatePermissionsOf(d, w.state) && role in s.roles
                  && LegacyRole(d, w, u, role) && StateGrants(s, q) {
      var k :| 0 <= k < |StatePermissionsOf(d, w.state)| && StatePermissionsOf(d, w.state)[k] == s;
      var t := StatePermissionsOf(e, w.state)[k];
      assert t in StatePermissionsOf(e, w.state) && role in t.roles && StateGrants(t, q);
    }
  }
}
