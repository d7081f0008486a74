/**
 * One workflow through its life: access grants, referrals and recalls,
 * transitions with their log, and what stays true over every run of them.
 */
module Engine {
  import opened Common
  import opened Permissions

  // ---------------------------------------------------------------- access rows

  /** The position of the group's access row, or the length when it has none. */
  function RowOf(access: seq<Access>, g: GroupId): (k: nat)
    ensures k <= |access|
    ensures forall i :: 0 <= i < k ==> access[i].group != g
    ensures k < |access| ==> access[k].group == g
  {
    if access == [] then 0 else if access[0].group == g then 0 else 1 + RowOf(access[1..], g)
  }

  /** The bulk update that leaves at most the given group's row primary. */
  function OnlyPrimary(access: seq<Access>, g: GroupId): (r: seq<Access>)
    ensures |r| == |access|
    ensures forall i :: 0 <= i < |r| ==> r[i] == access[i].(isPrimary := access[i].isPrimary && access[i].group == g)
  {
    seq(|access|, i requires 0 <= i < |access| => access[i].(isPrimary := access[i].isPrimary && access[i].group == g))
  }

  /** What is recorded on a row by a grant. */
  function Regranted(a: Access, isPrimary: bool, who: Option<UserId>, notes: string): Access {
    a.(isPrimary := isPrimary,
       grantedBy := if who.Some? then who else a.grantedBy,
       notes := if notes != "" then notes else a.notes)
  }

  function Upserted(access: seq<Access>, g: GroupId, isPrimary: bool, who: Option<UserId>,
                    notes: string): (r: seq<Access>)
  {
    var k := RowOf(access, g);
    if k == |access| then access + [Access(g, isPrimary, who, notes, map[])]
    else access[k := Regranted(access[k], isPrimary, who, notes)]
  }

  /** The whole effect of granting a group access. */
  function Granted(w: Workflow, g: GroupId, isPrimary: bool, who: Option<UserId>, notes: string): Workflow {
    var rows := Upserted(w.access, g, isPrimary, who, notes);
    if isPrimary then w.(access := OnlyPrimary(rows, g), primaryGroup := Some(g))
    else w.(access := rows)
  }

  /** Clearing the other flags before or after updating the granted row comes to the same. */
  lemma ClearThenUpdate(access: seq<Access>, g: GroupId, who: Option<UserId>, notes: string)
    ensures var k := RowOf(access, g);
            var rows := OnlyPrimary(if k == |access| then access + [Access(g, true, who, notes, map[])] else access, g);
            rows[k := Regranted(rows[k], true, who, notes)] == OnlyPrimary(Upserted(access, g, true, who, notes), g)
  {
  }

  ghost predicate OneRowPerGroup(access: seq<Access>) {
    forall i, j :: 0 <= i < j < |access| ==> access[i].group != access[j].group
  }

  /** A primary row's group is the workflow's primary group (so at most one row is primary). */
  ghost predicate PrimaryRowsAgree(w: Workflow) {
    forall i :: 0 <= i < |w.access| && w.access[i].isPrimary ==> w.primaryGroup == Some(w.access[i].group)
  }

  ghost predicate AccessSound(w: Workflow) {
    OneRowPerGroup(w.access) && PrimaryRowsAgree(w)
  }

  /** Some row is marked primary. */
  ghost predicate HasPrimaryRow(w: Workflow) {
    exists i :: 0 <= i < |w.access| && w.access[i].isPrimary
  }

  lemma GrantKeepsAccessSound(w: Workflow, g: GroupId, isPrimary: bool, who: Option<UserId>, notes: string)
    requires AccessSound(w)
    ensures AccessSound(Granted(w, g, isPrimary, who, notes))
    ensures isPrimary ==> HasPrimaryRow(Granted(w, g, isPrimary, who, notes))
  {
    var k := RowOf(w.access, g);
    if isPrimary {
      assert Granted(w, g, isPrimary, who, notes).access[k].isPrimary;
    }
  }

  /** Sound access rows mean at most one primary row. */
  lemma AtMostOnePrimary(w: Workflow, i: nat, j: nat)
    requires AccessSound(w) && i < |w.access| && j < |w.access|
    requires w.access[i].isPrimary && w.access[j].isPrimary
    ensures i == j
  {
    assert w.primaryGroup == Some(w.access[i].group) && w.primaryGroup == Some(w.access[j].group);
  }

  /**
   * A grant keeps "primary group set means a primary row" in every case but one:
   * a non-primary grant to the group whose row is primary clears the flag and
   * leaves the field.
   */
  lemma GrantLosesPrimaryRowExactly(w: Workflow, g: GroupId, isPrimary: bool, who: Option<UserId>, notes: string)
    requires AccessSound(w) && HasPrimaryRow(w)
    ensures HasPrimaryRow(Granted(w, g, isPrimary, who, notes)) <==> (isPrimary || w.primaryGroup != Some(g))
    ensures Granted(w, g, isPrimary, who, notes).primaryGroup.Some?
  {
    GrantKeepsAccessSound(w, g, isPrimary, who, notes);
    var v := Granted(w, g, isPrimary, who, notes);
    var i :| 0 <= i < |w.access| && w.access[i].isPrimary;
    if !isPrimary && w.primaryGroup != Some(g) {
      assert v.access[i].isPrimary;
    }
    if !isPrimary && w.primaryGroup == Some(g) {
      assert w.access[i].group == g;
      var k := RowOf(w.access, g);
      forall j | 0 <= j < |v.access| ensures !v.access[j].isPrimary {
        assert j != k ==> v.access[j].group != g;
      }
    }
  }

  // ---------------------------------------------------------------- what grants do to permissions

  /** Every row of w is still there after a grant, with the same group and overrides. */
  lemma GrantKeepsRows(w: Workflow, g: GroupId, isPrimary: bool, who: Option<UserId>, notes: string, a: Access)
    requires a in w.access
    ensures exists b :: b in Granted(w, g, isPrimary, who, notes).access
                        && b.group == a.group && b.overrides == a.overrides
  {
    var i :| 0 <= i < |w.access| && w.access[i] == a;
    assert Granted(w, g, isPrimary, who, notes).access[i] in Granted(w, g, isPrimary, who, notes).access;
  }

  /** A non-primary grant never takes view, edit or delete from anyone. */
  lemma GrantNeverRemoves(d: Directory, w: Workflow, g: GroupId, who: Option<UserId>, notes: string, u: User,
                          p: Permission)
    requires Ruling(d, w, u, p) == Allowed
    ensures Ruling(d, Granted(w, g, false, who, notes), u, p) == Allowed
  {
    var v := Granted(w, g, false, who, notes);
    assert v.EffectiveGroup(d) == w.EffectiveGroup(d);
    if w.access != [] && RbacAllows(d, w, u, p) {
      if !(u.id == w.owner && p != ManagePermissions) {
        var a, m :| a in w.access && m in d.memberships && Meets(a, m, u.id) && PairGrants(d, w, a, m.role, p);
        GrantKeepsRows(w, g, false, who, notes, a);
        var b :| b in v.access && b.group == a.group && b.overrides == a.overrides;
        assert forall t :: Defined(v, t) <==> Defined(w, t);
        assert Meets(b, m, u.id) && PairGrants(d, v, b, m.role, p);
      }
    } else {
      assert forall role :: LegacyRole(d, w, u.id, role) ==> LegacyRole(d, v, u.id, role);
    }
  }

  /** One member of group g with role 0, one transition open to that role, and g as every type's group. */
  function LoneMember(w: Workflow, g: GroupId, u: UserId): (Directory, Transition) {
    var t := Transition(w.workflowType, w.state, w.state, {0}, false);
    (Directory([Membership(u, g, 0, true)], map[], [t], {}, {}, {}, map[w.workflowType := g]), t)
  }

  lemma GroupOutside(s: set<GroupId>) returns (g: GroupId)
    ensures forall x :: x in s ==> x < g
  {
    if s == {} {
      g := 0;
    } else {
      var x :| x in s;
      var h := GroupOutside(s - {x});
      g := Max(h, x + 1);
      assert forall y :: y in s ==> y == x || y in s - {x};
    }
  }

  /**
   * Transitions are different: the first access row switches the owning group's
   * own members off. A non-primary grant keeps every transition of everyone,
   * whatever the configuration, exactly when the workflow already had access
   * rows, or its primary group is the one granted or is referred to.
   */
  lemma GrantKeepsTransitionsExactly(w: Workflow, g: GroupId, who: Option<UserId>, notes: string)
    ensures (forall d, u, t :: Offered(d, w, u, t) ==> Offered(d, Granted(w, g, false, who, notes), u, t))
            <==> (w.access != []
                  || (w.primaryGroup.Some? && (w.primaryGroup.value == g || w.primaryGroup.value in w.referredTo)))
  {
    var v := Granted(w, g, false, who, notes);
    if w.access != [] || (w.primaryGroup.Some? && (w.primaryGroup.value == g || w.primaryGroup.value in w.referredTo)) {
      forall d, u, t | Offered(d, w, u, t) ensures Offered(d, v, u, t) {
        GrantKeepsTransitGroups(d, w, g, who, notes);
        var m :| m in d.memberships && m.user == u && m.isActive
                 && m.group in TransitGroups(d, w) && m.role in t.allowedRoles;
        assert m.group in TransitGroups(d, v);
        assert Defined(v, t);
      }
    } else {
      var outside := GroupOutside(w.referredTo + {g});
      var own := if w.primaryGroup.Some? then w.primaryGroup.value else outside;
      var (d, t) := LoneMember(w, own, w.owner + 1);
      assert d.memberships[0] in d.memberships && d.transitions[0] in d.transitions;
      assert Offered(d, w, w.owner + 1, t);
      assert v.access == [Access(g, false, who, notes, map[])];
      assert forall a :: a in v.access ==> a.group == g;
      assert !Offered(d, v, w.owner + 1, t);
    }
  }

  lemma GrantKeepsTransitGroups(d: Directory, w: Workflow, g: GroupId, who: Option<UserId>, notes: string)
    requires w.access != []
             || (w.primaryGroup.Some? && (w.primaryGroup.value == g || w.primaryGroup.value in w.referredTo))
    ensures TransitGroups(d, w) <= TransitGroups(d, Granted(w, g, false, who, notes))
  {
    var v := Granted(w, g, false, who, notes);
    if w.access == [] {
      assert v.access[0] in v.access;
    } else {
      forall a | a in w.access ensures a.group in TransitGroups(d, v) {
        GrantKeepsRows(w, g, false, who, notes, a);
      }
    }
  }

  /** A new workflow: whichever group's member could move it, a grant to another group stops that member. */
  lemma FirstGrantTakesTransitions(workflowType: TypeId, owner: UserId, initial: StateId, own: GroupId, g: GroupId,
                                   who: Option<UserId>, notes: string)
    requires own != g
    ensures var w := Created(workflowType, owner, initial);
            var (d, t) := LoneMember(w, own, owner + 1);
            && Offered(d, w, owner + 1, t) && !Offered(d, Granted(w, g, false, who, notes), owner + 1, t)
  {
    var w := Created(workflowType, owner, initial);
    var (d, t) := LoneMember(w, own, owner + 1);
    var v := Granted(w, g, false, who, notes);
    assert d.memberships[0] in d.memberships && d.transitions[0] in d.transitions;
    assert v.access == [Access(g, false, who, notes, map[])];
    assert forall a :: a in v.access ==> a.group == g;
  }

  // ---------------------------------------------------------------- referrals

  ghost function ActiveGroupsOf(rs: seq<Referral>): set<GroupId> {
    set r | r in rs && r.recalledAt.None? :: r.group
  }

  /** At most one referral per group is active. */
  ghost predicate OneActivePerGroup(rs: seq<Referral>) {
    forall i, j :: 0 <= i < j < |rs| && rs[i].recalledAt.None? && rs[j].recalledAt.None? ==> rs[i].group != rs[j].group
  }

  ghost predicate ReferralsSound(w: Workflow) {
    w.referredTo == ActiveGroupsOf(w.referrals) && OneActivePerGroup(w.referrals)
  }

  function Recalled(r: Referral, who: UserId, at: Time): Referral {
    r.(recalledAt := Some(at), recalledBy := Some(who))
  }

  /** Every active referral recalled by one user at one time. */
  function AllRecalled(rs: seq<Referral>, who: UserId, at: Time): (r: seq<Referral>)
    ensures |r| == |rs|
    ensures forall i :: 0 <= i < |rs| ==> r[i] == if rs[i].recalledAt.None? then Recalled(rs[i], who, at) else rs[i]
  {
    seq(|rs|, i requires 0 <= i < |rs| => if rs[i].recalledAt.None? then Recalled(rs[i], who, at) else rs[i])
  }

  /** The newest active referral to the group; the length when there is none. */
  function ActiveReferral(rs: seq<Referral>, g: GroupId): (k: nat)
    ensures k <= |rs|
    ensures k < |rs| ==> rs[k].group == g && rs[k].recalledAt.None?
    ensures k == |rs| <==> g !in ActiveGroupsOf(rs)
  {
    if rs == [] then 0
    else
      var n := |rs| - 1;
      if rs[n].group == g && rs[n].recalledAt.None? then
        assert rs[n] in rs;
        n
      else
        var k := ActiveReferral(rs[..n], g);
        assert rs == rs[..n] + [rs[n]];
        if k == n then |rs| else k
  }

  datatype Deadline = NoDeadline | Malformed | By(at: Time)

  datatype Action =
    | Refer(user: User, group: GroupId, deadline: Deadline)
    | Recall(user: User, group: GroupId)
    | Execute(user: User, transition: Transition, comment: string)
    | Grant(group: GroupId, isPrimary: bool, who: Option<UserId>, notes: string)
    | SetPrimary(owning: Option<GroupId>, who: Option<UserId>, notes: string)

  datatype Reply = Done | Refused

  ghost predicate MayRefer(d: Directory, w: Workflow, a: Action)
    requires a.Refer?
  {
    && Ruling(d, w, a.user, Edit) == Allowed
    && w.state in d.referable
    && a.group !in w.referredTo
    && !a.deadline.Malformed?
  }

  ghost predicate MayRecall(d: Directory, w: Workflow, a: Action)
    requires a.Recall?
  {
    Ruling(d, w, a.user, Edit) == Allowed && a.group in ActiveGroupsOf(w.referrals)
  }

  ghost predicate MayExecute(d: Directory, w: Workflow, a: Action)
    requires a.Execute?
  {
    Offered(d, w, a.user.id, a.transition) && !(a.transition.requiresComment && a.comment == "")
  }

  function NewReferral(u: UserId, g: GroupId, deadline: Deadline, at: Time): Referral {
    Referral(g, u, at, if deadline.By? then Some(deadline.at) else None, None, None)
  }

  /** The intended effect of one request, as a function of the workflow before it. */
  ghost function Step(d: Directory, w: Workflow, a: Action, at: Time): Workflow {
    match a
    case Refer(u, g, deadline) =>
      if MayRefer(d, w, a) then
        w.(referrals := w.referrals + [NewReferral(u.id, g, deadline, at)], referredTo := w.referredTo + {g})
      else w
    case Recall(u, g) =>
      if MayRecall(d, w, a) then
        var k := ActiveReferral(w.referrals, g);
        w.(referrals := w.referrals[k := Recalled(w.referrals[k], u.id, at)], referredTo := w.referredTo - {g})
      else w
    case Execute(u, t, comment) =>
      if MayExecute(d, w, a) then
        var moved := w.(state := t.toState, log := w.log + [LogEntry(w.state, t.toState, u.id, comment, at)]);
        if t.toState in d.terminal then
          moved.(referrals := AllRecalled(w.referrals, u.id, at), referredTo := {})
        else moved
      else w
    case Grant(g, isPrimary, who, notes) => Granted(w, g, isPrimary, who, notes)
    case SetPrimary(g, who, notes) => if g.Some? then Granted(w, g.value, true, who, notes) else w
  }

  // ---------------------------------------------------------------- the workflow object

  class WorkflowObject {
    const workflowType: TypeId
    const owner: UserId
    var state: StateId
    var primaryGroup: Option<GroupId>
    var access: seq<Access>
    var referrals: seq<Referral>
    var referredTo: set<GroupId>
    var log: seq<LogEntry>

    function Snapshot(): Workflow
      reads this
    {
      Workflow(workflowType, owner, state, primaryGroup, access, referrals, referredTo, log)
    }

    ghost predicate Valid()
      reads this
    {
      ReferralsSound(Snapshot()) && AccessSound(Snapshot())
    }

    constructor (workflowType: TypeId, owner: UserId, initial: StateId)
      ensures Valid() && Snapshot() == Created(workflowType, owner, initial)
    {
      this.workflowType, this.owner, state := workflowType, owner, initial;
      primaryGroup, access, referrals, referredTo, log := None, [], [], {}, [];
    }

    /** A referral's save hook: keep the set of referred groups in step with the row just written. */
    method SyncReferredGroups(k: nat)
      requires k < |referrals|
      modifies this`referredTo
      ensures referredTo ==
              if referrals[k].recalledAt.None? then old(referredTo) + {referrals[k].group}
              else if exists i :: 0 <= i < |referrals| && i != k && referrals[i].group == referrals[k].group
                                  && referrals[i].recalledAt.None? then old(referredTo)
              else old(referredTo) - {referrals[k].group}
    {
      if referrals[k].recalledAt.None? {
        referredTo := referredTo + {referrals[k].group};
      } else {
        var otherActive := exists i :: 0 <= i < |referrals| && i != k && referrals[i].group == referrals[k].group
                                       && referrals[i].recalledAt.None?;
        if !otherActive {
          referredTo := referredTo - {referrals[k].group};
        }
      }
    }

    method Refer(d: Directory, u: User, g: GroupId, deadline: Deadline, at: Time) returns (reply: Reply)
      requires Valid()
      modifies this`referrals, this`referredTo
      ensures Valid() && Snapshot() == Step(d, old(Snapshot()), Action.Refer(u, g, deadline), at)
      ensures reply == Done <==> MayRefer(d, old(Snapshot()), Action.Refer(u, g, deadline))
    {
      var w := Snapshot();
      StepKeepsSound(d, w, Action.Refer(u, g, deadline), at);
      var mayEdit := CanUser(d, w, u, Edit);
      if mayEdit != Allowed {
        return Refused;
      }
      if state !in d.referable {
        return Refused;
      }
      if g in referredTo {
        return Refused;
      }
      if deadline.Malformed? {
        return Refused;
      }
      referrals := referrals + [NewReferral(u.id, g, deadline, at)];
      SyncReferredGroups(|referrals| - 1);
      return Done;
    }

    method Recall(d: Directory, u: User, g: GroupId, at: Time) returns (reply: Reply)
      requires Valid()
      modifies this`referrals, this`referredTo
      ensures Valid() && Snapshot() == Step(d, old(Snapshot()), Action.Recall(u, g), at)
      ensures reply == Done <==> MayRecall(d, old(Snapshot()), Action.Recall(u, g))
    {
      var w := Snapshot();
      StepKeepsSound(d, w, Action.Recall(u, g), at);
      var mayEdit := CanUser(d, w, u, Edit);
      if mayEdit != Allowed {
        return Refused;
      }
      var k := ActiveReferral(referrals, g);
      if k == |referrals| {
        return Refused;
      }
      referrals := referrals[k := Recalled(referrals[k], u.id, at)];
      SyncReferredGroups(k);
      return Done;
    }

    method ExecuteTransition(d: Directory, u: User, t: Transition, comment: string, at: Time) returns (reply: Reply)
      requires Valid()
      modifies this`state, this`log, this`referrals, this`referredTo
      ensures Valid() && Snapshot() == Step(d, old(Snapshot()), Execute(u, t, comment), at)
      ensures reply == Done <==> MayExecute(d, old(Snapshot()), Execute(u, t, comment))
    {
      var w := Snapshot();
      StepKeepsSound(d, w, Execute(u, t, comment), at);
      var available := GetAvailableTransitions(d, w, u);
      if t !in available {
        return Refused;
      }
      if t.requiresComment && comment == "" {
        return Refused;
      }
      log := log + [LogEntry(state, t.toState, u.id, comment, at)];
      state := t.toState;
      if t.toState in d.terminal {
        RecallEverything(u.id, at);
      }
      return Done;
    }

    /** The terminal move's loop over the active referrals, newest first, saving each. */
    method RecallEverything(who: UserId, at: Time)
      requires Valid()
      modifies this`referrals, this`referredTo
      ensures referrals == AllRecalled(old(referrals), who, at) && referredTo == {}
    {
      ghost var before := referrals;
      var k := |referrals|;
      while k > 0
        invariant 0 <= k <= |before| == |referrals|
        invariant forall i :: 0 <= i < k ==> referrals[i] == before[i]
        invariant forall i :: k <= i < |before| ==> referrals[i] == AllRecalled(before, who, at)[i]
        invariant ReferralsSound(Snapshot())
      {
        k := k - 1;
        if referrals[k].recalledAt.None? {
          RecallOneSound(referrals, k, who, at);
          referrals := referrals[k := Recalled(referrals[k], who, at)];
          SyncReferredGroups(k);
        }
      }
      assert referrals == AllRecalled(before, who, at);
    }

    method AddGroupAccess(g: GroupId, isPrimary: bool, who: Option<UserId>, notes: string)
      requires Valid()
      modifies this`access, this`primaryGroup
      ensures Valid() && Snapshot() == Granted(old(Snapshot()), g, isPrimary, who, notes)
    {
      GrantKeepsAccessSound(Snapshot(), g, isPrimary, who, notes);
      var k := RowOf(access, g);
      if k == |access| {
        access := access + [Access(g, isPrimary, who, notes, map[])];
      } else {
        var row := access[k];
        row := row.(isPrimary := isPrimary);
        if who.Some? {
          row := row.(grantedBy := who);
        }
        if notes != "" {
          row := row.(notes := notes);
        }
        access := access[k := row];
      }
      if isPrimary {
        access := OnlyPrimary(access, g);
        if primaryGroup != Some(g) {
          primaryGroup := Some(g);
        }
      }
    }

    /** Written differently from AddGroupAccess, and ends in the same place as a primary grant. */
    method SetPrimaryGroup(g: Option<GroupId>, who: Option<UserId>, notes: string) returns (reply: Reply)
      requires Valid()
      modifies this`access, this`primaryGroup
      ensures Valid()
      ensures Snapshot() == if g.Some? then Granted(old(Snapshot()), g.value, true, who, notes) else old(Snapshot())
      ensures reply == Refused <==> g.None?
    {
      if g.None? {
        return Refused;
      }
      GrantKeepsAccessSound(Snapshot(), g.value, true, who, notes);
      ClearThenUpdate(access, g.value, who, notes);
      var rows := access;
      var k := RowOf(rows, g.value);
      if k == |rows| {
        rows := rows + [Access(g.value, true, who, notes, map[])];
      }
      rows := OnlyPrimary(rows, g.value);
      var row := Touch(rows[k], who, notes);
      access := rows[k := row];
      if primaryGroup != g {
        primaryGroup := g;
      }
      return Done;
    }
  }

  /** The fields of the primary row, each written only where it changes. */
  method Touch(before: Access, who: Option<UserId>, notes: string) returns (row: Access)
    ensures row == Regranted(before, true, who, notes)
  {
    row := before;
    if !row.isPrimary {
      row := row.(isPrimary := true);
    }
    if who.Some? && row.grantedBy != who {
      row := row.(grantedBy := who);
    }
    if notes != "" && row.notes != notes {
      row := row.(notes := notes);
    }
  }

  /** Recalling one active referral removes exactly its group. */
  lemma RecallOneSound(rs: seq<Referral>, k: nat, who: UserId, at: Time)
    requires k < |rs| && rs[k].recalledAt.None? && OneActivePerGroup(rs)
    ensures OneActivePerGroup(rs[k := Recalled(rs[k], who, at)])
    ensures ActiveGroupsOf(rs[k := Recalled(rs[k], who, at)]) == ActiveGroupsOf(rs) - {rs[k].group}
    ensures forall i :: 0 <= i < |rs| && i != k && rs[i].group == rs[k].group ==> rs[i].recalledAt.Some?
  {
    var us := rs[k := Recalled(rs[k], who, at)];
    forall g ensures g in ActiveGroupsOf(us) <==> g in ActiveGroupsOf(rs) && g != rs[k].group {
      if g in ActiveGroupsOf(us) {
        var i :| 0 <= i < |us| && us[i].recalledAt.None? && us[i].group == g;
        assert rs[i] == us[i] && rs[i] in rs;
      }
      if g in ActiveGroupsOf(rs) && g != rs[k].group {
        var i :| 0 <= i < |rs| && rs[i].recalledAt.None? && rs[i].group == g;
        assert rs[i] == us[i] && us[i] in us;
      }
    }
  }

  lemma NewReferralSound(rs: seq<Referral>, r: Referral)
    requires OneActivePerGroup(rs) && r.recalledAt.None? && r.group !in ActiveGroupsOf(rs)
    ensures OneActivePerGroup(rs + [r])
    ensures ActiveGroupsOf(rs + [r]) == ActiveGroupsOf(rs) + {r.group}
  {
    forall i | 0 <= i < |rs| && rs[i].recalledAt.None? ensures rs[i].group in ActiveGroupsOf(rs) {
      assert rs[i] in rs;
    }
    assert r in rs + [r];
    assert forall x :: x in rs + [r] <==> x in rs || x == r;
  }

  lemma StepKeepsSound(d: Directory, w: Workflow, a: Action, at: Time)
    requires ReferralsSound(w) && AccessSound(w)
    ensures ReferralsSound(Step(d, w, a, at)) && AccessSound(Step(d, w, a, at))
  {
    match a
    case Refer(u, g, deadline) =>
      if MayRefer(d, w, a) {
        NewReferralSound(w.referrals, NewReferral(u.id, g, deadline, at));
      }
    case Recall(u, g) =>
      if MayRecall(d, w, a) {
        RecallOneSound(w.referrals, ActiveReferral(w.referrals, g), u.id, at);
      }
    case Execute(u, t, comment) =>
      assert forall r :: r in AllRecalled(w.referrals, u.id, at) ==> r.recalledAt.Some?;
    case Grant(g, isPrimary, who, notes) =>
      GrantKeepsAccessSound(w, g, isPrimary, who, notes);
    case SetPrimary(g, who, notes) =>
      if g.Some? {
        GrantKeepsAccessSound(w, g.value, true, who, notes);
      }
  }

  // ---------------------------------------------------------------- the state a workflow starts in

  datatype StateRow = StateRow(id: StateId, order: int, isInitial: bool)

  /** Ordering by (order, id). */
  predicate ComesFirst(a: StateRow, b: StateRow) {
    a.order < b.order || (a.order == b.order && a.id <= b.id)
  }

  function FirstByOrder(states: seq<StateRow>): Option<StateRow> {
    if states == [] then None
    else
      var rest := FirstByOrder(states[1..]);
      if rest.None? || ComesFirst(states[0], rest.value) then Some(states[0]) else rest
  }

  function Marked(states: seq<StateRow>): seq<StateRow> {
    if states == [] then []
    else if states[0].isInitial then [states[0]] + Marked(states[1..])
    else Marked(states[1..])
  }

  /** The first state marked initial, or the first state when none is marked. */
  method PickInitialState(states: seq<StateRow>) returns (initial: Option<StateRow>)
    ensures initial.None? <==> states == []
    ensures initial.Some? ==> initial.value in states
    ensures initial.Some? && (exists s :: s in states && s.isInitial) ==> initial.value.isInitial
    ensures initial.Some? ==> forall s :: s in states && s.isInitial == initial.value.isInitial ==>
              initial.value.order < s.order || (initial.value.order == s.order && initial.value.id <= s.id)
  {
    MarkedHolds(states);
    FirstIsFirst(Marked(states));
    FirstIsFirst(states);
    initial := FirstByOrder(Marked(states));
    if initial.None? {
      initial := FirstByOrder(states);
    }
  }

  lemma {:induction false} MarkedHolds(states: seq<StateRow>)
    ensures forall s :: s in Marked(states) <==> s in states && s.isInitial
  {
    if states != [] {
      MarkedHolds(states[1..]);
      assert states == [states[0]] + states[1..];
    }
  }

  lemma {:induction false} FirstIsFirst(states: seq<StateRow>)
    ensures FirstByOrder(states).None? <==> states == []
    ensures FirstByOrder(states).Some? ==>
              && FirstByOrder(states).value in states
              && forall s :: s in states ==> ComesFirst(FirstByOrder(states).value, s)
  {
    if states != [] {
      FirstIsFirst(states[1..]);
      assert states == [states[0]] + states[1..];
    }
  }

  // ---------------------------------------------------------------- runs

  function Created(workflowType: TypeId, owner: UserId, initial: StateId): Workflow {
    Workflow(workflowType, owner, initial, None, [], [], {}, [])
  }

  /** One request: who asks what, when, and under which configuration. */
  datatype Request = Request(directory: Directory, action: Action, at: Time)

  ghost function Run(w: Workflow, requests: seq<Request>): Workflow {
    if requests == [] then w
    else
      var q := requests[|requests| - 1];
      Step(q.directory, Run(w, requests[..|requests| - 1]), q.action, q.at)
  }

  /** Requests arrive in clock order. */
  ghost predicate InOrder(requests: seq<Request>) {
    forall i, j :: 0 <= i < j < |requests| ==> requests[i].at <= requests[j].at
  }

  /** Follows the log from the initial state; None where consecutive entries do not join. */
  function Replay(initial: StateId, log: seq<LogEntry>): Option<StateId> {
    if log == [] then Some(initial)
    else
      var last := log[|log| - 1];
      if Replay(initial, log[..|log| - 1]) == Some(last.fromState) then Some(last.toState) else None
  }

  /** The referral r was active when entry e was made. */
  ghost predicate ActiveAt(r: Referral, e: LogEntry) {
    r.referredAt < e.at && (r.recalledAt.None? || e.at < r.recalledAt.value)
  }

  /** No entry was made by the owner under an active referral. */
  ghost predicate OwnerNeverActedUnderReferral(w: Workflow) {
    forall e, r :: e in w.log && r in w.referrals && e.user == w.owner ==> !ActiveAt(r, e)
  }

  /** Request q is the reason for entry e: the transition was defined then, and open to the user. */
  ghost predicate Explains(q: Request, w: Workflow, e: LogEntry) {
    && q.action.Execute? && MayExecute(q.directory, w, q.action)
    && e == LogEntry(w.state, q.action.transition.toState, q.action.user.id, q.action.comment, q.at)
  }

  ghost predicate NothingAfter(w: Workflow, now: Time) {
    && (forall e :: e in w.log ==> e.at <= now)
    && (forall r :: r in w.referrals ==> r.referredAt <= now && (r.recalledAt.Some? ==> r.recalledAt.value <= now))
  }

  lemma StepKeepsOwnerOut(d: Directory, w: Workflow, a: Action, at: Time)
    requires ReferralsSound(w) && OwnerNeverActedUnderReferral(w) && NothingAfter(w, at)
    ensures OwnerNeverActedUnderReferral(Step(d, w, a, at)) && NothingAfter(Step(d, w, a, at), at)
    ensures Step(d, w, a, at).owner == w.owner
  {
    var v := Step(d, w, a, at);
    forall r | r in v.referrals
      ensures r in w.referrals || r.referredAt == at
              || (r.recalledAt == Some(at)
                  && exists o :: o in w.referrals && o.recalledAt.None? && o.referredAt == r.referredAt)
    {
      var i :| 0 <= i < |v.referrals| && v.referrals[i] == r;
      if i < |w.referrals| {
        assert w.referrals[i] in w.referrals;
      }
    }
    forall e, r | e in v.log && r in v.referrals && e.user == v.owner
      ensures !ActiveAt(r, e)
    {
      if e in w.log {
        if r !in w.referrals && r.referredAt != at {
          var o :| o in w.referrals && o.recalledAt.None? && o.referredAt == r.referredAt;
          assert !ActiveAt(o, e);
        }
      } else {
        assert !w.IsReferred();
      }
    }
  }

  /** A step that logs joins its entry to the log. */
  lemma StepReplays(d: Directory, w: Workflow, a: Action, at: Time, initial: StateId)
    requires Replay(initial, w.log) == Some(w.state)
    ensures Replay(initial, Step(d, w, a, at).log) == Some(Step(d, w, a, at).state)
  {
    var v := Step(d, w, a, at);
    if v.log != w.log {
      assert v.log[..|v.log| - 1] == w.log;
    }
  }

  /** The owner's request adds to the log. */
  ghost predicate OwnerMoves(w: Workflow, q: Request) {
    q.action.Execute? && q.action.user.id == w.owner && Step(q.directory, w, q.action, q.at).log != w.log
  }

  /** Whenever the owner moved the workflow, no referral was active. */
  ghost predicate OwnerMovesUnreferred(w0: Workflow, requests: seq<Request>) {
    forall i :: 0 <= i < |requests| && OwnerMoves(Run(w0, requests[..i]), requests[i]) ==>
                  ActiveGroupsOf(Run(w0, requests[..i]).referrals) == {}
  }

  lemma OwnerMovesOneMore(w0: Workflow, requests: seq<Request>)
    requires requests != [] && OwnerMovesUnreferred(w0, requests[..|requests| - 1])
    ensures OwnerMovesUnreferred(w0, requests)
  {
    var n := |requests| - 1;
    forall i | 0 <= i < |requests| && OwnerMoves(Run(w0, requests[..i]), requests[i])
      ensures ActiveGroupsOf(Run(w0, requests[..i]).referrals) == {}
    {
      if i < n {
        assert requests[..n][..i] == requests[..i] && requests[..n][i] == requests[i];
      } else {
        assert !Run(w0, requests[..i]).IsReferred();
      }
    }
  }

  /**
   * Over every run from creation: the referred groups are exactly the groups
   * with an active referral, one active referral per group; access rows are
   * sound; the log replays to the current state; the owner moved the workflow only
   * while no referral was active; and no entry of the owner's is stamped strictly
   * inside the time a referral was active.
   */
  lemma {:induction false} RunsStaySound(workflowType: TypeId, owner: UserId, initial: StateId, requests: seq<Request>)
    requires InOrder(requests)
    ensures var w := Run(Created(workflowType, owner, initial), requests);
            && ReferralsSound(w) && AccessSound(w)
            && Replay(initial, w.log) == Some(w.state)
            && OwnerNeverActedUnderReferral(w)
            && OwnerMovesUnreferred(Created(workflowType, owner, initial), requests)
            && w.owner == owner
            && (requests != [] ==> NothingAfter(w, requests[|requests| - 1].at))
            && (requests == [] ==> w.log == [] && w.referrals == [])
  {
    if requests != [] {
      var n := |requests| - 1;
      var q := requests[n];
      RunsStaySound(workflowType, owner, initial, requests[..n]);
      var w := Run(Created(workflowType, owner, initial), requests[..n]);
      assert NothingAfter(w, q.at);
      StepKeepsSound(q.directory, w, q.action, q.at);
      StepKeepsOwnerOut(q.directory, w, q.action, q.at);
      StepReplays(q.directory, w, q.action, q.at, initial);
      OwnerMovesOneMore(Created(workflowType, owner, initial), requests);
    }
  }

  /** A new workflow, made primary for a group and then granted to it once more: the field stays, the row is gone. */
  lemma SecondGrantDropsPrimaryRow(workflowType: TypeId, owner: UserId, initial: StateId, g: GroupId,
                                   first: Request, second: Request)
    requires first.action == Grant(g, true, None, "") && second.action == Grant(g, false, None, "")
    ensures var w := Run(Created(workflowType, owner, initial), [first, second]);
            w.primaryGroup == Some(g) && !HasPrimaryRow(w)
  {
    var w0 := Created(workflowType, owner, initial);
    assert [first, second][..1] == [first] && [first][..0] == [];
    var w1 := Run(w0, [first]);
    assert Run(w0, [first][..0]) == w0;
    assert w1 == Granted(w0, g, true, None, "");
    GrantKeepsAccessSound(w0, g, true, None, "");
    GrantLosesPrimaryRowExactly(w1, g, false, None, "");
  }

  /** Each log entry was made by a request whose transition was defined and open to its user at that moment. */
  lemma {:induction false} EveryEntryExplained(w0: Workflow, requests: seq<Request>, e: LogEntry)
    requires e in Run(w0, requests).log && e !in w0.log
    ensures exists i :: 0 <= i < |requests| && Explains(requests[i], Run(w0, requests[..i]), e)
  {
    var n := |requests| - 1;
    var init := requests[..n];
    if e in Run(w0, init).log {
      EveryEntryExplained(w0, init, e);
      var i :| 0 <= i < |init| && Explains(init[i], Run(w0, init[..i]), e);
      assert init[..i] == requests[..i];
    } else {
      assert Explains(requests[n], Run(w0, requests[..n]), e);
    }
  }

  /** Referring to a group and recalling it puts the set of referred groups back. */
  lemma ReferThenRecallRestores(w: Workflow, d: Directory, e: Directory, u: User, v: User, g: GroupId,
                                deadline: Deadline, at: Time, later: Time)
    requires ReferralsSound(w)
    requires MayRefer(d, w, Refer(u, g, deadline))
    requires Ruling(e, Step(d, w, Refer(u, g, deadline), at), v, Edit) == Allowed
    ensures var referred := Step(d, w, Refer(u, g, deadline), at);
            && g in referred.referredTo
            && Step(e, referred, Recall(v, g), later).referredTo == w.referredTo
            && |Step(e, referred, Recall(v, g), later).referrals| == |w.referrals| + 1
  {
    NewReferralSound(w.referrals, NewReferral(u.id, g, deadline, at));
  }

  /**
   * A move into a terminal state leaves no group referred, and a later referral is
   * still possible where the state allows it.
   */
  lemma TerminalMoveClearsReferrals(d: Directory, w: Workflow, u: User, t: Transition, comment: string, at: Time)
    requires MayExecute(d, w, Execute(u, t, comment)) && t.toState in d.terminal
    ensures var v := Step(d, w, Execute(u, t, comment), at);
            && v.referredTo == {} && ActiveGroupsOf(v.referrals) == {} && !v.IsReferred()
            && (forall x: User, g, deadline: Deadline ::
                  Ruling(d, v, x, Edit) == Allowed && t.toState in d.referable && !deadline.Malformed? ==>
                    MayRefer(d, v, Refer(x, g, deadline)))
  {
    assert forall r :: r in AllRecalled(w.referrals, u.id, at) ==> r.recalledAt.Some?;
  }
}
