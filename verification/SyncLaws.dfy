/** What the membership sync promises: a second run has nothing to do, a dry run touches nothing, the counts add up. */
module SyncLaws {
  import opened Common
  import opened Sync

  // ---------------------------------------------------------------- dry runs

  ghost predicate SameTables(a: State, b: State) {
    a.groups == b.groups && a.roles == b.roles && a.memberships == b.memberships
  }

  lemma {:induction false} DryRunEnsuresNothing(ms: seq<Membership>, u: UserId, ts: seq<Target>, today: Date)
    ensures AllEnsured(ms, u, ts, today, true) == ms
  {
    if ts != [] {
      DryRunEnsuresNothing(ms, u, ts[..|ts| - 1], today);
    }
  }

  lemma DryRole(s: State, h: Helpers, name: string, fallback: string)
    ensures SameTables(GetOrCreateRole(s, h, name, true).0, s)
    ensures SameTables(RoleOr(s, h, name, fallback, true).0, s)
  {
    assert SameTables(FindRole(s, h, name).0, s);
    assert SameTables(FindRole(FindRole(s, h, name).0, h, fallback).0, s);
  }

  lemma DryGroup(s: State, name: string, parent: Option<GroupId>, groupType: string)
    ensures SameTables(GetOrCreateGroup(s, name, parent, groupType, true).0, s)
    ensures SameTables(GetGroup(s, name).0, s)
  {
  }

  lemma DryParty(s: State, code: string, partyCode: string)
    ensures SameTables(PartyGroup(s, code, partyCode, true).0, s)
  {
    if Trim(partyCode) != "" {
      HouseLeavesCaches(s, code);
      var (a, house) := GetHouse(s, code);
      DryGroup(a, PartiesGroupName(code), house, "party");
      var (b, parties) := GetOrCreateGroup(a, PartiesGroupName(code), house, "party", true);
      DryGroup(b, Trim(partyCode), parties, "party");
    }
  }

  lemma DryMp(s: State, h: Helpers, row: OracleRow)
    ensures SameTables(MpTargets(s, h, row, true).0, s)
  {
    var code := HouseCode(Trim(row.positionDesc));
    DryRole(s, h, MP_ROLE, MP_ROLE);
    var (a, role) := GetOrCreateRole(s, h, MP_ROLE, true);
    HouseLeavesCaches(a, code);
    var (b, house) := GetHouse(a, code);
    DryGroup(b, MembersGroupName(code), house, "administration");
    DryParty(GetOrCreateGroup(b, MembersGroupName(code), house, "administration", true).0, code, row.partyCode);
  }

  lemma UnitTouchesNoTable(s: State, h: Helpers, org: string, role: Option<RoleId>)
    ensures SameTables(UnitTarget(s, h, org, role).0, s)
    ensures UnitTarget(s, h, org, role).0.roleCache == s.roleCache
  {
  }

  lemma DryStaff(s: State, h: Helpers, row: OracleRow)
    ensures SameTables(StaffTargets(s, h, row, true).0, s)
  {
    DryRole(s, h, StaffRoleName(h, row), STAFF_ROLE);
    var (a, role) := ResolveStaffRole(s, h, row, true);
    UnitTouchesNoTable(a, h, row.parentOrg, role);
    UnitTouchesNoTable(UnitTarget(a, h, row.parentOrg, role).0, h, row.childOrg, role);
  }

  /** A dry run leaves groups, roles and memberships as they were. */
  lemma DryRunChangesNoTable(s: State, h: Helpers, u: UserId, row: OracleRow, today: Date)
    ensures SameTables(Synced(s, h, u, row, today, true).0, s)
  {
    var (t, ts) := Targets(s, h, row, true);
    if IsMp(row) {
      DryMp(s, h, row);
    } else {
      DryStaff(s, h, row);
    }
    DryRunEnsuresNothing(t.memberships, u, ts, today);
  }

  // ---------------------------------------------------------------- counts

  /** Resolved targets whose membership is already there and active when their turn comes. */
  function AlreadyPresent(ms: seq<Membership>, u: UserId, ts: seq<Target>, today: Date, dryRun: bool): nat {
    if ts == [] then 0
    else
      var init := ts[..|ts| - 1];
      var t := ts[|ts| - 1];
      AlreadyPresent(ms, u, init, today, dryRun)
      + (if Resolved(t)
            && Needed(AllEnsured(ms, u, init, today, dryRun), u, t.group.value, t.role.value) == Exists then 1 else 0)
  }

  /** Every target is created, updated, skipped or already present. */
  lemma {:induction false} CountsAddUp(ms: seq<Membership>, u: UserId, ts: seq<Target>, today: Date, dryRun: bool)
    ensures var c := Count(ms, u, ts, today, dryRun);
            c.created + c.updated + c.skipped + AlreadyPresent(ms, u, ts, today, dryRun) == |ts|
  {
    if ts != [] {
      CountsAddUp(ms, u, ts[..|ts| - 1], today, dryRun);
    }
  }

  // ---------------------------------------------------------------- one membership

  /** Latest looks at user, group, role and start only. */
  lemma {:induction false} LatestSeesKeysOnly(ms: seq<Membership>, ns: seq<Membership>, u: UserId, g: GroupId,
                                              r: RoleId)
    requires |ms| == |ns|
    requires forall i :: 0 <= i < |ms| ==> ms[i].user == ns[i].user && ms[i].group == ns[i].group
                                           && ms[i].role == ns[i].role && ms[i].start == ns[i].start
    ensures Latest(ms, u, g, r) == Latest(ns, u, g, r)
  {
    if ms != [] {
      LatestSeesKeysOnly(ms[..|ms| - 1], ns[..|ns| - 1], u, g, r);
    }
  }

  lemma LatestAfterAppend(ms: seq<Membership>, m: Membership, u: UserId, g: GroupId, r: RoleId)
    ensures Latest(ms, u, g, r) < |ms| && !(m.user == u && m.group == g && m.role == r) ==>
              Latest(ms + [m], u, g, r) == Latest(ms, u, g, r)
    ensures Latest(ms, u, g, r) == |ms| && m.user == u && m.group == g && m.role == r ==>
              Latest(ms + [m], u, g, r) == |ms|
  {
    assert (ms + [m])[..|ms|] == ms;
  }

  /** Ensuring a membership makes its latest row active. */
  lemma EnsuredIsPresent(ms: seq<Membership>, u: UserId, g: GroupId, r: RoleId, today: Date)
    ensures Needed(Ensured(ms, u, g, r, today), u, g, r) == Exists
  {
    LatestAfterAppend(ms, Membership(u, g, r, today, None, true), u, g, r);
    LatestSeesKeysOnly(ms, Reactivated(ms, u, g, r), u, g, r);
  }

  function Reactivated(ms: seq<Membership>, u: UserId, g: GroupId, r: RoleId): (ns: seq<Membership>)
    ensures |ns| == |ms|
  {
    var k := Latest(ms, u, g, r);
    if k == |ms| then ms else ms[k := ms[k].(isActive := true, end := None)]
  }

  /** Ensuring another membership does not disturb one that is present. */
  lemma EnsuredKeepsPresent(ms: seq<Membership>, u: UserId, g: GroupId, r: RoleId, g': GroupId, r': RoleId, today: Date)
    requires Needed(ms, u, g, r) == Exists
    ensures Needed(Ensured(ms, u, g', r', today), u, g, r) == Exists
  {
    LatestAfterAppend(ms, Membership(u, g', r', today, None, true), u, g, r);
    LatestSeesKeysOnly(ms, Reactivated(ms, u, g', r'), u, g, r);
  }

  ghost predicate AllPresent(ms: seq<Membership>, u: UserId, ts: seq<Target>) {
    forall i :: 0 <= i < |ts| && Resolved(ts[i]) ==> Needed(ms, u, ts[i].group.value, ts[i].role.value) == Exists
  }

  /** After a real run every resolved target has its latest membership row active. */
  lemma {:induction false} RealRunMakesAllPresent(ms: seq<Membership>, u: UserId, ts: seq<Target>, today: Date)
    ensures AllPresent(AllEnsured(ms, u, ts, today, false), u, ts)
  {
    if ts != [] {
      var n := |ts| - 1;
      RealRunMakesAllPresent(ms, u, ts[..n], today);
      var before := AllEnsured(ms, u, ts[..n], today, false);
      if Resolved(ts[n]) {
        EnsuredIsPresent(before, u, ts[n].group.value, ts[n].role.value, today);
        forall i | 0 <= i < n && Resolved(ts[i])
          ensures Needed(AllEnsured(ms, u, ts, today, false), u, ts[i].group.value, ts[i].role.value) == Exists
        {
          assert Resolved(ts[..n][i]);
          EnsuredKeepsPresent(before, u, ts[i].group.value, ts[i].role.value, ts[n].group.value, ts[n].role.value,
                               today);
        }
      } else {
        assert forall i :: 0 <= i < n ==> ts[..n][i] == ts[i];
      }
    }
  }

  /** Where everything is present, a pass changes and counts nothing but the skipped. */
  lemma {:induction false} NothingLeftToDo(ms: seq<Membership>, u: UserId, ts: seq<Target>, today: Date)
    requires AllPresent(ms, u, ts)
    ensures AllEnsured(ms, u, ts, today, false) == ms
    ensures Count(ms, u, ts, today, false).created == 0 && Count(ms, u, ts, today, false).updated == 0
  {
    if ts != [] {
      var n := |ts| - 1;
      assert forall i :: 0 <= i < n ==> ts[..n][i] == ts[i];
      NothingLeftToDo(ms, u, ts[..n], today);
    }
  }

  lemma {:induction false} SkippedDependsOnTargets(ms: seq<Membership>, ns: seq<Membership>, u: UserId, ts: seq<Target>,
                                                   today: Date, later: Date, dryRun: bool)
    ensures Count(ms, u, ts, today, dryRun).skipped == Count(ns, u, ts, later, dryRun).skipped
  {
    if ts != [] {
      SkippedDependsOnTargets(ms, ns, u, ts[..|ts| - 1], today, later, dryRun);
    }
  }

  // ---------------------------------------------------------------- the same targets again

  /** b knows everything a's group and role caches know, and the same. */
  ghost predicate Remembers(a: State, b: State) {
    && (forall n :: n in a.groupCache ==> n in b.groupCache && b.groupCache[n] == a.groupCache[n])
    && (forall n :: n in a.roleCache ==> n in b.roleCache && b.roleCache[n] == a.roleCache[n])
  }

  lemma RoleIsRemembered(s: State, h: Helpers, name: string)
    ensures var (t, r) := GetOrCreateRole(s, h, name, false);
            && r.Some? && name in t.roleCache && t.roleCache[name] == r.value
            && Remembers(s, t) && t.groupCache == s.groupCache
  {
  }

  lemma GroupIsRemembered(s: State, name: string, parent: Option<GroupId>, groupType: string)
    requires name != ""
    ensures var (t, g) := GetOrCreateGroup(s, name, parent, groupType, false);
            && g.Some? && name in t.groupCache && t.groupCache[name] == g.value
            && Remembers(s, t) && t.roleCache == s.roleCache
  {
  }

  lemma HouseLeavesCaches(s: State, code: string)
    ensures var (t, g) := GetHouse(s, code);
            t.groupCache == s.groupCache && t.roleCache == s.roleCache && SameTables(t, s)
  {
  }

  lemma PartyIsRemembered(s: State, code: string, partyCode: string)
    requires Trim(partyCode) != ""
    ensures var (t, g) := PartyGroup(s, code, partyCode, false);
            && g.Some? && Trim(partyCode) in t.groupCache && t.groupCache[Trim(partyCode)] == g.value
            && PartiesGroupName(code) in t.groupCache
            && Remembers(s, t)
  {
    var (a, house) := GetHouse(s, code);
    HouseLeavesCaches(s, code);
    var (b, parties) := GetOrCreateGroup(a, PartiesGroupName(code), house, "party", false);
    GroupIsRemembered(a, PartiesGroupName(code), house, "party");
    GroupIsRemembered(b, Trim(partyCode), parties, "party");
  }

  /** A member of Parliament's second run finds everything in the caches. */
  lemma MpTargetsRepeat(s: State, h: Helpers, row: OracleRow, ms: seq<Membership>)
    ensures var (t, ts) := MpTargets(s, h, row, false);
            var again := t.(memberships := ms);
            && MpTargets(again, h, row, false).1 == ts
            && SameTables(MpTargets(again, h, row, false).0, again)
  {
    var code := HouseCode(Trim(row.positionDesc));
    var (a, role) := GetOrCreateRole(s, h, MP_ROLE, false);
    RoleIsRemembered(s, h, MP_ROLE);
    var (b, house) := GetHouse(a, code);
    HouseLeavesCaches(a, code);
    var (c, members) := GetOrCreateGroup(b, MembersGroupName(code), house, "administration", false);
    GroupIsRemembered(b, MembersGroupName(code), house, "administration");
    if Trim(row.partyCode) != "" {
      PartyIsRemembered(c, code, row.partyCode);
    }
    var (t, ts) := MpTargets(s, h, row, false);
    MpFromCaches(t.(memberships := ms), h, row);
  }

  /** With role and groups cached, an MP's targets are the cached ones and no table changes. */
  lemma MpFromCaches(s: State, h: Helpers, row: OracleRow)
    requires var code := HouseCode(Trim(row.positionDesc));
             && MP_ROLE in s.roleCache && MembersGroupName(code) in s.groupCache
             && (Trim(row.partyCode) != "" ==>
                   PartiesGroupName(code) in s.groupCache && Trim(row.partyCode) in s.groupCache)
    ensures var code := HouseCode(Trim(row.positionDesc));
            var members := Target(Some(s.groupCache[MembersGroupName(code)]), Some(s.roleCache[MP_ROLE]));
            && SameTables(MpTargets(s, h, row, false).0, s)
            && MpTargets(s, h, row, false).1
               == if Trim(row.partyCode) == "" then [members]
                  else [members, Target(Some(s.groupCache[Trim(row.partyCode)]), Some(s.roleCache[MP_ROLE]))]
  {
    var code := HouseCode(Trim(row.positionDesc));
    HouseLeavesCaches(s, code);
    HouseLeavesCaches(GetHouse(s, code).0, code);
  }

  /** A role with a fall-back resolves to the same role again, on any state that kept the roles and their cache. */
  lemma RoleOrRepeats(s: State, h: Helpers, name: string, fallback: string, again: State)
    requires var t := RoleOr(s, h, name, fallback, false).0;
             again.roles == t.roles && again.roleCache == t.roleCache
    ensures RoleOr(again, h, name, fallback, false).1 == RoleOr(s, h, name, fallback, false).1
    ensures SameTables(RoleOr(again, h, name, fallback, false).0, again)
    ensures RoleOr(again, h, name, fallback, false).0.groupCache == again.groupCache
  {
    FindIsRemembered(s, h, name);
    if FindRole(s, h, name).1.Some? {
      RoleFromCache(again, h, name);
    } else {
      RoleIsRemembered(s, h, fallback);
      FallbackRepeats(s, h, name, fallback, again);
    }
  }

  lemma RoleFromCache(s: State, h: Helpers, name: string)
    requires name in s.roleCache
    ensures FindRole(s, h, name) == (s, Some(s.roleCache[name]))
    ensures GetOrCreateRole(s, h, name, false) == (s, Some(s.roleCache[name]))
  {
  }

  lemma FindIsRemembered(s: State, h: Helpers, name: string)
    ensures var (t, r) := FindRole(s, h, name);
            && (r.Some? ==> name in t.roleCache && t.roleCache[name] == r.value)
            && (r.None? ==> t == s && name !in s.roleCache && RoleLike(s.roles, h.fold, name).None?)
  {
  }

  /** A role that was not found at first: if the fall-back's creation made it findable, it is the fall-back itself. */
  lemma FallbackRepeats(s: State, h: Helpers, name: string, fallback: string, again: State)
    requires name !in s.roleCache && RoleLike(s.roles, h.fold, name).None?
    requires var (t, r) := GetOrCreateRole(s, h, fallback, false);
             again.roles == t.roles && again.roleCache == t.roleCache
    ensures RoleOr(again, h, name, fallback, false).1 == GetOrCreateRole(s, h, fallback, false).1
    ensures SameTables(RoleOr(again, h, name, fallback, false).0, again)
    ensures RoleOr(again, h, name, fallback, false).0.groupCache == again.groupCache
  {
    var (t, r) := GetOrCreateRole(s, h, fallback, false);
    RoleIsRemembered(s, h, fallback);
    RoleFromCache(again, h, fallback);
    CreatedRoleIsLast(s, h, fallback);
    if name == fallback {
    } else {
      assert name !in again.roleCache;
      RoleLikeOneMore(s.roles, h.fold, name, fallback);
    }
  }

  lemma CreatedRoleIsLast(s: State, h: Helpers, name: string)
    ensures var (t, r) := GetOrCreateRole(s, h, name, false);
            t.roles == s.roles || (t.roles == s.roles + [name] && r == Some(|s.roles|))
    ensures forall n :: n in GetOrCreateRole(s, h, name, false).0.roleCache ==> n == name || n in s.roleCache
  {
  }

  lemma RoleLikeOneMore(roles: seq<string>, fold: string -> string, name: string, added: string)
    requires RoleLike(roles, fold, name).None?
    ensures RoleLike(roles + [added], fold, name) == if fold(added) == fold(name) then Some(|roles|) else None
  {
    assert (roles + [added])[..|roles|] == roles;
  }

  /** Looking a group up leaves it, and every other answer, as it was. */
  lemma LookupIsStable(s: State, name: string)
    ensures var (t, g) := GetGroup(s, name);
            && t.groups == s.groups
            && (forall n :: n != name ==> (n in t.groupCache <==> n in s.groupCache))
            && (forall n :: n in s.groupCache ==> n in t.groupCache && t.groupCache[n] == s.groupCache[n])
            && (name != "" && g.Some? ==> name in t.groupCache && t.groupCache[name] == g.value)
            && (g.None? ==> t == s)
  {
  }

  lemma LookupFromCache(s: State, name: string)
    requires name in s.groupCache && name != ""
    ensures GetGroup(s, name) == (s, Some(s.groupCache[name]))
  {
  }

  lemma LookupFails(s: State, name: string)
    requires name !in s.groupCache && FirstGroup(s.groups, Named(name)).None?
    ensures GetGroup(s, name) == (s, None)
  {
  }

  /**
   * Two lookups, repeated on a state with the groups and the group cache they left,
   * answer the same and change nothing.
   */
  lemma LookupsRepeat(s: State, first: string, second: string, again: State)
    requires first != "" && second != ""
    requires var t := GetGroup(GetGroup(s, first).0, second).0;
             again.groups == t.groups && again.groupCache == t.groupCache
    ensures GetGroup(again, first) == (again, GetGroup(s, first).1)
    ensures GetGroup(again, second) == (again, GetGroup(GetGroup(s, first).0, second).1)
  {
    var (a, g) := GetGroup(s, first);
    var (b, k) := GetGroup(a, second);
    LookupIsStable(s, first);
    LookupIsStable(a, second);
    if g.Some? {
      LookupFromCache(again, first);
    } else if first == second {
      LookupFails(again, first);
    } else {
      LookupFails(again, first);
    }
    if k.Some? {
      LookupFromCache(again, second);
    } else {
      LookupFails(again, second);
    }
  }

  lemma LookupRepeats(s: State, name: string, again: State)
    requires name != ""
    requires again.groups == GetGroup(s, name).0.groups && again.groupCache == GetGroup(s, name).0.groupCache
    ensures GetGroup(again, name) == (again, GetGroup(s, name).1)
  {
    LookupIsStable(s, name);
    if GetGroup(s, name).1.Some? {
      LookupFromCache(again, name);
    } else {
      LookupFails(again, name);
    }
  }

  /** Both unit targets, repeated on a state with the groups and group cache they left. */
  lemma UnitsRepeat(s: State, h: Helpers, parentOrg: string, childOrg: string, again: State, role: Option<RoleId>)
    requires var t := UnitTarget(UnitTarget(s, h, parentOrg, role).0, h, childOrg, role).0;
             again.groups == t.groups && again.groupCache == t.groupCache
    ensures UnitTarget(again, h, parentOrg, role) == (again, UnitTarget(s, h, parentOrg, role).1)
    ensures UnitTarget(again, h, childOrg, role)
            == (again, UnitTarget(UnitTarget(s, h, parentOrg, role).0, h, childOrg, role).1)
  {
    var first, second := h.stripPrefix(parentOrg), h.stripPrefix(childOrg);
    if first != "" && second != "" {
      LookupsRepeat(s, first, second, again);
    } else if first != "" {
      LookupRepeats(s, first, again);
    } else if second != "" {
      LookupRepeats(s, second, again);
    }
  }

  lemma StaffTargetsRepeat(s: State, h: Helpers, row: OracleRow, ms: seq<Membership>)
    ensures var (t, ts) := StaffTargets(s, h, row, false);
            var again := t.(memberships := ms);
            && StaffTargets(again, h, row, false).1 == ts
            && SameTables(StaffTargets(again, h, row, false).0, again)
  {
    var again := StaffTargets(s, h, row, false).0.(memberships := ms);
    var (one, role) := ResolveStaffRole(s, h, row, false);
    UnitTouchesNoTable(one, h, row.parentOrg, role);
    UnitTouchesNoTable(UnitTarget(one, h, row.parentOrg, role).0, h, row.childOrg, role);
    RoleOrRepeats(s, h, StaffRoleName(h, row), STAFF_ROLE, again);
    var two := ResolveStaffRole(again, h, row, false).0;
    UnitsRepeat(one, h, row.parentOrg, row.childOrg, two, role);
  }

  lemma TargetsRepeat(s: State, h: Helpers, row: OracleRow, ms: seq<Membership>)
    ensures var (t, ts) := Targets(s, h, row, false);
            var again := t.(memberships := ms);
            && Targets(again, h, row, false).1 == ts
            && SameTables(Targets(again, h, row, false).0, again)
  {
    if IsMp(row) {
      MpTargetsRepeat(s, h, row, ms);
    } else {
      StaffTargetsRepeat(s, h, row, ms);
    }
  }

  /**
   * After a real run every resolved target's latest membership is active, and a
   * second run of the same row, on any later day, creates nothing, updates
   * nothing and leaves every table as it was.
   */
  lemma SyncIsIdempotent(s: State, h: Helpers, u: UserId, row: OracleRow, today: Date, later: Date)
    ensures var (once, counted) := Synced(s, h, u, row, today, false);
            var (twice, recounted) := Synced(once, h, u, row, later, false);
            && AllPresent(once.memberships, u, Targets(s, h, row, false).1)
            && SameTables(twice, once)
            && recounted == Counters(0, 0, counted.skipped)
  {
    var (t, ts) := Targets(s, h, row, false);
    var (once, counted) := Synced(s, h, u, row, today, false);
    RealRunMakesAllPresent(t.memberships, u, ts, today);
    TargetsRepeat(s, h, row, once.memberships);
    NothingLeftToDo(once.memberships, u, ts, later);
    SkippedDependsOnTargets(t.memberships, once.memberships, u, ts, today, later, false);
  }
}
