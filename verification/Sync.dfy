/**
 * The membership sync: which groups and role a synced user should have, found
 * in caches or tables or created on demand, and the upsert of the memberships.
 */
module Sync {
  import opened Common
  import opened Sorting
  import opened Acronyms

  type UserId = nat
  type GroupId = nat
  type RoleId = nat
  type Date = int

  const MP_ROLE := "Member of Parliament"
  const STAFF_ROLE := "Staff Member"

  datatype Group = Group(name: string, groupType: string, parent: Option<GroupId>)

  datatype Membership = Membership(
    user: UserId, group: GroupId, role: RoleId, start: Date, end: Option<Date>, isActive: bool)

  /** The tables (a row's id is its position) and the service's caches. */
  datatype State = State(
    groups: seq<Group>,
    roles: seq<string>,
    memberships: seq<Membership>,
    groupCache: map<string, GroupId>,
    roleCache: map<string, RoleId>,
    houseCache: map<string, GroupId>)

  /** The columns the service reads; a missing column is empty. */
  datatype OracleRow = OracleRow(
    positionDesc: string, employeeType: string, partyCode: string, childOrg: string, parentOrg: string)

  /** The helpers handed to the service: case folding, unit names, role names. */
  datatype Helpers = Helpers(
    fold: string -> string, stripPrefix: string -> string, roleName: (string, string) -> string)

  datatype Target = Target(group: Option<GroupId>, role: Option<RoleId>)

  datatype Counters = Counters(created: nat, updated: nat, skipped: nat)

  // ---------------------------------------------------------------- text

  function TrimLeft(s: string): string {
    if s != "" && IsSpace(s[0]) then TrimLeft(s[1..]) else s
  }

  function TrimRight(s: string): string {
    if s != "" && IsSpace(s[|s| - 1]) then TrimRight(s[..|s| - 1]) else s
  }

  function Trim(s: string): string {
    TrimRight(TrimLeft(s))
  }

  function AfterLastColon(s: string): string {
    if s == "" || s[|s| - 1] == ':' then "" else AfterLastColon(s[..|s| - 1]) + [s[|s| - 1]]
  }

  /** The house named after the last colon; NA when that is unclear. */
  function HouseCode(positionDesc: string): string {
    var code := if ':' in positionDesc then Trim(AfterLastColon(positionDesc)) else "";
    if code == "NCOP" then "NCOP" else "NA"
  }

  function HouseName(code: string): string {
    if code == "NCOP" then "National Council of Provinces" else "National Assembly"
  }

  function MembersGroupName(code: string): string {
    if code == "NCOP" then "NCOP Members" else "NA Members"
  }

  function PartiesGroupName(code: string): string {
    if code == "NCOP" then "NCOP Parties" else "NA Parties"
  }

  // ---------------------------------------------------------------- lookups

  /** First group that passes the filter; groups of one name have no further order. */
  function FirstGroup(gs: seq<Group>, wanted: Group -> bool): (r: Option<GroupId>)
    ensures r.Some? ==> r.value < |gs| && wanted(gs[r.value])
    ensures r.None? ==> forall i :: 0 <= i < |gs| ==> !wanted(gs[i])
  {
    if gs == [] then None
    else
      var n := |gs| - 1;
      var before := FirstGroup(gs[..n], wanted);
      if before.Some? then before else if wanted(gs[n]) then Some(n) else None
  }

  /** The first role by name among those equal to the given one but for case. */
  function RoleLike(roles: seq<string>, fold: string -> string, name: string): (r: Option<RoleId>)
    ensures r.Some? ==> r.value < |roles| && fold(roles[r.value]) == fold(name)
    ensures r.None? ==> forall i :: 0 <= i < |roles| ==> fold(roles[i]) != fold(name)
  {
    if roles == [] then None
    else
      var n := |roles| - 1;
      var before := RoleLike(roles[..n], fold, name);
      var earlier := before.None? || !NameLeq(roles[before.value], roles[n]);
      if fold(roles[n]) == fold(name) && earlier then Some(n) else before
  }

  function Named(name: string): Group -> bool {
    (g: Group) => g.name == name
  }

  function NamedUnder(name: string, parent: Option<GroupId>): Group -> bool {
    (g: Group) => g.name == name && g.parent == parent
  }

  function HouseNamed(name: string): Group -> bool {
    (g: Group) => g.name == name && g.groupType == "house"
  }

  /** The latest membership row for a user, group and role; the length when there is none. */
  function Latest(ms: seq<Membership>, u: UserId, g: GroupId, r: RoleId): (k: nat)
    ensures k <= |ms|
    ensures k < |ms| ==> ms[k].user == u && ms[k].group == g && ms[k].role == r
    ensures k == |ms| ==> forall i :: 0 <= i < |ms| ==> !(ms[i].user == u && ms[i].group == g && ms[i].role == r)
    ensures k < |ms| ==> forall i :: 0 <= i < |ms| && ms[i].user == u && ms[i].group == g && ms[i].role == r ==>
                                       ms[i].start <= ms[k].start
  {
    if ms == [] then 0
    else
      var n := |ms| - 1;
      var before := Latest(ms[..n], u, g, r);
      if ms[n].user == u && ms[n].group == g && ms[n].role == r then
        (if before == n || ms[before].start < ms[n].start then n else before)
      else if before == n then n + 1 else before
  }

  // ---------------------------------------------------------------- resolution, with its effect on tables and caches

  function FindRole(s: State, h: Helpers, name: string): (State, Option<RoleId>) {
    if name in s.roleCache then (s, Some(s.roleCache[name]))
    else
      var r := RoleLike(s.roles, h.fold, name);
      if r.Some? then (s.(roleCache := s.roleCache[name := r.value]), r) else (s, None)
  }

  function GetOrCreateRole(s: State, h: Helpers, name: string, dryRun: bool): (State, Option<RoleId>) {
    var (t, r) := FindRole(s, h, name);
    if r.Some? then (t, r)
    else if dryRun then (t, None)
    else (t.(roles := t.roles + [name], roleCache := t.roleCache[name := |t.roles|]), Some(|t.roles|))
  }

  /** The role name a staff row asks for. */
  function StaffRoleName(h: Helpers, row: OracleRow): string {
    var wanted := h.roleName(row.positionDesc, row.employeeType);
    if wanted == "" || wanted == MP_ROLE then STAFF_ROLE else wanted
  }

  /** A role by name if there is one, else the fall-back, created on demand. */
  function RoleOr(s: State, h: Helpers, name: string, fallback: string, dryRun: bool): (State, Option<RoleId>) {
    var (t, r) := FindRole(s, h, name);
    if r.Some? then (t, r) else GetOrCreateRole(t, h, fallback, dryRun)
  }

  function ResolveStaffRole(s: State, h: Helpers, row: OracleRow, dryRun: bool): (State, Option<RoleId>) {
    RoleOr(s, h, StaffRoleName(h, row), STAFF_ROLE, dryRun)
  }

  function GetGroup(s: State, name: string): (State, Option<GroupId>) {
    if name == "" then (s, None)
    else if name in s.groupCache then (s, Some(s.groupCache[name]))
    else
      var g := FirstGroup(s.groups, Named(name));
      if g.Some? then (s.(groupCache := s.groupCache[name := g.value]), g) else (s, None)
  }

  function GetHouse(s: State, code: string): (State, Option<GroupId>) {
    if code in s.houseCache then (s, Some(s.houseCache[code]))
    else
      var g := FirstGroup(s.groups, HouseNamed(HouseName(code)));
      if g.Some? then (s.(houseCache := s.houseCache[code := g.value]), g) else (s, None)
  }

  function GetOrCreateGroup(s: State, name: string, parent: Option<GroupId>, groupType: string, dryRun: bool)
    : (State, Option<GroupId>)
  {
    if name == "" then (s, None)
    else if name in s.groupCache then (s, Some(s.groupCache[name]))
    else
      var g := FirstGroup(s.groups, NamedUnder(name, parent));
      if g.Some? then (s.(groupCache := s.groupCache[name := g.value]), g)
      else if dryRun then (s, None)
      else (s.(groups := s.groups + [Group(name, groupType, parent)], groupCache := s.groupCache[name := |s.groups|]),
            Some(|s.groups|))
  }

  function PartyGroup(s: State, code: string, partyCode: string, dryRun: bool): (State, Option<GroupId>) {
    if Trim(partyCode) == "" then (s, None)
    else
      var (t, house) := GetHouse(s, code);
      var (u, parties) := GetOrCreateGroup(t, PartiesGroupName(code), house, "party", dryRun);
      GetOrCreateGroup(u, Trim(partyCode), parties, "party", dryRun)
  }

  function MpTargets(s: State, h: Helpers, row: OracleRow, dryRun: bool): (State, seq<Target>) {
    var code := HouseCode(Trim(row.positionDesc));
    var (t, role) := GetOrCreateRole(s, h, MP_ROLE, dryRun);
    var (u, house) := GetHouse(t, code);
    var (v, members) := GetOrCreateGroup(u, MembersGroupName(code), house, "administration", dryRun);
    var (w, party) := PartyGroup(v, code, row.partyCode, dryRun);
    (w, [Target(members, role)] + if party.Some? then [Target(party, role)] else [])
  }

  /** One organisational unit of a staff member; a unit whose name is stripped to nothing gives no target. */
  function UnitTarget(s: State, h: Helpers, org: string, role: Option<RoleId>): (State, seq<Target>) {
    var name := h.stripPrefix(org);
    if name == "" then (s, [])
    else
      var (t, g) := GetGroup(s, name);
      (t, [Target(g, role)])
  }

  function StaffTargets(s: State, h: Helpers, row: OracleRow, dryRun: bool): (State, seq<Target>) {
    var (t, role) := ResolveStaffRole(s, h, row, dryRun);
    var (u, first) := UnitTarget(t, h, row.parentOrg, role);
    var (v, second) := UnitTarget(u, h, row.childOrg, role);
    (v, first + second)
  }

  predicate IsMp(row: OracleRow) {
    Trim(row.employeeType) == "Member"
  }

  function Targets(s: State, h: Helpers, row: OracleRow, dryRun: bool): (State, seq<Target>) {
    if IsMp(row) then MpTargets(s, h, row, dryRun) else StaffTargets(s, h, row, dryRun)
  }

  // ---------------------------------------------------------------- the upsert

  datatype Action = WasCreated | WasReactivated | Exists

  /** What one target's membership needs. */
  function Needed(ms: seq<Membership>, u: UserId, g: GroupId, r: RoleId): Action {
    var k := Latest(ms, u, g, r);
    if k == |ms| then WasCreated else if !ms[k].isActive then WasReactivated else Exists
  }

  function Ensured(ms: seq<Membership>, u: UserId, g: GroupId, r: RoleId, today: Date): seq<Membership> {
    var k := Latest(ms, u, g, r);
    if k == |ms| then ms + [Membership(u, g, r, today, None, true)]
    else if !ms[k].isActive then ms[k := ms[k].(isActive := true, end := None)]
    else ms
  }

  predicate Resolved(t: Target) {
    t.group.Some? && t.role.Some?
  }

  /** The memberships after the first n targets. */
  function AllEnsured(ms: seq<Membership>, u: UserId, ts: seq<Target>, today: Date, dryRun: bool): seq<Membership> {
    if ts == [] then ms
    else
      var before := AllEnsured(ms, u, ts[..|ts| - 1], today, dryRun);
      var t := ts[|ts| - 1];
      if dryRun || !Resolved(t) then before else Ensured(before, u, t.group.value, t.role.value, today)
  }

  function Count(ms: seq<Membership>, u: UserId, ts: seq<Target>, today: Date, dryRun: bool): Counters {
    if ts == [] then Counters(0, 0, 0)
    else
      var c := Count(ms, u, ts[..|ts| - 1], today, dryRun);
      var t := ts[|ts| - 1];
      if !Resolved(t) then c.(skipped := c.skipped + 1)
      else match Needed(AllEnsured(ms, u, ts[..|ts| - 1], today, dryRun), u, t.group.value, t.role.value)
        case WasCreated => c.(created := c.created + 1)
        case WasReactivated => c.(updated := c.updated + 1)
        case Exists => c
  }

  /** The whole sync of one user. */
  function Synced(s: State, h: Helpers, u: UserId, row: OracleRow, today: Date, dryRun: bool): (State, Counters) {
    var (t, ts) := Targets(s, h, row, dryRun);
    (t.(memberships := AllEnsured(t.memberships, u, ts, today, dryRun)), Count(t.memberships, u, ts, today, dryRun))
  }

  // ---------------------------------------------------------------- the service

  class MembershipSyncService {
    const helpers: Helpers
    var groups: seq<Group>
    var roles: seq<string>
    var memberships: seq<Membership>
    var groupCache: map<string, GroupId>
    var roleCache: map<string, RoleId>
    var houseCache: map<string, GroupId>

    function Snapshot(): State
      reads this
    {
      State(groups, roles, memberships, groupCache, roleCache, houseCache)
    }

    constructor (helpers: Helpers, groups: seq<Group>, roles: seq<string>, memberships: seq<Membership>,
                 groupCache: map<string, GroupId>, roleCache: map<string, RoleId>)
      ensures this.helpers == helpers
      ensures Snapshot() == State(groups, roles, memberships, groupCache, roleCache, map[])
    {
      this.helpers := helpers;
      this.groups, this.roles, this.memberships := groups, roles, memberships;
      this.groupCache, this.roleCache, houseCache := groupCache, roleCache, map[];
    }

    method SyncUserMembership(u: UserId, row: OracleRow, today: Date, dryRun: bool) returns (counters: Counters)
      modifies this
      ensures (Snapshot(), counters) == Synced(old(Snapshot()), helpers, u, row, today, dryRun)
    {
      var targets;
      if IsMp(row) {
        targets := SelectMpTargets(row, dryRun);
      } else {
        targets := SelectStaffTargets(row, dryRun);
      }
      counters := EnsureTargets(u, targets, today, dryRun);
    }

    /** The loop over the targets, with its three counters. */
    method EnsureTargets(u: UserId, targets: seq<Target>, today: Date, dryRun: bool) returns (counters: Counters)
      modifies this`memberships
      ensures memberships == AllEnsured(old(memberships), u, targets, today, dryRun)
      ensures counters == Count(old(memberships), u, targets, today, dryRun)
    {
      ghost var before := memberships;
      var created: nat, updated: nat, skipped: nat := 0, 0, 0;
      for i := 0 to |targets|
        invariant memberships == AllEnsured(before, u, targets[..i], today, dryRun)
        invariant Counters(created, updated, skipped) == Count(before, u, targets[..i], today, dryRun)
      {
        assert targets[..i + 1][..i] == targets[..i];
        var t := targets[i];
        if t.group.None? || t.role.None? {
          skipped := skipped + 1;
          continue;
        }
        var action := EnsureMembership(u, t.group.value, t.role.value, today, dryRun);
        if action == WasCreated {
          created := created + 1;
        } else if action == WasReactivated {
          updated := updated + 1;
        }
      }
      assert targets[..|targets|] == targets;
      counters := Counters(created, updated, skipped);
    }

    method EnsureMembership(u: UserId, g: GroupId, r: RoleId, today: Date, dryRun: bool) returns (action: Action)
      modifies this`memberships
      ensures action == Needed(old(memberships), u, g, r)
      ensures memberships == if dryRun then old(memberships) else Ensured(old(memberships), u, g, r, today)
    {
      var k := Latest(memberships, u, g, r);
      if k == |memberships| {
        if !dryRun {
          memberships := memberships + [Membership(u, g, r, today, None, true)];
        }
        return WasCreated;
      }
      if !memberships[k].isActive {
        if !dryRun {
          memberships := memberships[k := memberships[k].(isActive := true, end := None)];
        }
        return WasReactivated;
      }
      return Exists;
    }

    method SelectMpTargets(row: OracleRow, dryRun: bool) returns (targets: seq<Target>)
      modifies this
      ensures (Snapshot(), targets) == MpTargets(old(Snapshot()), helpers, row, dryRun)
    {
      var code := HouseCode(Trim(row.positionDesc));
      var role := ObtainRole(MP_ROLE, dryRun);
      var house := LookUpHouse(code);
      var members := ObtainGroup(MembersGroupName(code), house, "administration", dryRun);
      targets := [Target(members, role)];
      var partyCode := Trim(row.partyCode);
      if partyCode != "" {
        house := LookUpHouse(code);
        var parties := ObtainGroup(PartiesGroupName(code), house, "party", dryRun);
        var party := ObtainGroup(partyCode, parties, "party", dryRun);
        if party.Some? {
          targets := targets + [Target(party, role)];
        }
      }
      assert targets == MpTargets(old(Snapshot()), helpers, row, dryRun).1;
    }

    method SelectStaffTargets(row: OracleRow, dryRun: bool) returns (targets: seq<Target>)
      modifies this
      ensures (Snapshot(), targets) == StaffTargets(old(Snapshot()), helpers, row, dryRun)
    {
      var wanted := helpers.roleName(row.positionDesc, row.employeeType);
      var name := if wanted == "" || wanted == MP_ROLE then STAFF_ROLE else wanted;
      var role := LookUpRole(name);
      if role.None? {
        role := ObtainRole(STAFF_ROLE, dryRun);
      }
      targets := [];
      ghost var before := Snapshot();
      var unit := helpers.stripPrefix(row.parentOrg);
      if unit != "" {
        var g := LookUpGroup(unit);
        targets := targets + [Target(g, role)];
      }
      assert targets == UnitTarget(before, helpers, row.parentOrg, role).1;
      unit := helpers.stripPrefix(row.childOrg);
      if unit != "" {
        var g := LookUpGroup(unit);
        targets := targets + [Target(g, role)];
      }
      assert targets == StaffTargets(old(Snapshot()), helpers, row, dryRun).1;
    }

    method LookUpRole(name: string) returns (r: Option<RoleId>)
      modifies this`roleCache
      ensures (Snapshot(), r) == FindRole(old(Snapshot()), helpers, name)
    {
      if name in roleCache {
        return Some(roleCache[name]);
      }
      r := RoleLike(roles, helpers.fold, name);
      if r.Some? {
        roleCache := roleCache[name := r.value];
      }
    }

    method ObtainRole(name: string, dryRun: bool) returns (r: Option<RoleId>)
      modifies this`roleCache, this`roles
      ensures (Snapshot(), r) == GetOrCreateRole(old(Snapshot()), helpers, name, dryRun)
    {
      r := LookUpRole(name);
      if r.None? && !dryRun {
        r := Some(|roles|);
        roles := roles + [name];
        roleCache := roleCache[name := r.value];
      }
    }

    method LookUpGroup(name: string) returns (g: Option<GroupId>)
      modifies this`groupCache
      ensures (Snapshot(), g) == GetGroup(old(Snapshot()), name)
    {
      if name == "" {
        return None;
      }
      if name in groupCache {
        return Some(groupCache[name]);
      }
      g := FirstGroup(groups, Named(name));
      if g.Some? {
        groupCache := groupCache[name := g.value];
      }
    }

    method LookUpHouse(code: string) returns (g: Option<GroupId>)
      modifies this`houseCache
      ensures (Snapshot(), g) == GetHouse(old(Snapshot()), code)
    {
      if code in houseCache {
        return Some(houseCache[code]);
      }
      g := FirstGroup(groups, HouseNamed(HouseName(code)));
      if g.Some? {
        houseCache := houseCache[code := g.value];
      }
    }

    method ObtainGroup(name: string, parent: Option<GroupId>, groupType: string, dryRun: bool)
      returns (g: Option<GroupId>)
      modifies this`groupCache, this`groups
      ensures (Snapshot(), g) == GetOrCreateGroup(old(Snapshot()), name, parent, groupType, dryRun)
    {
      if name == "" {
        return None;
      }
      if name in groupCache {
        return Some(groupCache[name]);
      }
      g := FirstGroup(groups, NamedUnder(name, parent));
      if g.None? {
        if dryRun {
          return None;
        }
        g := Some(|groups|);
        groups := groups + [Group(name, groupType, parent)];
      }
      groupCache := groupCache[name := g.value];
    }
  }
}
