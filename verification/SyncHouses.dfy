/**
 * Which house a party's group ends up under. The group cache is keyed by bare
 * name, so the first row that brings a name into the cache decides for the rest
 * of the run.
 */
module SyncHouses {
  import opened Common
  import opened Sync
  import opened SyncLaws

  // ---------------------------------------------------------------- runs of one service

  /** One user's sync, on a given day. */
  datatype Call = Call(user: UserId, row: OracleRow, today: Date)

  /** One service after a series of real syncs. */
  function SyncRun(s: State, h: Helpers, calls: seq<Call>): State {
    if calls == [] then s
    else
      var c := calls[|calls| - 1];
      Synced(SyncRun(s, h, calls[..|calls| - 1]), h, c.user, c.row, c.today, false).0
  }

  function HouseOf(row: OracleRow): string {
    HouseCode(Trim(row.positionDesc))
  }

  /** The names of the groups the service makes for the houses themselves. */
  predicate IsHouseGroup(name: string) {
    || name == MembersGroupName("NA") || name == MembersGroupName("NCOP")
    || name == PartiesGroupName("NA") || name == PartiesGroupName("NCOP")
  }

  /** How a name first came into the cache. */
  datatype Origin =
    | Nowhere                             // not yet
    | House(code: string)                 // as a party of this house
    | Found(parent: Option<GroupId>)      // as a group that was there before the run

  /** A staff row looks the name up, and there was such a group before the run. */
  predicate FindsUnit(s: State, h: Helpers, name: string, row: OracleRow) {
    !IsMp(row) && (h.stripPrefix(row.parentOrg) == name || h.stripPrefix(row.childOrg) == name)
    && FirstGroup(s.groups, Named(name)).Some?
  }

  /** The origin of a name, read off the starting tables and the rows. */
  function OriginOf(s: State, h: Helpers, name: string, calls: seq<Call>): Origin
    requires CacheInTable(s)
  {
    if calls == [] then
      if name in s.groupCache then Found(s.groups[s.groupCache[name]].parent) else Nowhere
    else
      var before := OriginOf(s, h, name, calls[..|calls| - 1]);
      var row := calls[|calls| - 1].row;
      if before != Nowhere then before
      else if IsMp(row) && Trim(row.partyCode) == name then House(HouseOf(row))
      else if FindsUnit(s, h, name, row) then Found(s.groups[FirstGroup(s.groups, Named(name)).value].parent)
      else Nowhere
  }

  // ---------------------------------------------------------------- what every run keeps

  /** Cached groups are rows of the table. */
  predicate CacheInTable(s: State) {
    forall n :: n in s.groupCache ==> s.groupCache[n] < |s.groups|
  }

  /** The two houses' party umbrellas are cached, if at all, as two groups, neither with the other's name. */
  predicate UmbrellasApart(s: State)
    requires CacheInTable(s)
  {
    var (a, b) := (PartiesGroupName("NA"), PartiesGroupName("NCOP"));
    && (a in s.groupCache ==> s.groups[s.groupCache[a]].name != b)
    && (b in s.groupCache ==> s.groups[s.groupCache[b]].name != a)
    && (a in s.groupCache && b in s.groupCache ==> s.groupCache[a] != s.groupCache[b])
  }

  /** t grew from s: rows are only added, and the cache only learns. */
  ghost predicate Grew(s: State, t: State) {
    s.groups <= t.groups && forall n :: n in s.groupCache ==> n in t.groupCache && t.groupCache[n] == s.groupCache[n]
  }

  /** What the origin of the name says about the state. */
  ghost predicate Settled(start: State, s: State, name: string, origin: Origin)
    requires CacheInTable(s)
  {
    match origin
    case Nowhere =>
      name !in s.groupCache && forall i :: |start.groups| <= i < |s.groups| ==> s.groups[i].name != name
    case House(code) =>
      && name in s.groupCache && PartiesGroupName(code) in s.groupCache
      && s.groups[s.groupCache[name]].parent == Some(s.groupCache[PartiesGroupName(code)])
    case Found(parent) =>
      name in s.groupCache && s.groups[s.groupCache[name]].parent == parent
  }

  /** What holds of a growing state whatever name is being followed. */
  ghost predicate Sane(start: State, s: State) {
    Grew(start, s) && CacheInTable(s) && UmbrellasApart(s)
  }

  ghost predicate Inv(start: State, s: State, name: string, origin: Origin) {
    Sane(start, s) && Settled(start, s, name, origin)
  }

  lemma FirstGroupInPrefix(gs: seq<Group>, more: seq<Group>, wanted: Group -> bool)
    requires forall i :: 0 <= i < |more| ==> !wanted(more[i])
    ensures FirstGroup(gs + more, wanted) == FirstGroup(gs, wanted)
    decreases more
  {
    if more == [] {
      assert gs + more == gs;
    } else {
      var n := |more| - 1;
      assert (gs + more)[..|gs + more| - 1] == gs + more[..n];
      FirstGroupInPrefix(gs, more[..n], wanted);
    }
  }

  /** Groups and cache as before. */
  ghost predicate SameGroups(s: State, t: State) {
    s.groups == t.groups && s.groupCache == t.groupCache
  }

  lemma RowAdded(start: State, s: State, g: Group)
    requires Sane(start, s)
    ensures Sane(start, s.(groups := s.groups + [g]))
  {
  }

  /** A row enters the cache under its own name. */
  lemma NameCached(start: State, s: State, name: string, g: GroupId)
    requires Sane(start, s) && g < |s.groups| && s.groups[g].name == name && name !in s.groupCache
    ensures Sane(start, s.(groupCache := s.groupCache[name := g]))
  {
  }

  /** Obtaining a group by another name leaves the name where it was. */
  lemma ObtainAnother(start: State, s: State, name: string, origin: Origin, other: string, parent: Option<GroupId>,
                      groupType: string)
    requires Inv(start, s, name, origin) && other != name && other != ""
    ensures var (t, g) := GetOrCreateGroup(s, other, parent, groupType, false);
            && Inv(start, t, name, origin) && g.Some? && other in t.groupCache && t.groupCache[other] == g.value
  {
    if other !in s.groupCache {
      var g := FirstGroup(s.groups, NamedUnder(other, parent));
      if g.Some? {
        NameCached(start, s, other, g.value);
      } else {
        var row := Group(other, groupType, parent);
        RowAdded(start, s, row);
        NameCached(start, s.(groups := s.groups + [row]), other, |s.groups|);
      }
    }
  }

  /** Obtaining the name itself, as a party of a house, settles it there unless it was settled before. */
  lemma ObtainParty(start: State, s: State, name: string, origin: Origin, code: string)
    requires Inv(start, s, name, origin) && name != "" && !IsHouseGroup(name)
    requires PartiesGroupName(code) in s.groupCache
    ensures var t := GetOrCreateGroup(s, name, Some(s.groupCache[PartiesGroupName(code)]), "party", false).0;
            && Inv(start, t, name, if origin == Nowhere then House(code) else origin)
            && name in t.groupCache
  {
    if name !in s.groupCache {
      var parent := Some(s.groupCache[PartiesGroupName(code)]);
      var g := FirstGroup(s.groups, NamedUnder(name, parent));
      if g.Some? {
        NameCached(start, s, name, g.value);
      } else {
        var row := Group(name, "party", parent);
        RowAdded(start, s, row);
        NameCached(start, s.(groups := s.groups + [row]), name, |s.groups|);
      }
    }
  }

  lemma ResolveParty(start: State, s: State, name: string, origin: Origin, code: string, partyCode: string)
    requires Inv(start, s, name, origin) && name != "" && !IsHouseGroup(name)
    ensures var t := PartyGroup(s, code, partyCode, false).0;
            Inv(start, t, name, if Trim(partyCode) == name && origin == Nowhere then House(code) else origin)
  {
    if Trim(partyCode) != "" {
      HouseLeavesCaches(s, code);
      var (a, house) := GetHouse(s, code);
      ObtainAnother(start, a, name, origin, PartiesGroupName(code), house, "party");
      var (b, parties) := GetOrCreateGroup(a, PartiesGroupName(code), house, "party", false);
      if Trim(partyCode) == name {
        ObtainParty(start, b, name, origin, code);
      } else {
        ObtainAnother(start, b, name, origin, Trim(partyCode), parties, "party");
      }
    }
  }

  lemma MpRowSettles(start: State, s: State, h: Helpers, name: string, origin: Origin, row: OracleRow)
    requires Inv(start, s, name, origin) && name != "" && !IsHouseGroup(name)
    ensures Inv(start, MpTargets(s, h, row, false).0, name,
                if Trim(row.partyCode) == name && origin == Nowhere then House(HouseOf(row)) else origin)
  {
    var code := HouseOf(row);
    var (a, role) := GetOrCreateRole(s, h, MP_ROLE, false);
    RoleLeavesGroups(s, h, MP_ROLE);
    var (b, house) := GetHouse(a, code);
    HouseLeavesCaches(a, code);
    assert Inv(start, b, name, origin);
    ObtainAnother(start, b, name, origin, MembersGroupName(code), house, "administration");
    var c := GetOrCreateGroup(b, MembersGroupName(code), house, "administration", false).0;
    ResolveParty(start, c, name, origin, code, row.partyCode);
  }

  lemma RoleLeavesGroups(s: State, h: Helpers, name: string)
    ensures SameGroups(GetOrCreateRole(s, h, name, false).0, s)
  {
  }

  lemma RoleOrLeavesGroups(s: State, h: Helpers, name: string, fallback: string)
    ensures SameGroups(RoleOr(s, h, name, fallback, false).0, s)
  {
    RoleLeavesGroups(FindRole(s, h, name).0, h, fallback);
  }

  /** The origin after one more lookup by bare name. */
  function AfterLookup(start: State, name: string, origin: Origin, looked: string): Origin {
    if origin == Nowhere && looked == name && FirstGroup(start.groups, Named(name)).Some?
    then Found(start.groups[FirstGroup(start.groups, Named(name)).value].parent) else origin
  }

  lemma LookUpSettles(start: State, s: State, name: string, origin: Origin, looked: string)
    requires Inv(start, s, name, origin) && name != ""
    ensures Inv(start, GetGroup(s, looked).0, name, AfterLookup(start, name, origin, looked))
  {
    if looked == name && origin == Nowhere {
      var more := s.groups[|start.groups|..];
      assert s.groups == start.groups + more;
      FirstGroupInPrefix(start.groups, more, Named(name));
    }
  }

  lemma StaffRowSettles(start: State, s: State, h: Helpers, name: string, origin: Origin, row: OracleRow)
    requires Inv(start, s, name, origin) && name != "" && !IsMp(row)
    ensures Inv(start, StaffTargets(s, h, row, false).0, name,
                if origin == Nowhere && FindsUnit(start, h, name, row)
                then Found(start.groups[FirstGroup(start.groups, Named(name)).value].parent) else origin)
  {
    var (a, role) := ResolveStaffRole(s, h, row, false);
    RoleOrLeavesGroups(s, h, StaffRoleName(h, row), STAFF_ROLE);
    var (first, second) := (h.stripPrefix(row.parentOrg), h.stripPrefix(row.childOrg));
    LookUpSettles(start, a, name, origin, first);
    var b := UnitTarget(a, h, row.parentOrg, role).0;
    assert b == GetGroup(a, first).0;
    LookUpSettles(start, b, name, AfterLookup(start, name, origin, first), second);
  }

  /** Over every run, the origin read off the rows is what the cache and the table hold. */
  lemma {:induction false} RunsSettle(start: State, h: Helpers, name: string, calls: seq<Call>)
    requires CacheInTable(start) && UmbrellasApart(start) && name != "" && !IsHouseGroup(name)
    ensures Inv(start, SyncRun(start, h, calls), name, OriginOf(start, h, name, calls))
  {
    if calls != [] {
      var n := |calls| - 1;
      var (row, before) := (calls[n].row, calls[..n]);
      RunsSettle(start, h, name, before);
      var s := SyncRun(start, h, before);
      if IsMp(row) {
        MpRowSettles(start, s, h, name, OriginOf(start, h, name, before), row);
      } else {
        StaffRowSettles(start, s, h, name, OriginOf(start, h, name, before), row);
      }
    }
  }

  // ---------------------------------------------------------------- the right house

  /** The row's party target, found or made from state s, sits under the umbrella of the row's own house. */
  predicate UnderItsHouse(s: State, h: Helpers, row: OracleRow) {
    var (t, ts) := MpTargets(s, h, row, false);
    && |ts| == 2 && ts[1].group.Some? && ts[1].group.value < |t.groups|
    && PartiesGroupName(HouseOf(row)) in t.groupCache
    && t.groups[ts[1].group.value].parent == Some(t.groupCache[PartiesGroupName(HouseOf(row))])
  }

  /** The party target is the group the cache then holds under the party's name. */
  lemma PartyTargetIsCached(s: State, h: Helpers, row: OracleRow)
    requires Trim(row.partyCode) != ""
    ensures var (t, ts) := MpTargets(s, h, row, false);
            && |ts| == 2 && Trim(row.partyCode) in t.groupCache && PartiesGroupName(HouseOf(row)) in t.groupCache
            && ts[1].group == Some(t.groupCache[Trim(row.partyCode)])
  {
    var code := HouseOf(row);
    var (a, role) := GetOrCreateRole(s, h, MP_ROLE, false);
    var (b, house) := GetHouse(a, code);
    var c := GetOrCreateGroup(b, MembersGroupName(code), house, "administration", false).0;
    PartyIsRemembered(c, code, row.partyCode);
  }

  lemma UmbrellasDiffer(s: State, code: string, other: string)
    requires CacheInTable(s) && UmbrellasApart(s) && code != other
    requires code in {"NA", "NCOP"} && other in {"NA", "NCOP"}
    requires PartiesGroupName(code) in s.groupCache && PartiesGroupName(other) in s.groupCache
    ensures s.groupCache[PartiesGroupName(code)] != s.groupCache[PartiesGroupName(other)]
  {
  }

  lemma {:induction false} OriginHasHouseCode(s: State, h: Helpers, name: string, calls: seq<Call>)
    requires CacheInTable(s)
    ensures OriginOf(s, h, name, calls).House? ==> OriginOf(s, h, name, calls).code in {"NA", "NCOP"}
  {
    if calls != [] {
      OriginHasHouseCode(s, h, name, calls[..|calls| - 1]);
    }
  }

  /**
   * After any run of one service, the next row's party is resolved under its own
   * house exactly when the name is new to the service, or the first row that
   * brought it in named the same house, or it was found as a group that already
   * sat under this house's umbrella.
   */
  lemma PartyIsUnderItsHouseExactly(start: State, h: Helpers, calls: seq<Call>, row: OracleRow)
    requires CacheInTable(start) && UmbrellasApart(start)
    requires Trim(row.partyCode) != "" && !IsHouseGroup(Trim(row.partyCode))
    ensures var s := SyncRun(start, h, calls);
            var cache := MpTargets(s, h, row, false).0.groupCache;
            && PartiesGroupName(HouseOf(row)) in cache
            && (UnderItsHouse(s, h, row) <==>
                match OriginOf(start, h, Trim(row.partyCode), calls)
                case Nowhere => true
                case House(code) => code == HouseOf(row)
                case Found(parent) => parent == Some(cache[PartiesGroupName(HouseOf(row))]))
  {
    var (code, name) := (HouseOf(row), Trim(row.partyCode));
    var s := SyncRun(start, h, calls);
    var origin := OriginOf(start, h, name, calls);
    RunsSettle(start, h, name, calls);
    MpRowSettles(start, s, h, name, origin, row);
    PartyTargetIsCached(s, h, row);
    OriginHasHouseCode(start, h, name, calls);
    if origin.House? && origin.code != code {
      UmbrellasDiffer(MpTargets(s, h, row, false).0, origin.code, code);
    }
  }

  /**
   * So one party code used by both houses goes wrong for the second one, in every
   * service that has not met it before: the second answer is the first house's
   * group, and its parent is not the second house's umbrella.
   */
  lemma PartyIsSharedAcrossHouses(start: State, h: Helpers, first: Call, second: OracleRow)
    requires CacheInTable(start) && UmbrellasApart(start)
    requires IsMp(first.row) && HouseOf(first.row) != HouseOf(second)
    requires Trim(first.row.partyCode) == Trim(second.partyCode)
    requires var name := Trim(second.partyCode); name != "" && !IsHouseGroup(name) && name !in start.groupCache
    ensures UnderItsHouse(start, h, first.row) && !UnderItsHouse(SyncRun(start, h, [first]), h, second)
  {
    assert [first][..0] == [];
    PartyIsUnderItsHouseExactly(start, h, [], first.row);
    PartyIsUnderItsHouseExactly(start, h, [first], second);
  }

  /** The smallest case: no tables, no caches, one party met under both houses. */
  lemma EmptyTablesShareParty(partyCode: string)
    requires Trim(partyCode) != "" && !IsHouseGroup(Trim(partyCode))
    ensures var (s, party) := PartyGroup(State([], [], [], map[], map[], map[]), "NA", partyCode, false);
            var (t, again) := PartyGroup(s, "NCOP", partyCode, false);
            && again == party == Some(1)
            && t.groups[..2] == [Group(PartiesGroupName("NA"), "party", None), Group(Trim(partyCode), "party", Some(0))]
            && t.groups[2..] == [Group(PartiesGroupName("NCOP"), "party", None)]
  {
    var name := Trim(partyCode);
    var s := State([Group(PartiesGroupName("NA"), "party", None), Group(name, "party", Some(0))], [], [],
                   map[PartiesGroupName("NA") := 0, name := 1], map[], map[]);
    FirstHouseMakesTwoGroups(partyCode);
    SecondHouseMakesOne(s, partyCode);
  }

  lemma FirstHouseMakesTwoGroups(partyCode: string)
    requires Trim(partyCode) != "" && !IsHouseGroup(Trim(partyCode))
    ensures var name := Trim(partyCode);
            PartyGroup(State([], [], [], map[], map[], map[]), "NA", partyCode, false)
            == (State([Group(PartiesGroupName("NA"), "party", None), Group(name, "party", Some(0))], [], [],
                      map[PartiesGroupName("NA") := 0, name := 1], map[], map[]),
                Some(1))
  {
    var (empty, name) := (State([], [], [], map[], map[], map[]), Trim(partyCode));
    assert GetHouse(empty, "NA") == (empty, None);
    FirstUmbrella(PartiesGroupName("NA"));
    FirstParty(PartiesGroupName("NA"), name);
  }

  lemma FirstUmbrella(name: string)
    requires name != ""
    ensures GetOrCreateGroup(State([], [], [], map[], map[], map[]), name, None, "party", false)
            == (State([Group(name, "party", None)], [], [], map[name := 0], map[], map[]), Some(0))
  {
    assert [] + [Group(name, "party", None)] == [Group(name, "party", None)];
    assert map[][name := 0] == map[name := 0];
  }

  lemma FirstParty(umbrella: string, name: string)
    requires name != "" && name != umbrella
    ensures GetOrCreateGroup(State([Group(umbrella, "party", None)], [], [], map[umbrella := 0], map[], map[]),
                             name, Some(0), "party", false)
            == (State([Group(umbrella, "party", None), Group(name, "party", Some(0))], [], [],
                      map[umbrella := 0, name := 1], map[], map[]),
                Some(1))
  {
    var (first, second) := (Group(umbrella, "party", None), Group(name, "party", Some(0)));
    assert FirstGroup([first], NamedUnder(name, Some(0))).None?;
    assert [first] + [second] == [first, second];
    assert map[umbrella := 0][name := 1] == map[umbrella := 0, name := 1];
  }

  lemma SecondHouseMakesOne(s: State, partyCode: string)
    requires Trim(partyCode) != "" && Trim(partyCode) in s.groupCache && !IsHouseGroup(Trim(partyCode))
    requires |s.groups| == 2 && PartiesGroupName("NCOP") !in s.groupCache && s.houseCache == map[]
    requires forall i :: 0 <= i < 2 ==> s.groups[i].groupType != "house" && s.groups[i].name != PartiesGroupName("NCOP")
    ensures PartyGroup(s, "NCOP", partyCode, false).1 == Some(s.groupCache[Trim(partyCode)])
    ensures PartyGroup(s, "NCOP", partyCode, false).0.groups
            == s.groups + [Group(PartiesGroupName("NCOP"), "party", None)]
  {
    assert GetHouse(s, "NCOP") == (s, None);
    assert FirstGroup(s.groups, NamedUnder(PartiesGroupName("NCOP"), None)).None?;
  }
}
