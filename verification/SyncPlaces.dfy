/** Where a row's person ends up: which groups and role, by name, and which membership rows change. */
module SyncPlaces {
  import opened Common
  import opened Acronyms
  import opened Sync
  import opened SyncLaws
  import opened SyncHouses

  // ---------------------------------------------------------------- reading the columns

  ghost predicate Blank(s: string) {
    forall i :: 0 <= i < |s| ==> IsSpace(s[i])
  }

  /** Text that neither begins nor ends with white space. */
  ghost predicate Tight(s: string) {
    s != "" ==> !IsSpace(s[0]) && !IsSpace(s[|s| - 1])
  }

  lemma {:induction false} TrimLeftSkips(pad: string, s: string)
    requires Blank(pad) && (s != "" ==> !IsSpace(s[0]))
    ensures TrimLeft(pad + s) == s
  {
    if pad == "" {
      assert pad + s == s;
    } else {
      assert (pad + s)[1..] == pad[1..] + s;
      TrimLeftSkips(pad[1..], s);
    }
  }

  lemma {:induction false} TrimRightSkips(s: string, pad: string)
    requires Blank(pad) && (s != "" ==> !IsSpace(s[|s| - 1]))
    ensures TrimRight(s + pad) == s
  {
    if pad == "" {
      assert s + pad == s;
    } else {
      assert (s + pad)[..|s + pad| - 1] == s + pad[..|pad| - 1];
      TrimRightSkips(s, pad[..|pad| - 1]);
    }
  }

  lemma {:induction false} TrimLeftShape(s: string) returns (pad: string)
    ensures s == pad + TrimLeft(s) && Blank(pad)
    ensures TrimLeft(s) != "" ==> !IsSpace(TrimLeft(s)[0])
  {
    pad := "";
    if s != "" && IsSpace(s[0]) {
      var inner := TrimLeftShape(s[1..]);
      pad := [s[0]] + inner;
      assert s == [s[0]] + s[1..];
    }
  }

  lemma {:induction false} TrimRightShape(s: string) returns (pad: string)
    ensures s == TrimRight(s) + pad && Blank(pad)
    ensures TrimRight(s) != "" ==> !IsSpace(TrimRight(s)[|TrimRight(s)| - 1]) && TrimRight(s)[0] == s[0]
  {
    pad := "";
    if s != "" && IsSpace(s[|s| - 1]) {
      var n := |s| - 1;
      var inner := TrimRightShape(s[..n]);
      pad := inner + [s[n]];
      assert s == s[..n] + [s[n]];
    }
  }

  /** Trimming takes the white space off both ends, and nothing else. */
  lemma TrimExactly(pad: string, s: string, pad': string)
    requires Blank(pad) && Blank(pad') && Tight(s)
    ensures Trim(pad + s + pad') == s
  {
    if s == "" {
      assert Blank(pad + s + pad');
      TrimLeftSkips(pad + s + pad', "");
      assert pad + s + pad' + "" == pad + s + pad';
    } else {
      assert pad + s + pad' == pad + (s + pad');
      TrimLeftSkips(pad, s + pad');
      TrimRightSkips(s, pad');
    }
  }

  lemma TrimShape(s: string) returns (pad: string, pad': string)
    ensures s == pad + Trim(s) + pad' && Blank(pad) && Blank(pad') && Tight(Trim(s))
  {
    pad := TrimLeftShape(s);
    pad' := TrimRightShape(TrimLeft(s));
  }

  /** The text is the given word in white space. */
  ghost predicate Padded(s: string, word: string) {
    exists pad, pad' :: Blank(pad) && Blank(pad') && s == pad + word + pad'
  }

  lemma TrimmedTo(s: string, word: string)
    requires Tight(word)
    ensures Trim(s) == word <==> Padded(s, word)
  {
    var l, r := TrimShape(s);
    if pad, pad' :| Blank(pad) && Blank(pad') && s == pad + word + pad' {
      TrimExactly(pad, word, pad');
    }
  }

  lemma {:induction false} AfterColon(p: string, rest: string)
    requires ':' !in rest
    ensures AfterLastColon(p + ":" + rest) == rest
  {
    var s := p + ":" + rest;
    if rest == "" {
      assert s[|s| - 1] == ':';
    } else {
      var n := |rest| - 1;
      assert s[..|s| - 1] == p + ":" + rest[..n];
      AfterColon(p, rest[..n]);
      assert rest == rest[..n] + [rest[n]];
    }
  }

  lemma {:induction false} ColonShape(s: string) returns (p: string)
    requires ':' in s
    ensures s == p + ":" + AfterLastColon(s) && ':' !in AfterLastColon(s)
  {
    var n := |s| - 1;
    assert s == s[..n] + [s[n]];
    if s[n] == ':' {
      p := s[..n];
      assert s == p + ":" + "";
    } else {
      p := ColonShape(s[..n]);
    }
  }

  /** The position names the house after its last colon, white space aside. */
  ghost predicate NamesHouse(position: string, code: string) {
    exists p, rest :: position == p + ":" + rest && Padded(rest, code)
  }

  /** The upper house exactly for a position that ends in its code behind a colon; the lower house for all others. */
  lemma HouseCodeExactly(position: string)
    ensures NamesHouse(position, "NCOP") ==> HouseCode(position) == "NCOP"
    ensures !NamesHouse(position, "NCOP") ==> HouseCode(position) == "NA"
  {
    if p, rest :| position == p + ":" + rest && Padded(rest, "NCOP") {
      var pad, pad' :| Blank(pad) && Blank(pad') && rest == pad + "NCOP" + pad';
      assert position[|p|] == ':';
      NoColonIn(pad, "NCOP", pad');
      AfterColon(p, rest);
      TrimmedTo(rest, "NCOP");
    } else if ':' in position {
      var p := ColonShape(position);
      TrimmedTo(AfterLastColon(position), "NCOP");
    }
  }

  lemma NoColonIn(pad: string, code: string, pad': string)
    requires Blank(pad) && Blank(pad') && ':' !in code
    ensures ':' !in pad + code + pad'
  {
    assert !IsSpace(':');
  }

  lemma TrimmedNamesHouse(position: string, code: string)
    requires NamesHouse(Trim(position), code)
    ensures NamesHouse(position, code)
  {
    var l, r := TrimShape(position);
    var p, rest :| Trim(position) == p + ":" + rest && Padded(rest, code);
    PadMore(rest, code, r);
    Regroup(l, p, rest, r);
  }

  lemma PadMore(s: string, word: string, more: string)
    requires Padded(s, word) && Blank(more)
    ensures Padded(s + more, word)
  {
    var pad, pad' :| Blank(pad) && Blank(pad') && s == pad + word + pad';
    assert Blank(pad' + more) && s + more == pad + word + (pad' + more);
  }

  lemma Regroup(l: string, p: string, rest: string, r: string)
    ensures l + (p + ":" + rest) + r == (l + p) + ":" + (rest + r)
  {
  }

  lemma HouseSurvivesTrim(p: string, pad: string, code: string, pad': string)
    requires Blank(pad) && Blank(pad') && Tight(code) && code != ""
    ensures NamesHouse(Trim(p + ":" + (pad + code + pad')), code)
  {
    var q := TrimLeftShape(p);
    var inside := TrimLeft(p) + ":" + (pad + code);
    assert Tight(inside) by {
      assert inside[|inside| - 1] == code[|code| - 1] && !IsSpace(':');
    }
    assert q + inside + pad' == p + ":" + (pad + code + pad');
    TrimExactly(q, inside, pad');
    var none := "";
    assert Blank(none) && pad + code + none == pad + code;
    assert Padded(pad + code, code);
  }

  /** Trimming the column first makes no difference. */
  lemma TrimKeepsHouse(position: string, code: string)
    requires Tight(code) && code != ""
    ensures NamesHouse(Trim(position), code) <==> NamesHouse(position, code)
  {
    if NamesHouse(Trim(position), code) {
      TrimmedNamesHouse(position, code);
    }
    if p, rest :| position == p + ":" + rest && Padded(rest, code) {
      var pad, pad' :| Blank(pad) && Blank(pad') && rest == pad + code + pad';
      HouseSurvivesTrim(p, pad, code, pad');
    }
  }

  /** The same for a row's column. */
  lemma HouseOfExactly(row: OracleRow)
    ensures HouseOf(row) == if NamesHouse(row.positionDesc, "NCOP") then "NCOP" else "NA"
  {
    TrimKeepsHouse(row.positionDesc, "NCOP");
    HouseCodeExactly(Trim(row.positionDesc));
  }

  lemma CodeBehindColon(p: string, pad: string, code: string, pad': string)
    requires Blank(pad) && Blank(pad') && Tight(code) && ':' !in code
    ensures var s := p + ":" + pad + code + pad';
            ':' in s && Trim(AfterLastColon(s)) == code
  {
    var (s, rest) := (p + ":" + pad + code + pad', pad + code + pad');
    assert s == p + ":" + rest && s[|p|] == ':';
    NoColonIn(pad, code, pad');
    AfterColon(p, rest);
    TrimExactly(pad, code, pad');
  }

  /** For instance, with any text before the colon and any white space around the code. */
  lemma PositionsInstance(p: string, pad: string, pad': string)
    requires Blank(pad) && Blank(pad')
    ensures HouseCode(p + ":" + pad + "NCOP" + pad') == "NCOP" && HouseCode(p + ":" + pad + "NA" + pad') == "NA"
  {
    CodeBehindColon(p, pad, "NCOP", pad');
    CodeBehindColon(p, pad, "NA", pad');
  }

  /** Members of Parliament are the rows whose employee type is Member, white space aside. */
  lemma IsMpExactly(row: OracleRow)
    ensures IsMp(row) <==> Padded(row.employeeType, "Member")
  {
    TrimmedTo(row.employeeType, "Member");
  }

  // ---------------------------------------------------------------- what the caches say

  /** Cached names lead to groups, roles and houses of that name; roles up to case folding. */
  ghost predicate Truthful(s: State, h: Helpers) {
    && (forall n :: n in s.groupCache ==> s.groupCache[n] < |s.groups| && s.groups[s.groupCache[n]].name == n)
    && (forall n :: n in s.roleCache ==> s.roleCache[n] < |s.roles| && h.fold(s.roles[s.roleCache[n]]) == h.fold(n))
    && (forall c :: c in s.houseCache ==> s.houseCache[c] < |s.groups|)
  }

  /** Rows are only added. */
  ghost predicate Extends(s: State, t: State) {
    s.groups <= t.groups && s.roles <= t.roles
  }

  lemma RoleIsNamed(s: State, h: Helpers, name: string)
    requires Truthful(s, h)
    ensures var (t, r) := GetOrCreateRole(s, h, name, false);
            && Truthful(t, h) && Extends(s, t) && t.groups == s.groups
            && r.Some? && r.value < |t.roles| && h.fold(t.roles[r.value]) == h.fold(name)
  {
  }

  lemma GroupIsNamed(s: State, h: Helpers, name: string, parent: Option<GroupId>, groupType: string)
    requires Truthful(s, h) && name != ""
    ensures var (t, g) := GetOrCreateGroup(s, name, parent, groupType, false);
            && Truthful(t, h) && Extends(s, t) && t.roles == s.roles
            && g.Some? && g.value < |t.groups| && t.groups[g.value].name == name
            && (name !in s.groupCache ==> t.groups[g.value].parent == parent)
  {
  }

  lemma HouseIsTruthful(s: State, h: Helpers, code: string)
    requires Truthful(s, h)
    ensures var (t, g) := GetHouse(s, code);
            && Truthful(t, h) && Extends(s, t) && t.roles == s.roles && (g.Some? ==> g.value < |t.groups|)
  {
  }

  /** A house not met before is the first group of that name and type, if there is one. */
  lemma HouseIsFound(s: State, code: string)
    requires code !in s.houseCache
    ensures var g := GetHouse(s, code).1;
            && (g.Some? ==> g.value < |s.groups| && s.groups[g.value].groupType == "house"
                            && s.groups[g.value].name
                               == if code == "NCOP" then "National Council of Provinces" else "National Assembly")
            && (g.None? ==> forall x :: x in s.groups && x.groupType == "house" ==>
                              x.name != if code == "NCOP" then "National Council of Provinces" else "National Assembly")
  {
  }

  // ---------------------------------------------------------------- a member's places

  /** The name of the members' group of the row's house. */
  ghost function MembersNameFor(row: OracleRow): string {
    if NamesHouse(row.positionDesc, "NCOP") then "NCOP Members" else "NA Members"
  }

  lemma PartyIsNamed(s: State, h: Helpers, code: string, partyCode: string)
    requires Truthful(s, h)
    ensures var (t, g) := PartyGroup(s, code, partyCode, false);
            && Truthful(t, h) && Extends(s, t) && t.roles == s.roles
            && (g.Some? <==> Trim(partyCode) != "")
            && (g.Some? ==> g.value < |t.groups| && t.groups[g.value].name == Trim(partyCode))
  {
    if Trim(partyCode) != "" {
      HouseIsTruthful(s, h, code);
      var (a, house) := GetHouse(s, code);
      GroupIsNamed(a, h, PartiesGroupName(code), house, "party");
      var (b, parties) := GetOrCreateGroup(a, PartiesGroupName(code), house, "party", false);
      GroupIsNamed(b, h, Trim(partyCode), parties, "party");
    }
  }

  /** The target is a group of that name, in a role of that name up to folding. */
  ghost predicate LeadsTo(s: State, h: Helpers, x: Target, group: string, role: string) {
    && x.group.Some? && x.group.value < |s.groups| && s.groups[x.group.value].name == group
    && x.role.Some? && x.role.value < |s.roles| && h.fold(s.roles[x.role.value]) == h.fold(role)
  }

  lemma LeadsToStill(s: State, t: State, h: Helpers, x: Target, group: string, role: string)
    requires LeadsTo(s, h, x, group, role) && Extends(s, t)
    ensures LeadsTo(t, h, x, group, role)
  {
  }

  /** The role and the members' group, before the party is looked at. */
  lemma MembersTargetIsNamed(s: State, h: Helpers, row: OracleRow)
    requires Truthful(s, h)
    ensures var code := HouseOf(row);
            var (a, role) := GetOrCreateRole(s, h, MP_ROLE, false);
            var (b, house) := GetHouse(a, code);
            var (c, members) := GetOrCreateGroup(b, MembersGroupName(code), house, "administration", false);
            Truthful(c, h) && LeadsTo(c, h, Target(members, role), MembersNameFor(row), "Member of Parliament")
  {
    var code := HouseOf(row);
    HouseOfExactly(row);
    RoleIsNamed(s, h, MP_ROLE);
    var (a, role) := GetOrCreateRole(s, h, MP_ROLE, false);
    HouseIsTruthful(a, h, code);
    var (b, house) := GetHouse(a, code);
    GroupIsNamed(b, h, MembersGroupName(code), house, "administration");
  }

  /**
   * A member's row leads to the members' group of its house and, where a party is
   * given, to a group of the party's name, in the role of a member of Parliament.
   */
  lemma MemberTargetsAreNamed(s: State, h: Helpers, row: OracleRow)
    requires Truthful(s, h)
    ensures var (t, ts) := MpTargets(s, h, row, false);
            && Truthful(t, h)
            && |ts| == (if Padded(row.partyCode, "") then 1 else 2)
            && LeadsTo(t, h, ts[0], MembersNameFor(row), "Member of Parliament")
            && (|ts| == 2 ==> LeadsTo(t, h, ts[1], Trim(row.partyCode), "Member of Parliament"))
  {
    var code := HouseOf(row);
    MembersTargetIsNamed(s, h, row);
    var (a, role) := GetOrCreateRole(s, h, MP_ROLE, false);
    var (b, house) := GetHouse(a, code);
    var (c, members) := GetOrCreateGroup(b, MembersGroupName(code), house, "administration", false);
    PartyIsNamed(c, h, code, row.partyCode);
    var (t, party) := PartyGroup(c, code, row.partyCode, false);
    LeadsToStill(c, t, h, Target(members, role), MembersNameFor(row), "Member of Parliament");
    TrimmedTo(row.partyCode, "");
  }

  /** The members' group, when the service meets it first, sits under the house itself, if that is in the table. */
  lemma MembersSitUnderHouse(s: State, h: Helpers, row: OracleRow)
    requires Truthful(s, h) && MembersNameFor(row) !in s.groupCache && HouseOf(row) !in s.houseCache
    ensures var (t, ts) := MpTargets(s, h, row, false);
            && ts[0].group.Some? && ts[0].group.value < |t.groups|
            && match t.groups[ts[0].group.value].parent
               case Some(x) => x < |t.groups| && t.groups[x] in s.groups
                               && t.groups[x].name == HouseNameFor(row) && t.groups[x].groupType == "house"
               case None => forall g :: g in s.groups && g.groupType == "house" ==> g.name != HouseNameFor(row)
  {
    var code := HouseOf(row);
    HouseOfExactly(row);
    RoleIsNamed(s, h, MP_ROLE);
    var (a, role) := GetOrCreateRole(s, h, MP_ROLE, false);
    RoleLeavesGroups(s, h, MP_ROLE);
    HouseIsFound(a, code);
    HouseIsTruthful(a, h, code);
    HouseLeavesCaches(a, code);
    var (b, house) := GetHouse(a, code);
    GroupIsNamed(b, h, MembersGroupName(code), house, "administration");
    PartyIsNamed(GetOrCreateGroup(b, MembersGroupName(code), house, "administration", false).0, h, code, row.partyCode);
  }

  /** The name of the party umbrella of the row's house. */
  ghost function UmbrellaNameFor(row: OracleRow): string {
    if NamesHouse(row.positionDesc, "NCOP") then "NCOP Parties" else "NA Parties"
  }

  ghost function HouseNameFor(row: OracleRow): string {
    if NamesHouse(row.positionDesc, "NCOP") then "National Council of Provinces" else "National Assembly"
  }

  /** The group sits under the house, or at the top where there is no such house. */
  ghost predicate UnderHouse(gs: seq<Group>, g: Group, house: string) {
    match g.parent
    case Some(x) => x < |gs| && gs[x].name == house && gs[x].groupType == "house"
    case None => forall y :: y in gs && y.groupType == "house" ==> y.name != house
  }

  /** Only a group that is missing is made, and it is made with that name, type and parent. */
  lemma MadeAsAsked(s: State, name: string, parent: Option<GroupId>, groupType: string)
    requires name != "" && name !in s.groupCache
    ensures var (t, g) := GetOrCreateGroup(s, name, parent, groupType, false);
            && t.groupCache == s.groupCache[name := g.value]
            && (t.groups == s.groups
                || (t.groups == s.groups + [Group(name, groupType, parent)] && g == Some(|s.groups|)))
            && (t.groups == s.groups <==> exists x :: x in s.groups && x.name == name && x.parent == parent)
  {
    var g := FirstGroup(s.groups, NamedUnder(name, parent));
    if g.Some? {
      assert s.groups[g.value] in s.groups;
    }
  }

  /** Groups made without the type of a house leave a group under its house, or without one. */
  lemma MoreGroupsKeepHouse(gs: seq<Group>, hs: seq<Group>, g: Group, house: string)
    requires UnderHouse(gs, g, house) && gs <= hs
    requires forall i :: |gs| <= i < |hs| ==> hs[i].groupType != "house"
    ensures UnderHouse(hs, g, house)
  {
    forall y | y in hs && y.groupType == "house" ensures y in gs {
      var i :| 0 <= i < |hs| && hs[i] == y;
      assert hs[i] == gs[i];
    }
  }

  /** No group from position n on is a house. */
  ghost predicate NoNewHouse(gs: seq<Group>, n: nat) {
    forall i :: n <= i < |gs| ==> gs[i].groupType != "house"
  }

  /** A group met for the first time, found or made. */
  lemma NewGroup(s: State, h: Helpers, name: string, parent: Option<GroupId>, groupType: string)
    requires Truthful(s, h) && name != "" && name !in s.groupCache && groupType != "house"
    ensures var (t, g) := GetOrCreateGroup(s, name, parent, groupType, false);
            && Truthful(t, h) && s.groups <= t.groups && NoNewHouse(t.groups, |s.groups|)
            && t.houseCache == s.houseCache
            && g.Some? && g.value < |t.groups|
            && t.groups[g.value].name == name && t.groups[g.value].parent == parent
            && t.groupCache == s.groupCache[name := g.value]
  {
    GroupIsNamed(s, h, name, parent, groupType);
    MadeAsAsked(s, name, parent, groupType);
  }

  /** The group's parent is a row of that name, itself under the house. */
  ghost predicate UnderUmbrella(gs: seq<Group>, g: Group, umbrella: string, house: string) {
    && g.parent.Some? && g.parent.value < |gs|
    && gs[g.parent.value].name == umbrella && UnderHouse(gs, gs[g.parent.value], house)
  }

  /** The umbrella and the party below it, both met for the first time, once the house has been looked up. */
  lemma NewPartyIsPlaced(a: State, h: Helpers, umbrella: string, party: string, top: Option<GroupId>, house: string)
    requires Truthful(a, h) && party != "" && umbrella != "" && party != umbrella
    requires party !in a.groupCache && umbrella !in a.groupCache
    requires UnderHouse(a.groups, Group("", "", top), house)
    ensures var (b, parties) := GetOrCreateGroup(a, umbrella, top, "party", false);
            var (t, g) := GetOrCreateGroup(b, party, parties, "party", false);
            && g.Some? && g.value < |t.groups|
            && t.groups[g.value].name == party && UnderUmbrella(t.groups, t.groups[g.value], umbrella, house)
  {
    NewGroup(a, h, umbrella, top, "party");
    var (b, parties) := GetOrCreateGroup(a, umbrella, top, "party", false);
    NewGroup(b, h, party, parties, "party");
    var t := GetOrCreateGroup(b, party, parties, "party", false).0;
    MoreGroupsKeepHouse(a.groups, t.groups, Group("", "", top), house);
  }

  /** The state in which the party is looked at: role and members' group obtained, the house looked up. */
  ghost function BeforeParty(s: State, h: Helpers, row: OracleRow): State {
    var a := GetOrCreateRole(s, h, MP_ROLE, false).0;
    var (b, house) := GetHouse(a, HouseOf(row));
    GetOrCreateGroup(b, MembersGroupName(HouseOf(row)), house, "administration", false).0
  }

  lemma PartyComesLast(s: State, h: Helpers, row: OracleRow)
    ensures var (t, party) := PartyGroup(BeforeParty(s, h, row), HouseOf(row), row.partyCode, false);
            && MpTargets(s, h, row, false).0 == t
            && (party.Some? ==> |MpTargets(s, h, row, false).1| == 2 && MpTargets(s, h, row, false).1[1].group == party)
  {
  }

  /** The members' group is made, the house is known, and no other name is met yet. */
  lemma ReadyForParty(s: State, h: Helpers, row: OracleRow)
    requires Truthful(s, h) && HouseOf(row) !in s.houseCache && MembersNameFor(row) !in s.groupCache
    ensures var c := BeforeParty(s, h, row);
            && Truthful(c, h) && (forall n :: n in c.groupCache ==> n == MembersNameFor(row) || n in s.groupCache)
            && UnderHouse(c.groups, Group("", "", GetHouse(c, HouseOf(row)).1), HouseNameFor(row))
  {
    var code := HouseOf(row);
    HouseOfExactly(row);
    RoleIsNamed(s, h, MP_ROLE);
    RoleLeavesGroups(s, h, MP_ROLE);
    var (a, role) := GetOrCreateRole(s, h, MP_ROLE, false);
    assert a.houseCache == s.houseCache;
    HouseIsFound(a, code);
    HouseIsTruthful(a, h, code);
    HouseLeavesCaches(a, code);
    var (b, house) := GetHouse(a, code);
    NewGroup(b, h, MembersGroupName(code), house, "administration");
    var c := GetOrCreateGroup(b, MembersGroupName(code), house, "administration", false).0;
    MoreGroupsKeepHouse(a.groups, c.groups, Group("", "", house), HouseNameFor(row));
    HouseStaysFound(c, a, code);
  }

  /** A party met for the first time sits under the umbrella of the row's house, and that under the house. */
  lemma PartySitsUnderUmbrella(s: State, h: Helpers, row: OracleRow)
    requires Truthful(s, h) && !Padded(row.partyCode, "")
    requires Trim(row.partyCode) !in {"NCOP Members", "NA Members", "NCOP Parties", "NA Parties"}
    requires Trim(row.partyCode) !in s.groupCache && HouseOf(row) !in s.houseCache
    requires MembersNameFor(row) !in s.groupCache && UmbrellaNameFor(row) !in s.groupCache
    ensures var (t, ts) := MpTargets(s, h, row, false);
            && |ts| == 2 && ts[1].group.Some? && ts[1].group.value < |t.groups|
            && var party := t.groups[ts[1].group.value];
            && party.name == Trim(row.partyCode)
            && UnderUmbrella(t.groups, party, UmbrellaNameFor(row), HouseNameFor(row))
  {
    HouseOfExactly(row);
    TrimmedTo(row.partyCode, "");
    PartyComesLast(s, h, row);
    ReadyForParty(s, h, row);
    var c := BeforeParty(s, h, row);
    HouseIsTruthful(c, h, HouseOf(row));
    HouseLeavesCaches(c, HouseOf(row));
    var (a, top) := GetHouse(c, HouseOf(row));
    NewPartyIsPlaced(a, h, UmbrellaNameFor(row), Trim(row.partyCode), top, HouseNameFor(row));
  }

  /** A house found once is answered from the cache; one not found is not found among groups that are no houses. */
  lemma HouseStaysFound(c: State, a: State, code: string)
    requires code !in a.houseCache && c.houseCache == GetHouse(a, code).0.houseCache
    requires a.groups <= c.groups && forall i :: |a.groups| <= i < |c.groups| ==> c.groups[i].groupType != "house"
    ensures GetHouse(c, code).1 == GetHouse(a, code).1
  {
    var more := c.groups[|a.groups|..];
    assert c.groups == a.groups + more;
    FirstGroupInPrefix(a.groups, more, HouseNamed(HouseName(code)));
  }

  // ---------------------------------------------------------------- a staff member's places

  lemma FoundRoleIsNamed(s: State, h: Helpers, name: string)
    requires Truthful(s, h)
    ensures var (t, r) := FindRole(s, h, name);
            && Truthful(t, h) && Extends(s, t) && t.groups == s.groups && t.roles == s.roles
            && (r.Some? ==> r.value < |t.roles| && h.fold(t.roles[r.value]) == h.fold(name))
            && (r.None? ==> forall x :: x in s.roles ==> h.fold(x) != h.fold(name))
  {
  }

  /** The role asked for, where it is one for staff and known; else the staff role. */
  lemma StaffRoleIsNamed(s: State, h: Helpers, row: OracleRow)
    requires Truthful(s, h)
    ensures var (t, r) := ResolveStaffRole(s, h, row, false);
            var wanted := h.roleName(row.positionDesc, row.employeeType);
            var known := wanted !in {"", "Member of Parliament"}
                         && exists x :: x in s.roles && h.fold(x) == h.fold(wanted);
            && Truthful(t, h) && Extends(s, t) && t.groups == s.groups
            && r.Some? && r.value < |t.roles|
            && h.fold(t.roles[r.value]) == h.fold(if known then wanted else "Staff Member")
  {
    var name := StaffRoleName(h, row);
    FoundRoleIsNamed(s, h, name);
    var (a, r) := FindRole(s, h, name);
    if r.None? {
      RoleIsNamed(a, h, STAFF_ROLE);
    }
  }

  lemma UnitIsNamed(s: State, h: Helpers, org: string, role: Option<RoleId>)
    requires Truthful(s, h)
    ensures var (t, ts) := UnitTarget(s, h, org, role);
            var name := h.stripPrefix(org);
            && Truthful(t, h) && t.groups == s.groups && t.roles == s.roles
            && |ts| == (if name == "" then 0 else 1)
            && forall x :: x in ts ==>
                 && x.role == role
                 && (x.group.Some? <==> exists g :: g in s.groups && g.name == name)
                 && (x.group.Some? ==> x.group.value < |s.groups| && s.groups[x.group.value].name == name)
  {
  }

  /** The units a staff row names, parent first. */
  function UnitNames(h: Helpers, row: OracleRow): seq<string> {
    var (first, second) := (h.stripPrefix(row.parentOrg), h.stripPrefix(row.childOrg));
    (if first == "" then [] else [first]) + (if second == "" then [] else [second])
  }

  /**
   * A staff row leads to the groups of its parent unit and its own, in that order,
   * each by name; a unit without a group gives a target to be skipped.
   */
  lemma StaffTargetsAreNamed(s: State, h: Helpers, row: OracleRow)
    requires Truthful(s, h)
    ensures var (t, ts) := StaffTargets(s, h, row, false);
            var role := ResolveStaffRole(s, h, row, false).1;
            && Truthful(t, h) && t.groups == s.groups && |ts| == |UnitNames(h, row)|
            && forall i :: 0 <= i < |ts| ==>
                 && ts[i].role == role
                 && (ts[i].group.Some? <==> exists g :: g in s.groups && g.name == UnitNames(h, row)[i])
                 && (ts[i].group.Some? ==> ts[i].group.value < |s.groups|
                                           && s.groups[ts[i].group.value].name == UnitNames(h, row)[i])
  {
    StaffRoleIsNamed(s, h, row);
    var (a, role) := ResolveStaffRole(s, h, row, false);
    UnitIsNamed(a, h, row.parentOrg, role);
    var (b, first) := UnitTarget(a, h, row.parentOrg, role);
    UnitIsNamed(b, h, row.childOrg, role);
    var (c, second) := UnitTarget(b, h, row.childOrg, role);
    if |first| == 1 {
      assert first[0] in first;
    }
    if |second| == 1 {
      assert second[0] in second;
    }
  }

  // ---------------------------------------------------------------- which rows change

  ghost predicate IsTarget(ts: seq<Target>, g: GroupId, r: RoleId) {
    exists t :: t in ts && t == Target(Some(g), Some(r))
  }

  /** The row afterwards is the row before, or the user's own, inactive, for a target, and now active and open-ended. */
  ghost predicate KeptOrReactivated(before: Membership, after: Membership, u: UserId, ts: seq<Target>) {
    after == before
    || (before.user == u && !before.isActive && IsTarget(ts, before.group, before.role)
        && after == before.(isActive := true, end := None))
  }

  /** A row made by the sync: the user's, for a target, active from today and open-ended. */
  ghost predicate MadeToday(m: Membership, u: UserId, ts: seq<Target>, today: Date) {
    IsTarget(ts, m.group, m.role) && m == Membership(u, m.group, m.role, today, None, true)
  }

  lemma MoreTargets(ts: seq<Target>, t: Target)
    ensures forall g, r :: IsTarget(ts, g, r) ==> IsTarget(ts + [t], g, r)
    ensures Resolved(t) ==> IsTarget(ts + [t], t.group.value, t.role.value)
  {
    assert t in ts + [t];
    forall g, r | IsTarget(ts, g, r) ensures IsTarget(ts + [t], g, r) {
      assert Target(Some(g), Some(r)) in ts + [t];
    }
  }

  /** A pass changes the user's own rows for its targets and no others, and adds rows for its targets only. */
  lemma {:induction false} PassTouchesOnlyTargets(ms: seq<Membership>, u: UserId, ts: seq<Target>, today: Date)
    ensures var after := AllEnsured(ms, u, ts, today, false);
            && |ms| <= |after|
            && (forall i :: 0 <= i < |ms| ==> KeptOrReactivated(ms[i], after[i], u, ts))
            && (forall i :: |ms| <= i < |after| ==> MadeToday(after[i], u, ts, today))
  {
    if ts != [] {
      var n := |ts| - 1;
      var t := ts[n];
      PassTouchesOnlyTargets(ms, u, ts[..n], today);
      MoreTargets(ts[..n], t);
      assert ts == ts[..n] + [t];
      var before := AllEnsured(ms, u, ts[..n], today, false);
      if Resolved(t) {
        var after := Ensured(before, u, t.group.value, t.role.value, today);
        forall i | 0 <= i < |ms| ensures KeptOrReactivated(ms[i], after[i], u, ts) {
          assert KeptOrReactivated(ms[i], before[i], u, ts[..n]);
        }
        forall i | |ms| <= i < |after| ensures MadeToday(after[i], u, ts, today) {
          assert i < |before| ==> MadeToday(before[i], u, ts[..n], today);
        }
      }
    }
  }

  /** The rows there were before that the pass changed. */
  ghost function Changed(ms: seq<Membership>, after: seq<Membership>): set<nat>
    requires |ms| <= |after|
  {
    set i: nat | i < |ms| && after[i] != ms[i]
  }

  /** In a real pass, created counts the rows that were added, and updated those that were changed. */
  lemma {:induction false} CountersCountRows(ms: seq<Membership>, u: UserId, ts: seq<Target>, today: Date)
    ensures |ms| <= |AllEnsured(ms, u, ts, today, false)|
    ensures Count(ms, u, ts, today, false).created == |AllEnsured(ms, u, ts, today, false)| - |ms|
    ensures Count(ms, u, ts, today, false).updated == |Changed(ms, AllEnsured(ms, u, ts, today, false))|
  {
    if ts == [] {
      assert Changed(ms, ms) == {};
    } else {
      var n := |ts| - 1;
      CountersCountRows(ms, u, ts[..n], today);
      PassTouchesOnlyTargets(ms, u, ts[..n], today);
      var before := AllEnsured(ms, u, ts[..n], today, false);
      if Resolved(ts[n]) {
        ChangedOneMore(ms, before, u, ts[..n], ts[n].group.value, ts[n].role.value, today);
      }
    }
  }

  lemma ChangedOneMore(ms: seq<Membership>, before: seq<Membership>, u: UserId, ts: seq<Target>, g: GroupId, r: RoleId,
                       today: Date)
    requires |ms| <= |before|
    requires forall i :: 0 <= i < |ms| ==> KeptOrReactivated(ms[i], before[i], u, ts)
    requires forall i :: |ms| <= i < |before| ==> MadeToday(before[i], u, ts, today)
    ensures var after := Ensured(before, u, g, r, today);
            && |after| == |before| + (if Needed(before, u, g, r) == WasCreated then 1 else 0)
            && |Changed(ms, after)|
               == |Changed(ms, before)| + (if Needed(before, u, g, r) == WasReactivated then 1 else 0)
  {
    var k := Latest(before, u, g, r);
    var after := Ensured(before, u, g, r, today);
    if Needed(before, u, g, r) == WasReactivated {
      assert !before[k].isActive;
      assert k < |ms| by {
        assert k >= |ms| ==> MadeToday(before[k], u, ts, today);
      }
      assert KeptOrReactivated(ms[k], before[k], u, ts) && before[k] == ms[k];
      assert Changed(ms, after) == Changed(ms, before) + {k};
    } else {
      assert Changed(ms, after) == Changed(ms, before);
    }
  }

  /** The rows of other users stay as they were, each in its place. */
  lemma OthersAreUntouched(s: State, h: Helpers, u: UserId, row: OracleRow, today: Date, dryRun: bool, i: nat)
    requires i < |s.memberships| && s.memberships[i].user != u
    ensures var t := Synced(s, h, u, row, today, dryRun).0;
            i < |t.memberships| && t.memberships[i] == s.memberships[i]
  {
    TargetsKeepMemberships(s, h, row, dryRun);
    var (t, ts) := Targets(s, h, row, dryRun);
    if dryRun {
      DryRunEnsuresNothing(t.memberships, u, ts, today);
    } else {
      PassTouchesOnlyTargets(t.memberships, u, ts, today);
      assert KeptOrReactivated(t.memberships[i], AllEnsured(t.memberships, u, ts, today, false)[i], u, ts);
    }
  }

  lemma RolesKeepMemberships(s: State, h: Helpers, name: string, fallback: string, dryRun: bool)
    ensures GetOrCreateRole(s, h, name, dryRun).0.memberships == s.memberships
    ensures RoleOr(s, h, name, fallback, dryRun).0.memberships == s.memberships
  {
    var t := FindRole(s, h, name).0;
    assert t.memberships == s.memberships;
    assert FindRole(t, h, fallback).0.memberships == t.memberships;
  }

  lemma GroupsKeepMemberships(s: State, name: string, parent: Option<GroupId>, groupType: string, dryRun: bool)
    ensures GetHouse(s, name).0.memberships == s.memberships
    ensures GetOrCreateGroup(s, name, parent, groupType, dryRun).0.memberships == s.memberships
  {
  }

  lemma PartyKeepsMemberships(s: State, code: string, partyCode: string, dryRun: bool)
    ensures PartyGroup(s, code, partyCode, dryRun).0.memberships == s.memberships
  {
    var (a, house) := GetHouse(s, code);
    GroupsKeepMemberships(s, code, None, "", dryRun);
    GroupsKeepMemberships(a, PartiesGroupName(code), house, "party", dryRun);
    var (b, parties) := GetOrCreateGroup(a, PartiesGroupName(code), house, "party", dryRun);
    GroupsKeepMemberships(b, Trim(partyCode), parties, "party", dryRun);
  }

  lemma MpTargetsKeepMemberships(s: State, h: Helpers, row: OracleRow, dryRun: bool)
    ensures MpTargets(s, h, row, dryRun).0.memberships == s.memberships
  {
    var code := HouseOf(row);
    var (a, role) := GetOrCreateRole(s, h, MP_ROLE, dryRun);
    RolesKeepMemberships(s, h, MP_ROLE, "", dryRun);
    var (b, house) := GetHouse(a, code);
    GroupsKeepMemberships(a, code, None, "", dryRun);
    GroupsKeepMemberships(b, MembersGroupName(code), house, "administration", dryRun);
    var c := GetOrCreateGroup(b, MembersGroupName(code), house, "administration", dryRun).0;
    PartyKeepsMemberships(c, code, row.partyCode, dryRun);
  }

  lemma TargetsKeepMemberships(s: State, h: Helpers, row: OracleRow, dryRun: bool)
    ensures Targets(s, h, row, dryRun).0.memberships == s.memberships
  {
    if IsMp(row) {
      MpTargetsKeepMemberships(s, h, row, dryRun);
    } else {
      RolesKeepMemberships(s, h, StaffRoleName(h, row), STAFF_ROLE, dryRun);
      var (a, role) := ResolveStaffRole(s, h, row, dryRun);
      UnitTouchesNoTable(a, h, row.parentOrg, role);
      UnitTouchesNoTable(UnitTarget(a, h, row.parentOrg, role).0, h, row.childOrg, role);
    }
  }

  // ---------------------------------------------------------------- from row to membership

  /** The user's latest membership for the target is active. */
  lemma PresentMeansActive(ms: seq<Membership>, u: UserId, g: GroupId, r: RoleId) returns (m: Membership)
    requires Needed(ms, u, g, r) == Exists
    ensures m in ms && m.user == u && m.group == g && m.role == r && m.isActive
  {
    m := ms[Latest(ms, u, g, r)];
  }

  /**
   * After a real sync of a member's row, the member has an active membership, as a
   * member of Parliament, in the members' group of the house the position names, and
   * in the group named after the party, if one is given.
   */
  lemma MemberIsPlaced(s: State, h: Helpers, u: UserId, row: OracleRow, today: Date)
    requires Truthful(s, h) && Padded(row.employeeType, "Member")
    ensures var t := Synced(s, h, u, row, today, false).0;
            && Truthful(t, h)
            && HasPlace(t, h, u, MembersNameFor(row), "Member of Parliament")
            && (forall party :: Padded(row.partyCode, party) && Tight(party) && party != "" ==>
                                  HasPlace(t, h, u, party, "Member of Parliament"))
  {
    IsMpExactly(row);
    MemberTargetsAreNamed(s, h, row);
    var (t, ts) := MpTargets(s, h, row, false);
    RealRunMakesAllPresent(t.memberships, u, ts, today);
    var after := AllEnsured(t.memberships, u, ts, today, false);
    var m := PresentMeansActive(after, u, ts[0].group.value, ts[0].role.value);
    var v := t.(memberships := after);
    assert HasPlace(v, h, u, MembersNameFor(row), "Member of Parliament");
    forall party | Padded(row.partyCode, party) && Tight(party) && party != ""
      ensures HasPlace(v, h, u, party, "Member of Parliament")
    {
      TrimmedTo(row.partyCode, party);
      TrimmedTo(row.partyCode, "");
      var n := PresentMeansActive(after, u, ts[1].group.value, ts[1].role.value);
    }
  }

  /** The user has an active membership in a group of that name, in a role of that name up to folding. */
  ghost predicate HasPlace(s: State, h: Helpers, u: UserId, group: string, role: string) {
    exists m :: m in s.memberships && m.user == u && m.isActive
                && m.group < |s.groups| && s.groups[m.group].name == group
                && m.role < |s.roles| && h.fold(s.roles[m.role]) == h.fold(role)
  }
}
