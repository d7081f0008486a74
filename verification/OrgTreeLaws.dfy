/** What the inferred organisational tree promises, for every list of people. */
module OrgTreeLaws {
  import opened Common
  import opened Sorting
  import opened OrgTree

  // ---------------------------------------------------------------- votes and spans, declaratively

  /** The rows that vote for c on behalf of unit u. */
  ghost function VotingRows(people: seq<Person>, units: Units, u: string, c: string): set<nat> {
    set i: nat | i < |people| && Placed(units, people[i], u) && ReportsOut(units, u, people[i])
                 && units[people[i].supervisorId] == c
  }

  /** The rows supervised by s. */
  ghost function SupervisedRows(people: seq<Person>, s: string): set<nat> {
    set i: nat | i < |people| && people[i].supervisorId == s
  }

  lemma {:induction false} SpanCounts(people: seq<Person>, s: string)
    ensures SpanOf(people, s) == |SupervisedRows(people, s)|
  {
    if people != [] {
      var n := |people| - 1;
      SpanCounts(people[..n], s);
      var before := SupervisedRows(people[..n], s);
      assert n !in before;
      assert SupervisedRows(people, s) == if people[n].supervisorId == s then before + {n} else before;
    }
  }

  /** The ballots for c cast on behalf of unit u from the given rows. */
  function BallotsFor(all: seq<Person>, people: seq<Person>, units: Units, u: string, c: string): seq<Ballot> {
    For(Ballots(all, units, u, MembersOf(people, units, u)), c)
  }

  predicate VotesFor(units: Units, u: string, c: string, p: Person) {
    Placed(units, p, u) && ReportsOut(units, u, p) && units[p.supervisorId] == c
  }

  /** The last row adds its ballot, if it votes for c. */
  lemma BallotsForLastRow(all: seq<Person>, people: seq<Person>, units: Units, u: string, c: string)
    requires people != []
    ensures var p := people[|people| - 1];
            var before := BallotsFor(all, people[..|people| - 1], units, u, c);
            BallotsFor(all, people, units, u, c)
            == if VotesFor(units, u, c, p) then before + [Cast(all, units, p)] else before
  {
    var p := people[|people| - 1];
    var ms := MembersOf(people[..|people| - 1], units, u);
    if Placed(units, p, u) {
      OneMoreMember(all, units, u, ms, p);
      if ReportsOut(units, u, p) {
        ForOneMore(Ballots(all, units, u, ms), Cast(all, units, p), c);
      }
    }
  }

  lemma VotingRowsLastRow(people: seq<Person>, units: Units, u: string, c: string)
    requires people != []
    ensures var n := |people| - 1;
            VotingRows(people, units, u, c)
            == VotingRows(people[..n], units, u, c) + if VotesFor(units, u, c, people[n]) then {n} else {}
    ensures |people| - 1 !in VotingRows(people[..|people| - 1], units, u, c)
  {
  }

  /** Ballots for c cast from the first rows correspond one to one with the voting rows among them. */
  lemma {:induction false} VotesCount(all: seq<Person>, people: seq<Person>, units: Units, u: string, c: string)
    ensures |BallotsFor(all, people, units, u, c)| == |VotingRows(people, units, u, c)|
  {
    if people == [] {
      assert VotingRows(people, units, u, c) == {};
    } else {
      VotesCount(all, people[..|people| - 1], units, u, c);
      BallotsForLastRow(all, people, units, u, c);
      VotingRowsLastRow(people, units, u, c);
    }
  }

  /** Every ballot stems from a voting row. */
  lemma {:induction false} BallotHasRow(all: seq<Person>, people: seq<Person>, units: Units, u: string, c: string,
                                        b: Ballot)
    returns (i: nat)
    requires b in BallotsFor(all, people, units, u, c)
    ensures i in VotingRows(people, units, u, c) && b == Cast(all, units, people[i])
  {
    BallotsForLastRow(all, people, units, u, c);
    VotingRowsLastRow(people, units, u, c);
    var n := |people| - 1;
    if b in BallotsFor(all, people[..n], units, u, c) {
      i := BallotHasRow(all, people[..n], units, u, c, b);
    } else {
      i := n;
    }
  }

  /** Every voting row has its ballot. */
  lemma {:induction false} RowHasBallot(all: seq<Person>, people: seq<Person>, units: Units, u: string, c: string,
                                        i: nat)
    requires i in VotingRows(people, units, u, c)
    ensures Cast(all, units, people[i]) in BallotsFor(all, people, units, u, c)
  {
    BallotsForLastRow(all, people, units, u, c);
    VotingRowsLastRow(people, units, u, c);
    if i < |people| - 1 {
      RowHasBallot(all, people[..|people| - 1], units, u, c, i);
    }
  }

  lemma {:induction false} WidestBounds(bs: seq<Ballot>)
    ensures forall b :: b in bs ==> b.span <= Widest(bs)
    ensures bs != [] ==> exists b :: b in bs && b.span == Widest(bs)
  {
    if bs != [] {
      var n := |bs| - 1;
      WidestBounds(bs[..n]);
      assert bs == bs[..n] + [bs[n]];
      assert bs[n] in bs;
    }
  }

  /**
   * The counted dictionaries mean what they should: votes is the number of
   * voting rows, and spans the largest span of control among the supervisors
   * behind them.
   */
  lemma VotesAndSpansAreDeclared(people: seq<Person>, normalize: string -> string, u: string, c: string)
    requires u in Infer(people, normalize).entries
    ensures var inf := Infer(people, normalize).entries[u];
            var rows := VotingRows(people, UnitsOf(people, normalize), u, c);
            && (c in inf.votes <==> rows != {})
            && (c in inf.votes ==>
                  && c in inf.spans
                  && inf.votes[c] == |rows|
                  && (forall i :: i in rows ==> |SupervisedRows(people, people[i].supervisorId)| <= inf.spans[c])
                  && (exists i :: i in rows && |SupervisedRows(people, people[i].supervisorId)| == inf.spans[c]))
  {
    var units := UnitsOf(people, normalize);
    var inf := Inferred(people, units, u);
    var bs := Ballots(people, units, u, MembersOf(people, units, u));
    var rows := VotingRows(people, units, u, c);
    var mine := For(bs, c);
    CandidatesHaveBallots(bs, c);
    VotesCount(people, people, units, u, c);
    WidestBounds(mine);
    forall i | i in rows
      ensures |SupervisedRows(people, people[i].supervisorId)| <= Widest(mine)
    {
      RowHasBallot(people, people, units, u, c, i);
      SpanCounts(people, people[i].supervisorId);
    }
    if c in inf.votes {
      var b :| b in mine && b.span == Widest(mine);
      var i := BallotHasRow(people, people, units, u, c, b);
      SpanCounts(people, people[i].supervisorId);
    }
  }

  // ---------------------------------------------------------------- the winner

  /** Among candidates, the winner outranks every other, and strictly. */
  lemma WinnerIsUniqueLeast(people: seq<Person>, normalize: string -> string, u: string)
    requires u in Infer(people, normalize).entries
    ensures var inf := Infer(people, normalize).entries[u];
            && (inf.parent.None? <==> inf.candidates == [])
            && (inf.parent.Some? ==>
                  && inf.parent.value in inf.candidates
                  && forall c :: c in inf.candidates && c != inf.parent.value ==>
                                   Outranks(inf.votes, inf.spans, inf.parent.value, c)
                                   && !Outranks(inf.votes, inf.spans, c, inf.parent.value))
  {
    var inf := Infer(people, normalize).entries[u];
    WinnerWins(inf.candidates, inf.votes, inf.spans);
  }

  /** More votes win; then the larger span; then the name that comes first. */
  lemma WinnerOnFields(people: seq<Person>, normalize: string -> string, u: string, c: string)
    requires u in Infer(people, normalize).entries
    requires var inf := Infer(people, normalize).entries[u];
             c in inf.candidates && inf.parent != Some(c)
    ensures var inf := Infer(people, normalize).entries[u];
            && inf.parent.Some?
            && var w := inf.parent.value;
            && {w, c} <= inf.votes.Keys && {w, c} <= inf.spans.Keys
            && (|| inf.votes[w] > inf.votes[c]
                || (inf.votes[w] == inf.votes[c] && inf.spans[w] > inf.spans[c])
                || (inf.votes[w] == inf.votes[c] && inf.spans[w] == inf.spans[c] && Precedes(w, c)))
  {
    WinnerIsUniqueLeast(people, normalize, u);
    NameLeqExactly(Infer(people, normalize).entries[u].parent.value, c);
  }

  lemma WinnerWins(cs: seq<string>, votes: map<string, nat>, spans: map<string, nat>)
    ensures Winner(cs, votes, spans).None? <==> cs == []
    ensures Winner(cs, votes, spans).Some? ==>
              && Winner(cs, votes, spans).value in cs
              && forall c :: c in cs && c != Winner(cs, votes, spans).value ==>
                               Outranks(votes, spans, Winner(cs, votes, spans).value, c)
                               && !Outranks(votes, spans, c, Winner(cs, votes, spans).value)
  {
    var leq := Ranking(votes, spans);
    RankingIsOrder(votes, spans);
    SortSorts(cs, leq);
    if cs != [] {
      FirstIsLeast(cs, leq);
      var w := Sort(cs, leq)[0];
      forall c | c in cs && c != w ensures Outranks(votes, spans, w, c) && !Outranks(votes, spans, c, w) {
        assert leq(w, c);
        NameTotal(w, c);
      }
    }
  }

  // ---------------------------------------------------------------- closed and conserved

  lemma {:induction false} UnitsComeFromRows(people: seq<Person>, normalize: string -> string, id: string)
    ensures id in UnitsOf(people, normalize) <==> id != "" && exists p :: p in people && p.employeeId == id
    ensures id in UnitsOf(people, normalize) ==>
              exists p :: p in people && p.employeeId == id && UnitsOf(people, normalize)[id] == normalize(p.parentOrg)
  {
    if people != [] {
      var n := |people| - 1;
      UnitsComeFromRows(people[..n], normalize, id);
      assert people == people[..n] + [people[n]];
      assert people[n] in people;
    }
  }

  lemma {:induction false} MembersAreRows(people: seq<Person>, units: Units, u: string, p: Person)
    ensures p in MembersOf(people, units, u) <==> p in people && Placed(units, p, u)
  {
    if people != [] {
      var n := |people| - 1;
      MembersAreRows(people[..n], units, u, p);
      assert people == people[..n] + [people[n]];
    }
  }

  /** A parent is another unit, it has an inference of its own, and every vote names one reporter. */
  lemma ParentsAreClosed(people: seq<Person>, normalize: string -> string, u: string)
    requires u in Infer(people, normalize).entries
    ensures var f := Infer(people, normalize);
            var inf := f.entries[u];
            && inf.unit == u && u != ""
            && (inf.parent.Some? ==> inf.parent.value != u && inf.parent.value in f.entries)
            && (forall c :: c in inf.votes <==> c in inf.candidates)
            && (forall c :: c in inf.votes ==> c in inf.reports && |inf.reports[c]| == inf.votes[c] && inf.votes[c] > 0)
  {
    var units := UnitsOf(people, normalize);
    var bs := Ballots(people, units, u, MembersOf(people, units, u));
    UnitsHaveMembers(people, units, u);
    MembersAreRows(people, units, u, MembersOf(people, units, u)[0]);
    WinnerWins(Candidates(bs), Tally(bs), Spans(bs));
    forall c | c in Candidates(bs) ensures |For(bs, c)| > 0 {
      CandidatesHaveBallots(bs, c);
    }
    var inf := Infer(people, normalize).entries[u];
    if inf.parent.Some? {
      var c := inf.parent.value;
      CandidatesHaveBallots(bs, c);
      var i := BallotHasRow(people, people, units, u, c, For(bs, c)[0]);
      UnitsComeFromRows(people, normalize, people[i].supervisorId);
      var boss :| boss in people && boss.employeeId == people[i].supervisorId;
      MembersAreRows(people, units, c, boss);
      UnitsHaveMembers(people, units, c);
    }
  }

  function TotalMembers(people: seq<Person>, units: Units, us: seq<string>): nat {
    if us == [] then 0
    else TotalMembers(people, units, us[..|us| - 1]) + |MembersOf(people, units, us[|us| - 1])|
  }

  /** The rows placed in some unit. */
  ghost function PlacedRows(people: seq<Person>, units: Units): set<nat> {
    set i: nat | i < |people| && IsPlaced(units, people[i])
  }

  lemma {:induction false} OnePersonCountsOnce(people: seq<Person>, p: Person, units: Units, us: seq<string>)
    requires NoRepeats(us)
    ensures TotalMembers(people + [p], units, us)
            == TotalMembers(people, units, us)
               + (if IsPlaced(units, p) && units[p.employeeId] in us then 1 else 0)
  {
    if us != [] {
      var n := |us| - 1;
      OnePersonCountsOnce(people, p, units, us[..n]);
      assert us == us[..n] + [us[n]];
      assert (people + [p])[..|people|] == people;
    }
  }

  lemma {:induction false} UnitOrderHasNoRepeats(people: seq<Person>, units: Units)
    ensures NoRepeats(UnitOrder(people, units))
  {
    if people != [] {
      UnitOrderHasNoRepeats(people[..|people| - 1], units);
    }
  }

  predicate IsPlaced(units: Units, p: Person) {
    p.employeeId in units && units[p.employeeId] != ""
  }

  lemma PlacedRowsLastRow(people: seq<Person>, units: Units)
    requires people != []
    ensures |PlacedRows(people, units)|
            == |PlacedRows(people[..|people| - 1], units)| + (if IsPlaced(units, people[|people| - 1]) then 1 else 0)
  {
    var n := |people| - 1;
    var before := PlacedRows(people[..n], units);
    assert PlacedRows(people, units) == before + if IsPlaced(units, people[n]) then {n} else {};
  }

  lemma {:induction false} TotalIsPlaced(people: seq<Person>, units: Units, us: seq<string>)
    requires NoRepeats(us)
    requires forall p :: p in people && IsPlaced(units, p) ==> units[p.employeeId] in us
    ensures TotalMembers(people, units, us) == |PlacedRows(people, units)|
  {
    if people == [] {
      NobodyCountsNothing(units, us);
      assert PlacedRows(people, units) == {};
    } else {
      var n := |people| - 1;
      assert people == people[..n] + [people[n]];
      assert people[n] in people;
      TotalIsPlaced(people[..n], units, us);
      OnePersonCountsOnce(people[..n], people[n], units, us);
      PlacedRowsLastRow(people, units);
    }
  }

  lemma {:induction false} NobodyCountsNothing(units: Units, us: seq<string>)
    ensures TotalMembers([], units, us) == 0
  {
    if us != [] {
      NobodyCountsNothing(units, us[..|us| - 1]);
    }
  }

  /** Every placed row is counted in exactly one unit. */
  lemma MembersAddUp(people: seq<Person>, normalize: string -> string)
    ensures TotalMembers(people, UnitsOf(people, normalize), Infer(people, normalize).order)
            == |PlacedRows(people, UnitsOf(people, normalize))|
  {
    var units := UnitsOf(people, normalize);
    UnitOrderHasNoRepeats(people, units);
    forall p | p in people && IsPlaced(units, p)
      ensures units[p.employeeId] in UnitOrder(people, units)
    {
      MembersAreRows(people, units, units[p.employeeId], p);
      UnitsHaveMembers(people, units, units[p.employeeId]);
    }
    TotalIsPlaced(people, units, UnitOrder(people, units));
  }

  lemma {:induction false} VoterIsBallot(bs: seq<Ballot>, id: string)
    ensures id in VoterIds(bs) <==> exists b :: b in bs && b.voter.employeeId == id
  {
    if id in VoterIds(bs) {
      var k :| 0 <= k < |bs| && VoterIds(bs)[k] == id;
      assert bs[k] in bs;
    }
    if b :| b in bs && b.voter.employeeId == id {
      var k :| 0 <= k < |bs| && bs[k] == b;
      assert VoterIds(bs)[k] == id;
    }
  }

  /** reports[c] names the employees of the rows that vote for c. */
  lemma ReportersAreVoters(people: seq<Person>, normalize: string -> string, u: string, c: string, id: string)
    requires u in Infer(people, normalize).entries && c in Infer(people, normalize).entries[u].candidates
    ensures var inf := Infer(people, normalize).entries[u];
            && c in inf.reports
            && (id in inf.reports[c] <==>
                exists i :: i in VotingRows(people, UnitsOf(people, normalize), u, c) && people[i].employeeId == id)
  {
    var units := UnitsOf(people, normalize);
    var bs := BallotsFor(people, people, units, u, c);
    VoterIsBallot(bs, id);
    if b :| b in bs && b.voter.employeeId == id {
      var i := BallotHasRow(people, people, units, u, c, b);
    }
    if i :| i in VotingRows(people, units, u, c) && people[i].employeeId == id {
      RowHasBallot(people, people, units, u, c, i);
      assert Cast(people, units, people[i]) in bs;
    }
  }

  /** A row votes for c on behalf of u: its person sits in u and is supervised by someone in c, another unit. */
  lemma VotingRowsOnFields(people: seq<Person>, normalize: string -> string, u: string, c: string, i: nat)
    ensures var units := UnitsOf(people, normalize);
            i in VotingRows(people, units, u, c) <==>
            && i < |people| && people[i].employeeId in units && people[i].supervisorId in units
            && units[people[i].employeeId] == u && units[people[i].supervisorId] == c && "" !in {u, c} && u != c
  {
    if i < |people| {
      UnitsComeFromRows(people, normalize, people[i].supervisorId);
    }
  }

  /** The units come in the order of their first members. */
  lemma {:induction false} UnitsInOrderOfAppearance(people: seq<Person>, units: Units, a: nat, b: nat) returns (i: nat)
    requires a < b < |UnitOrder(people, units)|
    ensures i < |people| && Placed(units, people[i], UnitOrder(people, units)[a])
    ensures forall j :: 0 <= j <= i ==> !Placed(units, people[j], UnitOrder(people, units)[b])
  {
    var n := |people| - 1;
    var before := UnitOrder(people[..n], units);
    UnitOrderHasNoRepeats(people, units);
    if b < |before| {
      i := UnitsInOrderOfAppearance(people[..n], units, a, b);
    } else {
      UnitsHaveMembers(people[..n], units, before[a]);
      MembersAreRows(people[..n], units, before[a], MembersOf(people[..n], units, before[a])[0]);
      var p := MembersOf(people[..n], units, before[a])[0];
      var k :| 0 <= k < n && people[..n][k] == p;
      i := k;
      var v := UnitOrder(people, units)[b];
      UnitsHaveMembers(people[..n], units, v);
      forall j | 0 <= j <= i ensures !Placed(units, people[j], v) {
        MembersAreRows(people[..n], units, v, people[j]);
        assert people[..n][j] == people[j];
      }
    }
  }

  // ---------------------------------------------------------------- what is not promised

  /** A candidate with more voting rows than any other is the parent. */
  lemma MostVotedWins(people: seq<Person>, normalize: string -> string, u: string, c: string)
    requires u in Infer(people, normalize).entries
    requires VotingRows(people, UnitsOf(people, normalize), u, c) != {}
    requires forall d :: d != c ==> |VotingRows(people, UnitsOf(people, normalize), u, d)|
                                    < |VotingRows(people, UnitsOf(people, normalize), u, c)|
    ensures Infer(people, normalize).entries[u].parent == Some(c)
  {
    var inf := Infer(people, normalize).entries[u];
    VotesAndSpansAreDeclared(people, normalize, u, c);
    ParentsAreClosed(people, normalize, u);
    WinnerIsUniqueLeast(people, normalize, u);
    assert c in inf.candidates;
    if inf.parent != Some(c) {
      VotesAndSpansAreDeclared(people, normalize, u, inf.parent.value);
    }
  }

  lemma UnitsOfTwo(people: seq<Person>, normalize: string -> string)
    requires |people| == 2 && people[0].employeeId != "" && people[1].employeeId != ""
    requires people[0].employeeId != people[1].employeeId
    ensures UnitsOf(people, normalize) == map[people[0].employeeId := normalize(people[0].parentOrg),
                                              people[1].employeeId := normalize(people[1].parentOrg)]
  {
    assert people[..1][..0] == [];
    assert UnitsOf(people[..1], normalize) == map[people[0].employeeId := normalize(people[0].parentOrg)];
  }

  /** Of two people in different units, only the one reporting to the other votes. */
  lemma LoneVotes(people: seq<Person>, units: Units, i: nat)
    requires |people| == 2 && i < 2
    requires var (me, other) := (people[i], people[1 - i]);
             && me.employeeId in units && other.employeeId in units && me.supervisorId == other.employeeId != ""
             && units[me.employeeId] != units[other.employeeId]
             && "" !in {units[me.employeeId], units[other.employeeId]}
    ensures var (u, c) := (units[people[i].employeeId], units[people[1 - i].employeeId]);
            && i in VotingRows(people, units, u, c)
            && (forall d :: d != c ==> VotingRows(people, units, u, d) == {})
  {
  }

  /** Two people in different units, one reporting to the other: the unit gets the other's as its parent. */
  lemma LoneReportDecides(people: seq<Person>, normalize: string -> string, i: nat)
    requires |people| == 2 && i < 2
    requires var (me, other) := (people[i], people[1 - i]);
             && me.employeeId != "" && other.employeeId != "" && me.employeeId != other.employeeId
             && normalize(me.parentOrg) != normalize(other.parentOrg)
             && "" !in {normalize(me.parentOrg), normalize(other.parentOrg)}
             && me.supervisorId == other.employeeId
    ensures var (f, u) := (Infer(people, normalize), normalize(people[i].parentOrg));
            u in f.entries && f.entries[u].parent == Some(normalize(people[1 - i].parentOrg))
  {
    var (u, c) := (normalize(people[i].parentOrg), normalize(people[1 - i].parentOrg));
    var units := UnitsOf(people, normalize);
    UnitsOfTwo(people, normalize);
    MembersAreRows(people, units, u, people[i]);
    UnitsHaveMembers(people, units, u);
    LoneVotes(people, units, i);
    assert |VotingRows(people, units, u, c)| > 0;
    MostVotedWins(people, normalize, u, c);
  }

  /** One person in each of two units, supervised by the other: each unit gets the other as its parent. */
  lemma ParentsMayFormACycle(x: string, y: string, u: string, v: string)
    requires x != "" && y != "" && x != y && u != "" && v != "" && u != v
    ensures var f := Infer([Person(x, y, "", u), Person(y, x, "", v)], (s: string) => s);
            u in f.entries && v in f.entries && f.entries[u].parent == Some(v) && f.entries[v].parent == Some(u)
  {
    var people := [Person(x, y, "", u), Person(y, x, "", v)];
    var id := (s: string) => s;
    LoneReportDecides(people, id, 0);
    LoneReportDecides(people, id, 1);
  }
}
