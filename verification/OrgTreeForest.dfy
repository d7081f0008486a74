/** When the inferred parents form a forest: exactly when the reporting lines between units have no cycle. */
module OrgTreeForest {
  import opened Common
  import opened OrgTree
  import opened OrgTreeLaws

  /** From a unit to another one. */
  type Edge = (string, string)

  /** The row's person sits in one unit and is supervised from another. */
  ghost predicate CrossesUnits(units: Units, p: Person) {
    IsPlaced(units, p) && ReportsOut(units, units[p.employeeId], p)
  }

  ghost function PairOf(units: Units, p: Person): Edge
    requires CrossesUnits(units, p)
  {
    (units[p.employeeId], units[p.supervisorId])
  }

  /** The reporting lines between units, read off the rows. */
  ghost function ReportingPairs(people: seq<Person>, normalize: string -> string): set<Edge> {
    var units := UnitsOf(people, normalize);
    set p | p in people && CrossesUnits(units, p) :: PairOf(units, p)
  }

  /** The inferred parent of each unit that has one. */
  ghost function ParentEdges(f: Findings): set<Edge> {
    set u | u in f.entries && f.entries[u].parent.Some? :: (u, f.entries[u].parent.value)
  }

  /** Every unit on the path leads to the next. */
  ghost predicate Walk(edges: set<Edge>, path: seq<string>) {
    forall k :: 0 <= k < |path| - 1 ==> (path[k], path[k + 1]) in edges
  }

  /** The path comes back to where it started. */
  ghost predicate Closes(path: seq<string>) {
    |path| >= 2 && path[0] == path[|path| - 1]
  }

  ghost predicate HasCycle(edges: set<Edge>) {
    exists path :: Walk(edges, path) && Closes(path)
  }

  /** Reporting lines join two different units, neither with the empty name. */
  ghost predicate ProperEdges(edges: set<Edge>) {
    forall e :: e in edges ==> e.0 != "" && e.1 != "" && e.0 != e.1
  }

  // ---------------------------------------------------------------- no cycle in, no cycle out

  lemma ReportingPairsAreProper(people: seq<Person>, normalize: string -> string)
    ensures ProperEdges(ReportingPairs(people, normalize))
  {
  }

  /** A parent is always a unit some member reports into. */
  lemma ParentsAreReportingPairs(people: seq<Person>, normalize: string -> string)
    ensures ParentEdges(Infer(people, normalize)) <= ReportingPairs(people, normalize)
  {
    var f := Infer(people, normalize);
    var units := UnitsOf(people, normalize);
    forall u | u in f.entries && f.entries[u].parent.Some?
      ensures (u, f.entries[u].parent.value) in ReportingPairs(people, normalize)
    {
      var c := f.entries[u].parent.value;
      WinnerIsUniqueLeast(people, normalize, u);
      ParentsAreClosed(people, normalize, u);
      VotesAndSpansAreDeclared(people, normalize, u, c);
      var i :| i in VotingRows(people, units, u, c);
      assert people[i] in people && PairOf(units, people[i]) == (u, c);
    }
  }

  lemma FewerEdgesFewerCycles(few: set<Edge>, many: set<Edge>)
    requires few <= many && HasCycle(few)
    ensures HasCycle(many)
  {
    var path :| Walk(few, path) && Closes(path);
    assert Walk(many, path);
  }

  /** Without a cycle a walk meets no unit twice. */
  lemma WalksDoNotRepeat(edges: set<Edge>, path: seq<string>)
    requires !HasCycle(edges) && Walk(edges, path)
    ensures NoRepeats(path)
  {
    forall i, j | 0 <= i < j < |path| ensures path[i] != path[j] {
      if path[i] == path[j] {
        var loop := path[i..j + 1];
        assert Walk(edges, loop) && Closes(loop);
      }
    }
  }

  lemma {:induction false} NoRepeatsFits(path: seq<string>, universe: set<string>)
    requires NoRepeats(path) && forall x :: x in path ==> x in universe
    ensures |path| <= |universe|
  {
    if path != [] {
      var n := |path| - 1;
      assert forall i :: 0 <= i < n ==> path[i] != path[n];
      NoRepeatsFits(path[..n], universe - {path[n]});
    }
  }

  /**
   * Where the reporting lines have no cycle, the parents form a forest: no chain
   * of parents meets a unit twice, and every chain is at most as long as there
   * are units.
   */
  lemma AcyclicReportsGiveForest(people: seq<Person>, normalize: string -> string)
    requires !HasCycle(ReportingPairs(people, normalize))
    ensures var f := Infer(people, normalize);
            && !HasCycle(ParentEdges(f))
            && (forall path :: Walk(ParentEdges(f), path) && path != [] && path[0] in f.entries ==>
                  NoRepeats(path) && |path| <= |f.entries|)
  {
    var f := Infer(people, normalize);
    ParentsAreReportingPairs(people, normalize);
    if HasCycle(ParentEdges(f)) {
      FewerEdgesFewerCycles(ParentEdges(f), ReportingPairs(people, normalize));
    }
    forall path | Walk(ParentEdges(f), path) && path != [] && path[0] in f.entries
      ensures NoRepeats(path) && |path| <= |f.entries|
    {
      WalksDoNotRepeat(ParentEdges(f), path);
      forall k | 0 <= k < |path| ensures path[k] in f.entries {
        if k > 0 {
          assert (path[k - 1], path[k]) in ParentEdges(f);
          ParentsAreClosed(people, normalize, path[k - 1]);
        }
      }
      NoRepeatsFits(path, f.entries.Keys);
    }
  }

  // ---------------------------------------------------------------- any cycle in can come out

  lemma {:induction false} Listed<T>(s: set<T>) returns (l: seq<T>)
    ensures NoRepeats(l) && forall x :: x in l <==> x in s
  {
    if s == {} {
      l := [];
    } else {
      var x :| x in s;
      var rest := Listed(s - {x});
      l := rest + [x];
    }
  }

  /** A cycle that meets each of its units once. */
  ghost predicate SimpleCycle(edges: set<Edge>, path: seq<string>) {
    Walk(edges, path) && Closes(path) && NoRepeats(path[..|path| - 1])
  }

  /** Cut out what lies between two visits, until there are none. */
  lemma {:induction false} CycleHasSimpleOne(edges: set<Edge>, path: seq<string>) returns (q: seq<string>)
    requires Walk(edges, path) && Closes(path)
    ensures SimpleCycle(edges, q)
    decreases |path|
  {
    if NoRepeats(path[..|path| - 1]) {
      q := path;
    } else {
      var i, j :| 0 <= i < j < |path| - 1 && path[i] == path[j];
      var loop := path[i..j + 1];
      assert Walk(edges, loop) && Closes(loop);
      q := CycleHasSimpleOne(edges, loop);
    }
  }

  /** Unit names taken as they are. */
  function AsIs(): string -> string {
    (s: string) => s
  }

  /** One person heads each unit and one more person casts each vote; all of them have ids of their own. */
  function Boss(u: string): Person {
    Person("b" + u, "", "", u)
  }

  function Voter(j: nat, vote: Edge): Person {
    Person(seq(j + 1, _ => 'v'), "b" + vote.1, "", vote.0)
  }

  function Staffed(us: seq<string>, votes: seq<Edge>): (rows: seq<Person>)
    ensures |rows| == |us| + |votes|
    ensures forall i :: 0 <= i < |us| ==> rows[i] == Boss(us[i])
    ensures forall j :: 0 <= j < |votes| ==> rows[|us| + j] == Voter(j, votes[j])
  {
    seq(|us|, i requires 0 <= i < |us| => Boss(us[i]))
    + seq(|votes|, j requires 0 <= j < |votes| => Voter(j, votes[j]))
  }

  ghost predicate DistinctIds(people: seq<Person>) {
    && (forall i :: 0 <= i < |people| ==> people[i].employeeId != "")
    && (forall i, j :: 0 <= i < j < |people| ==> people[i].employeeId != people[j].employeeId)
  }

  lemma StaffedHasDistinctIds(us: seq<string>, votes: seq<Edge>)
    requires NoRepeats(us)
    ensures DistinctIds(Staffed(us, votes))
  {
    var rows := Staffed(us, votes);
    forall i, j | 0 <= i < j < |rows| ensures rows[i].employeeId != rows[j].employeeId {
      if j < |us| {
        assert rows[i].employeeId[1..] == us[i] && rows[j].employeeId[1..] == us[j];
      } else if i < |us| {
        assert rows[j] == Voter(j - |us|, votes[j - |us|]);
        assert rows[i].employeeId[0] == 'b' && rows[j].employeeId[0] == 'v';
      } else {
        assert rows[i] == Voter(i - |us|, votes[i - |us|]) && rows[j] == Voter(j - |us|, votes[j - |us|]);
        assert |rows[i].employeeId| == i - |us| + 1 && |rows[j].employeeId| == j - |us| + 1;
      }
    }
    forall i | 0 <= i < |rows| ensures rows[i].employeeId != "" {
      assert i >= |us| ==> rows[i] == Voter(i - |us|, votes[i - |us|]);
    }
  }

  /** With distinct ids every row places its own person. */
  lemma DistinctIdsPlaceThemselves(people: seq<Person>, normalize: string -> string, i: nat)
    requires DistinctIds(people) && i < |people|
    ensures var units := UnitsOf(people, normalize);
            people[i].employeeId in units && units[people[i].employeeId] == normalize(people[i].parentOrg)
  {
    UnitsComeFromRows(people, normalize, people[i].employeeId);
    assert people[i] in people;
    var p :| p in people && p.employeeId == people[i].employeeId
             && UnitsOf(people, normalize)[people[i].employeeId] == normalize(p.parentOrg);
    var k :| 0 <= k < |people| && people[k] == p;
    assert k == i;
  }

  /** The first n rows report nowhere else; the others cast the given votes, one each. */
  ghost predicate CastsVotes(people: seq<Person>, units: Units, n: nat, votes: seq<Edge>) {
    && |people| == n + |votes|
    && (forall i :: 0 <= i < n ==> !CrossesUnits(units, people[i]))
    && (forall i :: n <= i < |people| ==>
          CrossesUnits(units, people[i]) && PairOf(units, people[i]) == votes[i - n])
  }

  lemma StaffedCastsVotes(us: seq<string>, votes: seq<Edge>)
    requires NoRepeats(us) && forall e :: e in votes ==> e.0 != "" && e.1 != "" && e.0 != e.1 && e.1 in us
    ensures CastsVotes(Staffed(us, votes), UnitsOf(Staffed(us, votes), AsIs()), |us|, votes)
  {
    var rows := Staffed(us, votes);
    var units := UnitsOf(rows, AsIs());
    StaffedHasDistinctIds(us, votes);
    forall i | |us| <= i < |rows|
      ensures CrossesUnits(units, rows[i]) && PairOf(units, rows[i]) == votes[i - |us|]
    {
      var e := votes[i - |us|];
      assert rows[i] == Voter(i - |us|, e) && e in votes;
      var k :| 0 <= k < |us| && us[k] == e.1;
      DistinctIdsPlaceThemselves(rows, AsIs(), i);
      DistinctIdsPlaceThemselves(rows, AsIs(), k);
      assert rows[k] == Boss(e.1);
    }
  }

  lemma PairsAreVotes(people: seq<Person>, normalize: string -> string, n: nat, votes: seq<Edge>)
    requires CastsVotes(people, UnitsOf(people, normalize), n, votes)
    ensures ReportingPairs(people, normalize) == set e | e in votes
  {
    var units := UnitsOf(people, normalize);
    forall e | e in ReportingPairs(people, normalize) ensures e in votes {
      var p :| p in people && CrossesUnits(units, p) && e == PairOf(units, p);
      var i :| 0 <= i < |people| && people[i] == p;
      assert votes[i - n] == e;
    }
    forall e | e in votes ensures e in ReportingPairs(people, normalize) {
      var j :| 0 <= j < |votes| && votes[j] == e;
      assert people[n + j] in people && PairOf(units, people[n + j]) == e;
    }
  }

  /** The voting rows for an edge are the rows that cast it. */
  lemma VotingRowExactly(people: seq<Person>, units: Units, n: nat, votes: seq<Edge>, e: Edge, i: nat)
    requires CastsVotes(people, units, n, votes) && i < |people|
    ensures i in VotingRows(people, units, e.0, e.1) <==> i >= n && votes[i - n] == e
  {
    assert i >= n ==> PairOf(units, people[i]) == votes[i - n];
  }

  lemma SingleVotes(people: seq<Person>, units: Units, n: nat, votes: seq<Edge>, e: Edge)
    requires CastsVotes(people, units, n, votes)
    requires forall k, l :: 0 <= k < l < |votes| && votes[k] == votes[l] ==> votes[k] != e
    ensures |VotingRows(people, units, e.0, e.1)| <= 1
  {
    var theirs := VotingRows(people, units, e.0, e.1);
    forall k, l | k in theirs && l in theirs ensures k == l {
      VotingRowExactly(people, units, n, votes, e, k);
      VotingRowExactly(people, units, n, votes, e, l);
    }
    AtMostOneElement(theirs);
  }

  /** A candidate voted for twice beats candidates with a single vote. */
  lemma TwoVotesWin(people: seq<Person>, normalize: string -> string, n: nat, votes: seq<Edge>, e: Edge, i: nat, j: nat)
    requires CastsVotes(people, UnitsOf(people, normalize), n, votes)
    requires i < j < |votes| && votes[i] == e == votes[j]
    requires forall k, l :: 0 <= k < l < |votes| && votes[k] == votes[l] && votes[k].0 == e.0 ==> votes[k] == e
    ensures var f := Infer(people, normalize);
            e.0 in f.entries && f.entries[e.0].parent == Some(e.1)
  {
    var units := UnitsOf(people, normalize);
    VotingRowExactly(people, units, n, votes, e, n + i);
    VotingRowExactly(people, units, n, votes, e, n + j);
    TwoElements(VotingRows(people, units, e.0, e.1), n + i, n + j);
    forall w | w != e.1 ensures |VotingRows(people, units, e.0, w)| <= 1 {
      SingleVotes(people, units, n, votes, (e.0, w));
    }
    MembersAreRows(people, units, e.0, people[n + i]);
    UnitsHaveMembers(people, units, e.0);
    MostVotedWins(people, normalize, e.0, e.1);
  }

  /** A unit whose votes are all for one candidate. */
  lemma OnlyVoteWins(people: seq<Person>, normalize: string -> string, n: nat, votes: seq<Edge>, i: nat)
    requires CastsVotes(people, UnitsOf(people, normalize), n, votes) && i < |votes|
    requires forall k :: 0 <= k < |votes| && votes[k].0 == votes[i].0 ==> votes[k] == votes[i]
    ensures var f := Infer(people, normalize);
            votes[i].0 in f.entries && f.entries[votes[i].0].parent == Some(votes[i].1)
  {
    var units := UnitsOf(people, normalize);
    var e := votes[i];
    VotingRowExactly(people, units, n, votes, e, n + i);
    forall w | w != e.1 ensures VotingRows(people, units, e.0, w) == {} {
      forall k | k in VotingRows(people, units, e.0, w) ensures false {
        VotingRowExactly(people, units, n, votes, (e.0, w), k);
      }
    }
    assert |VotingRows(people, units, e.0, e.1)| > 0;
    MembersAreRows(people, units, e.0, people[n + i]);
    UnitsHaveMembers(people, units, e.0);
    MostVotedWins(people, normalize, e.0, e.1);
  }

  /** A unit that casts no vote. */
  lemma NoVoteNoParent(people: seq<Person>, normalize: string -> string, n: nat, votes: seq<Edge>, u: string)
    requires CastsVotes(people, UnitsOf(people, normalize), n, votes)
    requires u in Infer(people, normalize).entries && forall k :: 0 <= k < |votes| ==> votes[k].0 != u
    ensures Infer(people, normalize).entries[u].parent == None
  {
    var f := Infer(people, normalize);
    if f.entries[u].parent.Some? {
      var c := f.entries[u].parent.value;
      var units := UnitsOf(people, normalize);
      WinnerIsUniqueLeast(people, normalize, u);
      ParentsAreClosed(people, normalize, u);
      VotesAndSpansAreDeclared(people, normalize, u, c);
      var i :| i in VotingRows(people, units, u, c);
      VotingRowExactly(people, units, n, votes, (u, c), i);
    }
  }

  lemma TwoElements(s: set<nat>, i: nat, j: nat)
    requires i in s && j in s && i != j
    ensures |s| >= 2
  {
    assert s == {i, j} + (s - {i, j});
  }

  lemma AtMostOneElement(s: set<nat>)
    requires forall k, l :: k in s && l in s ==> k == l
    ensures |s| <= 1
  {
    if x :| x in s {
      assert s == {x};
    }
  }

  /** The edges of a path, in order. */
  function Steps(path: seq<string>): (r: seq<Edge>)
    requires path != []
    ensures |r| == |path| - 1 && forall k :: 0 <= k < |r| ==> r[k] == (path[k], path[k + 1])
  {
    seq(|path| - 1, k requires 0 <= k < |path| - 1 => (path[k], path[k + 1]))
  }

  /** Any cycle of reporting lines is the parents' cycle for some rows with exactly these lines, all ids distinct. */
  lemma CycleCanBeInferred(edges: set<Edge>) returns (people: seq<Person>)
    requires ProperEdges(edges) && HasCycle(edges)
    ensures DistinctIds(people) && ReportingPairs(people, AsIs()) == edges
    ensures HasCycle(ParentEdges(Infer(people, AsIs())))
  {
    var some :| Walk(edges, some) && Closes(some);
    var path := CycleHasSimpleOne(edges, some);
    var once := Listed(edges);
    var us := Listed(set e | e in edges :: e.1);
    var votes := once + Steps(path);
    assert forall e :: e in votes <==> e in edges;
    assert (set e | e in once) == edges && (set e | e in votes) == edges;
    people := Staffed(us, votes);
    StaffedHasDistinctIds(us, votes);
    StaffedCastsVotes(us, votes);
    PairsAreVotes(people, AsIs(), |us|, votes);
    CycleIsInferred(people, AsIs(), |us|, once, path);
  }

  /** Where each line has one vote and the lines of a simple cycle a second one, the parents follow the cycle. */
  lemma CycleIsInferred(people: seq<Person>, normalize: string -> string, n: nat, once: seq<Edge>, path: seq<string>)
    requires path != [] && NoRepeats(once) && SimpleCycle((set e | e in once), path)
    requires CastsVotes(people, UnitsOf(people, normalize), n, once + Steps(path))
    ensures HasCycle(ParentEdges(Infer(people, normalize)))
  {
    var f := Infer(people, normalize);
    var votes := once + Steps(path);
    forall k | 0 <= k < |path| - 1 ensures (path[k], path[k + 1]) in ParentEdges(f) {
      var e := (path[k], path[k + 1]);
      assert e in once;
      var i :| 0 <= i < |once| && once[i] == e;
      OnlyCycleEdgesRepeat(path, once, k);
      assert votes[i] == e && votes[|once| + k] == e;
      TwoVotesWin(people, normalize, n, votes, e, i, |once| + k);
    }
    assert Walk(ParentEdges(f), path);
  }

  /** A unit on a simple cycle has one pair that is listed twice: its step of the cycle. */
  lemma OnlyCycleEdgesRepeat(path: seq<string>, once: seq<Edge>, k: nat)
    requires path != [] && NoRepeats(path[..|path| - 1]) && NoRepeats(once) && k < |path| - 1
    ensures var votes := once + Steps(path);
            forall i, j :: 0 <= i < j < |votes| && votes[i] == votes[j] && votes[i].0 == path[k] ==>
                             votes[i] == (path[k], path[k + 1])
  {
    var votes := once + Steps(path);
    forall i, j | 0 <= i < j < |votes| && votes[i] == votes[j] && votes[i].0 == path[k]
      ensures votes[i] == (path[k], path[k + 1])
    {
      assert j >= |once|;
      var m := j - |once|;
      assert votes[j] == Steps(path)[m] == (path[m], path[m + 1]);
      assert path[..|path| - 1][m] == path[..|path| - 1][k];
    }
  }

  /**
   * For a set of reporting lines between units: whoever the people behind them
   * are, the inferred parents have no cycle, exactly when the lines have none.
   */
  lemma ParentsFormForestExactly(edges: set<Edge>)
    requires ProperEdges(edges)
    ensures (forall people, normalize :: ReportingPairs(people, normalize) == edges ==>
                                           !HasCycle(ParentEdges(Infer(people, normalize))))
            <==> !HasCycle(edges)
  {
    if HasCycle(edges) {
      var people := CycleCanBeInferred(edges);
      assert ReportingPairs(people, AsIs()) == edges && HasCycle(ParentEdges(Infer(people, AsIs())));
    } else {
      forall people, normalize | ReportingPairs(people, normalize) == edges
        ensures !HasCycle(ParentEdges(Infer(people, normalize)))
      {
        AcyclicReportsGiveForest(people, normalize);
      }
    }
  }
}
