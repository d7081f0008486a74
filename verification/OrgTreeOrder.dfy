/** When the order of the input rows is immaterial to the inferred tree: exactly when no employee id has two units. */
module OrgTreeOrder {
  import opened Common
  import opened Sorting
  import opened OrgTree
  import opened OrgTreeLaws

  /** Rows that share an employee id agree on its unit. */
  ghost predicate SingleUnit(people: seq<Person>, normalize: string -> string) {
    forall p, q :: p in people && q in people && p.employeeId == q.employeeId && p.employeeId != "" ==>
                     normalize(p.parentOrg) == normalize(q.parentOrg)
  }

  /** Equal but for the order in which candidates and reporters are listed. */
  ghost predicate Agree(a: UnitInference, b: UnitInference) {
    && a.unit == b.unit && a.parent == b.parent && a.members == b.members
    && a.votes == b.votes && a.spans == b.spans
    && (forall c :: c in a.reports <==> c in b.reports)
    && (forall c :: c in a.reports ==> multiset(a.reports[c]) == multiset(b.reports[c]))
  }

  ghost predicate SameFindings(a: Findings, b: Findings) {
    && (forall u :: u in a.entries <==> u in b.entries)
    && (forall u :: u in a.entries ==> Agree(a.entries[u], b.entries[u]))
  }

  // ---------------------------------------------------------------- filters see only the multiset

  lemma {:induction false} MembersMultiset(people: seq<Person>, units: Units, u: string, p: Person)
    ensures multiset(MembersOf(people, units, u))[p] == if Placed(units, p, u) then multiset(people)[p] else 0
  {
    if people != [] {
      MembersMultiset(people[..|people| - 1], units, u, p);
      assert people == people[..|people| - 1] + [people[|people| - 1]];
    }
  }

  /** The rows that name s as supervisor, in order. */
  function Supervised(people: seq<Person>, s: string): seq<Person> {
    if people == [] then []
    else
      var before := Supervised(people[..|people| - 1], s);
      if people[|people| - 1].supervisorId == s then before + [people[|people| - 1]] else before
  }

  lemma {:induction false} SupervisedMultiset(people: seq<Person>, s: string, p: Person)
    ensures multiset(Supervised(people, s))[p] == if p.supervisorId == s then multiset(people)[p] else 0
  {
    if people != [] {
      SupervisedMultiset(people[..|people| - 1], s, p);
      assert people == people[..|people| - 1] + [people[|people| - 1]];
    }
  }

  lemma {:induction false} SpanIsSupervised(people: seq<Person>, s: string)
    ensures SpanOf(people, s) == |Supervised(people, s)|
  {
    if people != [] {
      SpanIsSupervised(people[..|people| - 1], s);
    }
  }

  lemma SpanIgnoresOrder(people: seq<Person>, others: seq<Person>, s: string)
    requires multiset(people) == multiset(others)
    ensures SpanOf(people, s) == SpanOf(others, s)
  {
    forall p ensures multiset(Supervised(people, s))[p] == multiset(Supervised(others, s))[p] {
      SupervisedMultiset(people, s, p);
      SupervisedMultiset(others, s, p);
    }
    SpanIsSupervised(people, s);
    SpanIsSupervised(others, s);
    assert multiset(Supervised(people, s)) == multiset(Supervised(others, s));
    assert |multiset(Supervised(people, s))| == |multiset(Supervised(others, s))|;
  }

  lemma {:induction false} BallotsMultiset(people: seq<Person>, units: Units, u: string, ms: seq<Person>, b: Ballot)
    ensures multiset(Ballots(people, units, u, ms))[b]
            == if ReportsOut(units, u, b.voter) && b == Cast(people, units, b.voter) then multiset(ms)[b.voter] else 0
  {
    if ms != [] {
      BallotsMultiset(people, units, u, ms[..|ms| - 1], b);
      assert ms == ms[..|ms| - 1] + [ms[|ms| - 1]];
    }
  }

  lemma {:induction false} ForMultiset(bs: seq<Ballot>, c: string, b: Ballot)
    ensures multiset(For(bs, c))[b] == if b.candidate == c then multiset(bs)[b] else 0
  {
    if bs != [] {
      ForMultiset(bs[..|bs| - 1], c, b);
      assert bs == bs[..|bs| - 1] + [bs[|bs| - 1]];
    }
  }

  lemma WidestIgnoresOrder(bs: seq<Ballot>, cs: seq<Ballot>)
    requires multiset(bs) == multiset(cs)
    ensures Widest(bs) == Widest(cs)
  {
    WidestBounds(bs);
    WidestBounds(cs);
    forall b ensures b in bs <==> b in cs {
      assert b in multiset(bs) <==> b in multiset(cs);
    }
    assert |multiset(bs)| == |multiset(cs)|;
  }

  function Without<T>(s: seq<T>, k: nat): seq<T>
    requires k < |s|
  {
    s[..k] + s[k + 1..]
  }

  lemma WithoutMultiset<T>(s: seq<T>, k: nat)
    requires k < |s|
    ensures multiset(s) == multiset(Without(s, k)) + multiset{s[k]}
  {
    assert s == s[..k] + [s[k]] + s[k + 1..];
  }

  lemma VoterIdsWithout(bs: seq<Ballot>, k: nat)
    requires k < |bs|
    ensures multiset(VoterIds(bs)) == multiset(VoterIds(Without(bs, k))) + multiset{bs[k].voter.employeeId}
  {
    assert Without(VoterIds(bs), k) == VoterIds(Without(bs, k));
    WithoutMultiset(VoterIds(bs), k);
  }

  lemma {:induction false} VoterIdsIgnoreOrder(bs: seq<Ballot>, cs: seq<Ballot>)
    requires multiset(bs) == multiset(cs)
    ensures multiset(VoterIds(bs)) == multiset(VoterIds(cs))
    decreases |bs|
  {
    assert |multiset(bs)| == |multiset(cs)|;
    if bs != [] {
      assert bs[0] in multiset(cs);
      var k :| 0 <= k < |cs| && cs[k] == bs[0];
      WithoutMultiset(bs, 0);
      WithoutMultiset(cs, k);
      VoterIdsWithout(bs, 0);
      VoterIdsWithout(cs, k);
      assert multiset(Without(bs, 0)) == multiset(bs) - multiset{bs[0]} == multiset(Without(cs, k));
      VoterIdsIgnoreOrder(Without(bs, 0), Without(cs, k));
    }
  }

  // ---------------------------------------------------------------- order is immaterial under SingleUnit

  lemma UnitsIgnoreOrder(people: seq<Person>, others: seq<Person>, normalize: string -> string)
    requires SingleUnit(people, normalize) && multiset(people) == multiset(others)
    ensures UnitsOf(people, normalize) == UnitsOf(others, normalize)
  {
    forall p ensures p in people <==> p in others {
      assert p in multiset(people) <==> p in multiset(others);
    }
    forall id ensures id in UnitsOf(people, normalize) <==> id in UnitsOf(others, normalize) {
      UnitsComeFromRows(people, normalize, id);
      UnitsComeFromRows(others, normalize, id);
    }
    forall id | id in UnitsOf(people, normalize)
      ensures UnitsOf(people, normalize)[id] == UnitsOf(others, normalize)[id]
    {
      UnitsComeFromRows(people, normalize, id);
      UnitsComeFromRows(others, normalize, id);
    }
  }

  /** With the same units, one unit's inference sees only the multiset of rows. */
  lemma InferredIgnoresOrder(people: seq<Person>, others: seq<Person>, units: Units, u: string)
    requires multiset(people) == multiset(others)
    ensures Agree(Inferred(people, units, u), Inferred(others, units, u))
  {
    var ms, ns := MembersOf(people, units, u), MembersOf(others, units, u);
    forall p ensures multiset(ms)[p] == multiset(ns)[p] {
      MembersMultiset(people, units, u, p);
      MembersMultiset(others, units, u, p);
    }
    assert multiset(ms) == multiset(ns);
    assert |multiset(ms)| == |multiset(ns)|;
    var bs, cs := Ballots(people, units, u, ms), Ballots(others, units, u, ns);
    forall b ensures multiset(bs)[b] == multiset(cs)[b] {
      BallotsMultiset(people, units, u, ms, b);
      BallotsMultiset(others, units, u, ns, b);
      SpanIgnoresOrder(people, others, b.voter.supervisorId);
    }
    assert multiset(bs) == multiset(cs);
    CountsIgnoreOrder(bs, cs);
    assert (forall c :: c in Candidates(bs) <==> c in Candidates(cs));
    WinnerIgnoresOrder(Candidates(bs), Candidates(cs), Tally(bs), Spans(bs));
  }

  lemma CountsIgnoreOrder(bs: seq<Ballot>, cs: seq<Ballot>)
    requires multiset(bs) == multiset(cs)
    ensures forall c :: c in Candidates(bs) <==> c in Candidates(cs)
    ensures Tally(bs) == Tally(cs) && Spans(bs) == Spans(cs)
    ensures forall c :: c in Reports(bs) ==> multiset(Reports(bs)[c]) == multiset(Reports(cs)[c])
  {
    forall c
      ensures c in Candidates(bs) <==> c in Candidates(cs)
      ensures |For(bs, c)| == |For(cs, c)| && Widest(For(bs, c)) == Widest(For(cs, c))
      ensures multiset(VoterIds(For(bs, c))) == multiset(VoterIds(For(cs, c)))
    {
      forall b ensures multiset(For(bs, c))[b] == multiset(For(cs, c))[b] {
        ForMultiset(bs, c, b);
        ForMultiset(cs, c, b);
      }
      assert multiset(For(bs, c)) == multiset(For(cs, c));
      assert |multiset(For(bs, c))| == |multiset(For(cs, c))|;
      CandidatesHaveBallots(bs, c);
      CandidatesHaveBallots(cs, c);
      WidestIgnoresOrder(For(bs, c), For(cs, c));
      VoterIdsIgnoreOrder(For(bs, c), For(cs, c));
    }
  }

  lemma WinnerIgnoresOrder(cs: seq<string>, ds: seq<string>, votes: map<string, nat>, spans: map<string, nat>)
    requires forall c :: c in cs <==> c in ds
    ensures Winner(cs, votes, spans) == Winner(ds, votes, spans)
  {
    WinnerWins(cs, votes, spans);
    WinnerWins(ds, votes, spans);
    if cs != [] {
      assert cs[0] in cs;
    }
    if ds != [] {
      assert ds[0] in ds;
    }
  }

  lemma OrderIsImmaterial(people: seq<Person>, others: seq<Person>, normalize: string -> string)
    requires SingleUnit(people, normalize) && multiset(people) == multiset(others)
    ensures SameFindings(Infer(people, normalize), Infer(others, normalize))
  {
    UnitsIgnoreOrder(people, others, normalize);
    var units := UnitsOf(people, normalize);
    forall u ensures u in UnitOrder(people, units) <==> u in UnitOrder(others, units) {
      UnitsHaveMembers(people, units, u);
      UnitsHaveMembers(others, units, u);
      forall p ensures multiset(MembersOf(people, units, u))[p] == multiset(MembersOf(others, units, u))[p] {
        MembersMultiset(people, units, u, p);
        MembersMultiset(others, units, u, p);
      }
      assert multiset(MembersOf(people, units, u)) == multiset(MembersOf(others, units, u));
      assert |multiset(MembersOf(people, units, u))| == |multiset(MembersOf(others, units, u))|;
    }
    forall u | u in UnitOrder(people, units)
      ensures Agree(Inferred(people, units, u), Inferred(others, units, u))
    {
      InferredIgnoresOrder(people, others, units, u);
    }
  }

  // ---------------------------------------------------------------- and material otherwise

  /** Dropping one row leaves every other id's unit alone. */
  lemma {:induction false} DropKeepsOthers(before: seq<Person>, p: Person, rest: seq<Person>,
                                           normalize: string -> string, id: string)
    requires id != p.employeeId
    ensures id in UnitsOf(before + [p] + rest, normalize) <==> id in UnitsOf(before + rest, normalize)
    ensures id in UnitsOf(before + rest, normalize) ==>
              UnitsOf(before + [p] + rest, normalize)[id] == UnitsOf(before + rest, normalize)[id]
  {
    if rest == [] {
      assert before + [p] + rest == before + [p] && before + rest == before;
      assert (before + [p])[..|before|] == before;
    } else {
      var n := |rest| - 1;
      DropKeepsOthers(before, p, rest[..n], normalize, id);
      assert (before + [p] + rest)[..|before + [p] + rest| - 1] == before + [p] + rest[..n];
      assert (before + rest)[..|before + rest| - 1] == before + rest[..n];
    }
  }

  /** The same rows with row i last. */
  function Last(people: seq<Person>, i: nat): seq<Person>
    requires i < |people|
  {
    Without(people, i) + [people[i]]
  }

  /** The same rows, and the last one decides its own id's unit. */
  lemma LastDecides(people: seq<Person>, i: nat, normalize: string -> string)
    requires i < |people| && people[i].employeeId != ""
    ensures multiset(Last(people, i)) == multiset(people)
    ensures people[i].employeeId in UnitsOf(Last(people, i), normalize)
            && UnitsOf(Last(people, i), normalize)[people[i].employeeId] == normalize(people[i].parentOrg)
  {
    WithoutMultiset(people, i);
    var q := Last(people, i);
    assert q[..|q| - 1] == Without(people, i) && q[|q| - 1] == people[i];
  }

  lemma UnitsAppend(people: seq<Person>, p: Person, normalize: string -> string, id: string)
    requires id != p.employeeId
    ensures id in UnitsOf(people + [p], normalize) <==> id in UnitsOf(people, normalize)
    ensures id in UnitsOf(people, normalize) ==> UnitsOf(people + [p], normalize)[id] == UnitsOf(people, normalize)[id]
  {
    assert (people + [p])[..|people|] == people;
  }

  /** Both know the id or neither does, and they agree on it. */
  ghost predicate AgreeOn(a: Units, b: Units, id: string) {
    (id in a <==> id in b) && (id in a ==> a[id] == b[id])
  }

  lemma MovingKeepsOthers(before: seq<Person>, p: Person, rest: seq<Person>, normalize: string -> string, id: string)
    requires id != p.employeeId
    ensures AgreeOn(UnitsOf(before + rest + [p], normalize), UnitsOf(before + [p] + rest, normalize), id)
  {
    DropKeepsOthers(before, p, rest, normalize, id);
    UnitsAppend(before + rest, p, normalize, id);
  }

  /** With row j last its id leaves the unit row i would have put it in, and takes its rows along. */
  lemma ConflictChangesMembers(people: seq<Person>, normalize: string -> string, i: nat, j: nat)
    requires i < |people| && j < |people|
    requires people[i].employeeId == people[j].employeeId != ""
    requires normalize(people[i].parentOrg) != normalize(people[j].parentOrg)
    requires normalize(people[i].parentOrg) != ""
    ensures |MembersOf(Last(people, j), UnitsOf(Last(people, j), normalize), normalize(people[i].parentOrg))|
            < |MembersOf(Last(people, i), UnitsOf(Last(people, i), normalize), normalize(people[i].parentOrg))|
  {
    var id, u := people[i].employeeId, normalize(people[i].parentOrg);
    var a, b := Last(people, i), Last(people, j);
    var ua, ub := UnitsOf(a, normalize), UnitsOf(b, normalize);
    LastDecides(people, i, normalize);
    LastDecides(people, j, normalize);
    var ma, mb := MembersOf(a, ua, u), MembersOf(b, ub, u);
    assert people[..i] + [people[i]] + people[i + 1..] == people;
    assert people[..j] + [people[j]] + people[j + 1..] == people;
    forall p ensures multiset(mb)[p] <= multiset(ma)[p] {
      MembersMultiset(a, ua, u, p);
      MembersMultiset(b, ub, u, p);
      if p.employeeId != id {
        MovingKeepsOthers(people[..i], people[i], people[i + 1..], normalize, p.employeeId);
        MovingKeepsOthers(people[..j], people[j], people[j + 1..], normalize, p.employeeId);
      }
    }
    MembersMultiset(a, ua, u, people[i]);
    MembersMultiset(b, ub, u, people[i]);
    assert people[i] in multiset(people);
    FewerIsSmaller(multiset(mb), multiset(ma), people[i]);
  }

  /** Two rows that put one id in two units: whichever is last decides, and the findings differ. */
  lemma ConflictShows(people: seq<Person>, normalize: string -> string, i: nat, j: nat)
    requires i < |people| && j < |people|
    requires people[i].employeeId == people[j].employeeId != ""
    requires normalize(people[i].parentOrg) != normalize(people[j].parentOrg)
    requires normalize(people[i].parentOrg) != ""
    ensures !(SameFindings(Infer(people, normalize), Infer(Last(people, i), normalize))
              && SameFindings(Infer(people, normalize), Infer(Last(people, j), normalize)))
  {
    var u := normalize(people[i].parentOrg);
    ConflictChangesMembers(people, normalize, i, j);
    EntryIffMembers(Last(people, i), normalize, u);
    EntryIffMembers(Last(people, j), normalize, u);
    EntryIffMembers(people, normalize, u);
  }

  lemma EntryIffMembers(people: seq<Person>, normalize: string -> string, u: string)
    ensures u in Infer(people, normalize).entries <==> MembersOf(people, UnitsOf(people, normalize), u) != []
    ensures u in Infer(people, normalize).entries ==>
              Infer(people, normalize).entries[u].members == |MembersOf(people, UnitsOf(people, normalize), u)|
  {
    UnitsHaveMembers(people, UnitsOf(people, normalize), u);
  }

  lemma FewerIsSmaller<T>(a: multiset<T>, b: multiset<T>, x: T)
    requires a <= b && a[x] < b[x]
    ensures |a| < |b|
  {
    assert b == a + (b - a);
    assert (b - a)[x] > 0;
    assert |b - a| > 0;
  }

  /** The order of the rows is immaterial, for every reordering, exactly when no employee id has two units. */
  lemma OrderIsImmaterialExactly(people: seq<Person>, normalize: string -> string)
    ensures (forall others :: multiset(others) == multiset(people) ==>
                                SameFindings(Infer(people, normalize), Infer(others, normalize)))
            <==> SingleUnit(people, normalize)
  {
    if SingleUnit(people, normalize) {
      forall others | multiset(others) == multiset(people)
        ensures SameFindings(Infer(people, normalize), Infer(others, normalize))
      {
        OrderIsImmaterial(people, others, normalize);
      }
    } else {
      var p, q :| p in people && q in people && p.employeeId == q.employeeId && p.employeeId != ""
                  && normalize(p.parentOrg) != normalize(q.parentOrg);
      var i :| 0 <= i < |people| && people[i] == p;
      var j :| 0 <= j < |people| && people[j] == q;
      LastDecides(people, i, normalize);
      LastDecides(people, j, normalize);
      if normalize(p.parentOrg) != "" {
        ConflictShows(people, normalize, i, j);
      } else {
        ConflictShows(people, normalize, j, i);
      }
    }
  }

  /** One id in two units: whichever row comes last, its unit has both rows and the other unit is missing. */
  lemma LastRowTakesAll(id: string, u: string, v: string)
    requires id != "" && u != v && u != "" && v != ""
    ensures var (a, b, asIs) := (Person(id, "", "", u), Person(id, "", "", v), (s: string) => s);
            && u !in Infer([a, b], asIs).entries && u in Infer([b, a], asIs).entries
            && !SameFindings(Infer([a, b], asIs), Infer([b, a], asIs))
  {
    var (a, b, asIs) := (Person(id, "", "", u), Person(id, "", "", v), (s: string) => s);
    assert [a, b][..1] == [a] && [b, a][..1] == [b];
    var (ab, ba) := (UnitsOf([a, b], asIs), UnitsOf([b, a], asIs));
    assert ab[id] == v && ba[id] == u;
    MembersAreRows([b, a], ba, u, a);
    EntryIffMembers([a, b], asIs, u);
    EntryIffMembers([b, a], asIs, u);
    if MembersOf([a, b], ab, u) != [] {
      MembersAreRows([a, b], ab, u, MembersOf([a, b], ab, u)[0]);
    }
  }
}
