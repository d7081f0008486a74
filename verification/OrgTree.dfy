/**
 * The organisational tree the supervisor chain implies: who sits in which unit,
 * how each unit's people vote for a parent unit, which candidate wins, and the
 * comparison of the result with the stored tree.
 */
module OrgTree {
  import opened Common
  import opened Sorting

  datatype Person = Person(employeeId: string, supervisorId: string, childOrg: string, parentOrg: string)

  type Units = map<string, string>

  // ---------------------------------------------------------------- reading the people

  /** Employee id to normalised unit; a later row for the same id wins. */
  function UnitsOf(people: seq<Person>, normalize: string -> string): Units {
    if people == [] then map[]
    else
      var p := people[|people| - 1];
      var before := UnitsOf(people[..|people| - 1], normalize);
      if p.employeeId == "" then before else before[p.employeeId := normalize(p.parentOrg)]
  }

  /** p is placed in unit u. Nobody is placed in the unit with the empty name. */
  predicate Placed(units: Units, p: Person, u: string) {
    p.employeeId in units && units[p.employeeId] == u && u != ""
  }

  function MembersOf(people: seq<Person>, units: Units, u: string): seq<Person> {
    if people == [] then []
    else
      var p := people[|people| - 1];
      var before := MembersOf(people[..|people| - 1], units, u);
      if Placed(units, p, u) then before + [p] else before
  }

  /** Span of control: how many rows name s as supervisor. */
  function SpanOf(people: seq<Person>, s: string): nat {
    if people == [] then 0
    else SpanOf(people[..|people| - 1], s) + (if people[|people| - 1].supervisorId == s then 1 else 0)
  }

  /** One outward reporting line: voter's supervisor sits in candidate, and supervises span people. */
  datatype Ballot = Ballot(voter: Person, candidate: string, span: nat)

  /** The supervisor is known, and sits in a named unit other than u. */
  predicate ReportsOut(units: Units, u: string, p: Person) {
    && p.supervisorId != ""
    && p.supervisorId in units
    && units[p.supervisorId] != ""
    && units[p.supervisorId] != u
  }

  function Cast(people: seq<Person>, units: Units, p: Person): Ballot
    requires p.supervisorId in units
  {
    Ballot(p, units[p.supervisorId], SpanOf(people, p.supervisorId))
  }

  function Ballots(people: seq<Person>, units: Units, u: string, members: seq<Person>): seq<Ballot> {
    if members == [] then []
    else
      var p := members[|members| - 1];
      var before := Ballots(people, units, u, members[..|members| - 1]);
      if ReportsOut(units, u, p) then before + [Cast(people, units, p)] else before
  }

  // ---------------------------------------------------------------- counting ballots

  function For(bs: seq<Ballot>, c: string): seq<Ballot> {
    if bs == [] then []
    else
      var before := For(bs[..|bs| - 1], c);
      if bs[|bs| - 1].candidate == c then before + [bs[|bs| - 1]] else before
  }

  function Widest(bs: seq<Ballot>): nat {
    if bs == [] then 0 else Max(Widest(bs[..|bs| - 1]), bs[|bs| - 1].span)
  }

  function VoterIds(bs: seq<Ballot>): seq<string> {
    seq(|bs|, i requires 0 <= i < |bs| => bs[i].voter.employeeId)
  }

  /** The candidates, in the order of their first ballot. */
  function Candidates(bs: seq<Ballot>): seq<string> {
    if bs == [] then []
    else
      var cs := Candidates(bs[..|bs| - 1]);
      if bs[|bs| - 1].candidate in cs then cs else cs + [bs[|bs| - 1].candidate]
  }

  // ---------------------------------------------------------------- the inference for one unit

  datatype UnitInference = UnitInference(
    unit: string,
    parent: Option<string>,
    members: nat,
    candidates: seq<string>,
    votes: map<string, nat>,
    spans: map<string, nat>,
    reports: map<string, seq<string>>)

  function Lookup(m: map<string, nat>, c: string): nat {
    if c in m then m[c] else 0
  }

  /** The ranking key (-votes, -span, name), compared lexicographically. */
  predicate Outranks(votes: map<string, nat>, spans: map<string, nat>, a: string, b: string) {
    var (va, vb, sa, sb) := (Lookup(votes, a), Lookup(votes, b), Lookup(spans, a), Lookup(spans, b));
    va > vb || (va == vb && (sa > sb || (sa == sb && NameLeq(a, b))))
  }

  function Ranking(votes: map<string, nat>, spans: map<string, nat>): (string, string) -> bool {
    (a, b) => Outranks(votes, spans, a, b)
  }

  lemma RankingIsOrder(votes: map<string, nat>, spans: map<string, nat>)
    ensures TotalPreorder(Ranking(votes, spans))
  {
    var leq := Ranking(votes, spans);
    forall a, b ensures leq(a, b) || leq(b, a) {
      NameTotal(a, b);
    }
    forall a, b, c | leq(a, b) && leq(b, c) ensures leq(a, c) {
      if NameLeq(a, b) && NameLeq(b, c) {
        NameTransitive(a, b, c);
      }
    }
  }

  function Winner(cs: seq<string>, votes: map<string, nat>, spans: map<string, nat>): Option<string> {
    var ranked := Sort(cs, Ranking(votes, spans));
    if ranked == [] then None else Some(ranked[0])
  }

  function Tally(bs: seq<Ballot>): map<string, nat> {
    map c | c in Candidates(bs) :: |For(bs, c)|
  }

  function Spans(bs: seq<Ballot>): map<string, nat> {
    map c | c in Candidates(bs) :: Widest(For(bs, c))
  }

  function Reports(bs: seq<Ballot>): map<string, seq<string>> {
    map c | c in Candidates(bs) :: VoterIds(For(bs, c))
  }

  function Inferred(people: seq<Person>, units: Units, u: string): UnitInference {
    var members := MembersOf(people, units, u);
    var bs := Ballots(people, units, u, members);
    UnitInference(u, Winner(Candidates(bs), Tally(bs), Spans(bs)), |members|,
                  Candidates(bs), Tally(bs), Spans(bs), Reports(bs))
  }

  /** The units that have a member, in the order of their first member. */
  function UnitOrder(people: seq<Person>, units: Units): seq<string> {
    if people == [] then []
    else
      var us := UnitOrder(people[..|people| - 1], units);
      var id := people[|people| - 1].employeeId;
      if id in units && units[id] != "" && units[id] !in us then us + [units[id]] else us
  }

  /** The returned dictionary: its keys in insertion order, and its entries. */
  datatype Findings = Findings(order: seq<string>, entries: map<string, UnitInference>)

  function Infer(people: seq<Person>, normalize: string -> string): Findings {
    var units := UnitsOf(people, normalize);
    var order := UnitOrder(people, units);
    Findings(order, map u | u in order :: Inferred(people, units, u))
  }

  // ---------------------------------------------------------------- the loops

  lemma TakeOneMore<T>(s: seq<T>, i: nat)
    requires i < |s|
    ensures s[..i + 1] == s[..i] + [s[i]]
    ensures s[..i + 1][..i] == s[..i]
  {
  }

  ghost predicate VotesCounted(bs: seq<Ballot>, votes: map<string, nat>) {
    forall c :: (c in votes <==> For(bs, c) != []) && (c in votes ==> votes[c] == |For(bs, c)|)
  }

  ghost predicate SpansCounted(bs: seq<Ballot>, spans: map<string, nat>) {
    forall c :: (c in spans <==> For(bs, c) != []) && (c in spans ==> spans[c] == Widest(For(bs, c)))
  }

  ghost predicate ReportsCounted(bs: seq<Ballot>, reports: map<string, seq<string>>) {
    forall c :: (c in reports <==> For(bs, c) != []) && (c in reports ==> reports[c] == VoterIds(For(bs, c)))
  }

  /** Candidates are exactly the names with a ballot. */
  lemma {:induction false} CandidatesHaveBallots(bs: seq<Ballot>, c: string)
    ensures c in Candidates(bs) <==> For(bs, c) != []
  {
    if bs != [] {
      CandidatesHaveBallots(bs[..|bs| - 1], c);
    }
  }

  lemma ForOneMore(bs: seq<Ballot>, b: Ballot, c: string)
    ensures For(bs + [b], c) == if b.candidate == c then For(bs, c) + [b] else For(bs, c)
  {
    assert (bs + [b])[..|bs|] == bs;
  }

  lemma OneMoreVote(bs: seq<Ballot>, b: Ballot, votes: map<string, nat>)
    requires VotesCounted(bs, votes)
    ensures VotesCounted(bs + [b], votes[b.candidate := Lookup(votes, b.candidate) + 1])
  {
    var after := votes[b.candidate := Lookup(votes, b.candidate) + 1];
    forall c ensures (c in after <==> For(bs + [b], c) != []) && (c in after ==> after[c] == |For(bs + [b], c)|) {
      ForOneMore(bs, b, c);
    }
  }

  lemma WidestOneMore(bs: seq<Ballot>, b: Ballot, c: string)
    ensures Widest(For(bs + [b], c)) == if b.candidate == c then Max(Widest(For(bs, c)), b.span) else Widest(For(bs, c))
  {
    ForOneMore(bs, b, c);
    if b.candidate == c {
      assert (For(bs, c) + [b])[..|For(bs, c)|] == For(bs, c);
    }
  }

  lemma OneMoreSpan(bs: seq<Ballot>, b: Ballot, spans: map<string, nat>)
    requires SpansCounted(bs, spans)
    ensures SpansCounted(bs + [b], spans[b.candidate := Max(Lookup(spans, b.candidate), b.span)])
  {
    var after := spans[b.candidate := Max(Lookup(spans, b.candidate), b.span)];
    forall c ensures c in after <==> For(bs + [b], c) != [] {
      ForOneMore(bs, b, c);
    }
    forall c | c in after ensures after[c] == Widest(For(bs + [b], c)) {
      assert c in spans <==> For(bs, c) != [];
      WidestOneMore(bs, b, c);
    }
  }

  lemma OneMoreReport(bs: seq<Ballot>, b: Ballot, reports: map<string, seq<string>>)
    requires ReportsCounted(bs, reports)
    ensures var mine := if b.candidate in reports then reports[b.candidate] else [];
            ReportsCounted(bs + [b], reports[b.candidate := mine + [b.voter.employeeId]])
  {
    var mine := if b.candidate in reports then reports[b.candidate] else [];
    var after := reports[b.candidate := mine + [b.voter.employeeId]];
    forall c
      ensures (c in after <==> For(bs + [b], c) != []) && (c in after ==> after[c] == VoterIds(For(bs + [b], c)))
    {
      ForOneMore(bs, b, c);
      assert VoterIds(For(bs, c) + [b]) == VoterIds(For(bs, c)) + [b.voter.employeeId];
    }
  }

  /** The candidates in insertion order and the three dictionaries, as the loop has filled them. */
  datatype Count = Count(candidates: seq<string>, votes: map<string, nat>, spans: map<string, nat>,
                         reports: map<string, seq<string>>)

  function CountOne(k: Count, c: string, width: nat, voter: string): Count {
    Count(if c in k.candidates then k.candidates else k.candidates + [c],
          k.votes[c := Lookup(k.votes, c) + 1],
          k.spans[c := Max(Lookup(k.spans, c), width)],
          k.reports[c := (if c in k.reports then k.reports[c] else []) + [voter]])
  }

  function CountAll(bs: seq<Ballot>): Count {
    if bs == [] then Count([], map[], map[], map[])
    else
      var b := bs[|bs| - 1];
      CountOne(CountAll(bs[..|bs| - 1]), b.candidate, b.span, b.voter.employeeId)
  }

  lemma CountOneMore(bs: seq<Ballot>, b: Ballot)
    ensures CountAll(bs + [b]) == CountOne(CountAll(bs), b.candidate, b.span, b.voter.employeeId)
  {
    assert (bs + [b])[..|bs|] == bs;
  }

  lemma {:induction false} CountAllCounts(bs: seq<Ballot>)
    ensures CountAll(bs).candidates == Candidates(bs) && VotesCounted(bs, CountAll(bs).votes)
    ensures SpansCounted(bs, CountAll(bs).spans) && ReportsCounted(bs, CountAll(bs).reports)
  {
    if bs != [] {
      var (before, b) := (bs[..|bs| - 1], bs[|bs| - 1]);
      var k := CountAll(before);
      CountAllCounts(before);
      assert before + [b] == bs;
      OneMoreVote(before, b, k.votes);
      OneMoreSpan(before, b, k.spans);
      OneMoreReport(before, b, k.reports);
    }
  }

  lemma VotesAreTally(bs: seq<Ballot>, votes: map<string, nat>)
    requires VotesCounted(bs, votes)
    ensures votes == Tally(bs)
  {
    forall c ensures c in votes <==> c in Candidates(bs) {
      CandidatesHaveBallots(bs, c);
    }
  }

  lemma SpansAreWidest(bs: seq<Ballot>, spans: map<string, nat>)
    requires SpansCounted(bs, spans)
    ensures spans == Spans(bs)
  {
    forall c ensures c in spans <==> c in Candidates(bs) {
      CandidatesHaveBallots(bs, c);
    }
  }

  lemma ReportsAreVoters(bs: seq<Ballot>, reports: map<string, seq<string>>)
    requires ReportsCounted(bs, reports)
    ensures reports == Reports(bs)
  {
    forall c ensures c in reports <==> c in Candidates(bs) {
      CandidatesHaveBallots(bs, c);
    }
  }

  /** Filling the dictionaries ballot by ballot gives the definitions by filtering. */
  lemma CountedDictionaries(bs: seq<Ballot>)
    ensures CountAll(bs) == Count(Candidates(bs), Tally(bs), Spans(bs), Reports(bs))
  {
    CountAllCounts(bs);
    VotesAreTally(bs, CountAll(bs).votes);
    SpansAreWidest(bs, CountAll(bs).spans);
    ReportsAreVoters(bs, CountAll(bs).reports);
  }

  /** What a unit's finished count says about it. */
  function FromCount(u: string, members: seq<Person>, k: Count): UnitInference {
    UnitInference(u, Winner(k.candidates, k.votes, k.spans), |members|, k.candidates, k.votes, k.spans, k.reports)
  }

  lemma CountingInfers(people: seq<Person>, units: Units, u: string)
    ensures var members := MembersOf(people, units, u);
            FromCount(u, members, CountAll(Ballots(people, units, u, members))) == Inferred(people, units, u)
  {
    CountedDictionaries(Ballots(people, units, u, MembersOf(people, units, u)));
  }

  /** A member who reports inside the unit, or to nobody known, casts no ballot. */
  lemma OneMoreMember(people: seq<Person>, units: Units, u: string, members: seq<Person>, p: Person)
    ensures Ballots(people, units, u, members + [p])
            == if ReportsOut(units, u, p) then Ballots(people, units, u, members) + [Cast(people, units, p)]
               else Ballots(people, units, u, members)
  {
    assert (members + [p])[..|members|] == members;
  }

  /** One outward report enters all the dictionaries. */
  method CountReport(candidates: seq<string>, votes: map<string, nat>, spans: map<string, nat>,
                     reports: map<string, seq<string>>, c: string, width: nat, voter: string)
    returns (candidates': seq<string>, votes': map<string, nat>, spans': map<string, nat>,
             reports': map<string, seq<string>>)
    ensures Count(candidates', votes', spans', reports')
            == CountOne(Count(candidates, votes, spans, reports), c, width, voter)
  {
    candidates' := candidates;
    if c !in candidates {
      candidates' := candidates + [c];
    }
    votes' := votes[c := Lookup(votes, c) + 1];
    spans' := spans[c := Max(Lookup(spans, c), width)];
    reports' := reports[c := (if c in reports then reports[c] else []) + [voter]];
  }

  /** The vote loop of one unit, over dictionaries filled in place. */
  method CountVotes(unitOf: Units, span: map<string, nat>, u: string, members: seq<Person>, ghost people: seq<Person>)
    returns (inference: UnitInference)
    requires forall s :: s != "" ==> Lookup(span, s) == SpanOf(people, s)
    ensures inference == FromCount(u, members, CountAll(Ballots(people, unitOf, u, members)))
  {
    var candidates: seq<string> := [];
    var votes: map<string, nat> := map[];
    var spans: map<string, nat> := map[];
    var reports: map<string, seq<string>> := map[];
    ghost var bs: seq<Ballot> := [];
    for i := 0 to |members|
      invariant bs == Ballots(people, unitOf, u, members[..i])
      invariant Count(candidates, votes, spans, reports) == CountAll(bs)
    {
      var member := members[i];
      TakeOneMore(members, i);
      OneMoreMember(people, unitOf, u, members[..i], member);
      var supervisor := member.supervisorId;
      if supervisor == "" {
        continue;
      }
      if supervisor !in unitOf || unitOf[supervisor] == "" || unitOf[supervisor] == u {
        continue;
      }
      ghost var b := Cast(people, unitOf, member);
      CountOneMore(bs, b);
      bs := bs + [b];
      candidates, votes, spans, reports := CountReport(
        candidates, votes, spans, reports, unitOf[supervisor], Lookup(span, supervisor), member.employeeId);
    }
    assert members[..|members|] == members;
    var parent := Winner(candidates, votes, spans);
    inference := UnitInference(u, parent, |members|, candidates, votes, spans, reports);
  }

  /** The dictionary of member lists, with its keys in insertion order. */
  ghost predicate Grouped(people: seq<Person>, units: Units, order: seq<string>, membersOf: map<string, seq<Person>>) {
    && order == UnitOrder(people, units)
    && (forall u :: u in membersOf <==> u in order)
    && (forall u :: u in membersOf ==> membersOf[u] == MembersOf(people, units, u))
  }

  lemma {:induction false} UnitsHaveMembers(people: seq<Person>, units: Units, u: string)
    ensures u in UnitOrder(people, units) <==> MembersOf(people, units, u) != []
  {
    if people != [] {
      UnitsHaveMembers(people[..|people| - 1], units, u);
    }
  }

  lemma MembersOneMore(people: seq<Person>, p: Person, units: Units, u: string)
    ensures MembersOf(people + [p], units, u)
            == if Placed(units, p, u) then MembersOf(people, units, u) + [p] else MembersOf(people, units, u)
  {
    assert (people + [p])[..|people|] == people;
  }

  lemma UnitOrderOneMore(people: seq<Person>, p: Person, units: Units)
    ensures UnitOrder(people + [p], units)
            == if p.employeeId in units && units[p.employeeId] != "" && units[p.employeeId] !in UnitOrder(people, units)
               then UnitOrder(people, units) + [units[p.employeeId]] else UnitOrder(people, units)
  {
    assert (people + [p])[..|people|] == people;
  }

  lemma OneMorePerson(people: seq<Person>, p: Person, units: Units, order: seq<string>,
                      membersOf: map<string, seq<Person>>)
    requires Grouped(people, units, order, membersOf)
    requires p.employeeId in units && units[p.employeeId] != ""
    ensures var u := units[p.employeeId];
            Grouped(people + [p], units, if u in order then order else order + [u],
                    membersOf[u := (if u in membersOf then membersOf[u] else []) + [p]])
  {
    var u := units[p.employeeId];
    UnitsHaveMembers(people, units, u);
    UnitOrderOneMore(people, p, units);
    var after := membersOf[u := (if u in membersOf then membersOf[u] else []) + [p]];
    forall v | v in after ensures after[v] == MembersOf(people + [p], units, v) {
      MembersOneMore(people, p, units, v);
    }
  }

  lemma OneMoreUnplaced(people: seq<Person>, p: Person, units: Units, order: seq<string>,
                        membersOf: map<string, seq<Person>>)
    requires Grouped(people, units, order, membersOf)
    requires !(p.employeeId in units && units[p.employeeId] != "")
    ensures Grouped(people + [p], units, order, membersOf)
  {
    UnitOrderOneMore(people, p, units);
    forall v | v in membersOf ensures membersOf[v] == MembersOf(people + [p], units, v) {
      MembersOneMore(people, p, units, v);
    }
  }

  method InferUnitParents(people: seq<Person>, normalize: string -> string) returns (inferences: Findings)
    ensures inferences == Infer(people, normalize)
  {
    var unitOf := ReadUnits(people, normalize);
    var span := CountSpans(people);
    var order, membersOf := GroupMembers(people, unitOf);
    var entries := InferEach(people, unitOf, span, order, membersOf);
    inferences := Findings(order, entries);
  }

  method ReadUnits(people: seq<Person>, normalize: string -> string) returns (unitOf: Units)
    ensures unitOf == UnitsOf(people, normalize)
  {
    unitOf := map[];
    for i := 0 to |people|
      invariant unitOf == UnitsOf(people[..i], normalize)
    {
      TakeOneMore(people, i);
      if people[i].employeeId != "" {
        unitOf := unitOf[people[i].employeeId := normalize(people[i].parentOrg)];
      }
    }
    assert people[..|people|] == people;
  }

  method InferUnit(unitOf: Units, span: map<string, nat>, u: string, members: seq<Person>, ghost people: seq<Person>)
    returns (inference: UnitInference)
    requires forall s :: s != "" ==> Lookup(span, s) == SpanOf(people, s)
    requires members == MembersOf(people, unitOf, u)
    ensures inference == Inferred(people, unitOf, u)
  {
    CountingInfers(people, unitOf, u);
    inference := CountVotes(unitOf, span, u, members, people);
  }

  method InferEach(ghost people: seq<Person>, unitOf: Units, span: map<string, nat>, order: seq<string>,
                   membersOf: map<string, seq<Person>>)
    returns (entries: map<string, UnitInference>)
    requires forall s :: s != "" ==> Lookup(span, s) == SpanOf(people, s)
    requires Grouped(people, unitOf, order, membersOf)
    ensures forall u :: u in entries <==> u in order
    ensures forall u :: u in entries ==> entries[u] == Inferred(people, unitOf, u)
  {
    entries := map[];
    for i := 0 to |order|
      invariant forall u :: u in entries <==> u in order[..i]
      invariant forall u :: u in entries ==> entries[u] == Inferred(people, unitOf, u)
    {
      TakeOneMore(order, i);
      assert order[i] in order;
      var inference := InferUnit(unitOf, span, order[i], membersOf[order[i]], people);
      entries := entries[order[i] := inference];
    }
    assert order[..|order|] == order;
  }

  method CountSpans(people: seq<Person>) returns (span: map<string, nat>)
    ensures forall s :: s != "" ==> Lookup(span, s) == SpanOf(people, s)
  {
    span := map[];
    for i := 0 to |people|
      invariant forall s :: s != "" ==> Lookup(span, s) == SpanOf(people[..i], s)
    {
      TakeOneMore(people, i);
      var s := people[i].supervisorId;
      if s != "" {
        span := span[s := Lookup(span, s) + 1];
      }
    }
    assert people[..|people|] == people;
  }

  method GroupMembers(people: seq<Person>, unitOf: Units)
    returns (order: seq<string>, membersOf: map<string, seq<Person>>)
    ensures Grouped(people, unitOf, order, membersOf)
  {
    order, membersOf := [], map[];
    for i := 0 to |people|
      invariant Grouped(people[..i], unitOf, order, membersOf)
    {
      TakeOneMore(people, i);
      var p := people[i];
      if p.employeeId !in unitOf || unitOf[p.employeeId] == "" {
        OneMoreUnplaced(people[..i], p, unitOf, order, membersOf);
        continue;
      }
      OneMorePerson(people[..i], p, unitOf, order, membersOf);
      var unit := unitOf[p.employeeId];
      if unit !in order {
        order := order + [unit];
      }
      membersOf := membersOf[unit := (if unit in membersOf then membersOf[unit] else []) + [p]];
    }
    assert people[..|people|] == people;
  }
}
