/** Confidence in an inferred parent, the parent map callers act on, and the comparison with the stored tree. */
module OrgTreeCompare {
  import opened Common
  import opened Sorting
  import opened OrgTree
  import opened OrgTreeLaws
  import opened OrgTreeForest

  // ---------------------------------------------------------------- ties and confidence

  type Score = (int, int)

  function ScoreOf(inf: UnitInference, c: string): Score {
    var (votes: int, span: int) := (Lookup(inf.votes, c), Lookup(inf.spans, c));
    (-votes, -span)
  }

  predicate ScoreLeq(a: Score, b: Score) {
    a.0 < b.0 || (a.0 == b.0 && a.1 <= b.1)
  }

  function Scores(inf: UnitInference, cs: seq<string>): (r: seq<Score>)
    ensures |r| == |cs| && forall i :: 0 <= i < |cs| ==> r[i] == ScoreOf(inf, cs[i])
  {
    seq(|cs|, i requires 0 <= i < |cs| => ScoreOf(inf, cs[i]))
  }

  /** The two best scores are equal. */
  predicate Tied(inf: UnitInference) {
    var sorted := Sort(Scores(inf, inf.candidates), ScoreLeq);
    |inf.candidates| >= 2 && |sorted| >= 2 && sorted[0] == sorted[1]
  }

  function MostVotes(inf: UnitInference, cs: seq<string>): nat {
    if cs == [] then 0 else Max(Lookup(inf.votes, cs[0]), MostVotes(inf, cs[1..]))
  }

  predicate LowConfidence(inf: UnitInference) {
    inf.candidates != [] && MostVotes(inf, inf.candidates) < 2
  }

  lemma ScoresAreOrdered()
    ensures TotalPreorder(ScoreLeq)
  {
  }

  lemma {:induction false} CandidatesHaveNoRepeats(bs: seq<Ballot>)
    ensures NoRepeats(Candidates(bs))
  {
    if bs != [] {
      CandidatesHaveNoRepeats(bs[..|bs| - 1]);
    }
  }

  /** A value occurs at two positions exactly when it is counted at least twice. */
  lemma {:induction false} TwiceMeansTwoPlaces<T>(s: seq<T>, x: T)
    ensures multiset(s)[x] >= 2 <==> exists i, j :: 0 <= i < j < |s| && s[i] == x && s[j] == x
  {
    if s != [] {
      var n := |s| - 1;
      assert s == s[..n] + [s[n]];
      TwiceMeansTwoPlaces(s[..n], x);
      if s[n] == x && multiset(s)[x] >= 2 && multiset(s[..n])[x] < 2 {
        assert x in multiset(s[..n]);
        var i :| 0 <= i < n && s[i] == x;
      }
      if i, j :| 0 <= i < j < |s| && s[i] == x && s[j] == x {
        if j < n {
          assert s[..n][i] == x && s[..n][j] == x;
        } else {
          assert s[..n][i] == x;
          assert x in multiset(s[..n]);
        }
      }
    }
  }

  /** c is another candidate with the winner's votes and the winner's span. */
  predicate Rival(inf: UnitInference, c: string) {
    && inf.parent.Some? && c in inf.candidates && c != inf.parent.value
    && Lookup(inf.votes, c) == Lookup(inf.votes, inf.parent.value)
    && Lookup(inf.spans, c) == Lookup(inf.spans, inf.parent.value)
  }

  /** tied: some other candidate has the winner's votes and the winner's span. */
  lemma TiedExactly(people: seq<Person>, normalize: string -> string, u: string)
    requires u in Infer(people, normalize).entries
    ensures var inf := Infer(people, normalize).entries[u];
            Tied(inf) <==> exists c :: Rival(inf, c)
  {
    var inf := Infer(people, normalize).entries[u];
    var units := UnitsOf(people, normalize);
    CandidatesHaveNoRepeats(Ballots(people, units, u, MembersOf(people, units, u)));
    WinnerWins(inf.candidates, inf.votes, inf.spans);
    TiedMeansRival(inf);
  }

  lemma TiedMeansRival(inf: UnitInference)
    requires NoRepeats(inf.candidates) && (inf.candidates != [] ==> HasWinner(inf))
    ensures Tied(inf) <==> exists c :: Rival(inf, c)
  {
    if Tied(inf) {
      var c := TieHasRival(inf);
    }
    if c :| Rival(inf, c) {
      RivalTies(inf, c);
    }
  }

  ghost predicate HasWinner(inf: UnitInference) {
    && NoRepeats(inf.candidates)
    && inf.parent.Some? && inf.parent.value in inf.candidates
    && forall c :: c in inf.candidates && c != inf.parent.value ==> Outranks(inf.votes, inf.spans, inf.parent.value, c)
  }

  /** Sorted scores begin with two equal ones when their best is there twice. */
  lemma BestTwiceIsFirstTwo(sorted: seq<Score>, best: Score)
    requires Ordered(sorted, ScoreLeq) && sorted != [] && sorted[0] == best && multiset(sorted)[best] >= 2
    ensures |sorted| >= 2 && sorted[1] == best
  {
    TwiceMeansTwoPlaces(sorted, best);
    var i, j :| 0 <= i < j < |sorted| && sorted[i] == best && sorted[j] == best;
    assert ScoreLeq(sorted[0], sorted[1]);
    assert j > 1 ==> ScoreLeq(sorted[1], sorted[j]);
  }

  lemma RivalScoresTwice(inf: UnitInference, c: string)
    requires HasWinner(inf) && Rival(inf, c)
    ensures multiset(Scores(inf, inf.candidates))[ScoreOf(inf, inf.parent.value)] >= 2
  {
    var cs, w := inf.candidates, inf.parent.value;
    var scores, best := Scores(inf, cs), ScoreOf(inf, w);
    var k :| 0 <= k < |cs| && cs[k] == w;
    var l :| 0 <= l < |cs| && cs[l] == c;
    assert scores[Min(k, l)] == best && scores[Max(k, l)] == best;
    TwiceMeansTwoPlaces(scores, best);
  }

  lemma RivalTies(inf: UnitInference, c: string)
    requires HasWinner(inf) && Rival(inf, c)
    ensures Tied(inf)
  {
    var scores, best := Scores(inf, inf.candidates), ScoreOf(inf, inf.parent.value);
    RivalScoresTwice(inf, c);
    ScoresAreOrdered();
    SortSorts(scores, ScoreLeq);
    BestIsFirst(inf);
    BestTwiceIsFirstTwo(Sort(scores, ScoreLeq), best);
  }

  lemma TieHasRival(inf: UnitInference) returns (c: string)
    requires NoRepeats(inf.candidates) && (inf.candidates != [] ==> HasWinner(inf)) && Tied(inf)
    ensures Rival(inf, c)
  {
    var cs, w := inf.candidates, inf.parent.value;
    var scores, best := Scores(inf, cs), ScoreOf(inf, w);
    var sorted := Sort(scores, ScoreLeq);
    SortSorts(scores, ScoreLeq);
    BestIsFirst(inf);
    assert sorted[0] == best && sorted[1] == best;
    TwiceMeansTwoPlaces(sorted, best);
    TwiceMeansTwoPlaces(scores, best);
    var i, j :| 0 <= i < j < |scores| && scores[i] == best && scores[j] == best;
    c := if cs[i] == w then cs[j] else cs[i];
  }

  lemma BestIsFirst(inf: UnitInference)
    requires inf.parent.Some? && inf.parent.value in inf.candidates
    requires forall c :: c in inf.candidates && c != inf.parent.value ==>
               Outranks(inf.votes, inf.spans, inf.parent.value, c)
    ensures Sort(Scores(inf, inf.candidates), ScoreLeq) != []
    ensures Sort(Scores(inf, inf.candidates), ScoreLeq)[0] == ScoreOf(inf, inf.parent.value)
  {
    var cs, w := inf.candidates, inf.parent.value;
    var scores := Scores(inf, cs);
    FirstIsLeast(scores, ScoreLeq);
    var k :| 0 <= k < |cs| && cs[k] == w;
    assert scores[k] in scores;
    var first := Sort(scores, ScoreLeq)[0];
    var i :| 0 <= i < |scores| && scores[i] == first;
    assert cs[i] == w || Outranks(inf.votes, inf.spans, w, cs[i]);
  }

  lemma {:induction false} MostVotesBounds(inf: UnitInference, cs: seq<string>)
    ensures forall c :: c in cs ==> Lookup(inf.votes, c) <= MostVotes(inf, cs)
    ensures cs != [] ==> exists c :: c in cs && Lookup(inf.votes, c) == MostVotes(inf, cs)
  {
    if cs != [] {
      MostVotesBounds(inf, cs[1..]);
      assert cs[0] in cs;
    }
  }

  /** The winner's votes are the most votes of any candidate. */
  lemma WinnerHasMostVotes(people: seq<Person>, normalize: string -> string, u: string)
    requires u in Infer(people, normalize).entries
    ensures var inf := Infer(people, normalize).entries[u];
            inf.parent.Some? ==>
              inf.parent.value in inf.votes && inf.votes[inf.parent.value] == MostVotes(inf, inf.candidates)
  {
    var inf := Infer(people, normalize).entries[u];
    WinnerIsUniqueLeast(people, normalize, u);
    ParentsAreClosed(people, normalize, u);
    MostVotesBounds(inf, inf.candidates);
    if inf.parent.Some? {
      var c :| c in inf.candidates && Lookup(inf.votes, c) == MostVotes(inf, inf.candidates);
      assert c != inf.parent.value ==> Outranks(inf.votes, inf.spans, inf.parent.value, c);
    }
  }

  /** low_confidence: the winner rests on a single report. */
  lemma LowConfidenceExactly(people: seq<Person>, normalize: string -> string, u: string)
    requires u in Infer(people, normalize).entries
    ensures var inf := Infer(people, normalize).entries[u];
            LowConfidence(inf) <==>
            inf.parent.Some? && inf.parent.value in inf.votes && inf.votes[inf.parent.value] == 1
  {
    WinnerHasMostVotes(people, normalize, u);
    WinnerIsUniqueLeast(people, normalize, u);
    ParentsAreClosed(people, normalize, u);
  }

  // ---------------------------------------------------------------- the parent map

  function UnitParentMap(f: Findings, minVotes: int): map<string, string> {
    map u | u in f.entries && f.entries[u].parent.Some? && f.entries[u].parent.value != ""
            && MostVotes(f.entries[u], f.entries[u].candidates) >= minVotes
      :: f.entries[u].parent.value
  }

  /** The map holds exactly the edges whose winner has enough votes. */
  lemma ParentMapExactly(people: seq<Person>, normalize: string -> string, minVotes: int, u: string)
    ensures var f := Infer(people, normalize);
            u in UnitParentMap(f, minVotes) <==>
            u in f.entries && f.entries[u].parent.Some?
            && Lookup(f.entries[u].votes, f.entries[u].parent.value) >= minVotes
    ensures u in UnitParentMap(Infer(people, normalize), minVotes) ==>
              Some(UnitParentMap(Infer(people, normalize), minVotes)[u]) == Infer(people, normalize).entries[u].parent
  {
    var f := Infer(people, normalize);
    if u in f.entries {
      WinnerHasMostVotes(people, normalize, u);
      if f.entries[u].parent.Some? {
        ParentsAreClosed(people, normalize, u);
        ParentsAreClosed(people, normalize, f.entries[u].parent.value);
      }
    }
  }

  /** Asking for more corroboration only removes edges, and never redirects one. */
  lemma ParentMapShrinks(people: seq<Person>, normalize: string -> string, few: int, many: int)
    requires few <= many
    ensures var f := Infer(people, normalize);
            var (loose, strict) := (UnitParentMap(f, few), UnitParentMap(f, many));
            forall u :: u in strict ==> u in loose && strict[u] == loose[u]
  {
    forall u | u in UnitParentMap(Infer(people, normalize), many)
      ensures u in UnitParentMap(Infer(people, normalize), few)
    {
      ParentMapExactly(people, normalize, few, u);
      ParentMapExactly(people, normalize, many, u);
    }
  }

  // ---------------------------------------------------------------- comparison with the stored tree

  datatype Status = Match | Differs | Missing

  datatype ComparisonRow = ComparisonRow(
    unit: string, storedParent: Option<string>, inferredParent: Option<string>, status: Status, lowConfidence: bool)

  /** The stored dictionary, in its own order: group name and parent name. */
  type Stored = seq<(string, Option<string>)>

  /** Folded name to stored parent; a later entry with the same folded name wins. */
  function ByFoldedName(stored: Stored, fold: string -> string): map<string, Option<string>> {
    if stored == [] then map[]
    else
      var last := stored[|stored| - 1];
      ByFoldedName(stored[..|stored| - 1], fold)[fold(last.0) := last.1]
  }

  /** A parent with the administration's name counts as no parent. */
  function Current(p: Option<string>, administration: string): Option<string> {
    if p == Some(administration) then None else p
  }

  function Judged(u: string, inferred: Option<string>, byName: map<string, Option<string>>, fold: string -> string,
                  administration: string): Status {
    if fold(u) !in byName then Missing
    else if Current(byName[fold(u)], administration) == inferred then Match
    else Differs
  }

  function RowFor(u: string, inf: UnitInference, byName: map<string, Option<string>>, fold: string -> string,
                  administration: string): ComparisonRow {
    ComparisonRow(u, if fold(u) in byName then Current(byName[fold(u)], administration) else None, inf.parent,
                  Judged(u, inf.parent, byName, fold, administration), LowConfidence(inf))
  }

  predicate StartsWith(s: string, prefix: string) {
    prefix <= s
  }

  predicate InScope(u: string, prefix: Option<string>, fold: string -> string) {
    prefix.None? || prefix.value == "" || StartsWith(fold(u), fold(prefix.value))
  }

  function Kept(us: seq<string>, prefix: Option<string>, fold: string -> string): seq<string> {
    if us == [] then []
    else
      var before := Kept(us[..|us| - 1], prefix, fold);
      if InScope(us[|us| - 1], prefix, fold) then before + [us[|us| - 1]] else before
  }

  /** The rows for some units, in their order. */
  function RowsFor(f: Findings, us: seq<string>, byName: map<string, Option<string>>, fold: string -> string,
                   administration: string): (rows: seq<ComparisonRow>)
    requires forall u :: u in us ==> u in f.entries
    ensures |rows| == |us|
    ensures forall i :: 0 <= i < |us| ==> rows[i] == RowFor(us[i], f.entries[us[i]], byName, fold, administration)
  {
    seq(|us|, i requires 0 <= i < |us| => RowFor(us[i], f.entries[us[i]], byName, fold, administration))
  }

  lemma {:induction false} KeptAreGiven(us: seq<string>, prefix: Option<string>, fold: string -> string)
    ensures forall u :: u in Kept(us, prefix, fold) <==> u in us && InScope(u, prefix, fold)
  {
    if us != [] {
      KeptAreGiven(us[..|us| - 1], prefix, fold);
      assert us == us[..|us| - 1] + [us[|us| - 1]];
    }
  }

  /** One sorted unit more. */
  lemma KeptOneMore(f: Findings, sorted: seq<string>, i: nat, prefix: Option<string>,
                    byName: map<string, Option<string>>, fold: string -> string, administration: string)
    requires i < |sorted| && forall u :: u in sorted ==> u in f.entries
    ensures forall u :: u in Kept(sorted[..i], prefix, fold) + Kept(sorted[..i + 1], prefix, fold) ==> u in f.entries
    ensures sorted[i] in f.entries
    ensures RowsFor(f, Kept(sorted[..i + 1], prefix, fold), byName, fold, administration)
            == RowsFor(f, Kept(sorted[..i], prefix, fold), byName, fold, administration)
               + if InScope(sorted[i], prefix, fold)
                 then [RowFor(sorted[i], f.entries[sorted[i]], byName, fold, administration)] else []
  {
    TakeOneMore(sorted, i);
    KeptAreGiven(sorted[..i], prefix, fold);
    KeptAreGiven(sorted[..i + 1], prefix, fold);
  }

  /** One row per unit in scope, in name order, each judged against the stored parent. */
  method CompareWithStored(f: Findings, stored: Stored, administration: string, prefix: Option<string>,
                           fold: string -> string)
    returns (rows: seq<ComparisonRow>)
    requires forall u :: u in f.order ==> u in f.entries
    ensures var units := Kept(Sort(f.order, NameLeq), prefix, fold);
            && (forall u :: u in units ==> u in f.entries)
            && rows == RowsFor(f, units, ByFoldedName(stored, fold), fold, administration)
  {
    var byName := IndexStored(stored, fold);
    rows := [];
    var sorted := Sort(f.order, NameLeq);
    SortedAreGiven(f.order);
    KeptAreGiven(sorted, prefix, fold);
    for i := 0 to |sorted|
      invariant forall u :: u in Kept(sorted[..i], prefix, fold) ==> u in f.entries
      invariant rows == RowsFor(f, Kept(sorted[..i], prefix, fold), byName, fold, administration)
    {
      KeptOneMore(f, sorted, i, prefix, byName, fold, administration);
      var unit := sorted[i];
      if prefix.Some? && prefix.value != "" && !StartsWith(fold(unit), fold(prefix.value)) {
        continue;
      }
      var row := Compare(unit, f.entries[unit], byName, fold, administration);
      rows := rows + [row];
    }
    assert sorted[..|sorted|] == sorted;
  }

  /** The stored dictionary by folded name. */
  method IndexStored(stored: Stored, fold: string -> string) returns (byName: map<string, Option<string>>)
    ensures byName == ByFoldedName(stored, fold)
  {
    byName := map[];
    for i := 0 to |stored|
      invariant byName == ByFoldedName(stored[..i], fold)
    {
      TakeOneMore(stored, i);
      byName := byName[fold(stored[i].0) := stored[i].1];
    }
    assert stored[..|stored|] == stored;
  }

  /** One unit against the stored parents. */
  method Compare(unit: string, inference: UnitInference, byName: map<string, Option<string>>, fold: string -> string,
                 administration: string)
    returns (row: ComparisonRow)
    ensures row == RowFor(unit, inference, byName, fold, administration)
  {
    if fold(unit) !in byName {
      return ComparisonRow(unit, None, inference.parent, Missing, LowConfidence(inference));
    }
    var current := byName[fold(unit)];
    if current == Some(administration) {
      current := None;
    }
    var status := if current == inference.parent then Match else Differs;
    return ComparisonRow(unit, current, inference.parent, status, LowConfidence(inference));
  }

  lemma SortedAreGiven(us: seq<string>)
    ensures forall u :: u in Sort(us, NameLeq) <==> u in us
  {
    NamesAreOrdered();
    SortSorts(us, NameLeq);
    assert forall u :: u in Sort(us, NameLeq) <==> u in multiset(Sort(us, NameLeq));
  }

  /** The last stored entry of that name, up to folding. */
  lemma {:induction false} LastEntryDecides(stored: Stored, fold: string -> string, u: string)
    ensures fold(u) !in ByFoldedName(stored, fold) <==> forall e :: e in stored ==> fold(e.0) != fold(u)
    ensures forall k :: 0 <= k < |stored| && fold(stored[k].0) == fold(u)
                        && (forall l :: k < l < |stored| ==> fold(stored[l].0) != fold(u)) ==>
                          fold(u) in ByFoldedName(stored, fold) && ByFoldedName(stored, fold)[fold(u)] == stored[k].1
  {
    if stored != [] {
      var n := |stored| - 1;
      LastEntryDecides(stored[..n], fold, u);
      assert stored == stored[..n] + [stored[n]];
    }
  }

  /**
   * A unit without a stored entry is missing; the others match or differ as the
   * parent of their last entry, with the administration taken for none, is the
   * inferred one or not.
   */
  lemma RowOnFields(u: string, inf: UnitInference, stored: Stored, fold: string -> string, administration: string)
    ensures var row := RowFor(u, inf, ByFoldedName(stored, fold), fold, administration);
            && row.unit == u && row.inferredParent == inf.parent
            && (row.status == Missing <==> forall e :: e in stored ==> fold(e.0) != fold(u))
            && (row.status == Missing ==> row.storedParent == None)
            && (forall k :: 0 <= k < |stored| && fold(stored[k].0) == fold(u)
                            && (forall l :: k < l < |stored| ==> fold(stored[l].0) != fold(u)) ==>
                              && row.storedParent
                                 == (if stored[k].1 == Some(administration) then None else stored[k].1)
                              && row.status == (if row.storedParent == inf.parent then Match else Differs))
  {
    LastEntryDecides(stored, fold, u);
  }

  /** A prefix keeps the units that begin with it, up to folding; no prefix and the empty one keep all. */
  lemma ScopeOnFields(us: seq<string>, prefix: string, fold: string -> string, u: string)
    ensures u in Kept(us, None, fold) <==> u in us
    ensures u in Kept(us, Some(""), fold) <==> u in us
    ensures prefix != "" ==>
              (u in Kept(us, Some(prefix), fold) <==> u in us && exists rest :: fold(u) == fold(prefix) + rest)
  {
    KeptAreGiven(us, None, fold);
    KeptAreGiven(us, Some(""), fold);
    KeptAreGiven(us, Some(prefix), fold);
    if fold(prefix) <= fold(u) {
      assert fold(u) == fold(prefix) + fold(u)[|fold(prefix)|..];
    }
  }

  /** The inferred parents, handed back as if they were stored. */
  function FedBack(f: Findings, us: seq<string>): (s: Stored)
    requires forall u :: u in us ==> u in f.entries
    ensures |s| == |us| && forall i :: 0 <= i < |us| ==> s[i] == (us[i], f.entries[us[i]].parent)
  {
    seq(|us|, i requires 0 <= i < |us| => (us[i], f.entries[us[i]].parent))
  }

  /** A folded name leads to the parent of some unit with that folded name. */
  lemma {:induction false} FedBackLookup(f: Findings, us: seq<string>, fold: string -> string, u: string)
    requires forall v :: v in us ==> v in f.entries
    requires u in us
    ensures fold(u) in ByFoldedName(FedBack(f, us), fold)
    ensures exists v :: v in us && fold(v) == fold(u)
                        && ByFoldedName(FedBack(f, us), fold)[fold(u)] == f.entries[v].parent
  {
    var n := |us| - 1;
    var init := us[..n];
    assert us == init + [us[n]];
    assert FedBack(f, us)[..n] == FedBack(f, init);
    if fold(us[n]) == fold(u) {
      assert us[n] in us;
    } else {
      FedBackLookup(f, init, fold, u);
    }
  }

  ghost predicate AllMatch(f: Findings, byName: map<string, Option<string>>, fold: string -> string,
                           administration: string)
    requires forall v :: v in f.order <==> v in f.entries
  {
    forall u :: u in f.order ==> Judged(u, f.entries[u].parent, byName, fold, administration) == Match
  }

  /** No parent carries the administration's name. */
  ghost predicate NoneUnderAdministration(f: Findings, administration: string)
    requires forall v :: v in f.order <==> v in f.entries
  {
    forall u :: u in f.order ==> f.entries[u].parent != Some(administration)
  }

  /** Units whose names differ only by case have the same parent. */
  ghost predicate CaseTwinsAgree(f: Findings, fold: string -> string)
    requires forall v :: v in f.order <==> v in f.entries
  {
    forall u, v :: u in f.order && v in f.order && fold(u) == fold(v) ==> f.entries[u].parent == f.entries[v].parent
  }

  lemma MatchesAgree(f: Findings, fold: string -> string, administration: string)
    requires forall v :: v in f.order <==> v in f.entries
    requires AllMatch(f, ByFoldedName(FedBack(f, f.order), fold), fold, administration)
    ensures NoneUnderAdministration(f, administration) && CaseTwinsAgree(f, fold)
  {
    var byName := ByFoldedName(FedBack(f, f.order), fold);
    forall u | u in f.order
      ensures fold(u) in byName && f.entries[u].parent == Current(byName[fold(u)], administration)
    {
      FedBackLookup(f, f.order, fold, u);
      assert Judged(u, f.entries[u].parent, byName, fold, administration) == Match;
    }
  }

  lemma AgreementMatches(f: Findings, fold: string -> string, administration: string)
    requires forall v :: v in f.order <==> v in f.entries
    requires NoneUnderAdministration(f, administration) && CaseTwinsAgree(f, fold)
    ensures AllMatch(f, ByFoldedName(FedBack(f, f.order), fold), fold, administration)
  {
    var byName := ByFoldedName(FedBack(f, f.order), fold);
    forall u | u in f.order
      ensures Judged(u, f.entries[u].parent, byName, fold, administration) == Match
    {
      FedBackLookup(f, f.order, fold, u);
      var v :| v in f.order && fold(v) == fold(u) && byName[fold(u)] == f.entries[v].parent;
    }
  }

  /**
   * Comparing the inference with itself reports a match everywhere exactly when
   * no parent carries the administration's name and units whose names differ
   * only by case have the same parent.
   */
  lemma FeedbackMatchesExactly(f: Findings, fold: string -> string, administration: string)
    requires forall u :: u in f.order <==> u in f.entries
    ensures AllMatch(f, ByFoldedName(FedBack(f, f.order), fold), fold, administration)
            <==> NoneUnderAdministration(f, administration) && CaseTwinsAgree(f, fold)
  {
    if AllMatch(f, ByFoldedName(FedBack(f, f.order), fold), fold, administration) {
      MatchesAgree(f, fold, administration);
    }
    if NoneUnderAdministration(f, administration) && CaseTwinsAgree(f, fold) {
      AgreementMatches(f, fold, administration);
    }
  }

  /** Rows that fail: one person of a unit reports into the administration. */
  lemma UnderAdministrationDiffers(u: string, administration: string, fold: string -> string)
    requires u != "" && administration != "" && u != administration
    ensures var f := Infer(Staffed([administration], [(u, administration)]), AsIs());
            && (forall v :: v in f.order <==> v in f.entries)
            && u in f.order && f.entries[u].parent == Some(administration)
            && !AllMatch(f, ByFoldedName(FedBack(f, f.order), fold), fold, administration)
  {
    var (us, votes) := ([administration], [(u, administration)]);
    var f := Infer(Staffed(us, votes), AsIs());
    StaffedCastsVotes(us, votes);
    OnlyVoteWins(Staffed(us, votes), AsIs(), 1, votes, 0);
    FeedbackMatchesExactly(f, fold, administration);
  }

  /** And rows of two units whose names differ only by case, one of which has a parent. */
  lemma CaseTwinsDiffer(u: string, v: string, w: string, administration: string, fold: string -> string)
    requires "" !in {u, v, w} && u != v && u != w && v != w && fold(u) == fold(v)
    ensures var f := Infer(Staffed([w, v], [(u, w)]), AsIs());
            && (forall x :: x in f.order <==> x in f.entries)
            && u in f.order && v in f.order && f.entries[u].parent == Some(w) && f.entries[v].parent == None
            && !AllMatch(f, ByFoldedName(FedBack(f, f.order), fold), fold, administration)
  {
    var (us, votes) := ([w, v], [(u, w)]);
    var people := Staffed(us, votes);
    var f := Infer(people, AsIs());
    StaffedCastsVotes(us, votes);
    OnlyVoteWins(people, AsIs(), 2, votes, 0);
    StaffedHasDistinctIds(us, votes);
    DistinctIdsPlaceThemselves(people, AsIs(), 1);
    assert people[1] == Boss(v);
    MembersAreRows(people, UnitsOf(people, AsIs()), v, people[1]);
    UnitsHaveMembers(people, UnitsOf(people, AsIs()), v);
    NoVoteNoParent(people, AsIs(), 2, votes, v);
    FeedbackMatchesExactly(f, fold, administration);
  }
}
