/** What each request changes, field by field, and where every referral row and every recall comes from. */
module EngineLaws {
  import opened Common
  import opened Permissions
  import opened Engine

  // ---------------------------------------------------------------- when a request changes anything

  /** A referral is made exactly for an editor, in a state that allows it, to a group without an active one. */
  lemma ReferChangesExactly(d: Directory, w: Workflow, u: User, g: GroupId, deadline: Deadline, at: Time)
    requires ReferralsSound(w)
    ensures var v := Step(d, w, Refer(u, g, deadline), at);
            && v == w.(referrals := v.referrals, referredTo := v.referredTo)
            && (v != w <==>
                Ruling(d, w, u, Edit) == Allowed && w.state in d.referable && deadline != Malformed
                && forall r :: r in w.referrals && r.group == g ==> r.recalledAt.Some?)
            && (v != w ==> v.referrals[..|v.referrals| - 1] == w.referrals)
  {
    var v := Step(d, w, Refer(u, g, deadline), at);
    if v != w {
      assert v.referrals[..|v.referrals| - 1] == w.referrals;
    }
    if g in w.referredTo {
      var r :| r in w.referrals && r.recalledAt.None? && r.group == g;
    } else {
      forall r | r in w.referrals && r.group == g ensures r.recalledAt.Some? {
        assert r.recalledAt.None? ==> r.group in ActiveGroupsOf(w.referrals);
      }
    }
  }

  /** A recall happens exactly for an editor and a group with an active referral. */
  lemma RecallChangesExactly(d: Directory, w: Workflow, u: User, g: GroupId, at: Time)
    ensures var v := Step(d, w, Recall(u, g), at);
            && v == w.(referrals := v.referrals, referredTo := v.referredTo)
            && (v != w <==>
                Ruling(d, w, u, Edit) == Allowed && exists r :: r in w.referrals && r.group == g && r.recalledAt.None?)
  {
    var v := Step(d, w, Recall(u, g), at);
    if MayRecall(d, w, Recall(u, g)) {
      var k := ActiveReferral(w.referrals, g);
      assert v.referrals[k].recalledAt == Some(at) && w.referrals[k].recalledAt == None;
      assert w.referrals[k] in w.referrals;
    }
    if r :| r in w.referrals && r.group == g && r.recalledAt.None? {
      assert g in ActiveGroupsOf(w.referrals);
    }
  }

  /**
   * A transition is made exactly when it is defined from the current state for this
   * type of workflow, the user holds an allowed role in a group that counts, no
   * referral blocks an owner, and a required comment is there. The groups that count
   * are those with access rows, or else the owning group, or else the type's group;
   * and in any case the referred ones.
   */
  lemma ExecuteChangesExactly(d: Directory, w: Workflow, u: User, t: Transition, comment: string, at: Time)
    ensures var v := Step(d, w, Execute(u, t, comment), at);
            && (v.log != w.log <==>
                && t in d.transitions && t.workflowType == w.workflowType && t.fromState == w.state
                && (t.requiresComment ==> comment != "")
                && (u.id == w.owner ==> forall r :: r in w.referrals ==> r.recalledAt.Some?)
                && exists m :: m in d.memberships && m.user == u.id && m.isActive && m.role in t.allowedRoles
                               && (m.group in w.referredTo
                                   || (exists a :: a in w.access && a.group == m.group)
                                   || (w.access == [] && w.primaryGroup == Some(m.group))
                                   || (w.access == [] && w.primaryGroup == None && w.workflowType in d.typeGroup
                                       && d.typeGroup[w.workflowType] == m.group)))
            && (v.log == w.log ==> v == w)
            && (v.log != w.log ==> v.log == w.log + [LogEntry(w.state, t.toState, u.id, comment, at)]
                                   && v.state == t.toState)
  {
    assert forall g :: g in TransitGroups(d, w) <==>
                         || g in w.referredTo
                         || (exists a :: a in w.access && a.group == g)
                         || (w.access == [] && w.primaryGroup == Some(g))
                         || (w.access == [] && w.primaryGroup == None && w.workflowType in d.typeGroup
                             && d.typeGroup[w.workflowType] == g);
    var v := Step(d, w, Execute(u, t, comment), at);
    if MayExecute(d, w, Execute(u, t, comment)) {
      assert |v.log| == |w.log| + 1;
    }
  }

  /** A move to a state that is not terminal touches state and log only. */
  lemma PlainMoveKeepsReferrals(d: Directory, w: Workflow, u: User, t: Transition, comment: string, at: Time)
    requires t.toState !in d.terminal
    ensures var v := Step(d, w, Execute(u, t, comment), at);
            v == w.(state := v.state, log := v.log)
  {
  }

  /**
   * A grant leaves everything but access rows and primary group alone; making a group
   * primary is a primary grant to it, and without a group nothing happens.
   */
  lemma GrantChangesAccessOnly(d: Directory, w: Workflow, a: Action, at: Time)
    requires a.Grant? || a.SetPrimary?
    ensures var v := Step(d, w, a, at);
            && v == w.(access := v.access, primaryGroup := v.primaryGroup)
            && (a.SetPrimary? && a.owning == None ==> v == w)
            && (a.SetPrimary? && a.owning.Some? ==>
                  v.primaryGroup == a.owning && exists r :: r in v.access && r.group == a.owning.value && r.isPrimary)
            && (a.Grant? ==> exists r :: r in v.access && r.group == a.group && r.isPrimary == a.isPrimary)
            && (a.Grant? ==> v.primaryGroup == if a.isPrimary then Some(a.group) else w.primaryGroup)
  {
    var v := Step(d, w, a, at);
    if a.Grant? || a.owning.Some? {
      var k := RowOf(w.access, if a.Grant? then a.group else a.owning.value);
      assert v.access[k] in v.access;
    }
  }

  /**
   * The rows after a grant: the granted group has one row, flagged as asked, which
   * keeps its overrides, and keeps grantor and notes where none are given; every
   * other row stays in its place, and loses its flag to a primary grant.
   */
  lemma GrantedRows(w: Workflow, g: GroupId, isPrimary: bool, who: Option<UserId>, notes: string)
    requires AccessSound(w)
    ensures var v := Granted(w, g, isPrimary, who, notes);
            && (exists k :: 0 <= k < |v.access| && v.access[k].group == g && v.access[k].isPrimary == isPrimary
                            && (who.Some? ==> v.access[k].grantedBy == who)
                            && (notes != "" ==> v.access[k].notes == notes)
                            && (k < |w.access| ==> w.access[k].group == g
                                                   && v.access[k].overrides == w.access[k].overrides
                                                   && (who.None? ==> v.access[k].grantedBy == w.access[k].grantedBy)
                                                   && (notes == "" ==> v.access[k].notes == w.access[k].notes))
                            && (k == |w.access| ==> v.access[k] == Access(g, isPrimary, who, notes, map[])
                                                    && forall i :: 0 <= i < |w.access| ==> w.access[i].group != g))
            && |w.access| <= |v.access| <= |w.access| + 1
            && (forall i :: 0 <= i < |w.access| && w.access[i].group != g ==>
                              v.access[i] == w.access[i].(isPrimary := w.access[i].isPrimary && !isPrimary))
            && v.primaryGroup == if isPrimary then Some(g) else w.primaryGroup
  {
    var v := Granted(w, g, isPrimary, who, notes);
    var k := RowOf(w.access, g);
    assert v.access[k].group == g && v.access[k].isPrimary == isPrimary;
  }

  // ---------------------------------------------------------------- the history of referrals

  /** The request ends the group's active referral: a permitted recall, or a permitted move into a terminal state. */
  ghost predicate Ends(w: Workflow, q: Request, g: GroupId) {
    match q.action
    case Recall(u, h) => h == g && Ruling(q.directory, w, u, Edit) == Allowed
    case Execute(u, t, comment) => MayExecute(q.directory, w, q.action) && t.toState in q.directory.terminal
    case _ => false
  }

  ghost function ActorOf(a: Action): UserId
    requires a.Recall? || a.Execute? || a.Refer?
  {
    a.user.id
  }

  /** One request, seen by one active referral row. */
  lemma StepEndsReferralExactly(w: Workflow, q: Request, i: nat)
    requires ReferralsSound(w) && i < |w.referrals| && w.referrals[i].recalledAt.None?
    ensures var v := Step(q.directory, w, q.action, q.at);
            && i < |v.referrals|
            && (Ends(w, q, w.referrals[i].group) ==>
                  v.referrals[i] == w.referrals[i].(recalledAt := Some(q.at), recalledBy := Some(ActorOf(q.action))))
            && (!Ends(w, q, w.referrals[i].group) ==> v.referrals[i] == w.referrals[i])
  {
    var g := w.referrals[i].group;
    assert w.referrals[i] in w.referrals && g in ActiveGroupsOf(w.referrals);
    if q.action.Recall? && MayRecall(q.directory, w, q.action) {
      var k := ActiveReferral(w.referrals, q.action.group);
      assert q.action.group == g <==> k == i;
    }
  }

  /** A recalled row is history. */
  lemma StepKeepsRecalled(w: Workflow, q: Request, i: nat)
    requires i < |w.referrals| && w.referrals[i].recalledAt.Some?
    ensures var v := Step(q.directory, w, q.action, q.at);
            i < |v.referrals| && v.referrals[i] == w.referrals[i]
  {
  }

  lemma {:induction false} RunStaysSound(w0: Workflow, requests: seq<Request>)
    requires ReferralsSound(w0) && AccessSound(w0)
    ensures ReferralsSound(Run(w0, requests)) && AccessSound(Run(w0, requests))
  {
    if requests != [] {
      var n := |requests| - 1;
      RunStaysSound(w0, requests[..n]);
      StepKeepsSound(requests[n].directory, Run(w0, requests[..n]), requests[n].action, requests[n].at);
    }
  }

  /** When, and by whom, the run first ends the group's active referral. */
  ghost function Ending(w0: Workflow, requests: seq<Request>, g: GroupId): Option<(Time, UserId)> {
    if requests == [] then None
    else
      var n := |requests| - 1;
      var before := Ending(w0, requests[..n], g);
      if before.Some? then before
      else if Ends(Run(w0, requests[..n]), requests[n], g) then Some((requests[n].at, ActorOf(requests[n].action)))
      else None
  }

  /** What the requests made of a row that was active before them. */
  ghost function Followed(w: Workflow, row: Referral, requests: seq<Request>): Referral {
    match Ending(w, requests, row.group)
    case None => row
    case Some((at, who)) => row.(recalledAt := Some(at), recalledBy := Some(who))
  }

  /**
   * An active referral over any run: it stays exactly as it is until a permitted
   * recall of its group or a permitted move into a terminal state, and is then
   * recalled, for good, by that request's user at that request's time.
   */
  lemma {:induction false} ReferralFollowed(w0: Workflow, requests: seq<Request>, i: nat)
    requires ReferralsSound(w0) && AccessSound(w0) && i < |w0.referrals| && w0.referrals[i].recalledAt.None?
    ensures var w := Run(w0, requests);
            var row := w0.referrals[i];
            && i < |w.referrals|
            && w.referrals[i] == Followed(w0, row, requests)
  {
    if requests != [] {
      var n := |requests| - 1;
      var before := Run(w0, requests[..n]);
      ReferralFollowed(w0, requests[..n], i);
      RunStaysSound(w0, requests[..n]);
      if before.referrals[i].recalledAt.None? {
        StepEndsReferralExactly(before, requests[n], i);
      } else {
        StepKeepsRecalled(before, requests[n], i);
      }
    }
  }

  /** The request made the row: a permitted referral to its group, with the user, time and deadline it was made with. */
  ghost predicate Makes(w: Workflow, q: Request, r: Referral) {
    && q.action.Refer? && MayRefer(q.directory, w, q.action)
    && r.group == q.action.group && r.referredBy == q.action.user.id && r.referredAt == q.at
    && (q.action.deadline == NoDeadline ==> r.deadline == None)
    && (q.action.deadline.By? ==> r.deadline == Some(q.action.deadline.at))
  }

  lemma StepMakesAtMostOne(w: Workflow, q: Request)
    ensures var v := Step(q.directory, w, q.action, q.at);
            && |w.referrals| <= |v.referrals| <= |w.referrals| + 1
            && (|v.referrals| > |w.referrals| ==>
                  Makes(w, q, v.referrals[|w.referrals|]) && v.referrals[|w.referrals|].recalledAt == None)
            && (forall i :: 0 <= i < |w.referrals| ==>
                              v.referrals[i] == w.referrals[i].(recalledAt := v.referrals[i].recalledAt,
                                                                recalledBy := v.referrals[i].recalledBy))
  {
  }

  /** Row i was made by the request between the two stretches, and recalled when the later ones say so. */
  ghost predicate Explained(w0: Workflow, before: seq<Request>, q: Request, after: seq<Request>, i: nat)
    requires i < |Run(w0, before + [q] + after).referrals|
  {
    var (w, made) := (Run(w0, before), Run(w0, before + [q]));
    && |w.referrals| == i < |made.referrals|
    && Makes(w, q, made.referrals[i]) && made.referrals[i].recalledAt == None
    && Run(w0, before + [q] + after).referrals[i] == Followed(made, made.referrals[i], after)
  }

  lemma MadeThenFollowed(w0: Workflow, before: seq<Request>, q: Request, after: seq<Request>, i: nat)
    requires ReferralsSound(w0) && AccessSound(w0)
    requires |Run(w0, before).referrals| == i < |Run(w0, before + [q]).referrals|
    ensures i < |Run(w0, before + [q] + after).referrals| && Explained(w0, before, q, after, i)
  {
    var made := Run(w0, before + [q]);
    assert (before + [q])[..|before|] == before;
    StepMakesAtMostOne(Run(w0, before), q);
    RunStaysSound(w0, before + [q]);
    ReferralFollowed(made, after, i);
    RunJoins(w0, before + [q], after);
  }

  /** The request at which the number of rows passes i. */
  lemma {:induction false} MakerOf(w0: Workflow, requests: seq<Request>, i: nat) returns (k: nat)
    requires |w0.referrals| <= i < |Run(w0, requests).referrals|
    ensures k < |requests| && |Run(w0, requests[..k]).referrals| == i < |Run(w0, requests[..k + 1]).referrals|
  {
    var n := |requests| - 1;
    assert requests != [];
    if i < |Run(w0, requests[..n]).referrals| {
      k := MakerOf(w0, requests[..n], i);
      assert requests[..n][..k] == requests[..k] && requests[..n][..k + 1] == requests[..k + 1];
    } else {
      k := n;
      StepMakesAtMostOne(Run(w0, requests[..n]), requests[n]);
      assert requests[..n + 1] == requests;
    }
  }

  lemma {:induction false} RunJoins(w0: Workflow, a: seq<Request>, b: seq<Request>)
    ensures Run(w0, a + b) == Run(Run(w0, a), b)
  {
    if b == [] {
      assert a + b == a;
    } else {
      var n := |b| - 1;
      assert (a + b)[..|a + b| - 1] == a + b[..n];
      RunJoins(w0, a, b[..n]);
    }
  }

  /**
   * Over every run from creation, every referral row was made by a permitted
   * referral request, and is recalled exactly as the requests after it say.
   */
  lemma EveryReferralExplained(workflowType: TypeId, owner: UserId, initial: StateId, requests: seq<Request>, i: nat)
    returns (before: seq<Request>, q: Request, after: seq<Request>)
    requires i < |Run(Created(workflowType, owner, initial), requests).referrals|
    ensures requests == before + [q] + after
    ensures Explained(Created(workflowType, owner, initial), before, q, after, i)
  {
    var w0 := Created(workflowType, owner, initial);
    var k := MakerOf(w0, requests, i);
    before, q, after := requests[..k], requests[k], requests[k + 1..];
    assert requests[..k + 1] == before + [q] && requests == before + [q] + after;
    MadeThenFollowed(w0, before, q, after, i);
  }
}
