/** Event statuses that follow the clock, and the attendance rows made when an event completes. */
module Events {
  import opened Common

  type UserId = nat
  type GroupId = nat
  type Time = int

  datatype Status = Scheduled | InProgress | Completed | Cancelled | Postponed

  datatype Attendance = Invited | Confirmed | Attended | Absent | Apology

  datatype Event = Event(group: GroupId, start: Time, end: Time, status: Status)

  /** A user's place at the event in a given position. */
  datatype Seat = Seat(event: nat, user: UserId)

  /** One attendance row per event and user: the unique constraint, hence a map. */
  type Register = map<Seat, Attendance>

  /** Active members of each group. */
  type Members = map<GroupId, set<UserId>>

  datatype Board = Board(events: seq<Event>, register: Register)

  function MembersOf(m: Members, g: GroupId): set<UserId> {
    if g in m then m[g] else {}
  }

  // ---------------------------------------------------------------- the intended effect

  /** Where the clock takes one event: begun at its start, and done at its end once begun. */
  function StatusAt(e: Event, now: Time): Status {
    var begun := if e.status == Scheduled && e.start <= now then InProgress else e.status;
    if begun == InProgress && e.end <= now then Completed else begun
  }

  /** The event completes in this run. */
  predicate Completes(e: Event, now: Time) {
    e.status != Completed && StatusAt(e, now) == Completed
  }

  /** The seats of one event's members. */
  function Seats(i: nat, users: set<UserId>): set<Seat> {
    set u | u in users :: Seat(i, u)
  }

  /** The seats a run makes rows for, where they have none. */
  function Due(events: seq<Event>, m: Members, now: Time): set<Seat> {
    if events == [] then {}
    else
      var n := |events| - 1;
      Due(events[..n], m, now) + (if Completes(events[n], now) then Seats(n, MembersOf(m, events[n].group)) else {})
  }

  lemma {:induction false} DueExactly(events: seq<Event>, m: Members, now: Time, seat: Seat)
    ensures seat in Due(events, m, now) <==>
            seat.event < |events| && Completes(events[seat.event], now)
            && seat.user in MembersOf(m, events[seat.event].group)
  {
    if events != [] {
      DueExactly(events[..|events| - 1], m, now, seat);
    }
  }

  /** Scheduled events whose start has come. */
  function Starting(events: seq<Event>, now: Time): nat {
    if events == [] then 0
    else
      var e := events[|events| - 1];
      Starting(events[..|events| - 1], now) + (if e.status == Scheduled && e.start <= now then 1 else 0)
  }

  /** Events that complete. */
  function Completing(events: seq<Event>, now: Time): nat {
    if events == [] then 0
    else Completing(events[..|events| - 1], now) + (if Completes(events[|events| - 1], now) then 1 else 0)
  }

  function WithInvitations(register: Register, due: set<Seat>): Register {
    map k | k in register.Keys + due :: if k in register then register[k] else Invited
  }

  lemma InviteInTwoGoes(register: Register, a: set<Seat>, b: set<Seat>)
    ensures WithInvitations(WithInvitations(register, a), b) == WithInvitations(register, a + b)
  {
  }

  /** One get_or_create more. */
  lemma InviteOneMore(register: Register, i: nat, done: set<UserId>, u: UserId)
    ensures var before := WithInvitations(register, Seats(i, done));
            WithInvitations(register, Seats(i, done + {u}))
            == if Seat(i, u) in before then before else before[Seat(i, u) := Invited]
  {
    assert Seats(i, done + {u}) == Seats(i, done) + {Seat(i, u)};
  }

  lemma InviteNobody(register: Register)
    ensures WithInvitations(register, {}) == register
  {
  }

  function Settled(events: seq<Event>, now: Time): (r: seq<Event>)
    ensures |r| == |events| && forall i :: 0 <= i < |r| ==> r[i] == events[i].(status := StatusAt(events[i], now))
  {
    seq(|events|, i requires 0 <= i < |events| => events[i].(status := StatusAt(events[i], now)))
  }

  function Updated(b: Board, m: Members, now: Time): Board {
    Board(Settled(b.events, now), WithInvitations(b.register, Due(b.events, m, now)))
  }

  datatype Op =
    | CreateEvent(e: Event)
    | SaveEvent(i: nat, e: Event)
    | RunClock(now: Time)
    | Mark(seat: Seat, attendance: Attendance)

  /** The effect of one operation; attendance can only be marked on an existing row. */
  function Step(b: Board, m: Members, op: Op): Board {
    match op
    case CreateEvent(e) =>
      Board(b.events + [e],
            if e.status == Completed then WithInvitations(b.register, Seats(|b.events|, MembersOf(m, e.group)))
            else b.register)
    case SaveEvent(i, e) =>
      if i >= |b.events| then b
      else Board(b.events[i := e],
                 if e.status == Completed && b.events[i].status != Completed
                 then WithInvitations(b.register, Seats(i, MembersOf(m, e.group))) else b.register)
    case RunClock(now) => Updated(b, m, now)
    case Mark(seat, attendance) => if seat in b.register then b.(register := b.register[seat := attendance]) else b
  }

  // ---------------------------------------------------------------- the board

  class EventBoard {
    var events: seq<Event>
    var register: Register

    function Snapshot(): Board
      reads this
    {
      Board(events, register)
    }

    constructor ()
      ensures Snapshot() == Board([], map[])
    {
      events, register := [], map[];
    }

    /** get_or_create for every active member of the event's group. */
    method CreateAttendanceRecords(i: nat, m: Members)
      requires i < |events|
      modifies this`register
      ensures register == WithInvitations(old(register), Seats(i, MembersOf(m, events[i].group)))
    {
      var members := MembersOf(m, events[i].group);
      var todo := members;
      ghost var done: set<UserId> := {};
      ghost var before := register;
      InviteNobody(before);
      assert Seats(i, {}) == {};
      while todo != {}
        invariant done + todo == members
        invariant register == WithInvitations(before, Seats(i, done))
        decreases todo
      {
        var u :| u in todo;
        InviteOneMore(before, i, done, u);
        if Seat(i, u) !in register {
          register := register[Seat(i, u) := Invited];
        }
        done := done + {u};
        todo := todo - {u};
      }
      assert done == members;
    }

    /** Saving an event: rows are made when the stored status turns into completed. */
    method Save(i: nat, e: Event, m: Members)
      requires i < |events|
      modifies this
      ensures Snapshot() == Step(old(Snapshot()), m, SaveEvent(i, e))
    {
      var oldStatus := events[i].status;
      events := events[i := e];
      if e.status == Completed && oldStatus != e.status {
        CreateAttendanceRecords(i, m);
      }
    }

    /** First save of an event, completed ones included. */
    method Create(e: Event, m: Members) returns (i: nat)
      modifies this
      ensures i == |old(events)| && Snapshot() == Step(old(Snapshot()), m, CreateEvent(e))
    {
      i := |events|;
      events := events + [e];
      if e.status == Completed {
        CreateAttendanceRecords(i, m);
      }
    }

    /** One bulk update, then one save per event that has ended. */
    method UpdateAutomaticStatuses(now: Time, m: Members) returns (toInProgress: nat, toCompleted: nat)
      modifies this
      ensures Snapshot() == Step(old(Snapshot()), m, RunClock(now))
      ensures toInProgress == Starting(old(events), now) && toCompleted == Completing(old(events), now)
    {
      ghost var before := events;
      toInProgress := BeginDue(now);
      toCompleted := CompleteEnded(now, m, before);
    }

    /** The bulk update of scheduled events whose start has come; it runs no save hook. */
    method BeginDue(now: Time) returns (count: nat)
      modifies this`events
      ensures events == Begun(old(events), now) && count == Starting(old(events), now)
    {
      count := Starting(events, now);
      events := Begun(events, now);
    }

    /** One event of the loop below: saved as completed if it is in progress and its end has come. */
    method CompleteIfEnded(i: nat, now: Time, m: Members) returns (ended: bool)
      requires i < |events|
      modifies this
      ensures ended <==> old(events)[i].status == InProgress && old(events)[i].end <= now
      ensures events == if ended then old(events)[i := old(events)[i].(status := Completed)] else old(events)
      ensures register == if ended then WithInvitations(old(register), Seats(i, MembersOf(m, old(events)[i].group)))
                          else old(register)
    {
      ended := events[i].status == InProgress && events[i].end <= now;
      if ended {
        Save(i, events[i].(status := Completed), m);
      }
    }

    /** The loop over events in progress whose end has come, saving each. */
    method CompleteEnded(now: Time, m: Members, ghost before: seq<Event>) returns (count: nat)
      requires events == Begun(before, now)
      modifies this
      ensures events == Settled(before, now)
      ensures register == WithInvitations(old(register), Due(before, m, now))
      ensures count == Completing(before, now)
    {
      ghost var rows := register;
      InviteNobody(rows);
      HalfwayEnds(before, now);
      count := 0;
      for i := 0 to |events|
        invariant |events| == |before| && count == Completing(before[..i], now)
        invariant events == Halfway(before, i, now)
        invariant register == WithInvitations(rows, Due(before[..i], m, now))
      {
        var ended := SettleNext(i, now, m, before, rows);
        if ended {
          count := count + 1;
        }
      }
      assert before[..|before|] == before;
    }

    /** The body of that loop. */
    method SettleNext(i: nat, now: Time, m: Members, ghost before: seq<Event>, ghost rows: Register)
      returns (ended: bool)
      requires i < |before| == |events| && events == Halfway(before, i, now)
      requires register == WithInvitations(rows, Due(before[..i], m, now))
      modifies this
      ensures events == Halfway(before, i + 1, now)
      ensures register == WithInvitations(rows, Due(before[..i + 1], m, now))
      ensures Completing(before[..i + 1], now) == Completing(before[..i], now) + if ended then 1 else 0
    {
      DueOneMore(before, i, m, now, rows);
      HalfwayOneMore(before, i, now);
      ended := CompleteIfEnded(i, now, m);
    }
  }

  /** The first i events settled, the others as the bulk update left them. */
  function Halfway(before: seq<Event>, i: nat, now: Time): (r: seq<Event>)
    requires i <= |before|
    ensures |r| == |before|
  {
    Settled(before, now)[..i] + Begun(before, now)[i..]
  }

  lemma HalfwayEnds(before: seq<Event>, now: Time)
    ensures Halfway(before, 0, now) == Begun(before, now) && Halfway(before, |before|, now) == Settled(before, now)
  {
  }

  /** Settling the next event: it is saved as completed exactly when it completes in this run. */
  lemma HalfwayOneMore(before: seq<Event>, i: nat, now: Time)
    requires i < |before|
    ensures var (here, next) := (Halfway(before, i, now), Halfway(before, i + 1, now));
            && here[i].group == before[i].group
            && (here[i].status == InProgress && here[i].end <= now <==> Completes(before[i], now))
            && next == if Completes(before[i], now) then here[i := here[i].(status := Completed)] else here
  {
    BegunCompletes(before[i], Halfway(before, i, now)[i], now);
  }

  /** One event more, completed or not: what it adds to the due seats and the count. */
  lemma DueOneMore(events: seq<Event>, i: nat, m: Members, now: Time, register: Register)
    requires i < |events|
    ensures var seats := Seats(i, MembersOf(m, events[i].group));
            WithInvitations(register, Due(events[..i + 1], m, now))
            == if Completes(events[i], now)
               then WithInvitations(WithInvitations(register, Due(events[..i], m, now)), seats)
               else WithInvitations(register, Due(events[..i], m, now))
    ensures Completing(events[..i + 1], now)
            == Completing(events[..i], now) + if Completes(events[i], now) then 1 else 0
  {
    assert events[..i + 1][..i] == events[..i];
    InviteInTwoGoes(register, Due(events[..i], m, now), Seats(i, MembersOf(m, events[i].group)));
    assert Due(events[..i], m, now) + {} == Due(events[..i], m, now);
  }

  /** After the bulk update, an event completes exactly when it is in progress and has ended. */
  lemma BegunCompletes(e: Event, b: Event, now: Time)
    requires b == if e.status == Scheduled && e.start <= now then e.(status := InProgress) else e
    ensures b.status == InProgress && b.end <= now <==> Completes(e, now)
    ensures e.(status := StatusAt(e, now)) == if Completes(e, now) then b.(status := Completed) else b
  {
  }

  /** The events after the bulk update. */
  function Begun(events: seq<Event>, now: Time): (r: seq<Event>)
    ensures |r| == |events|
    ensures forall j :: 0 <= j < |r| ==>
                          r[j] == if events[j].status == Scheduled && events[j].start <= now
                                  then events[j].(status := InProgress) else events[j]
  {
    seq(|events|, j requires 0 <= j < |events| =>
      if events[j].status == Scheduled && events[j].start <= now then events[j].(status := InProgress) else events[j])
  }

  // ---------------------------------------------------------------- what the clock does to one event

  /**
   * An event is completed once its end has come, if it was under way or its start has
   * come too; under way once its start has come; and never touched if it was
   * cancelled or postponed.
   */
  lemma ClockMovesExactly(e: Event, now: Time)
    ensures var due := e.status == InProgress || (e.status == Scheduled && e.start <= now);
            && (StatusAt(e, now) == Completed <==> e.status == Completed || (due && e.end <= now))
            && (StatusAt(e, now) == InProgress <==> due && now < e.end)
            && (StatusAt(e, now) == Scheduled <==> e.status == Scheduled && now < e.start)
            && (StatusAt(e, now) == Cancelled <==> e.status == Cancelled)
            && (StatusAt(e, now) == Postponed <==> e.status == Postponed)
  {
  }

  /** The positions whose event leaves one status for another. */
  ghost function Moved(before: seq<Event>, after: seq<Event>, leaves: Status -> bool, enters: Status -> bool): set<nat>
    requires |before| == |after|
  {
    set i: nat | i < |before| && leaves(before[i].status) && enters(after[i].status)
  }

  lemma MovedOneMore(before: seq<Event>, after: seq<Event>, leaves: Status -> bool, enters: Status -> bool)
    requires |before| == |after| && before != []
    ensures var n := |before| - 1;
            |Moved(before, after, leaves, enters)|
            == |Moved(before[..n], after[..n], leaves, enters)|
               + if leaves(before[n].status) && enters(after[n].status) then 1 else 0
  {
    var n := |before| - 1;
    var earlier := Moved(before[..n], after[..n], leaves, enters);
    assert n !in earlier;
    assert Moved(before, after, leaves, enters)
        == earlier + if leaves(before[n].status) && enters(after[n].status) then {n} else {};
  }

  predicate IsScheduled(s: Status) { s == Scheduled }

  predicate NotScheduled(s: Status) { s != Scheduled }

  predicate IsCompleted(s: Status) { s == Completed }

  predicate NotCompleted(s: Status) { s != Completed }

  /** The first count is the number of events the bulk update takes out of the scheduled status. */
  lemma {:induction false} StartingCounts(events: seq<Event>, now: Time)
    ensures Starting(events, now) == |Moved(events, Begun(events, now), IsScheduled, NotScheduled)|
  {
    if events == [] {
      assert Moved(events, Begun(events, now), IsScheduled, NotScheduled) == {};
    } else {
      var n := |events| - 1;
      StartingCounts(events[..n], now);
      assert Begun(events, now)[..n] == Begun(events[..n], now);
      MovedOneMore(events, Begun(events, now), IsScheduled, NotScheduled);
    }
  }

  /** The second count is the number of events that end the run completed and did not begin it so. */
  lemma {:induction false} CompletingCounts(events: seq<Event>, now: Time)
    ensures Completing(events, now) == |Moved(events, Settled(events, now), NotCompleted, IsCompleted)|
  {
    if events == [] {
      assert Moved(events, Settled(events, now), NotCompleted, IsCompleted) == {};
    } else {
      var n := |events| - 1;
      CompletingCounts(events[..n], now);
      assert Settled(events, now)[..n] == Settled(events[..n], now);
      MovedOneMore(events, Settled(events, now), NotCompleted, IsCompleted);
    }
  }

  // ---------------------------------------------------------------- time composes

  /** Running earlier first changes nothing about a later run. */
  lemma RunsCompose(b: Board, m: Members, t1: Time, t2: Time)
    requires t1 <= t2
    ensures Updated(Updated(b, m, t1), m, t2) == Updated(b, m, t2)
  {
    var once := Updated(b, m, t1).events;
    assert Updated(Updated(b, m, t1), m, t2).events == Updated(b, m, t2).events;
    forall seat: Seat
      ensures seat in Due(b.events, m, t2) <==> seat in Due(b.events, m, t1) + Due(once, m, t2)
    {
      DueExactly(b.events, m, t1, seat);
      DueExactly(b.events, m, t2, seat);
      DueExactly(once, m, t2, seat);
    }
    assert Due(b.events, m, t2) == Due(b.events, m, t1) + Due(once, m, t2);
    InviteInTwoGoes(b.register, Due(b.events, m, t1), Due(once, m, t2));
  }

  /** Repeating a run at the same time changes nothing. */
  lemma RunTwiceIsOnce(b: Board, m: Members, now: Time)
    ensures Updated(Updated(b, m, now), m, now) == Updated(b, m, now)
  {
    RunsCompose(b, m, now, now);
  }

  /** Any rising sequence of runs ends where its last run alone would. */
  function Runs(b: Board, m: Members, times: seq<Time>): Board {
    if times == [] then b else Updated(Runs(b, m, times[..|times| - 1]), m, times[|times| - 1])
  }

  lemma {:induction false} OnlyTheLastRunMatters(b: Board, m: Members, times: seq<Time>)
    requires times != [] && forall i, j :: 0 <= i < j < |times| ==> times[i] <= times[j]
    ensures Runs(b, m, times) == Updated(b, m, times[|times| - 1])
  {
    var n := |times| - 1;
    if n > 0 {
      OnlyTheLastRunMatters(b, m, times[..n]);
      RunsCompose(b, m, times[n - 1], times[n]);
    } else {
      assert times[..0] == [];
    }
  }

  /**
   * Existing attendance rows are never altered; an event that completes in this
   * run ends with a row for each active member, new ones invited; and rows appear
   * for completing events and their members only.
   */
  lemma CompletionFillsRegister(b: Board, m: Members, now: Time)
    ensures forall k :: k in b.register ==>
                          k in Updated(b, m, now).register && Updated(b, m, now).register[k] == b.register[k]
    ensures forall k: Seat :: k !in b.register ==>
                                (k in Updated(b, m, now).register <==>
                                 k.event < |b.events| && Completes(b.events[k.event], now)
                                 && k.user in MembersOf(m, b.events[k.event].group))
    ensures forall k :: k in Updated(b, m, now).register && k !in b.register ==>
              Updated(b, m, now).register[k] == Invited
  {
    forall k: Seat ensures k in Due(b.events, m, now) <==>
                           k.event < |b.events| && Completes(b.events[k.event], now)
                           && k.user in MembersOf(m, b.events[k.event].group)
    {
      DueExactly(b.events, m, now, k);
    }
  }

  /** Every completed event has a row for each active member of its group. */
  ghost predicate Filled(b: Board, m: Members) {
    forall i: nat, u: UserId ::
      i < |b.events| && b.events[i].status == Completed && u in MembersOf(m, b.events[i].group) ==>
        Seat(i, u) in b.register
  }

  /**
   * A save that hands an already completed event to another group, with an active
   * member there who has no row: the stored status does not change, so no rows
   * are made.
   */
  predicate StrandsMembers(b: Board, m: Members, op: Op) {
    && op.SaveEvent? && op.i < |b.events| && b.events[op.i].status == Completed && op.e.status == Completed
    && exists u :: u in MembersOf(m, op.e.group) && Seat(op.i, u) !in b.register
  }

  lemma OtherStepsKeepFilled(b: Board, m: Members, op: Op)
    requires Filled(b, m) && !StrandsMembers(b, m, op)
    ensures Filled(Step(b, m, op), m)
  {
    var after := Step(b, m, op);
    forall i: nat, u: UserId
      | i < |after.events| && after.events[i].status == Completed && u in MembersOf(m, after.events[i].group)
      ensures Seat(i, u) in after.register
    {
      if op.RunClock? {
        DueExactly(b.events, m, op.now, Seat(i, u));
      }
    }
  }

  /** A full register stays full in every step but one that strands members. */
  lemma StepKeepsFilledExactly(b: Board, m: Members, op: Op)
    requires Filled(b, m)
    ensures Filled(Step(b, m, op), m) <==> !StrandsMembers(b, m, op)
  {
    if StrandsMembers(b, m, op) {
      var u :| u in MembersOf(m, op.e.group) && Seat(op.i, u) !in b.register;
      var after := Step(b, m, op);
      assert after.events[op.i].status == Completed && Seat(op.i, u) !in after.register;
    } else {
      OtherStepsKeepFilled(b, m, op);
    }
  }

  function RunAll(b: Board, m: Members, ops: seq<Op>): Board {
    if ops == [] then b else Step(RunAll(b, m, ops[..|ops| - 1]), m, ops[|ops| - 1])
  }

  /** The boards of a run from the empty one. */
  function BoardAfter(m: Members, ops: seq<Op>): Board {
    RunAll(Board([], map[]), m, ops)
  }

  /** The register is full now, and was at every earlier moment of the run. */
  ghost predicate AlwaysFilled(m: Members, ops: seq<Op>) {
    Filled(BoardAfter(m, ops), m) && (ops != [] ==> AlwaysFilled(m, ops[..|ops| - 1]))
  }

  /** No step stranded anybody when it was taken. */
  ghost predicate NobodyStranded(m: Members, ops: seq<Op>) {
    ops != [] ==>
      NobodyStranded(m, ops[..|ops| - 1]) && !StrandsMembers(BoardAfter(m, ops[..|ops| - 1]), m, ops[|ops| - 1])
  }

  /** Completed events have a full register at every moment of a run exactly when no step of it strands members. */
  lemma {:induction false} RunsStayFilledExactly(m: Members, ops: seq<Op>)
    ensures AlwaysFilled(m, ops) <==> NobodyStranded(m, ops)
  {
    if ops != [] {
      var n := |ops| - 1;
      RunsStayFilledExactly(m, ops[..n]);
      if AlwaysFilled(m, ops[..n]) {
        StepKeepsFilledExactly(BoardAfter(m, ops[..n]), m, ops[n]);
      }
    }
  }

  /** Such a step exists: an event completes in one group and is then saved in another one that has a member. */
  lemma MovedEventStrandsMembers(g: GroupId, h: GroupId, u: UserId, start: Time, end: Time)
    requires g != h
    ensures var (m, done) := (map[h := {u}], Event(g, start, end, Completed));
            var ops := [CreateEvent(done), SaveEvent(0, done.(group := h))];
            && Filled(BoardAfter(m, ops[..1]), m) && !Filled(BoardAfter(m, ops), m)
            && BoardAfter(m, ops) == Board([done.(group := h)], map[])
  {
    var m: Members := map[h := {u}];
    var done := Event(g, start, end, Completed);
    var ops := [CreateEvent(done), SaveEvent(0, done.(group := h))];
    assert ops[..1][..0] == [] && ops[..2] == ops && MembersOf(m, g) == {};
    var once := BoardAfter(m, ops[..1]);
    var empty: Register := map[];
    assert Seats(0, {}) == {};
    InviteNobody(empty);
    var none: seq<Event> := [];
    assert none + [done] == [done];
    assert once == Step(Board(none, empty), m, CreateEvent(done)) by {
      assert BoardAfter(m, ops[..1][..0]) == Board(none, empty);
    }
    assert once == Board([done], empty);
    assert u in MembersOf(m, h) && Seat(0, u) !in once.register;
    StepKeepsFilledExactly(once, m, ops[1]);
  }
}
