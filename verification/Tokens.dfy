/**
 * Refresh tokens that rotate on use, and stateless access tokens whose life and
 * scopes are checked again on every request.
 */
module Tokens {
  import opened Common

  type ClientId = nat
  type Time = real

  /** A raw token. Its stored hash is taken to be injective, so the row carries the token itself. */
  type Raw = nat

  // ---------------------------------------------------------------- refresh tokens

  /** lineage is the credential exchange the row descends from; the source does not store it. */
  datatype Row = Row(client: ClientId, raw: Raw, expiresAt: Time, revokedAt: Option<Time>, lineage: nat)

  datatype Store = Store(now: Time, active: set<ClientId>, rows: seq<Row>, exchanges: nat)

  /** The unique constraint on the token hash. */
  ghost predicate UniqueRaws(rows: seq<Row>) {
    forall i, j :: 0 <= i < j < |rows| ==> rows[i].raw != rows[j].raw
  }

  /** The position of the row with this token; the length when there is none. */
  function Find(rows: seq<Row>, raw: Raw): (k: nat)
    ensures k <= |rows|
    ensures k < |rows| ==> rows[k].raw == raw
    ensures forall i :: 0 <= i < k ==> rows[i].raw != raw
  {
    if rows == [] then 0 else if rows[0].raw == raw then 0 else 1 + Find(rows[1..], raw)
  }

  predicate Usable(s: Store, r: Row) {
    r.revokedAt.None? && !(r.expiresAt <= s.now) && r.client in s.active
  }

  predicate Redeemable(s: Store, raw: Raw) {
    Find(s.rows, raw) < |s.rows| && Usable(s, s.rows[Find(s.rows, raw)])
  }

  function Revoked(s: Store, k: nat): seq<Row>
    requires k < |s.rows|
  {
    s.rows[k := s.rows[k].(revokedAt := Some(s.now))]
  }

  datatype Action =
    | Exchange(client: ClientId, minted: Raw)
    | Redeem(raw: Raw, minted: Raw)
    | Revoke(raw: Raw)
    | Tick(to: Time)
    | SetActive(client: ClientId, isActive: bool)

  /** A minted token is one nobody has seen. */
  predicate Fresh(s: Store, raw: Raw) {
    Find(s.rows, raw) == |s.rows|
  }

  /** A credential exchange needs an active client; redeeming needs a usable token; minting needs a fresh one. */
  function Step(s: Store, a: Action, ttl: Time): Store {
    match a
    case Exchange(c, minted) =>
      if c in s.active && Fresh(s, minted) then
        s.(rows := s.rows + [Row(c, minted, s.now + ttl, None, s.exchanges)], exchanges := s.exchanges + 1)
      else s
    case Redeem(raw, minted) =>
      if Redeemable(s, raw) && Fresh(s, minted) then
        var k := Find(s.rows, raw);
        s.(rows := Revoked(s, k) + [Row(s.rows[k].client, minted, s.now + ttl, None, s.rows[k].lineage)])
      else s
    case Revoke(raw) =>
      var k := Find(s.rows, raw);
      if k < |s.rows| && s.rows[k].revokedAt.None? then s.(rows := Revoked(s, k)) else s
    case Tick(to) => if to > s.now then s.(now := to) else s
    case SetActive(c, on) => s.(active := if on then s.active + {c} else s.active - {c})
  }

  class TokenStore {
    var now: Time
    var active: set<ClientId>
    var rows: seq<Row>
    var exchanges: nat

    function Snapshot(): Store
      reads this
    {
      Store(now, active, rows, exchanges)
    }

    ghost predicate Valid()
      reads this
    {
      UniqueRaws(rows)
    }

    constructor (now: Time, active: set<ClientId>)
      ensures Valid() && Snapshot() == Empty(now, active)
    {
      this.now, this.active, rows, exchanges := now, active, [], 0;
    }

    /** Create the row for a token minted on behalf of one lineage. */
    method IssueRefreshToken(c: ClientId, minted: Raw, ttl: Time, lineage: nat)
      requires Valid() && Fresh(Snapshot(), minted)
      modifies this`rows
      ensures Valid() && rows == old(rows) + [Row(c, minted, now + ttl, None, lineage)]
    {
      rows := rows + [Row(c, minted, now + ttl, None, lineage)];
    }

    /** The token endpoint, after the secret has been checked. */
    method ExchangeCredentials(c: ClientId, minted: Raw, ttl: Time) returns (ok: bool)
      requires Valid() && Fresh(Snapshot(), minted)
      modifies this`rows, this`exchanges
      ensures Valid() && Snapshot() == Step(old(Snapshot()), Exchange(c, minted), ttl)
      ensures ok <==> c in active
    {
      if c !in active {
        return false;
      }
      IssueRefreshToken(c, minted, ttl, exchanges);
      exchanges := exchanges + 1;
      return true;
    }

    /** Revoke the presented row first, then mint its replacement. */
    method RedeemRefreshToken(raw: Raw, minted: Raw, ttl: Time) returns (r: Option<(ClientId, Raw)>)
      requires Valid() && Fresh(Snapshot(), minted)
      modifies this`rows
      ensures Valid() && Snapshot() == Step(old(Snapshot()), Redeem(raw, minted), ttl)
      ensures r.Some? <==> exists i :: 0 <= i < |old(rows)| && old(rows)[i].raw == raw && old(rows)[i].revokedAt.None?
                                       && now < old(rows)[i].expiresAt && old(rows)[i].client in active
      ensures r.Some? ==> r.value == (old(rows)[Find(old(rows), raw)].client, minted)
    {
      RedeemableExactly(Snapshot(), raw);
      var k := Find(rows, raw);
      if k == |rows| || !Usable(Snapshot(), rows[k]) {
        return None;
      }
      var token := rows[k];
      rows := rows[k := token.(revokedAt := Some(now))];
      FreshSurvives(old(Snapshot()), k, minted);
      IssueRefreshToken(token.client, minted, ttl, token.lineage);
      return Some((token.client, minted));
    }

    method RevokeRefreshToken(raw: Raw)
      requires Valid()
      modifies this`rows
      ensures Valid() && Snapshot() == Step(old(Snapshot()), Revoke(raw), 0.0)
    {
      var k := Find(rows, raw);
      if k < |rows| && rows[k].revokedAt.None? {
        rows := rows[k := rows[k].(revokedAt := Some(now))];
      }
    }
  }

  function Empty(now: Time, active: set<ClientId>): Store {
    Store(now, active, [], 0)
  }

  /** A token is accepted exactly when its row is unrevoked, its expiry is still ahead, and its client is active. */
  lemma RedeemableExactly(s: Store, raw: Raw)
    requires UniqueRaws(s.rows)
    ensures Redeemable(s, raw) <==>
            exists i :: 0 <= i < |s.rows| && s.rows[i].raw == raw && s.rows[i].revokedAt.None?
                        && s.now < s.rows[i].expiresAt && s.rows[i].client in s.active
  {
    if i :| 0 <= i < |s.rows| && s.rows[i].raw == raw && s.rows[i].revokedAt.None?
            && s.now < s.rows[i].expiresAt && s.rows[i].client in s.active {
      assert Find(s.rows, raw) == i;
    }
  }

  lemma FreshMeansUnseen(s: Store, raw: Raw)
    ensures Fresh(s, raw) <==> forall i :: 0 <= i < |s.rows| ==> s.rows[i].raw != raw
  {
  }

  lemma FreshSurvives(s: Store, k: nat, raw: Raw)
    requires k < |s.rows| && Fresh(s, raw)
    ensures Fresh(s.(rows := Revoked(s, k)), raw)
  {
    FreshMeansUnseen(s, raw);
    FreshMeansUnseen(s.(rows := Revoked(s, k)), raw);
  }

  function Run(s: Store, actions: seq<Action>, ttl: Time): Store {
    if actions == [] then s else Step(Run(s, actions[..|actions| - 1], ttl), actions[|actions| - 1], ttl)
  }

  /** The rows of one lineage that are not revoked; at most one. */
  ghost predicate OneLivePerLineage(s: Store) {
    forall i, j :: 0 <= i < j < |s.rows| && s.rows[i].lineage == s.rows[j].lineage ==>
                     s.rows[i].revokedAt.Some? || s.rows[j].revokedAt.Some?
  }

  ghost predicate LineagesKnown(s: Store) {
    forall i :: 0 <= i < |s.rows| ==> s.rows[i].lineage < s.exchanges
  }

  ghost predicate Sound(s: Store) {
    UniqueRaws(s.rows) && OneLivePerLineage(s) && LineagesKnown(s)
  }

  lemma MintKeepsSound(s: Store, row: Row, exchanges: nat)
    requires Sound(s) && Fresh(s, row.raw) && s.exchanges <= exchanges && row.lineage < exchanges
    requires forall i :: 0 <= i < |s.rows| && s.rows[i].lineage == row.lineage ==> s.rows[i].revokedAt.Some?
    ensures Sound(s.(rows := s.rows + [row], exchanges := exchanges))
  {
    FreshMeansUnseen(s, row.raw);
  }

  lemma RevocationKeepsSound(s: Store, k: nat)
    requires Sound(s) && k < |s.rows|
    ensures Sound(s.(rows := Revoked(s, k)))
  {
  }

  lemma RedeemKeepsSound(s: Store, raw: Raw, minted: Raw, ttl: Time)
    requires Sound(s) && Redeemable(s, raw) && Fresh(s, minted)
    ensures Sound(Step(s, Redeem(raw, minted), ttl))
  {
    var k := Find(s.rows, raw);
    var t := s.(rows := Revoked(s, k));
    RevocationKeepsSound(s, k);
    FreshSurvives(s, k, minted);
    var row := Row(s.rows[k].client, minted, s.now + ttl, None, s.rows[k].lineage);
    MintKeepsSound(t, row, s.exchanges);
  }

  lemma ExchangeKeepsSound(s: Store, c: ClientId, minted: Raw, ttl: Time)
    requires Sound(s) && c in s.active && Fresh(s, minted)
    ensures Sound(Step(s, Exchange(c, minted), ttl))
  {
    MintKeepsSound(s, Row(c, minted, s.now + ttl, None, s.exchanges), s.exchanges + 1);
  }

  lemma StepKeepsSound(s: Store, a: Action, ttl: Time)
    requires Sound(s)
    ensures Sound(Step(s, a, ttl))
  {
    match a
    case Exchange(c, minted) =>
      if c in s.active && Fresh(s, minted) {
        ExchangeKeepsSound(s, c, minted, ttl);
      }
    case Redeem(raw, minted) =>
      if Redeemable(s, raw) && Fresh(s, minted) {
        RedeemKeepsSound(s, raw, minted, ttl);
      }
    case Revoke(raw) =>
      if Find(s.rows, raw) < |s.rows| {
        RevocationKeepsSound(s, Find(s.rows, raw));
      }
    case Tick(to) =>
    case SetActive(c, on) =>
  }

  lemma {:induction false} RunsStaySound(now: Time, active: set<ClientId>, actions: seq<Action>, ttl: Time)
    ensures Sound(Run(Empty(now, active), actions, ttl))
  {
    if actions != [] {
      RunsStaySound(now, active, actions[..|actions| - 1], ttl);
      StepKeepsSound(Run(Empty(now, active), actions[..|actions| - 1], ttl), actions[|actions| - 1], ttl);
    }
  }

  // ---------------------------------------------------------------- never more tokens than exchanges

  ghost function Unrevoked(s: Store): set<nat> {
    set i: nat | i < |s.rows| && s.rows[i].revokedAt.None?
  }

  /** A set of positions whose lineages differ and lie below n has at most n members. */
  lemma {:induction false} DistinctLineagesAreFew(rows: seq<Row>, live: set<nat>, n: nat)
    requires forall i :: i in live ==> i < |rows| && rows[i].lineage < n
    requires forall i, j :: i in live && j in live && i != j ==> rows[i].lineage != rows[j].lineage
    ensures |live| <= n
    decreases n
  {
    if live != {} {
      var x :| x in live;
      assert rows[x].lineage < n;
      if k :| k in live && rows[k].lineage == n - 1 {
        DistinctLineagesAreFew(rows, live - {k}, n - 1);
      } else {
        DistinctLineagesAreFew(rows, live, n - 1);
      }
    }
  }

  /** Over every run, the unrevoked refresh tokens never outnumber the credential exchanges. */
  lemma LiveTokensNeverOutnumberExchanges(now: Time, active: set<ClientId>, actions: seq<Action>, ttl: Time)
    ensures var s := Run(Empty(now, active), actions, ttl);
            |Unrevoked(s)| <= s.exchanges
  {
    RunsStaySound(now, active, actions, ttl);
    var s := Run(Empty(now, active), actions, ttl);
    forall i, j | i in Unrevoked(s) && j in Unrevoked(s) && i != j
      ensures s.rows[i].lineage != s.rows[j].lineage
    {
      assert i < j || j < i;
    }
    DistinctLineagesAreFew(s.rows, Unrevoked(s), s.exchanges);
  }

  /** How many of the run's credential exchanges were answered: for a client active at the time, with a fresh token. */
  function AnsweredExchanges(s: Store, actions: seq<Action>, ttl: Time): nat {
    if actions == [] then 0
    else
      var (before, a) := (Run(s, actions[..|actions| - 1], ttl), actions[|actions| - 1]);
      AnsweredExchanges(s, actions[..|actions| - 1], ttl)
      + if a.Exchange? && a.client in before.active && Fresh(before, a.minted) then 1 else 0
  }

  /** The store counts exactly those. */
  lemma {:induction false} ExchangesAreCounted(now: Time, active: set<ClientId>, actions: seq<Action>, ttl: Time)
    ensures Run(Empty(now, active), actions, ttl).exchanges == AnsweredExchanges(Empty(now, active), actions, ttl)
  {
    if actions != [] {
      ExchangesAreCounted(now, active, actions[..|actions| - 1], ttl);
    }
  }

  // ---------------------------------------------------------------- once redeemed, never again

  ghost predicate Spent(s: Store, raw: Raw) {
    exists i :: 0 <= i < |s.rows| && s.rows[i].raw == raw && s.rows[i].revokedAt.Some?
  }

  lemma SpentStaysSpent(s: Store, a: Action, raw: Raw, ttl: Time)
    requires Spent(s, raw)
    ensures Spent(Step(s, a, ttl), raw)
  {
    var i :| 0 <= i < |s.rows| && s.rows[i].raw == raw && s.rows[i].revokedAt.Some?;
    assert Step(s, a, ttl).rows[i].raw == raw;
  }

  lemma {:induction false} SpentStaysSpentInRuns(s: Store, actions: seq<Action>, raw: Raw, ttl: Time)
    requires Spent(s, raw)
    ensures Spent(Run(s, actions, ttl), raw)
  {
    if actions != [] {
      SpentStaysSpentInRuns(s, actions[..|actions| - 1], raw, ttl);
      SpentStaysSpent(Run(s, actions[..|actions| - 1], ttl), actions[|actions| - 1], raw, ttl);
    }
  }

  lemma {:induction false} RunKeepsSound(s: Store, actions: seq<Action>, ttl: Time)
    requires Sound(s)
    ensures Sound(Run(s, actions, ttl))
  {
    if actions != [] {
      RunKeepsSound(s, actions[..|actions| - 1], ttl);
      StepKeepsSound(Run(s, actions[..|actions| - 1], ttl), actions[|actions| - 1], ttl);
    }
  }

  /** A token that was redeemed is refused ever after, whatever happens in between. */
  lemma RedeemedOnceOnly(s: Store, raw: Raw, minted: Raw, later: seq<Action>, ttl: Time)
    requires Sound(s) && Redeemable(s, raw) && Fresh(s, minted)
    ensures !Redeemable(Run(Step(s, Redeem(raw, minted), ttl), later, ttl), raw)
  {
    var t := Step(s, Redeem(raw, minted), ttl);
    StepKeepsSound(s, Redeem(raw, minted), ttl);
    assert t.rows[Find(s.rows, raw)].raw == raw;
    assert Spent(t, raw);
    SpentStaysSpentInRuns(t, later, raw, ttl);
    RunKeepsSound(t, later, ttl);
    var u := Run(t, later, ttl);
    var i :| 0 <= i < |u.rows| && u.rows[i].raw == raw && u.rows[i].revokedAt.Some?;
    assert Find(u.rows, raw) == i;
  }

  /** Rotation hands the lineage on: the replacement is live, usable and of the same lineage. */
  lemma RedeemRotates(s: Store, raw: Raw, minted: Raw, ttl: Time)
    requires Sound(s) && Redeemable(s, raw) && Fresh(s, minted) && ttl > 0.0
    ensures var t := Step(s, Redeem(raw, minted), ttl);
            && Redeemable(t, minted)
            && t.rows[Find(t.rows, minted)].lineage == s.rows[Find(s.rows, raw)].lineage
            && t.rows[Find(t.rows, minted)].client == s.rows[Find(s.rows, raw)].client
            && |Unrevoked(t)| == |Unrevoked(s)|
  {
    var t := Step(s, Redeem(raw, minted), ttl);
    var k := Find(s.rows, raw);
    FreshMeansUnseen(s, minted);
    assert t.rows[|s.rows|].raw == minted;
    assert Find(t.rows, minted) == |s.rows|;
    assert Unrevoked(t) == Unrevoked(s) - {k} + {|s.rows|};
    SwapKeepsSize(Unrevoked(s), k, |s.rows|);
  }

  lemma SwapKeepsSize(a: set<nat>, removed: nat, added: nat)
    requires removed in a && added !in a
    ensures |a - {removed} + {added}| == |a|
  {
  }

  /** Revoking twice is revoking once, and a revoked token is not accepted. */
  lemma RevokeIsIdempotent(s: Store, raw: Raw, ttl: Time)
    requires Sound(s)
    ensures Step(Step(s, Revoke(raw), ttl), Revoke(raw), ttl) == Step(s, Revoke(raw), ttl)
    ensures !Redeemable(Step(s, Revoke(raw), ttl), raw)
  {
    var t := Step(s, Revoke(raw), ttl);
    var k := Find(s.rows, raw);
    assert Find(t.rows, raw) == k by {
      assert forall i :: 0 <= i < |s.rows| ==> t.rows[i].raw == s.rows[i].raw;
    }
  }

  // ---------------------------------------------------------------- the life of one token

  /** The action makes this token for this client. */
  ghost predicate Mints(s: Store, a: Action, minted: Raw, c: ClientId) {
    || (a == Exchange(c, minted) && c in s.active && Fresh(s, minted))
    || (a.Redeem? && a.minted == minted && Fresh(s, minted) && Redeemable(s, a.raw)
        && s.rows[Find(s.rows, a.raw)].client == c)
  }

  /** The action uses the token up, or gives it up. */
  ghost predicate Consumes(s: Store, a: Action, raw: Raw) {
    a == Revoke(raw) || (a.Redeem? && a.raw == raw && Redeemable(s, raw) && Fresh(s, a.minted))
  }

  /** Some action of the run used the token up. */
  ghost predicate Consumed(s: Store, actions: seq<Action>, raw: Raw, ttl: Time) {
    actions != [] &&
    (Consumed(s, actions[..|actions| - 1], raw, ttl)
     || Consumes(Run(s, actions[..|actions| - 1], ttl), actions[|actions| - 1], raw))
  }

  /** A row keeps its token, client, expiry and lineage; it is revoked when the token is consumed, and only then. */
  lemma StepKeepsRow(s: Store, a: Action, ttl: Time, i: nat)
    requires Sound(s) && i < |s.rows|
    ensures i < |Step(s, a, ttl).rows|
    ensures Step(s, a, ttl).rows[i] == s.rows[i].(revokedAt := Step(s, a, ttl).rows[i].revokedAt)
    ensures Step(s, a, ttl).rows[i].revokedAt
            == if s.rows[i].revokedAt.None? && Consumes(s, a, s.rows[i].raw) then Some(s.now) else s.rows[i].revokedAt
  {
    assert Find(s.rows, s.rows[i].raw) == i;
  }

  lemma {:induction false} RunKeepsRow(s: Store, actions: seq<Action>, ttl: Time, i: nat)
    requires Sound(s) && i < |s.rows|
    ensures var u := Run(s, actions, ttl);
            && i < |u.rows| && u.rows[i] == s.rows[i].(revokedAt := u.rows[i].revokedAt)
            && (u.rows[i].revokedAt.None? <==>
                s.rows[i].revokedAt.None? && !Consumed(s, actions, s.rows[i].raw, ttl))
  {
    if actions != [] {
      var n := |actions| - 1;
      RunKeepsRow(s, actions[..n], ttl, i);
      RunKeepsSound(s, actions[..n], ttl);
      StepKeepsRow(Run(s, actions[..n], ttl), actions[n], ttl, i);
    }
  }

  lemma MintedRow(s: Store, a: Action, minted: Raw, c: ClientId, ttl: Time)
    requires Sound(s) && Mints(s, a, minted, c)
    ensures var t := Step(s, a, ttl);
            && Sound(t) && |t.rows| == |s.rows| + 1
            && t.rows[|s.rows|] == Row(c, minted, s.now + ttl, None, t.rows[|s.rows|].lineage)
  {
    StepKeepsSound(s, a, ttl);
  }

  /** With unique tokens, a row's own fields decide whether its token is accepted. */
  lemma RowDecides(s: Store, i: nat)
    requires UniqueRaws(s.rows) && i < |s.rows|
    ensures Redeemable(s, s.rows[i].raw) <==>
            s.rows[i].revokedAt.None? && s.now < s.rows[i].expiresAt && s.rows[i].client in s.active
  {
    RedeemableExactly(s, s.rows[i].raw);
  }

  /**
   * A token minted for a client at time t, after any later run: it is accepted
   * exactly while the clock is before t + ttl, the client is active and nothing has
   * consumed it.
   */
  lemma MintedTokenLivesExactly(s: Store, a: Action, minted: Raw, c: ClientId, later: seq<Action>, ttl: Time)
    requires Sound(s) && Mints(s, a, minted, c)
    ensures var t := Step(s, a, ttl);
            var u := Run(t, later, ttl);
            Redeemable(u, minted) <==> u.now < s.now + ttl && c in u.active && !Consumed(t, later, minted, ttl)
  {
    MintedRow(s, a, minted, c, ttl);
    RowLivesExactly(Step(s, a, ttl), |s.rows|, later, ttl);
  }

  lemma RowLivesExactly(t: Store, i: nat, later: seq<Action>, ttl: Time)
    requires Sound(t) && i < |t.rows| && t.rows[i].revokedAt.None?
    ensures var u := Run(t, later, ttl);
            var row := t.rows[i];
            Redeemable(u, row.raw) <==>
            u.now < row.expiresAt && row.client in u.active && !Consumed(t, later, row.raw, ttl)
  {
    RunKeepsRow(t, later, ttl, i);
    RunKeepsSound(t, later, ttl);
    RowDecides(Run(t, later, ttl), i);
  }

  /** The last word on whether a client is active. */
  function LastWord(actions: seq<Action>, c: ClientId, initially: bool): bool {
    if actions == [] then initially
    else
      var a := actions[|actions| - 1];
      if a.SetActive? && a.client == c then a.isActive else LastWord(actions[..|actions| - 1], c, initially)
  }

  /** The latest time the clock was set to. */
  function LatestTick(actions: seq<Action>, initially: Time): Time {
    if actions == [] then initially
    else
      var before := LatestTick(actions[..|actions| - 1], initially);
      var a := actions[|actions| - 1];
      if a.Tick? && a.to > before then a.to else before
  }

  /** The clock never runs back, and a client is active as it was last set. */
  lemma {:induction false} ClockAndClients(s: Store, actions: seq<Action>, ttl: Time, c: ClientId)
    ensures Run(s, actions, ttl).now == LatestTick(actions, s.now) >= s.now
    ensures c in Run(s, actions, ttl).active <==> LastWord(actions, c, c in s.active)
  {
    if actions != [] {
      ClockAndClients(s, actions[..|actions| - 1], ttl, c);
    }
  }

  /**
   * Switching a client off refuses its token for as long as it stays off, whatever
   * else happens; switching it on again accepts the token exactly if it is still
   * unexpired and unconsumed.
   */
  lemma InactiveClientIsRefused(s: Store, a: Action, minted: Raw, c: ClientId, later: seq<Action>, ttl: Time)
    requires Sound(s) && Mints(s, a, minted, c)
    ensures var t := Step(s, a, ttl);
            && (!LastWord(later, c, true) ==> !Redeemable(Run(t, later, ttl), minted))
            && (Redeemable(Run(t, later + [SetActive(c, true)], ttl), minted) <==>
                LatestTick(later, s.now) < s.now + ttl && !Consumed(t, later, minted, ttl))
  {
    var t := Step(s, a, ttl);
    var on := later + [SetActive(c, true)];
    assert on[..|on| - 1] == later;
    MintedTokenLivesExactly(s, a, minted, c, later, ttl);
    MintedTokenLivesExactly(s, a, minted, c, on, ttl);
    ClockAndClients(t, later, ttl, c);
    ClockAndClients(t, on, ttl, c);
    assert c in s.active && c in t.active && t.now == s.now;
  }
}
