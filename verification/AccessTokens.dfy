/** Access tokens: a signed payload with whole-second stamps, judged against the client's current record. */
module AccessTokens {
  import opened Common

  type Time = real

  /** Every scope the API knows, in canonical order. */
  const ALL_SCOPES: seq<string> := ["users:read", "groups:read", "memberships:read", "bills:read"]

  /** The values of all that lie in chosen, in the order of all. */
  function Pick(all: seq<string>, chosen: set<string>): seq<string> {
    if all == [] then []
    else if all[0] in chosen then [all[0]] + Pick(all[1..], chosen)
    else Pick(all[1..], chosen)
  }

  function AsSet(s: seq<string>): set<string> {
    set x | x in s
  }

  function EnabledScopes(scopes: seq<string>): seq<string> {
    Pick(ALL_SCOPES, AsSet(scopes))
  }

  lemma {:induction false} PickHolds(all: seq<string>, chosen: set<string>)
    ensures AsSet(Pick(all, chosen)) == AsSet(all) * chosen
    ensures NoRepeats(all) ==> NoRepeats(Pick(all, chosen))
  {
    if all != [] {
      PickHolds(all[1..], chosen);
      assert all == [all[0]] + all[1..];
      assert forall x :: x in Pick(all[1..], chosen) ==> x in AsSet(Pick(all[1..], chosen));
      if all[0] in chosen {
        assert AsSet(Pick(all, chosen)) == {all[0]} + AsSet(Pick(all[1..], chosen));
      }
    }
  }

  /** Picking twice is picking what lies in both. */
  lemma {:induction false} PickTwice(all: seq<string>, a: set<string>, b: set<string>)
    ensures Pick(Pick(all, a), b) == Pick(all, a * b)
  {
    if all != [] {
      PickTwice(all[1..], a, b);
      if all[0] in a {
        assert ([all[0]] + Pick(all[1..], a))[1..] == Pick(all[1..], a);
      }
    }
  }

  lemma {:induction false} PickDependsOnMembers(all: seq<string>, a: set<string>, b: set<string>)
    requires AsSet(all) * a == AsSet(all) * b
    ensures Pick(all, a) == Pick(all, b)
  {
    if all != [] {
      assert all[0] in AsSet(all);
      assert all[0] in a <==> all[0] in AsSet(all) * a;
      assert all[0] in b <==> all[0] in AsSet(all) * b;
      var rest := AsSet(all[1..]);
      assert rest <= AsSet(all);
      forall x ensures x in rest * a <==> x in rest * b {
        if x in rest {
          assert x in a <==> x in AsSet(all) * a;
          assert x in b <==> x in AsSet(all) * b;
        }
      }
      PickDependsOnMembers(all[1..], a, b);
    }
  }

  /** Picking keeps the order of all. */
  lemma {:induction false} PickKeepsOrder(all: seq<string>, chosen: set<string>, i: nat, j: nat, p: nat, q: nat)
    requires NoRepeats(all) && i < j < |Pick(all, chosen)| && p < |all| && q < |all|
    requires Pick(all, chosen)[i] == all[p] && Pick(all, chosen)[j] == all[q]
    ensures p < q
  {
    PickHolds(all[1..], chosen);
    var rest := Pick(all[1..], chosen);
    assert forall x :: x in rest ==> x in AsSet(rest);
    assert forall k :: 0 <= k < |all| - 1 ==> all[1..][k] == all[k + 1];
    if all[0] in chosen {
      assert rest[j - 1] in rest && all[q] in all[1..];
      if i > 0 {
        assert rest[i - 1] in rest && all[p] in all[1..];
        PickKeepsOrder(all[1..], chosen, i - 1, j - 1, p - 1, q - 1);
      }
    } else {
      assert rest[i] in rest && rest[j] in rest && all[p] in all[1..] && all[q] in all[1..];
      PickKeepsOrder(all[1..], chosen, i, j, p - 1, q - 1);
    }
  }

  // ---------------------------------------------------------------- the client record

  class ApiClient {
    var scopes: seq<string>
    var isActive: bool

    constructor (isActive: bool)
      ensures scopes == [] && this.isActive == isActive
    {
      scopes, this.isActive := [], isActive;
    }

    /** Saving refuses unknown scopes and stores the rest in canonical order without repeats. */
    method Save(wanted: seq<string>) returns (ok: bool)
      modifies this`scopes
      ensures ok <==> AsSet(wanted) <= AsSet(ALL_SCOPES)
      ensures scopes == (if ok then EnabledScopes(wanted) else old(scopes))
      ensures ok ==> AsSet(scopes) == AsSet(wanted) && NoRepeats(scopes) && EnabledScopes(scopes) == scopes
    {
      var unknown := AsSet(wanted) - AsSet(ALL_SCOPES);
      ok := unknown == {};
      assert forall x :: x in unknown <==> x in AsSet(wanted) && x !in AsSet(ALL_SCOPES);
      if ok {
        EnabledIsCanonical(wanted);
        PickHolds(ALL_SCOPES, AsSet(wanted));
        scopes := EnabledScopes(wanted);
      }
    }
  }

  lemma ScopesDiffer()
    ensures NoRepeats(ALL_SCOPES)
  {
    assert |ALL_SCOPES[0]| == 10 && |ALL_SCOPES[1]| == 11 && |ALL_SCOPES[2]| == 16 && |ALL_SCOPES[3]| == 10;
    assert ALL_SCOPES[0][0] != ALL_SCOPES[3][0];
  }

  /** The enabled scopes are duplicate-free and stable under the same selection. */
  lemma EnabledIsCanonical(scopes: seq<string>)
    ensures NoRepeats(EnabledScopes(scopes))
    ensures EnabledScopes(EnabledScopes(scopes)) == EnabledScopes(scopes)
    ensures AsSet(EnabledScopes(scopes)) == AsSet(ALL_SCOPES) * AsSet(scopes)
  {
    ScopesDiffer();
    PickHolds(ALL_SCOPES, AsSet(scopes));
    PickDependsOnMembers(ALL_SCOPES, AsSet(EnabledScopes(scopes)), AsSet(scopes));
  }

  // ---------------------------------------------------------------- issue and decode

  /** Whole seconds of a time after the epoch. */
  function Seconds(t: Time): int {
    t.Floor
  }

  datatype Payload = Payload(scopes: seq<string>, issuedAt: int, expiresAt: int, signedAt: int)

  /** The payload made at now and signed at signing; ttl is in whole seconds. */
  function Issue(scopes: seq<string>, now: Time, signing: Time, ttl: nat): Payload {
    Payload(EnabledScopes(scopes), Seconds(now), Seconds(now + ttl as real), Seconds(signing))
  }

  /** The signature's own age limit. */
  predicate SignatureFresh(p: Payload, now: Time, ttl: nat) {
    now - p.signedAt as real <= ttl as real
  }

  predicate Unexpired(p: Payload, now: Time) {
    p.expiresAt > Seconds(now)
  }

  /** Signature first, then the expiry claim, then the client's record; the two clock readings differ. */
  function Decode(p: Payload, ttl: nat, loadsAt: Time, checkedAt: Time, scopes: seq<string>,
                  isActive: bool): Option<seq<string>>
  {
    if !SignatureFresh(p, loadsAt, ttl) then None
    else if !Unexpired(p, checkedAt) then None
    else if !isActive then None
    else Some(Pick(EnabledScopes(scopes), AsSet(p.scopes)))
  }

  /**
   * With an unchanged ttl the two truncated stamps amount to one rule: the
   * signature's age limit never bites first, a token is accepted strictly
   * before issue + ttl, and always up to one second short of it.
   */
  lemma AcceptedExactly(granted: seq<string>, issued: Time, signing: Time, ttl: nat,
                        loadsAt: Time, checkedAt: Time, scopes: seq<string>, isActive: bool)
    requires 0.0 <= issued <= signing <= loadsAt <= checkedAt
    ensures var answer := Decode(Issue(granted, issued, signing, ttl), ttl, loadsAt, checkedAt, scopes, isActive);
            && (answer.Some? <==> isActive && Seconds(checkedAt) - Seconds(issued) < ttl)
            && (answer.Some? ==> checkedAt < issued + ttl as real)
            && (isActive && checkedAt <= issued + ttl as real - 1.0 ==> answer.Some?)
  {
    var p := Issue(granted, issued, signing, ttl);
    assert p.expiresAt == Seconds(issued) + ttl;
    assert Seconds(issued) <= p.signedAt;
  }

  /**
   * Where the configured life has changed since, each check bites on its own: the
   * expiry claim holds the token to its life at issue, the signature's age to the
   * life now.
   */
  lemma AcceptedUnderChangedLife(granted: seq<string>, issued: Time, signing: Time, ttl: nat, newTtl: nat,
                                 loadsAt: Time, checkedAt: Time, scopes: seq<string>, isActive: bool)
    ensures Decode(Issue(granted, issued, signing, ttl), newTtl, loadsAt, checkedAt, scopes, isActive).Some? <==>
            && isActive
            && checkedAt.Floor < issued.Floor + ttl
            && loadsAt <= signing.Floor as real + newTtl as real
  {
    assert (issued + ttl as real).Floor == issued.Floor + ttl;
  }

  /** The scopes returned are the canonical listing of what was enabled at issue and is enabled now. */
  lemma ScopesAreTheIntersection(granted: seq<string>, issued: Time, signing: Time, ttl: nat,
                                 loadsAt: Time, checkedAt: Time, scopes: seq<string>, isActive: bool)
    ensures var answer := Decode(Issue(granted, issued, signing, ttl), ttl, loadsAt, checkedAt, scopes, isActive);
            answer.Some? ==>
              && answer.value == Pick(ALL_SCOPES, AsSet(EnabledScopes(granted)) * AsSet(EnabledScopes(scopes)))
              && AsSet(answer.value) == AsSet(ALL_SCOPES) * AsSet(granted) * AsSet(scopes)
              && NoRepeats(answer.value)
  {
    var a, b := AsSet(scopes), AsSet(EnabledScopes(granted));
    PickTwice(ALL_SCOPES, a, b);
    EnabledIsCanonical(granted);
    EnabledIsCanonical(scopes);
    PickDependsOnMembers(ALL_SCOPES, a * b, b * AsSet(EnabledScopes(scopes)));
    PickHolds(ALL_SCOPES, a * b);
    ScopesDiffer();
  }
}
