/**
 * The fixed-window rate limiter over a shared cache with expiring counters:
 * any number of workers, each running the add / incr / re-add / incr protocol,
 * interleaved at the cache's atomic operations.
 */
module Throttle {
  import opened Common

  type WorkerId = nat

  /** One counter: a caller and the number of the time window. */
  datatype Key = Key(ident: string, bucket: int)

  /** life numbers the successful adds; it tells one lifetime of a key from the next. */
  datatype Entry = Entry(count: nat, expiresAt: real, life: nat)

  /** The cache operation a worker is about to perform. */
  datatype Phase = FirstAdd | FirstIncr | SecondAdd | SecondIncr

  datatype Worker = Idle | Busy(key: Key, phase: Phase)

  /** What a request got back; Uncounted is the answer after the second increment found no key. */
  datatype Outcome =
    | Counted(key: Key, count: nat, life: nat, at: real)
    | Uncounted(key: Key, at: real)

  datatype System = System(
    window: nat,
    now: real,
    cache: map<Key, Entry>,
    lives: nat,
    workers: map<WorkerId, Worker>,
    served: seq<Outcome>)

  datatype Event =
    | Tick(to: real)
    | Begin(worker: WorkerId, ident: string)
    | Advance(worker: WorkerId)
    | Evict(key: Key)

  // ---------------------------------------------------------------- one step

  function WorkerOf(s: System, w: WorkerId): Worker {
    if w in s.workers then s.workers[w] else Idle
  }

  predicate Live(s: System, k: Key) {
    k in s.cache && s.now < s.cache[k].expiresAt
  }

  function Bucket(t: real, window: nat): int
    requires window > 0
  {
    (t / window as real).Floor
  }

  /** A successful add: count 1, one second longer than the window. */
  function Added(s: System, k: Key): System {
    s.(cache := s.cache[k := Entry(1, s.now + (s.window + 1) as real, s.lives)], lives := s.lives + 1)
  }

  /** A successful increment keeps the expiry. */
  function Bumped(s: System, k: Key): System
    requires k in s.cache
  {
    s.(cache := s.cache[k := s.cache[k].(count := s.cache[k].count + 1)])
  }

  function Waiting(s: System, w: WorkerId, k: Key, phase: Phase): System {
    s.(workers := s.workers[w := Busy(k, phase)])
  }

  /** The request returns the count its operation just left. */
  function Answered(s: System, w: WorkerId, k: Key): System
    requires k in s.cache
  {
    s.(workers := s.workers[w := Idle],
       served := s.served + [Counted(k, s.cache[k].count, s.cache[k].life, s.now)])
  }

  function GaveUp(s: System, w: WorkerId, k: Key): System {
    s.(workers := s.workers[w := Idle], served := s.served + [Uncounted(k, s.now)])
  }

  function Next(s: System, e: Event): System
    requires s.window > 0
  {
    match e
    case Tick(to) => if to > s.now then s.(now := to) else s
    case Evict(k) => s.(cache := s.cache - {k})
    case Begin(w, ident) =>
      if WorkerOf(s, w).Idle? then Waiting(s, w, Key(ident, Bucket(s.now, s.window)), FirstAdd) else s
    case Advance(w) =>
      if WorkerOf(s, w).Idle? then s
      else
        var k := WorkerOf(s, w).key;
        match WorkerOf(s, w).phase
        case FirstAdd => if Live(s, k) then Waiting(s, w, k, FirstIncr) else Answered(Added(s, k), w, k)
        case FirstIncr => if Live(s, k) then Answered(Bumped(s, k), w, k) else Waiting(s, w, k, SecondAdd)
        case SecondAdd => if Live(s, k) then Waiting(s, w, k, SecondIncr) else Answered(Added(s, k), w, k)
        case SecondIncr => if Live(s, k) then Answered(Bumped(s, k), w, k) else GaveUp(s, w, k)
  }

  function Run(s: System, events: seq<Event>): (r: System)
    requires s.window > 0
    ensures r.window == s.window
  {
    if events == [] then s else Next(Run(s, events[..|events| - 1]), events[|events| - 1])
  }

  lemma RunOneMore(s: System, events: seq<Event>, e: Event)
    requires s.window > 0
    ensures Run(s, events + [e]) == Next(Run(s, events), e)
  {
    assert (events + [e])[..|events|] == events;
  }

  function Start(window: nat, now: real): System {
    System(window, now, map[], 0, map[], [])
  }

  // ---------------------------------------------------------------- the protocol as code

  /** Nobody in this stretch of events is worker w. */
  predicate LeavesAlone(events: seq<Event>, w: WorkerId) {
    forall e :: e in events ==> (e.Begin? || e.Advance?) ==> e.worker != w
  }

  lemma OneStepKeepsMyPhase(s: System, e: Event, w: WorkerId)
    requires s.window > 0 && ((e.Begin? || e.Advance?) ==> e.worker != w)
    ensures WorkerOf(Next(s, e), w) == WorkerOf(s, w)
  {
  }

  lemma {:induction false} OthersKeepMyPhase(s: System, events: seq<Event>, w: WorkerId)
    requires s.window > 0 && LeavesAlone(events, w)
    ensures WorkerOf(Run(s, events), w) == WorkerOf(s, w)
  {
    if events != [] {
      var n := |events| - 1;
      OthersKeepMyPhase(s, events[..n], w);
      assert events[n] in events;
      OneStepKeepsMyPhase(Run(s, events[..n]), events[n], w);
    }
  }

  /**
   * What happens between a worker's reading the clock and its first operation,
   * and between its first and second, second and third, third and fourth one.
   */
  datatype Gaps = Gaps(opening: seq<Event>, first: seq<Event>, second: seq<Event>, third: seq<Event>)

  predicate OthersOnly(gaps: Gaps, w: WorkerId) {
    && LeavesAlone(gaps.opening, w) && LeavesAlone(gaps.first, w)
    && LeavesAlone(gaps.second, w) && LeavesAlone(gaps.third, w)
  }

  /** Worker w's steps until it has its answer, with those stretches of other events in between. */
  function Finish(s: System, w: WorkerId, gaps: seq<seq<Event>>): System
    requires s.window > 0
    decreases |gaps|
  {
    var after := Next(s, Advance(w));
    if WorkerOf(after, w).Idle? || gaps == [] then after else Finish(Run(after, gaps[0]), w, gaps[1..])
  }

  /** The worker's operations, from the first add on. */
  function Interleaved(s: System, w: WorkerId, gaps: Gaps): System
    requires s.window > 0
  {
    Finish(s, w, [gaps.first, gaps.second, gaps.third])
  }

  class CacheServer {
    var sys: System

    constructor (window: nat, now: real)
      ensures sys == Start(window, now)
    {
      sys := Start(window, now);
    }

    /** Other workers, the clock and eviction, between two of our operations. */
    method Others(events: seq<Event>)
      requires sys.window > 0
      modifies this
      ensures sys == Run(old(sys), events)
    {
      ghost var before := sys;
      for i := 0 to |events|
        invariant sys.window > 0 && sys == Run(before, events[..i])
      {
        assert events[..i + 1][..i] == events[..i];
        sys := Next(sys, events[i]);
      }
      assert events[..|events|] == events;
    }

    method Add(k: Key) returns (added: bool)
      modifies this
      ensures added <==> !Live(old(sys), k)
      ensures sys == if added then Added(old(sys), k) else old(sys)
    {
      added := !Live(sys, k);
      if added {
        sys := Added(sys, k);
      }
    }

    /** None stands for the error raised when the key is gone. */
    method Incr(k: Key) returns (count: Option<nat>)
      modifies this
      ensures count.Some? <==> Live(old(sys), k)
      ensures count.Some? ==> sys == Bumped(old(sys), k) && k in sys.cache && count.value == sys.cache[k].count
      ensures count.None? ==> sys == old(sys)
    {
      if Live(sys, k) {
        sys := Bumped(sys, k);
        return Some(sys.cache[k].count);
      }
      return None;
    }

    /**
     * The hit routine with its retry branches. Whatever happens in the gaps
     * between its operations, it is the worker's steps of the state machine, and it returns the
     * count of the outcome it added to the record.
     */
    method Hit(w: WorkerId, k: Key, gaps: Gaps) returns (count: Option<nat>)
      requires sys.window > 0 && WorkerOf(sys, w) == Busy(k, FirstAdd) && OthersOnly(gaps, w)
      modifies this
      ensures sys == Interleaved(old(sys), w, gaps)
      ensures WorkerOf(sys, w).Idle? && sys.served != []
      ensures var o := sys.served[|sys.served| - 1];
              o.key == k && count == (if o.Counted? then Some(o.count) else None)
    {
      var added := Add(k);
      if added {
        sys := Answered(sys, w, k);
        return Some(1);
      }
      sys := Waiting(sys, w, k, FirstIncr);
      OthersKeepMyPhase(sys, gaps.first, w);
      Others(gaps.first);
      assert [gaps.first, gaps.second, gaps.third][1..] == [gaps.second, gaps.third];
      count := Increment(w, k, gaps.second, gaps.third);
    }

    /** The increment of a key that was there a moment ago. */
    method Increment(w: WorkerId, k: Key, second: seq<Event>, third: seq<Event>) returns (count: Option<nat>)
      requires sys.window > 0 && WorkerOf(sys, w) == Busy(k, FirstIncr) && LeavesAlone(second, w)
               && LeavesAlone(third, w)
      modifies this
      ensures sys == Finish(old(sys), w, [second, third])
      ensures WorkerOf(sys, w).Idle? && sys.served != []
      ensures var o := sys.served[|sys.served| - 1];
              o.key == k && count == (if o.Counted? then Some(o.count) else None)
    {
      count := Incr(k);
      if count.Some? {
        sys := Answered(sys, w, k);
        return;
      }
      sys := Waiting(sys, w, k, SecondAdd);
      OthersKeepMyPhase(sys, second, w);
      Others(second);
      assert [second, third][1..] == [third];
      count := StartOver(w, k, third);
    }

    /** The handler for a key that expired between add and incr: a new bucket, or the one that won the race. */
    method StartOver(w: WorkerId, k: Key, gap: seq<Event>) returns (count: Option<nat>)
      requires sys.window > 0 && WorkerOf(sys, w) == Busy(k, SecondAdd) && LeavesAlone(gap, w)
      modifies this
      ensures sys == Finish(old(sys), w, [gap])
      ensures WorkerOf(sys, w).Idle? && sys.served != []
      ensures var o := sys.served[|sys.served| - 1];
              o.key == k && count == (if o.Counted? then Some(o.count) else None)
    {
      var added := Add(k);
      if added {
        sys := Answered(sys, w, k);
        return Some(1);
      }
      sys := Waiting(sys, w, k, SecondIncr);
      OthersKeepMyPhase(sys, gap, w);
      Others(gap);
      assert [gap][1..] == [];
      count := Incr(k);
      if count.Some? {
        sys := Answered(sys, w, k);
      } else {
        sys := GaveUp(sys, w, k);
      }
    }

    /** The throttle's decision: no caller or no limit allows unmetered, an uncounted hit fails open. */
    method AllowRequest(w: WorkerId, ident: Option<string>, limit: int, gaps: Gaps) returns (ok: bool)
      requires sys.window > 0 && WorkerOf(sys, w).Idle? && OthersOnly(gaps, w)
      modifies this
      ensures ident.None? || limit <= 0 ==> ok && sys == old(sys)
      ensures ident.Some? && limit > 0 ==>
                && sys == Interleaved(Run(Next(old(sys), Begin(w, ident.value)), gaps.opening), w, gaps)
                && sys.served != []
                && ok == Allowed(sys.served[|sys.served| - 1], limit)
    {
      if ident.None? {
        return true;
      }
      if limit <= 0 {
        return true;
      }
      ok := Metered(w, ident.value, limit, gaps);
    }

    /** A request that counts: read the clock, hit the key, compare. */
    method Metered(w: WorkerId, ident: string, limit: nat, gaps: Gaps) returns (ok: bool)
      requires sys.window > 0 && WorkerOf(sys, w).Idle? && OthersOnly(gaps, w)
      modifies this
      ensures sys == Interleaved(Run(Next(old(sys), Begin(w, ident)), gaps.opening), w, gaps)
      ensures sys.served != [] && ok == Allowed(sys.served[|sys.served| - 1], limit)
    {
      var k := ReadClock(w, ident, gaps.opening);
      var count := Hit(w, k, gaps);
      ok := count.None? || count.value <= limit;
    }

    /** The key of the current time window; by the first operation that window may be over. */
    method ReadClock(w: WorkerId, ident: string, opening: seq<Event>) returns (k: Key)
      requires sys.window > 0 && WorkerOf(sys, w).Idle? && LeavesAlone(opening, w)
      modifies this
      ensures sys.window > 0 && sys == Run(Next(old(sys), Begin(w, ident)), opening)
      ensures k == Key(ident, Bucket(old(sys).now, old(sys).window)) && WorkerOf(sys, w) == Busy(k, FirstAdd)
    {
      k := Key(ident, Bucket(sys.now, sys.window));
      sys := Waiting(sys, w, k, FirstAdd);
      assert sys == Next(old(sys), Begin(w, ident));
      OthersKeepMyPhase(sys, opening, w);
      Others(opening);
    }
  }

  // ---------------------------------------------------------------- counts within one lifetime

  /** The counts handed out in lifetime g, in order. */
  function CountsOf(served: seq<Outcome>, g: nat): seq<nat> {
    if served == [] then []
    else
      var before := CountsOf(served[..|served| - 1], g);
      var o := served[|served| - 1];
      if o.Counted? && o.life == g then before + [o.count] else before
  }

  lemma CountsOneMore(served: seq<Outcome>, o: Outcome, g: nat)
    ensures CountsOf(served + [o], g)
            == if o.Counted? && o.life == g then CountsOf(served, g) + [o.count] else CountsOf(served, g)
  {
    assert (served + [o])[..|served|] == served;
  }

  /** 1, 2, 3, ... */
  ghost predicate Consecutive(s: seq<nat>) {
    forall i :: 0 <= i < |s| ==> s[i] == i + 1
  }

  ghost predicate Sound(s: System) {
    && (forall k :: k in s.cache ==> s.cache[k].life < s.lives
                                     && |CountsOf(s.served, s.cache[k].life)| == s.cache[k].count)
    && (forall k, l :: k in s.cache && l in s.cache && k != l ==> s.cache[k].life != s.cache[l].life)
    && (forall g: nat :: Consecutive(CountsOf(s.served, g)))
    && (forall g: nat :: g >= s.lives ==> CountsOf(s.served, g) == [])
  }

  lemma AnswerAfterAdd(s: System, w: WorkerId, k: Key)
    requires Sound(s)
    ensures Sound(Answered(Added(s, k), w, k))
  {
    var t := Answered(Added(s, k), w, k);
    forall g: nat ensures CountsOf(t.served, g) == if g == s.lives then [1] else CountsOf(s.served, g) {
      CountsOneMore(s.served, t.served[|s.served|], g);
    }
  }

  lemma AnswerAfterIncr(s: System, w: WorkerId, k: Key)
    requires Sound(s) && k in s.cache
    ensures Sound(Answered(Bumped(s, k), w, k))
  {
    var t := Answered(Bumped(s, k), w, k);
    var mine := s.cache[k].life;
    forall g: nat
      ensures CountsOf(t.served, g)
              == if g == mine then CountsOf(s.served, g) + [s.cache[k].count + 1] else CountsOf(s.served, g)
    {
      CountsOneMore(s.served, t.served[|s.served|], g);
    }
    assert Consecutive(CountsOf(s.served, mine));
  }

  lemma GivingUpIsSound(s: System, w: WorkerId, k: Key)
    requires Sound(s)
    ensures Sound(GaveUp(s, w, k))
  {
    forall g: nat ensures CountsOf(GaveUp(s, w, k).served, g) == CountsOf(s.served, g) {
      CountsOneMore(s.served, Uncounted(k, s.now), g);
    }
  }

  lemma NextIsSound(s: System, e: Event)
    requires s.window > 0 && Sound(s)
    ensures Sound(Next(s, e))
  {
    if e.Advance? && WorkerOf(s, e.worker).Busy? {
      var k := WorkerOf(s, e.worker).key;
      match WorkerOf(s, e.worker).phase
      case FirstAdd | SecondAdd =>
        if !Live(s, k) {
          AnswerAfterAdd(s, e.worker, k);
        }
      case FirstIncr =>
        if Live(s, k) {
          AnswerAfterIncr(s, e.worker, k);
        }
      case SecondIncr =>
        if Live(s, k) {
          AnswerAfterIncr(s, e.worker, k);
        } else {
          GivingUpIsSound(s, e.worker, k);
        }
    }
  }

  /** In every interleaving, expiry and eviction included, each lifetime hands out 1, 2, 3, ... */
  lemma {:induction false} EveryRunIsSound(window: nat, now: real, events: seq<Event>)
    requires window > 0
    ensures Sound(Run(Start(window, now), events))
  {
    if events != [] {
      EveryRunIsSound(window, now, events[..|events| - 1]);
      NextIsSound(Run(Start(window, now), events[..|events| - 1]), events[|events| - 1]);
    }
  }

  predicate Allowed(o: Outcome, limit: nat) {
    o.Uncounted? || o.count <= limit
  }

  function AllowedIn(served: seq<Outcome>, g: nat, limit: nat): nat {
    if served == [] then 0
    else
      var o := served[|served| - 1];
      AllowedIn(served[..|served| - 1], g, limit) + (if o.Counted? && o.life == g && Allowed(o, limit) then 1 else 0)
  }

  lemma {:induction false} AllowedCountsUpToLimit(served: seq<Outcome>, g: nat, limit: nat)
    requires Consecutive(CountsOf(served, g))
    ensures AllowedIn(served, g, limit) == Min(|CountsOf(served, g)|, limit)
  {
    if served != [] {
      var n := |served| - 1;
      var before := CountsOf(served[..n], g);
      assert forall i :: 0 <= i < |before| ==> before[i] == CountsOf(served, g)[i];
      assert Consecutive(before);
      AllowedCountsUpToLimit(served[..n], g, limit);
      if served[n].Counted? && served[n].life == g {
        assert CountsOf(served, g)[|before|] == served[n].count;
      }
    }
  }

  /** Of the n requests counted in one lifetime of a key, exactly min(n, limit) are allowed. */
  lemma LifetimeAllowsExactly(window: nat, now: real, events: seq<Event>, g: nat, limit: nat)
    requires window > 0
    ensures var s := Run(Start(window, now), events);
            && Consecutive(CountsOf(s.served, g))
            && AllowedIn(s.served, g, limit) == Min(|CountsOf(s.served, g)|, limit)
  {
    EveryRunIsSound(window, now, events);
    AllowedCountsUpToLimit(Run(Start(window, now), events).served, g, limit);
  }

  // ---------------------------------------------------------------- how long a lifetime lasts

  /** The entry's lifetime began with a request counted as one, and ends one second more than a window after it. */
  ghost predicate FromFirst(served: seq<Outcome>, k: Key, entry: Entry, window: nat) {
    exists o :: o in served && o.Counted? && o.key == k && o.life == entry.life && o.count == 1
                && entry.expiresAt == o.at + window as real + 1.0
  }

  ghost predicate ExpiryFromFirst(s: System) {
    forall k :: k in s.cache ==> FromFirst(s.served, k, s.cache[k], s.window)
  }

  lemma LaterFromFirst(served: seq<Outcome>, more: Outcome, k: Key, earlier: Entry, entry: Entry, window: nat)
    requires FromFirst(served, k, earlier, window) && entry.life == earlier.life && entry.expiresAt == earlier.expiresAt
    ensures FromFirst(served + [more], k, entry, window)
  {
    var o :| o in served && o.Counted? && o.key == k && o.life == earlier.life && o.count == 1
             && earlier.expiresAt == o.at + window as real + 1.0;
    assert o in served + [more];
  }

  lemma AddKeepsExpiry(s: System, w: WorkerId, k: Key)
    requires ExpiryFromFirst(s)
    ensures ExpiryFromFirst(Answered(Added(s, k), w, k))
  {
    var t := Answered(Added(s, k), w, k);
    var more := Counted(k, 1, s.lives, s.now);
    forall l | l in t.cache ensures FromFirst(t.served, l, t.cache[l], t.window) {
      if l == k {
        assert more in t.served;
      } else {
        LaterFromFirst(s.served, more, l, s.cache[l], t.cache[l], s.window);
      }
    }
  }

  lemma BumpKeepsExpiry(s: System, w: WorkerId, k: Key)
    requires ExpiryFromFirst(s) && k in s.cache
    ensures ExpiryFromFirst(Answered(Bumped(s, k), w, k))
  {
    var t := Answered(Bumped(s, k), w, k);
    forall l | l in t.cache ensures FromFirst(t.served, l, t.cache[l], t.window) {
      LaterFromFirst(s.served, t.served[|s.served|], l, s.cache[l], t.cache[l], s.window);
    }
  }

  lemma StepKeepsExpiry(s: System, e: Event)
    requires s.window > 0 && ExpiryFromFirst(s)
    ensures ExpiryFromFirst(Next(s, e))
  {
    if e.Advance? && WorkerOf(s, e.worker).Busy? {
      var (w, k) := (e.worker, WorkerOf(s, e.worker).key);
      match WorkerOf(s, w).phase
      case FirstAdd | SecondAdd =>
        if !Live(s, k) {
          AddKeepsExpiry(s, w, k);
        }
      case FirstIncr | SecondIncr =>
        if Live(s, k) {
          BumpKeepsExpiry(s, w, k);
        } else {
          forall l | l in s.cache ensures FromFirst(GaveUp(s, w, k).served, l, s.cache[l], s.window) {
            LaterFromFirst(s.served, Uncounted(k, s.now), l, s.cache[l], s.cache[l], s.window);
          }
        }
    }
  }

  /** Over every run: increments never move the expiry a lifetime began with. */
  lemma {:induction false} RunsKeepExpiry(window: nat, now: real, events: seq<Event>)
    requires window > 0
    ensures ExpiryFromFirst(Run(Start(window, now), events))
  {
    if events != [] {
      RunsKeepExpiry(window, now, events[..|events| - 1]);
      StepKeepsExpiry(Run(Start(window, now), events[..|events| - 1]), events[|events| - 1]);
    }
  }

  // ---------------------------------------------------------------- windows

  /** Where a window starts. */
  function StartOf(bucket: int, window: nat): real {
    bucket as real * window as real
  }

  lemma BucketBounds(t: real, window: nat)
    requires window > 0
    ensures StartOf(Bucket(t, window), window) <= t < StartOf(Bucket(t, window), window) + window as real
  {
    var w := window as real;
    var q := t / w;
    var b := Bucket(t, window) as real;
    WithinOneStep(b, q, w, t);
  }

  lemma WithinOneStep(b: real, q: real, w: real, t: real)
    requires w > 0.0 && b <= q < b + 1.0 && q * w == t
    ensures b * w <= t < b * w + w
  {
    var d := q - b;
    Distribute(b, d, w);
    assert t == b * w + d * w;
    Distribute(d, 1.0 - d, w);
    assert d * w + (1.0 - d) * w == 1.0 * w;
    Positive(1.0 - d, w);
    assert d * w < w;
  }

  lemma Positive(a: real, w: real)
    requires a > 0.0 && w > 0.0
    ensures a * w > 0.0
  {
  }

  lemma Distribute(a: real, b: real, w: real)
    ensures (a + b) * w == a * w + b * w
  {
  }

  /** A later window starts at least one window later. */
  lemma LaterStarts(a: int, b: int, window: nat)
    requires a < b
    ensures StartOf(a, window) + window as real <= StartOf(b, window)
  {
    var w := window as real;
    var d := (b - a - 1) as real;
    Distribute(a as real + 1.0, d, w);
    Distribute(a as real, 1.0, w);
    assert d * w >= 0.0;
  }

  /** Every cache operation of a request happens inside the window its key names, and nothing is evicted. */
  ghost predicate Prompt(s: System, e: Event)
    requires s.window > 0
  {
    && !e.Evict?
    && (e.Advance? && WorkerOf(s, e.worker).Busy? ==> WorkerOf(s, e.worker).key.bucket == Bucket(s.now, s.window))
  }

  ghost predicate PromptRun(s: System, events: seq<Event>)
    requires s.window > 0
  {
    forall i :: 0 <= i < |events| ==> Prompt(Run(s, events[..i]), events[i])
  }

  /** Each key has had a single lifetime, which outlasts its window; nobody got past the first increment. */
  ghost predicate OneLifePerWindow(s: System)
    requires s.window > 0
  {
    && (forall k :: k in s.cache ==> s.cache[k].expiresAt > StartOf(k.bucket, s.window) + s.window as real)
    && (forall o :: o in s.served ==> o.Counted? && o.key in s.cache && s.cache[o.key].life == o.life
                                      && Bucket(o.at, s.window) == o.key.bucket)
    && (forall w :: w in s.workers && s.workers[w].Busy? && s.workers[w].phase != FirstAdd ==>
          s.workers[w].phase == FirstIncr && s.workers[w].key in s.cache)
  }

  lemma PromptStepKeepsOneLife(s: System, e: Event)
    requires s.window > 0 && OneLifePerWindow(s) && Prompt(s, e)
    ensures OneLifePerWindow(Next(s, e))
  {
    if e.Advance? && WorkerOf(s, e.worker).Busy? {
      var k := WorkerOf(s, e.worker).key;
      BucketBounds(s.now, s.window);
      assert k in s.cache ==> Live(s, k);
    }
  }

  lemma {:induction false} PromptRunsKeepOneLife(window: nat, now: real, events: seq<Event>)
    requires window > 0 && PromptRun(Start(window, now), events)
    ensures OneLifePerWindow(Run(Start(window, now), events))
  {
    if events != [] {
      var n := |events| - 1;
      var s := Start(window, now);
      forall i | 0 <= i < n ensures Prompt(Run(s, events[..n][..i]), events[..n][i]) {
        assert events[..n][..i] == events[..i];
      }
      PromptRunsKeepOneLife(window, now, events[..n]);
      assert Prompt(Run(s, events[..n]), events[n]);
      PromptStepKeepsOneLife(Run(s, events[..n]), events[n]);
    }
  }

  /** Allowed requests of one caller in one window. */
  function AllowedUnder(served: seq<Outcome>, k: Key, limit: nat): nat {
    if served == [] then 0
    else
      var o := served[|served| - 1];
      AllowedUnder(served[..|served| - 1], k, limit) + (if o.key == k && Allowed(o, limit) then 1 else 0)
  }

  /** Allowed requests of one caller with a time in [from, from + window). */
  function AllowedWithin(served: seq<Outcome>, ident: string, from: real, window: nat, limit: nat): nat {
    if served == [] then 0
    else
      var o := served[|served| - 1];
      AllowedWithin(served[..|served| - 1], ident, from, window, limit)
      + (if o.key.ident == ident && from <= o.at < from + window as real && Allowed(o, limit) then 1 else 0)
  }

  lemma {:induction false} UnderIsIn(served: seq<Outcome>, k: Key, g: nat, limit: nat)
    requires forall o :: o in served && o.key == k ==> o.Counted? && o.life == g
    ensures AllowedUnder(served, k, limit) <= AllowedIn(served, g, limit)
  {
    if served != [] {
      var n := |served| - 1;
      assert served == served[..n] + [served[n]];
      UnderIsIn(served[..n], k, g, limit);
      assert served[n] in served;
    }
  }

  /** In a prompt run a caller is allowed at most limit requests per window. */
  lemma WindowAllowsAtMostLimit(window: nat, now: real, events: seq<Event>, k: Key, limit: nat)
    requires window > 0 && PromptRun(Start(window, now), events)
    ensures AllowedUnder(Run(Start(window, now), events).served, k, limit) <= limit
  {
    PromptRunsKeepOneLife(window, now, events);
    OneLifeKeepsLimit(window, now, events, k, limit);
  }

  lemma {:induction false} WithinIsTwoWindows(served: seq<Outcome>, ident: string, from: real, window: nat, limit: nat)
    requires window > 0
    requires forall o :: o in served ==> Bucket(o.at, window) == o.key.bucket
    ensures AllowedWithin(served, ident, from, window, limit)
            <= AllowedUnder(served, Key(ident, Bucket(from, window)), limit)
               + AllowedUnder(served, Key(ident, Bucket(from, window) + 1), limit)
  {
    if served != [] {
      var n := |served| - 1;
      var o := served[n];
      assert served == served[..n] + [o];
      WithinIsTwoWindows(served[..n], ident, from, window, limit);
      assert o in served;
      if from <= o.at < from + window as real {
        NearbyBuckets(from, o.at, window);
      }
    }
  }

  /** Less than one window later is the same or the next bucket. */
  lemma NearbyBuckets(from: real, at: real, window: nat)
    requires window > 0 && from <= at < from + window as real
    ensures Bucket(at, window) == Bucket(from, window) || Bucket(at, window) == Bucket(from, window) + 1
  {
    var a, b := Bucket(from, window), Bucket(at, window);
    BucketBounds(from, window);
    BucketBounds(at, window);
    if b < a {
      LaterStarts(b, a, window);
    } else if b > a + 1 {
      LaterStarts(a, a + 1, window);
      LaterStarts(a + 1, b, window);
    }
  }

  /** And at most twice the limit in any stretch of one window's length, wherever it starts. */
  lemma SlidingWindowAllowsTwice(window: nat, now: real, events: seq<Event>, ident: string, from: real, limit: nat)
    requires window > 0 && PromptRun(Start(window, now), events)
    ensures AllowedWithin(Run(Start(window, now), events).served, ident, from, window, limit) <= 2 * limit
  {
    var s := Run(Start(window, now), events);
    PromptRunsKeepOneLife(window, now, events);
    WithinIsTwoWindows(s.served, ident, from, window, limit);
    WindowAllowsAtMostLimit(window, now, events, Key(ident, Bucket(from, window)), limit);
    WindowAllowsAtMostLimit(window, now, events, Key(ident, Bucket(from, window) + 1), limit);
  }

  // ---------------------------------------------------------------- the limit of a key, exactly

  /** A lifetime belongs to one key. */
  ghost predicate LivesHaveOneKey(s: System) {
    && (forall o :: o in s.served && o.Counted? ==> o.life < s.lives)
    && (forall o, p :: o in s.served && p in s.served && o.Counted? && p.Counted? && o.life == p.life ==>
         o.key == p.key)
    && (forall o, k :: o in s.served && o.Counted? && k in s.cache && s.cache[k].life == o.life ==> o.key == k)
  }

  lemma AddKeepsOneKey(s: System, w: WorkerId, k: Key)
    requires Sound(s) && LivesHaveOneKey(s)
    ensures LivesHaveOneKey(Answered(Added(s, k), w, k))
  {
    var t := Answered(Added(s, k), w, k);
    assert forall o :: o in t.served <==> o in s.served || o == Counted(k, 1, s.lives, s.now);
  }

  lemma BumpKeepsOneKey(s: System, w: WorkerId, k: Key)
    requires Sound(s) && LivesHaveOneKey(s) && k in s.cache
    ensures LivesHaveOneKey(Answered(Bumped(s, k), w, k))
  {
    var t := Answered(Bumped(s, k), w, k);
    var answer := Counted(k, s.cache[k].count + 1, s.cache[k].life, s.now);
    assert forall o :: o in t.served <==> o in s.served || o == answer;
  }

  lemma StepKeepsOneKey(s: System, e: Event)
    requires s.window > 0 && Sound(s) && LivesHaveOneKey(s)
    ensures LivesHaveOneKey(Next(s, e))
  {
    if e.Advance? && WorkerOf(s, e.worker).Busy? {
      var k := WorkerOf(s, e.worker).key;
      match WorkerOf(s, e.worker).phase
      case FirstAdd | SecondAdd =>
        if !Live(s, k) {
          AddKeepsOneKey(s, e.worker, k);
        }
      case FirstIncr =>
        if Live(s, k) {
          BumpKeepsOneKey(s, e.worker, k);
        }
      case SecondIncr =>
        if Live(s, k) {
          BumpKeepsOneKey(s, e.worker, k);
        } else {
          assert forall o :: o in GaveUp(s, e.worker, k).served ==> o in s.served || o.Uncounted?;
        }
    }
  }

  lemma {:induction false} RunsKeepOneKey(window: nat, now: real, events: seq<Event>)
    requires window > 0
    ensures LivesHaveOneKey(Run(Start(window, now), events))
  {
    if events != [] {
      var before := events[..|events| - 1];
      EveryRunIsSound(window, now, before);
      RunsKeepOneKey(window, now, before);
      StepKeepsOneKey(Run(Start(window, now), before), events[|events| - 1]);
    }
  }

  ghost predicate HasCount(served: seq<Outcome>, k: Key) {
    exists o :: o in served && o.Counted? && o.key == k
  }

  /** Whoever found a key, or gave up on one, owes it to a request that was counted. */
  ghost predicate FoundKeysHaveCounts(s: System) {
    && (forall k :: k in s.cache ==> HasCount(s.served, k))
    && (forall w :: w in s.workers && s.workers[w].Busy? && s.workers[w].phase != FirstAdd ==>
          HasCount(s.served, s.workers[w].key))
    && (forall o :: o in s.served ==> HasCount(s.served, o.key))
  }

  lemma LaterHasCount(served: seq<Outcome>, more: Outcome)
    ensures forall k :: HasCount(served, k) ==> HasCount(served + [more], k)
    ensures more.Counted? ==> HasCount(served + [more], more.key)
  {
    forall k | HasCount(served, k) ensures HasCount(served + [more], k) {
      var o :| o in served && o.Counted? && o.key == k;
      assert o in served + [more];
    }
    assert more in served + [more];
  }

  /** One more answer, under a key that was found before or is now counted. */
  lemma AnswerKeepsFoundKeys(s: System, t: System, more: Outcome)
    requires FoundKeysHaveCounts(s) && t.served == s.served + [more]
    requires more.Counted? || HasCount(s.served, more.key)
    requires forall k :: k in t.cache ==> k in s.cache || (more.Counted? && k == more.key)
    requires forall w :: w in t.workers && t.workers[w].Busy? ==> w in s.workers && t.workers[w] == s.workers[w]
    ensures FoundKeysHaveCounts(t)
  {
    LaterHasCount(s.served, more);
    assert forall o :: o in t.served <==> o in s.served || o == more;
  }

  lemma WaitingKeepsFoundKeys(s: System, w: WorkerId, k: Key, phase: Phase)
    requires FoundKeysHaveCounts(s) && (phase == FirstAdd || HasCount(s.served, k))
    ensures FoundKeysHaveCounts(Waiting(s, w, k, phase))
  {
  }

  lemma StepKeepsFoundKeys(s: System, e: Event)
    requires s.window > 0 && FoundKeysHaveCounts(s)
    ensures FoundKeysHaveCounts(Next(s, e))
  {
    if e.Advance? && WorkerOf(s, e.worker).Busy? {
      var (w, k) := (e.worker, WorkerOf(s, e.worker).key);
      match WorkerOf(s, w).phase
      case FirstAdd | SecondAdd =>
        if Live(s, k) {
          WaitingKeepsFoundKeys(s, w, k, if WorkerOf(s, w).phase == FirstAdd then FirstIncr else SecondIncr);
        } else {
          AnswerKeepsFoundKeys(s, Answered(Added(s, k), w, k), Counted(k, 1, s.lives, s.now));
        }
      case FirstIncr | SecondIncr =>
        if Live(s, k) {
          AnswerKeepsFoundKeys(s, Answered(Bumped(s, k), w, k),
                               Counted(k, s.cache[k].count + 1, s.cache[k].life, s.now));
        } else if WorkerOf(s, w).phase == FirstIncr {
          WaitingKeepsFoundKeys(s, w, k, SecondAdd);
        } else {
          AnswerKeepsFoundKeys(s, GaveUp(s, w, k), Uncounted(k, s.now));
        }
    } else if e.Begin? && WorkerOf(s, e.worker).Idle? {
      WaitingKeepsFoundKeys(s, e.worker, Key(e.ident, Bucket(s.now, s.window)), FirstAdd);
    }
  }

  lemma {:induction false} RunsKeepFoundKeys(window: nat, now: real, events: seq<Event>)
    requires window > 0
    ensures FoundKeysHaveCounts(Run(Start(window, now), events))
  {
    if events != [] {
      RunsKeepFoundKeys(window, now, events[..|events| - 1]);
      StepKeepsFoundKeys(Run(Start(window, now), events[..|events| - 1]), events[|events| - 1]);
    }
  }

  /** The request that was answered with a lifetime's first count. */
  lemma {:induction false} FirstOfLife(served: seq<Outcome>, g: nat) returns (i: nat)
    requires CountsOf(served, g) != []
    ensures i < |served| && served[i].Counted? && served[i].life == g && served[i].count == CountsOf(served, g)[0]
  {
    var n := |served| - 1;
    if CountsOf(served[..n], g) != [] {
      i := FirstOfLife(served[..n], g);
    } else {
      i := n;
    }
  }

  lemma {:induction false} AnsweredLifeHasCounts(served: seq<Outcome>, i: nat)
    requires i < |served| && served[i].Counted?
    ensures CountsOf(served, served[i].life) != []
  {
    if i < |served| - 1 {
      AnsweredLifeHasCounts(served[..|served| - 1], i);
    }
  }

  /** Each allowed request of the key is counted. */
  lemma {:induction false} AllowedAtLeast(served: seq<Outcome>, k: Key, limit: nat, i: nat, j: nat)
    requires i <= j < |served| && served[i].key == k && served[j].key == k
    requires Allowed(served[i], limit) && Allowed(served[j], limit)
    ensures AllowedUnder(served, k, limit) >= if i < j then 2 else 1
  {
    var n := |served| - 1;
    if j < n {
      AllowedAtLeast(served[..n], k, limit, i, j);
    } else if i < j {
      AllowedAtLeast(served[..n], k, limit, i, i);
    }
  }

  /** Every request under the key was counted, and all of them in one lifetime. */
  ghost predicate OneLife(served: seq<Outcome>, k: Key) {
    && (forall o :: o in served && o.key == k ==> o.Counted?)
    && (forall o, p :: o in served && p in served && o.key == k && p.key == k ==> o.life == p.life)
  }

  lemma OneLifeKeepsLimit(window: nat, now: real, events: seq<Event>, k: Key, limit: nat)
    requires window > 0 && OneLife(Run(Start(window, now), events).served, k)
    ensures AllowedUnder(Run(Start(window, now), events).served, k, limit) <= limit
  {
    var served := Run(Start(window, now), events).served;
    var g := if o :| o in served && o.key == k then o.life else 0;
    UnderIsIn(served, k, g, limit);
    LifetimeAllowsExactly(window, now, events, g, limit);
  }

  /** The lifetime of a counted request began with a request under the same key that was counted as one. */
  lemma LifeBeginsUnderItsKey(window: nat, now: real, events: seq<Event>, i: nat) returns (a: nat)
    requires window > 0
    requires var served := Run(Start(window, now), events).served; i < |served| && served[i].Counted?
    ensures var served := Run(Start(window, now), events).served;
            a < |served| && served[a] == Counted(served[i].key, 1, served[i].life, served[a].at)
  {
    var served := Run(Start(window, now), events).served;
    EveryRunIsSound(window, now, events);
    RunsKeepOneKey(window, now, events);
    AnsweredLifeHasCounts(served, i);
    a := FirstOfLife(served, served[i].life);
    assert Consecutive(CountsOf(served, served[i].life));
    assert served[a] in served && served[i] in served;
  }

  /** Two lifetimes of a key both begin with a count of one. */
  lemma TwoLivesPassLimitOne(window: nat, now: real, events: seq<Event>, k: Key, i: nat, j: nat)
    requires window > 0
    requires var served := Run(Start(window, now), events).served;
             && i < |served| && j < |served| && served[i].key == k && served[j].key == k
             && served[i].Counted? && served[j].Counted? && served[i].life != served[j].life
    ensures AllowedUnder(Run(Start(window, now), events).served, k, 1) > 1
  {
    var a := LifeBeginsUnderItsKey(window, now, events, i);
    var b := LifeBeginsUnderItsKey(window, now, events, j);
    AllowedAtLeast(Run(Start(window, now), events).served, k, 1, Min(a, b), Max(a, b));
  }

  /** A request that gave up passes beside the first one that was counted. */
  lemma UncountedPassesLimitOne(window: nat, now: real, events: seq<Event>, k: Key, i: nat)
    requires window > 0
    requires var served := Run(Start(window, now), events).served;
             i < |served| && served[i].key == k && served[i].Uncounted?
    ensures AllowedUnder(Run(Start(window, now), events).served, k, 1) > 1
  {
    var served := Run(Start(window, now), events).served;
    RunsKeepFoundKeys(window, now, events);
    assert served[i] in served;
    var o :| o in served && o.Counted? && o.key == k;
    var j :| 0 <= j < |served| && served[j] == o;
    var a := LifeBeginsUnderItsKey(window, now, events, j);
    AllowedAtLeast(served, k, 1, Min(a, i), Max(a, i));
  }

  /**
   * In any run, prompt or not: a key keeps to every limit there can be exactly when
   * each of its requests was counted and all of them in one lifetime.
   */
  lemma KeyKeepsEveryLimitExactly(window: nat, now: real, events: seq<Event>, k: Key)
    requires window > 0
    ensures var served := Run(Start(window, now), events).served;
            (forall limit: nat :: limit >= 1 ==> AllowedUnder(served, k, limit) <= limit) <==> OneLife(served, k)
  {
    var served := Run(Start(window, now), events).served;
    if OneLife(served, k) {
      forall limit: nat | limit >= 1 ensures AllowedUnder(served, k, limit) <= limit {
        OneLifeKeepsLimit(window, now, events, k, limit);
      }
    } else if o :| o in served && o.key == k && o.Uncounted? {
      var i :| 0 <= i < |served| && served[i] == o;
      UncountedPassesLimitOne(window, now, events, k, i);
    } else {
      var o, p :| o in served && p in served && o.key == k && p.key == k && o.life != p.life;
      var i :| 0 <= i < |served| && served[i] == o;
      var j :| 0 <= j < |served| && served[j] == p;
      TwoLivesPassLimitOne(window, now, events, k, i, j);
    }
  }

  lemma LateWorkerIsServed(window: nat, ident: string, late: real)
    requires window > 0 && late >= (window + 1) as real
    ensures var events := [Begin(0, ident), Begin(1, ident), Advance(0), Tick(late), Advance(1)];
            var k := Key(ident, 0);
            Run(Start(window, 0.0), events).served == [Counted(k, 1, 0, 0.0), Counted(k, 1, 1, late)]
  {
    var s0 := Start(window, 0.0);
    assert Bucket(0.0, window) == 0;
    assert Run(s0, []) == s0;
    var begun := [Begin(0, ident), Begin(1, ident)];
    RunOneMore(s0, [], Begin(0, ident));
    RunOneMore(s0, [Begin(0, ident)], Begin(1, ident));
    assert [] + [Begin(0, ident)] == [Begin(0, ident)] && [Begin(0, ident)] + [Begin(1, ident)] == begun;
    var s2 := Run(s0, begun);
    RunOneMore(s0, begun, Advance(0));
    RunOneMore(s0, begun + [Advance(0)], Tick(late));
    RunOneMore(s0, begun + [Advance(0)] + [Tick(late)], Advance(1));
    assert begun + [Advance(0)] + [Tick(late)] + [Advance(1)]
        == [Begin(0, ident), Begin(1, ident), Advance(0), Tick(late), Advance(1)];
  }

  /**
   * Promptness is needed: a worker that reads the clock, falls asleep and comes
   * back after the key has expired opens a second lifetime under the old key, and
   * both requests pass a limit of one.
   */
  lemma LateWorkerOpensSecondLife(window: nat, ident: string, late: real)
    requires window > 0 && late >= (window + 1) as real
    ensures var events := [Begin(0, ident), Begin(1, ident), Advance(0), Tick(late), Advance(1)];
            && !PromptRun(Start(window, 0.0), events)
            && AllowedUnder(Run(Start(window, 0.0), events).served, Key(ident, 0), 1) == 2
  {
    var events := [Begin(0, ident), Begin(1, ident), Advance(0), Tick(late), Advance(1)];
    var (s0, k) := (Start(window, 0.0), Key(ident, 0));
    var (first, second) := (Counted(k, 1, 0, 0.0), Counted(k, 1, 1, late));
    LateWorkerIsServed(window, ident, late);
    assert [first, second][..1] == [first] && [first][..0] == [];
    assert AllowedUnder([first], k, 1) == 1;
    if PromptRun(s0, events) {
      WindowAllowsAtMostLimit(window, 0.0, events, k, 1);
    }
  }

  /** Three workers read the clock at once; the key expires under the first one's hands twice. */
  function TwiceExpired(ident: string, late: real, later: real): seq<Event> {
    [Begin(0, ident), Begin(1, ident), Begin(2, ident), Advance(1), Advance(0)]
    + [Tick(late), Advance(0), Advance(2)]
    + [Advance(0), Tick(later), Advance(0)]
  }

  lemma {:induction false} RunJoins(s: System, a: seq<Event>, b: seq<Event>)
    requires s.window > 0
    ensures Run(s, a + b) == Run(Run(s, a), b)
  {
    if b == [] {
      assert a + b == a;
    } else {
      var n := |b| - 1;
      assert (a + b)[..|a + b| - 1] == a + b[..n];
      RunJoins(s, a, b[..n]);
    }
  }

  /** All three have begun, one has added the key and one found it there. */
  lemma BegunTogether(window: nat, ident: string) returns (s: System)
    requires window > 0
    ensures s == Run(Start(window, 0.0), [Begin(0, ident), Begin(1, ident), Begin(2, ident), Advance(1), Advance(0)])
    ensures var k := Key(ident, 0);
            s == System(window, 0.0, map[k := Entry(1, (window + 1) as real, 0)], 1,
                        map[0 := Busy(k, FirstIncr), 1 := Idle, 2 := Busy(k, FirstAdd)], [Counted(k, 1, 0, 0.0)])
  {
    var s0 := Start(window, 0.0);
    assert Bucket(0.0, window) == 0;
    var done: seq<Event> := [Begin(0, ident)];
    RunOneMore(s0, [], Begin(0, ident));
    assert [] + done == done;
    RunOneMore(s0, done, Begin(1, ident));
    RunOneMore(s0, done + [Begin(1, ident)], Begin(2, ident));
    RunOneMore(s0, done + [Begin(1, ident)] + [Begin(2, ident)], Advance(1));
    RunOneMore(s0, done + [Begin(1, ident)] + [Begin(2, ident)] + [Advance(1)], Advance(0));
    assert done + [Begin(1, ident)] + [Begin(2, ident)] + [Advance(1)] + [Advance(0)]
        == [Begin(0, ident), Begin(1, ident), Begin(2, ident), Advance(1), Advance(0)];
    s := Run(s0, done + [Begin(1, ident)] + [Begin(2, ident)] + [Advance(1)] + [Advance(0)]);
  }

  /** The first worker's key is gone, and comes back by the third worker. */
  lemma BackAgain(s: System, ident: string, late: real) returns (t: System)
    requires s.window > 0 && late >= (s.window + 1) as real
    requires var k := Key(ident, 0);
             s == System(s.window, 0.0, map[k := Entry(1, (s.window + 1) as real, 0)], 1,
                         map[0 := Busy(k, FirstIncr), 1 := Idle, 2 := Busy(k, FirstAdd)], [Counted(k, 1, 0, 0.0)])
    ensures t == Run(s, [Tick(late), Advance(0), Advance(2)])
    ensures var k := Key(ident, 0);
            t == System(s.window, late, map[k := Entry(1, late + (s.window + 1) as real, 1)], 2,
                        map[0 := Busy(k, SecondAdd), 1 := Idle, 2 := Idle],
                        [Counted(k, 1, 0, 0.0), Counted(k, 1, 1, late)])
  {
    RunOneMore(s, [], Tick(late));
    assert [] + [Tick(late)] == [Tick(late)];
    RunOneMore(s, [Tick(late)], Advance(0));
    RunOneMore(s, [Tick(late)] + [Advance(0)], Advance(2));
    assert [Tick(late)] + [Advance(0)] + [Advance(2)] == [Tick(late), Advance(0), Advance(2)];
    t := Run(s, [Tick(late)] + [Advance(0)] + [Advance(2)]);
  }

  /** The first worker finds the new key, and then finds it gone. */
  lemma GoneAgain(window: nat, ident: string, late: real, later: real, served: seq<Outcome>)
    requires window > 0 && later >= late + (window + 1) as real
    ensures var k := Key(ident, 0);
            var s := System(window, late, map[k := Entry(1, late + (window + 1) as real, 1)], 2,
                            map[0 := Busy(k, SecondAdd), 1 := Idle, 2 := Idle], served);
            Run(s, [Advance(0), Tick(later), Advance(0)]).served == served + [Uncounted(k, later)]
  {
    var k := Key(ident, 0);
    var s := System(window, late, map[k := Entry(1, late + (window + 1) as real, 1)], 2,
                    map[0 := Busy(k, SecondAdd), 1 := Idle, 2 := Idle], served);
    RunOneMore(s, [], Advance(0));
    assert [] + [Advance(0)] == [Advance(0)];
    RunOneMore(s, [Advance(0)], Tick(later));
    RunOneMore(s, [Advance(0)] + [Tick(later)], Advance(0));
    assert [Advance(0)] + [Tick(later)] + [Advance(0)] == [Advance(0), Tick(later), Advance(0)];
  }

  /** A request whose key expires twice is answered without a count, so three requests pass a limit of one. */
  lemma TwiceExpiredPassesUncounted(window: nat, ident: string, late: real, later: real)
    requires window > 0 && late >= (window + 1) as real && later >= late + (window + 1) as real
    ensures var (s, k) := (Run(Start(window, 0.0), TwiceExpired(ident, late, later)), Key(ident, 0));
            && s.served == [Counted(k, 1, 0, 0.0), Counted(k, 1, 1, late), Uncounted(k, later)]
            && AllowedUnder(s.served, k, 1) == 3
  {
    var (k, s0) := (Key(ident, 0), Start(window, 0.0));
    var s := BegunTogether(window, ident);
    var t := BackAgain(s, ident, late);
    GoneAgain(window, ident, late, later, t.served);
    var begun := [Begin(0, ident), Begin(1, ident), Begin(2, ident), Advance(1), Advance(0)];
    RunJoins(s0, begun, [Tick(late), Advance(0), Advance(2)]);
    RunJoins(s0, begun + [Tick(late), Advance(0), Advance(2)], [Advance(0), Tick(later), Advance(0)]);
    var (a, b, c) := (Counted(k, 1, 0, 0.0), Counted(k, 1, 1, late), Uncounted(k, later));
    assert [a, b, c][..2] == [a, b] && [a, b][..1] == [a] && [a][..0] == [];
    assert AllowedUnder([a], k, 1) == 1 && AllowedUnder([a, b], k, 1) == 2;
  }
}
