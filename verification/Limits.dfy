// Fixed-window limits over shared counters (backend/internal/middleware/ratelimit.go,
// backend/internal/ingest/quota.go, and the counters in backend/internal/data/redis/client.go).
//
// Instants are nanoseconds since Go's zero time, on one clock.

module Counting {
  import opened Wrappers

  const SECOND: int := 1_000_000_000

  // A counter family: its window, and the time to live every increment renews.
  datatype Family = Family(window: int, ttl: int)

  datatype Key = Key(name: string, subject: string, bucket: int)

  datatype Slot = Slot(total: nat, expires: int)

  // How an increment goes: it is answered, it is refused, or it lands and the answer is lost.
  datatype Outcome = Answered | Refused | LandsUnseen

  // One increment that landed: what it added, the running total, whether the caller was told, and
  // the limit it was held against.
  datatype Charge = Charge(key: Key, at: int, delta: nat, total: nat, told: bool, limit: nat)

  predicate Passed(c: Charge) {
    c.told && c.total <= c.limit
  }

  // now.Truncate(window).Unix(), up to the epoch's own second.
  function Bucket(at: int, window: int): int
    requires window > 0
  {
    (at - at % window) / SECOND
  }

  // A renewed counter outlives its bucket.
  predicate Outlives(f: Family) {
    f.window > 0 && f.ttl >= f.window + SECOND
  }

  // Everything charged to a key, and the part of it that passed.
  function Spent(log: seq<Charge>, key: Key): nat {
    if log == [] then 0
    else
      var last := log[|log| - 1];
      Spent(log[..|log| - 1], key) + if last.key == key then last.delta else 0
  }

  function Accepted(log: seq<Charge>, key: Key): nat {
    if log == [] then 0
    else
      var last := log[|log| - 1];
      Accepted(log[..|log| - 1], key) + if last.key == key && Passed(last) then last.delta else 0
  }

  // What a subject was allowed in the half-open interval [start, end).
  function AcceptedBetween(log: seq<Charge>, name: string, subject: string, start: int, end: int): nat {
    if log == [] then 0
    else
      var last := log[|log| - 1];
      AcceptedBetween(log[..|log| - 1], name, subject, start, end)
      + if last.key.name == name && last.key.subject == subject && Passed(last) && start <= last.at < end then last.delta
        else 0
  }

  // Every charge's total is the whole of what its key had been charged, itself included.
  ghost predicate Exact(log: seq<Charge>) {
    forall i | 0 <= i < |log| :: log[i].total == Spent(log[..i + 1], log[i].key)
  }

  lemma SameBucketWithinTtl(s: int, t: int, f: Family)
    requires Outlives(f) && s <= t && Bucket(s, f.window) == Bucket(t, f.window)
    ensures t < s + f.ttl
  {
    var a, b := s - s % f.window, t - t % f.window;
    assert a == SECOND * (a / SECOND) + a % SECOND && b == SECOND * (b / SECOND) + b % SECOND;
  }

  // Every charge happened by now, in the bucket it names.
  ghost predicate Dated(families: map<string, Family>, log: seq<Charge>, now: int) {
    forall c | c in log :: c.key.name in families && Outlives(families[c.key.name]) && c.at <= now
      && c.key.bucket == Bucket(c.at, families[c.key.name].window)
  }

  // A slot holds the whole of what its key was charged.
  ghost predicate Sums(slots: map<Key, Slot>, log: seq<Charge>) {
    forall k :: Spent(log, k) == if k in slots then slots[k].total else 0
  }

  // A slot was last renewed inside its own bucket.
  ghost predicate Renewed(families: map<string, Family>, slots: map<Key, Slot>, touched: map<Key, int>, now: int) {
    && touched.Keys == slots.Keys
    && forall k | k in slots :: k.name in families && Outlives(families[k.name]) && touched[k] <= now
         && k.bucket == Bucket(touched[k], families[k.name].window)
         && slots[k].expires == touched[k] + families[k.name].ttl
  }

  class Counter {
    // The counter families by name; a name has one.
    const families: map<string, Family>
    var slots: map<Key, Slot>
    var now: int
    ghost var log: seq<Charge>
    ghost var touched: map<Key, int>

    constructor (families: map<string, Family>, now: int)
      requires forall n | n in families :: Outlives(families[n])
      ensures this.families == families && this.now == now && log == [] && Valid()
    {
      this.families, this.now := families, now;
      slots, log, touched := map[], [], map[];
    }

    ghost predicate Valid()
      reads this
    {
      && (forall n | n in families :: Outlives(families[n]))
      && Exact(log) && Dated(families, log, now)
      && Sums(slots, log) && Renewed(families, slots, touched, now)
    }

    method Advance(elapsed: nat)
      requires Valid()
      modifies this`now
      ensures Valid() && now == old(now) + elapsed
    {
      now := now + elapsed;
    }

    // INCRBY and EXPIRE in one transaction. An expired counter starts again from nothing; none that
    // is still being charged ever does. An error may have charged the counter all the same.
    method IncrBy(name: string, subject: string, delta: nat, outcome: Outcome, ghost limit: nat)
        returns (total: Option<nat>)
      requires Valid() && name in families
      modifies this`slots, this`log, this`touched
      ensures Valid()
      ensures total.Some? <==> outcome.Answered?
      ensures outcome.Refused? ==> log == old(log)
      ensures !outcome.Refused? ==>
        exists sum: nat :: log == old(log) + [Charge(Key(name, subject, Bucket(now, families[name].window)), now, delta, sum,
                                                     outcome.Answered?, limit)]
                           && (total.Some? ==> total.value == sum)
    {
      if outcome.Refused? {
        return None;
      }
      var sum := Land(name, subject, delta, outcome.Answered?, limit);
      return if outcome.Answered? then Some(sum) else None;
    }

    method Land(name: string, subject: string, delta: nat, ghost told: bool, ghost limit: nat) returns (total: nat)
      requires Valid() && name in families
      modifies this`slots, this`log, this`touched
      ensures Valid()
      ensures log == old(log)
        + [Charge(Key(name, subject, Bucket(now, families[name].window)), now, delta, total, told, limit)]
    {
      hide Spent, Exact, Bucket, Sums, Renewed, Dated;
      var family := families[name];
      var key := Key(name, subject, Bucket(now, family.window));
      NotExpired(families, slots, touched, now, key);
      total := (if key in slots && slots[key].expires > now then slots[key].total else 0) + delta;
      ghost var charge := Charge(key, now, delta, total, told, limit);
      SumsMore(slots, log, charge, now + family.ttl);
      RenewedMore(families, slots, touched, now, key, total);
      DatedMore(families, log, now, charge);
      slots := slots[key := Slot(total, now + family.ttl)];
      touched := touched[key := now];
      log := log + [charge];
    }
  }

  // A counter whose bucket is the current one has not expired.
  lemma NotExpired(families: map<string, Family>, slots: map<Key, Slot>, touched: map<Key, int>, now: int, key: Key)
    requires Renewed(families, slots, touched, now)
    requires key.name in families && Outlives(families[key.name]) && key.bucket == Bucket(now, families[key.name].window)
    ensures key in slots ==> slots[key].expires > now
  {
    hide Bucket;
    if key in slots {
      SameBucketWithinTtl(touched[key], now, families[key.name]);
    }
  }

  lemma SumsMore(slots: map<Key, Slot>, log: seq<Charge>, charge: Charge, expires: int)
    requires Sums(slots, log) && Exact(log)
    requires charge.total == (if charge.key in slots then slots[charge.key].total else 0) + charge.delta
    ensures Sums(slots[charge.key := Slot(charge.total, expires)], log + [charge]) && Exact(log + [charge])
  {
    hide Spent, Exact;
    SpentMore(log, charge);
  }

  lemma RenewedMore(families: map<string, Family>, slots: map<Key, Slot>, touched: map<Key, int>, now: int, key: Key,
                    total: nat)
    requires Renewed(families, slots, touched, now)
    requires key.name in families && Outlives(families[key.name]) && key.bucket == Bucket(now, families[key.name].window)
    ensures Renewed(families, slots[key := Slot(total, now + families[key.name].ttl)], touched[key := now], now)
  {
    hide Bucket;
  }

  lemma DatedMore(families: map<string, Family>, log: seq<Charge>, now: int, charge: Charge)
    requires Dated(families, log, now)
    requires charge.key.name in families && Outlives(families[charge.key.name]) && charge.at == now
    requires charge.key.bucket == Bucket(now, families[charge.key.name].window)
    ensures Dated(families, log + [charge], now)
  {
    hide Bucket;
  }

  lemma SpentMore(log: seq<Charge>, charge: Charge)
    ensures forall k :: Spent(log + [charge], k) == Spent(log, k) + if charge.key == k then charge.delta else 0
    ensures Exact(log) && charge.total == Spent(log, charge.key) + charge.delta ==> Exact(log + [charge])
  {
    var longer := log + [charge];
    assert longer[..|log|] == log;
    assert forall k :: Spent(longer, k) == Spent(log, k) + if charge.key == k then charge.delta else 0;
    if Exact(log) && charge.total == Spent(log, charge.key) + charge.delta {
      forall i | 0 <= i < |longer| ensures longer[i].total == Spent(longer[..i + 1], longer[i].key) {
        if i < |log| {
          assert longer[..i + 1] == log[..i + 1];
        } else {
          assert longer[..i + 1] == longer;
        }
      }
    }
  }

  // ---------------------------------------------------------------- bounds

  lemma {:induction false} AcceptedIsSpent(log: seq<Charge>, key: Key)
    ensures Accepted(log, key) <= Spent(log, key)
  {
    if log != [] {
      AcceptedIsSpent(log[..|log| - 1], key);
    }
  }

  // However much was refused, and charged all the same, what a key accepted stays within its limit.
  lemma {:induction false} BucketStaysWithinLimit(log: seq<Charge>, key: Key, limit: nat)
    requires Exact(log) && forall c | c in log && c.key == key :: c.limit <= limit
    ensures Accepted(log, key) <= limit
  {
    if log != [] {
      var n := |log| - 1;
      var init, last := log[..n], log[n];
      forall i | 0 <= i < n ensures init[i].total == Spent(init[..i + 1], init[i].key) {
        assert init[..i + 1] == log[..i + 1];
      }
      if last.key == key && Passed(last) {
        assert log[..n + 1] == log;
        AcceptedIsSpent(init, key);
        assert last in log;
      } else {
        BucketStaysWithinLimit(init, key, limit);
      }
    }
  }

  lemma QuotientIs(a: int, window: int, q: int)
    requires window > 0 && window * q <= a < window * q + window
    ensures a / window == q && a - a % window == window * q
  {
    var p := a / window;
    assert a == window * p + a % window;
    AtLeastOnce(window, q - p);
    AtLeastOnce(window, p - q);
  }

  lemma AtLeastOnce(window: int, d: int)
    requires window > 0
    ensures d >= 1 ==> window * d >= window
  {
  }

  // An interval one window long meets two buckets at most.
  lemma IntervalMeetsTwoBuckets(start: int, t: int, window: int)
    requires window > 0 && start <= t < start + window
    ensures Bucket(t, window) == Bucket(start, window) || Bucket(t, window) == Bucket(start + window - 1, window)
  {
    var end, s := start + window - 1, start / window;
    var edge := window * (s + 1);
    assert edge == window * s + window && window * (s + 1) + window == edge + window;
    assert start == window * s + start % window;
    if t < edge {
      QuotientIs(t, window, s);
    } else {
      QuotientIs(t, window, s + 1);
      QuotientIs(end, window, s + 1);
    }
  }

  lemma {:induction false} IntervalWithinTwoBuckets(log: seq<Charge>, name: string, subject: string, start: int, window: int)
    requires window > 0
    requires forall c | c in log && c.key.name == name :: c.key.bucket == Bucket(c.at, window)
    ensures AcceptedBetween(log, name, subject, start, start + window)
         <= Accepted(log, Key(name, subject, Bucket(start, window)))
            + Accepted(log, Key(name, subject, Bucket(start + window - 1, window)))
  {
    hide Bucket;
    if log != [] {
      var last := log[|log| - 1];
      assert last in log;
      IntervalWithinTwoBuckets(log[..|log| - 1], name, subject, start, window);
      if start <= last.at < start + window {
        IntervalMeetsTwoBuckets(start, last.at, window);
      }
    }
  }

  // In any interval as long as the window, wherever it starts, a subject is allowed at most twice
  // the limit.
  lemma AtMostTwiceTheLimit(log: seq<Charge>, name: string, subject: string, start: int, window: int, limit: nat)
    requires window > 0 && Exact(log)
    requires forall c | c in log && c.key.name == name :: c.key.bucket == Bucket(c.at, window) && c.limit <= limit
    ensures AcceptedBetween(log, name, subject, start, start + window) <= 2 * limit
  {
    hide Bucket, Exact;
    IntervalWithinTwoBuckets(log, name, subject, start, window);
    BucketStaysWithinLimit(log, Key(name, subject, Bucket(start, window)), limit);
    BucketStaysWithinLimit(log, Key(name, subject, Bucket(start + window - 1, window)), limit);
  }
}

module RateLimiting {
  import opened Counting

  datatype Scope = Scope(name: string, limit: nat, window: int)

  ghost predicate ScopesOf(scopes: seq<Scope>, families: map<string, Family>) {
    && (forall s | s in scopes :: s.name in families && families[s.name] == Family(s.window, s.window + SECOND))
    && (forall i, j | 0 <= i < j < |scopes| :: scopes[i].name != scopes[j].name)
  }

  // Every charge of a scope was held against that scope's limit.
  ghost predicate HeldToScopes(scopes: seq<Scope>, log: seq<Charge>) {
    forall c, s | c in log && s in scopes && c.key.name == s.name :: c.limit == s.limit
  }

  class RateLimiter {
    const counter: Counter
    const scopes: seq<Scope>

    constructor (counter: Counter, scopes: seq<Scope>)
      requires counter.Valid() && ScopesOf(scopes, counter.families) && HeldToScopes(scopes, counter.log)
      ensures this.counter == counter && this.scopes == scopes && Valid()
    {
      this.counter, this.scopes := counter, scopes;
    }

    ghost predicate Valid()
      reads this, counter
    {
      counter.Valid() && ScopesOf(scopes, counter.families) && HeldToScopes(scopes, counter.log)
    }

    // One request against every scope, some time passing before each charge. It is allowed when
    // every scope's charge passed; the first that did not ends it, already charged. A counter error
    // ends it as well, and then the request is let through. Charges are the atomic steps: between
    // two of them other requests may charge as well.
    method Allow(subject: string, waits: seq<nat>, outcomes: seq<Outcome>) returns (retryAfter: int, failed: bool)
      requires Valid() && |waits| == |outcomes| == |scopes|
      modifies counter
      ensures Valid() && old(counter.log) <= counter.log
      ensures subject == "" ==> retryAfter == 0 && !failed && counter.log == old(counter.log)
      ensures subject != "" ==>
        IsCharged(scopes, subject, outcomes, counter.log[|old(counter.log)|..], retryAfter, failed)
    {
      hide *;
      OpenValid();
      if subject == "" {
        return 0, false;
      }
      ghost var charges: seq<Charge> := [];
      NothingCharged(scopes, subject, outcomes);
      for i := 0 to |scopes|
        invariant counter.Valid() && ScopesOf(scopes, counter.families) && HeldToScopes(scopes, counter.log)
        invariant counter.log == old(counter.log) + charges
        invariant |charges| == i && AllPass(scopes, subject, outcomes, charges)
      {
        var scope := scopes[i];
        ScopeIsKnown(scopes, counter.families, scope);
        counter.Advance(waits[i]);
        ghost var before := counter.log;
        var count := counter.IncrBy(scope.name, subject, 1, outcomes[i], scope.limit);
        if outcomes[i].Refused? {
          RefusedAt(scopes, subject, outcomes, charges);
          assert counter.log[|old(counter.log)|..] == charges;
          CloseValid();
          return 0, true;
        }
        ghost var charge := counter.log[|before|];
        HeldStaysHeld(scopes, counter.families, before, charge, i);
        OneMorePass(scopes, subject, outcomes, charges, charge);
        charges := charges + [charge];
        assert counter.log == old(counter.log) + charges;
        assert counter.log[|old(counter.log)|..] == charges;
        if count.None? {
          CloseValid();
          return 0, true;
        }
        if count.value > scope.limit {
          CloseValid();
          return scope.window, false;
        }
      }
      AllPassed(scopes, subject, outcomes, charges);
      assert counter.log[|old(counter.log)|..] == charges;
      CloseValid();
      return 0, false;
    }

    lemma OpenValid()
      requires Valid()
      ensures counter.Valid() && ScopesOf(scopes, counter.families) && HeldToScopes(scopes, counter.log)
    {
    }

    lemma CloseValid()
      requires counter.Valid() && ScopesOf(scopes, counter.families) && HeldToScopes(scopes, counter.log)
      ensures Valid()
    {
    }

    // A fixed window costs at most a factor of two: in any interval one window long the counter lets
    // a subject through at most twice the scope's limit times. What it lets through unanswered is
    // outside every bound.
    lemma BurstIsBounded(s: Scope, subject: string, start: int)
      requires Valid() && s in scopes
      ensures AcceptedBetween(counter.log, s.name, subject, start, start + s.window) <= 2 * s.limit
    {
      AtMostTwiceTheLimit(counter.log, s.name, subject, start, s.window, s.limit);
    }
  }

  ghost predicate IsScopeCharge(scope: Scope, subject: string, outcome: Outcome, c: Charge) {
    && c.key.name == scope.name && c.key.subject == subject && c.delta == 1 && c.limit == scope.limit
    && !outcome.Refused? && c.told == outcome.Answered?
  }

  ghost predicate AllPass(scopes: seq<Scope>, subject: string, outcomes: seq<Outcome>, charges: seq<Charge>) {
    && |charges| <= |scopes| == |outcomes|
    && forall k | 0 <= k < |charges| :: IsScopeCharge(scopes[k], subject, outcomes[k], charges[k]) && Passed(charges[k])
  }

  lemma ScopeIsKnown(scopes: seq<Scope>, families: map<string, Family>, scope: Scope)
    requires ScopesOf(scopes, families) && scope in scopes
    ensures scope.name in families
  {
  }

  lemma HeldStaysHeld(scopes: seq<Scope>, families: map<string, Family>, log: seq<Charge>, charge: Charge, i: nat)
    requires ScopesOf(scopes, families) && HeldToScopes(scopes, log) && i < |scopes|
    requires charge.key.name == scopes[i].name && charge.limit == scopes[i].limit
    ensures HeldToScopes(scopes, log + [charge])
  {
  }

  lemma NothingCharged(scopes: seq<Scope>, subject: string, outcomes: seq<Outcome>)
    requires |scopes| == |outcomes|
    ensures AllPass(scopes, subject, outcomes, [])
  {
  }

  lemma RefusedAt(scopes: seq<Scope>, subject: string, outcomes: seq<Outcome>, charges: seq<Charge>)
    requires AllPass(scopes, subject, outcomes, charges) && |charges| < |scopes| == |outcomes|
    requires outcomes[|charges|].Refused?
    ensures IsCharged(scopes, subject, outcomes, charges, 0, true)
  {
  }

  lemma OneMorePass(scopes: seq<Scope>, subject: string, outcomes: seq<Outcome>, charges: seq<Charge>, charge: Charge)
    requires AllPass(scopes, subject, outcomes, charges) && |charges| < |scopes| == |outcomes|
    requires charge.key.name == scopes[|charges|].name && charge.key.subject == subject && charge.delta == 1
    requires charge.limit == scopes[|charges|].limit
    requires !outcomes[|charges|].Refused? && charge.told == outcomes[|charges|].Answered?
    ensures charge.told && charge.total <= charge.limit ==> AllPass(scopes, subject, outcomes, charges + [charge])
    ensures charge.told && charge.total > charge.limit ==>
      IsCharged(scopes, subject, outcomes, charges + [charge], scopes[|charges|].window, false)
    ensures !charge.told ==> IsCharged(scopes, subject, outcomes, charges + [charge], 0, true)
  {
  }

  lemma AllPassed(scopes: seq<Scope>, subject: string, outcomes: seq<Outcome>, charges: seq<Charge>)
    requires AllPass(scopes, subject, outcomes, charges) && |charges| == |scopes|
    ensures IsCharged(scopes, subject, outcomes, charges, 0, false)
  {
  }

  // A request is allowed exactly when every scope was charged, told its total, and found it within its
  // limit; it is told to come back after the window of the first scope that was over.
  lemma AllowedExactlyWhen(scopes: seq<Scope>, subject: string, outcomes: seq<Outcome>, charges: seq<Charge>,
                           retryAfter: int, failed: bool)
    requires IsCharged(scopes, subject, outcomes, charges, retryAfter, failed)
    requires forall s | s in scopes :: s.window > 0
    ensures retryAfter == 0 && !failed <==>
      |charges| == |scopes| && forall k | 0 <= k < |charges| :: charges[k].told && charges[k].total <= scopes[k].limit
    ensures retryAfter != 0 ==>
      var n := |charges| - 1;
      && 0 <= n < |scopes| && charges[n].told && charges[n].total > scopes[n].limit && retryAfter == scopes[n].window
      && !failed && forall k | 0 <= k < n :: charges[k].told && charges[k].total <= scopes[k].limit
    ensures failed ==> retryAfter == 0
    ensures forall k | 0 <= k < |charges| ::
      charges[k].delta == 1 && charges[k].key.name == scopes[k].name && charges[k].key.subject == subject
  {
    var n := |charges|;
    if n > 0 {
      assert scopes[n - 1] in scopes && IsScopeCharge(scopes[n - 1], subject, outcomes[n - 1], charges[n - 1]);
    }
    forall k | 0 <= k < n ensures Passed(charges[k]) <==> charges[k].told && charges[k].total <= scopes[k].limit {
      assert IsScopeCharge(scopes[k], subject, outcomes[k], charges[k]);
    }
    assert forall k | 0 <= k < n - 1 :: Passed(charges[k]);
  }

  // The charges of one request: scope by scope, all but the last passed. It is refused when the last
  // was told it is over its limit, let through unanswered when the last was not told anything or the
  // next was refused, and allowed when every scope's charge passed.
  ghost predicate IsCharged(scopes: seq<Scope>, subject: string, outcomes: seq<Outcome>, charges: seq<Charge>,
                            retryAfter: int, failed: bool) {
    var n := |charges|;
    && n <= |scopes| == |outcomes|
    && (forall k | 0 <= k < n ::
          IsScopeCharge(scopes[k], subject, outcomes[k], charges[k]) && (k < n - 1 ==> Passed(charges[k])))
    && if n > 0 && !charges[n - 1].told then failed && retryAfter == 0
       else if n > 0 && !Passed(charges[n - 1]) then !failed && retryAfter == scopes[n - 1].window
       else retryAfter == 0 && if failed then n < |scopes| && outcomes[n].Refused? else n == |scopes|
  }
}

module Quotas {
  import opened Counting

  const EVENTS := "quota:events"
  const BYTES := "quota:bytes"
  const DAY: int := 24 * 3600 * SECOND

  // One-second and UTC-day windows.
  const FAMILIES: map<string, Family> :=
    map[EVENTS := Family(SECOND, 2 * SECOND), BYTES := Family(DAY, DAY + 3600 * SECOND)]

  datatype Decision = Decision(allowed: bool, retryAfter: int)

  class QuotaEnforcer {
    const counter: Counter

    constructor (counter: Counter)
      requires counter.Valid() && counter.families == FAMILIES
      ensures this.counter == counter
    {
      this.counter := counter;
    }

    // The refusal says to come back when the second is over. A counter error allows the delivery.
    method CheckEventRate(feedID: string, eventCount: nat, limit: nat, outcome: Outcome)
        returns (d: Decision, failed: bool, ghost charges: seq<Charge>)
      requires counter.Valid() && counter.families == FAMILIES
      modifies counter`slots, counter`log, counter`touched
      ensures counter.Valid() && counter.log == old(counter.log) + charges
      ensures IsEventDecision(feedID, eventCount, limit, outcome, charges, d, failed)
    {
      FamiliesAre();
      hide Counter.Valid, Bucket;
      var total := counter.IncrBy(EVENTS, feedID, eventCount, outcome, limit);
      charges := counter.log[|old(counter.log)|..];
      if total.None? {
        return Decision(true, 0), true, charges;
      }
      if total.value > limit {
        return Decision(false, SECOND), false, charges;
      }
      return Decision(true, 0), false, charges;
    }

    // The running total of the day is what is limited, and the budget returns at midnight.
    method CheckDailyBytes(feedID: string, byteCount: nat, limit: nat, outcome: Outcome)
        returns (d: Decision, failed: bool, ghost charges: seq<Charge>)
      requires counter.Valid() && counter.families == FAMILIES
      modifies counter`slots, counter`log, counter`touched
      ensures counter.Valid() && counter.log == old(counter.log) + charges
      ensures IsByteDecision(feedID, byteCount, limit, counter.now, outcome, charges, d, failed)
    {
      FamiliesAre();
      hide Counter.Valid, Bucket;
      var total := counter.IncrBy(BYTES, feedID, byteCount, outcome, limit);
      charges := counter.log[|old(counter.log)|..];
      if total.None? {
        return Decision(true, 0), true, charges;
      }
      if total.value > limit {
        NextMidnight(counter.now);
        return Decision(false, DAY - counter.now % DAY), false, charges;
      }
      return Decision(true, 0), false, charges;
    }

    // A quota of zero is no quota. The event rate is charged first; a delivery it refuses, or cannot
    // be checked against it, is not charged for its bytes, one the bytes refuse stays charged for both.
    method Check(feedID: string, eventCount: nat, byteCount: nat, eventsPerSec: nat, bytesPerDay: nat,
                 events: Outcome, bytes: Outcome)
        returns (d: Decision, failed: bool)
      requires counter.Valid() && counter.families == FAMILIES
      modifies counter`slots, counter`log, counter`touched
      ensures counter.Valid() && old(counter.log) <= counter.log
      ensures IsDecision(feedID, eventCount, byteCount, eventsPerSec, bytesPerDay, events, bytes, counter.now,
                         counter.log[|old(counter.log)|..], d, failed)
    {
      hide Counter.Valid, Bucket;
      d, failed := Decision(true, 0), false;
      ghost var first: seq<Charge>, second: seq<Charge> := [], [];
      if eventsPerSec > 0 {
        d, failed, first := CheckEventRate(feedID, eventCount, eventsPerSec, events);
        if failed || !d.allowed {
          assert counter.log[|old(counter.log)|..] == first;
          return;
        }
      }
      if bytesPerDay > 0 {
        d, failed, second := CheckDailyBytes(feedID, byteCount, bytesPerDay, bytes);
      }
      ghost var n := |first|;
      assert (first + second)[..n] == first && (first + second)[n..] == second;
      assert counter.log == old(counter.log) + (first + second);
      assert counter.log[|old(counter.log)|..] == first + second;
    }

    // In any second the events accepted for a feed, and on any day the bytes, stay within the quota.
    lemma QuotaHolds(name: string, feedID: string, bucket: int, limit: nat)
      requires counter.Valid()
      requires forall c | c in counter.log && c.key == Key(name, feedID, bucket) :: c.limit <= limit
      ensures Accepted(counter.log, Key(name, feedID, bucket)) <= limit
    {
      BucketStaysWithinLimit(counter.log, Key(name, feedID, bucket), limit);
    }
  }

  lemma NextMidnight(now: int)
    ensures (now + (DAY - now % DAY)) % DAY == 0
  {
    var q := now / DAY;
    assert now == DAY * q + now % DAY;
    assert now + (DAY - now % DAY) == DAY * (q + 1);
  }

  lemma FamiliesAre()
    ensures EVENTS in FAMILIES && BYTES in FAMILIES && FAMILIES[EVENTS].window > 0 && FAMILIES[BYTES].window > 0
  {
    assert EVENTS[6] == 'e' && BYTES[6] == 'b';
  }

  // What one counter call charged.
  predicate IsChargedAs(outcome: Outcome, charges: seq<Charge>, name: string, feedID: string, delta: nat, limit: nat) {
    if outcome.Refused? then charges == []
    else
      && |charges| == 1 && charges[0].key.name == name && charges[0].key.subject == feedID && charges[0].delta == delta
      && charges[0].limit == limit && charges[0].told == outcome.Answered?
  }

  // A delivery is refused exactly when its charge was told it is over the limit.
  predicate IsAllowed(outcome: Outcome, charges: seq<Charge>) {
    outcome.Answered? && charges != [] ==> Passed(charges[0])
  }

  predicate IsEventDecision(feedID: string, eventCount: nat, limit: nat, outcome: Outcome, charges: seq<Charge>,
                            d: Decision, failed: bool) {
    && IsChargedAs(outcome, charges, EVENTS, feedID, eventCount, limit)
    && d == (if IsAllowed(outcome, charges) then Decision(true, 0) else Decision(false, SECOND))
    && failed == !outcome.Answered?
  }

  // A refusal lasts until the next midnight.
  predicate IsByteDecision(feedID: string, byteCount: nat, limit: nat, now: int, outcome: Outcome, charges: seq<Charge>,
                           d: Decision, failed: bool) {
    && IsChargedAs(outcome, charges, BYTES, feedID, byteCount, limit)
    && d.allowed == IsAllowed(outcome, charges) && failed == !outcome.Answered?
    && if d.allowed then d.retryAfter == 0
       else 0 < d.retryAfter <= DAY && (now + d.retryAfter) % DAY == 0
  }

  // What one delivery is charged and what follows from it: one charge per quota, the bytes only when
  // the event rate was checked and passed; the last quota looked at decides.
  predicate IsDecision(feedID: string, eventCount: nat, byteCount: nat, eventsPerSec: nat, bytesPerDay: nat,
                       events: Outcome, bytes: Outcome, now: int, charges: seq<Charge>, d: Decision, failed: bool) {
    var n := if eventsPerSec > 0 && !events.Refused? then 1 else 0;
    && |charges| >= n
    && var first, rest := charges[..n], charges[n..];
       if eventsPerSec > 0 && !(events.Answered? && IsAllowed(events, first)) then
         rest == [] && IsEventDecision(feedID, eventCount, eventsPerSec, events, first, d, failed)
       else
         && (eventsPerSec > 0 ==> IsEventDecision(feedID, eventCount, eventsPerSec, events, first, Decision(true, 0), false))
         && if bytesPerDay > 0 then IsByteDecision(feedID, byteCount, bytesPerDay, now, bytes, rest, d, failed)
            else rest == [] && d == Decision(true, 0) && !failed
  }

  // One second and one day, each counter kept a second, or an hour, longer.
  lemma WindowsAre()
    ensures FAMILIES == map["quota:events" := Family(1_000_000_000, 2_000_000_000),
                            "quota:bytes" := Family(86_400_000_000_000, 90_000_000_000_000)]
  {
  }

  // The charge of a quota: what it is charged with, held against its own limit.
  predicate IsQuotaCharge(c: Charge, name: string, feedID: string, amount: nat, limit: nat, outcome: Outcome) {
    && c.key.name == name && c.key.subject == feedID && c.delta == amount && c.limit == limit
    && c.told == outcome.Answered?
  }

  // A delivery is allowed exactly when no charge was told it is over its limit. The bytes are charged
  // exactly when there is a byte quota and the event quota, if there is one, was checked and met. The
  // refused come back in a second, or at the next midnight.
  lemma QuotaSays(feedID: string, eventCount: nat, byteCount: nat, eventsPerSec: nat, bytesPerDay: nat, events: Outcome,
                  bytes: Outcome, now: int, charges: seq<Charge>, d: Decision, failed: bool)
    requires IsDecision(feedID, eventCount, byteCount, eventsPerSec, bytesPerDay, events, bytes, now, charges, d, failed)
    ensures d.allowed <==> forall c | c in charges :: c.told ==> c.total <= c.limit
    ensures d.allowed ==> d.retryAfter == 0
    ensures eventsPerSec > 0 && !events.Refused? ==>
      charges != [] && IsQuotaCharge(charges[0], "quota:events", feedID, eventCount, eventsPerSec, events)
    ensures var n := if eventsPerSec > 0 && !events.Refused? then 1 else 0;
      |charges| >= n &&
      var met := eventsPerSec == 0 || (events.Answered? && charges[0].total <= eventsPerSec);
      && (|charges| == n + if met && bytesPerDay > 0 && !bytes.Refused? then 1 else 0)
      && (|charges| > n ==> IsQuotaCharge(charges[n], "quota:bytes", feedID, byteCount, bytesPerDay, bytes))
      && (failed <==> (eventsPerSec > 0 && !events.Answered?) || (met && bytesPerDay > 0 && !bytes.Answered?))
      && (!d.allowed && !met ==> d.retryAfter == 1_000_000_000)
      && (!d.allowed && met ==>
            0 < d.retryAfter <= 86_400_000_000_000 && (now + d.retryAfter) % 86_400_000_000_000 == 0)
  {
    var n := if eventsPerSec > 0 && !events.Refused? then 1 else 0;
    var first, rest := charges[..n], charges[n..];
    assert charges == first + rest;
    assert n == 1 ==> first[0] == charges[0];
    assert |charges| > n ==> rest[0] == charges[n];
  }
}
