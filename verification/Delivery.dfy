// Webhook delivery of alerts (backend/internal/alerting/webhook.go and worker.go, with the update of
// an alert row in backend/internal/data/clickhouse/alerting.go and its triage in
// backend/internal/service/alerts.go).

// The retry schedule in wrapping 64-bit arithmetic.
module Backoffs {
  const SECOND: int := 1_000_000_000
  const BASE_BACKOFF: int := 2 * SECOND
  const MAX_BACKOFF: int := 300 * SECOND

  const TWO_63: int := 0x8000_0000_0000_0000
  const TWO_64: int := 0x1_0000_0000_0000_0000
  const TWO_43: int := 0x800_0000_0000

  function Pow2(k: nat): (p: int)
    ensures p >= 1
  {
    if k == 0 then 1 else 2 * Pow2(k - 1)
  }

  // What is left of a value in a signed 64-bit word.
  function Wrap(x: int): (w: int)
    ensures -TWO_63 <= w < TWO_63
  {
    (x + TWO_63) % TWO_64 - TWO_63
  }

  // x << k in Go: bits past the word are lost, all of them from 64 on.
  function ShiftLeft(x: int, k: nat): int {
    if k >= 64 then 0 else Wrap(x * Pow2(k))
  }

  function Backoff(attempt: int): int {
    var n := if attempt < 1 then 1 else attempt;
    var delay := ShiftLeft(BASE_BACKOFF, n - 1);
    if delay > MAX_BACKOFF || delay <= 0 then MAX_BACKOFF else delay
  }

  function Min(a: int, b: int): int {
    if a <= b then a else b
  }

  lemma {:induction false} Pow2Adds(j: nat, k: nat)
    ensures Pow2(j + k) == Pow2(j) * Pow2(k)
  {
    if j > 0 {
      Pow2Adds(j - 1, k);
      assert 2 * (Pow2(j - 1) * Pow2(k)) == (2 * Pow2(j - 1)) * Pow2(k);
    }
  }

  lemma {:induction false} Pow2Grows(j: nat, k: nat)
    requires j <= k
    ensures Pow2(j) <= Pow2(k)
  {
    if j < k {
      Pow2Grows(j, k - 1);
    }
  }

  lemma SmallPowers()
    ensures Pow2(7) == 128 && Pow2(8) == 256
    ensures Pow2(32) == 0x1_0000_0000 && Pow2(33) == 0x2_0000_0000
  {
    assert Pow2(4) == 16;
    assert Pow2(8) == 256;
    Pow2Adds(8, 8);
    Pow2Adds(16, 16);
    assert Pow2(33) == 2 * Pow2(32);
  }

  // A multiple of 2^43 wraps to a multiple of 2^43, so never into the range of real delays.
  lemma OverflowMissesTheRange(m: int)
    ensures Wrap(TWO_43 * m) > MAX_BACKOFF || Wrap(TWO_43 * m) <= 0
  {
    var q := (TWO_43 * m + TWO_63) / TWO_64;
    assert Wrap(TWO_43 * m) == TWO_43 * m - TWO_64 * q;
    var r := m - 0x20_0000 * q;
    assert Wrap(TWO_43 * m) == TWO_43 * r;
  }

  lemma WrapKeepsSmall(x: int)
    requires 0 <= x < TWO_63
    ensures Wrap(x) == x
  {
  }

  // A shift either gives the exact product or something no delay can be mistaken for.
  lemma ShiftIsExactOrOut(k: nat)
    ensures var exact, shifted := BASE_BACKOFF * Pow2(k), ShiftLeft(BASE_BACKOFF, k);
      if exact <= MAX_BACKOFF then shifted == exact else shifted > MAX_BACKOFF || shifted <= 0
  {
    SmallPowers();
    hide Pow2, Wrap;
    if k <= 32 {
      Pow2Grows(k, 32);
      WrapKeepsSmall(BASE_BACKOFF * Pow2(k));
    } else {
      Pow2Grows(33, k);
      if k < 64 {
        Pow2Adds(33, k - 33);
        MultipleOfTwo43(Pow2(k - 33));
        OverflowMissesTheRange(1_953_125 * Pow2(k - 33));
      }
    }
  }

  // The delay is the doubled base, capped, for every attempt number: no overflowed shift slips
  // through as a short delay.
  lemma BackoffIsCappedDoubling(attempt: int)
    ensures attempt >= 1 ==> Backoff(attempt) == Min(BASE_BACKOFF * Pow2(attempt - 1), MAX_BACKOFF)
    ensures attempt < 1 ==> Backoff(attempt) == BASE_BACKOFF
  {
    hide ShiftLeft, Wrap;
    ShiftIsExactOrOut(if attempt < 1 then 0 else attempt - 1);
  }

  lemma MultipleOfTwo43(p: int)
    ensures BASE_BACKOFF * (0x2_0000_0000 * p) == TWO_43 * (1_953_125 * p)
  {
  }

  // The schedule: two seconds, doubled up to five minutes.
  lemma BackoffSchedule(attempt: int)
    ensures attempt <= 1 ==> Backoff(attempt) == 2_000_000_000
    ensures 1 <= attempt < 8 ==> Backoff(attempt + 1) == 2 * Backoff(attempt)
    ensures attempt >= 9 ==> Backoff(attempt) == 300_000_000_000
  {
    BackoffIsCappedDoubling(attempt);
    BackoffIsCappedDoubling(attempt + 1);
    if attempt >= 9 {
      Pow2Grows(8, attempt - 1);
    } else if 1 <= attempt < 8 {
      Pow2Grows(attempt, 7);
    }
    EighthPowers();
    hide Backoff, Pow2;
    if 1 <= attempt < 8 {
      NextPower(attempt);
    }
    NextPower(1);
  }

  lemma EighthPowers()
    ensures Pow2(0) == 1 && Pow2(7) == 128 && Pow2(8) == 256
  {
    assert Pow2(1) == 2 && Pow2(2) == 4 && Pow2(3) == 8 && Pow2(4) == 16 && Pow2(5) == 32 && Pow2(6) == 64;
  }

  lemma NextPower(k: nat)
    requires k > 0
    ensures Pow2(k) == 2 * Pow2(k - 1)
  {
  }

  lemma BackoffIsMonotone(m: int, n: int)
    requires m <= n
    ensures Backoff(m) <= Backoff(n)
  {
    BackoffIsCappedDoubling(m);
    BackoffIsCappedDoubling(n);
    if m >= 1 {
      Pow2Grows(m - 1, n - 1);
    }
  }
}

module Delivery {
  import opened Wrappers
  import opened Backoffs

  const MAX_ATTEMPTS: nat := 5

  type Uint8 = x: int | 0 <= x < 256

  datatype Status = Pending | Delivered | Failed

  // The delivery fields and the triage fields of an alert.
  datatype Notify = Notify(status: Status, attempts: Uint8, lastError: string)

  datatype Stamp = Stamp(actor: string, at: int)

  datatype Triage = Triage(state: string, acknowledged: Option<Stamp>, resolved: Option<Stamp>)

  datatype Alert = Alert(id: string, ruleID: string, firedAt: int, triage: Triage, notify: Notify, version: nat)

  // What one delivery meets: whether the rule could be read, and how the endpoint behaved.
  datatype Endpoint = Endpoint(configured: bool, acceptable: bool, encodable: bool, keyAvailable: bool, answered: bool)

  datatype Facts = Facts(ruleRead: bool, now: int, endpoint: Endpoint)

  function Incremented(x: Uint8): Uint8 {
    (x + 1) % 256
  }

  // The outcome of one POST, as delivery fields.
  function Deliver(e: Endpoint, alert: Alert): Notify {
    var attempts := Incremented(alert.notify.attempts);
    if !e.configured then Notify(Delivered, alert.notify.attempts, "")
    else if !e.acceptable then Notify(Failed, attempts, "the webhook URL is rejected")
    else if !e.encodable then Notify(Failed, attempts, "the alert payload could not be encoded")
    else if !e.keyAvailable then Notify(Failed, attempts, "the webhook signing key is unavailable")
    else if !e.answered then
      Notify(if attempts >= MAX_ATTEMPTS then Failed else Pending, attempts, "the endpoint did not accept the alert")
    else Notify(Delivered, attempts, "")
  }

  predicate DueForRetry(alert: Alert, now: int) {
    alert.notify.attempts == 0 || now >= alert.firedAt + Backoff(alert.notify.attempts)
  }

  // What a delivery pass decides for an alert as it was listed; nothing if it is not due. Any error
  // in reading the rule ends the alert.
  function Decide(listed: Alert, f: Facts): Option<Notify> {
    if !f.ruleRead then
      Some(Notify(Failed, Incremented(listed.notify.attempts), "the rule behind this alert no longer exists"))
    else if !DueForRetry(listed, f.now) then None
    else Some(Deliver(f.endpoint, listed))
  }

  // What an attempt reports: delivered exactly when there is no endpoint or it took the alert, and an
  // attempt is counted exactly when there is an endpoint.
  lemma DeliveredExactlyWhen(e: Endpoint, alert: Alert)
    requires alert.notify.attempts < 255
    ensures Deliver(e, alert).status.Delivered?
       <==> !e.configured || (e.acceptable && e.encodable && e.keyAvailable && e.answered)
    ensures Deliver(e, alert).attempts == alert.notify.attempts + if e.configured then 1 else 0
    ensures Deliver(e, alert).lastError == "" <==> Deliver(e, alert).status.Delivered?
  {
  }

  // The endpoint took the alert.
  predicate Took(e: Endpoint) {
    e.acceptable && e.encodable && e.keyAvailable && e.answered
  }

  // A row after a delivery pass that listed its alert so: what was decided, and why. An unreadable rule
  // fails the alert with one more attempt; one that is not due is left alone; without an endpoint it is
  // delivered and nothing counted; otherwise an attempt is counted, and it is delivered when the
  // endpoint took it, retried when the endpoint did not answer and attempts are left, and failed
  // otherwise.
  predicate IsStep(listed: Alert, f: Facts, due: bool, before: Alert, after: Alert) {
    var n, next := listed.notify.attempts, (listed.notify.attempts + 1) % 256;
    if f.ruleRead && !due then after == before
    else
      && after == before.(notify := after.notify, version := before.version + 1)
      && (after.notify.status == Delivered <==> f.ruleRead && (!f.endpoint.configured || Took(f.endpoint)))
      && (after.notify.status == Pending <==>
            && f.ruleRead && f.endpoint.configured
            && f.endpoint.acceptable && f.endpoint.encodable && f.endpoint.keyAvailable && !f.endpoint.answered && next < 5)
      && after.notify.attempts == (if f.ruleRead && !f.endpoint.configured then n else next)
      && (after.notify.lastError == "" <==> after.notify.status == Delivered)
  }

  // The alert was never tried, or its doubled delay since it fired has gone by.
  predicate IsDue(listed: Alert, now: int) {
    listed.notify.attempts == 0
    || now >= listed.firedAt + Min(BASE_BACKOFF * Pow2(listed.notify.attempts - 1), MAX_BACKOFF)
  }

  lemma DecisionIsAStep(listed: Alert, f: Facts, before: Alert)
    ensures IsStep(listed, f, IsDue(listed, f.now), before,
                   match Decide(listed, f) case None => before case Some(n) => Marked(before, n))
  {
    DueIsDue(listed, f.now);
    hide DueForRetry, IsDue, Pow2;
  }

  // The texts an operator reads beside an alert that was not delivered, in the order of the checks.
  lemma ErrorTells(listed: Alert, f: Facts)
    requires Decide(listed, f).Some? && Decide(listed, f).value.status != Delivered
    ensures Decide(listed, f).value.lastError
      == if !f.ruleRead then "the rule behind this alert no longer exists"
         else if !f.endpoint.acceptable then "the webhook URL is rejected"
         else if !f.endpoint.encodable then "the alert payload could not be encoded"
         else if !f.endpoint.keyAvailable then "the webhook signing key is unavailable"
         else "the endpoint did not accept the alert"
  {
    hide DueForRetry;
  }

  lemma DueIsDue(listed: Alert, now: int)
    ensures DueForRetry(listed, now) <==> IsDue(listed, now)
  {
    BackoffIsCappedDoubling(listed.notify.attempts);
    hide Backoff, Pow2;
  }

  // A readable alert is passed over exactly until its doubled, capped delay since firing has gone by.
  lemma SkippedUntilBackoff(listed: Alert, f: Facts)
    ensures Decide(listed, f).None?
       <==> (&& f.ruleRead && listed.notify.attempts > 0
             && f.now < listed.firedAt + Min(BASE_BACKOFF * Pow2(listed.notify.attempts - 1), MAX_BACKOFF))
  {
    BackoffIsCappedDoubling(listed.notify.attempts);
  }

  // ---------------------------------------------------------------- alert rows

  function Marked(current: Alert, notify: Notify): Alert {
    current.(notify := notify, version := current.version + 1)
  }

  datatype Target = Acknowledge | Resolve

  function Triaged(t: Triage, target: Target, stamp: Stamp): Triage {
    match target
    case Acknowledge => t.(state := "acknowledged", acknowledged := Some(stamp))
    case Resolve =>
      Triage("resolved", if t.acknowledged.None? then Some(stamp) else t.acknowledged, Some(stamp))
  }

  function Transitioned(current: Alert, target: Target, stamp: Stamp): Alert {
    current.(triage := Triaged(current.triage, target, stamp), version := current.version + 1)
  }

  // What triage writes. Resolving acknowledges as well, but never over an acknowledgement already there.
  lemma TriageSays(a: Alert, stamp: Stamp)
    ensures var t := Transitioned(a, Acknowledge, stamp).triage;
      t.state == "acknowledged" && t.acknowledged == Some(stamp) && t.resolved == a.triage.resolved
    ensures var t := Transitioned(a, Resolve, stamp).triage;
      && t.state == "resolved" && t.resolved == Some(stamp)
      && t.acknowledged == if a.triage.acknowledged.Some? then a.triage.acknowledged else Some(stamp)
    ensures forall target :: Transitioned(a, target, stamp).version == a.version + 1
    ensures forall target :: Transitioned(a, target, stamp).(triage := a.triage, version := a.version) == a
  {
  }

  // A retry is not a triage action: in either order both take effect, and nothing else does.
  lemma DeliveryCommutesWithTriage(a: Alert, n: Notify, target: Target, stamp: Stamp)
    ensures Marked(Transitioned(a, target, stamp), n) == Transitioned(Marked(a, n), target, stamp)
    ensures Marked(a, n).triage == a.triage && Transitioned(a, target, stamp).notify == a.notify
  {
  }

  // ---------------------------------------------------------------- bounds

  // At most five attempts are recorded, and a pending alert has one left.
  predicate Bounded(n: Notify) {
    n.attempts <= MAX_ATTEMPTS && (n.status.Pending? ==> n.attempts < MAX_ATTEMPTS)
  }

  // Whatever the listing is worth by the time it is used, what it leads to stays within bounds.
  lemma DecisionsAreBounded(listed: Alert, f: Facts)
    requires Bounded(listed.notify) && listed.notify.status.Pending? && Decide(listed, f).Some?
    ensures Bounded(Decide(listed, f).value)
    ensures Decide(listed, f).value.status.Pending? ==> Decide(listed, f).value.attempts == listed.notify.attempts + 1
  {
  }

  // Passes over one alert, each listing it as the one before left it; an alert that is no longer
  // pending is not listed.
  function AfterPasses(a: Alert, passes: seq<Facts>): Alert
    decreases |passes|
  {
    if passes == [] then a
    else if !a.notify.status.Pending? then AfterPasses(a, passes[1..])
    else
      match Decide(a, passes[0])
      case None => AfterPasses(a, passes[1..])
      case Some(n) => AfterPasses(Marked(a, n), passes[1..])
  }

  // Delivered and failed are final.
  lemma {:induction false} EndedStaysEnded(a: Alert, passes: seq<Facts>)
    requires !a.notify.status.Pending?
    ensures AfterPasses(a, passes) == a
    decreases |passes|
  {
    if passes != [] {
      EndedStaysEnded(a, passes[1..]);
    }
  }

  // How many of the passes found the alert pending and due, each by the delay of its own attempt.
  function DuePasses(a: Alert, passes: seq<Facts>): nat
    decreases |passes|
  {
    if passes == [] || !a.notify.status.Pending? then 0
    else
      match Decide(a, passes[0])
      case None => DuePasses(a, passes[1..])
      case Some(n) => 1 + DuePasses(Marked(a, n), passes[1..])
  }

  // Whatever the passes find, one at which the alert is due ends it or uses one of its five attempts,
  // and one at which it is not due changes nothing: five due passes end it, and while it is pending
  // its attempts count them.
  lemma {:induction false} DuePassesEndTheAlert(a: Alert, passes: seq<Facts>)
    requires Bounded(a.notify)
    ensures var final := AfterPasses(a, passes).notify;
      && Bounded(final)
      && (final.status.Pending? ==>
            a.notify.status.Pending? && final.attempts == a.notify.attempts + DuePasses(a, passes))
      && (DuePasses(a, passes) + a.notify.attempts >= MAX_ATTEMPTS ==> !final.status.Pending?)
      && DuePasses(a, passes) <= MAX_ATTEMPTS
    decreases |passes|
  {
    if passes != [] {
      var rest := passes[1..];
      if !a.notify.status.Pending? {
        EndedStaysEnded(a, rest);
      } else if Decide(a, passes[0]).None? {
        DuePassesEndTheAlert(a, rest);
      } else {
        DecisionsAreBounded(a, passes[0]);
        DuePassesEndTheAlert(Marked(a, Decide(a, passes[0]).value), rest);
        AttemptsRunOut(Marked(a, Decide(a, passes[0]).value), rest);
        AttemptsRunOut(a, passes);
      }
    }
  }

  // An alert is due at no more passes than it has attempts left.
  lemma {:induction false} AttemptsRunOut(a: Alert, passes: seq<Facts>)
    requires Bounded(a.notify)
    ensures a.notify.status.Pending? ==> DuePasses(a, passes) + a.notify.attempts <= MAX_ATTEMPTS
    decreases |passes|
  {
    if passes != [] && a.notify.status.Pending? {
      if Decide(a, passes[0]).None? {
        AttemptsRunOut(a, passes[1..]);
      } else {
        DecisionsAreBounded(a, passes[0]);
        AttemptsRunOut(Marked(a, Decide(a, passes[0]).value), passes[1..]);
      }
    }
  }

  ghost predicate AlwaysDue(a: Alert, passes: seq<Facts>) {
    forall f | f in passes :: !f.ruleRead || f.now >= a.firedAt + MAX_BACKOFF
  }

  // No delay is longer than the cap, so from the cap on every pass over a pending alert is due.
  lemma {:induction false} LatePassesAreDue(a: Alert, passes: seq<Facts>)
    requires Bounded(a.notify) && AlwaysDue(a, passes)
    ensures AfterPasses(a, passes).notify.status.Pending? ==> DuePasses(a, passes) == |passes|
    ensures |passes| + a.notify.attempts >= MAX_ATTEMPTS ==> !AfterPasses(a, passes).notify.status.Pending?
    decreases |passes|
  {
    DuePassesEndTheAlert(a, passes);
    if passes != [] {
      var rest := passes[1..];
      assert passes[0] in passes && forall f | f in rest :: f in passes;
      if !a.notify.status.Pending? {
        EndedStaysEnded(a, rest);
      } else {
        BackoffIsCappedDoubling(a.notify.attempts);
        DecisionsAreBounded(a, passes[0]);
        LatePassesAreDue(Marked(a, Decide(a, passes[0]).value), rest);
      }
    }
  }

  // ---------------------------------------------------------------- the program

  class AlertStore {
    // The newest version of each alert.
    var alerts: map<string, Alert>

    constructor (alerts: map<string, Alert>)
      ensures this.alerts == alerts
    {
      this.alerts := alerts;
    }

    method MarkDelivery(id: string, notify: Notify) returns (found: bool)
      modifies this
      ensures found <==> id in old(alerts)
      ensures alerts == if found then old(alerts)[id := Marked(old(alerts)[id], notify)] else old(alerts)
    {
      if id !in alerts {
        return false;
      }
      alerts := alerts[id := Marked(alerts[id], notify)];
      return true;
    }

    method Transition(id: string, target: Target, stamp: Stamp) returns (found: bool)
      modifies this
      ensures found <==> id in old(alerts)
      ensures alerts == if found then old(alerts)[id := Transitioned(old(alerts)[id], target, stamp)] else old(alerts)
    {
      if id !in alerts {
        return false;
      }
      alerts := alerts[id := Transitioned(alerts[id], target, stamp)];
      return true;
    }
  }

  // What one pass over a listing leaves, alert by alert. Every alert is judged as it was listed,
  // and the decision is written onto whatever its row is by then.
  ghost predicate IsPassOver(before: map<string, Alert>, listing: seq<Alert>, facts: map<string, Facts>,
                             after: map<string, Alert>) {
    && after.Keys == before.Keys
    && (forall id | id in before && (forall a | a in listing :: a.id != id) :: after[id] == before[id])
    && (forall a | a in listing && a.id in before && a.id in facts ::
          after[a.id] == match Decide(a, facts[a.id])
                         case None => before[a.id]
                         case Some(n) => Marked(before[a.id], n))
  }

  ghost predicate DistinctIDs(listing: seq<Alert>) {
    forall i, j | 0 <= i < j < |listing| :: listing[i].id != listing[j].id
  }

  class DeliveryWorker {
    const rules: AlertStore

    constructor (rules: AlertStore)
      ensures this.rules == rules
    {
      this.rules := rules;
    }

    method DeliverOne(alert: Alert, f: Facts)
      modifies rules
      ensures rules.alerts == match Decide(alert, f)
        case None => old(rules.alerts)
        case Some(n) =>
          if alert.id in old(rules.alerts) then old(rules.alerts)[alert.id := Marked(old(rules.alerts)[alert.id], n)]
          else old(rules.alerts)
      ensures rules.alerts.Keys == old(rules.alerts).Keys
      ensures forall id | id in old(rules.alerts) && id != alert.id :: rules.alerts[id] == old(rules.alerts)[id]
      ensures alert.id in old(rules.alerts) ==>
        IsStep(alert, f, IsDue(alert, f.now), old(rules.alerts)[alert.id], rules.alerts[alert.id])
    {
      if alert.id in rules.alerts {
        DecisionIsAStep(alert, f, rules.alerts[alert.id]);
      }
      hide IsStep, IsDue;
      if !f.ruleRead {
        var marked := rules.MarkDelivery(alert.id, Notify(Failed, Incremented(alert.notify.attempts),
                                                          "the rule behind this alert no longer exists"));
        return;
      }
      if !DueForRetry(alert, f.now) {
        return;
      }
      var outcome := Deliver(f.endpoint, alert);
      var marked := rules.MarkDelivery(alert.id, outcome);
    }

    method DeliverPending(pending: seq<Alert>, facts: map<string, Facts>)
      requires DistinctIDs(pending) && forall a | a in pending :: a.id in facts
      modifies rules
      ensures IsPassOver(old(rules.alerts), pending, facts, rules.alerts)
    {
      hide Decide, Marked;
      for i := 0 to |pending|
        invariant IsPassOver(old(rules.alerts), pending[..i], facts, rules.alerts)
      {
        assert pending[..i + 1] == pending[..i] + [pending[i]];
        ghost var before := rules.alerts;
        assert forall a | a in pending[..i] :: a.id != pending[i].id;
        DeliverOne(pending[i], facts[pending[i].id]);
        PassStep(old(rules.alerts), pending[..i], pending[i], facts, before, rules.alerts);
      }
      assert pending[..|pending|] == pending;
    }
  }

  lemma PassStep(start: map<string, Alert>, listing: seq<Alert>, alert: Alert, facts: map<string, Facts>,
                 before: map<string, Alert>, after: map<string, Alert>)
    requires IsPassOver(start, listing, facts, before) && alert.id in facts
    requires forall a | a in listing :: a.id != alert.id
    requires after == match Decide(alert, facts[alert.id])
      case None => before
      case Some(n) => if alert.id in before then before[alert.id := Marked(before[alert.id], n)] else before
    ensures IsPassOver(start, listing + [alert], facts, after)
  {
    hide Decide, Marked;
    var longer := listing + [alert];
    assert alert in longer && forall a | a in listing :: a in longer;
    assert alert.id in start ==> before[alert.id] == start[alert.id];
  }

  // What a pass makes of each alert it listed, told from what the pass met.
  lemma PassSays(before: map<string, Alert>, listing: seq<Alert>, facts: map<string, Facts>, after: map<string, Alert>, a: Alert)
    requires IsPassOver(before, listing, facts, after) && a in listing && a.id in before && a.id in facts
    ensures a.id in after && IsStep(a, facts[a.id], IsDue(a, facts[a.id].now), before[a.id], after[a.id])
  {
    hide Decide, Marked, IsStep, IsDue;
    DecisionIsAStep(a, facts[a.id], before[a.id]);
  }

  // A pending alert's row becomes delivered exactly when its rule was read, it was due, and there is no
  // endpoint or the endpoint took it; with the rule unread it fails with one more attempt.
  lemma DeliveredByAPassExactlyWhen(before: map<string, Alert>, listing: seq<Alert>, facts: map<string, Facts>,
                                    after: map<string, Alert>, a: Alert)
    requires IsPassOver(before, listing, facts, after) && a in listing && a.id in before && a.id in facts
    requires before[a.id].notify.status.Pending?
    ensures var f := facts[a.id];
      && a.id in after
      && (after[a.id].notify.status.Delivered? <==>
            f.ruleRead && IsDue(a, f.now) && (!f.endpoint.configured || Took(f.endpoint)))
      && (!f.ruleRead ==> after[a.id].notify.status.Failed? && after[a.id].notify.attempts == (a.notify.attempts + 1) % 256)
  {
    hide IsPassOver, IsDue;
    PassSays(before, listing, facts, after, a);
  }

  // ---------------------------------------------------------------- several replicas

  // The table between steps of several workers, with the listings they may still be holding: every
  // alert and every listed copy is within bounds, and only pending alerts are listed.
  ghost predicate WithinBounds(alerts: map<string, Alert>, listed: seq<Alert>) {
    && (forall id | id in alerts :: Bounded(alerts[id].notify))
    && (forall a | a in listed :: Bounded(a.notify) && a.notify.status.Pending?)
  }

  // A pass over a listing that is still current moves every listed alert by one step of the serial
  // run and leaves every ended alert alone.
  lemma CurrentPassIsOneStep(before: map<string, Alert>, listing: seq<Alert>, facts: map<string, Facts>,
                             after: map<string, Alert>, id: string)
    requires IsPassOver(before, listing, facts, after) && id in before && id in facts
    requires forall a | a in listing :: a.id in before && before[a.id] == a && a.notify.status.Pending?
    requires before[id].notify.status.Pending? ==> before[id] in listing && before[id].id == id
    ensures after[id] == AfterPasses(before[id], [facts[id]])
  {
    hide Decide, Marked;
    var passes := [facts[id]];
    assert passes[1..] == [];
    if !before[id].notify.status.Pending? {
      assert forall a | a in listing :: a.id != id;
    }
  }

  // However old its listing is, a pass keeps every alert within bounds.
  lemma StalePassesStayWithinBounds(before: map<string, Alert>, listing: seq<Alert>, facts: map<string, Facts>,
                                    after: map<string, Alert>)
    requires WithinBounds(before, listing) && IsPassOver(before, listing, facts, after)
    requires forall a | a in listing :: a.id in facts
    ensures WithinBounds(after, listing)
  {
    hide Decide, Bounded;
    forall id | id in after ensures Bounded(after[id].notify) {
      if a :| a in listing && a.id == id {
        if Decide(a, facts[id]).Some? {
          DecisionsAreBounded(a, facts[id]);
        }
      } else {
        assert after[id] == before[id];
      }
    }
  }

  // But an ended alert stays ended only against listings taken after it ended. A replica still
  // holding it as pending reopens it exactly when it could read the rule, the alert was due, and the
  // endpoint failed in a way worth a retry.
  lemma StaleListingReopens(current: Alert, listed: Alert, f: Facts)
    requires Bounded(listed.notify) && listed.notify.status.Pending? && !current.notify.status.Pending?
    ensures (Decide(listed, f).Some? && Marked(current, Decide(listed, f).value).notify.status.Pending?)
       <==> (&& f.ruleRead && DueForRetry(listed, f.now)
             && f.endpoint.configured && f.endpoint.acceptable && f.endpoint.encodable && f.endpoint.keyAvailable
             && !f.endpoint.answered && listed.notify.attempts < MAX_ATTEMPTS - 1)
  {
    hide DueForRetry;
  }
}
