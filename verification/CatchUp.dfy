// The closer's catch-up loop (backend/internal/correlate/closer.go:117-331): passes within a
// tick, ticks until one reports the schedule drained or fails, and the per-tenant tallies.

module CatchUp {
  import opened Windows

  // An entry of the schedule; one that does not decode is popped with the others and skipped.
  datatype Entry = Malformed | Due(window: Scheduled)

  // What building a claimed window came to: an identity failure, no members left, or records.
  datatype Built = Failed | Empty | Records(count: nat)

  datatype Tally = Tally(closed: nat, dropped: nat, emitted: nat, failures: nat)

  type Tallies = map<string, Tally>

  // What building each window would come to; a window not listed has no members left.
  type Outcomes = map<Scheduled, Built>

  function BuiltOf(build: Outcomes, w: Scheduled): Built {
    if w in build then build[w] else Empty
  }

  const MAX_PASSES_PER_TICK := 32

  function Min(a: nat, b: nat): nat {
    if a < b then a else b
  }

  function Decode(entries: seq<Entry>): seq<Scheduled> {
    if entries == [] then []
    else
      var init, last := Decode(entries[..|entries| - 1]), entries[|entries| - 1];
      if last.Due? then init + [last.window] else init
  }

  function TallyOf(tallies: Tallies, tenant: string): Tally {
    if tenant in tallies then tallies[tenant] else Tally(0, 0, 0, 0)
  }

  // Windows of a tenant that were closed, dropped or failed.
  function Accounted(t: Tally): nat {
    t.closed + t.dropped + t.failures
  }

  function CountOf(ws: seq<Scheduled>, tenant: string): nat {
    if ws == [] then 0 else CountOf(ws[..|ws| - 1], tenant) + (if ws[|ws| - 1].tenant == tenant then 1 else 0)
  }

  function Counted(t: Tally, built: Built): Tally {
    match built
    case Failed => t.(failures := t.failures + 1)
    case Empty => t.(dropped := t.dropped + 1)
    case Records(_) => t.(closed := t.closed + 1)
  }

  // The tallies once each of the windows has been counted under its tenant.
  ghost function Tallied(start: Tallies, ws: seq<Scheduled>, build: Outcomes): Tallies {
    if ws == [] then start
    else
      var before, last := Tallied(start, ws[..|ws| - 1], build), ws[|ws| - 1];
      before[last.tenant := Counted(TallyOf(before, last.tenant), BuiltOf(build, last))]
  }

  // Every claimed window adds exactly one to exactly one of closed, dropped and failures of its
  // tenant, and nothing else changes.
  lemma {:induction false} EachWindowCountedOnce(start: Tallies, ws: seq<Scheduled>, build: Outcomes, tenant: string)
    ensures Accounted(TallyOf(Tallied(start, ws, build), tenant)) == Accounted(TallyOf(start, tenant)) + CountOf(ws, tenant)
    ensures TallyOf(Tallied(start, ws, build), tenant).emitted == TallyOf(start, tenant).emitted
  {
    hide *;
    Unfold(start, ws, build, tenant);
    if ws != [] {
      var init, last := ws[..|ws| - 1], ws[|ws| - 1];
      EachWindowCountedOnce(start, init, build, tenant);
      CountStep(Tallied(start, init, build), last.tenant, BuiltOf(build, last), tenant);
    }
  }

  lemma Unfold(start: Tallies, ws: seq<Scheduled>, build: Outcomes, tenant: string)
    ensures ws == [] ==> Tallied(start, ws, build) == start && CountOf(ws, tenant) == 0
    ensures ws != [] ==>
      var before, last := Tallied(start, ws[..|ws| - 1], build), ws[|ws| - 1];
      && Tallied(start, ws, build) == before[last.tenant := Counted(TallyOf(before, last.tenant), BuiltOf(build, last))]
      && CountOf(ws, tenant) == CountOf(ws[..|ws| - 1], tenant) + (if last.tenant == tenant then 1 else 0)
  {
  }

  lemma CountStep(before: Tallies, tenant: string, built: Built, other: string)
    ensures var after := before[tenant := Counted(TallyOf(before, tenant), built)];
      && Accounted(TallyOf(after, other)) == Accounted(TallyOf(before, other)) + (if tenant == other then 1 else 0)
      && TallyOf(after, other).emitted == TallyOf(before, other).emitted
  {
    hide *;
    CountedAddsOne(TallyOf(before, tenant), built);
    TallyOfUpdate(before, tenant, Counted(TallyOf(before, tenant), built), other);
  }

  lemma CountedAddsOne(t: Tally, built: Built)
    ensures Accounted(Counted(t, built)) == Accounted(t) + 1 && Counted(t, built).emitted == t.emitted
  {
  }

  lemma TallyOfUpdate(tallies: Tallies, tenant: string, t: Tally, other: string)
    ensures TallyOf(tallies[tenant := t], other) == if tenant == other then t else TallyOf(tallies, other)
  {
  }

  lemma {:induction false} TalliedConcat(start: Tallies, a: seq<Scheduled>, b: seq<Scheduled>, build: Outcomes)
    ensures Tallied(start, a + b, build) == Tallied(Tallied(start, a, build), b, build)
  {
    if b == [] {
      assert a + b == a;
    } else {
      TalliedConcat(start, a, b[..|b| - 1], build);
      assert (a + b)[..|a + b| - 1] == a + b[..|b| - 1];
    }
  }

  lemma TalliedNil(start: Tallies, build: Outcomes)
    ensures Tallied(start, [], build) == start
  {
  }

  lemma TalliedSnoc(start: Tallies, ws: seq<Scheduled>, i: nat, build: Outcomes)
    requires i < |ws|
    ensures Tallied(start, ws[..i + 1], build)
         == var before := Tallied(start, ws[..i], build);
            before[ws[i].tenant := Counted(TallyOf(before, ws[i].tenant), BuiltOf(build, ws[i]))]
  {
    assert ws[..i + 1][..i] == ws[..i];
  }

  // Records waiting for a tenant's insert, from the windows built for it.
  function Gathered(ws: seq<Scheduled>, build: Outcomes, tenant: string): nat {
    if ws == [] then 0
    else
      var init, last := Gathered(ws[..|ws| - 1], build, tenant), ws[|ws| - 1];
      if last.tenant == tenant && BuiltOf(build, last).Records? then init + BuiltOf(build, last).count else init
  }

  lemma {:induction false} GatheredConcat(a: seq<Scheduled>, b: seq<Scheduled>, build: Outcomes, tenant: string)
    ensures Gathered(a + b, build, tenant) == Gathered(a, build, tenant) + Gathered(b, build, tenant)
  {
    hide BuiltOf;
    if b == [] {
      assert a + b == a;
    } else {
      GatheredConcat(a, b[..|b| - 1], build, tenant);
      assert (a + b)[..|a + b| - 1] == a + b[..|b| - 1];
    }
  }

  lemma GatheredSnoc(ws: seq<Scheduled>, i: nat, build: Outcomes, tenant: string)
    requires i < |ws|
    ensures Gathered(ws[..i + 1], build, tenant)
         == Gathered(ws[..i], build, tenant)
            + if ws[i].tenant == tenant && BuiltOf(build, ws[i]).Records? then BuiltOf(build, ws[i]).count else 0
  {
    assert ws[..i + 1][..i] == ws[..i];
  }

  // A window built anywhere among the others adds its own records to its own tenant.
  lemma RecordsWaiting(a: seq<Scheduled>, w: Scheduled, b: seq<Scheduled>, build: Outcomes, tenant: string)
    ensures Gathered([], build, tenant) == 0
    ensures Gathered(a + [w] + b, build, tenant)
         == Gathered(a + b, build, tenant)
            + if w.tenant == tenant && w in build && build[w].Records? then build[w].count else 0
  {
    GatheredConcat(a + [w], b, build, tenant);
    GatheredConcat(a, [w], build, tenant);
    GatheredConcat(a, b, build, tenant);
    assert [w][..0] == [];
  }

  // What became of a claimed window: it closed with records, had no members left, or failed to build.
  datatype Fate = Closing | Expired | Failing

  // The window is the tenant's and came to this.
  predicate CameTo(w: Scheduled, build: Outcomes, tenant: string, fate: Fate) {
    && w.tenant == tenant
    && match fate
       case Closing => w in build && build[w].Records?
       case Expired => w in build ==> build[w].Empty?
       case Failing => w in build && build[w].Failed?
  }

  // The claimed windows of a tenant that came to this.
  ghost function Those(ws: seq<Scheduled>, build: Outcomes, tenant: string, fate: Fate): set<int> {
    set i | 0 <= i < |ws| && CameTo(ws[i], build, tenant, fate)
  }

  lemma ThoseNil(build: Outcomes, tenant: string, fate: Fate)
    ensures Those([], build, tenant, fate) == {}
  {
  }

  lemma ThoseSnoc(ws: seq<Scheduled>, w: Scheduled, build: Outcomes, tenant: string, fate: Fate)
    ensures |Those(ws + [w], build, tenant, fate)|
         == |Those(ws, build, tenant, fate)| + (if CameTo(w, build, tenant, fate) then 1 else 0)
  {
    var longer, n := ws + [w], |ws|;
    forall i ensures i in Those(longer, build, tenant, fate) <==>
      i in Those(ws, build, tenant, fate) || (i == n && CameTo(w, build, tenant, fate))
    {
      hide CameTo;
      assert 0 <= i < n ==> longer[i] == ws[i];
    }
    assert n !in Those(ws, build, tenant, fate);
    hide *;
    OneMore(Those(ws, build, tenant, fate), Those(longer, build, tenant, fate), n, CameTo(w, build, tenant, fate));
  }

  lemma OneMore<T>(s: set<T>, t: set<T>, n: T, hit: bool)
    requires n !in s && forall i :: i in t <==> i in s || (i == n && hit)
    ensures |t| == |s| + (if hit then 1 else 0)
  {
    if hit {
      assert t == s + {n};
    } else {
      assert t == s;
    }
  }

  // Each counter of a tenant grows by exactly its windows that came to that.
  lemma {:induction false} CountersTell(start: Tallies, ws: seq<Scheduled>, build: Outcomes, tenant: string)
    ensures var before, after := TallyOf(start, tenant), TallyOf(Tallied(start, ws, build), tenant);
      && after.closed == before.closed + |Those(ws, build, tenant, Closing)|
      && after.dropped == before.dropped + |Those(ws, build, tenant, Expired)|
      && after.failures == before.failures + |Those(ws, build, tenant, Failing)|
      && after.emitted == before.emitted
  {
    hide *;
    Unfold(start, ws, build, tenant);
    if ws == [] {
      ThoseNil(build, tenant, Closing);
      ThoseNil(build, tenant, Expired);
      ThoseNil(build, tenant, Failing);
    } else {
      var init, last := ws[..|ws| - 1], ws[|ws| - 1];
      assert ws == init + [last];
      CountersTell(start, init, build, tenant);
      ThoseSnoc(init, last, build, tenant, Closing);
      ThoseSnoc(init, last, build, tenant, Expired);
      ThoseSnoc(init, last, build, tenant, Failing);
      CountedSays(TallyOf(Tallied(start, init, build), last.tenant), last, build);
      TallyOfUpdate(Tallied(start, init, build), last.tenant,
                    Counted(TallyOf(Tallied(start, init, build), last.tenant), BuiltOf(build, last)), tenant);
    }
  }

  lemma CountedSays(t: Tally, w: Scheduled, build: Outcomes)
    ensures var c := Counted(t, BuiltOf(build, w));
      && c.closed == t.closed + (if CameTo(w, build, w.tenant, Closing) then 1 else 0)
      && c.dropped == t.dropped + (if CameTo(w, build, w.tenant, Expired) then 1 else 0)
      && c.failures == t.failures + (if CameTo(w, build, w.tenant, Failing) then 1 else 0)
      && c.emitted == t.emitted
    ensures forall tenant, fate | tenant != w.tenant :: !CameTo(w, build, tenant, fate)
  {
  }

  // A tenant's tally once its records, if there are any, were inserted or refused.
  function Inserted(t: Tally, tenant: string, count: nat, down: set<string>): Tally {
    if count == 0 then t
    else if (tenant in down) then t.(failures := t.failures + 1)
    else t.(emitted := t.emitted + count)
  }

  // ---------------------------------------------------------------- what the loops do

  type Batch = n: nat | n > 0 witness 256

  // What goes wrong in one pass; a claim that fails pops nothing.
  datatype PassFault = Works | ClaimFails | ReadFails

  // What goes wrong in one tick: its passes' faults, and the tenants whose insert fails.
  datatype Weather = Weather(faults: seq<PassFault>, down: set<string>)

  const CALM := Weather([], {})

  // What a pass, a tick or a loop does to the schedule: what it leaves, the windows it claimed, those
  // of them it built, and the two flags it returns.
  datatype Progress = Progress(rest: seq<Entry>, claimed: seq<Scheduled>, built: seq<Scheduled>,
                               drained: bool, failed: bool)

  function Popped(schedule: seq<Entry>, batch: Batch): nat {
    Min(batch, |schedule|)
  }

  predicate AnyFailed(ws: seq<Scheduled>, build: Outcomes) {
    exists w | w in ws :: BuiltOf(build, w).Failed?
  }

  // A pass reports the schedule drained when it got fewer usable windows than a full batch, and when
  // it fails to claim or to read; a window that fails to build is reported, and the pass goes on.
  function PassOf(schedule: seq<Entry>, batch: Batch, build: Outcomes, fault: PassFault): Progress {
    var due, rest := Decode(schedule[..Popped(schedule, batch)]), schedule[Popped(schedule, batch)..];
    if fault.ClaimFails? then Progress(schedule, [], [], true, true)
    else if fault.ReadFails? && due != [] then Progress(rest, due, [], true, true)
    else Progress(rest, due, due, |due| < batch, AnyFailed(due, build))
  }

  // One thing after another; the first flag of the two says whether the schedule was drained.
  function Then(p: Progress, q: Progress): Progress {
    Progress(q.rest, p.claimed + q.claimed, p.built + q.built, p.drained, p.failed || q.failed)
  }

  function FirstFault(faults: seq<PassFault>): PassFault {
    if faults == [] then Works else faults[0]
  }

  function Later<T>(ts: seq<T>): seq<T> {
    if ts == [] then [] else ts[1..]
  }

  // Up to the given number of passes, stopping after the first that reports the schedule drained. A
  // failed build does not stop them.
  function PassesOf(schedule: seq<Entry>, batch: Batch, build: Outcomes, passes: nat, faults: seq<PassFault>): Progress
    requires passes > 0
    decreases passes
  {
    var p := PassOf(schedule, batch, build, FirstFault(faults));
    if p.drained || passes == 1 then p
    else Then(p, PassesOf(p.rest, batch, build, passes - 1, Later(faults)))
  }

  predicate InsertFails(built: seq<Scheduled>, build: Outcomes, down: set<string>) {
    exists t | t in down :: Gathered(built, build, t) > 0
  }

  // A tick reports drained exactly when its first pass did, and failed when any of its passes did or
  // a tenant's insert.
  function TickOf(schedule: seq<Entry>, batch: Batch, build: Outcomes, w: Weather): Progress {
    var p := PassesOf(schedule, batch, build, MAX_PASSES_PER_TICK, w.faults);
    p.(failed := p.failed || InsertFails(p.built, build, w.down))
  }

  function FirstWeather(ws: seq<Weather>): Weather {
    if ws == [] then CALM else ws[0]
  }

  // Ticks until one reports the schedule drained or fails.
  function CatchUpOf(schedule: seq<Entry>, batch: Batch, build: Outcomes, ws: seq<Weather>): Progress
    decreases |schedule|
  {
    var t := TickOf(schedule, batch, build, FirstWeather(ws));
    if t.drained || t.failed then t
    else
      BusyTickTakesWork(schedule, batch, build, MAX_PASSES_PER_TICK, FirstWeather(ws).faults);
      Then(t, CatchUpOf(t.rest, batch, build, Later(ws)))
  }

  lemma {:induction false} DecodeLength(entries: seq<Entry>)
    ensures |Decode(entries)| <= |entries|
    ensures |Decode(entries)| == |entries| <==> forall e | e in entries :: e.Due?
  {
    if entries != [] {
      DecodeLength(entries[..|entries| - 1]);
      assert entries == entries[..|entries| - 1] + [entries[|entries| - 1]];
    }
  }

  lemma {:induction false} DecodeConcat(a: seq<Entry>, b: seq<Entry>)
    ensures Decode(a + b) == Decode(a) + Decode(b)
  {
    if b == [] {
      assert a + b == a;
    } else {
      DecodeConcat(a, b[..|b| - 1]);
      assert (a + b)[..|a + b| - 1] == a + b[..|b| - 1];
    }
  }

  lemma DecodeSplit(schedule: seq<Entry>, n: nat)
    requires n <= |schedule|
    ensures Decode(schedule) == Decode(schedule[..n]) + Decode(schedule[n..])
  {
    assert schedule == schedule[..n] + schedule[n..];
    DecodeConcat(schedule[..n], schedule[n..]);
  }

  // What decodes is claimed, in order; the rest is not.
  lemma EntryClaimed(a: seq<Entry>, e: Entry, b: seq<Entry>)
    ensures Decode([]) == []
    ensures Decode(a + [e] + b) == Decode(a) + (if e.Due? then [e.window] else []) + Decode(b)
  {
    DecodeConcat(a + [e], b);
    DecodeConcat(a, [e]);
    assert [e][..0] == [];
  }

  // One pass, whatever fails: a claim that fails takes nothing; a claim takes a batch, or what there
  // is; a read that fails builds nothing of what was claimed.
  lemma PassSays(schedule: seq<Entry>, batch: Batch, build: Outcomes, fault: PassFault)
    ensures var p, n := PassOf(schedule, batch, build, fault), if |schedule| < batch then |schedule| else batch;
      && (fault.ClaimFails? ==> p.rest == schedule && p.claimed == p.built == [] && p.drained && p.failed)
      && (!fault.ClaimFails? ==> p.rest == schedule[n..] && p.claimed == Decode(schedule[..n]))
      && (fault.ReadFails? && p.claimed != [] ==> p.built == [] && p.drained && p.failed)
      && (fault.Works? || (fault.ReadFails? && p.claimed == []) ==>
            && p.built == p.claimed && (p.drained <==> |p.claimed| < batch)
            && (p.failed <==> exists w | w in p.claimed :: w in build && build[w].Failed?))
  {
    hide Decode;
  }

  // A tick counts for each tenant what its windows came to, and then its one insert: all the records
  // of a tenant are emitted, or one more failure is counted.
  lemma TickCounts(start: Tallies, built: seq<Scheduled>, build: Outcomes, tenant: string, down: set<string>)
    ensures var before := TallyOf(start, tenant);
      var after := Inserted(TallyOf(Tallied(start, built, build), tenant), tenant, Gathered(built, build, tenant), down);
      var refused := tenant in down && Gathered(built, build, tenant) > 0;
      && after.closed == before.closed + |Those(built, build, tenant, Closing)|
      && after.dropped == before.dropped + |Those(built, build, tenant, Expired)|
      && after.failures == before.failures + |Those(built, build, tenant, Failing)| + (if refused then 1 else 0)
      && after.emitted == before.emitted + (if refused then 0 else Gathered(built, build, tenant))
      && (tenant !in start ==> before == Tally(0, 0, 0, 0)) && (tenant in start ==> before == start[tenant])
  {
    assert TallyOf(start, tenant) == if tenant in start then start[tenant] else Tally(0, 0, 0, 0);
    hide Tallied, TallyOf, Gathered, Those;
    CountersTell(start, built, build, tenant);
  }

  // A tick fails exactly when one of its passes does or a tenant's insert does, and a tick that fails
  // or reports the schedule drained is the loop's last.
  lemma FailedTickIsTheLast(schedule: seq<Entry>, batch: Batch, build: Outcomes, ws: seq<Weather>)
    requires ws != []
    ensures var p, t := PassesOf(schedule, batch, build, 32, ws[0].faults), TickOf(schedule, batch, build, ws[0]);
      && t.rest == p.rest && t.claimed == p.claimed && t.built == p.built && t.drained == p.drained
      && (t.failed <==> p.failed || exists tenant | tenant in ws[0].down :: Gathered(p.built, build, tenant) > 0)
      && (t.drained || t.failed ==> CatchUpOf(schedule, batch, build, ws) == t)
      && (!t.drained && !t.failed ==> var q := CatchUpOf(t.rest, batch, build, ws[1..]);
            && CatchUpOf(schedule, batch, build, ws).rest == q.rest
            && CatchUpOf(schedule, batch, build, ws).claimed == t.claimed + q.claimed)
  {
    hide PassesOf, Gathered;
  }

  // Of a tick's passes the first that reports the schedule drained is the last, and the tick reports
  // what its first pass did.
  lemma PassesStop(schedule: seq<Entry>, batch: Batch, build: Outcomes, passes: nat, faults: seq<PassFault>)
    requires passes > 0
    ensures var p, t := PassOf(schedule, batch, build, if faults == [] then Works else faults[0]),
                        PassesOf(schedule, batch, build, passes, faults);
      && t.drained == p.drained
      && (p.drained || passes == 1 ==> t == p)
      && (!p.drained && passes > 1 ==>
            var q := PassesOf(p.rest, batch, build, passes - 1, if faults == [] then [] else faults[1..]);
            && t.rest == q.rest && t.claimed == p.claimed + q.claimed && t.built == p.built + q.built
            && (t.failed <==> p.failed || q.failed))
  {
    hide PassOf;
  }

  // A store that fails stops the loop at once: nothing more is claimed than the batch whose members
  // could not be read.
  lemma FaultStopsTheCatchUp(schedule: seq<Entry>, batch: Batch, build: Outcomes, ws: seq<Weather>)
    requires ws != [] && ws[0].faults != []
    ensures ws[0].faults[0].ClaimFails? ==>
      CatchUpOf(schedule, batch, build, ws).rest == schedule && CatchUpOf(schedule, batch, build, ws).claimed == []
    ensures ws[0].faults[0].ReadFails? ==>
      var n := if |schedule| < batch then |schedule| else batch;
      && CatchUpOf(schedule, batch, build, ws).rest == schedule[n..]
      && CatchUpOf(schedule, batch, build, ws).claimed == Decode(schedule[..n])
  {
    hide *;
    FailedTickIsTheLast(schedule, batch, build, ws);
    PassesStop(schedule, batch, build, 32, ws[0].faults);
    PassSays(schedule, batch, build, ws[0].faults[0]);
  }

  // Working stores: drained is reported exactly when less than a batch was due or the batch held an
  // entry that does not decode; only in the first case is nothing left.
  lemma DrainedReport(schedule: seq<Entry>, batch: Batch, build: Outcomes)
    ensures PassOf(schedule, batch, build, Works).drained <==>
      |schedule| < batch || exists e | e in schedule[..Popped(schedule, batch)] :: e.Malformed?
  {
    DecodeLength(schedule[..Popped(schedule, batch)]);
  }

  // A pass that does not report the schedule drained took a batch.
  lemma BusyPassTakesWork(schedule: seq<Entry>, batch: Batch, build: Outcomes, fault: PassFault)
    ensures var p := PassOf(schedule, batch, build, fault);
      |p.rest| <= |schedule| && (!p.drained ==> |p.rest| == |schedule| - batch)
  {
    DecodeLength(schedule[..Popped(schedule, batch)]);
  }

  lemma {:induction false} BusyTickTakesWork(schedule: seq<Entry>, batch: Batch, build: Outcomes, passes: nat,
                                             faults: seq<PassFault>)
    requires passes > 0
    ensures var p := PassesOf(schedule, batch, build, passes, faults);
      |p.rest| <= |schedule| && (!p.drained ==> |p.rest| <= |schedule| - batch)
    decreases passes
  {
    hide PassOf;
    var p := PassOf(schedule, batch, build, FirstFault(faults));
    BusyPassTakesWork(schedule, batch, build, FirstFault(faults));
    if !p.drained && passes > 1 {
      BusyTickTakesWork(p.rest, batch, build, passes - 1, Later(faults));
    }
  }

  // ---------------------------------------------------------------- where the loop stops

  // The schedule from its k-th batch-sized block on.
  function From(schedule: seq<Entry>, batch: Batch, k: nat): seq<Entry> {
    schedule[Min(k * batch, |schedule|)..]
  }

  function Block(schedule: seq<Entry>, batch: Batch, k: nat): seq<Entry> {
    var from := From(schedule, batch, k);
    from[..Popped(from, batch)]
  }

  // A full block of entries that all decode.
  predicate Clean(schedule: seq<Entry>, batch: Batch, k: nat) {
    |Decode(Block(schedule, batch, k))| == batch
  }

  predicate HasFailed(schedule: seq<Entry>, batch: Batch, build: Outcomes, k: nat) {
    AnyFailed(Decode(Block(schedule, batch, k)), build)
  }

  // The block whose pass opened the tick that block k falls into: block 0, a block after one that
  // closed its tick, or otherwise the one before's.
  function Opener(schedule: seq<Entry>, batch: Batch, k: nat): (o: nat)
    ensures o <= k
    decreases k, 0
  {
    if k == 0 then 0
    else if Closes(schedule, batch, k - 1) then k
    else Opener(schedule, batch, k - 1)
  }

  // A block closes its tick when it is not clean or is the tick's thirty-second.
  predicate Closes(schedule: seq<Entry>, batch: Batch, k: nat)
    decreases k, 1
  {
    !Clean(schedule, batch, k) || k + 1 - Opener(schedule, batch, k) == MAX_PASSES_PER_TICK
  }

  predicate FailedSince(schedule: seq<Entry>, batch: Batch, build: Outcomes, o: nat, k: nat) {
    exists j | o <= j < k :: HasFailed(schedule, batch, build, j)
  }

  // The loop stops after a tick whose opening block is not clean, or one in which a window failed.
  predicate Stops(schedule: seq<Entry>, batch: Batch, build: Outcomes, k: nat) {
    && Closes(schedule, batch, k)
    && ((Opener(schedule, batch, k) == k && !Clean(schedule, batch, k))
        || FailedSince(schedule, batch, build, Opener(schedule, batch, k), k + 1))
  }

  lemma NextBlock(schedule: seq<Entry>, batch: Batch, k: nat)
    ensures var from := From(schedule, batch, k); from[Popped(from, batch)..] == From(schedule, batch, k + 1)
    ensures From(schedule, batch, 0) == schedule
    ensures From(schedule, batch, k + 1) != [] <==> (k + 1) * batch < |schedule|
  {
    assert (k + 1) * batch == k * batch + batch;
  }

  // One pass with working stores, block by block.
  lemma PassTakesABlock(schedule: seq<Entry>, batch: Batch, build: Outcomes, k: nat)
    ensures var p := PassOf(From(schedule, batch, k), batch, build, Works);
      && p.rest == From(schedule, batch, k + 1)
      && (p.drained <==> !Clean(schedule, batch, k))
      && (p.failed <==> HasFailed(schedule, batch, build, k))
  {
    hide From, Decode, AnyFailed;
    NextBlock(schedule, batch, k);
    DecodeLength(Block(schedule, batch, k));
  }

  lemma {:induction false} OpenerIsNear(schedule: seq<Entry>, batch: Batch, k: nat)
    ensures k - Opener(schedule, batch, k) < MAX_PASSES_PER_TICK
    ensures Opener(schedule, batch, Opener(schedule, batch, k)) == Opener(schedule, batch, k)
    ensures Opener(schedule, batch, k) < k ==> Clean(schedule, batch, Opener(schedule, batch, k))
  {
    hide Clean;
    if k > 0 && !Closes(schedule, batch, k - 1) {
      OpenerIsNear(schedule, batch, k - 1);
    }
  }

  // What the loop leaves, told from block k: the passes left to the tick k falls into, and then the
  // rest of the loop unless that tick failed.
  ghost function LeftFrom(schedule: seq<Entry>, batch: Batch, build: Outcomes, k: nat): seq<Entry> {
    OpenerIsNear(schedule, batch, k);
    var o := Opener(schedule, batch, k);
    if o == k then CatchUpOf(From(schedule, batch, k), batch, build, []).rest
    else
      var q := PassesOf(From(schedule, batch, k), batch, build, MAX_PASSES_PER_TICK - (k - o), []);
      LoopsOn(q, FailedSince(schedule, batch, build, o, k), batch, build)
  }

  // After the last pass of a tick that is not drained.
  ghost function LoopsOn(q: Progress, failed: bool, batch: Batch, build: Outcomes): seq<Entry> {
    if q.failed || failed then q.rest else CatchUpOf(q.rest, batch, build, []).rest
  }

  lemma CalmTick(schedule: seq<Entry>, batch: Batch, build: Outcomes)
    ensures TickOf(schedule, batch, build, CALM) == PassesOf(schedule, batch, build, MAX_PASSES_PER_TICK, [])
    ensures CatchUpOf(schedule, batch, build, []).rest
         == var t := PassesOf(schedule, batch, build, MAX_PASSES_PER_TICK, []);
            if t.drained then t.rest else LoopsOn(t, false, batch, build)
  {
    hide PassesOf;
  }

  lemma PassesStep(schedule: seq<Entry>, batch: Batch, build: Outcomes, passes: nat)
    requires passes > 0
    ensures PassesOf(schedule, batch, build, passes, [])
         == var p := PassOf(schedule, batch, build, Works);
            if p.drained || passes == 1 then p else Then(p, PassesOf(p.rest, batch, build, passes - 1, []))
  {
    hide PassOf;
  }

  lemma FailedSinceMore(schedule: seq<Entry>, batch: Batch, build: Outcomes, o: nat, k: nat)
    requires o <= k
    ensures FailedSince(schedule, batch, build, o, k + 1)
       <==> FailedSince(schedule, batch, build, o, k) || HasFailed(schedule, batch, build, k)
    ensures !FailedSince(schedule, batch, build, k, k)
  {
    hide HasFailed;
  }

  // A block either ends the loop, leaving what is behind it, or hands on to the next.
  lemma BlockDecides(schedule: seq<Entry>, batch: Batch, build: Outcomes, k: nat)
    ensures LeftFrom(schedule, batch, build, k)
         == if Stops(schedule, batch, build, k) then From(schedule, batch, k + 1) else LeftFrom(schedule, batch, build, k + 1)
  {
    hide *;
    AtBlock(schedule, batch, build, k);
    AtBlock(schedule, batch, build, k + 1);
    var from, o := From(schedule, batch, k), Opener(schedule, batch, k);
    var left := MAX_PASSES_PER_TICK - (k - o);
    PassTakesABlock(schedule, batch, build, k);
    CalmTick(from, batch, build);
    PassesStep(from, batch, build, left);
    FailedSinceMore(schedule, batch, build, o, k);
    var p := PassOf(from, batch, build, Works);
    if p.drained || left == 1 {
      LoopsOnIs(p, FailedSince(schedule, batch, build, o, k), batch, build);
    } else {
      var q := PassesOf(p.rest, batch, build, left - 1, []);
      ThenIs(p, q, FailedSince(schedule, batch, build, o, k), batch, build);
    }
  }

  // The definitions at one block.
  lemma AtBlock(schedule: seq<Entry>, batch: Batch, build: Outcomes, k: nat)
    ensures var o := Opener(schedule, batch, k);
      && MAX_PASSES_PER_TICK == 32 && o <= k && k - o < MAX_PASSES_PER_TICK
      && (k > 0 ==> o == if Closes(schedule, batch, k - 1) then k else Opener(schedule, batch, k - 1))
      && (Closes(schedule, batch, k) <==> !Clean(schedule, batch, k) || k + 1 - o == MAX_PASSES_PER_TICK)
      && (Stops(schedule, batch, build, k) <==>
            Closes(schedule, batch, k)
            && ((o == k && !Clean(schedule, batch, k)) || FailedSince(schedule, batch, build, o, k + 1)))
      && LeftFrom(schedule, batch, build, k)
           == if o == k then CatchUpOf(From(schedule, batch, k), batch, build, []).rest
              else LoopsOn(PassesOf(From(schedule, batch, k), batch, build, MAX_PASSES_PER_TICK - (k - o), []),
                           FailedSince(schedule, batch, build, o, k), batch, build)
  {
    OpenerIsNear(schedule, batch, k);
    hide Clean, FailedSince, CatchUpOf, LoopsOn, PassesOf;
  }

  lemma LoopsOnIs(p: Progress, failed: bool, batch: Batch, build: Outcomes)
    ensures LoopsOn(p, failed, batch, build)
         == if p.failed || failed then p.rest else CatchUpOf(p.rest, batch, build, []).rest
  {
  }

  lemma ThenIs(p: Progress, q: Progress, failed: bool, batch: Batch, build: Outcomes)
    ensures Then(p, q).drained == p.drained
    ensures LoopsOn(Then(p, q), failed, batch, build) == LoopsOn(q, failed || p.failed, batch, build)
  {
    hide CatchUpOf;
  }

  // The loop stops at the first block that stops it, and leaves exactly what is behind that block.
  lemma {:induction false} FirstStop(schedule: seq<Entry>, batch: Batch, build: Outcomes, k: nat) returns (s: nat)
    requires forall j | 0 <= j < k :: !Stops(schedule, batch, build, j)
    ensures s >= k && Stops(schedule, batch, build, s) && forall j | 0 <= j < s :: !Stops(schedule, batch, build, j)
    ensures LeftFrom(schedule, batch, build, k) == From(schedule, batch, s + 1)
    decreases |schedule| + 2 - k
  {
    hide Stops, LeftFrom, From, Opener, Closes, Clean;
    BlockDecides(schedule, batch, build, k);
    if Stops(schedule, batch, build, k) {
      return k;
    }
    if k > |schedule| {
      PastTheEnd(schedule, batch, build, k - 1);
      PastTheEnd(schedule, batch, build, k);
    }
    s := FirstStop(schedule, batch, build, k + 1);
  }

  // Blocks past the end are empty: each closes its tick, and one that opens a tick stops the loop.
  lemma PastTheEnd(schedule: seq<Entry>, batch: Batch, build: Outcomes, k: nat)
    requires k >= |schedule|
    ensures Closes(schedule, batch, k) && Opener(schedule, batch, k + 1) == k + 1
    ensures Opener(schedule, batch, k) == k ==> Stops(schedule, batch, build, k)
  {
    assert k * batch >= k;
    assert Block(schedule, batch, k) == [];
  }

  // With working stores, what a catch-up leaves behind.
  lemma CatchUpStopsAtItsFirstStop(schedule: seq<Entry>, batch: Batch, build: Outcomes) returns (s: nat)
    ensures Stops(schedule, batch, build, s) && forall j | 0 <= j < s :: !Stops(schedule, batch, build, j)
    ensures CatchUpOf(schedule, batch, build, []).rest == From(schedule, batch, s + 1)
  {
    hide *;
    s := FirstStop(schedule, batch, build, 0);
    AtBlock(schedule, batch, build, 0);
    NextBlock(schedule, batch, 0);
  }

  // With working stores, a catch-up leaves work behind exactly when some block with work behind it
  // stops it: one that is not clean and opens a tick, or the last of a tick in which a window failed.
  lemma CatchUpLeavesWorkExactlyWhen(schedule: seq<Entry>, batch: Batch, build: Outcomes)
    ensures CatchUpOf(schedule, batch, build, []).rest != []
       <==> exists k: nat :: Stops(schedule, batch, build, k) && (k + 1) * batch < |schedule|
  {
    hide Stops, CatchUpOf, From;
    var s := CatchUpStopsAtItsFirstStop(schedule, batch, build);
    NextBlock(schedule, batch, s);
    if k: nat :| Stops(schedule, batch, build, k) && (k + 1) * batch < |schedule| {
      assert s <= k;
      assert (s + 1) * batch <= (k + 1) * batch;
    }
  }

  // When no window fails to build, a block with work behind it stops the catch-up exactly when it
  // holds an entry that does not decode and opens a tick.
  lemma MalformedBlockStopsWhenItOpensATick(schedule: seq<Entry>, batch: Batch, build: Outcomes, k: nat)
    requires (k + 1) * batch < |schedule| && !AnyFailed(Decode(schedule), build)
    ensures Stops(schedule, batch, build, k)
       <==> Opener(schedule, batch, k) == k && exists e | e in Block(schedule, batch, k) :: e.Malformed?
  {
    FullBlock(schedule, batch, k);
    hide Clean;
    forall j ensures !HasFailed(schedule, batch, build, j) {
      BlockBuilds(schedule, batch, build, j);
    }
  }

  lemma FullBlock(schedule: seq<Entry>, batch: Batch, k: nat)
    requires (k + 1) * batch < |schedule|
    ensures Clean(schedule, batch, k) <==> forall e | e in Block(schedule, batch, k) :: e.Due?
  {
    assert (k + 1) * batch == k * batch + batch;
    DecodeLength(Block(schedule, batch, k));
  }

  lemma BlockBuilds(schedule: seq<Entry>, batch: Batch, build: Outcomes, k: nat)
    requires !AnyFailed(Decode(schedule), build)
    ensures !HasFailed(schedule, batch, build, k)
  {
    var i := Min(k * batch, |schedule|);
    var from := From(schedule, batch, k);
    DecodeSplit(schedule, i);
    DecodeSplit(from, Popped(from, batch));
  }

  // With every entry decodable and every window building, catching up leaves nothing due.
  lemma CatchUpDrains(schedule: seq<Entry>, batch: Batch, build: Outcomes)
    requires (forall e | e in schedule :: e.Due?) && !AnyFailed(Decode(schedule), build)
    ensures CatchUpOf(schedule, batch, build, []).rest == []
  {
    CatchUpLeavesWorkExactlyWhen(schedule, batch, build);
    hide CatchUpOf, Stops, Opener, AnyFailed;
    forall k: nat | (k + 1) * batch < |schedule| ensures !Stops(schedule, batch, build, k) {
      MalformedBlockStopsWhenItOpensATick(schedule, batch, build, k);
      BlockIsPart(schedule, batch, k);
    }
  }

  lemma BlockIsPart(schedule: seq<Entry>, batch: Batch, k: nat)
    ensures forall e | e in Block(schedule, batch, k) :: e in schedule
  {
  }

  // An undecodable entry behind a clean block costs nothing: the tick it closes was not drained.
  lemma SecondBlockMalformed(w: Scheduled)
    ensures CatchUpOf([Due(w), Malformed, Due(w)], 1, map[], []).rest == []
  {
    hide *;
    var schedule, build: Outcomes := [Due(w), Malformed, Due(w)], map[];
    NothingFails(schedule);
    var s := CatchUpStopsAtItsFirstStop(schedule, 1, build);
    NextBlock(schedule, 1, s);
    if s < 2 {
      MalformedBlockStopsWhenItOpensATick(schedule, 1, build, s);
      FirstBlockIsClean(w);
    }
  }

  lemma NothingFails(schedule: seq<Entry>)
    ensures !AnyFailed(Decode(schedule), map[])
  {
  }

  lemma FirstBlockIsClean(w: Scheduled)
    ensures var schedule := [Due(w), Malformed, Due(w)];
      && (forall e | e in Block(schedule, 1, 0) :: e.Due?) && Opener(schedule, 1, 1) == 0
  {
    var schedule := [Due(w), Malformed, Due(w)];
    FullBlock(schedule, 1, 0);
    assert Block(schedule, 1, 0) == [Due(w)];
  }

  lemma {:induction false} OpenerOfAFullTick(schedule: seq<Entry>, batch: Batch, k: nat)
    requires k <= MAX_PASSES_PER_TICK && forall j | 0 <= j < k :: Clean(schedule, batch, j)
    ensures Opener(schedule, batch, k) == if k == MAX_PASSES_PER_TICK then k else 0
  {
    hide Clean;
    if k > 0 {
      OpenerOfAFullTick(schedule, batch, k - 1);
    }
  }

  // One behind a full tick of thirty-two clean batches stops the catch-up with work left.
  lemma MalformedAfterAFullTick(schedule: seq<Entry>, batch: Batch, build: Outcomes)
    requires (MAX_PASSES_PER_TICK + 1) * batch < |schedule| && !AnyFailed(Decode(schedule), build)
    requires forall e | e in schedule[..MAX_PASSES_PER_TICK * batch] :: e.Due?
    requires exists e | e in Block(schedule, batch, MAX_PASSES_PER_TICK) :: e.Malformed?
    ensures CatchUpOf(schedule, batch, build, []).rest == From(schedule, batch, MAX_PASSES_PER_TICK + 1) != []
  {
    hide *;
    MaxIs32();
    var s := CatchUpStopsAtItsFirstStop(schedule, batch, build);
    StopsAfterAFullTick(schedule, batch, build, 32);
    if s < 32 {
      StopsAfterAFullTick(schedule, batch, build, s);
    }
    assert Stops(schedule, batch, build, 32);
    NextBlock(schedule, batch, 32);
  }

  lemma MaxIs32()
    ensures MAX_PASSES_PER_TICK == 32
  {
  }

  lemma StopsAfterAFullTick(schedule: seq<Entry>, batch: Batch, build: Outcomes, k: nat)
    requires k <= 32 && 33 * batch < |schedule| && !AnyFailed(Decode(schedule), build)
    requires forall e | e in schedule[..32 * batch] :: e.Due?
    requires exists e | e in Block(schedule, batch, 32) :: e.Malformed?
    ensures Stops(schedule, batch, build, k) <==> k == 32
  {
    hide *;
    MaxIs32();
    EarlyBlocksAreClean(schedule, batch);
    OpenerOfAFullTick(schedule, batch, k);
    Times(k + 1, 33, batch);
    MalformedBlockStopsWhenItOpensATick(schedule, batch, build, k);
    if k < 32 {
      FullBlock(schedule, batch, k);
    }
  }

  lemma Times(k: nat, n: nat, batch: nat)
    requires k <= n
    ensures k * batch <= n * batch
  {
  }

  lemma EarlyBlocksAreClean(schedule: seq<Entry>, batch: Batch)
    requires 33 * batch < |schedule| && forall e | e in schedule[..32 * batch] :: e.Due?
    ensures forall j: nat | j < 32 :: Clean(schedule, batch, j)
  {
    hide *;
    forall j: nat | j < 32 ensures Clean(schedule, batch, j) {
      EarlyBlockIsClean(schedule, batch, j);
    }
  }

  lemma EarlyBlockIsClean(schedule: seq<Entry>, batch: Batch, k: nat)
    requires k < 32 && 33 * batch < |schedule|
    requires forall e | e in schedule[..32 * batch] :: e.Due?
    ensures Clean(schedule, batch, k)
  {
    hide Decode;
    assert (k + 1) * batch == k * batch + batch;
    Times(k + 1, 32, batch);
    FullBlock(schedule, batch, k);
    forall e | e in Block(schedule, batch, k) ensures e.Due? {
      var i :| 0 <= i < batch && Block(schedule, batch, k)[i] == e;
      assert e == schedule[..32 * batch][k * batch + i];
    }
  }

  // ---------------------------------------------------------------- the closer

  function CountIn(gathered: map<string, nat>, tenant: string): nat {
    if tenant in gathered then gathered[tenant] else 0
  }

  // What waits for the tick's insert is what its passes' windows were built into.
  ghost predicate Waiting(gathered: map<string, nat>, built: seq<Scheduled>, build: Outcomes) {
    forall t :: CountIn(gathered, t) == Gathered(built, build, t)
  }

  function Added(gathered: map<string, nat>, tenant: string, built: Built): map<string, nat> {
    if built.Records? then gathered[tenant := CountIn(gathered, tenant) + built.count] else gathered
  }

  lemma WaitingSnoc(gathered: map<string, nat>, before: seq<Scheduled>, ws: seq<Scheduled>, i: nat, build: Outcomes)
    requires i < |ws| && Waiting(gathered, before + ws[..i], build)
    ensures Waiting(Added(gathered, ws[i].tenant, BuiltOf(build, ws[i])), before + ws[..i + 1], build)
  {
    hide Gathered, BuiltOf;
    forall t
      ensures CountIn(Added(gathered, ws[i].tenant, BuiltOf(build, ws[i])), t) == Gathered(before + ws[..i + 1], build, t)
    {
      GatheredConcat(before, ws[..i], build, t);
      GatheredConcat(before, ws[..i + 1], build, t);
      GatheredSnoc(ws, i, build, t);
    }
  }

  lemma WaitingNil(build: Outcomes)
    ensures Waiting(map[], [], build)
  {
  }

  lemma AnyFailedSnoc(ws: seq<Scheduled>, i: nat, build: Outcomes)
    requires i < |ws|
    ensures AnyFailed(ws[..i + 1], build) <==> AnyFailed(ws[..i], build) || BuiltOf(build, ws[i]).Failed?
    ensures !AnyFailed(ws[..0], build)
  {
    hide BuiltOf;
    assert ws[..i + 1] == ws[..i] + [ws[i]];
  }

  // Nothing done yet: a tick counts as drained until a pass finds otherwise.
  function Nothing(schedule: seq<Entry>): Progress {
    Progress(schedule, [], [], true, false)
  }

  ghost function Onward(p: Progress, begun: bool, q: Progress): Progress {
    if begun then Then(p, q) else q
  }

  // A tick that has come as far as p with the given number of passes left.
  ghost function PassesFrom(p: Progress, begun: bool, done: bool, batch: Batch, build: Outcomes, left: nat,
                            faults: seq<PassFault>): Progress {
    if done || left == 0 then p else Onward(p, begun, PassesOf(p.rest, batch, build, left, faults))
  }

  lemma TickBegins(schedule: seq<Entry>, base: seq<Scheduled>, batch: Batch, build: Outcomes, left: nat,
                   faults: seq<PassFault>)
    requires left > 0
    ensures var p := Nothing(schedule);
      && p.rest == schedule && p.built == [] && p.drained && !p.failed && base + p.claimed == base
      && PassesFrom(p, false, false, batch, build, left, faults) == PassesOf(schedule, batch, build, left, faults)
  {
    hide PassesOf;
  }

  lemma PassesFromStep(p: Progress, begun: bool, batch: Batch, build: Outcomes, left: nat, faults: seq<PassFault>)
    requires left > 0
    ensures var q := PassOf(p.rest, batch, build, FirstFault(faults));
      PassesFrom(p, begun, false, batch, build, left, faults)
      == PassesFrom(Onward(p, begun, q), true, q.drained, batch, build, left - 1, Later(faults))
  {
    hide PassOf, Then, PassesOf;
    var q := PassOf(p.rest, batch, build, FirstFault(faults));
    PassesUnfold(p.rest, batch, build, left, faults);
    if !q.drained && left > 1 {
      var r := PassesOf(q.rest, batch, build, left - 1, Later(faults));
      ThenAssociates(p, q, r);
      ThenFields(p, q);
    }
  }

  lemma PassesFromEnd(p: Progress, begun: bool, done: bool, batch: Batch, build: Outcomes, left: nat,
                      faults: seq<PassFault>)
    requires done || left == 0
    ensures PassesFrom(p, begun, done, batch, build, left, faults) == p
  {
  }

  lemma OnePassMore(p: Progress, begun: bool, q: Progress)
    requires !begun ==> p == Nothing(p.rest)
    ensures var r := Onward(p, begun, q);
      && r.rest == q.rest && r.claimed == p.claimed + q.claimed && r.built == p.built + q.built
      && r.failed == (p.failed || q.failed) && r.drained == if begun then p.drained else q.drained
  {
  }

  // The loop that has come as far as p.
  ghost function LoopFrom(p: Progress, over: bool, batch: Batch, build: Outcomes, ws: seq<Weather>): Progress {
    if over then p else Then(p, CatchUpOf(p.rest, batch, build, ws))
  }

  lemma LoopFromStep(p: Progress, batch: Batch, build: Outcomes, ws: seq<Weather>)
    ensures var t := TickOf(p.rest, batch, build, FirstWeather(ws));
      && LoopFrom(p, false, batch, build, ws) == LoopFrom(Then(p, t), t.drained || t.failed, batch, build, Later(ws))
      && (!t.drained ==> |t.rest| < |p.rest|)
  {
    hide TickOf, Then, CatchUpOf;
    var t := TickOf(p.rest, batch, build, FirstWeather(ws));
    CatchUpUnfold(p.rest, batch, build, ws);
    if !t.drained && !t.failed {
      ThenAssociates(p, t, CatchUpOf(t.rest, batch, build, Later(ws)));
      ThenFields(p, t);
    }
  }

  lemma LoopFromEnds(p: Progress, batch: Batch, build: Outcomes, ws: seq<Weather>, schedule: seq<Entry>,
                     base: seq<Scheduled>)
    ensures LoopFrom(p, true, batch, build, ws) == p
    ensures var start := Nothing(schedule);
      && start.rest == schedule && base + start.claimed == base
      && LoopFrom(start, false, batch, build, ws).rest == CatchUpOf(schedule, batch, build, ws).rest
      && LoopFrom(start, false, batch, build, ws).claimed == CatchUpOf(schedule, batch, build, ws).claimed
  {
    hide CatchUpOf;
  }

  class Closer {
    const batch: Batch
    var schedule: seq<Entry>
    var tallies: Tallies
    ghost var claimed: seq<Scheduled>

    constructor (batch: Batch, schedule: seq<Entry>)
      ensures this.batch == batch && this.schedule == schedule && tallies == map[] && claimed == []
    {
      this.batch, this.schedule, tallies, claimed := batch, schedule, map[], [];
    }

    // Everything claimed so far and everything still to be claimed, in order.
    ghost function Work(): seq<Scheduled>
      reads this
    {
      claimed + Decode(schedule)
    }

    // Due pops up to a batch of entries; what decodes is claimed by this closer alone.
    method Claim() returns (due: seq<Scheduled>)
      modifies this`schedule, this`claimed
      ensures due == Decode(old(schedule)[..Popped(old(schedule), batch)])
      ensures schedule == old(schedule)[Popped(old(schedule), batch)..]
      ensures claimed == old(claimed) + due && Work() == old(Work())
    {
      var n := Popped(schedule, batch);
      DecodeSplit(schedule, n);
      due := Decode(schedule[..n]);
      schedule := schedule[n..];
      claimed := claimed + due;
    }

    // Builds one claimed window and counts what came of it.
    method BuildOne(w: Scheduled, built: Built, gathered: map<string, nat>)
      returns (ok: bool, gathered': map<string, nat>)
      modifies this`tallies
      ensures tallies == old(tallies)[w.tenant := Counted(TallyOf(old(tallies), w.tenant), built)]
      ensures ok == !built.Failed? && gathered' == Added(gathered, w.tenant, built)
    {
      tallies := tallies[w.tenant := Counted(TallyOf(tallies, w.tenant), built)];
      ok, gathered' := !built.Failed?, gathered;
      if built.Records? {
        gathered' := gathered[w.tenant := CountIn(gathered, w.tenant) + built.count];
      }
    }

    // Builds every claimed window; one that fails does not abandon the rest. Gathered already holds
    // the records of the windows before them.
    method BuildAll(ws: seq<Scheduled>, build: Outcomes, gathered: map<string, nat>, ghost before: seq<Scheduled>)
      returns (failed: bool, gathered': map<string, nat>)
      requires Waiting(gathered, before, build)
      modifies this`tallies
      ensures tallies == Tallied(old(tallies), ws, build)
      ensures failed <==> AnyFailed(ws, build)
      ensures Waiting(gathered', before + ws, build)
    {
      failed, gathered' := false, gathered;
      ghost var start := tallies;
      assert ws[..0] == [] && ws[..|ws|] == ws && before + ws[..0] == before;
      assert !AnyFailed([], build);
      hide *;
      TalliedNil(start, build);
      for i := 0 to |ws|
        invariant tallies == Tallied(start, ws[..i], build)
        invariant failed <==> AnyFailed(ws[..i], build)
        invariant Waiting(gathered', before + ws[..i], build)
      {
        TalliedSnoc(start, ws, i, build);
        AnyFailedSnoc(ws, i, build);
        WaitingSnoc(gathered', before, ws, i, build);
        var ok;
        ok, gathered' := BuildOne(ws[i], BuiltOf(build, ws[i]), gathered');
        failed := failed || !ok;
      }
    }

    // One pass. A read that fails loses the count of what was claimed.
    method Pass(build: Outcomes, fault: PassFault, gathered: map<string, nat>, ghost before: seq<Scheduled>)
      returns (drained: bool, failed: bool, gathered': map<string, nat>)
      requires Waiting(gathered, before, build)
      modifies this
      ensures var p := PassOf(old(schedule), batch, build, fault);
        && schedule == p.rest && claimed == old(claimed) + p.claimed
        && drained == p.drained && failed == p.failed
        && tallies == Tallied(old(tallies), p.built, build)
        && Waiting(gathered', before + p.built, build)
      ensures Work() == old(Work())
    {
      hide Tallied, Decode, AnyFailed, Waiting;
      TalliedNil(tallies, build);
      assert before + [] == before;
      assert claimed + [] == claimed;
      if fault.ClaimFails? {
        return true, true, gathered;
      }
      var due := Claim();
      if due == [] {
        NoneFailed(build);
        return true, false, gathered;
      }
      if fault.ReadFails? {
        return true, true, gathered;
      }
      failed, gathered' := BuildAll(due, build, gathered, before);
      drained := |due| < batch;
    }

    // One more pass of a tick that did p since it started from base and start.
    method PassOn(build: Outcomes, fault: PassFault, gathered: map<string, nat>,
                  ghost base: seq<Scheduled>, ghost start: Tallies, ghost p: Progress)
      returns (drained: bool, failed: bool, gathered': map<string, nat>)
      requires p.rest == schedule && claimed == base + p.claimed && tallies == Tallied(start, p.built, build)
      requires Waiting(gathered, p.built, build)
      modifies this
      ensures var q := PassOf(old(schedule), batch, build, fault);
        && schedule == q.rest && claimed == base + (p.claimed + q.claimed)
        && drained == q.drained && failed == q.failed
        && tallies == Tallied(start, p.built + q.built, build)
        && Waiting(gathered', p.built + q.built, build)
      ensures Work() == old(Work())
    {
      hide *;
      ghost var q := PassOf(schedule, batch, build, fault);
      TalliedConcat(start, p.built, q.built, build);
      drained, failed, gathered' := Pass(build, fault, gathered, p.built);
      assert base + p.claimed + q.claimed == base + (p.claimed + q.claimed);
    }

    // Up to 32 passes, stopping after the first that reports the schedule drained.
    method Passes(build: Outcomes, faults: seq<PassFault>)
      returns (drained: bool, failed: bool, gathered: map<string, nat>)
      modifies this
      ensures var p := PassesOf(old(schedule), batch, build, MAX_PASSES_PER_TICK, faults);
        && schedule == p.rest && claimed == old(claimed) + p.claimed
        && drained == p.drained && failed == p.failed
        && tallies == Tallied(old(tallies), p.built, build)
        && Waiting(gathered, p.built, build)
      ensures Work() == old(Work())
    {
      drained, failed, gathered := true, false, map[];
      var passes, done, later := 0, false, faults;
      ghost var whole := PassesOf(schedule, batch, build, MAX_PASSES_PER_TICK, faults);
      ghost var base, start := claimed, tallies;
      ghost var p := Nothing(schedule);
      assert MAX_PASSES_PER_TICK == 32;
      hide *;
      TalliedNil(start, build);
      WaitingNil(build);
      TickBegins(schedule, base, batch, build, MAX_PASSES_PER_TICK, faults);
      while passes < MAX_PASSES_PER_TICK && !done
        invariant 0 <= passes <= MAX_PASSES_PER_TICK
        invariant p.rest == schedule && claimed == base + p.claimed && p.failed == failed && p.drained == drained
        invariant passes == 0 ==> !done && p == Nothing(schedule)
        invariant passes > 0 && drained ==> done
        invariant tallies == Tallied(start, p.built, build) && Waiting(gathered, p.built, build)
        invariant whole == PassesFrom(p, passes > 0, done, batch, build, MAX_PASSES_PER_TICK - passes, later)
        invariant Work() == old(Work())
      {
        ghost var q := PassOf(schedule, batch, build, FirstFault(later));
        PassesFromStep(p, passes > 0, batch, build, MAX_PASSES_PER_TICK - passes, later);
        var now;
        done, now, gathered := PassOn(build, FirstFault(later), gathered, base, start, p);
        OnePassMore(p, passes > 0, q);
        p := Onward(p, passes > 0, q);
        if !done {
          drained := false;
        }
        failed := failed || now;
        passes, later := passes + 1, Later(later);
      }
      PassesFromEnd(p, passes > 0, done, batch, build, MAX_PASSES_PER_TICK - passes, later);
    }

    // The tick's one insert per tenant, tenants in any order; a failed one is counted and the rest
    // still written.
    method InsertAll(gathered: map<string, nat>, down: set<string>) returns (failed: bool)
      modifies this`tallies
      ensures failed <==> exists t | t in down :: CountIn(gathered, t) > 0
      ensures forall t :: TallyOf(tallies, t) == Inserted(TallyOf(old(tallies), t), t, CountIn(gathered, t), down)
    {
      failed := false;
      var left := gathered.Keys;
      while left != {}
        invariant left <= gathered.Keys
        invariant failed <==> exists t | t in down :: CountIn(gathered, t) > 0 && t !in left
        invariant forall t :: (TallyOf(tallies, t)
          == if t in left then TallyOf(old(tallies), t) else Inserted(TallyOf(old(tallies), t), t, CountIn(gathered, t), down))
      {
        var t :| t in left;
        left := left - {t};
        if gathered[t] > 0 {
          var tally := TallyOf(tallies, t);
          if t in down {
            failed := true;
            tallies := tallies[t := tally.(failures := tally.failures + 1)];
          } else {
            tallies := tallies[t := tally.(emitted := tally.emitted + gathered[t])];
          }
        }
      }
    }

    // Every window the tick built is counted once, and every tenant's records are inserted together.
    method Tick(build: Outcomes, w: Weather) returns (drained: bool, failed: bool)
      modifies this
      ensures var p := TickOf(old(schedule), batch, build, w);
        && schedule == p.rest && claimed == old(claimed) + p.claimed
        && drained == p.drained && failed == p.failed
        && forall t :: TallyOf(tallies, t)
             == Inserted(TallyOf(Tallied(old(tallies), p.built, build), t), t, Gathered(p.built, build, t), w.down)
      ensures Work() == old(Work())
    {
      var gathered;
      ghost var was := schedule;
      drained, failed, gathered := Passes(build, w.faults);
      hide PassesOf, Tallied, TallyOf, Inserted, Decode, Gathered;
      var refused := InsertAll(gathered, w.down);
      failed := failed || refused;
    }

    // The inner loop of Run: tick again until a tick reports the schedule drained or fails.
    method Run(build: Outcomes, weathers: seq<Weather>)
      modifies this
      ensures var p := CatchUpOf(old(schedule), batch, build, weathers);
        schedule == p.rest && claimed == old(claimed) + p.claimed
      ensures Work() == old(Work())
    {
      var drained, failed, later := false, false, weathers;
      ghost var base, p := claimed, Nothing(schedule);
      ghost var whole := LoopFrom(p, false, batch, build, weathers);
      ghost var was := schedule;
      hide *;
      LoopFromEnds(p, batch, build, weathers, was, base);
      while !drained && !failed
        invariant p.rest == schedule && claimed == base + p.claimed
        invariant whole == LoopFrom(p, drained || failed, batch, build, later)
        invariant Work() == old(Work())
        decreases !drained, !failed, |schedule|
      {
        ghost var t := TickOf(schedule, batch, build, FirstWeather(later));
        LoopFromStep(p, batch, build, later);
        ThenFields(p, t);
        assert base + p.claimed + t.claimed == base + (p.claimed + t.claimed);
        drained, failed := Tick(build, FirstWeather(later));
        p, later := Then(p, t), Later(later);
      }
      LoopFromEnds(p, batch, build, later, was, base);
    }
  }

  lemma NoneFailed(build: Outcomes)
    ensures !AnyFailed([], build)
  {
  }

  lemma ThenAssociates(p: Progress, q: Progress, r: Progress)
    ensures Then(Then(p, q), r) == Then(p, Then(q, r))
  {
    assert p.claimed + q.claimed + r.claimed == p.claimed + (q.claimed + r.claimed);
    assert p.built + q.built + r.built == p.built + (q.built + r.built);
  }

  lemma ThenFields(p: Progress, q: Progress)
    ensures Then(p, q) == Progress(q.rest, p.claimed + q.claimed, p.built + q.built, p.drained, p.failed || q.failed)
  {
  }

  lemma PassesUnfold(schedule: seq<Entry>, batch: Batch, build: Outcomes, passes: nat, faults: seq<PassFault>)
    requires passes > 0
    ensures PassesOf(schedule, batch, build, passes, faults)
         == var p := PassOf(schedule, batch, build, FirstFault(faults));
            if p.drained || passes == 1 then p
            else Then(p, PassesOf(p.rest, batch, build, passes - 1, Later(faults)))
  {
    hide PassOf, Then;
  }

  lemma CatchUpUnfold(schedule: seq<Entry>, batch: Batch, build: Outcomes, ws: seq<Weather>)
    ensures var t := TickOf(schedule, batch, build, FirstWeather(ws));
      && CatchUpOf(schedule, batch, build, ws)
           == (if t.drained || t.failed then t else Then(t, CatchUpOf(t.rest, batch, build, Later(ws))))
      && (!t.drained ==> |t.rest| < |schedule|)
  {
    hide PassesOf, InsertFails;
    BusyTickTakesWork(schedule, batch, build, MAX_PASSES_PER_TICK, FirstWeather(ws).faults);
  }

  // A drained catch-up claimed every window due, once and in order.
  lemma DrainedCatchUpClaimsAll(schedule: seq<Entry>, batch: Batch, build: Outcomes)
    requires (forall e | e in schedule :: e.Due?) && !AnyFailed(Decode(schedule), build)
    ensures CatchUpOf(schedule, batch, build, []).claimed == Decode(schedule)
  {
    CatchUpDrains(schedule, batch, build);
    CatchUpConserves(schedule, batch, build, []);
    assert Decode([]) == [];
  }

  // Whatever fails, every window that was due is either claimed or still scheduled, in order.
  lemma {:induction false} CatchUpConserves(schedule: seq<Entry>, batch: Batch, build: Outcomes, ws: seq<Weather>)
    ensures var p := CatchUpOf(schedule, batch, build, ws); p.claimed + Decode(p.rest) == Decode(schedule)
    decreases |schedule|
  {
    hide *;
    CatchUpUnfold(schedule, batch, build, ws);
    var t := TickOf(schedule, batch, build, FirstWeather(ws));
    PassesConserve(schedule, batch, build, 32, FirstWeather(ws).faults);
    TickIs(schedule, batch, build, FirstWeather(ws));
    if !t.drained && !t.failed {
      var q := CatchUpOf(t.rest, batch, build, Later(ws));
      CatchUpConserves(t.rest, batch, build, Later(ws));
      ThenFields(t, q);
      assert t.claimed + q.claimed + Decode(q.rest) == t.claimed + (q.claimed + Decode(q.rest));
    }
  }

  lemma TickIs(schedule: seq<Entry>, batch: Batch, build: Outcomes, w: Weather)
    ensures var p, t := PassesOf(schedule, batch, build, 32, w.faults), TickOf(schedule, batch, build, w);
      t.rest == p.rest && t.claimed == p.claimed
  {
    hide PassesOf, InsertFails;
  }

  lemma {:induction false} PassesConserve(schedule: seq<Entry>, batch: Batch, build: Outcomes, passes: nat,
                                          faults: seq<PassFault>)
    requires passes > 0
    ensures var p := PassesOf(schedule, batch, build, passes, faults); p.claimed + Decode(p.rest) == Decode(schedule)
    decreases passes
  {
    hide *;
    PassesUnfold(schedule, batch, build, passes, faults);
    PassConserves(schedule, batch, build, FirstFault(faults));
    var p := PassOf(schedule, batch, build, FirstFault(faults));
    if !p.drained && passes > 1 {
      PassesConserve(p.rest, batch, build, passes - 1, Later(faults));
      var q := PassesOf(p.rest, batch, build, passes - 1, Later(faults));
      ThenFields(p, q);
      assert p.claimed + q.claimed + Decode(q.rest) == p.claimed + (q.claimed + Decode(q.rest));
    }
  }

  lemma PassConserves(schedule: seq<Entry>, batch: Batch, build: Outcomes, fault: PassFault)
    ensures var p := PassOf(schedule, batch, build, fault); p.claimed + Decode(p.rest) == Decode(schedule)
  {
    DecodeSplit(schedule, Popped(schedule, batch));
    hide AnyFailed, Decode;
  }
}
