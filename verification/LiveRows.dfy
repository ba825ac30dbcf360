// What FINAL shows of the correlated table. The engine supersedes rows by its sorting key, which
// holds the date of the window start beside the correlation id
// (deploy/clickhouse/migrations/0002_events.up.sql:165-167), so one id may have several live rows.

module LiveRows {
  import opened Wrappers
  import opened Replacing
  import opened Records
  import opened Amendment
  import opened AmendmentRuns

  function RecordDay(r: Record): int {
    DayOf(r.span.windowStart)
  }

  // One day as a bound.
  function OnlyDay(day: int): Bound {
    Bound(day * DAY, day * DAY)
  }

  // The row FINAL shows for an id on a day.
  ghost function Live(rows: Rows, id: string, day: int): Option<Row<Record>> {
    Newest(Within(rows, OnlyDay(day)), id)
  }

  ghost function LiveDays(rows: Rows, id: string): set<int> {
    set r | r in rows && r.key == id :: RecordDay(r.value)
  }

  lemma OnlyDayCovers(day: int, r: Record)
    ensures Covers(OnlyDay(day), r) <==> RecordDay(r) == day
  {
  }

  lemma {:induction false} WithinConcat(a: Rows, b: Rows, bound: Bound)
    ensures Within(a + b, bound) == Within(a, bound) + Within(b, bound)
  {
    hide Covers;
    if b == [] {
      assert a + b == a;
    } else {
      WithinConcat(a, b[..|b| - 1], bound);
      assert (a + b)[..|a + b| - 1] == a + b[..|b| - 1];
    }
  }

  lemma LiveConcat(a: Rows, b: Rows, id: string, day: int)
    ensures Live(a + b, id, day) == Newer(Live(a, id, day), Live(b, id, day))
  {
    hide Newest, Within, Newer;
    WithinConcat(a, b, OnlyDay(day));
    NewestConcat(Within(a, OnlyDay(day)), Within(b, OnlyDay(day)), id);
  }

  // FINAL shows one row of an id for each day it was stored on, the newest of that day; the newest
  // row of all is one of them.
  lemma FinalShowsOneRowPerDay(rows: Rows, id: string, day: int)
    ensures Live(rows, id, day).Some? <==> day in LiveDays(rows, id)
    ensures Live(rows, id, day).Some? ==>
      var live := Live(rows, id, day).value;
      && live in rows && live.key == id && RecordDay(live.value) == day
      && forall r | r in rows && r.key == id && RecordDay(r.value) == day :: r.version <= live.version
    ensures Newest(rows, id).Some? ==> Live(rows, id, RecordDay(Newest(rows, id).value.value)) == Newest(rows, id)
  {
    hide Newest, Within, Covers, OnlyDay, RecordDay;
    NewestIsMaximal(Within(rows, OnlyDay(day)), id);
    forall r: Row<Record>
      ensures r in Within(rows, OnlyDay(day)) <==> r in rows && RecordDay(r.value) == day
    {
      WithinHolds(rows, OnlyDay(day), r);
      OnlyDayCovers(day, r.value);
    }
    if Newest(rows, id).Some? {
      var newest := Newest(rows, id).value.value;
      BoundedReadFindsTheNewest(rows, OnlyDay(RecordDay(newest)), id);
      OnlyDayCovers(RecordDay(newest), newest);
    }
  }

  // ---------------------------------------------------------------- one batch

  ghost function BatchRows(rows: Rows, batch: Batch, threshold: real): Rows {
    RowsOf(StampedBatch(rows, batch.bound, batch.emitted, threshold))
  }

  ghost function Found(rows: Rows, batch: Batch, id: string): Option<Row<Record>> {
    Newest(Within(rows, batch.bound), id)
  }

  ghost function FoundVersion(found: Option<Row<Record>>): nat {
    if found.Some? then found.value.version else 0
  }

  // The record of an id that a batch leaves on a day: the last of its emissions stamped onto it.
  ghost function StampedOn(found: Option<Row<Record>>, emitted: seq<Record>, threshold: real, id: string, day: int):
    Option<Record>
  {
    if emitted == [] then None
    else
      var last := emitted[|emitted| - 1];
      if last.correlationID == id && RecordDay(Stamped(found, last, threshold)) == day
      then Some(Stamped(found, last, threshold))
      else StampedOn(found, emitted[..|emitted| - 1], threshold, id, day)
  }

  lemma StampedFields(found: Option<Row<Record>>, e: Record, threshold: real)
    ensures var r := Stamped(found, e, threshold);
      && r.correlationID == e.correlationID && r.version == FoundVersion(found) + 1
      && r.span.windowStart
           == if found.Some? then Earlier(found.value.value.span.windowStart, e.span.windowStart) else e.span.windowStart
  {
  }

  lemma {:induction false} StampedOnIs(found: Option<Row<Record>>, emitted: seq<Record>, threshold: real, id: string,
                                       day: int)
    ensures StampedOn(found, emitted, threshold, id, day).Some? <==>
      exists e | e in emitted :: e.correlationID == id && RecordDay(Stamped(found, e, threshold)) == day
    ensures StampedOn(found, emitted, threshold, id, day).Some? ==>
      var r := StampedOn(found, emitted, threshold, id, day).value;
      && r.correlationID == id && r.version == FoundVersion(found) + 1 && RecordDay(r) == day
      && exists e | e in emitted :: e.correlationID == id && r == Stamped(found, e, threshold)
  {
    hide Stamped, RecordDay;
    if emitted != [] {
      var init, last := emitted[..|emitted| - 1], emitted[|emitted| - 1];
      StampedOnIs(found, init, threshold, id, day);
      StampedFields(found, last, threshold);
      assert emitted == init + [last];
    }
  }

  lemma {:induction false} BatchRowsOnDay(rows: Rows, batch: Batch, threshold: real, id: string, day: int)
    ensures Live(BatchRows(rows, batch, threshold), id, day)
         == match StampedOn(Found(rows, batch, id), batch.emitted, threshold, id, day)
            case None => None
            case Some(r) => Some(RowOf(r))
    decreases |batch.emitted|
  {
    hide *;
    if batch.emitted == [] {
      EmptyBatch(rows, batch, threshold, id, day);
    } else {
      var init := batch.(emitted := batch.emitted[..|batch.emitted| - 1]);
      BatchRowsOnDay(rows, init, threshold, id, day);
      SameFound(rows, init, batch, id);
      BatchRowsSnoc(rows, batch, threshold, id, day);
    }
  }

  lemma EmptyBatch(rows: Rows, batch: Batch, threshold: real, id: string, day: int)
    requires batch.emitted == []
    ensures Live(BatchRows(rows, batch, threshold), id, day).None?
    ensures StampedOn(Found(rows, batch, id), batch.emitted, threshold, id, day).None?
  {
  }

  lemma SameFound(rows: Rows, a: Batch, b: Batch, id: string)
    requires a.bound == b.bound
    ensures Found(rows, a, id) == Found(rows, b, id)
  {
  }

  lemma BatchRowsSnoc(rows: Rows, batch: Batch, threshold: real, id: string, day: int)
    requires batch.emitted != []
    requires Live(BatchRows(rows, batch.(emitted := batch.emitted[..|batch.emitted| - 1]), threshold), id, day)
          == match StampedOn(Found(rows, batch, id), batch.emitted[..|batch.emitted| - 1], threshold, id, day)
             case None => None
             case Some(r) => Some(RowOf(r))
    ensures Live(BatchRows(rows, batch, threshold), id, day)
         == match StampedOn(Found(rows, batch, id), batch.emitted, threshold, id, day)
            case None => None
            case Some(r) => Some(RowOf(r))
  {
    hide Live, Newest, Within, Stamped, RecordDay;
    var init, last := batch.emitted[..|batch.emitted| - 1], batch.emitted[|batch.emitted| - 1];
    var stamped := Stamped(Newest(Within(rows, batch.bound), last.correlationID), last, threshold);
    var before := BatchRows(rows, batch.(emitted := init), threshold);
    assert BatchRows(rows, batch, threshold) == before + [RowOf(stamped)];
    LiveConcat(before, [RowOf(stamped)], id, day);
    LiveOne(RowOf(stamped), id, day);
    StampedFields(Newest(Within(rows, batch.bound), last.correlationID), last, threshold);
    StampedOnIs(Found(rows, batch, id), init, threshold, id, day);
  }

  lemma LiveOne(row: Row<Record>, id: string, day: int)
    ensures Live([row], id, day) == if row.key == id && RecordDay(row.value) == day then Some(row) else None
  {
    OnlyDayCovers(day, row.value);
    OneRow(row, OnlyDay(day), id);
    hide Covers, RecordDay, Newest, Within;
  }

  lemma OneRow(row: Row<Record>, bound: Bound, id: string)
    ensures Newest(Within([row], bound), id) == if row.key == id && Covers(bound, row.value) then Some(row) else None
  {
    hide Covers;
    var none: Rows := [];
    assert [row][..0] == none;
    assert Within([row], bound) == if Covers(bound, row.value) then [row] else [];
    assert Newest([row], id) == Newer(Newest(none, id), if row.key == id then Some(row) else None);
  }

  // A batch supersedes exactly the live rows of the days its own rows fall on: what it reads holds
  // the versions of every day its rows can reach, and rows of other days stay live.
  lemma BatchReplacesOnlyItsDays(rows: Rows, batch: Batch, lateness: Time, threshold: real, id: string, day: int)
    requires IsPartitionBound(batch.bound, batch.emitted, lateness)
    ensures Live(rows + BatchRows(rows, batch, threshold), id, day)
         == match StampedOn(Found(rows, batch, id), batch.emitted, threshold, id, day)
            case None => Live(rows, id, day)
            case Some(r) => Some(RowOf(r))
  {
    hide Live, BatchRows, Newest, Within, Stamped, IsPartitionBound, StampedOn, Found, Covers;
    LiveConcat(rows, BatchRows(rows, batch, threshold), id, day);
    BatchRowsOnDay(rows, batch, threshold, id, day);
    StampedOnIs(Found(rows, batch, id), batch.emitted, threshold, id, day);
    var stamped := StampedOn(Found(rows, batch, id), batch.emitted, threshold, id, day);
    if stamped.Some? && Live(rows, id, day).Some? {
      var e :| e in batch.emitted && e.correlationID == id && stamped.value == Stamped(Found(rows, batch, id), e, threshold);
      StampedStaysWithin(rows, batch, lateness, threshold, id, e);
      OldVersionIsRead(rows, batch, id, day, stamped.value);
    }
  }

  // A stamped row lies in the bound it was looked up under.
  lemma StampedStaysWithin(rows: Rows, batch: Batch, lateness: Time, threshold: real, id: string, e: Record)
    requires IsPartitionBound(batch.bound, batch.emitted, lateness) && e in batch.emitted && e.correlationID == id
    ensures Covers(batch.bound, e) && Covers(batch.bound, Stamped(Found(rows, batch, id), e, threshold))
  {
    hide Within, Newest, Stamped;
    var found := Found(rows, batch, id);
    StampedFields(found, e, threshold);
    SlackIsCovered(batch.bound, batch.emitted, lateness, e, e);
    if found.Some? {
      NewestIsMaximal(Within(rows, batch.bound), id);
      WithinHolds(rows, batch.bound, found.value);
    }
  }

  lemma OldVersionIsRead(rows: Rows, batch: Batch, id: string, day: int, r: Record)
    requires Covers(batch.bound, r) && RecordDay(r) == day && Live(rows, id, day).Some?
    ensures Found(rows, batch, id).Some? && Live(rows, id, day).value.version <= Found(rows, batch, id).value.version
  {
    hide Within, Newest, Live;
    FinalShowsOneRowPerDay(rows, id, day);
    var live := Live(rows, id, day).value;
    WithinHolds(rows, batch.bound, live);
    NewestIsMaximal(Within(rows, batch.bound), id);
  }

  // A batch adds live rows of an id exactly on the days its rows fall on.
  lemma BatchAddsDays(rows: Rows, batch: Batch, threshold: real, id: string)
    ensures LiveDays(rows + BatchRows(rows, batch, threshold), id)
         == LiveDays(rows, id)
            + set e | e in batch.emitted && e.correlationID == id :: RecordDay(Stamped(Found(rows, batch, id), e, threshold))
  {
    hide Stamped, RecordDay, Newest, Within;
    var all := rows + BatchRows(rows, batch, threshold);
    forall day
      ensures day in LiveDays(all, id) <==>
        day in LiveDays(rows, id)
        || exists e | e in batch.emitted :: e.correlationID == id && RecordDay(Stamped(Found(rows, batch, id), e, threshold)) == day
    {
      FinalShowsOneRowPerDay(all, id, day);
      FinalShowsOneRowPerDay(rows, id, day);
      LiveConcat(rows, BatchRows(rows, batch, threshold), id, day);
      BatchRowsOnDay(rows, batch, threshold, id, day);
      StampedOnIs(Found(rows, batch, id), batch.emitted, threshold, id, day);
      hide *;
    }
  }

  // An amendment whose stored copies are all out of reach is written as a first emission beside
  // them: nothing is replaced, nothing is discarded, and the id has live rows on both days.
  lemma OutOfReachLeavesBoth(rows: Rows, batch: Batch, lateness: Time, threshold: real, id: string, e: Record)
    requires IsPartitionBound(batch.bound, batch.emitted, lateness) && e in batch.emitted && e.correlationID == id
    requires Newest(rows, id).Some? && Found(rows, batch, id).None?
    ensures var after := rows + BatchRows(rows, batch, threshold);
      && LiveDays(rows, id) != {} && RecordDay(e) !in LiveDays(rows, id) && RecordDay(e) in LiveDays(after, id)
      && (forall day | day in LiveDays(rows, id) :: Live(after, id, day) == Live(rows, id, day))
      && Live(after, id, RecordDay(e)).Some? && Live(after, id, RecordDay(e)).value.version == 1
  {
    hide Stamped, RecordDay, Newest, Within, Live, LiveDays, BatchRows, Covers, IsPartitionBound;
    var after := rows + BatchRows(rows, batch, threshold);
    FinalShowsOneRowPerDay(rows, id, RecordDay(e));
    if Newest(rows, id).Some? {
      FinalShowsOneRowPerDay(rows, id, RecordDay(Newest(rows, id).value.value));
    }
    OutOfReachDay(rows, batch, lateness, threshold, id, e);
    FinalShowsOneRowPerDay(after, id, RecordDay(e));
    BatchReplacesOnlyItsDays(rows, batch, lateness, threshold, id, RecordDay(e));
    StampedOnIs(None, batch.emitted, threshold, id, RecordDay(e));
    forall day | day in LiveDays(rows, id) ensures Live(after, id, day) == Live(rows, id, day) {
      BatchReplacesOnlyItsDays(rows, batch, lateness, threshold, id, day);
      StampedOnIs(None, batch.emitted, threshold, id, day);
      forall d | d in batch.emitted && d.correlationID == id ensures RecordDay(Stamped(None, d, threshold)) != day {
        OutOfReachDay(rows, batch, lateness, threshold, id, d);
      }
    }
  }

  lemma OutOfReachDay(rows: Rows, batch: Batch, lateness: Time, threshold: real, id: string, e: Record)
    requires IsPartitionBound(batch.bound, batch.emitted, lateness) && e in batch.emitted && e.correlationID == id
    requires Found(rows, batch, id).None?
    ensures RecordDay(Stamped(None, e, threshold)) == RecordDay(e) && RecordDay(e) !in LiveDays(rows, id)
  {
    hide Within, Newest, IsPartitionBound;
    StampedStaysWithin(rows, batch, lateness, threshold, id, e);
    NewestIsMaximal(Within(rows, batch.bound), id);
    forall r | r in rows && r.key == id ensures RecordDay(r.value) != RecordDay(e) {
      WithinHolds(rows, batch.bound, r);
    }
  }

  // What a lookup by version over every partition would answer: the newest row before a batch is
  // still the newest after it exactly when its version is above the one the batch writes, whatever
  // copy the batch found, or when the batch writes that very row again.
  lemma NewestSurvivesExactlyWhen(rows: Rows, batch: Batch, threshold: real, id: string)
    requires LastEmission(batch.emitted, id).Some? && Newest(rows, id).Some?
    ensures var found := Found(rows, batch, id);
      var now := RowOf(Stamped(found, LastEmission(batch.emitted, id).value, threshold));
      var after := Newest(rows + BatchRows(rows, batch, threshold), id);
      && now.version == FoundVersion(found) + 1
      && (after == Newest(rows, id) <==>
            Newest(rows, id).value.version > FoundVersion(found) + 1 || Newest(rows, id).value == now)
      && (after != Newest(rows, id) ==> after == Some(now))
  {
    hide Stamped, Within, Newest;
    NewestConcat(rows, BatchRows(rows, batch, threshold), id);
    NewestOfBatch(Found(rows, batch, id), rows, batch.bound, batch.emitted, threshold, id);
    LastEmissionIsEmitted(batch.emitted, id);
    StampedFields(Found(rows, batch, id), LastEmission(batch.emitted, id).value, threshold);
  }

  // ---------------------------------------------------------------- runs

  // The emissions of an id: those of the first batch that mentions it open on the given day, and no
  // later one opens before that day.
  ghost predicate StaysOnDay(batches: seq<Batch>, id: string, day: int) {
    forall k, e | 0 <= k < |batches| && e in batches[k].emitted && e.correlationID == id ::
      if Emissions(batches[..k], id) == [] then RecordDay(e) == day else RecordDay(e) >= day
  }

  ghost predicate StartsAreSet(batches: seq<Batch>) {
    forall k, e | 0 <= k < |batches| && e in batches[k].emitted :: e.span.windowStart > ZERO_TIME
  }

  // Over every run within the slack, FINAL shows an id once, on the given day, exactly when its
  // windows never open on an earlier day than the first did. A window start that an amendment moves
  // back over midnight leaves the superseded row live on the day it was on.
  lemma OneLiveRowExactlyWhen(batches: seq<Batch>, lateness: Time, threshold: real, id: string, day: int)
    requires RunWithinSlack(batches, lateness) && StartsAreSet(batches) && Emissions(batches, id) != []
    ensures LiveDays(RunRows(batches, threshold), id) == {day} <==> StaysOnDay(batches, id, day)
  {
    hide *;
    RunWithinSlackIsInReach(batches, lateness, threshold);
    ReachedRunStaysOnDay(batches, threshold, id, day);
  }

  lemma {:induction false} ReachedRunStaysOnDay(batches: seq<Batch>, threshold: real, id: string, day: int)
    requires RunInReach(batches, threshold) && StartsAreSet(batches) && Emissions(batches, id) != []
    ensures LiveDays(RunRows(batches, threshold), id) == {day} <==> StaysOnDay(batches, id, day)
  {
    hide *;
    EmissionsOfNone(id);
    var init, last := batches[..|batches| - 1], batches[|batches| - 1];
    var before := RunRows(init, threshold);
    InitRun(batches, threshold);
    RunRowsStep(batches, threshold);
    BatchAddsDays(before, last, threshold, id);
    ReachedRunIsFold(init, threshold, id);
    StaysStep(batches, id, day);
    LiveDaysOfNewest(before, id);
    if Emissions(init, id) == [] {
      NoEmissions(init, id);
      FirstDays(batches, threshold, id, day);
    } else {
      ReachedRunStaysOnDay(init, threshold, id, day);
      LaterDays(batches, threshold, id, day);
    }
  }

  lemma EmissionsOfNone(id: string)
    ensures Emissions([], id) == []
  {
  }

  lemma InitRun(batches: seq<Batch>, threshold: real)
    requires RunInReach(batches, threshold) && StartsAreSet(batches) && batches != []
    ensures RunInReach(batches[..|batches| - 1], threshold) && StartsAreSet(batches[..|batches| - 1])
    ensures InReach(RunRows(batches[..|batches| - 1], threshold), batches[|batches| - 1])
    ensures forall e | e in batches[|batches| - 1].emitted :: e.span.windowStart > ZERO_TIME
  {
    PrefixInReach(batches, |batches| - 1, threshold);
    hide RunRows, InReach;
  }

  lemma RunRowsStep(batches: seq<Batch>, threshold: real)
    requires batches != []
    ensures var before := RunRows(batches[..|batches| - 1], threshold);
      RunRows(batches, threshold) == before + BatchRows(before, batches[|batches| - 1], threshold)
  {
  }

  lemma LiveDaysOfNewest(rows: Rows, id: string)
    ensures Newest(rows, id).None? <==> LiveDays(rows, id) == {}
    ensures Newest(rows, id).Some? ==> RecordDay(Newest(rows, id).value.value) in LiveDays(rows, id)
  {
    hide Newest, RecordDay;
    NewestIsMaximal(rows, id);
    if r :| r in rows && r.key == id {
      assert RecordDay(r.value) in LiveDays(rows, id);
    }
  }

  lemma StaysStep(batches: seq<Batch>, id: string, day: int)
    requires batches != []
    ensures var init, last := batches[..|batches| - 1], batches[|batches| - 1];
      StaysOnDay(batches, id, day) <==>
        && StaysOnDay(init, id, day)
        && (forall e | e in last.emitted && e.correlationID == id ::
              if Emissions(init, id) == [] then RecordDay(e) == day else RecordDay(e) >= day)
  {
    hide Emissions, RecordDay;
    var init := batches[..|batches| - 1];
    assert forall k | 0 <= k < |init| :: init[..k] == batches[..k] && init[k] == batches[k];
  }

  lemma {:induction false} NoEmissions(batches: seq<Batch>, id: string)
    requires Emissions(batches, id) == []
    ensures forall k, e | 0 <= k < |batches| && e in batches[k].emitted :: e.correlationID != id
    ensures forall day :: StaysOnDay(batches, id, day)
  {
    if batches != [] {
      var init, last := batches[..|batches| - 1], batches[|batches| - 1];
      NoEmissions(init, id);
      NoLastEmission(last.emitted, id);
      forall k, e | 0 <= k < |batches| && e in batches[k].emitted ensures e.correlationID != id {
        if k < |init| {
          assert init[k] == batches[k];
        }
      }
    }
  }

  lemma {:induction false} NoLastEmission(emitted: seq<Record>, id: string)
    ensures LastEmission(emitted, id).None? <==> forall e | e in emitted :: e.correlationID != id
  {
    if emitted != [] {
      NoLastEmission(emitted[..|emitted| - 1], id);
      assert emitted == emitted[..|emitted| - 1] + [emitted[|emitted| - 1]];
    }
  }

  // The first batch that mentions an id stores each of its emissions on its own day.
  lemma FirstDays(batches: seq<Batch>, threshold: real, id: string, day: int)
    requires batches != [] && Emissions(batches, id) != [] && Emissions(batches[..|batches| - 1], id) == []
    requires var before := RunRows(batches[..|batches| - 1], threshold);
      && Newest(before, id).None? && LiveDays(before, id) == {}
      && LiveDays(RunRows(batches, threshold), id)
           == LiveDays(before, id)
              + set e | e in batches[|batches| - 1].emitted && e.correlationID == id ::
                  RecordDay(Stamped(Found(before, batches[|batches| - 1], id), e, threshold))
    ensures LiveDays(RunRows(batches, threshold), id) == {day}
      <==> forall e | e in batches[|batches| - 1].emitted && e.correlationID == id :: RecordDay(e) == day
  {
    var before, last := RunRows(batches[..|batches| - 1], threshold), batches[|batches| - 1];
    BoundedReadFindsTheNewest(before, last.bound, id);
    EmissionsStep(batches, id);
    LastEmissionIsEmitted(last.emitted, id);
    assert forall e | e in last.emitted :: RecordDay(Stamped(Found(before, last, id), e, threshold)) == RecordDay(e);
    hide *;
    var days := LiveDays(RunRows(batches, threshold), id);
    var first := LastEmission(last.emitted, id).value;
    assert RecordDay(first) in days;
    assert forall e | e in last.emitted && e.correlationID == id :: RecordDay(e) in days;
  }

  // A later batch stores its merges on the earlier of the two days.
  lemma LaterDays(batches: seq<Batch>, threshold: real, id: string, day: int)
    requires batches != []
    requires StartsAreSet(batches[..|batches| - 1]) && Emissions(batches[..|batches| - 1], id) != []
    requires forall e | e in batches[|batches| - 1].emitted :: e.span.windowStart > ZERO_TIME
    requires var init, last := batches[..|batches| - 1], batches[|batches| - 1];
      var before, es := RunRows(init, threshold), Emissions(init, id);
      && InReach(before, last)
      && Newest(before, id) == Some(Row(id, Folded(es, threshold).version, Folded(es, threshold)))
      && RecordDay(Newest(before, id).value.value) in LiveDays(before, id)
      && LiveDays(RunRows(batches, threshold), id)
           == LiveDays(before, id)
              + set e | e in last.emitted && e.correlationID == id ::
                  RecordDay(Stamped(Found(before, last, id), e, threshold))
    ensures var init, last := batches[..|batches| - 1], batches[|batches| - 1];
      LiveDays(RunRows(batches, threshold), id) == {day}
      <==> LiveDays(RunRows(init, threshold), id) == {day}
           && forall e | e in last.emitted && e.correlationID == id :: RecordDay(e) >= day
  {
    hide *;
    var init, last := batches[..|batches| - 1], batches[|batches| - 1];
    var before := RunRows(init, threshold);
    StoredStartIsSet(init, threshold, id);
    var fold := Newest(before, id).value.value;
    forall e | e in last.emitted && e.correlationID == id
      ensures RecordDay(Stamped(Found(before, last, id), e, threshold))
           == if RecordDay(e) < RecordDay(fold) then RecordDay(e) else RecordDay(fold)
    {
      FoundInReach(before, last, id, e);
      StampedDay(Newest(before, id).value, e, threshold);
    }
    var days := LiveDays(RunRows(batches, threshold), id);
    assert RecordDay(fold) in days;
    assert forall e | e in last.emitted && e.correlationID == id ::
      RecordDay(Stamped(Found(before, last, id), e, threshold)) in days;
  }

  lemma StoredStartIsSet(batches: seq<Batch>, threshold: real, id: string)
    requires StartsAreSet(batches) && Emissions(batches, id) != []
    ensures Folded(Emissions(batches, id), threshold).span.windowStart > ZERO_TIME
  {
    hide Folded, Emissions;
    var es := Emissions(batches, id);
    var k := FoldStartsWithAnEmission(es, threshold);
    EmissionsAreEmitted(batches, id, es[k]);
  }

  lemma FoundInReach(rows: Rows, batch: Batch, id: string, e: Record)
    requires InReach(rows, batch) && e in batch.emitted && e.correlationID == id
    ensures Found(rows, batch, id) == Newest(rows, id)
  {
    BoundedReadFindsTheNewest(rows, batch.bound, id);
    hide Newest, Within, Covers;
  }

  lemma StampedDay(row: Row<Record>, e: Record, threshold: real)
    requires row.value.span.windowStart > ZERO_TIME
    ensures RecordDay(Stamped(Some(row), e, threshold))
         == if RecordDay(e) < RecordDay(row.value) then RecordDay(e) else RecordDay(row.value)
  {
    hide Stamped;
    StampedFields(Some(row), e, threshold);
  }

  // ---------------------------------------------------------------- examples

  const HOUR: Time := 3_600_000_000_000
  const MINUTE: Time := 60_000_000_000

  function OpeningAt(r: Record, t: Time): Record {
    r.(span := Span(t, t, t), version := 1)
  }

  function Alone(e: Record, lateness: Time): Batch {
    Batch([e], Bound(e.span.windowStart - Slack(lateness), e.span.windowStart + Slack(lateness)))
  }

  // One emission alone: what it leaves, and where.
  lemma AloneLeaves(rows: Rows, e: Record, lateness: Time, threshold: real, day: int)
    ensures var batch := Alone(e, lateness);
      var now := Stamped(Found(rows, batch, e.correlationID), e, threshold);
      && IsPartitionBound(batch.bound, batch.emitted, lateness)
      && BatchRows(rows, batch, threshold) == [RowOf(now)]
      && Live(rows + [RowOf(now)], e.correlationID, day)
           == if day == RecordDay(now) then Some(RowOf(now)) else Live(rows, e.correlationID, day)
  {
    hide Live, Within, Newest, Stamped, RecordDay;
    var batch := Alone(e, lateness);
    assert e in batch.emitted;
    assert batch.emitted[..0] == [];
    BatchReplacesOnlyItsDays(rows, batch, lateness, threshold, e.correlationID, day);
  }

  // Ten minutes past midnight, then ten minutes before it: the amendment holds both closings, and
  // the first row stays live beside it on the day it was on.
  lemma MidnightLeavesTheOldRow(r: Record, threshold: real)
    ensures var first, late := OpeningAt(r, 10 * DAY + 10 * MINUTE), OpeningAt(r, 10 * DAY - 10 * MINUTE);
      var after := RunRows([Alone(first, 0), Alone(late, 0)], threshold);
      && Live(after, r.correlationID, 10) == Some(RowOf(first))
      && Live(after, r.correlationID, 9) == Some(RowOf(Folded([first, late], threshold)))
      && LiveDays(after, r.correlationID) == {9, 10}
  {
    hide *;
    var id, first, late := r.correlationID, OpeningAt(r, 10 * DAY + 10 * MINUTE), OpeningAt(r, 10 * DAY - 10 * MINUTE);
    Midnight(r, threshold);
    RunOfTwo(first, late, 0, threshold);
    var after := RunRows([Alone(first, 0), Alone(late, 0)], threshold);
    assert [RowOf(first)] + [RowOf(Folded([first, late], threshold))] == after;
    AloneLeaves([RowOf(first)], late, 0, threshold, 9);
    AloneLeaves([RowOf(first)], late, 0, threshold, 10);
    LiveOne(RowOf(first), id, 10);
    TwoRows(RowOf(first), RowOf(Folded([first, late], threshold)), id);
  }

  lemma Midnight(r: Record, threshold: real)
    ensures var first, late := OpeningAt(r, 10 * DAY + 10 * MINUTE), OpeningAt(r, 10 * DAY - 10 * MINUTE);
      && first.version == 1 && first.correlationID == late.correlationID == r.correlationID
      && RecordDay(first) == 10 && RecordDay(late) == 9
      && RecordDay(Folded([first, late], threshold)) == 9
      && Covers(Alone(late, 0).bound, first) && RowOf(first).key == r.correlationID && RowOf(first).value == first
      && RowOf(Folded([first, late], threshold)).key == r.correlationID
      && RowOf(Folded([first, late], threshold)).value == Folded([first, late], threshold)
  {
    var first, late := OpeningAt(r, 10 * DAY + 10 * MINUTE), OpeningAt(r, 10 * DAY - 10 * MINUTE);
    assert [first, late][..1] == [first];
    hide Union, MergeJoin, OutcomeOf, MergeRequestShape;
  }

  // Two emissions of one id, the second of which finds the first.
  lemma RunOfTwo(first: Record, late: Record, lateness: Time, threshold: real)
    requires first.version == 1 && first.correlationID == late.correlationID
    requires Covers(Alone(late, lateness).bound, first)
    ensures RunRows([Alone(first, lateness)], threshold) == [RowOf(first)]
    ensures Found([RowOf(first)], Alone(late, lateness), late.correlationID) == Some(RowOf(first))
    ensures Stamped(Some(RowOf(first)), late, threshold) == Folded([first, late], threshold)
    ensures RunRows([Alone(first, lateness), Alone(late, lateness)], threshold)
         == [RowOf(first), RowOf(Folded([first, late], threshold))]
  {
    hide *;
    var none: Rows := [];
    var one, two := [Alone(first, lateness)], [Alone(first, lateness), Alone(late, lateness)];
    assert one[..0] == [] && two[..1] == one;
    RunRowsStep(one, threshold);
    RunRowsStep(two, threshold);
    RunOfNone(Alone(first, lateness), first.correlationID, threshold);
    AloneLeaves(none, first, lateness, threshold, 0);
    FirstIsStamped(first, threshold);
    OneRow(RowOf(first), Alone(late, lateness).bound, late.correlationID);
    RowFields(first);
    FoundIs([RowOf(first)], Alone(late, lateness), late.correlationID);
    AloneLeaves([RowOf(first)], late, lateness, threshold, 0);
    FoldOfTwo(first, late, threshold);
  }

  lemma RunOfNone(batch: Batch, id: string, threshold: real)
    ensures RunRows([], threshold) == [] && Found([], batch, id).None?
  {
  }

  lemma FirstIsStamped(first: Record, threshold: real)
    requires first.version == 1
    ensures Stamped(None, first, threshold) == first
  {
  }

  lemma RowFields(r: Record)
    ensures RowOf(r) == Row(r.correlationID, r.version, r)
  {
  }

  lemma FoundIs(rows: Rows, batch: Batch, id: string)
    ensures Found(rows, batch, id) == Newest(Within(rows, batch.bound), id)
  {
  }

  lemma FoldOfTwo(first: Record, late: Record, threshold: real)
    requires first.version == 1
    ensures Stamped(Some(RowOf(first)), late, threshold) == Folded([first, late], threshold)
  {
    assert [first, late][..1] == [first];
    hide Merged;
  }

  lemma TwoRows(a: Row<Record>, b: Row<Record>, id: string)
    requires a.key == id && b.key == id
    ensures LiveDays([a, b], id) == {RecordDay(a.value), RecordDay(b.value)}
  {
    hide RecordDay;
    assert a in [a, b] && b in [a, b];
  }

  // With a lateness bound of fifteen minutes: an emission, one whose window opens a day and ten
  // minutes earlier, and one ten hours later. The third finds the first row but not the second, so
  // it merges with the first: the id keeps two live rows at version 2, neither of which holds all
  // three emissions, and a lookup by version alone answers the third's.
  lemma ThreeEmissionsSplitARecord(r: Record, threshold: real)
    ensures var lateness := 15 * MINUTE;
      var first, late, third := OpeningAt(r, 10 * DAY), OpeningAt(r, 9 * DAY - 10 * MINUTE), OpeningAt(r, 10 * DAY + 10 * HOUR);
      var run := [Alone(first, lateness), Alone(late, lateness), Alone(third, lateness)];
      var rows := RunRows(run, threshold);
      && Live(rows, r.correlationID, 8) == Some(RowOf(Folded([first, late], threshold)))
      && Live(rows, r.correlationID, 10) == Some(RowOf(Folded([first, third], threshold)))
      && Newest(rows, r.correlationID) == Some(RowOf(Folded([first, third], threshold)))
      && Folded([first, late], threshold).version == Folded([first, third], threshold).version == 2
      && !RunInReach(run, threshold)
  {
    hide *;
    var id, lateness := r.correlationID, 15 * MINUTE;
    var first, late, third := OpeningAt(r, 10 * DAY), OpeningAt(r, 9 * DAY - 10 * MINUTE), OpeningAt(r, 10 * DAY + 10 * HOUR);
    var run := [Alone(first, lateness), Alone(late, lateness), Alone(third, lateness)];
    ThreeDays(r, threshold);
    RunOfTwo(first, late, lateness, threshold);
    var merged := Folded([first, late], threshold);
    var before := [RowOf(first), RowOf(merged)];
    RowFields(first);
    RowFields(merged);
    ThirdFindsTheFirst(RowOf(first), RowOf(merged), Alone(third, lateness), id);
    FoldOfTwo(first, third, threshold);
    var now := Folded([first, third], threshold);
    RowFields(now);
    assert run[..2] == [Alone(first, lateness), Alone(late, lateness)];
    RunRowsStep(run, threshold);
    AloneLeaves(before, third, lateness, threshold, 8);
    AloneLeaves(before, third, lateness, threshold, 10);
    AloneLeaves([RowOf(first)], late, lateness, threshold, 8);
    assert [RowOf(first)] + [RowOf(merged)] == before;
    LastIsNewest(before, RowOf(now), id);
    LastIsNewest([RowOf(first)], RowOf(merged), id);
    NotCovered(run, before, threshold);
  }

  lemma ThreeDays(r: Record, threshold: real)
    ensures var lateness := 15 * MINUTE;
      var first, late, third := OpeningAt(r, 10 * DAY), OpeningAt(r, 9 * DAY - 10 * MINUTE), OpeningAt(r, 10 * DAY + 10 * HOUR);
      var merged, now := Folded([first, late], threshold), Folded([first, third], threshold);
      && first.version == 1 && merged.version == now.version == 2
      && first.correlationID == late.correlationID == third.correlationID == r.correlationID
      && merged.correlationID == now.correlationID == r.correlationID
      && RecordDay(merged) == 8 && RecordDay(now) == 10
      && Covers(Alone(late, lateness).bound, first) && Covers(Alone(third, lateness).bound, first)
      && !Covers(Alone(third, lateness).bound, merged)
      && Alone(third, lateness).emitted == [third]
  {
    var first, late, third := OpeningAt(r, 10 * DAY), OpeningAt(r, 9 * DAY - 10 * MINUTE), OpeningAt(r, 10 * DAY + 10 * HOUR);
    assert [first, late][..1] == [first] && [first, third][..1] == [first];
    hide Union, MergeJoin, OutcomeOf, MergeRequestShape;
  }

  lemma ThirdFindsTheFirst(a: Row<Record>, b: Row<Record>, batch: Batch, id: string)
    requires a.key == b.key == id && Covers(batch.bound, a.value) && !Covers(batch.bound, b.value)
    ensures Found([a, b], batch, id) == Some(a)
  {
    hide Covers, Newest, Within;
    assert [a] + [b] == [a, b];
    WithinConcat([a], [b], batch.bound);
    NewestConcat(Within([a], batch.bound), Within([b], batch.bound), id);
    OneRow(a, batch.bound, id);
    OneRow(b, batch.bound, id);
  }

  lemma LastIsNewest(rows: Rows, row: Row<Record>, id: string)
    requires row.key == id && forall r | r in rows :: r.version <= row.version
    ensures Newest(rows + [row], id) == Some(row)
  {
    hide Newest;
    NewestMore(rows, row, id);
    NewestIsMaximal(rows, id);
  }

  lemma NotCovered(run: seq<Batch>, before: Rows, threshold: real)
    requires |run| == 3 && before == RunRows(run[..2], threshold) && |run[2].emitted| == 1
    requires var id := run[2].emitted[0].correlationID;
      Newest(before, id).Some? && !Covers(run[2].bound, Newest(before, id).value.value)
    ensures !RunInReach(run, threshold)
  {
    hide RunRows, Newest, Covers;
    assert run[2].emitted[0] in run[2].emitted;
  }
}
