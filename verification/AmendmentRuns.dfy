// The versioned insert of a close pass, and whole runs of it
// (backend/internal/correlate/closer.go:334-506 and data/clickhouse/correlated.go).

module AmendmentRuns {
  import opened Collections
  import opened Wrappers
  import opened Replacing
  import opened Records
  import opened Amendment

  const DAY: Time := 86_400_000_000_000
  const PARTITION_SLACK: Time := DAY
  const VERSION_LOOKUP_CHUNK := 1000

  type Rows = seq<Row<Record>>

  // ---------------------------------------------------------------- partitions

  datatype Bound = Bound(from: Time, to: Time)

  function DayOf(t: Time): int {
    t / DAY
  }

  // The pruning predicate compares dates, since the date of the window start is the partition.
  predicate Covers(bound: Bound, r: Record) {
    DayOf(bound.from) <= DayOf(r.span.windowStart) <= DayOf(bound.to)
  }

  ghost function Within(rows: Rows, bound: Bound): Rows {
    if rows == [] then []
    else
      var init, last := Within(rows[..|rows| - 1], bound), rows[|rows| - 1];
      if Covers(bound, last.value) then init + [last] else init
  }

  function Slack(lateness: Time): Time {
    PARTITION_SLACK + (if lateness > 0 then lateness else 0)
  }

  // The earliest and latest window starts of the batch, a slack further out.
  ghost predicate IsPartitionBound(bound: Bound, emitted: seq<Record>, lateness: Time) {
    && (forall e | e in emitted ::
          bound.from + Slack(lateness) <= e.span.windowStart <= bound.to - Slack(lateness))
    && (exists e | e in emitted :: e.span.windowStart == bound.from + Slack(lateness))
    && (exists e | e in emitted :: e.span.windowStart == bound.to - Slack(lateness))
  }

  method PartitionBound(emitted: seq<Record>, lateness: Time) returns (bound: Bound)
    requires emitted != []
    ensures IsPartitionBound(bound, emitted, lateness)
  {
    var from, to := emitted[0].span.windowStart, emitted[0].span.windowStart;
    for i := 1 to |emitted|
      invariant forall j | 0 <= j < i :: from <= emitted[j].span.windowStart <= to
      invariant exists j | 0 <= j < i :: emitted[j].span.windowStart == from
      invariant exists j | 0 <= j < i :: emitted[j].span.windowStart == to
    {
      if emitted[i].span.windowStart < from {
        from := emitted[i].span.windowStart;
      }
      if emitted[i].span.windowStart > to {
        to := emitted[i].span.windowStart;
      }
    }
    bound := Bound(from - Slack(lateness), to + Slack(lateness));
  }

  // The bound opens a day and the lateness before the earliest window start, and ends as long after the
  // latest; it takes in whole days.
  lemma BoundSays(bound: Bound, emitted: seq<Record>, lateness: Time, rows: Rows, row: Row<Record>)
    requires IsPartitionBound(bound, emitted, lateness)
    ensures var slack := 86_400_000_000_000 + (if lateness > 0 then lateness else 0);
      && (forall e | e in emitted :: bound.from + slack <= e.span.windowStart <= bound.to - slack)
      && (exists e | e in emitted :: e.span.windowStart == bound.from + slack)
      && (exists e | e in emitted :: e.span.windowStart == bound.to - slack)
    ensures row in Within(rows, bound) <==>
      row in rows && bound.from / 86_400_000_000_000 <= row.value.span.windowStart / 86_400_000_000_000
                  && row.value.span.windowStart / 86_400_000_000_000 <= bound.to / 86_400_000_000_000
  {
    WithinHolds(rows, bound, row);
  }

  lemma {:induction false} WithinHolds(rows: Rows, bound: Bound, row: Row<Record>)
    ensures row in Within(rows, bound) <==> row in rows && Covers(bound, row.value)
  {
    hide Covers;
    if rows != [] {
      WithinHolds(rows[..|rows| - 1], bound, row);
      assert rows == rows[..|rows| - 1] + [rows[|rows| - 1]];
    }
  }

  // A stored copy whose window start is within the slack of an emission's is always looked at.
  lemma SlackIsCovered(bound: Bound, emitted: seq<Record>, lateness: Time, e: Record, stored: Record)
    requires IsPartitionBound(bound, emitted, lateness) && e in emitted
    requires e.span.windowStart - Slack(lateness) <= stored.span.windowStart <= e.span.windowStart + Slack(lateness)
    ensures Covers(bound, stored)
  {
    DayMonotone(bound.from, stored.span.windowStart);
    DayMonotone(stored.span.windowStart, bound.to);
  }

  lemma DayMonotone(a: Time, b: Time)
    requires a <= b
    ensures DayOf(a) <= DayOf(b)
  {
  }

  // The newest row of an id is what a bounded read finds, when the bound covers it.
  lemma {:induction false} BoundedReadFindsTheNewest(rows: Rows, bound: Bound, id: string)
    ensures Newest(rows, id).None? ==> Newest(Within(rows, bound), id).None?
    ensures Newest(rows, id).Some? && Covers(bound, Newest(rows, id).value.value) ==>
      Newest(Within(rows, bound), id) == Newest(rows, id)
    ensures forall r | r in Within(rows, bound) :: r in rows && Covers(bound, r.value)
  {
    hide Covers, Newest, Newer;
    if rows == [] {
      NoneNewest(id);
    } else {
      var init, last := rows[..|rows| - 1], rows[|rows| - 1];
      BoundedReadFindsTheNewest(init, bound, id);
      NewestIsMaximal(init, id);
      NewestIsMaximal(Within(init, bound), id);
      assert rows == init + [last];
      NewestMore(init, last, id);
      NewestMore(Within(init, bound), last, id);
    }
  }

  lemma NoneNewest(id: string)
    ensures Newest<Record>([], id).None?
  {
  }

  lemma NewestMore(rows: Rows, row: Row<Record>, id: string)
    ensures Newest(rows + [row], id)
         == if row.key != id || (Newest(rows, id).Some? && Newest(rows, id).value.version > row.version) then Newest(rows, id)
            else Some(row)
  {
    assert (rows + [row])[..|rows|] == rows;
  }

  // ---------------------------------------------------------------- the store

  ghost function Existing(rows: Rows, ids: seq<string>, bound: Bound): map<string, nat> {
    map id | id in ids && Newest(Within(rows, bound), id).Some? :: Newest(Within(rows, bound), id).value.version
  }

  ghost function StoredFor(rows: Rows, ids: set<string>, bound: Bound): map<string, Record> {
    map id | id in ids && Newest(Within(rows, bound), id).Some? :: Newest(Within(rows, bound), id).value.value
  }

  ghost function NewestFor(rows: Rows, ids: set<string>): map<string, Row<Record>> {
    map id | id in ids && Newest(rows, id).Some? :: Newest(rows, id).value
  }

  lemma NewestForIs(rows: Rows, ids: set<string>)
    ensures NewestFor(rows, ids) == map id | id in ids && Newest(rows, id).Some? :: Newest(rows, id).value
  {
  }

  lemma NothingFound(bound: Bound, ids: set<string>)
    ensures Within([], bound) == [] && NewestFor([], ids) == map[]
  {
  }

  lemma WithinStep(rows: Rows, i: nat, bound: Bound)
    requires i < |rows|
    ensures Within(rows[..i + 1], bound)
         == if Covers(bound, rows[i].value) then Within(rows[..i], bound) + [rows[i]] else Within(rows[..i], bound)
  {
    assert rows[..i + 1][..i] == rows[..i];
  }

  lemma NewestForStep(rows: Rows, ids: set<string>, row: Row<Record>)
    ensures var found := NewestFor(rows, ids);
      NewestFor(rows + [row], ids)
        == if row.key in ids && (row.key !in found || found[row.key].version <= row.version) then found[row.key := row]
           else found
  {
    hide Newest;
    forall id ensures Newest(rows + [row], id)
        == if row.key != id || (Newest(rows, id).Some? && Newest(rows, id).value.version > row.version) then Newest(rows, id)
           else Some(row) {
      NewestMore(rows, row, id);
    }
  }

  class CorrelatedStore {
    var rows: Rows

    // Versions and ByIDs are the reads bounded to partitions; each may fail.
    method Versions(ids: seq<string>, bound: Bound, down: bool) returns (r: Option<map<string, nat>>)
      ensures r.None? <==> down
      ensures r.Some? ==> r.value == Existing(rows, ids, bound)
    {
      if down {
        return None;
      }
      var found := NewestOf((set id | id in ids), bound);
      return Some(map id | id in found :: found[id].version);
    }

    method ByIDs(ids: set<string>, bound: Bound, down: bool) returns (r: Option<map<string, Record>>)
      ensures r.None? <==> down
      ensures r.Some? ==> r.value == StoredFor(rows, ids, bound)
    {
      if down {
        return None;
      }
      var found := NewestOf(ids, bound);
      return Some(map id | id in found :: found[id].value);
    }

    method NewestOf(ids: set<string>, bound: Bound) returns (found: map<string, Row<Record>>)
      ensures found == map id | id in ids && Newest(Within(rows, bound), id).Some? :: Newest(Within(rows, bound), id).value
    {
      hide *;
      found := map[];
      ghost var kept: Rows := [];
      assert rows[..|rows|] == rows;
      NothingFound(bound, ids);
      for i := 0 to |rows|
        invariant kept == Within(rows[..i], bound)
        invariant found == NewestFor(kept, ids)
      {
        var row := rows[i];
        WithinStep(rows, i, bound);
        if Covers(bound, row.value) {
          NewestForStep(kept, ids, row);
          kept := kept + [row];
          if row.key in ids && (row.key !in found || found[row.key].version <= row.version) {
            found := found[row.key := row];
          }
        }
      }
      NewestForIs(kept, ids);
    }

    // Insert appends the rows; a failed call may have landed all the same.
    method Insert(records: seq<Record>, failure: Option<bool>) returns (ok: bool)
      modifies this
      ensures ok <==> failure.None?
      ensures rows == old(rows) || rows == old(rows) + RowsOf(records)
      ensures ok ==> rows == old(rows) + RowsOf(records)
    {
      if failure != Some(false) {
        rows := rows + RowsOf(records);
      }
      return failure.None?;
    }
  }

  function RowOf(r: Record): Row<Record> {
    Row(r.correlationID, r.version, r)
  }

  function RowsOf(records: seq<Record>): Rows {
    seq(|records|, i requires 0 <= i < |records| => RowOf(records[i]))
  }

  // ---------------------------------------------------------------- versioning a batch

  // A first emission, or the amendment of the copy that was found.
  ghost function Stamped(found: Option<Row<Record>>, e: Record, threshold: real): Record {
    match found
    case None => e.(version := 1)
    case Some(row) => Merged(row.value, e, threshold).(version := row.version + 1, amended := true)
  }

  // A first emission is version one as it is; an amendment is the found copy merged with it, one version
  // up and marked.
  lemma StampSays(found: Option<Row<Record>>, e: Record, threshold: real)
    ensures var r := Stamped(found, e, threshold);
      && (found.None? ==> r.version == 1 && r.(version := e.version) == e)
      && (found.Some? ==>
            var merged := Merged(found.value.value, e, threshold);
            && r.version == found.value.version + 1 && r.amended && r.correlationID == e.correlationID
            && r.(version := merged.version, amended := merged.amended) == merged)
  {
    hide MergeRequestShape, OutcomeOf;
  }

  ghost function StampedBatch(rows: Rows, bound: Bound, emitted: seq<Record>, threshold: real): seq<Record> {
    seq(|emitted|, i requires 0 <= i < |emitted| =>
      Stamped(Newest(Within(rows, bound), emitted[i].correlationID), emitted[i], threshold))
  }

  method Versioned(emitted: seq<Record>, existing: map<string, nat>, stored: map<string, Record>,
                   threshold: real, ghost rows: Rows, ghost bound: Bound)
    returns (records: seq<Record>)
    requires forall e | e in emitted ::
      (e.correlationID in existing <==> Newest(Within(rows, bound), e.correlationID).Some?)
      && (e.correlationID in existing ==>
            var row := Newest(Within(rows, bound), e.correlationID).value;
            existing[e.correlationID] == row.version
            && e.correlationID in stored && stored[e.correlationID] == row.value)
    ensures records == StampedBatch(rows, bound, emitted, threshold)
  {
    records := [];
    for i := 0 to |emitted|
      invariant |records| == i
      invariant forall j | 0 <= j < i ::
        records[j] == Stamped(Newest(Within(rows, bound), emitted[j].correlationID), emitted[j], threshold)
    {
      var record := emitted[i];
      assert record in emitted;
      var id := record.correlationID;
      if id in existing {
        if id in stored {
          record := MergeRecords(stored[id], record, threshold);
        }
        record := record.(version := existing[id] + 1, amended := true);
      } else {
        record := record.(version := 1);
      }
      records := records + [record];
    }
  }

  // versionsOf: the lookup split into chunks answers exactly what one whole lookup would.
  method VersionsOf(store: CorrelatedStore, ids: seq<string>, bound: Bound, failAt: nat -> bool)
    returns (r: Option<map<string, nat>>)
    ensures r.Some? ==> r.value == Existing(store.rows, ids, bound)
    ensures (forall k :: !failAt(k)) ==> r.Some?
  {
    var existing: map<string, nat> := map[];
    var start := 0;
    while start < |ids|
      invariant 0 <= start <= |ids|
      invariant existing == Existing(store.rows, ids[..start], bound)
    {
      var end := if start + VERSION_LOOKUP_CHUNK < |ids| then start + VERSION_LOOKUP_CHUNK else |ids|;
      var found := store.Versions(ids[start..end], bound, failAt(start));
      if found.None? {
        return None;
      }
      assert ids[..end] == ids[..start] + ids[start..end];
      existing := existing + found.value;
      start := end;
    }
    assert ids[..start] == ids;
    return Some(existing);
  }

  // insert: one tenant's closed windows, versioned against what is stored and written together.
  // A failed read writes nothing.
  method InsertEmissions(store: CorrelatedStore, emitted: seq<Record>, lateness: Time, threshold: real,
                         readFails: nat -> bool, loadFails: bool, failure: Option<bool>)
    returns (ok: bool)
    requires emitted != []
    modifies store
    ensures exists bound | IsPartitionBound(bound, emitted, lateness) ::
      && (store.rows == old(store.rows)
          || store.rows == old(store.rows) + RowsOf(StampedBatch(old(store.rows), bound, emitted, threshold)))
      && (ok ==> store.rows == old(store.rows) + RowsOf(StampedBatch(old(store.rows), bound, emitted, threshold)))
    ensures (forall k :: !readFails(k)) && !loadFails && failure.None? ==> ok
  {
    var bound := PartitionBound(emitted, lateness);
    var ids := seq(|emitted|, i requires 0 <= i < |emitted| => emitted[i].correlationID);
    forall e | e in emitted ensures e.correlationID in ids {
      var i :| 0 <= i < |emitted| && emitted[i] == e;
      assert ids[i] == e.correlationID;
    }
    var existing := VersionsOf(store, ids, bound, readFails);
    if existing.None? {
      return false;
    }
    var stored := store.ByIDs(existing.value.Keys, bound, loadFails);
    if stored.None? {
      return false;
    }
    var records := Versioned(emitted, existing.value, stored.value, threshold, store.rows, bound);
    ok := store.Insert(records, failure);
  }

  // ---------------------------------------------------------------- runs

  // A run: batches inserted one after the other, each with the bound it was looked up under.
  datatype Batch = Batch(emitted: seq<Record>, bound: Bound)

  ghost function RunRows(batches: seq<Batch>, threshold: real): Rows {
    if batches == [] then []
    else
      var before, last := RunRows(batches[..|batches| - 1], threshold), batches[|batches| - 1];
      before + RowsOf(StampedBatch(before, last.bound, last.emitted, threshold))
  }

  // Each emission finds the copy it amends: nothing is stored under its id, or the newest copy
  // lies in the partitions that are read.
  ghost predicate InReach(rows: Rows, batch: Batch) {
    forall e | e in batch.emitted ::
      Newest(rows, e.correlationID).None? || Covers(batch.bound, Newest(rows, e.correlationID).value.value)
  }

  ghost predicate RunInReach(batches: seq<Batch>, threshold: real) {
    forall k | 0 <= k < |batches| :: InReach(RunRows(batches[..k], threshold), batches[k])
  }

  // The emission of an id that a batch leaves behind: its last one.
  ghost function LastEmission(emitted: seq<Record>, id: string): Option<Record> {
    if emitted == [] then None
    else if emitted[|emitted| - 1].correlationID == id then Some(emitted[|emitted| - 1])
    else LastEmission(emitted[..|emitted| - 1], id)
  }

  ghost function Emissions(batches: seq<Batch>, id: string): seq<Record> {
    if batches == [] then []
    else
      var init := Emissions(batches[..|batches| - 1], id);
      match LastEmission(batches[|batches| - 1].emitted, id)
      case None => init
      case Some(e) => init + [e]
  }

  // What a history of emissions amounts to.
  ghost function Folded(es: seq<Record>, threshold: real): Record
    requires es != []
  {
    if |es| == 1 then es[0].(version := 1)
    else
      var before := Folded(es[..|es| - 1], threshold);
      Merged(before, es[|es| - 1], threshold).(version := before.version + 1, amended := true)
  }

  lemma {:induction false} NewestOfBatch(found: Option<Row<Record>>, rows: Rows, bound: Bound, emitted: seq<Record>,
                                         threshold: real, id: string)
    requires found == Newest(Within(rows, bound), id)
    ensures Newest(RowsOf(StampedBatch(rows, bound, emitted, threshold)), id)
         == match LastEmission(emitted, id)
            case None => None
            case Some(e) => Some(Row(id, Stamped(found, e, threshold).version, Stamped(found, e, threshold)))
  {
    if emitted != [] {
      var init, last := emitted[..|emitted| - 1], emitted[|emitted| - 1];
      NewestOfBatch(found, rows, bound, init, threshold, id);
      var all := RowsOf(StampedBatch(rows, bound, emitted, threshold));
      assert all[..|all| - 1] == RowsOf(StampedBatch(rows, bound, init, threshold));
      var stamped := Stamped(Newest(Within(rows, bound), last.correlationID), last, threshold);
      assert all[|all| - 1] == RowOf(stamped);
      assert stamped.correlationID == last.correlationID;
    }
  }

  // One batch: an id it does not mention keeps its newest row, and an id it mentions gets the
  // merge of that row with the batch's last emission of it.
  lemma BatchAmendsTheNewest(rows: Rows, batch: Batch, threshold: real, id: string)
    requires InReach(rows, batch)
    ensures Newest(rows + RowsOf(StampedBatch(rows, batch.bound, batch.emitted, threshold)), id)
         == match LastEmission(batch.emitted, id)
            case None => Newest(rows, id)
            case Some(e) =>
              var stamped := Stamped(Newest(rows, id), e, threshold);
              Some(Row(id, stamped.version, stamped))
  {
    var found := Newest(Within(rows, batch.bound), id);
    NewestConcat(rows, RowsOf(StampedBatch(rows, batch.bound, batch.emitted, threshold)), id);
    NewestOfBatch(found, rows, batch.bound, batch.emitted, threshold, id);
    if LastEmission(batch.emitted, id).Some? {
      LastEmissionIsEmitted(batch.emitted, id);
      BoundedReadFindsTheNewest(rows, batch.bound, id);
    }
  }

  lemma {:induction false} LastEmissionIsEmitted(emitted: seq<Record>, id: string)
    requires LastEmission(emitted, id).Some?
    ensures LastEmission(emitted, id).value in emitted && LastEmission(emitted, id).value.correlationID == id
  {
    if emitted[|emitted| - 1].correlationID != id {
      LastEmissionIsEmitted(emitted[..|emitted| - 1], id);
    }
  }

  // After any run in reach, the stored record of an id is the fold of its emissions.
  lemma {:induction false} ReachedRunIsFold(batches: seq<Batch>, threshold: real, id: string)
    requires RunInReach(batches, threshold)
    ensures Newest(RunRows(batches, threshold), id)
         == if Emissions(batches, id) == [] then None
            else Some(Row(id, Folded(Emissions(batches, id), threshold).version, Folded(Emissions(batches, id), threshold)))
  {
    if batches != [] {
      var init, last := batches[..|batches| - 1], batches[|batches| - 1];
      PrefixInReach(batches, |init|, threshold);
      assert InReach(RunRows(init, threshold), last);
      ReachedRunIsFold(init, threshold, id);
      BatchAmendsTheNewest(RunRows(init, threshold), last, threshold, id);
      EmissionsStep(batches, id);
      if LastEmission(last.emitted, id).Some? {
        StampingContinuesTheFold(Emissions(init, id), LastEmission(last.emitted, id).value, threshold, id);
      }
      hide Folded, Newest, Emissions, LastEmission, Stamped, InReach;
    }
  }

  lemma EmissionsStep(batches: seq<Batch>, id: string)
    requires batches != []
    ensures Emissions(batches, id)
         == Emissions(batches[..|batches| - 1], id)
            + match LastEmission(batches[|batches| - 1].emitted, id)
              case None => []
              case Some(e) => [e]
  {
  }

  lemma StampingContinuesTheFold(es: seq<Record>, e: Record, threshold: real, id: string)
    ensures Folded(es + [e], threshold)
         == Stamped(if es == [] then None else Some(Row(id, Folded(es, threshold).version, Folded(es, threshold))), e, threshold)
  {
    assert (es + [e])[..|es|] == es;
  }

  // ---------------------------------------------------------------- what a history amounts to

  // Versions count emissions, and a record says it was amended exactly when it was.
  lemma {:induction false} FoldCountsEmissions(es: seq<Record>, threshold: real)
    requires es != [] && forall e | e in es :: !e.amended
    ensures Folded(es, threshold).version == |es|
    ensures Folded(es, threshold).amended <==> Folded(es, threshold).version > 1
  {
    if |es| > 1 {
      FoldCountsEmissions(es[..|es| - 1], threshold);
    }
  }

  // Evidence only grows along a history.
  lemma {:induction false} FoldOnlyGrows(es: seq<Record>, k: nat, threshold: real)
    requires 1 <= k <= |es|
    ensures Grew(Folded(es[..k], threshold), Folded(es, threshold))
    decreases |es|
  {
    if k == |es| {
      assert es[..k] == es;
    } else {
      var init := es[..|es| - 1];
      assert init[..k] == es[..k];
      FoldOnlyGrows(init, k, threshold);
      MergeKeepsBothSides(Folded(init, threshold), es[|es| - 1], threshold);
      GrewTransitive(Folded(es[..k], threshold), Folded(init, threshold), Merged(Folded(init, threshold), es[|es| - 1], threshold));
    }
  }

  // No emission's evidence is lost, however late it came.
  lemma {:induction false} FoldHoldsEveryEmission(es: seq<Record>, k: nat, threshold: real)
    requires k < |es|
    ensures Grew(es[k], Folded(es, threshold))
  {
    var upto := es[..k + 1];
    if k > 0 {
      MergeKeepsBothSides(Folded(upto[..k], threshold), es[k], threshold);
    }
    FoldOnlyGrows(es, k + 1, threshold);
    GrewTransitive(es[k], Folded(upto, threshold), Folded(es, threshold));
  }

  // One more emission, field by field.
  lemma FoldStep(es: seq<Record>, threshold: real)
    requires |es| > 1
    ensures var before, last, now := Folded(es[..|es| - 1], threshold), es[|es| - 1], Folded(es, threshold);
      && now.span == MergeSpan(before.span, last.span)
      && now.join == MergeJoin(before.join, last.join)
      && now.vendors == Union(before.vendors, last.vendors)
      && now.verdicts == before.verdicts + last.verdicts
      && now.scores == before.scores + last.scores && now.ruleIDs == before.ruleIDs + last.ruleIDs
      && now.request == MergeRequestShape(last.request, before.request)
  {
  }

  lemma FoldBase(es: seq<Record>, threshold: real)
    requires |es| == 1
    ensures Folded(es, threshold) == es[0].(version := 1)
  {
  }

  // With every emission's times set, the span never opens later than it did.
  lemma {:induction false} FoldKeepsTheEarliestStart(es: seq<Record>, k: nat, threshold: real)
    requires k < |es| && forall e | e in es :: e.span.first > ZERO_TIME && e.span.windowStart > ZERO_TIME
    ensures ZERO_TIME < Folded(es, threshold).span.first <= es[k].span.first
    ensures ZERO_TIME < Folded(es, threshold).span.windowStart <= es[k].span.windowStart
    decreases |es|
  {
    hide Folded;
    if |es| == 1 {
      FoldBase(es, threshold);
    } else {
      var init := es[..|es| - 1];
      FoldStep(es, threshold);
      FoldKeepsTheEarliestStart(init, if k < |init| then k else 0, threshold);
    }
  }

  ghost function AllEventIDs(es: seq<Record>): seq<string> {
    if es == [] then [] else AllEventIDs(es[..|es| - 1]) + es[|es| - 1].eventIDs
  }

  // The stored event list is every emission's events in order of emission, once each.
  lemma {:induction false} FoldListsEveryEventOnce(es: seq<Record>, threshold: real)
    requires es != []
    ensures FreshKeys({""}, Folded(es, threshold).eventIDs) == FreshKeys({""}, AllEventIDs(es))
    ensures |es| > 1 ==> Folded(es, threshold).eventIDs == FreshKeys({""}, AllEventIDs(es))
  {
    var init, last := es[..|es| - 1], es[|es| - 1];
    if |es| == 1 {
      assert AllEventIDs(init) == [];
      assert [] + last.eventIDs == last.eventIDs;
    } else {
      FoldListsEveryEventOnce(init, threshold);
      var before := Folded(init, threshold).eventIDs;
      UnionOfSameKeys(before, AllEventIDs(init), last.eventIDs);
      FreshKeysAbsorb({""}, {""}, AllEventIDs(es));
      assert {""} + {""} == {""};
    }
  }

  lemma UnionOfSameKeys(a: seq<string>, a': seq<string>, b: seq<string>)
    requires FreshKeys({""}, a) == FreshKeys({""}, a')
    ensures Union(a, b) == FreshKeys({""}, a' + b)
  {
    FreshKeysConcat({""}, a, b);
    FreshKeysConcat({""}, a', b);
    FreshKeysShape({""}, a);
    FreshKeysShape({""}, a');
    assert {""} + ToSet(a) == {""} + ToSet(FreshKeys({""}, a));
    assert {""} + ToSet(a') == {""} + ToSet(FreshKeys({""}, a'));
  }

  lemma {:induction false} FoldKeepsVendorsMatched(es: seq<Record>, threshold: real)
    requires es != [] && forall e | e in es :: VendorsMatchVerdicts(e)
    ensures VendorsMatchVerdicts(Folded(es, threshold))
  {
    hide Folded;
    if |es| == 1 {
      FoldBase(es, threshold);
      assert es[0] in es;
    } else {
      var before, last := Folded(es[..|es| - 1], threshold), es[|es| - 1];
      FoldStep(es, threshold);
      FoldKeepsVendorsMatched(es[..|es| - 1], threshold);
      UnionShape(before.vendors, last.vendors);
      assert last in es;
      hide Union;
      var now := Folded(es, threshold);
      assert now.verdicts.Keys == before.verdicts.Keys + last.verdicts.Keys;
      assert ToSet(now.vendors) - {""} == (ToSet(before.vendors) - {""}) + (ToSet(last.vendors) - {""});
    }
  }

  // k is the latest among the emissions of strongest tier.
  ghost predicate LatestStrongest(es: seq<Record>, k: nat) {
    && k < |es|
    && (forall j | 0 <= j < |es| :: TierRank(es[j].join.tier) <= TierRank(es[k].join.tier))
    && (forall j | k < j < |es| :: TierRank(es[j].join.tier) < TierRank(es[k].join.tier))
  }

  // Tier and confidence come from the latest of the strongest closings.
  lemma {:induction false} FoldKeepsTheStrongestJoin(es: seq<Record>, threshold: real) returns (k: nat)
    requires es != []
    ensures LatestStrongest(es, k)
    ensures Folded(es, threshold).join.tier == es[k].join.tier
    ensures Folded(es, threshold).join.confidence == es[k].join.confidence
  {
    hide Folded, Union;
    k := |es| - 1;
    if |es| == 1 {
      FoldBase(es, threshold);
    } else {
      var init := es[..|es| - 1];
      FoldStep(es, threshold);
      var before := FoldKeepsTheStrongestJoin(init, threshold);
      assert forall j | 0 <= j < |init| :: init[j] == es[j];
      if StrongerTier(es[before].join.tier, es[|es| - 1].join.tier) {
        k := before;
      }
    }
  }

  // A vendor's verdict is the one of the latest emission that carries the vendor.
  lemma {:induction false} FoldKeepsTheLatestVerdict(es: seq<Record>, vendor: string, k: nat, threshold: real)
    requires k < |es| && vendor in es[k].verdicts && forall j | k < j < |es| :: vendor !in es[j].verdicts
    ensures vendor in Folded(es, threshold).verdicts
    ensures Folded(es, threshold).verdicts[vendor] == es[k].verdicts[vendor]
    decreases |es|
  {
    hide Folded;
    if |es| == 1 {
      FoldBase(es, threshold);
    } else {
      var init := es[..|es| - 1];
      FoldStep(es, threshold);
      if k < |init| {
        FoldKeepsTheLatestVerdict(init, vendor, k, threshold);
      }
    }
  }

  // So is its score, of the latest emission that carries a score for it, and its deciding rule.
  lemma {:induction false} FoldKeepsTheLatestScore(es: seq<Record>, vendor: string, k: nat, threshold: real)
    requires k < |es| && vendor in es[k].scores && forall j | k < j < |es| :: vendor !in es[j].scores
    ensures vendor in Folded(es, threshold).scores
    ensures Folded(es, threshold).scores[vendor] == es[k].scores[vendor]
    decreases |es|
  {
    hide Folded;
    if |es| == 1 {
      FoldBase(es, threshold);
    } else {
      var init := es[..|es| - 1];
      FoldStep(es, threshold);
      if k < |init| {
        FoldKeepsTheLatestScore(init, vendor, k, threshold);
      }
    }
  }

  lemma {:induction false} FoldKeepsTheLatestRule(es: seq<Record>, vendor: string, k: nat, threshold: real)
    requires k < |es| && vendor in es[k].ruleIDs && forall j | k < j < |es| :: vendor !in es[j].ruleIDs
    ensures vendor in Folded(es, threshold).ruleIDs
    ensures Folded(es, threshold).ruleIDs[vendor] == es[k].ruleIDs[vendor]
    decreases |es|
  {
    hide Folded;
    if |es| == 1 {
      FoldBase(es, threshold);
    } else {
      var init := es[..|es| - 1];
      FoldStep(es, threshold);
      if k < |init| {
        FoldKeepsTheLatestRule(init, vendor, k, threshold);
      }
    }
  }

  // Nothing is stored for a vendor that no emission carries.
  lemma {:induction false} FoldInventsNothing(es: seq<Record>, vendor: string, threshold: real)
    requires es != []
    ensures vendor in Folded(es, threshold).verdicts ==> exists e :: e in es && vendor in e.verdicts
    ensures vendor in Folded(es, threshold).scores ==> exists e :: e in es && vendor in e.scores
    ensures vendor in Folded(es, threshold).ruleIDs ==> exists e :: e in es && vendor in e.ruleIDs
  {
    hide Folded;
    if |es| == 1 {
      FoldBase(es, threshold);
      assert es[0] in es;
    } else {
      var init, last := es[..|es| - 1], es[|es| - 1];
      FoldStep(es, threshold);
      FoldInventsNothing(init, vendor, threshold);
      assert last in es && forall e | e in init :: e in es;
    }
  }

  // Every field of the request is that of the latest emission that reports it.
  lemma {:induction false} FoldKeepsTheLatestReport(es: seq<Record>, field: Field, k: nat, threshold: real)
    requires k < |es| && Reported(es[k].request, field).Some?
    requires forall j | k < j < |es| :: Reported(es[j].request, field).None?
    ensures Reported(Folded(es, threshold).request, field) == Reported(es[k].request, field)
    decreases |es|
  {
    hide Folded;
    if |es| == 1 {
      FoldBase(es, threshold);
    } else {
      var init, last := es[..|es| - 1], es[|es| - 1];
      FoldStep(es, threshold);
      MergedReport(Folded(init, threshold).request, last.request, field);
      if k < |init| {
        FoldKeepsTheLatestReport(init, field, k, threshold);
      }
    }
  }

  lemma MergedReport(stored: Request, late: Request, field: Field)
    ensures Reported(MergeRequestShape(late, stored), field)
         == if Reported(late, field).Some? then Reported(late, field) else Reported(stored, field)
  {
  }

  // The stored outcome is always the classification of the stored verdicts, once amended.
  lemma FoldOutcomeIsCurrent(es: seq<Record>, threshold: real)
    requires |es| > 1
    ensures var r := Folded(es, threshold);
      r.outcome == OutcomeOf(r.verdicts, r.scores, threshold)
  {
  }

  // ---------------------------------------------------------------- the run, in one statement

  // Distinct ids within each batch: then every emission is the one its batch leaves behind.
  ghost predicate DistinctIDs(batches: seq<Batch>) {
    forall k, i, j | 0 <= k < |batches| && 0 <= i < j < |batches[k].emitted| ::
      batches[k].emitted[i].correlationID != batches[k].emitted[j].correlationID
  }

  ghost function CountEmissions(emitted: seq<Record>, id: string): nat {
    if emitted == [] then 0
    else CountEmissions(emitted[..|emitted| - 1], id) + (if emitted[|emitted| - 1].correlationID == id then 1 else 0)
  }

  ghost function TotalEmissions(batches: seq<Batch>, id: string): nat {
    if batches == [] then 0
    else TotalEmissions(batches[..|batches| - 1], id) + CountEmissions(batches[|batches| - 1].emitted, id)
  }

  lemma {:induction false} DistinctBatchMentionsOnce(emitted: seq<Record>, id: string)
    requires forall i, j | 0 <= i < j < |emitted| :: emitted[i].correlationID != emitted[j].correlationID
    ensures CountEmissions(emitted, id) == if LastEmission(emitted, id).Some? then 1 else 0
  {
    if emitted != [] {
      var init := emitted[..|emitted| - 1];
      DistinctBatchMentionsOnce(init, id);
      if emitted[|emitted| - 1].correlationID == id && LastEmission(init, id).Some? {
        LastEmissionIsEmitted(init, id);
      }
    }
  }

  lemma {:induction false} DistinctRunKeepsEveryEmission(batches: seq<Batch>, id: string)
    requires DistinctIDs(batches)
    ensures |Emissions(batches, id)| == TotalEmissions(batches, id)
  {
    if batches != [] {
      DistinctRunKeepsEveryEmission(batches[..|batches| - 1], id);
      DistinctBatchMentionsOnce(batches[|batches| - 1].emitted, id);
    }
  }

  lemma {:induction false} EmissionsAreEmitted(batches: seq<Batch>, id: string, e: Record)
    requires e in Emissions(batches, id)
    ensures e.correlationID == id && exists k | 0 <= k < |batches| :: e in batches[k].emitted
  {
    var init, last := batches[..|batches| - 1], batches[|batches| - 1];
    if LastEmission(last.emitted, id).Some? && e == LastEmission(last.emitted, id).value {
      LastEmissionIsEmitted(last.emitted, id);
    } else {
      EmissionsAreEmitted(init, id, e);
    }
  }

  lemma ReachedVersionsCount(batches: seq<Batch>, threshold: real, id: string)
    requires RunInReach(batches, threshold) && DistinctIDs(batches)
    requires forall k, e | 0 <= k < |batches| && e in batches[k].emitted :: !e.amended
    requires TotalEmissions(batches, id) > 0
    ensures var row := Newest(RunRows(batches, threshold), id);
      row.Some? && row.value.version == row.value.value.version == TotalEmissions(batches, id)
      && (row.value.value.amended <==> row.value.version > 1)
  {
    ReachedRunIsFold(batches, threshold, id);
    DistinctRunKeepsEveryEmission(batches, id);
    var es := Emissions(batches, id);
    forall e | e in es ensures !e.amended {
      EmissionsAreEmitted(batches, id, e);
    }
    FoldCountsEmissions(es, threshold);
  }

  lemma ReachedRunOnlyGains(batches: seq<Batch>, k: nat, threshold: real, id: string)
    requires RunInReach(batches, threshold) && k <= |batches|
    requires Newest(RunRows(batches[..k], threshold), id).Some?
    ensures Newest(RunRows(batches, threshold), id).Some?
    ensures Grew(Newest(RunRows(batches[..k], threshold), id).value.value,
                 Newest(RunRows(batches, threshold), id).value.value)
  {
    hide *;
    PrefixInReach(batches, k, threshold);
    ReachedRunIsFold(batches[..k], threshold, id);
    ReachedRunIsFold(batches, threshold, id);
    EmissionsPrefix(batches, k, id);
    var early, all := Emissions(batches[..k], id), Emissions(batches, id);
    assert all[..|early|] == early;
    FoldOnlyGrows(all, |early|, threshold);
  }

  lemma PrefixInReach(batches: seq<Batch>, k: nat, threshold: real)
    requires RunInReach(batches, threshold) && k <= |batches|
    ensures RunInReach(batches[..k], threshold)
  {
    forall j | 0 <= j < k ensures InReach(RunRows(batches[..k][..j], threshold), batches[..k][j]) {
      assert batches[..k][..j] == batches[..j];
    }
  }

  lemma {:induction false} EmissionsPrefix(batches: seq<Batch>, k: nat, id: string)
    requires k <= |batches|
    ensures Emissions(batches[..k], id) <= Emissions(batches, id)
    decreases |batches|
  {
    if k < |batches| {
      var init := batches[..|batches| - 1];
      assert init[..k] == batches[..k];
      EmissionsPrefix(init, k, id);
    } else {
      assert batches[..k] == batches;
    }
  }

  // ---------------------------------------------------------------- runs within the slack

  // What a close pass gives: every batch is looked up under its own partition bound, and the
  // emissions of one id from different batches open within the slack of each other.
  ghost predicate RunWithinSlack(batches: seq<Batch>, lateness: Time) {
    && (forall k | 0 <= k < |batches| :: IsPartitionBound(batches[k].bound, batches[k].emitted, lateness))
    && (forall j, k, a, b | 0 <= j < k < |batches| && a in batches[j].emitted && b in batches[k].emitted ::
          a.correlationID == b.correlationID ==> Near(a, b, lateness))
  }

  predicate Near(a: Record, b: Record, lateness: Time) {
    b.span.windowStart - Slack(lateness) <= a.span.windowStart <= b.span.windowStart + Slack(lateness)
  }

  // A stored window start is that of one of the emissions behind the record.
  lemma {:induction false} FoldStartsWithAnEmission(es: seq<Record>, threshold: real) returns (k: nat)
    requires es != []
    ensures k < |es| && Folded(es, threshold).span.windowStart == es[k].span.windowStart
  {
    hide Folded;
    k := |es| - 1;
    if |es| == 1 {
      FoldBase(es, threshold);
    } else {
      FoldStep(es, threshold);
      var before := FoldStartsWithAnEmission(es[..|es| - 1], threshold);
      if Folded(es, threshold).span.windowStart != es[k].span.windowStart {
        k := before;
      }
    }
  }

  // Such a run stays in reach: no amendment misses the record it amends.
  lemma {:induction false} RunWithinSlackIsInReach(batches: seq<Batch>, lateness: Time, threshold: real)
    requires RunWithinSlack(batches, lateness)
    ensures RunInReach(batches, threshold)
  {
    hide *;
    if batches == [] {
      NoBatches(threshold);
    } else {
      var init, last := batches[..|batches| - 1], batches[|batches| - 1];
      InitWithinSlack(batches, lateness);
      RunWithinSlackIsInReach(init, lateness, threshold);
      forall e | e in last.emitted
        ensures Reached(RunRows(init, threshold), last.bound, e.correlationID)
      {
        EmissionIsInReach(batches, lateness, threshold, e);
      }
      LastInReach(batches, threshold);
    }
  }

  ghost predicate Reached(rows: Rows, bound: Bound, id: string) {
    Newest(rows, id).None? || Covers(bound, Newest(rows, id).value.value)
  }

  lemma NoBatches(threshold: real)
    ensures RunInReach([], threshold)
  {
  }

  lemma InitWithinSlack(batches: seq<Batch>, lateness: Time)
    requires RunWithinSlack(batches, lateness) && batches != []
    ensures RunWithinSlack(batches[..|batches| - 1], lateness)
  {
    hide Near, IsPartitionBound;
  }

  lemma LastInReach(batches: seq<Batch>, threshold: real)
    requires batches != [] && RunInReach(batches[..|batches| - 1], threshold)
    requires forall e | e in batches[|batches| - 1].emitted ::
      Reached(RunRows(batches[..|batches| - 1], threshold), batches[|batches| - 1].bound, e.correlationID)
    ensures RunInReach(batches, threshold)
  {
    hide RunRows, Newest, Covers;
    forall k | 0 <= k < |batches| ensures InReach(RunRows(batches[..k], threshold), batches[k]) {
      var init := batches[..|batches| - 1];
      if k < |init| {
        assert init[..k] == batches[..k];
        assert InReach(RunRows(init[..k], threshold), init[k]);
      }
    }
  }

  lemma EmissionIsInReach(batches: seq<Batch>, lateness: Time, threshold: real, e: Record)
    requires RunWithinSlack(batches, lateness) && batches != [] && e in batches[|batches| - 1].emitted
    requires RunInReach(batches[..|batches| - 1], threshold)
    ensures Reached(RunRows(batches[..|batches| - 1], threshold), batches[|batches| - 1].bound, e.correlationID)
  {
    hide RunRows, RunInReach, Newest, Covers, Folded, Emissions, IsPartitionBound;
    var init, last, id := batches[..|batches| - 1], batches[|batches| - 1], e.correlationID;
    ReachedRunIsFold(init, threshold, id);
    var es := Emissions(init, id);
    if es != [] {
      var k := FoldStartsWithAnEmission(es, threshold);
      EmissionsAreEmitted(init, id, es[k]);
      var j :| 0 <= j < |init| && es[k] in init[j].emitted;
      assert init[j] == batches[j];
      assert Near(es[k], e, lateness);
      SlackIsCovered(last.bound, last.emitted, lateness, e, Folded(es, threshold));
    }
  }

  // After every run of a close pass within the slack, the newest record of an id is the fold of its
  // emissions.
  lemma RunIsFold(batches: seq<Batch>, lateness: Time, threshold: real, id: string)
    requires RunWithinSlack(batches, lateness)
    ensures Newest(RunRows(batches, threshold), id)
         == if Emissions(batches, id) == [] then None
            else Some(Row(id, Folded(Emissions(batches, id), threshold).version, Folded(Emissions(batches, id), threshold)))
  {
    hide *;
    RunWithinSlackIsInReach(batches, lateness, threshold);
    ReachedRunIsFold(batches, threshold, id);
  }

  // Over every such run with distinct ids per batch, the newest version is the number of times the
  // id was emitted, and the amended flag says whether that is more than once.
  lemma VersionsCountEmissions(batches: seq<Batch>, lateness: Time, threshold: real, id: string)
    requires RunWithinSlack(batches, lateness) && DistinctIDs(batches)
    requires forall k, e | 0 <= k < |batches| && e in batches[k].emitted :: !e.amended
    requires TotalEmissions(batches, id) > 0
    ensures var row := Newest(RunRows(batches, threshold), id);
      row.Some? && row.value.version == row.value.value.version == TotalEmissions(batches, id)
      && (row.value.value.amended <==> row.value.version > 1)
  {
    hide *;
    RunWithinSlackIsInReach(batches, lateness, threshold);
    ReachedVersionsCount(batches, threshold, id);
  }

  // Between any two moments of such a run, the record of an id only gains evidence.
  lemma RunOnlyGainsEvidence(batches: seq<Batch>, lateness: Time, k: nat, threshold: real, id: string)
    requires RunWithinSlack(batches, lateness) && k <= |batches|
    requires Newest(RunRows(batches[..k], threshold), id).Some?
    ensures Newest(RunRows(batches, threshold), id).Some?
    ensures Grew(Newest(RunRows(batches[..k], threshold), id).value.value,
                 Newest(RunRows(batches, threshold), id).value.value)
  {
    hide *;
    RunWithinSlackIsInReach(batches, lateness, threshold);
    ReachedRunOnlyGains(batches, k, threshold, id);
  }
}
