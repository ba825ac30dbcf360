// How events are filed into windows (backend/internal/correlate/batch.go and keys/keys.go), and
// what the closer's closure therefore is: whole components of events that share identifiers.

module Filing {
  import opened Collections
  import opened Wrappers
  import opened Text
  import opened Windows
  import PartnerWalk

  // A decoded event. heuristic is the tier-2 key text, absent when the event has no client
  // address or no host.
  datatype Event = Event(tenant: string, member: Member, heuristic: Option<string>)

  datatype Write = Write(tenant: string, key: string, member: Member, scheduleAt: Option<int>)

  // keys.Identifiers: every exact key an event is filed under.
  function FiledIdentifiers(tenant: string, m: Member): seq<string> {
    var exact := if TrimSpace(m.vendorRequestID) == "" then [] else [ExactKeyValue(tenant, m.vendorRequestID)];
    var linked := ExactKeyValue(tenant, m.linkedRequestID);
    if TrimSpace(m.linkedRequestID) != "" && (exact == [] || linked != exact[0]) then exact + [linked] else exact
  }

  // The request ids a member carries: its own and the linked one, trimmed, blanks left out.
  function RequestIDs(m: Member): set<string> {
    {TrimSpace(m.vendorRequestID), TrimSpace(m.linkedRequestID)} - {""}
  }

  // Both carry one request id.
  ghost predicate Shares(a: Member, b: Member) {
    exists id :: id in RequestIDs(a) && id in RequestIDs(b)
  }

  // A bucket key names one request id of one tenant.
  lemma KeyNamesItsRequest(tenant: string, a: string, b: string)
    ensures ExactKeyValue(tenant, a) == ExactKeyValue(tenant, b) <==> TrimSpace(a) == TrimSpace(b)
  {
    hide TrimSpace;
    var prefix := "t1|" + tenant + "|";
    assert ExactKeyValue(tenant, a)[|prefix|..] == TrimSpace(a);
    assert ExactKeyValue(tenant, b)[|prefix|..] == TrimSpace(b);
  }

  // A member is filed under the key of a request id exactly when it carries that id.
  lemma FiledExactlyUnder(tenant: string, m: Member, requestID: string)
    ensures ExactKeyValue(tenant, requestID) in FiledIdentifiers(tenant, m) <==> TrimSpace(requestID) in RequestIDs(m)
    ensures forall k | k in FiledIdentifiers(tenant, m) ::
      k == ExactKeyValue(tenant, m.vendorRequestID) || k == ExactKeyValue(tenant, m.linkedRequestID)
  {
    hide TrimSpace, ExactKeyValue;
    KeyNamesItsRequest(tenant, requestID, m.vendorRequestID);
    KeyNamesItsRequest(tenant, requestID, m.linkedRequestID);
    KeyNamesItsRequest(tenant, m.linkedRequestID, m.vendorRequestID);
  }

  // Two members are filed in one bucket exactly when they carry one request id.
  lemma OneBucketExactlyWhen(tenant: string, a: Member, b: Member)
    ensures (exists k :: k in FiledIdentifiers(tenant, a) && k in FiledIdentifiers(tenant, b)) <==> Shares(a, b)
  {
    hide TrimSpace, ExactKeyValue, FiledIdentifiers, RequestIDs;
    if k :| k in FiledIdentifiers(tenant, a) && k in FiledIdentifiers(tenant, b) {
      FiledExactlyUnder(tenant, a, a.vendorRequestID);
      FiledExactlyUnder(tenant, a, a.linkedRequestID);
      FiledExactlyUnder(tenant, b, a.vendorRequestID);
      FiledExactlyUnder(tenant, b, a.linkedRequestID);
    }
    if id :| id in RequestIDs(a) && id in RequestIDs(b) {
      CarriedIsTrimmed(a, id);
      FiledExactlyUnder(tenant, a, id);
      FiledExactlyUnder(tenant, b, id);
    }
  }

  lemma CarriedIsTrimmed(m: Member, id: string)
    requires id in RequestIDs(m)
    ensures TrimSpace(id) == id
  {
    TrimTwice(m.vendorRequestID);
    TrimTwice(m.linkedRequestID);
    hide TrimSpace;
  }

  function ClosingKey(e: Event): string {
    match e.heuristic
    case Some(value) => "t2|" + value
    case None => "solo|" + e.member.eventID
  }

  predicate IsExactKey(key: string) {
    "t1|" <= key
  }

  function LookupWrites(tenant: string, m: Member, keys: seq<string>): seq<Write> {
    if keys == [] then [] else [Write(tenant, keys[0], m, None)] + LookupWrites(tenant, m, keys[1..])
  }

  // writesFor: the exact buckets, never scheduled, then the one window that closes.
  function WritesFor(e: Event): seq<Write> {
    LookupWrites(e.tenant, e.member, FiledIdentifiers(e.tenant, e.member))
    + [Write(e.tenant, ClosingKey(e), e.member, Some(e.member.eventTime))]
  }

  // decodeEvent: undecodable records and events without identity are skipped.
  predicate Usable(record: Option<Event>) {
    record.Some? && record.value.member.eventID != "" && record.value.tenant != ""
  }

  ghost function BatchWrites(records: seq<Option<Event>>): seq<Write> {
    if records == [] then []
    else
      var init, last := BatchWrites(records[..|records| - 1]), records[|records| - 1];
      if Usable(last) then init + WritesFor(last.value) else init
  }

  // ---------------------------------------------------------------- the window store

  function Pushed(lists: Lists, w: Write): Lists {
    var at := Scheduled(w.tenant, w.key);
    lists[at := (if at in lists then lists[at] else []) + [w.member]]
  }

  ghost function PushAll(lists: Lists, writes: seq<Write>): Lists {
    if writes == [] then lists else Pushed(PushAll(lists, writes[..|writes| - 1]), writes[|writes| - 1])
  }

  // The writes at the given positions.
  ghost function Applied(writes: seq<Write>, at: set<nat>): seq<Write> {
    if writes == [] then []
    else
      var init, i := Applied(writes[..|writes| - 1], at), |writes| - 1;
      if i in at then init + [writes[i]] else init
  }

  lemma AppliedStep(writes: seq<Write>, i: nat, at: set<nat>)
    requires i < |writes|
    ensures Applied(writes[..i + 1], at)
         == if i in at then Applied(writes[..i], at) + [writes[i]] else Applied(writes[..i], at)
  {
    assert writes[..i + 1][..i] == writes[..i];
  }

  lemma PushSnoc(lists: Lists, writes: seq<Write>, w: Write)
    ensures PushAll(lists, writes + [w]) == Pushed(PushAll(lists, writes), w)
  {
    assert (writes + [w])[..|writes|] == writes;
  }

  type Schedule = map<Scheduled, int>

  // Scheduling a window again moves its deadline.
  ghost function ScheduleAll(schedule: Schedule, writes: seq<Write>, lag: nat): Schedule {
    if writes == [] then schedule
    else
      var before, w := ScheduleAll(schedule, writes[..|writes| - 1], lag), writes[|writes| - 1];
      if w.scheduleAt.Some? then before[Scheduled(w.tenant, w.key) := w.scheduleAt.value + lag] else before
  }

  lemma ScheduleSnoc(schedule: Schedule, writes: seq<Write>, w: Write, lag: nat)
    ensures ScheduleAll(schedule, writes + [w], lag)
         == var before := ScheduleAll(schedule, writes, lag);
            if w.scheduleAt.Some? then before[Scheduled(w.tenant, w.key) := w.scheduleAt.value + lag] else before
  {
    assert (writes + [w])[..|writes|] == writes;
  }

  lemma {:induction false} ScheduleAllAdds(schedule: Schedule, writes: seq<Write>, lag: nat, s: Scheduled)
    ensures s in ScheduleAll(schedule, writes, lag) <==>
      s in schedule || exists w | w in writes :: w.scheduleAt.Some? && s == Scheduled(w.tenant, w.key)
  {
    if writes != [] {
      var init, last := writes[..|writes| - 1], writes[|writes| - 1];
      ScheduleAllAdds(schedule, init, lag, s);
      assert writes == init + [last];
    }
  }

  // A pipelined call that fails may have applied any of its commands. The schedule is written after
  // the members, so a failure among the appends has scheduled nothing.
  datatype Failure = InAppends(applied: set<nat>) | InSchedule(applied: set<nat>)

  ghost function AppendedBy(writes: seq<Write>, failure: Option<Failure>): seq<Write> {
    if failure.Some? && failure.value.InAppends? then Applied(writes, failure.value.applied) else writes
  }

  ghost function ScheduledBy(writes: seq<Write>, failure: Option<Failure>): seq<Write> {
    match failure
    case None => writes
    case Some(InAppends(_)) => []
    case Some(InSchedule(applied)) => Applied(writes, applied)
  }

  lemma NothingApplied(lists: Lists, schedule: Schedule, at: set<nat>, lag: nat)
    ensures Applied([], at) == [] && PushAll(lists, []) == lists && ScheduleAll(schedule, [], lag) == schedule
  {
  }

  class WindowStore {
    var lists: Lists
    var schedule: Schedule

    constructor ()
      ensures lists == map[] && schedule == map[]
    {
      lists, schedule := map[], map[];
    }

    // RPushMany and ZAddMany; of a failing call, the commands at the given positions went through.
    method PushMany(writes: seq<Write>, failed: bool, applied: set<nat>)
      modifies this`lists
      ensures lists == PushAll(old(lists), if failed then Applied(writes, applied) else writes)
    {
      hide *;
      NothingApplied(lists, schedule, applied, 0);
      assert writes[..|writes|] == writes && writes[..0] == [];
      for i := 0 to |writes|
        invariant lists == PushAll(old(lists), if failed then Applied(writes[..i], applied) else writes[..i])
      {
        AppliedStep(writes, i, applied);
        PushSnoc(old(lists), writes[..i], writes[i]);
        PushSnoc(old(lists), Applied(writes[..i], applied), writes[i]);
        assert writes[..i + 1] == writes[..i] + [writes[i]];
        if !failed || i in applied {
          lists := Pushed(lists, writes[i]);
        }
      }
    }

    method ScheduleMany(writes: seq<Write>, lag: nat, failed: bool, applied: set<nat>)
      modifies this`schedule
      ensures schedule == ScheduleAll(old(schedule), if failed then Applied(writes, applied) else writes, lag)
    {
      hide *;
      NothingApplied(map[], schedule, applied, lag);
      assert writes[..|writes|] == writes && writes[..0] == [];
      for i := 0 to |writes|
        invariant schedule == ScheduleAll(old(schedule), if failed then Applied(writes[..i], applied) else writes[..i], lag)
      {
        AppliedStep(writes, i, applied);
        ScheduleSnoc(old(schedule), writes[..i], writes[i], lag);
        ScheduleSnoc(old(schedule), Applied(writes[..i], applied), writes[i], lag);
        assert writes[..i + 1] == writes[..i] + [writes[i]];
        var w := writes[i];
        if w.scheduleAt.Some? && (!failed || i in applied) {
          schedule := schedule[Scheduled(w.tenant, w.key) := w.scheduleAt.value + lag];
        }
      }
    }

    // AddBatch: all the members, then all the deadlines.
    method AddBatch(writes: seq<Write>, lag: nat, failure: Option<Failure>) returns (ok: bool)
      modifies this
      ensures ok <==> failure.None? || writes == []
      ensures lists == PushAll(old(lists), AppendedBy(writes, failure))
      ensures schedule == ScheduleAll(old(schedule), ScheduledBy(writes, failure), lag)
    {
      if writes == [] {
        return true;
      }
      match failure
      case Some(InAppends(applied)) =>
        PushMany(writes, true, applied);
        return false;
      case Some(InSchedule(applied)) =>
        PushMany(writes, false, {});
        ScheduleMany(writes, lag, true, applied);
        return false;
      case None =>
        PushMany(writes, false, {});
        ScheduleMany(writes, lag, false, {});
        return true;
    }

    // HandleBatch: files a whole fetch. After a failure the offsets stay uncommitted and the same
    // records are delivered again.
    method HandleBatch(records: seq<Option<Event>>, lag: nat, failure: Option<Failure>) returns (ok: bool)
      modifies this
      ensures ok <==> failure.None? || BatchWrites(records) == []
      ensures lists == PushAll(old(lists), AppendedBy(BatchWrites(records), failure))
      ensures schedule == ScheduleAll(old(schedule), ScheduledBy(BatchWrites(records), failure), lag)
      ensures forall s | s in schedule && s !in old(schedule) :: !IsExactKey(s.key)
    {
      var writes := [];
      for i := 0 to |records|
        invariant writes == BatchWrites(records[..i])
        invariant lists == old(lists) && schedule == old(schedule)
      {
        assert records[..i + 1][..i] == records[..i];
        if Usable(records[i]) {
          writes := writes + WritesFor(records[i].value);
        }
      }
      assert records[..|records|] == records;
      hide *;
      ok := AddBatch(writes, lag, failure);
      forall s | s in schedule && s !in old(schedule) ensures !IsExactKey(s.key) {
        ScheduleAllAdds(old(schedule), ScheduledBy(writes, failure), lag, s);
        var w :| w in ScheduledBy(writes, failure) && w.scheduleAt.Some? && s == Scheduled(w.tenant, w.key);
        ScheduledByIsPart(writes, failure, w);
        BatchWritesShape(records, w);
      }
    }
  }

  lemma {:induction false} AppliedIsPart(writes: seq<Write>, at: set<nat>, w: Write)
    requires w in Applied(writes, at)
    ensures w in writes
  {
    var init, last := writes[..|writes| - 1], writes[|writes| - 1];
    if w != last {
      AppliedIsPart(init, at, w);
    }
  }

  lemma ScheduledByIsPart(writes: seq<Write>, failure: Option<Failure>, w: Write)
    requires w in ScheduledBy(writes, failure)
    ensures w in writes
  {
    hide Applied;
    if failure.Some? {
      AppliedIsPart(writes, failure.value.applied, w);
    }
  }

  lemma {:induction false} LookupWritesShape(tenant: string, m: Member, keys: seq<string>, w: Write)
    ensures w in LookupWrites(tenant, m, keys)
       <==> w.tenant == tenant && w.member == m && w.scheduleAt == None && w.key in keys
  {
    if keys != [] {
      LookupWritesShape(tenant, m, keys[1..], w);
      assert w.key in keys <==> w.key == keys[0] || w.key in keys[1..];
    }
  }

  // The writes of an event: one per identifier it is known by and one closing window.
  lemma WritesForShape(e: Event, w: Write)
    ensures w in WritesFor(e) <==>
      || (w == Write(e.tenant, w.key, e.member, None) && w.key in FiledIdentifiers(e.tenant, e.member))
      || w == Write(e.tenant, ClosingKey(e), e.member, Some(e.member.eventTime))
  {
    LookupWritesShape(e.tenant, e.member, FiledIdentifiers(e.tenant, e.member), w);
  }

  // An event is written once under each request id it carries and once under its closing window,
  // which is the only write that schedules.
  lemma WrittenOncePerRequest(e: Event)
    ensures |WritesFor(e)| == |RequestIDs(e.member)| + 1
    ensures WritesFor(e)[|RequestIDs(e.member)|] == Write(e.tenant, ClosingKey(e), e.member, Some(e.member.eventTime))
    ensures forall i | 0 <= i < |RequestIDs(e.member)| :: WritesFor(e)[i].scheduleAt.None?
    ensures forall requestID ::
      (Write(e.tenant, ExactKeyValue(e.tenant, requestID), e.member, None) in WritesFor(e)
       <==> TrimSpace(requestID) in RequestIDs(e.member))
  {
    FiledOnce(e.tenant, e.member);
    var ids := FiledIdentifiers(e.tenant, e.member);
    LookupLength(e.tenant, e.member, ids);
    hide TrimSpace, ExactKeyValue, FiledIdentifiers, RequestIDs;
    var lookups := LookupWrites(e.tenant, e.member, ids);
    forall i | 0 <= i < |lookups| ensures lookups[i].scheduleAt.None? {
      LookupWritesShape(e.tenant, e.member, ids, lookups[i]);
    }
    forall requestID
      ensures Write(e.tenant, ExactKeyValue(e.tenant, requestID), e.member, None) in WritesFor(e)
        <==> TrimSpace(requestID) in RequestIDs(e.member)
    {
      WritesForShape(e, Write(e.tenant, ExactKeyValue(e.tenant, requestID), e.member, None));
      FiledExactlyUnder(e.tenant, e.member, requestID);
    }
  }

  lemma {:induction false} LookupLength(tenant: string, m: Member, keys: seq<string>)
    ensures |LookupWrites(tenant, m, keys)| == |keys|
  {
    if keys != [] {
      LookupLength(tenant, m, keys[1..]);
    }
  }

  // No request id is filed twice, although it may be carried twice.
  lemma FiledOnce(tenant: string, m: Member)
    ensures |FiledIdentifiers(tenant, m)| == |RequestIDs(m)|
  {
    KeyNamesItsRequest(tenant, m.linkedRequestID, m.vendorRequestID);
    hide TrimSpace, ExactKeyValue;
    var own, linked := TrimSpace(m.vendorRequestID), TrimSpace(m.linkedRequestID);
    if own == "" && linked == "" {
      assert RequestIDs(m) == {};
    } else if own == "" || linked == "" || own == linked {
      assert RequestIDs(m) == {if own == "" then linked else own};
    } else {
      assert RequestIDs(m) == {own, linked};
    }
  }

  // Two events close in one window exactly when they have one heuristic key, or neither has one and
  // they are one event.
  lemma ClosingKeyTells(e: Event, f: Event)
    ensures ClosingKey(e) == ClosingKey(f) <==>
      e.heuristic == f.heuristic && (e.heuristic.None? ==> e.member.eventID == f.member.eventID)
    ensures !IsExactKey(ClosingKey(e))
  {
    assert e.heuristic.Some? ==> ClosingKey(e)[3..] == e.heuristic.value;
    assert f.heuristic.Some? ==> ClosingKey(f)[3..] == f.heuristic.value;
    assert e.heuristic.None? ==> ClosingKey(e)[5..] == e.member.eventID;
    assert f.heuristic.None? ==> ClosingKey(f)[5..] == f.member.eventID;
    assert ClosingKey(e)[0] == if e.heuristic.Some? then 't' else 's';
    assert ClosingKey(f)[0] == if f.heuristic.Some? then 't' else 's';
    assert e.heuristic.Some? ==> ClosingKey(e)[1] == '2';
  }

  lemma {:induction false} BatchWritesShape(records: seq<Option<Event>>, w: Write)
    ensures w in BatchWrites(records) <==> exists r | r in records :: Usable(r) && w in WritesFor(r.value)
    ensures w in BatchWrites(records) && w.scheduleAt.Some? ==> !IsExactKey(w.key)
  {
    if records != [] {
      var init, last := records[..|records| - 1], records[|records| - 1];
      BatchWritesShape(init, w);
      assert records == init + [last];
      if Usable(last) {
        WritesForShape(last.value, w);
        assert ClosingKey(last.value)[1] != '1';
      }
    }
  }

  // ---------------------------------------------------------------- the filing invariant

  ghost function Listed(lists: Lists, tenant: string, key: string): seq<Member> {
    if Scheduled(tenant, key) in lists then lists[Scheduled(tenant, key)] else []
  }

  ghost predicate InExactBucket(lists: Lists, tenant: string, key: string, m: Member) {
    IsExactKey(key) && m in Listed(lists, tenant, key)
  }

  // An exact bucket holds only members known by its identifier, and holds every stored member
  // known by it except those still being filed.
  ghost predicate FiledExcept(lists: Lists, pending: set<(string, Member)>) {
    && (forall tenant, key, m | InExactBucket(lists, tenant, key, m) :: key in FiledIdentifiers(tenant, m))
    && (forall tenant, key, m | m in PartnerWalk.StoredMembers(lists, tenant)
          && (tenant, m) !in pending && key in FiledIdentifiers(tenant, m) ::
          m in Listed(lists, tenant, key))
  }

  // Every event is in the bucket of each of its identifiers.
  ghost predicate Filed(lists: Lists) {
    FiledExcept(lists, {})
  }

  ghost function BatchEvents(records: seq<Option<Event>>): set<(string, Member)> {
    set r | r in records && Usable(r) :: (r.value.tenant, r.value.member)
  }

  lemma PushedContains(lists: Lists, w: Write, tenant: string, key: string, m: Member)
    ensures m in Listed(Pushed(lists, w), tenant, key) <==>
      m in Listed(lists, tenant, key) || (w.tenant == tenant && w.key == key && w.member == m)
    ensures m in PartnerWalk.StoredMembers(Pushed(lists, w), tenant) <==>
      m in PartnerWalk.StoredMembers(lists, tenant) || (w.tenant == tenant && w.member == m)
  {
    var at := Scheduled(w.tenant, w.key);
    var after := Pushed(lists, w);
    assert after[at] == Listed(lists, w.tenant, w.key) + [w.member];
    assert w.member in after[at];
    if m in PartnerWalk.StoredMembers(lists, tenant) {
      var k :| k in lists && k.tenant == tenant && m in lists[k];
      assert m in after[k];
    }
    if m in PartnerWalk.StoredMembers(after, tenant) && !(w.tenant == tenant && w.member == m) {
      var k :| k in after && k.tenant == tenant && m in after[k];
      assert k in lists && m in lists[k];
    }
  }

  // One append of a batch keeps every event outside that batch filed as it was.
  lemma PushKeepsFiledExcept(lists: Lists, w: Write, records: seq<Option<Event>>, pending: set<(string, Member)>)
    requires FiledExcept(lists, pending) && BatchEvents(records) <= pending && w in BatchWrites(records)
    ensures FiledExcept(Pushed(lists, w), pending)
  {
    var after := Pushed(lists, w);
    BatchWritesShape(records, w);
    var r :| r in records && Usable(r) && w in WritesFor(r.value);
    WritesForShape(r.value, w);
    assert (w.tenant, w.member) in BatchEvents(records);
    forall tenant, key, m | InExactBucket(after, tenant, key, m) ensures key in FiledIdentifiers(tenant, m) {
      PushedContains(lists, w, tenant, key, m);
      if !InExactBucket(lists, tenant, key, m) {
        BatchWritesShape(records, w);
      }
    }
    forall tenant, key, m | m in PartnerWalk.StoredMembers(after, tenant)
        && (tenant, m) !in pending && key in FiledIdentifiers(tenant, m)
      ensures m in Listed(after, tenant, key)
    {
      PushedContains(lists, w, tenant, key, m);
    }
  }

  // ---------------------------------------------------------------- batches in flight

  type Records = seq<Option<Event>>

  ghost predicate OfBatches(ws: seq<Write>, batches: set<Records>) {
    forall w | w in ws :: exists b | b in batches :: w in BatchWrites(b)
  }

  // Every write of the batch has gone through.
  ghost predicate Complete(ws: seq<Write>, b: Records) {
    forall w | w in BatchWrites(b) :: w in ws
  }

  // What is pending once the writes went through: every unfinished batch, and what was pending
  // before but for the events of finished batches.
  ghost function Unfinished(ws: seq<Write>, batches: set<Records>, before: set<(string, Member)>): set<(string, Member)> {
    (set x | x in before && forall b | b in batches && Complete(ws, b) :: x !in BatchEvents(b))
    + (set b, x | b in batches && !Complete(ws, b) && x in BatchEvents(b) :: x)
  }

  // Several workers, each with a batch of its own, write in any order, repeat what they wrote and
  // break off anywhere: only the events of batches no one has finished are filed in part.
  lemma AnyInterleavingFiles(lists: Lists, ws: seq<Write>, batches: set<Records>, before: set<(string, Member)>)
    requires FiledExcept(lists, before) && OfBatches(ws, batches)
    ensures FiledExcept(PushAll(lists, ws), Unfinished(ws, batches, before))
  {
    hide FiledIdentifiers, PushAll, BatchWrites, BatchEvents, PartnerWalk.StoredMembers, Listed, IsExactKey;
    var after, pending := PushAll(lists, ws), Unfinished(ws, batches, before);
    forall tenant, key, m | InExactBucket(after, tenant, key, m) ensures key in FiledIdentifiers(tenant, m) {
      PushAllContains(lists, ws, tenant, key, m);
      if m in Listed(lists, tenant, key) {
        assert InExactBucket(lists, tenant, key, m);
      } else {
        var w :| w in ws && w.tenant == tenant && w.key == key && w.member == m;
        WriteIsOfItsKey(w, batches, ws);
      }
    }
    forall tenant, key, m | m in PartnerWalk.StoredMembers(after, tenant)
        && (tenant, m) !in pending && key in FiledIdentifiers(tenant, m)
      ensures m in Listed(after, tenant, key)
    {
      PushAllContains(lists, ws, tenant, key, m);
      if m !in Listed(lists, tenant, key) {
        OneBatchFinishedIt(lists, ws, batches, before, tenant, m);
        var b :| b in batches && Complete(ws, b) && (tenant, m) in BatchEvents(b);
        CompleteBatchFiles(ws, b, tenant, key, m);
      }
    }
  }

  // An exact bucket is only ever given members known by its identifier.
  lemma WriteIsOfItsKey(w: Write, batches: set<Records>, ws: seq<Write>)
    requires w in ws && OfBatches(ws, batches) && IsExactKey(w.key)
    ensures w.key in FiledIdentifiers(w.tenant, w.member)
  {
    hide FiledIdentifiers, BatchWrites, WritesFor;
    var b :| b in batches && w in BatchWrites(b);
    BatchWritesShape(b, w);
    var r :| r in b && Usable(r) && w in WritesFor(r.value);
    WritesForShape(r.value, w);
  }

  // A stored event that is neither pending nor filed from before belongs to a finished batch.
  lemma OneBatchFinishedIt(lists: Lists, ws: seq<Write>, batches: set<Records>, before: set<(string, Member)>,
                           tenant: string, m: Member)
    requires OfBatches(ws, batches) && (tenant, m) !in Unfinished(ws, batches, before)
    requires m in PartnerWalk.StoredMembers(PushAll(lists, ws), tenant)
    requires m in PartnerWalk.StoredMembers(lists, tenant) ==> (tenant, m) in before
    ensures exists b | b in batches :: Complete(ws, b) && (tenant, m) in BatchEvents(b)
  {
    hide FiledIdentifiers, PushAll, BatchWrites, BatchEvents, PartnerWalk.StoredMembers, Complete;
    PushAllContains(lists, ws, tenant, "", m);
    if m !in PartnerWalk.StoredMembers(lists, tenant) {
      var w :| w in ws && w.tenant == tenant && w.member == m;
      var b :| b in batches && w in BatchWrites(b);
      WriteIsOfItsBatch(b, w);
      assert (tenant, m) in BatchEvents(b);
    }
  }

  lemma WriteIsOfItsBatch(b: Records, w: Write)
    requires w in BatchWrites(b)
    ensures (w.tenant, w.member) in BatchEvents(b)
  {
    hide FiledIdentifiers, BatchWrites, WritesFor;
    BatchWritesShape(b, w);
    var r :| r in b && Usable(r) && w in WritesFor(r.value);
    WritesForShape(r.value, w);
  }

  lemma CompleteBatchFiles(ws: seq<Write>, b: Records, tenant: string, key: string, m: Member)
    requires Complete(ws, b) && (tenant, m) in BatchEvents(b) && key in FiledIdentifiers(tenant, m)
    ensures exists w | w in ws :: w.tenant == tenant && w.key == key && w.member == m
  {
    hide FiledIdentifiers, BatchWrites, WritesFor;
    var r :| r in b && Usable(r) && (tenant, m) == (r.value.tenant, r.value.member);
    var w := Write(tenant, key, m, None);
    WritesForShape(r.value, w);
    BatchWritesShape(b, w);
  }

  lemma {:induction false} PushAllContains(lists: Lists, writes: seq<Write>, tenant: string, key: string, m: Member)
    ensures m in Listed(PushAll(lists, writes), tenant, key) <==>
      m in Listed(lists, tenant, key) || exists w | w in writes :: w.tenant == tenant && w.key == key && w.member == m
    ensures m in PartnerWalk.StoredMembers(PushAll(lists, writes), tenant) <==>
      m in PartnerWalk.StoredMembers(lists, tenant) || exists w | w in writes :: w.tenant == tenant && w.member == m
  {
    if writes != [] {
      var init, last := writes[..|writes| - 1], writes[|writes| - 1];
      PushAllContains(lists, init, tenant, key, m);
      PushedContains(PushAll(lists, init), last, tenant, key, m);
      assert writes == init + [last];
    }
  }

  // A batch that is written whole leaves only the other pending events pending, whatever an earlier
  // failed attempt at it left behind: a partial write followed by redelivery costs nothing.
  lemma RedeliveryCompletesTheFiling(lists: Lists, records: Records, pending: set<(string, Member)>)
    requires FiledExcept(lists, pending + BatchEvents(records))
    ensures FiledExcept(PushAll(lists, BatchWrites(records)), pending - BatchEvents(records))
    ensures forall tenant, m ::
      (m in PartnerWalk.StoredMembers(PushAll(lists, BatchWrites(records)), tenant)
       <==> m in PartnerWalk.StoredMembers(lists, tenant) || (tenant, m) in BatchEvents(records))
  {
    hide FiledExcept, PushAll, PartnerWalk.StoredMembers, BatchWrites, BatchEvents;
    var writes, before := BatchWrites(records), pending + BatchEvents(records);
    AnyInterleavingFiles(lists, writes, {records}, before);
    assert Complete(writes, records);
    assert Unfinished(writes, {records}, before) == pending - BatchEvents(records);
    forall tenant, m
      ensures m in PartnerWalk.StoredMembers(PushAll(lists, writes), tenant)
        <==> m in PartnerWalk.StoredMembers(lists, tenant) || (tenant, m) in BatchEvents(records)
    {
      StoredAfterBatch(lists, records, tenant, m);
    }
  }

  lemma StoredAfterBatch(lists: Lists, records: seq<Option<Event>>, tenant: string, m: Member)
    ensures m in PartnerWalk.StoredMembers(PushAll(lists, BatchWrites(records)), tenant)
      <==> m in PartnerWalk.StoredMembers(lists, tenant) || (tenant, m) in BatchEvents(records)
  {
    var writes := BatchWrites(records);
    PushAllContains(lists, writes, tenant, "", m);
    if (tenant, m) in BatchEvents(records) {
      var r :| r in records && Usable(r) && (tenant, m) == (r.value.tenant, r.value.member);
      var w := Write(tenant, ClosingKey(r.value), m, Some(m.eventTime));
      WritesForShape(r.value, w);
      BatchWritesShape(records, w);
    }
    if exists w | w in writes :: w.tenant == tenant && w.member == m {
      var w :| w in writes && w.tenant == tenant && w.member == m;
      BatchWritesShape(records, w);
      var r :| r in records && Usable(r) && w in WritesFor(r.value);
      WritesForShape(r.value, w);
    }
  }

  // A batch that is written whole files every event it could decode, whose tenant and id are known,
  // under each request id the event carries and in its closing window, which then has a deadline.
  lemma EveryDecodedEventIsFiled(lists: Lists, schedule: Schedule, records: Records, lag: nat, e: Event)
    requires Some(e) in records && e.tenant != "" && e.member.eventID != ""
    ensures var after := PushAll(lists, BatchWrites(records));
      && (forall requestID | TrimSpace(requestID) in RequestIDs(e.member) ::
            e.member in Listed(after, e.tenant, ExactKeyValue(e.tenant, requestID)))
      && e.member in Listed(after, e.tenant, ClosingKey(e))
    ensures Scheduled(e.tenant, ClosingKey(e)) in ScheduleAll(schedule, BatchWrites(records), lag)
  {
    var writes := BatchWrites(records);
    assert Usable(Some(e));
    hide *;
    var closing := Write(e.tenant, ClosingKey(e), e.member, Some(e.member.eventTime));
    WritesForShape(e, closing);
    BatchWritesShape(records, closing);
    PushAllContains(lists, writes, e.tenant, ClosingKey(e), e.member);
    ScheduleAllAdds(schedule, writes, lag, Scheduled(e.tenant, ClosingKey(e)));
    forall requestID | TrimSpace(requestID) in RequestIDs(e.member)
      ensures e.member in Listed(PushAll(lists, writes), e.tenant, ExactKeyValue(e.tenant, requestID))
    {
      var key := ExactKeyValue(e.tenant, requestID);
      FiledExactlyUnder(e.tenant, e.member, requestID);
      var w := Write(e.tenant, key, e.member, None);
      WritesForShape(e, w);
      BatchWritesShape(records, w);
      PushAllContains(lists, writes, e.tenant, key, e.member);
    }
  }

  // And nothing else: what a list gains are events of the batch that belong in it.
  lemma OnlyDecodedEventsAreFiled(lists: Lists, records: Records, tenant: string, key: string, m: Member)
    requires m in Listed(PushAll(lists, BatchWrites(records)), tenant, key) && m !in Listed(lists, tenant, key)
    ensures tenant != "" && m.eventID != ""
    ensures exists e :: (Some(e) in records && e.tenant == tenant && e.member == m
                         && (key == ClosingKey(e) || key in FiledIdentifiers(tenant, m)))
  {
    hide PushAll, BatchWrites, WritesFor, FiledIdentifiers, Listed, ClosingKey;
    PushAllContains(lists, BatchWrites(records), tenant, key, m);
    var w :| w in BatchWrites(records) && w.tenant == tenant && w.key == key && w.member == m;
    BatchWritesShape(records, w);
    var r :| r in records && Usable(r) && w in WritesFor(r.value);
    WritesForShape(r.value, w);
    assert r == Some(r.value);
  }

  // One write more appends its member to its own list, behind what is there, and to no other.
  lemma AppendsInOrder(lists: Lists, writes: seq<Write>, w: Write, tenant: string, key: string)
    ensures Listed(PushAll(lists, []), tenant, key) == Listed(lists, tenant, key)
    ensures Listed(PushAll(lists, writes + [w]), tenant, key)
         == Listed(PushAll(lists, writes), tenant, key) + (if w.tenant == tenant && w.key == key then [w.member] else [])
  {
    PushSnoc(lists, writes, w);
    hide PushAll;
    NothingApplied(lists, map[], {}, 0);
  }

  // The write schedules this window, and no later one does.
  ghost predicate SchedulesLast(writes: seq<Write>, i: nat, s: Scheduled) {
    && i < |writes| && writes[i].scheduleAt.Some? && Scheduled(writes[i].tenant, writes[i].key) == s
    && forall j | i < j < |writes| && Scheduled(writes[j].tenant, writes[j].key) == s :: writes[j].scheduleAt.None?
  }

  // A window's deadline is the lag after the event of the last write that scheduled it; a window that
  // no write schedules keeps the one it had, or has none.
  lemma {:induction false} DeadlineIsTheLast(schedule: Schedule, writes: seq<Write>, lag: nat, s: Scheduled)
    ensures (exists i: nat :: SchedulesLast(writes, i, s)) ==> s in ScheduleAll(schedule, writes, lag)
    ensures forall i: nat | SchedulesLast(writes, i, s) ::
      ScheduleAll(schedule, writes, lag)[s] == writes[i].scheduleAt.value + lag
    ensures (forall i: nat :: !SchedulesLast(writes, i, s)) ==>
      (s in ScheduleAll(schedule, writes, lag) <==> s in schedule)
      && (s in schedule ==> ScheduleAll(schedule, writes, lag)[s] == schedule[s])
  {
    if writes != [] {
      var n := |writes| - 1;
      DeadlineIsTheLast(schedule, writes[..n], lag, s);
      if Scheduled(writes[n].tenant, writes[n].key) == s && writes[n].scheduleAt.Some? {
        assert SchedulesLast(writes, n, s);
        assert forall i: nat | SchedulesLast(writes, i, s) :: i == n;
      } else {
        forall i: nat ensures SchedulesLast(writes, i, s) <==> SchedulesLast(writes[..n], i, s) {
          assert i < n ==> writes[..n][i] == writes[i];
          assert forall j | 0 <= j < n :: writes[..n][j] == writes[j];
        }
      }
    }
  }

  // A call that fails among its appends has scheduled nothing; one that fails later has appended
  // everything.
  lemma FailureSays(writes: seq<Write>, applied: set<nat>)
    ensures ScheduledBy(writes, Some(InAppends(applied))) == [] && AppendedBy(writes, Some(InSchedule(applied))) == writes
    ensures AppendedBy(writes, None) == ScheduledBy(writes, None) == writes
    ensures AppendedBy(writes, Some(InAppends(applied))) == ScheduledBy(writes, Some(InSchedule(applied)))
    ensures forall w | w in AppendedBy(writes, Some(InAppends(applied))) :: exists i: nat ::
      i in applied && i < |writes| && writes[i] == w
    ensures forall i: nat | i in applied && i < |writes| :: writes[i] in AppendedBy(writes, Some(InAppends(applied)))
  {
    AppliedIs(writes, applied);
    hide Applied;
  }

  lemma {:induction false} AppliedIs(writes: seq<Write>, at: set<nat>)
    ensures forall w | w in Applied(writes, at) :: exists i: nat :: i in at && i < |writes| && writes[i] == w
    ensures forall i: nat | i in at && i < |writes| :: writes[i] in Applied(writes, at)
  {
    if writes != [] {
      var n := |writes| - 1;
      AppliedIs(writes[..n], at);
      AppliedStep(writes, n, at);
      assert writes[..n + 1] == writes;
      forall i: nat | i in at && i < |writes| ensures writes[i] in Applied(writes, at) {
        if i < n {
          assert writes[..n][i] == writes[i];
        }
      }
    }
  }

  // A failed attempt, then the redelivery that succeeds: nothing more is pending than before.
  lemma PartialWriteThenRetry(lists: Lists, records: Records, failure: Failure, pending: set<(string, Member)>)
    requires FiledExcept(lists, pending)
    ensures var failed := PushAll(lists, AppendedBy(BatchWrites(records), Some(failure)));
      && FiledExcept(failed, pending + BatchEvents(records))
      && FiledExcept(PushAll(failed, BatchWrites(records)), pending - BatchEvents(records))
  {
    var part := AppendedBy(BatchWrites(records), Some(failure));
    forall w | w in part ensures w in BatchWrites(records) {
      if failure.InAppends? {
        AppliedIsPart(BatchWrites(records), failure.applied, w);
      }
    }
    MorePending(lists, pending, pending + BatchEvents(records));
    hide FiledExcept, BatchWrites, BatchEvents, AppendedBy, PushAll;
    PushAllKeepsFiledExcept(lists, part, records, pending + BatchEvents(records));
    RedeliveryCompletesTheFiling(PushAll(lists, part), records, pending);
  }

  lemma MorePending(lists: Lists, a: set<(string, Member)>, b: set<(string, Member)>)
    requires FiledExcept(lists, a) && a <= b
    ensures FiledExcept(lists, b)
  {
  }

  lemma {:induction false} PushAllKeepsFiledExcept(lists: Lists, writes: seq<Write>, records: Records,
                                                   pending: set<(string, Member)>)
    requires FiledExcept(lists, pending) && BatchEvents(records) <= pending
    requires forall w | w in writes :: w in BatchWrites(records)
    ensures FiledExcept(PushAll(lists, writes), pending)
  {
    hide FiledExcept, BatchWrites, BatchEvents;
    if writes != [] {
      PushAllKeepsFiledExcept(lists, writes[..|writes| - 1], records, pending);
      PushKeepsFiledExcept(PushAll(lists, writes[..|writes| - 1]), writes[|writes| - 1], records, pending);
    }
  }

  // ---------------------------------------------------------------- components

  // A chain of stored events, each carrying a request id of the next.
  ghost predicate Chain(lists: Lists, tenant: string, p: seq<Member>) {
    && p != []
    && (forall m | m in p :: m in PartnerWalk.StoredMembers(lists, tenant))
    && (forall i | 0 <= i < |p| - 1 :: Shares(p[i], p[i + 1]))
  }

  ghost predicate Connected(lists: Lists, tenant: string, a: Member, b: Member) {
    exists p :: Chain(lists, tenant, p) && p[0] == a && p[|p| - 1] == b
  }

  lemma ConnectedStep(lists: Lists, tenant: string, a: Member, b: Member, c: Member)
    requires Connected(lists, tenant, a, b) && Shares(b, c) && c in PartnerWalk.StoredMembers(lists, tenant)
    ensures Connected(lists, tenant, a, c)
  {
    var p :| Chain(lists, tenant, p) && p[0] == a && p[|p| - 1] == b;
    var q := p + [c];
    assert Chain(lists, tenant, q) && q[0] == a && q[|q| - 1] == c;
  }

  lemma ConnectedSymmetric(lists: Lists, tenant: string, a: Member, b: Member)
    requires Connected(lists, tenant, a, b)
    ensures Connected(lists, tenant, b, a)
  {
    var p :| Chain(lists, tenant, p) && p[0] == a && p[|p| - 1] == b;
    var q := seq(|p|, i requires 0 <= i < |p| => p[|p| - 1 - i]);
    forall i | 0 <= i < |q| - 1 ensures Shares(q[i], q[i + 1]) {
      assert Shares(p[|p| - 2 - i], p[|p| - 2 - i + 1]);
    }
    assert Chain(lists, tenant, q) && q[0] == b && q[|q| - 1] == a;
  }

  lemma ConnectedTransitive(lists: Lists, tenant: string, a: Member, b: Member, c: Member)
    requires Connected(lists, tenant, a, b) && Connected(lists, tenant, b, c)
    ensures Connected(lists, tenant, a, c)
  {
    hide Shares, PartnerWalk.StoredMembers;
    var p :| Chain(lists, tenant, p) && p[0] == a && p[|p| - 1] == b;
    var q :| Chain(lists, tenant, q) && q[0] == b && q[|q| - 1] == c;
    ChainsJoin(lists, tenant, p, q);
    var r := p + q[1..];
    assert Chain(lists, tenant, r) && r[0] == a && r[|r| - 1] == c;
  }

  lemma ChainsJoin(lists: Lists, tenant: string, p: seq<Member>, q: seq<Member>)
    requires Chain(lists, tenant, p) && Chain(lists, tenant, q) && p[|p| - 1] == q[0]
    ensures Chain(lists, tenant, p + q[1..]) && (p + q[1..])[|p| + |q| - 2] == q[|q| - 1]
  {
    hide Shares, PartnerWalk.StoredMembers;
    var r := p + q[1..];
    forall i | 0 <= i < |r| - 1 ensures Shares(r[i], r[i + 1]) {
      if i >= |p| - 1 {
        assert r[i] == q[i - |p| + 1] && r[i + 1] == q[i - |p| + 2];
      }
    }
  }

  // In a filed store, two members reach each other through a bucket exactly when they share an
  // identifier. The walk also asks for the key of a blank identifier, whose bucket is empty.
  lemma BucketImpliesSharing(lists: Lists, tenant: string, m: Member, id: string, p: Member)
    requires Filed(lists)
    requires id in PartnerWalk.IdentifiersOf(tenant, m) && p in Bucket(lists, tenant, id)
    ensures p in PartnerWalk.StoredMembers(lists, tenant) && Shares(m, p)
  {
    FreshShape({}, Listed(lists, tenant, id));
    PartnerWalk.BucketIsStored(lists, tenant, id, p);
    assert InExactBucket(lists, tenant, id, p);
    FiledKeyIsNotBlank(tenant, m, id, p);
    OneBucketExactlyWhen(tenant, m, p);
  }

  lemma FiledKeyIsNotBlank(tenant: string, m: Member, id: string, p: Member)
    requires id in PartnerWalk.IdentifiersOf(tenant, m) && id in FiledIdentifiers(tenant, p)
    ensures id in FiledIdentifiers(tenant, m)
  {
    hide TrimSpace;
    assert |id| > |"t1|" + tenant + "|"|;
  }

  lemma SharingImpliesBucket(lists: Lists, tenant: string, m: Member, p: Member) returns (id: string)
    requires Filed(lists) && PartnerWalk.EventFixesMember(lists, tenant, [])
    requires p in PartnerWalk.StoredMembers(lists, tenant) && Shares(m, p)
    ensures id in PartnerWalk.IdentifiersOf(tenant, m) && p in Bucket(lists, tenant, id)
  {
    OneBucketExactlyWhen(tenant, m, p);
    id :| id in FiledIdentifiers(tenant, m) && id in FiledIdentifiers(tenant, p);
    assert p in Listed(lists, tenant, id);
    FiledIsAskedFor(tenant, m, id);
    FreshCovers({}, Listed(lists, tenant, id), p);
    var q :| q in Fresh({}, Listed(lists, tenant, id)) && q.eventID == p.eventID;
    PartnerWalk.BucketIsStored(lists, tenant, id, q);
  }

  lemma FiledIsAskedFor(tenant: string, m: Member, id: string)
    requires id in FiledIdentifiers(tenant, m)
    ensures id in PartnerWalk.IdentifiersOf(tenant, m)
  {
  }

  // The stored events some member of the window is connected to.
  ghost function Reach(lists: Lists, tenant: string, members: seq<Member>): set<Member> {
    set e | e in PartnerWalk.StoredMembers(lists, tenant) && exists m | m in members :: Connected(lists, tenant, m, e)
  }

  lemma ReachIsClosed(lists: Lists, tenant: string, members: seq<Member>)
    requires Filed(lists)
    ensures PartnerWalk.Closed(lists, tenant, Reach(lists, tenant, members))
  {
    forall b, id, p | b in Reach(lists, tenant, members) && id in PartnerWalk.IdentifiersOf(tenant, b)
        && p in Bucket(lists, tenant, id)
      ensures p in Reach(lists, tenant, members)
    {
      hide Connected, Shares, Bucket, PartnerWalk.IdentifiersOf;
      BucketImpliesSharing(lists, tenant, b, id, p);
      var m :| m in members && Connected(lists, tenant, m, b);
      ConnectedStep(lists, tenant, m, b, p);
    }
  }

  lemma ConnectedToItself(lists: Lists, tenant: string, m: Member)
    requires m in PartnerWalk.StoredMembers(lists, tenant)
    ensures Connected(lists, tenant, m, m)
  {
    assert Chain(lists, tenant, [m]);
  }

  lemma {:induction false} ChainStaysClosed(lists: Lists, tenant: string, s: set<Member>, p: seq<Member>)
    requires Filed(lists) && PartnerWalk.EventFixesMember(lists, tenant, [])
    requires PartnerWalk.Closed(lists, tenant, s) && Chain(lists, tenant, p) && p[0] in s
    ensures p[|p| - 1] in s
  {
    if |p| > 1 {
      ChainTail(lists, tenant, p);
      hide Chain, Shares, Filed, Bucket, PartnerWalk.IdentifiersOf, PartnerWalk.EventFixesMember;
      var id := SharingImpliesBucket(lists, tenant, p[0], p[1]);
      ChainStaysClosed(lists, tenant, s, p[1..]);
    }
  }

  lemma ChainTail(lists: Lists, tenant: string, p: seq<Member>)
    requires Chain(lists, tenant, p) && |p| > 1
    ensures Chain(lists, tenant, p[1..]) && Shares(p[0], p[1])
    ensures p[1] in PartnerWalk.StoredMembers(lists, tenant)
  {
    assert Shares(p[0], p[0 + 1]) && p[1] in p;
    forall i | 0 <= i < |p[1..]| - 1 ensures Shares(p[1..][i], p[1..][i + 1]) {
      assert Shares(p[i + 1], p[i + 1 + 1]);
    }
  }

  lemma ReachIsCollected(lists: Lists, tenant: string, members: seq<Member>, m: Member, e: Member)
    requires Filed(lists) && PartnerWalk.EventFixesMember(lists, tenant, [])
    requires PartnerWalk.EventFixesMember(lists, tenant, members)
    requires m in members && Connected(lists, tenant, m, e)
    ensures e in PartnerWalk.Closure(lists, tenant, members)
  {
    PartnerWalk.ClosureIsLeastClosedSet(lists, tenant, members);
    var found := ToSet(PartnerWalk.Closure(lists, tenant, members));
    assert m in ToSet(members) && m in found;
    hide PartnerWalk.Closure, PartnerWalk.Closed, Filed, PartnerWalk.EventFixesMember, Chain;
    var p :| Chain(lists, tenant, p) && p[0] == m && p[|p| - 1] == e;
    ChainStaysClosed(lists, tenant, found, p);
  }

  // What a window collects is its own members and the whole component of each.
  lemma ClosureIsWholeComponents(lists: Lists, tenant: string, members: seq<Member>)
    requires Filed(lists) && PartnerWalk.EventFixesMember(lists, tenant, [])
    requires forall m | m in members :: m in PartnerWalk.StoredMembers(lists, tenant)
    ensures forall e ::
      (e in PartnerWalk.Closure(lists, tenant, members)
       <==> exists m | m in members :: Connected(lists, tenant, m, e))
  {
    assert PartnerWalk.EventFixesMember(lists, tenant, members);
    ReachIsClosed(lists, tenant, members);
    hide PartnerWalk.Closure, PartnerWalk.Closed, Filed, PartnerWalk.EventFixesMember, Connected, PartnerWalk.StoredMembers;
    var reach := Reach(lists, tenant, members);
    forall m | m in members ensures m in reach {
      ConnectedToItself(lists, tenant, m);
    }
    PartnerWalk.ClosureIsLeastClosedSet(lists, tenant, members);
    assert ToSet(members) <= reach;
    forall e | e in PartnerWalk.Closure(lists, tenant, members)
      ensures exists m | m in members :: Connected(lists, tenant, m, e)
    {
      assert e in ToSet(PartnerWalk.Closure(lists, tenant, members));
      assert e in reach;
    }
    forall m, e | m in members && Connected(lists, tenant, m, e)
      ensures e in PartnerWalk.Closure(lists, tenant, members)
    {
      ReachIsCollected(lists, tenant, members, m, e);
    }
  }

  // Any two windows that reach one event both hold that event's entire component, so the hop a
  // request landed on does not decide which verdicts its record gets.
  lemma WindowsAgreeOnSharedEvents(lists: Lists, tenant: string, here: seq<Member>, there: seq<Member>,
                                   e: Member, f: Member)
    requires Filed(lists) && PartnerWalk.EventFixesMember(lists, tenant, [])
    requires forall m | m in here + there :: m in PartnerWalk.StoredMembers(lists, tenant)
    requires e in PartnerWalk.Closure(lists, tenant, here) && e in PartnerWalk.Closure(lists, tenant, there)
    ensures Connected(lists, tenant, e, f) ==>
      f in PartnerWalk.Closure(lists, tenant, here) && f in PartnerWalk.Closure(lists, tenant, there)
  {
    ClosureIsWholeComponents(lists, tenant, here);
    ClosureIsWholeComponents(lists, tenant, there);
    if Connected(lists, tenant, e, f) {
      var m :| m in here && Connected(lists, tenant, m, e);
      ConnectedTransitive(lists, tenant, m, e, f);
      var n :| n in there && Connected(lists, tenant, n, e);
      ConnectedTransitive(lists, tenant, n, e, f);
    }
  }

  // Two one-event windows on different hops of a request close over the same events.
  lemma EveryHopSeesTheSameRequest(lists: Lists, tenant: string, a: Member, b: Member)
    requires Filed(lists) && PartnerWalk.EventFixesMember(lists, tenant, [])
    requires Connected(lists, tenant, a, b)
    ensures ToSet(PartnerWalk.Closure(lists, tenant, [a]))
         == ToSet(PartnerWalk.Closure(lists, tenant, [b]))
  {
    var p :| Chain(lists, tenant, p) && p[0] == a && p[|p| - 1] == b;
    assert a in p && b in p;
    ClosureIsWholeComponents(lists, tenant, [a]);
    ClosureIsWholeComponents(lists, tenant, [b]);
    ConnectedSymmetric(lists, tenant, a, b);
    forall e | Connected(lists, tenant, a, e) ensures Connected(lists, tenant, b, e) {
      ConnectedTransitive(lists, tenant, b, a, e);
    }
    forall e | Connected(lists, tenant, b, e) ensures Connected(lists, tenant, a, e) {
      ConnectedTransitive(lists, tenant, a, b, e);
    }
    assert a in [a] && b in [b];
  }
}
