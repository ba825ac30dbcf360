// The normalizer (backend/internal/normalize): one record at a time and a whole fetch at once.

module Normalizing {
  import opened Wrappers
  import opened Text
  import opened Replacing

  datatype Envelope = Envelope(tenant: string, feed: string, vendor: string, eventID: string, receivedAt: nat,
                               payload: string, format: string, batchID: string)

  // `rest` stands for the columns nothing here looks at; a score that is not finite has no JSON form.
  datatype Event = Event(eventTime: int, userAgent: string, requestQuery: string, requestPath: string,
                         clientIP: Option<string>, rest: string, finiteScore: bool, unknownFields: bool)

  // A normalized row: keyed by event id, versioned by the instant its envelope was received.
  datatype Derived = Derived(tenant: string, feed: string, sourceVendor: string, event: Event)

  type NormalRow = Row<Derived>

  datatype Cause = UnknownVendor | Unparseable | TimestampOutOfRange | NoPolicy

  datatype ReasonCode = ParseError | TimestampRange

  datatype RejectedRow = RejectedRow(tenant: string, feed: string, vendor: string, reason: ReasonCode, detail: Cause,
                                     payload: string, batchID: string)

  // What the adapters and the stream make of their inputs, the same on every attempt: the envelope a
  // record holds, if it can be decoded, and the event a payload normalizes to.
  datatype Content = Content(vendor: string, payload: string, format: string)

  datatype Library = Library(envelopes: map<string, Envelope>, vendors: set<string>,
                             events: map<Content, Result<Event, Cause>>)

  // Each tenant's redacted fields; a tenant that is absent cannot be looked up.
  type Policies = map<string, seq<string>>

  const NANOS_PER_SECOND: int := 1_000_000_000
  const MAX_EVENT_AGE: int := 90 * 24 * 3600 * NANOS_PER_SECOND
  const MAX_EVENT_FUTURE: int := 5 * 60 * NANOS_PER_SECOND
  const PLACEHOLDER := "[REDACTED]"

  // ---------------------------------------------------------------- one event

  function Masked(policy: seq<string>): set<string> {
    set f | f in policy :: ToLower(TrimSpace(f))
  }

  function Mask(name: string, masked: set<string>, value: string): string {
    if name in masked && value != "" then PLACEHOLDER else value
  }

  function Redact(e: Event, policy: seq<string>): Event {
    var masked := Masked(policy);
    e.(userAgent := Mask("user_agent", masked, e.userAgent),
       requestQuery := Mask("request_query", masked, e.requestQuery),
       requestPath := Mask("request_path", masked, e.requestPath),
       clientIP := if "client_ip" in masked then None else e.clientIP)
  }

  predicate AgeIsPlausible(eventTime: int, receivedAt: int) {
    receivedAt - MAX_EVENT_AGE <= eventTime <= receivedAt + MAX_EVENT_FUTURE
  }

  function ToRow(env: Envelope, e: Event): NormalRow {
    Row(env.eventID, env.receivedAt, Derived(env.tenant, env.feed, env.vendor, e))
  }

  // Adapter, parse, normalize, age check: everything before the tenant's policy is needed.
  function Understand(lib: Library, env: Envelope): Result<Event, Cause> {
    if ToLower(env.vendor) !in lib.vendors then Err(UnknownVendor)
    else
      var content := Content(ToLower(env.vendor), env.payload, env.format);
      if content !in lib.events then Err(Unparseable)
      else
        match lib.events[content]
        case Err(c) => Err(c)
        case Ok(e) => if AgeIsPlausible(e.eventTime, env.receivedAt) then Ok(e) else Err(TimestampOutOfRange)
  }

  function Normalize(lib: Library, policies: Policies, env: Envelope): Result<NormalRow, Cause> {
    match Understand(lib, env)
    case Err(c) => Err(c)
    case Ok(e) =>
      if env.tenant !in policies then Err(NoPolicy)
      else Ok(ToRow(env, Redact(e, policies[env.tenant])))
  }

  function ClassifyRejection(c: Cause): ReasonCode {
    if c.TimestampOutOfRange? then TimestampRange else ParseError
  }

  function Rejection(env: Envelope, c: Cause): RejectedRow {
    RejectedRow(env.tenant, env.feed, env.vendor, ClassifyRejection(c), c, env.payload, env.batchID)
  }

  // ---------------------------------------------------------------- a fetch

  function Decoded(lib: Library, records: seq<string>): seq<Envelope> {
    if records == [] then []
    else
      var init, last := Decoded(lib, records[..|records| - 1]), records[|records| - 1];
      if last in lib.envelopes then init + [lib.envelopes[last]] else init
  }

  function Undecodable(lib: Library, records: seq<string>): seq<nat> {
    if records == [] then []
    else
      var init, last := Undecodable(lib, records[..|records| - 1]), records[|records| - 1];
      if last in lib.envelopes then init else init + [|records| - 1]
  }

  function Normalized(lib: Library, policies: Policies, envs: seq<Envelope>): seq<NormalRow> {
    if envs == [] then []
    else
      var init, last := Normalized(lib, policies, envs[..|envs| - 1]), envs[|envs| - 1];
      match Normalize(lib, policies, last)
      case Ok(row) => init + [row]
      case Err(_) => init
  }

  function Rejected(lib: Library, policies: Policies, envs: seq<Envelope>): seq<RejectedRow> {
    if envs == [] then []
    else
      var init, last := Rejected(lib, policies, envs[..|envs| - 1]), envs[|envs| - 1];
      match Normalize(lib, policies, last)
      case Ok(_) => init
      case Err(c) => init + [Rejection(last, c)]
  }

  function Encodable(rows: seq<NormalRow>): seq<NormalRow> {
    if rows == [] then []
    else
      var init, last := Encodable(rows[..|rows| - 1]), rows[|rows| - 1];
      if last.value.event.finiteScore then init + [last] else init
  }

  // How many of a batch's normalized events of one feed met unknown fields.
  function Drift(lib: Library, policies: Policies, envs: seq<Envelope>, tenant: string, feed: string): nat {
    if envs == [] then 0
    else
      var init, last := Drift(lib, policies, envs[..|envs| - 1], tenant, feed), envs[|envs| - 1];
      match Normalize(lib, policies, last)
      case Ok(row) => if row.value.event.unknownFields && last.tenant == tenant && last.feed == feed then init + 1 else init
      case Err(_) => init
  }

  ghost predicate IsDrift(lib: Library, policies: Policies, envs: seq<Envelope>, drift: map<(string, string), nat>) {
    forall t, d :: Drift(lib, policies, envs, t, d) == if (t, d) in drift then drift[(t, d)] else 0
  }

  // ---------------------------------------------------------------- writes

  // What the stores hold, in the order it arrived.
  datatype Stored = Stored(raw: seq<Envelope>, normalized: seq<NormalRow>, rejected: seq<RejectedRow>,
                           published: seq<NormalRow>)

  // A write that reports a failure may have landed in part.
  datatype Write = Works | Fails(landed: nat)

  datatype Faults = Faults(raw: Write, normalized: Write, rejected: Write, publish: Write)

  const NO_FAULTS := Faults(Works, Works, Works, Works)

  function Landed<T>(rows: seq<T>, w: Write): seq<T> {
    if w.Works? || w.landed >= |rows| then rows else rows[..w.landed]
  }

  // An empty insert is not attempted.
  predicate Succeeds<T>(rows: seq<T>, w: Write) {
    rows == [] || w.Works?
  }

  datatype Attempt = Attempt(stored: Stored, done: bool)

  // ---------------------------------------------------------------- one record at a time

  function HandleOutcome(lib: Library, policies: Policies, record: string, st: Stored, f: Faults): Attempt {
    if record !in lib.envelopes then Attempt(st, false)
    else
      var env := lib.envelopes[record];
      var afterRaw := st.(raw := st.raw + Landed([env], f.raw));
      if !f.raw.Works? then Attempt(afterRaw, false)
      else
        match Normalize(lib, policies, env)
        case Err(c) =>
          Attempt(afterRaw.(rejected := st.rejected + Landed([Rejection(env, c)], f.rejected)), f.rejected.Works?)
        case Ok(row) =>
          var afterRow := afterRaw.(normalized := st.normalized + Landed([row], f.normalized));
          if !f.normalized.Works? || !row.value.event.finiteScore then Attempt(afterRow, false)
          else Attempt(afterRow.(published := st.published + Landed([row], f.publish)), f.publish.Works?)
  }

  // ---------------------------------------------------------------- a whole fetch

  function BatchOutcome(lib: Library, policies: Policies, records: seq<string>, st: Stored, f: Faults): Attempt {
    var envs := Decoded(lib, records);
    var rows, refused := Normalized(lib, policies, envs), Rejected(lib, policies, envs);
    var messages := Encodable(rows);
    var afterRaw := st.(raw := st.raw + Landed(envs, f.raw));
    if !Succeeds(envs, f.raw) then Attempt(afterRaw, false)
    else
      var afterRows := afterRaw.(normalized := st.normalized + Landed(rows, f.normalized));
      if !Succeeds(rows, f.normalized) then Attempt(afterRows, false)
      else
        var afterRefused := afterRows.(rejected := st.rejected + Landed(refused, f.rejected));
        if !Succeeds(refused, f.rejected) then Attempt(afterRefused, false)
        else
          Attempt(afterRefused.(published := st.published + Landed(messages, f.publish)), Succeeds(messages, f.publish))
  }

  // ---------------------------------------------------------------- the program

  class EventStore {
    var raw: seq<Envelope>
    var normalized: seq<NormalRow>
    var rejected: seq<RejectedRow>
    var published: seq<NormalRow>

    constructor ()
      ensures Contents() == Stored([], [], [], [])
    {
      raw, normalized, rejected, published := [], [], [], [];
    }

    ghost function Contents(): Stored
      reads this
    {
      Stored(raw, normalized, rejected, published)
    }

    method InsertRaw(rows: seq<Envelope>, w: Write) returns (ok: bool)
      modifies this`raw
      ensures raw == old(raw) + Landed(rows, w) && ok == Succeeds(rows, w)
    {
      raw := raw + Landed(rows, w);
      ok := Succeeds(rows, w);
    }

    method InsertNormalized(rows: seq<NormalRow>, w: Write) returns (ok: bool)
      modifies this`normalized
      ensures normalized == old(normalized) + Landed(rows, w) && ok == Succeeds(rows, w)
    {
      normalized := normalized + Landed(rows, w);
      ok := Succeeds(rows, w);
    }

    method InsertRejected(rows: seq<RejectedRow>, w: Write) returns (ok: bool)
      modifies this`rejected
      ensures rejected == old(rejected) + Landed(rows, w) && ok == Succeeds(rows, w)
    {
      rejected := rejected + Landed(rows, w);
      ok := Succeeds(rows, w);
    }

    method Publish(messages: seq<NormalRow>, w: Write) returns (ok: bool)
      modifies this`published
      ensures published == old(published) + Landed(messages, w) && ok == Succeeds(messages, w)
    {
      published := published + Landed(messages, w);
      ok := Succeeds(messages, w);
    }
  }

  // Each tenant's policy is read once a batch; a failed read is not remembered.
  class PolicyCache {
    const tenants: Policies
    var byID: map<string, seq<string>>
    // Every read that reached the tenant store.
    ghost var asked: seq<string>

    constructor (tenants: Policies)
      ensures this.tenants == tenants && Valid()
    {
      this.tenants := tenants;
      byID, asked := map[], [];
    }

    ghost predicate Valid()
      reads this
    {
      && (forall t | t in byID :: t in tenants && byID[t] == tenants[t])
      && (forall t | t in asked && t in tenants :: t in byID)
      && (forall i, j | 0 <= i < j < |asked| && asked[i] == asked[j] :: asked[i] !in tenants)
    }

    method RedactedFields(tenant: string) returns (r: Option<seq<string>>)
      requires Valid()
      modifies this
      ensures Valid()
      ensures r == if tenant in tenants then Some(tenants[tenant]) else None
      ensures asked == old(asked) + if tenant in old(byID) then [] else [tenant]
    {
      if tenant in byID {
        return Some(byID[tenant]);
      }
      asked := asked + [tenant];
      if tenant !in tenants {
        return None;
      }
      byID := byID[tenant := tenants[tenant]];
      return Some(tenants[tenant]);
    }
  }

  class Worker {
    const lib: Library
    const tenants: Policies
    const store: EventStore
    // Feed health: for each batch, its unknown-field events by tenant and feed.
    var health: seq<map<(string, string), nat>>

    constructor (lib: Library, tenants: Policies, store: EventStore)
      ensures this.lib == lib && this.tenants == tenants && this.store == store && health == []
    {
      this.lib, this.tenants, this.store, health := lib, tenants, store, [];
    }

    method Handle(record: string, f: Faults) returns (done: bool)
      modifies store
      ensures Attempt(store.Contents(), done) == HandleOutcome(lib, tenants, record, old(store.Contents()), f)
    {
      if record !in lib.envelopes {
        return false;
      }
      var envelope := lib.envelopes[record];
      var ok := store.InsertRaw([envelope], f.raw);
      if !ok {
        return false;
      }
      var normalized := Normalize(lib, tenants, envelope);
      if normalized.Err? {
        done := store.InsertRejected([Rejection(envelope, normalized.error)], f.rejected);
        return;
      }
      ok := store.InsertNormalized([normalized.value], f.normalized);
      if !ok || !normalized.value.value.event.finiteScore {
        return false;
      }
      done := store.Publish([normalized.value], f.publish);
    }

    // The whole fetch: nothing is reported done unless every write worked, and the records reported
    // as failures are those that could not be decoded.
    method HandleBatch(records: seq<string>, f: Faults) returns (failures: seq<nat>, done: bool)
      modifies this, store
      ensures Attempt(store.Contents(), done) == BatchOutcome(lib, tenants, records, old(store.Contents()), f)
      ensures failures == if done then Undecodable(lib, records) else []
      ensures if Decoded(lib, records) == [] || !f.raw.Works? then health == old(health)
              else CountsDrift(records, old(health))
    {
      hide Normalize;
      var decoded;
      decoded, failures := DecodeEnvelopes(records);
      if decoded == [] {
        return failures, true;
      }
      var ok := store.InsertRaw(decoded, f.raw);
      if !ok {
        return [], false;
      }
      var normalized, rejected, drift := NormalizeBatch(decoded);
      health := health + [drift];
      ok := store.InsertNormalized(normalized, f.normalized);
      if !ok {
        return [], false;
      }
      ok := store.InsertRejected(rejected, f.rejected);
      if !ok {
        return [], false;
      }
      ok := ForwardBatch(normalized, f.publish);
      if !ok {
        return [], false;
      }
      return failures, true;
    }

    // One tally more than before, and it is the batch's.
    ghost predicate CountsDrift(records: seq<string>, before: seq<map<(string, string), nat>>)
      reads this
    {
      && |health| == |before| + 1 && before <= health
      && IsDrift(lib, tenants, Decoded(lib, records), health[|before|])
    }

    method DecodeEnvelopes(records: seq<string>) returns (decoded: seq<Envelope>, failures: seq<nat>)
      ensures decoded == Decoded(lib, records) && failures == Undecodable(lib, records)
    {
      decoded, failures := [], [];
      for i := 0 to |records|
        invariant decoded == Decoded(lib, records[..i]) && failures == Undecodable(lib, records[..i])
      {
        assert records[..i + 1][..i] == records[..i];
        if records[i] !in lib.envelopes {
          failures := failures + [i];
          continue;
        }
        decoded := decoded + [lib.envelopes[records[i]]];
      }
      assert records[..|records|] == records;
    }

    method NormalizeOne(envelope: Envelope, policies: PolicyCache) returns (r: Result<NormalRow, Cause>)
      requires policies.Valid() && policies.tenants == tenants
      modifies policies
      ensures policies.Valid()
      ensures r == Normalize(lib, tenants, envelope)
    {
      var event := Understand(lib, envelope);
      if event.Err? {
        return Err(event.error);
      }
      var redacted := policies.RedactedFields(envelope.tenant);
      if redacted.None? {
        return Err(NoPolicy);
      }
      return Ok(ToRow(envelope, Redact(event.value, redacted.value)));
    }

    method NormalizeBatch(decoded: seq<Envelope>)
        returns (normalized: seq<NormalRow>, rejected: seq<RejectedRow>, drift: map<(string, string), nat>)
      ensures normalized == Normalized(lib, tenants, decoded) && rejected == Rejected(lib, tenants, decoded)
      ensures IsDrift(lib, tenants, decoded, drift)
    {
      hide Normalize;
      normalized, rejected, drift := [], [], map[];
      var policies := new PolicyCache(tenants);
      for i := 0 to |decoded|
        invariant policies.Valid() && policies.tenants == tenants && fresh(policies)
        invariant normalized == Normalized(lib, tenants, decoded[..i])
        invariant rejected == Rejected(lib, tenants, decoded[..i])
        invariant IsDrift(lib, tenants, decoded[..i], drift)
      {
        assert decoded[..i + 1][..i] == decoded[..i];
        var e := decoded[i];
        var r := NormalizeOne(e, policies);
        if r.Err? {
          rejected := rejected + [Rejection(e, r.error)];
          continue;
        }
        var key := (e.tenant, e.feed);
        if r.value.value.event.unknownFields {
          drift := drift[key := (if key in drift then drift[key] else 0) + 1];
        }
        normalized := normalized + [r.value];
      }
      assert decoded[..|decoded|] == decoded;
    }

    method ForwardBatch(events: seq<NormalRow>, w: Write) returns (ok: bool)
      modifies store`published
      ensures ok == Succeeds(Encodable(events), w)
      ensures store.published == old(store.published) + Landed(Encodable(events), w)
    {
      if events == [] {
        return true;
      }
      var records: seq<NormalRow> := [];
      for i := 0 to |events|
        invariant records == Encodable(events[..i])
      {
        assert events[..i + 1][..i] == events[..i];
        if !events[i].value.event.finiteScore {
          continue;
        }
        records := records + [events[i]];
      }
      assert events[..|events|] == events;
      ok := store.Publish(records, w);
    }
  }
}

// What follows for fetches, retries and stored evidence.
module NormalizerRuns {
  import opened Wrappers
  import opened Text
  import opened Collections
  import opened Replacing
  import opened Normalizing

  // ---------------------------------------------------------------- the batch refines the single form

  // Records handled one by one, nothing failing.
  function HandleEach(lib: Library, policies: Policies, records: seq<string>, st: Stored): Stored {
    if records == [] then st
    else
      var before := HandleEach(lib, policies, records[..|records| - 1], st);
      HandleOutcome(lib, policies, records[|records| - 1], before, NO_FAULTS).stored
  }

  function BatchStored(lib: Library, policies: Policies, records: seq<string>, st: Stored): Stored {
    BatchOutcome(lib, policies, records, st, NO_FAULTS).stored
  }

  lemma BatchAppends(lib: Library, policies: Policies, records: seq<string>, st: Stored)
    ensures var envs := Decoded(lib, records);
      BatchStored(lib, policies, records, st) == Stored(
        st.raw + envs,
        st.normalized + Normalized(lib, policies, envs),
        st.rejected + Rejected(lib, policies, envs),
        st.published + Encodable(Normalized(lib, policies, envs)))
    ensures BatchOutcome(lib, policies, records, st, NO_FAULTS).done
  {
    hide Decoded, Normalized, Rejected, Encodable;
  }

  // What one more record adds to a batch.
  lemma BatchSnoc(lib: Library, policies: Policies, records: seq<string>, record: string)
    ensures var envs := Decoded(lib, records);
      Decoded(lib, records + [record]) == if record in lib.envelopes then envs + [lib.envelopes[record]] else envs
    ensures record in lib.envelopes ==>
      var envs, env := Decoded(lib, records), lib.envelopes[record];
      var rows := Normalized(lib, policies, envs);
      match Normalize(lib, policies, env)
      case Ok(row) =>
        && Normalized(lib, policies, envs + [env]) == rows + [row]
        && Rejected(lib, policies, envs + [env]) == Rejected(lib, policies, envs)
        && Encodable(rows + [row]) == if row.value.event.finiteScore then Encodable(rows) + [row] else Encodable(rows)
      case Err(c) =>
        && Normalized(lib, policies, envs + [env]) == rows
        && Rejected(lib, policies, envs + [env]) == Rejected(lib, policies, envs) + [Rejection(env, c)]
  {
    hide Normalize;
    assert (records + [record])[..|records|] == records;
    if record in lib.envelopes {
      var envs, env := Decoded(lib, records), lib.envelopes[record];
      assert (envs + [env])[..|envs|] == envs;
      var rows := Normalized(lib, policies, envs);
      if Normalize(lib, policies, env).Ok? {
        var row := Normalize(lib, policies, env).value;
        assert (rows + [row])[..|rows|] == rows;
      }
    }
  }

  // A batch leaves exactly what the records handled one at a time leave, table by table and in the
  // same order.
  lemma {:induction false} BatchRefinesHandle(lib: Library, policies: Policies, records: seq<string>, st: Stored)
    ensures BatchStored(lib, policies, records, st) == HandleEach(lib, policies, records, st)
  {
    hide Decoded, Normalized, Rejected, Encodable, Normalize, BatchOutcome;
    if records == [] {
      BatchAppends(lib, policies, records, st);
      EmptyBatch(lib, policies);
    } else {
      var init, last := records[..|records| - 1], records[|records| - 1];
      BatchRefinesHandle(lib, policies, init, st);
      BatchAppends(lib, policies, init, st);
      BatchAppends(lib, policies, records, st);
      BatchSnoc(lib, policies, init, last);
      assert init + [last] == records;
    }
  }

  lemma EmptyBatch(lib: Library, policies: Policies)
    ensures Decoded(lib, []) == [] && Normalized(lib, policies, []) == [] && Rejected(lib, policies, []) == []
    ensures Encodable([]) == []
  {
  }

  // The records a batch reports are those that cannot be decoded. Handled one at a time, those fail
  // too, and so does an event whose score has no JSON form, which the batch stores and skips.
  lemma {:induction false} FailuresAreTheUndecodable(lib: Library, policies: Policies, records: seq<string>, st: Stored,
                                                     i: nat)
    requires i < |records|
    ensures i in Undecodable(lib, records) <==> records[i] !in lib.envelopes
    ensures HandleOutcome(lib, policies, records[i], st, NO_FAULTS).done
       <==> i !in Undecodable(lib, records)
            && match Normalize(lib, policies, lib.envelopes[records[i]])
               case Err(_) => true
               case Ok(row) => row.value.event.finiteScore
  {
    hide Normalize;
    IndexOfUndecodable(lib, records, i);
  }

  lemma {:induction false} IndexOfUndecodable(lib: Library, records: seq<string>, i: nat)
    ensures i in Undecodable(lib, records) <==> i < |records| && records[i] !in lib.envelopes
  {
    if records != [] {
      IndexOfUndecodable(lib, records[..|records| - 1], i);
    }
  }

  // ---------------------------------------------------------------- each event in exactly one place

  function Indices(lib: Library, policies: Policies, envs: seq<Envelope>, ok: bool): seq<nat> {
    if envs == [] then []
    else
      var init := Indices(lib, policies, envs[..|envs| - 1], ok);
      if Normalize(lib, policies, envs[|envs| - 1]).Ok? == ok then init + [|envs| - 1] else init
  }

  // Two ordered groups of indices without overlap, the first giving the normalized rows and the second
  // the rejected ones, in order.
  ghost predicate Divides(lib: Library, policies: Policies, envs: seq<Envelope>, kept: seq<nat>, lost: seq<nat>,
                          rows: seq<NormalRow>, refused: seq<RejectedRow>) {
    && (forall i: nat :: i < |envs| <==> i in kept || i in lost)
    && (forall i | i in kept :: i !in lost)
    && Ascending(kept) && Ascending(lost) && |kept| == |rows| && |lost| == |refused|
    && (forall k | 0 <= k < |kept| :: kept[k] < |envs| && Normalize(lib, policies, envs[kept[k]]) == Ok(rows[k]))
    && (forall k | 0 <= k < |lost| :: lost[k] < |envs| && IsRejectionOf(lib, policies, envs[lost[k]], refused[k]))
  }

  lemma KeepOne(lib: Library, policies: Policies, envs: seq<Envelope>, kept: seq<nat>, lost: seq<nat>,
                rows: seq<NormalRow>, refused: seq<RejectedRow>, env: Envelope)
    requires Divides(lib, policies, envs, kept, lost, rows, refused) && Normalize(lib, policies, env).Ok?
    ensures Divides(lib, policies, envs + [env], kept + [|envs|], lost, rows + [Normalize(lib, policies, env).value], refused)
  {
    hide Normalize, IsRejectionOf;
    assert |envs| in kept + [|envs|];
  }

  lemma LoseOne(lib: Library, policies: Policies, envs: seq<Envelope>, kept: seq<nat>, lost: seq<nat>,
                rows: seq<NormalRow>, refused: seq<RejectedRow>, env: Envelope, r: RejectedRow)
    requires Divides(lib, policies, envs, kept, lost, rows, refused) && IsRejectionOf(lib, policies, env, r)
    ensures Divides(lib, policies, envs + [env], kept, lost + [|envs|], rows, refused + [r])
  {
    hide Normalize, IsRejectionOf;
    assert |envs| in lost + [|envs|];
  }

  // Every decoded record is in exactly one of the two tables.
  lemma {:induction false} EachEventIsInOneTable(lib: Library, policies: Policies, envs: seq<Envelope>)
    ensures Divides(lib, policies, envs, Indices(lib, policies, envs, true), Indices(lib, policies, envs, false),
                    Normalized(lib, policies, envs), Rejected(lib, policies, envs))
  {
    hide Normalize;
    if envs != [] {
      hide Divides;
      var init, last := envs[..|envs| - 1], envs[|envs| - 1];
      EachEventIsInOneTable(lib, policies, init);
      assert envs == init + [last];
      var kept, lost := Indices(lib, policies, init, true), Indices(lib, policies, init, false);
      var rows, refused := Normalized(lib, policies, init), Rejected(lib, policies, init);
      match Normalize(lib, policies, last) {
        case Ok(row) => KeepOne(lib, policies, init, kept, lost, rows, refused, last);
        case Err(c) => LoseOne(lib, policies, init, kept, lost, rows, refused, last, Rejection(last, c));
      }
    }
  }

  predicate Ascending(s: seq<nat>) {
    forall i, j | 0 <= i < j < |s| :: s[i] < s[j]
  }

  predicate IsRejectionOf(lib: Library, policies: Policies, env: Envelope, r: RejectedRow) {
    match Normalize(lib, policies, env)
    case Ok(_) => false
    case Err(c) => r == Rejection(env, c)
  }

  // ---------------------------------------------------------------- what a policy asks for

  // The entry is the field's name in any case, with any spaces around it.
  ghost predicate Names(entry: string, field: string) {
    exists before, name, after ::
      entry == before + name + after && AllSpaces(before) && AllSpaces(after) && FoldsTo(name, field)
  }

  ghost predicate AsksFor(policy: seq<string>, field: string) {
    exists entry | entry in policy :: Names(entry, field)
  }

  // No letter of a field's name, in either case, is a space.
  predicate IsFieldName(field: string) {
    field != "" && forall c | c in field :: 'a' <= c <= 'z' || c == '_'
  }

  lemma NamesIsFolding(entry: string, field: string)
    requires IsFieldName(field)
    ensures Names(entry, field) <==> ToLower(TrimSpace(entry)) == field
  {
    FoldsToIsToLower(TrimSpace(entry), field);
    if ToLower(TrimSpace(entry)) == field {
      var before, after := TrimSplits(entry);
      assert Names(entry, field);
    }
    if Names(entry, field) {
      var before, name, after :| entry == before + name + after && AllSpaces(before) && AllSpaces(after)
        && FoldsTo(name, field);
      FoldedIsTrimmed(name, field);
      TrimSpaceCuts(before, name, after);
    }
  }

  lemma FoldedIsTrimmed(name: string, field: string)
    requires IsFieldName(field) && FoldsTo(name, field)
    ensures IsTrimmed(name)
  {
    assert field[0] in field && field[|field| - 1] in field;
  }

  lemma MaskedIsAsked(policy: seq<string>, field: string)
    requires IsFieldName(field)
    ensures field in Masked(policy) <==> AsksFor(policy, field)
  {
    hide ToLower, TrimSpace, Names;
    forall entry | entry in policy ensures Names(entry, field) <==> ToLower(TrimSpace(entry)) == field {
      NamesIsFolding(entry, field);
    }
  }

  // What may be stored of an adapter's event under a policy: a field asked for shows nothing, blank or
  // the placeholder or absent, and everything else is the adapter's.
  ghost predicate ShowsWhatItMay(policy: seq<string>, e: Event, stored: Event) {
    && stored.userAgent == (if e.userAgent != "" && AsksFor(policy, "user_agent") then "[REDACTED]" else e.userAgent)
    && stored.requestQuery == (if e.requestQuery != "" && AsksFor(policy, "request_query") then "[REDACTED]" else e.requestQuery)
    && stored.requestPath == (if e.requestPath != "" && AsksFor(policy, "request_path") then "[REDACTED]" else e.requestPath)
    && stored.clientIP == (if AsksFor(policy, "client_ip") then None else e.clientIP)
    && stored.eventTime == e.eventTime && stored.rest == e.rest
    && stored.finiteScore == e.finiteScore && stored.unknownFields == e.unknownFields
  }

  lemma RedactShowsWhatItMay(policy: seq<string>, e: Event)
    ensures ShowsWhatItMay(policy, e, Redact(e, policy))
  {
    MaskedIsAsked(policy, "user_agent");
    MaskedIsAsked(policy, "request_query");
    MaskedIsAsked(policy, "request_path");
    MaskedIsAsked(policy, "client_ip");
    hide Masked, AsksFor;
  }

  // An envelope is normalized exactly when its vendor is known, its payload parses to an event whose
  // time is plausible against its receipt, and its tenant's policy could be read; its row then says
  // what the adapter said, but for the fields the policy asks for.
  lemma NormalizedExactlyWhen(lib: Library, policies: Policies, env: Envelope)
    ensures var content := Content(ToLower(env.vendor), env.payload, env.format);
      Normalize(lib, policies, env).Ok? <==>
      (&& ToLower(env.vendor) in lib.vendors && content in lib.events && lib.events[content].Ok?
       && env.receivedAt - 90 * 24 * 3600 * 1_000_000_000 <= lib.events[content].value.eventTime
       && lib.events[content].value.eventTime <= env.receivedAt + 5 * 60 * 1_000_000_000
       && env.tenant in policies)
    ensures Normalize(lib, policies, env).Ok? ==>
      var row, e := Normalize(lib, policies, env).value, lib.events[Content(ToLower(env.vendor), env.payload, env.format)].value;
      RawRowOf(env, row) && ShowsWhatItMay(policies[env.tenant], e, row.value.event)
  {
    hide ShowsWhatItMay, Redact, ToLower;
    if env.tenant in policies && Understand(lib, env).Ok? {
      RedactShowsWhatItMay(policies[env.tenant], Understand(lib, env).value);
    }
  }

  // A rejected row says why: the vendor is not known, the payload gives no event, its time is not
  // plausible, or the policy could not be read; only a time is reported as such.
  lemma RejectedBecause(lib: Library, policies: Policies, env: Envelope)
    requires Normalize(lib, policies, env).Err?
    ensures var content := Content(ToLower(env.vendor), env.payload, env.format);
      var r := Rejection(env, Normalize(lib, policies, env).error);
      && RawRowOfRejected(env, r)
      && (r.reason == TimestampRange <==> r.detail == TimestampOutOfRange)
      && if ToLower(env.vendor) !in lib.vendors then r.detail == UnknownVendor
         else if content !in lib.events then r.detail == Unparseable
         else if lib.events[content].Err? then r.detail == lib.events[content].error
         else if !AgeIsPlausible(lib.events[content].value.eventTime, env.receivedAt) then r.detail == TimestampOutOfRange
         else r.detail == NoPolicy && env.tenant !in policies
  {
  }

  predicate Drifts(lib: Library, policies: Policies, env: Envelope, tenant: string, feed: string) {
    && env.tenant == tenant && env.feed == feed
    && Normalize(lib, policies, env).Ok? && Normalize(lib, policies, env).value.value.event.unknownFields
  }

  // The tally of a feed is the number of its normalized events that met unknown fields.
  lemma {:induction false} DriftCounts(lib: Library, policies: Policies, envs: seq<Envelope>, tenant: string, feed: string)
    ensures Drift(lib, policies, envs, tenant, feed)
         == |set i | 0 <= i < |envs| && Drifts(lib, policies, envs[i], tenant, feed)|
  {
    hide *;
    DriftStep(lib, policies, envs, tenant, feed);
    if envs != [] {
      var n := |envs| - 1;
      var init := envs[..n];
      DriftCounts(lib, policies, init, tenant, feed);
      var before := set i | 0 <= i < |init| && Drifts(lib, policies, init[i], tenant, feed);
      var after := set i | 0 <= i < |envs| && Drifts(lib, policies, envs[i], tenant, feed);
      assert after == if Drifts(lib, policies, envs[n], tenant, feed) then before + {n} else before;
    }
  }

  lemma DriftStep(lib: Library, policies: Policies, envs: seq<Envelope>, tenant: string, feed: string)
    ensures envs == [] ==> Drift(lib, policies, envs, tenant, feed) == 0
    ensures envs != [] ==>
      Drift(lib, policies, envs, tenant, feed)
      == Drift(lib, policies, envs[..|envs| - 1], tenant, feed)
         + if Drifts(lib, policies, envs[|envs| - 1], tenant, feed) then 1 else 0
  {
    hide Normalize;
  }

  // ---------------------------------------------------------------- raw first

  predicate RawRowOf(env: Envelope, row: NormalRow) {
    env.eventID == row.key && env.receivedAt == row.version && env.tenant == row.value.tenant
    && env.feed == row.value.feed && env.vendor == row.value.sourceVendor
  }

  predicate RawRowOfRejected(env: Envelope, r: RejectedRow) {
    env.tenant == r.tenant && env.feed == r.feed && env.vendor == r.vendor && env.payload == r.payload
    && env.batchID == r.batchID
  }

  // Every derived row already has the raw event it came from.
  ghost predicate RawFirst(st: Stored) {
    && (forall row | row in st.normalized :: exists env :: env in st.raw && RawRowOf(env, row))
    && (forall row | row in st.published :: exists env :: env in st.raw && RawRowOf(env, row))
    && (forall r | r in st.rejected :: exists env :: env in st.raw && RawRowOfRejected(env, r))
  }

  lemma {:induction false} DerivedRowsHaveSources(lib: Library, policies: Policies, envs: seq<Envelope>)
    ensures forall row | row in Normalized(lib, policies, envs) :: exists env :: env in envs && RawRowOf(env, row)
    ensures forall r | r in Rejected(lib, policies, envs) :: exists env :: env in envs && RawRowOfRejected(env, r)
  {
    if envs != [] {
      var init, last := envs[..|envs| - 1], envs[|envs| - 1];
      DerivedRowsHaveSources(lib, policies, init);
      OneHasItsSource(lib, policies, last);
      assert forall env | env in init :: env in envs;
      assert last in envs;
    }
  }

  lemma OneHasItsSource(lib: Library, policies: Policies, env: Envelope)
    ensures Normalize(lib, policies, env).Ok? ==> RawRowOf(env, Normalize(lib, policies, env).value)
    ensures Normalize(lib, policies, env).Err? ==>
      RawRowOfRejected(env, Rejection(env, Normalize(lib, policies, env).error))
  {
  }

  lemma {:induction false} EncodableAreRows(rows: seq<NormalRow>)
    ensures forall row :: row in Encodable(rows) <==> row in rows && row.value.event.finiteScore
  {
    if rows != [] {
      EncodableAreRows(rows[..|rows| - 1]);
      assert rows == rows[..|rows| - 1] + [rows[|rows| - 1]];
    }
  }

  // One record is done exactly when it decodes, its raw event was stored, and then either its rejection
  // was, or its row was stored and the event, having a JSON form, was published.
  lemma HandleDoneExactlyWhen(lib: Library, policies: Policies, record: string, st: Stored, f: Faults)
    ensures HandleOutcome(lib, policies, record, st, f).done <==>
      && record in lib.envelopes && f.raw.Works?
      && match Normalize(lib, policies, lib.envelopes[record])
         case Err(_) => f.rejected.Works?
         case Ok(row) => f.normalized.Works? && row.value.event.finiteScore && f.publish.Works?
  {
    hide Normalize;
  }

  // A batch is done exactly when each of its four writes worked or had nothing to write.
  lemma BatchDoneExactlyWhen(lib: Library, policies: Policies, records: seq<string>, st: Stored, f: Faults)
    ensures var envs := Decoded(lib, records);
      BatchOutcome(lib, policies, records, st, f).done <==>
      && (f.raw.Works? || envs == [])
      && (f.normalized.Works? || Normalized(lib, policies, envs) == [])
      && (f.rejected.Works? || Rejected(lib, policies, envs) == [])
      && (f.publish.Works? || forall row | row in Normalized(lib, policies, envs) :: !row.value.event.finiteScore)
  {
    hide Normalized, Rejected, Decoded, Encodable;
    var rows := Normalized(lib, policies, Decoded(lib, records));
    EncodableAreRows(rows);
    if Encodable(rows) != [] {
      assert Encodable(rows)[0] in Encodable(rows);
    }
  }

  // Extending the raw table and then, with rows that have their sources in it, the others.
  lemma ExtendRawFirst(st: Stored, raw: seq<Envelope>, rows: seq<NormalRow>, refused: seq<RejectedRow>,
                       messages: seq<NormalRow>)
    requires RawFirst(st)
    requires forall row | row in rows || row in messages :: exists env :: env in raw && RawRowOf(env, row)
    requires forall r | r in refused :: exists env :: env in raw && RawRowOfRejected(env, r)
    ensures RawFirst(Stored(st.raw + raw, st.normalized + rows, st.rejected + refused, st.published + messages))
  {
    hide RawRowOf, RawRowOfRejected;
    var all := st.raw + raw;
    assert forall env | env in st.raw || env in raw :: env in all;
  }

  lemma LandedAreRows<T>(rows: seq<T>, w: Write)
    ensures forall r | r in Landed(rows, w) :: r in rows
    ensures Succeeds(rows, w) ==> Landed(rows, w) == rows
  {
  }

  // Whatever fails and wherever, no derived row is stored before its raw event.
  lemma BatchKeepsRawFirst(lib: Library, policies: Policies, records: seq<string>, st: Stored, f: Faults)
    requires RawFirst(st)
    ensures RawFirst(BatchOutcome(lib, policies, records, st, f).stored)
  {
    hide BatchOutcome, Decoded, Normalized, Rejected, Encodable, RawRowOf, RawRowOfRejected, RawFirst;
    var junk := BatchLands(lib, policies, records, st, f);
    var envs := Decoded(lib, records);
    DerivedRowsHaveSources(lib, policies, envs);
    EncodableAreRows(Normalized(lib, policies, envs));
    ExtendRawFirst(st, junk.raw, junk.normalized, junk.rejected, junk.published);
  }

  // What an attempt adds: rows of the batch only, and nothing derived unless every raw row is in.
  ghost predicate IsPartOf(lib: Library, policies: Policies, envs: seq<Envelope>, junk: Stored) {
    && (forall e | e in junk.raw :: e in envs)
    && (forall r | r in junk.normalized :: r in Normalized(lib, policies, envs))
    && (forall r | r in junk.rejected :: r in Rejected(lib, policies, envs))
    && (forall r | r in junk.published :: r in Encodable(Normalized(lib, policies, envs)))
    && (junk.raw == envs || (junk.normalized == [] && junk.rejected == [] && junk.published == []))
  }

  function Plus(a: Stored, b: Stored): Stored {
    Stored(a.raw + b.raw, a.normalized + b.normalized, a.rejected + b.rejected, a.published + b.published)
  }

  lemma BatchLands(lib: Library, policies: Policies, records: seq<string>, st: Stored, f: Faults) returns (junk: Stored)
    ensures BatchOutcome(lib, policies, records, st, f).stored == Plus(st, junk)
    ensures IsPartOf(lib, policies, Decoded(lib, records), junk)
    ensures BatchOutcome(lib, policies, records, st, f).done ==>
      var envs := Decoded(lib, records);
      junk == Stored(envs, Normalized(lib, policies, envs), Rejected(lib, policies, envs),
                     Encodable(Normalized(lib, policies, envs)))
  {
    hide Decoded, Normalized, Rejected, Encodable, Landed, Succeeds;
    var envs := Decoded(lib, records);
    var rows, refused := Normalized(lib, policies, envs), Rejected(lib, policies, envs);
    LandedAreRows(envs, f.raw);
    LandedAreRows(rows, f.normalized);
    LandedAreRows(refused, f.rejected);
    LandedAreRows(Encodable(rows), f.publish);
    junk := Stored(
      Landed(envs, f.raw),
      if Succeeds(envs, f.raw) then Landed(rows, f.normalized) else [],
      if Succeeds(envs, f.raw) && Succeeds(rows, f.normalized) then Landed(refused, f.rejected) else [],
      if Succeeds(envs, f.raw) && Succeeds(rows, f.normalized) && Succeeds(refused, f.rejected)
      then Landed(Encodable(rows), f.publish) else []);
  }

  // ---------------------------------------------------------------- retries

  // Attempt after attempt over the same records.
  function AfterAttempts(lib: Library, policies: Policies, records: seq<string>, st: Stored, fs: seq<Faults>): Stored {
    if fs == [] then st
    else BatchOutcome(lib, policies, records, AfterAttempts(lib, policies, records, st, fs[..|fs| - 1]),
                      fs[|fs| - 1]).stored
  }

  lemma {:induction false} AttemptsAddParts(lib: Library, policies: Policies, records: seq<string>, st: Stored,
                                            fs: seq<Faults>)
      returns (junk: Stored)
    ensures AfterAttempts(lib, policies, records, st, fs) == Plus(st, junk)
    ensures var envs := Decoded(lib, records);
      && (forall e | e in junk.raw :: e in envs)
      && (forall r | r in junk.normalized :: r in Normalized(lib, policies, envs))
      && (forall r | r in junk.rejected :: r in Rejected(lib, policies, envs))
      && (forall r | r in junk.published :: r in Encodable(Normalized(lib, policies, envs)))
  {
    hide BatchOutcome, Decoded, Normalized, Rejected, Encodable;
    if fs == [] {
      junk := Stored([], [], [], []);
    } else {
      var earlier := AttemptsAddParts(lib, policies, records, st, fs[..|fs| - 1]);
      var last := BatchLands(lib, policies, records, Plus(st, earlier), fs[|fs| - 1]);
      junk := Plus(earlier, last);
    }
  }

  // Rows that come again in a later insert change no key's newest row.
  lemma {:induction false} RepeatsAreAbsorbed<T>(before: seq<Row<T>>, junk: seq<Row<T>>, rows: seq<Row<T>>, key: string)
    requires forall r | r in junk :: r in rows
    ensures Newest(before + junk + rows, key) == Newest(before + rows, key)
  {
    NewestConcat(before + junk, rows, key);
    NewestConcat(before, junk, key);
    NewestConcat(before, rows, key);
    NewestIsMaximal(junk, key);
    NewestIsMaximal(rows, key);
  }

  lemma SameElements<T>(before: seq<T>, junk: seq<T>, rows: seq<T>)
    requires forall r | r in junk :: r in rows
    ensures ToSet(before + junk + rows) == ToSet(before + rows)
  {
  }

  // Any number of attempts failing anywhere, then one that succeeds: every table holds the same rows
  // as after one clean run, and every event's newest normalized row is the same.
  lemma RetriesAreHarmless(lib: Library, policies: Policies, records: seq<string>, st: Stored, fs: seq<Faults>,
                           last: Faults)
    requires BatchOutcome(lib, policies, records, AfterAttempts(lib, policies, records, st, fs), last).done
    ensures var final := AfterAttempts(lib, policies, records, st, fs + [last]);
      var clean := BatchStored(lib, policies, records, st);
      && ToSet(final.raw) == ToSet(clean.raw)
      && ToSet(final.normalized) == ToSet(clean.normalized)
      && ToSet(final.rejected) == ToSet(clean.rejected)
      && ToSet(final.published) == ToSet(clean.published)
      && forall id :: Newest(final.normalized, id) == Newest(clean.normalized, id)
  {
    hide BatchOutcome, Decoded, Normalized, Rejected, Encodable, Newest, ToSet;
    assert (fs + [last])[..|fs|] == fs;
    var junk := AttemptsAddParts(lib, policies, records, st, fs);
    var success := BatchLands(lib, policies, records, Plus(st, junk), last);
    BatchAppends(lib, policies, records, st);
    SameElements(st.raw, junk.raw, success.raw);
    SameElements(st.normalized, junk.normalized, success.normalized);
    SameElements(st.rejected, junk.rejected, success.rejected);
    SameElements(st.published, junk.published, success.published);
    forall id
      ensures Newest(st.normalized + junk.normalized + success.normalized, id)
           == Newest(st.normalized + success.normalized, id)
    {
      RepeatsAreAbsorbed(st.normalized, junk.normalized, success.normalized, id);
    }
  }

  // ---------------------------------------------------------------- redaction

  // A row of a fetch shows of its event what the tenant's policy lets it show.
  ghost predicate IsRedactedRow(lib: Library, policies: Policies, envs: seq<Envelope>, row: NormalRow) {
    exists env | env in envs ::
      && RawRowOf(env, row) && env.tenant in policies
      && var content := Content(ToLower(env.vendor), env.payload, env.format);
         content in lib.events && lib.events[content].Ok?
         && ShowsWhatItMay(policies[env.tenant], lib.events[content].value, row.value.event)
  }

  lemma {:induction false} NormalizedRowsAreRedacted(lib: Library, policies: Policies, envs: seq<Envelope>, row: NormalRow)
    requires row in Normalized(lib, policies, envs)
    ensures IsRedactedRow(lib, policies, envs, row)
  {
    hide Normalize, ShowsWhatItMay, RawRowOf, ToLower;
    var init, last := envs[..|envs| - 1], envs[|envs| - 1];
    assert envs == init + [last];
    if row in Normalized(lib, policies, init) {
      NormalizedRowsAreRedacted(lib, policies, init, row);
    } else {
      NormalizedExactlyWhen(lib, policies, last);
    }
  }

  // A field a tenant's policy asks for, in whatever case it is written, is never stored or published
  // in readable form, and every other field is stored as the adapter gave it, whatever fails.
  lemma MaskedFieldsAreNeverStored(lib: Library, policies: Policies, records: seq<string>, st: Stored, f: Faults, row: NormalRow)
    requires var after := BatchOutcome(lib, policies, records, st, f).stored;
      (row in after.normalized && row !in st.normalized) || (row in after.published && row !in st.published)
    ensures IsRedactedRow(lib, policies, Decoded(lib, records), row)
  {
    hide *;
    var junk := BatchLands(lib, policies, records, st, f);
    PartsAre(lib, policies, Decoded(lib, records), st, junk);
    EncodableAreRows(Normalized(lib, policies, Decoded(lib, records)));
    NormalizedRowsAreRedacted(lib, policies, Decoded(lib, records), row);
  }

  lemma PartsAre(lib: Library, policies: Policies, envs: seq<Envelope>, st: Stored, junk: Stored)
    requires IsPartOf(lib, policies, envs, junk)
    ensures forall r | r in Plus(st, junk).normalized :: r in st.normalized || r in Normalized(lib, policies, envs)
    ensures forall r | r in Plus(st, junk).published :: r in st.published || r in Encodable(Normalized(lib, policies, envs))
  {
    hide Normalized, Encodable;
  }
}
