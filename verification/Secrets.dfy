// Feed credentials in a cache in front of a sealed durable copy (backend/internal/secrets).
//
// Every call into the cache or the database may fail, and a write that reports a failure may have
// landed all the same. The cache may lose anything at any time. Sealing is modelled as perfect:
// opening a sealed secret gives the secret back.

module Secrets {
  import opened Wrappers
  import opened Replacing

  datatype Copy = Tombstone | Sealed(secret: string)

  // The two stores, and the clock whose reading each durable write takes as its version.
  datatype Stores = Stores(rows: seq<Row<Copy>>, clock: nat, cache: map<string, string>)

  datatype WriteOutcome = Works | Refused | LandsUnseen

  // What goes wrong during one operation: whether reads get through, and what becomes of the writes.
  datatype Faults = Faults(cacheUp: bool, durableUp: bool, durableWrite: WriteOutcome, cacheWrite: WriteOutcome)

  datatype SecretError = NotFound | Unreachable | Invalid

  function DurableCopy(s: Stores, ref: string): Option<string> {
    match Newest(s.rows, ref)
    case None => None
    case Some(row) => if row.value.Sealed? then Some(row.value.secret) else None
  }

  // ---------------------------------------------------------------- what each operation does

  function WriteRow(s: Stores, ref: string, copy: Copy, outcome: WriteOutcome): Stores {
    var now := s.clock + 1;
    if outcome.Refused? then s.(clock := now)
    else s.(clock := now, rows := s.rows + [Row(ref, now, copy)])
  }

  // The cache refuses an empty secret and an empty reference.
  function FillCache(s: Stores, ref: string, secret: string, outcome: WriteOutcome): Stores {
    if secret == "" || ref == "" || outcome.Refused? then s else s.(cache := s.cache[ref := secret])
  }

  function ResolveDurable(s: Stores, ref: string, up: bool): Result<string, SecretError> {
    if ref == "" then Err(NotFound)
    else if !up then Err(Unreachable)
    else
      match DurableCopy(s, ref)
      case None => Err(NotFound)
      case Some(secret) => Ok(secret)
  }

  function ResolveCache(s: Stores, ref: string, up: bool): Result<string, SecretError> {
    if ref == "" then Err(NotFound)
    else if !up then Err(Unreachable)
    else if ref !in s.cache || s.cache[ref] == "" then Err(NotFound)
    else Ok(s.cache[ref])
  }

  // The stores, one process's memo of references known to be durable, and the reply.
  datatype Outcome<T> = Outcome(stores: Stores, memo: set<string>, reply: Result<T, SecretError>)

  function EnsureDurableOutcome(s: Stores, memo: set<string>, ref: string, secret: string, f: Faults): Outcome<()> {
    if ref in memo then Outcome(s, memo, Ok(()))
    else
      match ResolveDurable(s, ref, f.durableUp)
      case Ok(_) => Outcome(s, memo + {ref}, Ok(()))
      case Err(NotFound) =>
        Outcome(if ref == "" then s else WriteRow(s, ref, Sealed(secret), f.durableWrite),
                if ref != "" && f.durableWrite.Works? then memo + {ref} else memo,
                Ok(()))
      case Err(_) => Outcome(s, memo, Ok(()))
  }

  function ResolveOutcome(s: Stores, memo: set<string>, ref: string, f: Faults): Outcome<string> {
    match ResolveCache(s, ref, f.cacheUp)
    case Ok(secret) =>
      var after := EnsureDurableOutcome(s, memo, ref, secret, f);
      Outcome(after.stores, after.memo, Ok(secret))
    case Err(_) =>
      match ResolveDurable(s, ref, f.durableUp)
      case Err(e) => Outcome(s, memo, Err(e))
      case Ok(secret) => Outcome(FillCache(s, ref, secret, f.cacheWrite), memo + {ref}, Ok(secret))
  }

  // Under the reference the store minted.
  function PutOutcome(s: Stores, memo: set<string>, ref: string, secret: string, f: Faults): Outcome<string> {
    var written := WriteRow(s, ref, Sealed(secret), f.durableWrite);
    if !f.durableWrite.Works? then Outcome(written, memo, Err(Unreachable))
    else Outcome(FillCache(written, ref, secret, f.cacheWrite), memo, Ok(ref))
  }

  function DeleteOutcome(s: Stores, memo: set<string>, ref: string, f: Faults): Outcome<()> {
    if ref == "" then Outcome(s, memo, Ok(()))
    else
      var marked := WriteRow(s, ref, Tombstone, f.durableWrite);
      if !f.durableWrite.Works? then Outcome(marked, memo, Err(Unreachable))
      else
        var gone := if f.cacheWrite.Refused? then marked else marked.(cache := marked.cache - {ref});
        Outcome(gone, memo, if f.cacheWrite.Works? then Ok(()) else Err(Unreachable))
  }

  // ---------------------------------------------------------------- the program

  class Cache {
    var entries: map<string, string>

    constructor ()
      ensures entries == map[]
    {
      entries := map[];
    }

    method PutRef(ref: string, secret: string, outcome: WriteOutcome) returns (error: Option<SecretError>)
      modifies this
      ensures entries == if secret == "" || ref == "" || outcome.Refused? then old(entries) else old(entries)[ref := secret]
      ensures error.None? <==> secret != "" && ref != "" && outcome.Works?
    {
      if secret == "" || ref == "" {
        return Some(Invalid);
      }
      if !outcome.Refused? {
        entries := entries[ref := secret];
      }
      return if outcome.Works? then None else Some(Unreachable);
    }

    method Resolve(ref: string, up: bool) returns (r: Result<string, SecretError>)
      ensures forall s: Stores | s.cache == entries :: r == ResolveCache(s, ref, up)
    {
      if ref == "" {
        return Err(NotFound);
      }
      if !up {
        return Err(Unreachable);
      }
      var secret := if ref in entries then entries[ref] else "";
      if secret == "" {
        return Err(NotFound);
      }
      return Ok(secret);
    }

    method Delete(ref: string, outcome: WriteOutcome) returns (error: Option<SecretError>)
      modifies this
      ensures entries == if ref == "" || outcome.Refused? then old(entries) else old(entries) - {ref}
      ensures error.None? <==> ref == "" || outcome.Works?
    {
      if ref == "" {
        return None;
      }
      if !outcome.Refused? {
        entries := entries - {ref};
      }
      return if outcome.Works? then None else Some(Unreachable);
    }
  }

  class DurableStore {
    var rows: seq<Row<Copy>>
    var clock: nat

    constructor ()
      ensures rows == [] && clock == 0
    {
      rows, clock := [], 0;
    }

    method Write(ref: string, copy: Copy, outcome: WriteOutcome) returns (error: Option<SecretError>)
      modifies this
      ensures forall c :: Stores(rows, clock, c) == WriteRow(Stores(old(rows), old(clock), c), ref, copy, outcome)
      ensures error.None? <==> outcome.Works?
    {
      clock := clock + 1;
      if !outcome.Refused? {
        rows := rows + [Row(ref, clock, copy)];
      }
      return if outcome.Works? then None else Some(Unreachable);
    }

    method PutRef(ref: string, secret: string, outcome: WriteOutcome) returns (error: Option<SecretError>)
      modifies this
      ensures forall c :: (Stores(rows, clock, c)
        == if ref == "" then Stores(old(rows), old(clock), c)
           else WriteRow(Stores(old(rows), old(clock), c), ref, Sealed(secret), outcome))
      ensures error.None? <==> ref != "" && outcome.Works?
    {
      if ref == "" {
        return Some(Invalid);
      }
      error := Write(ref, Sealed(secret), outcome);
    }

    method Resolve(ref: string, up: bool) returns (r: Result<string, SecretError>)
      ensures forall s: Stores | s.rows == rows :: r == ResolveDurable(s, ref, up)
    {
      if ref == "" {
        return Err(NotFound);
      }
      if !up {
        return Err(Unreachable);
      }
      var row := Newest(rows, ref);
      if row.None? || row.value.value.Tombstone? {
        return Err(NotFound);
      }
      return Ok(row.value.value.secret);
    }

    method Delete(ref: string, outcome: WriteOutcome) returns (error: Option<SecretError>)
      modifies this
      ensures forall c :: (Stores(rows, clock, c)
        == if ref == "" then Stores(old(rows), old(clock), c)
           else WriteRow(Stores(old(rows), old(clock), c), ref, Tombstone, outcome))
      ensures error.None? <==> ref == "" || outcome.Works?
    {
      if ref == "" {
        return None;
      }
      error := Write(ref, Tombstone, outcome);
    }
  }

  // One process. Several of them share a cache and a durable store.
  class Tiered {
    const cache: Cache
    const durable: DurableStore
    var backfilled: set<string>

    constructor (cache: Cache, durable: DurableStore)
      ensures this.cache == cache && this.durable == durable && backfilled == {}
    {
      this.cache, this.durable, backfilled := cache, durable, {};
    }

    ghost function Shared(): Stores
      reads cache, durable
    {
      Stores(durable.rows, durable.clock, cache.entries)
    }

    method EnsureDurable(ref: string, secret: string, f: Faults)
      modifies this, durable
      ensures var o := EnsureDurableOutcome(old(Shared()), old(backfilled), ref, secret, f);
        Shared() == o.stores && backfilled == o.memo
    {
      if ref in backfilled {
        return;
      }
      ghost var before := backfilled;
      backfilled := backfilled + {ref};
      var known := durable.Resolve(ref, f.durableUp);
      assert known == ResolveDurable(old(Shared()), ref, f.durableUp);
      if known.Ok? {
        return;
      } else if known.error != NotFound {
        backfilled := backfilled - {ref};
        assert backfilled == before;
        return;
      }
      var error := durable.PutRef(ref, secret, f.durableWrite);
      if error.Some? {
        backfilled := backfilled - {ref};
        assert backfilled == before;
      }
    }

    method Put(ref: string, secret: string, f: Faults) returns (reply: Result<string, SecretError>)
      modifies cache, durable
      ensures Outcome(Shared(), backfilled, reply) == PutOutcome(old(Shared()), backfilled, ref, secret, f)
    {
      var error := durable.Write(ref, Sealed(secret), f.durableWrite);
      if error.Some? {
        return Err(Unreachable);
      }
      var ignored := cache.PutRef(ref, secret, f.cacheWrite);
      return Ok(ref);
    }

    method Resolve(ref: string, f: Faults) returns (reply: Result<string, SecretError>)
      modifies this, cache, durable
      ensures Outcome(Shared(), backfilled, reply) == ResolveOutcome(old(Shared()), old(backfilled), ref, f)
    {
      var cached := cache.Resolve(ref, f.cacheUp);
      assert cached == ResolveCache(old(Shared()), ref, f.cacheUp);
      if cached.Ok? && cached.value != "" {
        EnsureDurable(ref, cached.value, f);
        return Ok(cached.value);
      }
      var stored := durable.Resolve(ref, f.durableUp);
      assert stored == ResolveDurable(old(Shared()), ref, f.durableUp);
      if stored.Err? {
        return Err(stored.error);
      }
      backfilled := backfilled + {ref};
      var ignored := cache.PutRef(ref, stored.value, f.cacheWrite);
      return Ok(stored.value);
    }

    method Delete(ref: string, f: Faults) returns (reply: Result<(), SecretError>)
      modifies cache, durable
      ensures Outcome(Shared(), backfilled, reply) == DeleteOutcome(old(Shared()), backfilled, ref, f)
    {
      var error := durable.Delete(ref, f.durableWrite);
      if error.Some? {
        return Err(Unreachable);
      }
      error := cache.Delete(ref, f.cacheWrite);
      if error.Some? {
        return Err(Unreachable);
      }
      return Ok(());
    }
  }
}

// Runs of several processes over the shared stores.
module SecretRuns {
  import opened Wrappers
  import opened Replacing
  import opened Secrets

  datatype World = World(stores: Stores, memos: map<nat, set<string>>)

  datatype Step =
    | DoPut(process: nat, ref: string, secret: string, faults: Faults)
    | DoResolve(process: nat, ref: string, faults: Faults)
    | DoDelete(process: nat, ref: string, faults: Faults)
    | LoseFromCache(refs: set<string>)
    | Restart(process: nat)

  function Memo(w: World, process: nat): set<string> {
    if process in w.memos then w.memos[process] else {}
  }

  function Keys(rows: seq<Row<Copy>>): set<string> {
    set r | r in rows :: r.key
  }

  // A minted reference is new to both stores.
  predicate Allowed(w: World, step: Step) {
    step.DoPut? ==> step.ref != "" && step.ref !in Keys(w.stores.rows) && step.ref !in w.stores.cache
  }

  function Next(w: World, step: Step): World {
    match step
    case DoPut(p, ref, secret, f) => w.(stores := PutOutcome(w.stores, Memo(w, p), ref, secret, f).stores)
    case DoResolve(p, ref, f) =>
      var o := ResolveOutcome(w.stores, Memo(w, p), ref, f);
      World(o.stores, w.memos[p := o.memo])
    case DoDelete(p, ref, f) => w.(stores := DeleteOutcome(w.stores, Memo(w, p), ref, f).stores)
    case LoseFromCache(refs) => w.(stores := w.stores.(cache := w.stores.cache - refs))
    case Restart(p) => w.(memos := w.memos[p := {}])
  }

  function Answer(w: World, process: nat, ref: string, f: Faults): Result<string, SecretError> {
    ResolveOutcome(w.stores, Memo(w, process), ref, f).reply
  }

  ghost predicate AllowedRun(w: World, steps: seq<Step>)
    decreases |steps|
  {
    steps != [] ==> Allowed(w, steps[0]) && AllowedRun(Next(w, steps[0]), steps[1..])
  }

  function Run(w: World, steps: seq<Step>): World
    decreases |steps|
  {
    if steps == [] then w else Run(Next(w, steps[0]), steps[1..])
  }

  // No version is ahead of the clock, and a reference some process has marked has had a durable row.
  ghost predicate WellFormed(w: World) {
    && (forall r | r in w.stores.rows :: r.version <= w.stores.clock)
    && (forall p, ref | ref in Memo(w, p) :: ref in Keys(w.stores.rows))
  }

  // The secret is stored, and the cache has nothing else under its reference.
  predicate Held(w: World, ref: string, secret: string) {
    && ref != "" && DurableCopy(w.stores, ref) == Some(secret)
    && (ref in w.stores.cache ==> w.stores.cache[ref] == secret)
  }

  predicate Gone(w: World, ref: string) {
    ref != "" && ref in Keys(w.stores.rows) && DurableCopy(w.stores, ref) == None && ref !in w.stores.cache
  }

  // ---------------------------------------------------------------- one step

  lemma AppendedRow(rows: seq<Row<Copy>>, row: Row<Copy>, other: string)
    requires forall r | r in rows :: r.version < row.version
    ensures Newest(rows + [row], row.key) == Some(row)
    ensures other != row.key ==> Newest(rows + [row], other) == Newest(rows, other)
    ensures Keys(rows + [row]) == Keys(rows) + {row.key}
  {
    assert (rows + [row])[..|rows|] == rows;
    NewestIsMaximal(rows, row.key);
  }

  // A durable write is the newest of its reference, and leaves every other reference alone.
  lemma WriteIsNewest(s: Stores, ref: string, copy: Copy, outcome: WriteOutcome, other: string)
    requires forall r | r in s.rows :: r.version <= s.clock
    ensures var t := WriteRow(s, ref, copy, outcome);
      && t.cache == s.cache
      && (forall r | r in t.rows :: r.version <= t.clock)
      && Keys(t.rows) == Keys(s.rows) + (if outcome.Refused? then {} else {ref})
      && (!outcome.Refused? ==> DurableCopy(t, ref) == if copy.Sealed? then Some(copy.secret) else None)
      && (outcome.Refused? || other != ref ==> DurableCopy(t, other) == DurableCopy(s, other))
  {
    hide Newest, Keys;
    var row := Row(ref, s.clock + 1, copy);
    AppendedRow(s.rows, row, other);
  }

  lemma MarkedHaveRows(w: World, ref: string)
    requires WellFormed(w)
    ensures Newest(w.stores.rows, ref).Some? ==> ref in Keys(w.stores.rows)
  {
    NewestIsMaximal(w.stores.rows, ref);
  }

  lemma StepKeepsWellFormed(w: World, step: Step)
    requires WellFormed(w)
    ensures WellFormed(Next(w, step)) && Keys(w.stores.rows) <= Keys(Next(w, step).stores.rows)
  {
    hide WriteRow, Keys;
    var next := Next(w, step);
    match step {
      case DoPut(p, ref, secret, f) => WriteIsNewest(w.stores, ref, Sealed(secret), f.durableWrite, ref);
      case DoDelete(p, ref, f) => WriteIsNewest(w.stores, ref, Tombstone, f.durableWrite, ref);
      case DoResolve(p, ref, f) =>
        MarkedHaveRows(w, ref);
        var cached := ResolveCache(w.stores, ref, f.cacheUp);
        if cached.Ok? {
          WriteIsNewest(w.stores, ref, Sealed(cached.value), f.durableWrite, ref);
        }
      case LoseFromCache(_) =>
      case Restart(_) =>
    }
    forall q, ref | ref in Memo(next, q) ensures ref in Keys(next.stores.rows) {
      if ref in Memo(w, q) {
        assert ref in Keys(w.stores.rows);
      }
    }
  }

  lemma StepKeepsHeld(w: World, step: Step, ref: string, secret: string)
    requires WellFormed(w) && Allowed(w, step) && Held(w, ref, secret)
    requires !(step.DoDelete? && step.ref == ref)
    ensures Held(Next(w, step), ref, secret)
  {
    hide WriteRow, Keys;
    MarkedHaveRows(w, ref);
    match step
    case DoPut(p, other, s, f) => WriteIsNewest(w.stores, other, Sealed(s), f.durableWrite, ref);
    case DoDelete(p, other, f) => WriteIsNewest(w.stores, other, Tombstone, f.durableWrite, ref);
    case DoResolve(p, other, f) =>
      var cached := ResolveCache(w.stores, other, f.cacheUp);
      if cached.Ok? {
        WriteIsNewest(w.stores, other, Sealed(cached.value), f.durableWrite, ref);
      }
    case LoseFromCache(_) =>
    case Restart(_) =>
  }

  lemma StepKeepsGone(w: World, step: Step, ref: string)
    requires WellFormed(w) && Allowed(w, step) && Gone(w, ref)
    ensures Gone(Next(w, step), ref)
  {
    hide WriteRow;
    match step
    case DoPut(p, other, s, f) => WriteIsNewest(w.stores, other, Sealed(s), f.durableWrite, ref);
    case DoDelete(p, other, f) => WriteIsNewest(w.stores, other, Tombstone, f.durableWrite, ref);
    case DoResolve(p, other, f) =>
      var cached := ResolveCache(w.stores, other, f.cacheUp);
      if cached.Ok? {
        WriteIsNewest(w.stores, other, Sealed(cached.value), f.durableWrite, ref);
      }
    case LoseFromCache(_) =>
    case Restart(_) =>
  }

  // ---------------------------------------------------------------- whole runs

  predicate Deletes(steps: seq<Step>, ref: string) {
    exists step | step in steps :: step.DoDelete? && step.ref == ref
  }

  lemma {:induction false} RunKeepsHeld(w: World, steps: seq<Step>, ref: string, secret: string)
    requires WellFormed(w) && AllowedRun(w, steps) && Held(w, ref, secret) && !Deletes(steps, ref)
    ensures WellFormed(Run(w, steps)) && Held(Run(w, steps), ref, secret)
    decreases |steps|
  {
    hide Next, WellFormed, Held, Allowed;
    if steps != [] {
      assert steps[0] in steps && forall step | step in steps[1..] :: step in steps;
      StepKeepsWellFormed(w, steps[0]);
      StepKeepsHeld(w, steps[0], ref, secret);
      RunKeepsHeld(Next(w, steps[0]), steps[1..], ref, secret);
    }
  }

  lemma {:induction false} RunKeepsGone(w: World, steps: seq<Step>, ref: string)
    requires WellFormed(w) && AllowedRun(w, steps) && Gone(w, ref)
    ensures WellFormed(Run(w, steps)) && Gone(Run(w, steps), ref)
    decreases |steps|
  {
    hide Next, WellFormed, Gone, Allowed;
    if steps != [] {
      StepKeepsWellFormed(w, steps[0]);
      StepKeepsGone(w, steps[0], ref);
      RunKeepsGone(Next(w, steps[0]), steps[1..], ref);
    }
  }

  // A marked reference has had a durable row, in every state a run from empty stores reaches.
  lemma MarksAreHonest(w: World, steps: seq<Step>)
    requires w.stores.rows == [] && forall p :: Memo(w, p) == {}
    ensures WellFormed(Run(w, steps))
  {
    RunKeepsWellFormed(w, steps);
  }

  lemma {:induction false} RunKeepsWellFormed(w: World, steps: seq<Step>)
    requires WellFormed(w)
    ensures WellFormed(Run(w, steps))
    decreases |steps|
  {
    hide Next, WellFormed;
    if steps != [] {
      StepKeepsWellFormed(w, steps[0]);
      RunKeepsWellFormed(Next(w, steps[0]), steps[1..]);
    }
  }

  // A run is its first step and the rest.
  lemma RunStep(w: World, step: Step, steps: seq<Step>)
    ensures Run(w, [step] + steps) == Run(Next(w, step), steps)
    ensures AllowedRun(w, [step] + steps) <==> Allowed(w, step) && AllowedRun(Next(w, step), steps)
  {
    hide Next, Allowed;
    assert ([step] + steps)[1..] == steps;
  }

  // What is held is answered, unless the database is needed and down.
  lemma HeldIsAnswered(w: World, ref: string, secret: string, q: nat, g: Faults)
    requires Held(w, ref, secret)
    ensures Answer(w, q, ref, g) == Ok(secret) || (Answer(w, q, ref, g) == Err(Unreachable) && !g.durableUp)
  {
    hide DurableCopy, WriteRow;
  }

  lemma GoneIsNotAnswered(w: World, ref: string, q: nat, g: Faults)
    requires Gone(w, ref)
    ensures Answer(w, q, ref, g).Err?
  {
    hide DurableCopy, WriteRow;
  }

  lemma PutHolds(w: World, ref: string, secret: string, p: nat, f: Faults)
    requires WellFormed(w) && Allowed(w, DoPut(p, ref, secret, f))
    requires PutOutcome(w.stores, Memo(w, p), ref, secret, f).reply.Ok?
    ensures Held(Next(w, DoPut(p, ref, secret, f)), ref, secret)
  {
    hide Newest, WriteRow;
    WriteIsNewest(w.stores, ref, Sealed(secret), f.durableWrite, ref);
  }

  lemma DeleteRemoves(w: World, ref: string, p: nat, f: Faults)
    requires WellFormed(w) && ref != "" && DeleteOutcome(w.stores, Memo(w, p), ref, f).reply.Ok?
    ensures Gone(Next(w, DoDelete(p, ref, f)), ref)
  {
    hide Newest, WriteRow;
    WriteIsNewest(w.stores, ref, Tombstone, f.durableWrite, ref);
  }

  lemma ResolveBackfills(w: World, ref: string, p: nat, f: Faults)
    requires WellFormed(w) && ref != "" && ref !in Keys(w.stores.rows)
    requires ref in w.stores.cache && w.stores.cache[ref] != ""
    requires f.cacheUp && f.durableUp && f.durableWrite.Works?
    ensures Held(Next(w, DoResolve(p, ref, f)), ref, w.stores.cache[ref])
    ensures Answer(w, p, ref, f) == Ok(w.stores.cache[ref])
  {
    MarkedHaveRows(w, ref);
    assert ref !in Memo(w, p) && DurableCopy(w.stores, ref) == None;
    WriteIsNewest(w.stores, ref, Sealed(w.stores.cache[ref]), f.durableWrite, ref);
    hide DurableCopy, WriteRow, Keys, WellFormed;
  }

  // After a Put that reported success and before any attempt to delete, whatever fails, restarts or
  // is lost in between, resolving gives that secret; the only other answer is that the durable
  // store cannot be reached.
  lemma PutThenResolve(w: World, ref: string, secret: string, p: nat, f: Faults, steps: seq<Step>, q: nat, g: Faults)
    requires WellFormed(w) && AllowedRun(w, [DoPut(p, ref, secret, f)] + steps) && !Deletes(steps, ref)
    requires PutOutcome(w.stores, Memo(w, p), ref, secret, f).reply.Ok?
    ensures var answer := Answer(Run(w, [DoPut(p, ref, secret, f)] + steps), q, ref, g);
      answer == Ok(secret) || (answer == Err(Unreachable) && !g.durableUp)
  {
    hide *;
    var put := DoPut(p, ref, secret, f);
    RunStep(w, put, steps);
    StepKeepsWellFormed(w, put);
    PutHolds(w, ref, secret, p, f);
    RunKeepsHeld(Next(w, put), steps, ref, secret);
    HeldIsAnswered(Run(w, [put] + steps), ref, secret, q, g);
  }

  // After a Delete that reported success it never resolves again.
  lemma DeleteThenResolve(w: World, ref: string, p: nat, f: Faults, steps: seq<Step>, q: nat, g: Faults)
    requires WellFormed(w) && AllowedRun(w, [DoDelete(p, ref, f)] + steps) && ref != ""
    requires DeleteOutcome(w.stores, Memo(w, p), ref, f).reply.Ok?
    ensures Answer(Run(w, [DoDelete(p, ref, f)] + steps), q, ref, g).Err?
  {
    hide *;
    var del := DoDelete(p, ref, f);
    RunStep(w, del, steps);
    StepKeepsWellFormed(w, del);
    DeleteRemoves(w, ref, p, f);
    RunKeepsGone(Next(w, del), steps, ref);
    GoneIsNotAnswered(Run(w, [del] + steps), ref, q, g);
  }

  // No Put leaves a credential in the cache alone: one that would work until the next restart and
  // then not.
  lemma PutWritesDurablyFirst(w: World, ref: string, secret: string, p: nat, f: Faults)
    requires WellFormed(w) && Allowed(w, DoPut(p, ref, secret, f))
    ensures var after := Next(w, DoPut(p, ref, secret, f)).stores;
      && (ref in after.cache ==> after.cache[ref] == secret && DurableCopy(after, ref) == Some(secret))
      && (f.durableWrite.Refused? ==> ref !in after.cache && DurableCopy(after, ref) == None)
  {
    MarkedHaveRows(w, ref);
    WriteIsNewest(w.stores, ref, Sealed(secret), f.durableWrite, ref);
  }

  // A Delete refused by the database leaves both copies as they were.
  lemma RefusedDeleteChangesNothing(w: World, ref: string, p: nat, f: Faults, other: string)
    requires WellFormed(w) && f.durableWrite.Refused? && ref != ""
    ensures DeleteOutcome(w.stores, Memo(w, p), ref, f).reply.Err?
    ensures var after := Next(w, DoDelete(p, ref, f)).stores;
      after.cache == w.stores.cache && DurableCopy(after, other) == DurableCopy(w.stores, other)
  {
    WriteIsNewest(w.stores, ref, Tombstone, f.durableWrite, other);
  }

  ghost predicate CacheIsBehind(w: World) {
    forall ref | ref in w.stores.cache :: ref in Keys(w.stores.rows)
  }

  // From a deployment whose cached credentials all have durable rows, no run caches one that has none.
  lemma {:induction false} CacheStaysBehind(w: World, steps: seq<Step>)
    requires WellFormed(w) && CacheIsBehind(w)
    ensures CacheIsBehind(Run(w, steps))
    decreases |steps|
  {
    hide Next, WellFormed, CacheIsBehind;
    if steps != [] {
      StepKeepsWellFormed(w, steps[0]);
      StepKeepsCacheBehind(w, steps[0]);
      CacheStaysBehind(Next(w, steps[0]), steps[1..]);
    }
  }

  lemma StepKeepsCacheBehind(w: World, step: Step)
    requires WellFormed(w) && CacheIsBehind(w)
    ensures CacheIsBehind(Next(w, step))
  {
    hide WriteRow, Keys;
    StepKeepsWellFormed(w, step);
    match step
    case DoPut(p, ref, secret, f) => WriteIsNewest(w.stores, ref, Sealed(secret), f.durableWrite, ref);
    case DoDelete(p, ref, f) => WriteIsNewest(w.stores, ref, Tombstone, f.durableWrite, ref);
    case DoResolve(p, ref, f) =>
      MarkedHaveRows(w, ref);
      var cached := ResolveCache(w.stores, ref, f.cacheUp);
      if cached.Ok? {
        WriteIsNewest(w.stores, ref, Sealed(cached.value), f.durableWrite, ref);
      }
    case LoseFromCache(_) =>
    case Restart(_) =>
  }

  // A credential that only the cache holds survives the loss of the cache once it has been resolved
  // with both stores reachable.
  lemma CacheOnlySecretSurvives(w: World, ref: string, p: nat, f: Faults, steps: seq<Step>, q: nat, g: Faults)
    requires WellFormed(w) && ref != "" && ref !in Keys(w.stores.rows)
    requires ref in w.stores.cache && w.stores.cache[ref] != ""
    requires f.cacheUp && f.durableUp && f.durableWrite.Works?
    requires AllowedRun(w, [DoResolve(p, ref, f)] + steps) && !Deletes(steps, ref)
    ensures var secret := w.stores.cache[ref];
      var answer := Answer(Run(w, [DoResolve(p, ref, f)] + steps), q, ref, g);
      && Answer(w, p, ref, f) == Ok(secret)
      && (answer == Ok(secret) || (answer == Err(Unreachable) && !g.durableUp))
  {
    hide *;
    var resolve, secret := DoResolve(p, ref, f), w.stores.cache[ref];
    RunStep(w, resolve, steps);
    StepKeepsWellFormed(w, resolve);
    ResolveBackfills(w, ref, p, f);
    RunKeepsHeld(Next(w, resolve), steps, ref, secret);
    HeldIsAnswered(Run(w, [resolve] + steps), ref, secret, q, g);
  }

  // A Delete that could not clear the cache leaves the credential working, and the next Resolve
  // even restores the durable copy: exactly when the cache answers, this process has not marked the
  // reference, and the database takes the read and the write.
  lemma FailedDeleteIsUndone(w: World, ref: string, secret: string, p: nat, f: Faults, q: nat, g: Faults)
    requires WellFormed(w) && Held(w, ref, secret) && secret != "" && ref in w.stores.cache
    requires f.durableWrite.Works? && f.cacheWrite.Refused?
    ensures DeleteOutcome(w.stores, Memo(w, p), ref, f).reply.Err?
    ensures var deleted := Next(w, DoDelete(p, ref, f));
      && DurableCopy(deleted.stores, ref) == None
      && (Answer(deleted, q, ref, g) == Ok(secret) <==> g.cacheUp)
      && (DurableCopy(Next(deleted, DoResolve(q, ref, g)).stores, ref) == Some(secret)
          <==> g.cacheUp && ref !in Memo(w, q) && g.durableUp && !g.durableWrite.Refused?)
  {
    hide DurableCopy, WriteRow, Keys, WellFormed;
    var deleted := Next(w, DoDelete(p, ref, f));
    StepKeepsWellFormed(w, DoDelete(p, ref, f));
    VersionsBehind(w);
    VersionsBehind(deleted);
    WriteIsNewest(w.stores, ref, Tombstone, f.durableWrite, ref);
    WriteIsNewest(deleted.stores, ref, Sealed(secret), g.durableWrite, ref);
  }

  lemma VersionsBehind(w: World)
    requires WellFormed(w)
    ensures forall r | r in w.stores.rows :: r.version <= w.stores.clock
  {
  }

  // A Put or a Resolve whose cache write landed leaves the cache able to answer with the database down;
  // an empty secret is never cached.
  lemma CacheAnswersAlone(w: World, ref: string, secret: string, p: nat, f: Faults, q: nat, g: Faults)
    requires ref != "" && g.cacheUp && !g.durableUp && !f.cacheWrite.Refused?
    ensures PutOutcome(w.stores, Memo(w, p), ref, secret, f).reply.Ok? ==>
      var after := Next(w, DoPut(p, ref, secret, f));
      if secret != "" then Answer(after, q, ref, g) == Ok(secret) else after.stores.cache == w.stores.cache
    ensures Answer(w, p, ref, f).Ok? && Answer(w, p, ref, f).value != "" ==>
      Answer(Next(w, DoResolve(p, ref, f)), q, ref, g) == Answer(w, p, ref, f)
  {
    hide DurableCopy;
  }

  // A Put writes one durable row and answers with its reference exactly when the database said so; only
  // then is the cache written.
  lemma PutSays(s: Stores, memo: set<string>, ref: string, secret: string, f: Faults)
    ensures var o := PutOutcome(s, memo, ref, secret, f);
      && o.reply == (if f.durableWrite.Works? then Ok(ref) else Err(Unreachable)) && o.memo == memo
      && o.stores.clock == s.clock + 1
      && o.stores.rows == (if f.durableWrite.Refused? then s.rows else s.rows + [Row(ref, s.clock + 1, Sealed(secret))])
      && o.stores.cache == (if f.durableWrite.Works? && !f.cacheWrite.Refused? && secret != "" && ref != ""
                            then s.cache[ref := secret] else s.cache)
  {
  }

  // A Delete writes one tombstone; only when the database took it does the cache forget the secret, and
  // the reply tells whether both did.
  lemma DeleteSays(s: Stores, memo: set<string>, ref: string, f: Faults)
    ensures var o := DeleteOutcome(s, memo, ref, f);
      && (o.reply.Ok? <==> ref == "" || (f.durableWrite.Works? && f.cacheWrite.Works?))
      && (o.reply.Err? ==> o.reply.error == Unreachable) && o.memo == memo
      && o.stores.rows == (if ref == "" || f.durableWrite.Refused? then s.rows
                           else s.rows + [Row(ref, s.clock + 1, Tombstone)])
      && o.stores.cache == (if ref != "" && f.durableWrite.Works? && !f.cacheWrite.Refused?
                            then s.cache - {ref} else s.cache)
  {
  }

  // The cache holds a usable secret and answers.
  predicate Cached(s: Stores, ref: string, f: Faults) {
    ref != "" && f.cacheUp && ref in s.cache && s.cache[ref] != ""
  }

  // A cached secret is answered whatever the database does, and written to it when it is missing there;
  // anything else is answered from the database and refills the cache.
  lemma ResolveSays(s: Stores, memo: set<string>, ref: string, f: Faults)
    ensures var o, known := ResolveOutcome(s, memo, ref, f), DurableCopy(s, ref);
      var missing := ref !in memo && f.durableUp && known.None?;
      && (Cached(s, ref, f) ==>
            && o.reply == Ok(s.cache[ref]) && o.stores.cache == s.cache
            && o.stores.rows == (if missing && !f.durableWrite.Refused?
                                 then s.rows + [Row(ref, s.clock + 1, Sealed(s.cache[ref]))] else s.rows)
            && (ref in o.memo <==> ref in memo || (f.durableUp && (known.Some? || f.durableWrite.Works?))))
      && (!Cached(s, ref, f) ==>
            && o.stores.rows == s.rows
            && o.reply == (if ref == "" then Err(NotFound) else if !f.durableUp then Err(Unreachable)
                           else if known.Some? then Ok(known.value) else Err(NotFound))
            && o.stores.cache == (if o.reply.Ok? && o.reply.value != "" && !f.cacheWrite.Refused?
                                  then s.cache[ref := o.reply.value] else s.cache)
            && (ref in o.memo <==> ref in memo || o.reply.Ok?))
      && (forall other | other != ref :: other in o.memo <==> other in memo)
  {
    hide DurableCopy;
  }

  ghost predicate IsNewestRow(rows: seq<Row<Copy>>, ref: string, r: Row<Copy>) {
    r in rows && r.key == ref && forall other | other in rows && other.key == ref :: other.version <= r.version
  }

  // The durable copy of a reference is that of its newest row: a tombstone, or no row, is none.
  lemma NewestRowDecides(s: Stores, ref: string)
    ensures DurableCopy(s, ref).Some? ==> exists r :: IsNewestRow(s.rows, ref, r) && r.value == Sealed(DurableCopy(s, ref).value)
    ensures (forall r | r in s.rows :: r.key != ref) ==> DurableCopy(s, ref).None?
  {
    NewestIsMaximal(s.rows, ref);
    hide Newest;
  }
}
