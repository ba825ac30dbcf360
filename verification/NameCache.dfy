// Read-through caches of names (backend/internal/asnowner/resolver.go, and
// backend/internal/cfrules/resolver.go, where an entry belongs to a tenant).
//
// One class stands for both: an entry is keyed by a scope, the tenant or nothing, and an id, with AS
// numbers as their decimal text and zero as the empty one. The empty id is never looked up.

module NameCaches {
  datatype Key = Key(scope: string, id: string)

  type Table = map<Key, string>

  // An id the table does not list has the empty name.
  function Lookup(table: Table, key: Key): string {
    if key in table then table[key] else ""
  }

  // A cached name: its text, the stamp its age is measured from, and the instant it was read.
  datatype Entry = Entry(name: string, loaded: int, readAt: int)

  type Entries = map<Key, Entry>

  // How one call's instants fall: the cutoff is taken from `started`, the table is read at `read`,
  // and what was read is stamped with `loaded`.
  datatype Clock = Clock(started: int, read: int, loaded: int)

  predicate IsKnown(c: Entries, key: Key, cutoff: int) {
    key in c && c[key].loaded >= cutoff
  }

  // ---------------------------------------------------------------- one call

  // The ids a query is needed for, each once, in the order they were first asked for.
  function Missing(c: Entries, scope: string, ids: seq<string>, cutoff: int): seq<string> {
    if ids == [] then []
    else
      var init, id := Missing(c, scope, ids[..|ids| - 1], cutoff), ids[|ids| - 1];
      if id == "" || IsKnown(c, Key(scope, id), cutoff) || id in init then init else init + [id]
  }

  // The names the cache itself can give.
  function Known(c: Entries, scope: string, ids: seq<string>, cutoff: int): map<string, string> {
    if ids == [] then map[]
    else
      var init, id := Known(c, scope, ids[..|ids| - 1], cutoff), ids[|ids| - 1];
      var key := Key(scope, id);
      if id == "" || !IsKnown(c, key, cutoff) || c[key].name == "" then init else init[id := c[key].name]
  }

  // A miss is remembered too, as an empty name.
  function Refreshed(c: Entries, scope: string, asked: seq<string>, table: Table, clock: Clock): Entries {
    if asked == [] then c
    else
      var key := Key(scope, asked[|asked| - 1]);
      Refreshed(c, scope, asked[..|asked| - 1], table, clock)[key := Entry(Lookup(table, key), clock.loaded, clock.read)]
  }

  // The non-empty names a table has for ids.
  function NamesOf(table: Table, scope: string, ids: seq<string>): map<string, string> {
    map id | id in ids && id != "" && Lookup(table, Key(scope, id)) != "" :: Lookup(table, Key(scope, id))
  }

  datatype Call = Call(resolved: map<string, string>, asked: seq<string>, after: Entries)

  // A read that fails costs only the names it was for.
  function CallOutcome(c: Entries, ttl: int, scope: string, ids: seq<string>, table: Table, readWorks: bool,
                       clock: Clock): Call
  {
    var cutoff := clock.started - ttl;
    var known, asked := Known(c, scope, ids, cutoff), Missing(c, scope, ids, cutoff);
    if asked == [] || !readWorks then Call(known, asked, c)
    else Call(known + NamesOf(table, scope, asked), asked, Refreshed(c, scope, asked, table, clock))
  }

  ghost predicate PairedWith(names: map<Key, string>, loaded: map<Key, int>, entries: Entries) {
    && names.Keys == loaded.Keys == entries.Keys
    && forall k | k in names :: names[k] == entries[k].name && loaded[k] == entries[k].loaded
  }

  // ---------------------------------------------------------------- the program

  class Resolver {
    const ttl: int
    var names: map<Key, string>
    var loaded: map<Key, int>
    // Both maps at once, and when each name was read.
    ghost var entries: Entries

    constructor (ttl: int, defaultTtl: int)
      requires defaultTtl > 0
      ensures this.ttl == (if ttl <= 0 then defaultTtl else ttl) > 0
      ensures PairedWith(names, loaded, entries) && entries == map[]
    {
      this.ttl := if ttl <= 0 then defaultTtl else ttl;
      names, loaded, entries := map[], map[], map[];
    }

    // Splits a request into what is known and what has to be fetched.
    method Cached(scope: string, ids: seq<string>, started: int)
        returns (resolved: map<string, string>, missing: seq<string>)
      requires PairedWith(names, loaded, entries)
      ensures resolved == Known(entries, scope, ids, started - ttl)
      ensures missing == Missing(entries, scope, ids, started - ttl)
    {
      hide *;
      NothingSplit(entries, scope, started - ttl);
      resolved, missing := map[], [];
      var seen: set<string> := {};
      var cutoff := started - ttl;
      for i := 0 to |ids|
        invariant forall id :: id in seen <==> id in ids[..i] && id != ""
        invariant resolved == Known(entries, scope, ids[..i], cutoff)
        invariant missing == Missing(entries, scope, ids[..i], cutoff)
      {
        var id := ids[i];
        assert ids[..i + 1] == ids[..i] + [id];
        SplitStep(entries, scope, ids, i, cutoff);
        if id == "" {
          continue;
        }
        if id in seen {
          continue;
        }
        seen := seen + {id};
        var key := Key(scope, id);
        EntryOf(names, loaded, entries, key);
        if key !in loaded || loaded[key] < cutoff {
          missing := missing + [id];
          continue;
        }
        if names[key] != "" {
          resolved := resolved[id := names[key]];
        }
      }
      assert ids[..|ids|] == ids;
    }

    method Remember(scope: string, asked: seq<string>, fetched: map<string, string>, ghost table: Table, clock: Clock)
      requires PairedWith(names, loaded, entries)
      requires forall id | id in asked :: Lookup(table, Key(scope, id)) == if id in fetched then fetched[id] else ""
      modifies this
      ensures PairedWith(names, loaded, entries) && entries == Refreshed(old(entries), scope, asked, table, clock)
    {
      hide *;
      NothingRefreshed(entries, scope, table, clock);
      for i := 0 to |asked|
        invariant PairedWith(names, loaded, entries)
        invariant entries == Refreshed(old(entries), scope, asked[..i], table, clock)
      {
        var id := asked[i];
        RefreshedStep(old(entries), scope, asked, i, table, clock);
        var k := Key(scope, id);
        var name := if id in fetched then fetched[id] else "";
        PairedStep(names, loaded, entries, k, Entry(name, clock.loaded, clock.read));
        names := names[k := name];
        loaded := loaded[k := clock.loaded];
        entries := entries[k := Entry(name, clock.loaded, clock.read)];
      }
      assert asked[..|asked|] == asked;
    }

    // Names and Describe: every instant of the call is the caller's to choose.
    method Names(scope: string, ids: seq<string>, table: Table, readWorks: bool, clock: Clock)
        returns (resolved: map<string, string>, ghost asked: seq<string>)
      requires PairedWith(names, loaded, entries)
      modifies this
      ensures PairedWith(names, loaded, entries)
      ensures Call(resolved, asked, entries)
           == CallOutcome(old(entries), ttl, scope, ids, table, readWorks, clock)
    {
      hide *;
      var missing;
      resolved, missing := Cached(scope, ids, clock.started);
      asked := missing;
      CallSplits(entries, ttl, scope, ids, table, readWorks, clock);
      if missing == [] || !readWorks {
        return;
      }
      MissingAreIds(entries, scope, ids, clock.started - ttl);
      var fetched := map id | id in missing && Key(scope, id) in table :: table[Key(scope, id)];
      FetchedNames(table, scope, missing, fetched);
      Remember(scope, missing, fetched, table, clock);
      resolved := resolved + map id | id in fetched && fetched[id] != "" :: fetched[id];
    }
  }

  // ---------------------------------------------------------------- the pieces of a call

  lemma NothingSplit(c: Entries, scope: string, cutoff: int)
    ensures Known(c, scope, [], cutoff) == map[] && Missing(c, scope, [], cutoff) == []
  {
  }

  // One id more: a blank or repeated one changes nothing, a known one may be named, any other is
  // missing.
  lemma SplitStep(c: Entries, scope: string, ids: seq<string>, i: nat, cutoff: int)
    requires i < |ids|
    ensures var key, known, missing :=
              Key(scope, ids[i]), Known(c, scope, ids[..i], cutoff), Missing(c, scope, ids[..i], cutoff);
      if ids[i] == "" || ids[i] in ids[..i] then
        Known(c, scope, ids[..i + 1], cutoff) == known && Missing(c, scope, ids[..i + 1], cutoff) == missing
      else if key in c && c[key].loaded >= cutoff then
        && Known(c, scope, ids[..i + 1], cutoff) == (if c[key].name == "" then known else known[ids[i] := c[key].name])
        && Missing(c, scope, ids[..i + 1], cutoff) == missing
      else
        && Known(c, scope, ids[..i + 1], cutoff) == known
        && Missing(c, scope, ids[..i + 1], cutoff) == missing + [ids[i]]
  {
    assert ids[..i + 1][..i] == ids[..i];
    SplitShape(c, scope, ids[..i], cutoff, ids[i]);
  }

  lemma EntryOf(names: map<Key, string>, loaded: map<Key, int>, entries: Entries, k: Key)
    requires PairedWith(names, loaded, entries)
    ensures k in names <==> k in entries
    ensures k in loaded <==> k in entries
    ensures k in entries ==> names[k] == entries[k].name && loaded[k] == entries[k].loaded
  {
  }

  lemma PairedStep(names: map<Key, string>, loaded: map<Key, int>, entries: Entries, k: Key, e: Entry)
    requires PairedWith(names, loaded, entries)
    ensures PairedWith(names[k := e.name], loaded[k := e.loaded], entries[k := e])
  {
  }

  lemma NothingRefreshed(c: Entries, scope: string, table: Table, clock: Clock)
    ensures Refreshed(c, scope, [], table, clock) == c
  {
  }

  lemma RefreshedStep(c: Entries, scope: string, asked: seq<string>, i: nat, table: Table, clock: Clock)
    requires i < |asked|
    ensures var key := Key(scope, asked[i]);
      Refreshed(c, scope, asked[..i + 1], table, clock)
        == Refreshed(c, scope, asked[..i], table, clock)[key := Entry(Lookup(table, key), clock.loaded, clock.read)]
  {
    assert asked[..i + 1][..i] == asked[..i];
  }

  lemma CallSplits(c: Entries, ttl: int, scope: string, ids: seq<string>, table: Table, readWorks: bool, clock: Clock)
    ensures var cutoff := clock.started - ttl;
      var known, asked := Known(c, scope, ids, cutoff), Missing(c, scope, ids, cutoff);
      CallOutcome(c, ttl, scope, ids, table, readWorks, clock)
        == if asked == [] || !readWorks then Call(known, asked, c)
           else Call(known + NamesOf(table, scope, asked), asked, Refreshed(c, scope, asked, table, clock))
  {
  }

  // The names fetched are those the table has for the ids asked.
  lemma FetchedNames(table: Table, scope: string, asked: seq<string>, fetched: map<string, string>)
    requires "" !in asked
    requires forall id :: id in fetched <==> id in asked && Key(scope, id) in table
    requires forall id | id in fetched :: fetched[id] == table[Key(scope, id)]
    ensures (map id | id in fetched && fetched[id] != "" :: fetched[id]) == NamesOf(table, scope, asked)
    ensures forall id | id in asked :: Lookup(table, Key(scope, id)) == if id in fetched then fetched[id] else ""
  {
  }

  lemma {:induction false} SplitShape(c: Entries, scope: string, ids: seq<string>, cutoff: int, id: string)
    ensures id in Missing(c, scope, ids, cutoff) <==> id in ids && id != "" && !IsKnown(c, Key(scope, id), cutoff)
    ensures id in Known(c, scope, ids, cutoff)
       <==> id in ids && id != "" && IsKnown(c, Key(scope, id), cutoff) && c[Key(scope, id)].name != ""
    ensures id in Known(c, scope, ids, cutoff) ==> Known(c, scope, ids, cutoff)[id] == c[Key(scope, id)].name
  {
    if ids != [] {
      var init, last := ids[..|ids| - 1], ids[|ids| - 1];
      assert ids == init + [last];
      SplitShape(c, scope, init, cutoff, id);
    }
  }

  lemma {:induction false} RefreshedShape(c: Entries, scope: string, asked: seq<string>, table: Table, clock: Clock, k: Key)
    ensures var d := Refreshed(c, scope, asked, table, clock);
      if k.scope == scope && k.id in asked then k in d && d[k] == Entry(Lookup(table, k), clock.loaded, clock.read)
      else (k in d <==> k in c) && (k in c ==> d[k] == c[k])
  {
    hide Lookup;
    if asked != [] {
      var init, last := asked[..|asked| - 1], asked[|asked| - 1];
      assert asked == init + [last];
      RefreshedShape(c, scope, init, table, clock, k);
    }
  }

  lemma {:induction false} MissingAreIds(c: Entries, scope: string, ids: seq<string>, cutoff: int)
    ensures forall id | id in Missing(c, scope, ids, cutoff) :: id in ids && id != ""
  {
    forall id | id in Missing(c, scope, ids, cutoff) ensures id in ids && id != "" {
      SplitShape(c, scope, ids, cutoff, id);
    }
  }

  // Each id the cache cannot answer is asked for, once, and no other is.
  lemma {:induction false} EachIsAskedForOnce(c: Entries, scope: string, ids: seq<string>, cutoff: int)
    ensures var asked := Missing(c, scope, ids, cutoff);
      && (forall id :: id in asked <==> id in ids && id != "" && !IsKnown(c, Key(scope, id), cutoff))
      && (forall i, j | 0 <= i < j < |asked| :: asked[i] != asked[j])
  {
    forall id
      ensures id in Missing(c, scope, ids, cutoff) <==> id in ids && id != "" && !IsKnown(c, Key(scope, id), cutoff)
    {
      SplitShape(c, scope, ids, cutoff, id);
    }
    if ids != [] {
      EachIsAskedForOnce(c, scope, ids[..|ids| - 1], cutoff);
    }
  }

  // What a call answers for one id.
  function AnswerFor(c: Entries, ttl: int, scope: string, table: Table, readWorks: bool, clock: Clock, id: string): string {
    var key := Key(scope, id);
    if IsKnown(c, key, clock.started - ttl) then c[key].name
    else if readWorks then Lookup(table, key)
    else ""
  }

  lemma CallAnswers(c: Entries, ttl: int, scope: string, ids: seq<string>, table: Table, readWorks: bool, clock: Clock,
                    id: string)
    ensures var call := CallOutcome(c, ttl, scope, ids, table, readWorks, clock);
      var answer := AnswerFor(c, ttl, scope, table, readWorks, clock, id);
      && (id in call.resolved <==> id in ids && id != "" && answer != "")
      && (id in call.resolved ==> call.resolved[id] == answer)
  {
    hide Known, Missing, Refreshed, Lookup, IsKnown;
    SplitShape(c, scope, ids, clock.started - ttl, id);
  }

  // ---------------------------------------------------------------- what callers get

  // Every entry is the table's own value at the instant it was read, at most `lag` before its stamp.
  ghost predicate Honest(c: Entries, timeline: imap<int, Table>, lag: int) {
    forall k | k in c ::
      c[k].readAt in timeline && c[k].name == Lookup(timeline[c[k].readAt], k)
      && c[k].loaded - lag <= c[k].readAt <= c[k].loaded
  }

  // The name was the table's at some instant since `earliest`.
  ghost predicate WasTrueSince(timeline: imap<int, Table>, key: Key, name: string, earliest: int) {
    exists t :: t in timeline && t >= earliest && name == Lookup(timeline[t], key)
  }

  // Every call keeps the cache honest, and every name it answers was the table's own, for that scope,
  // at an instant no further back than the time to live and the duration of a read.
  lemma NamesAreRecent(c: Entries, ttl: int, scope: string, ids: seq<string>, table: Table, readWorks: bool,
                       clock: Clock, timeline: imap<int, Table>, lag: int, id: string)
    requires Honest(c, timeline, lag) && clock.read in timeline && timeline[clock.read] == table
    requires 0 <= ttl && clock.started <= clock.read <= clock.loaded <= clock.read + lag
    ensures var call := CallOutcome(c, ttl, scope, ids, table, readWorks, clock);
      && Honest(call.after, timeline, lag)
      && (id in call.resolved ==>
            WasTrueSince(timeline, Key(scope, id), call.resolved[id], clock.started - ttl - lag))
  {
    hide Lookup, Known, Missing, Refreshed;
    var call := CallOutcome(c, ttl, scope, ids, table, readWorks, clock);
    forall k ensures k in call.after && k !in c ==> call.after[k] == Entry(Lookup(table, k), clock.loaded, clock.read)
             ensures k in call.after && k in c ==>
               call.after[k] == c[k] || call.after[k] == Entry(Lookup(table, k), clock.loaded, clock.read) {
      RefreshedShape(c, scope, call.asked, table, clock, k);
    }
    CallAnswers(c, ttl, scope, ids, table, readWorks, clock, id);
    if id in call.resolved {
      var key := Key(scope, id);
      var t := if IsKnown(c, key, clock.started - ttl) then c[key].readAt else clock.read;
      assert t in timeline && call.resolved[id] == Lookup(timeline[t], key);
    }
  }

  // Every entry holds what this table says.
  ghost predicate Agrees(c: Entries, table: Table) {
    forall k | k in c :: c[k].name == Lookup(table, k)
  }

  // While the table does not change, whatever calls came before, a call whose read works answers
  // exactly the non-empty names of the ids it was asked about, misses included.
  lemma NamesAreExact(c: Entries, ttl: int, scope: string, ids: seq<string>, table: Table, readWorks: bool, clock: Clock)
    requires Agrees(c, table)
    ensures var call := CallOutcome(c, ttl, scope, ids, table, readWorks, clock);
      && Agrees(call.after, table)
      && (readWorks || call.asked == [] ==> call.resolved == NamesOf(table, scope, ids))
  {
    hide Lookup, Known, Missing, Refreshed, IsKnown;
    var call := CallOutcome(c, ttl, scope, ids, table, readWorks, clock);
    forall k | k in call.after ensures call.after[k].name == Lookup(table, k) {
      RefreshedShape(c, scope, call.asked, table, clock, k);
    }
    if readWorks || call.asked == [] {
      forall id
        ensures id in call.resolved <==> id in NamesOf(table, scope, ids)
        ensures id in call.resolved ==> call.resolved[id] == NamesOf(table, scope, ids)[id]
      {
        CallAnswers(c, ttl, scope, ids, table, readWorks, clock, id);
        SplitShape(c, scope, ids, clock.started - ttl, id);
        KnownAgrees(c, table, Key(scope, id), clock.started - ttl);
      }
    }
  }

  datatype Request = Request(scope: string, ids: seq<string>, readWorks: bool, clock: Clock)

  // The cache after a history of calls over one unchanging table.
  function AfterCalls(c: Entries, ttl: int, table: Table, calls: seq<Request>): Entries {
    if calls == [] then c
    else
      var r := calls[|calls| - 1];
      CallOutcome(AfterCalls(c, ttl, table, calls[..|calls| - 1]), ttl, r.scope, r.ids, table, r.readWorks, r.clock).after
  }

  // So from an empty cache, after any history of calls, failed reads and clock values, the next call
  // whose read works is exact.
  lemma {:induction false} AnyHistoryIsExact(ttl: int, table: Table, calls: seq<Request>, scope: string, ids: seq<string>,
                                             clock: Clock)
    ensures var c := AfterCalls(map[], ttl, table, calls);
      && Agrees(c, table)
      && CallOutcome(c, ttl, scope, ids, table, true, clock).resolved == NamesOf(table, scope, ids)
  {
    hide CallOutcome, NamesOf;
    var c := AfterCalls(map[], ttl, table, calls);
    if calls != [] {
      var init, r := calls[..|calls| - 1], calls[|calls| - 1];
      AnyHistoryIsExact(ttl, table, init, scope, ids, clock);
      NamesAreExact(AfterCalls(map[], ttl, table, init), ttl, r.scope, r.ids, table, r.readWorks, r.clock);
    }
    NamesAreExact(c, ttl, scope, ids, table, true, clock);
  }

  lemma KnownAgrees(c: Entries, table: Table, key: Key, cutoff: int)
    requires Agrees(c, table)
    ensures IsKnown(c, key, cutoff) ==> c[key].name == Lookup(table, key)
  {
  }

  // An id that was asked for and answered is not asked for again within the time to live, name or no
  // name.
  lemma AnsweredIdsAreKnown(c: Entries, ttl: int, scope: string, ids: seq<string>, table: Table, clock: Clock,
                            id: string, later: int, more: seq<string>)
    requires id in CallOutcome(c, ttl, scope, ids, table, true, clock).asked && later <= clock.loaded + ttl
    ensures var after := CallOutcome(c, ttl, scope, ids, table, true, clock).after;
      id !in Missing(after, scope, more, later - ttl)
  {
    hide Known, Missing, Refreshed, Lookup;
    var call := CallOutcome(c, ttl, scope, ids, table, true, clock);
    RefreshedShape(c, scope, call.asked, table, clock, Key(scope, id));
    SplitShape(call.after, scope, more, later - ttl, id);
  }

  ghost predicate SameScope(c: Entries, d: Entries, scope: string) {
    forall id :: (Key(scope, id) in c <==> Key(scope, id) in d)
      && (Key(scope, id) in c ==> c[Key(scope, id)] == d[Key(scope, id)])
  }

  // A tenant's answers depend on no other tenant's entries, and a call changes only its own tenant's.
  lemma ScopesAreIsolated(c: Entries, d: Entries, ttl: int, scope: string, ids: seq<string>, table: Table,
                          readWorks: bool, clock: Clock, other: string)
    requires SameScope(c, d, scope)
    ensures CallOutcome(c, ttl, scope, ids, table, readWorks, clock).resolved
         == CallOutcome(d, ttl, scope, ids, table, readWorks, clock).resolved
    ensures other != scope ==> SameScope(c, CallOutcome(c, ttl, scope, ids, table, readWorks, clock).after, other)
  {
    hide Known, Missing, Refreshed, Lookup, CallOutcome;
    var x, y := CallOutcome(c, ttl, scope, ids, table, readWorks, clock).resolved,
                CallOutcome(d, ttl, scope, ids, table, readWorks, clock).resolved;
    forall id ensures id in x <==> id in y ensures id in x ==> x[id] == y[id] {
      CallAnswers(c, ttl, scope, ids, table, readWorks, clock, id);
      CallAnswers(d, ttl, scope, ids, table, readWorks, clock, id);
    }
    if other != scope {
      OthersStay(c, ttl, scope, ids, table, readWorks, clock, other);
    }
  }

  lemma OthersStay(c: Entries, ttl: int, scope: string, ids: seq<string>, table: Table, readWorks: bool, clock: Clock,
                   other: string)
    requires other != scope
    ensures SameScope(c, CallOutcome(c, ttl, scope, ids, table, readWorks, clock).after, other)
  {
    hide Known, Missing, Refreshed, Lookup;
    var call := CallOutcome(c, ttl, scope, ids, table, readWorks, clock);
    forall id
      ensures (Key(other, id) in c <==> Key(other, id) in call.after)
           && (Key(other, id) in c ==> c[Key(other, id)] == call.after[Key(other, id)])
    {
      RefreshedShape(c, scope, call.asked, table, clock, Key(other, id));
    }
  }
}
