// Late arrivals amend stored records (backend/internal/correlate/merge.go and the versioned
// insert of backend/internal/correlate/closer.go).
//
// A run is a sequence of serialised inserts. The main result is that after any run within
// the slack the newest record of each correlation id is the fold of its emissions, and the lemmas
// about that fold say what an amendment can and cannot do to the evidence.

module Amendment {
  import opened Collections
  import opened Wrappers
  import opened Replacing
  import opened Records
  import V = Verdicts

  // ---------------------------------------------------------------- unions

  // unionStrings: the entries of a then of b, blanks and repeats dropped.
  ghost function Union(a: seq<string>, b: seq<string>): seq<string> {
    FreshKeys({""}, a + b)
  }

  method AppendDistinct(values: seq<string>, seen: set<string>, out: seq<string>, ghost read: seq<string>)
    returns (seen': set<string>, out': seq<string>)
    requires out == FreshKeys({""}, read) && seen == ToSet(out)
    ensures out' == FreshKeys({""}, read + values) && seen' == ToSet(out')
  {
    hide FreshKeys;
    seen', out' := seen, out;
    assert read + values[..0] == read;
    for j := 0 to |values|
      invariant out' == FreshKeys({""}, read + values[..j]) && seen' == ToSet(out')
    {
      assert read + values[..j + 1] == (read + values[..j]) + [values[j]];
      FreshKeysSnoc({""}, read + values[..j], values[j]);
      if values[j] != "" && values[j] !in seen' {
        assert ToSet(out' + [values[j]]) == ToSet(out') + {values[j]};
        seen', out' := seen' + {values[j]}, out' + [values[j]];
      }
    }
    assert values[..|values|] == values;
  }

  method UnionStrings(a: seq<string>, b: seq<string>) returns (out: seq<string>)
    ensures out == Union(a, b)
  {
    var seen: set<string> := {};
    out := [];
    seen, out := AppendDistinct(a, seen, out, []);
    assert [] + a == a;
    seen, out := AppendDistinct(b, seen, out, a);
  }

  // No repeats, nothing invented, nothing lost but blanks, the left side's order first.
  lemma UnionShape(a: seq<string>, b: seq<string>)
    ensures ToSet(Union(a, b)) == ToSet(a) + ToSet(b) - {""}
    ensures forall i, j | 0 <= i < j < |Union(a, b)| :: Union(a, b)[i] != Union(a, b)[j]
    ensures FreshKeys({""}, a) <= Union(a, b)
  {
    FreshKeysShape({""}, a + b);
    FreshKeysConcat({""}, a, b);
    assert ToSet(a + b) == ToSet(a) + ToSet(b);
  }

  // A union taken on the left of a union changes nothing but blanks and repeats.
  lemma UnionFlattens(a: seq<string>, b: seq<string>, c: seq<string>)
    ensures Union(Union(a, b), c) == FreshKeys({""}, a + b + c)
  {
    var ab := a + b;
    FreshKeysConcat({""}, FreshKeys({""}, ab), c);
    FreshKeysConcat({""}, ab, c);
    FreshKeysAbsorb({""}, {""}, ab);
    FreshKeysShape({""}, ab);
    assert {""} + {""} == {""};
    assert {""} + ToSet(FreshKeys({""}, ab)) == {""} + ToSet(ab);
  }

  lemma UnionAssociative(a: seq<string>, b: seq<string>, c: seq<string>)
    ensures Union(Union(a, b), c) == Union(a, Union(b, c))
  {
    UnionFlattens(a, b, c);
    var bc := b + c;
    assert a + b + c == a + bc;
    FreshKeysConcat({""}, a, bc);
    FreshKeysConcat({""}, a, FreshKeys({""}, bc));
    FreshKeysAbsorb({""}, ToSet(a), bc);
  }

  // mergeStringMap and mergeFloatMap: both sides' keys, the fresh value where both have one.
  method MergeMap<T>(stored: map<string, T>, late: map<string, T>) returns (out: map<string, T>)
    ensures out == stored + late
  {
    out := map[];
    var left := stored.Keys;
    while left != {}
      invariant left <= stored.Keys && out.Keys == stored.Keys - left
      invariant forall k | k in out :: out[k] == stored[k]
    {
      var k :| k in left;
      out, left := out[k := stored[k]], left - {k};
    }
    assert out == stored;
    left := late.Keys;
    while left != {}
      invariant left <= late.Keys && out.Keys == stored.Keys + (late.Keys - left)
      invariant forall k | k in out :: out[k] == if k in late && k !in left then late[k] else stored[k]
    {
      var k :| k in left;
      out, left := out[k := late[k]], left - {k};
    }
  }

  // ---------------------------------------------------------------- reclassification

  type Verdicts = map<string, string>
  type Scores = map<string, real>

  // Every score on a record counts as a bot score when it is classified again.
  function EntryOf(verdicts: Verdicts, scores: Scores, vendor: string): V.VendorVerdict
    requires vendor in verdicts
  {
    V.VendorVerdict(vendor, verdicts[vendor],
                    if vendor in scores then Some(scores[vendor]) else None,
                    if vendor in scores then V.BOT_SCORE else "")
  }

  ghost function Entries(verdicts: Verdicts, scores: Scores): set<V.VendorVerdict> {
    set vendor | vendor in verdicts :: EntryOf(verdicts, scores, vendor)
  }

  // One entry per vendor, in some order.
  ghost predicate IsListing(verdicts: Verdicts, scores: Scores, vs: seq<V.VendorVerdict>) {
    multiset(vs) == multiset(Entries(verdicts, scores))
  }

  ghost predicate ClassifiesMerged(verdicts: Verdicts, scores: Scores, threshold: real, c: V.Classification) {
    exists vs :: IsListing(verdicts, scores, vs) && V.Classifies(vs, threshold, c)
  }

  lemma OneClassification(verdicts: Verdicts, scores: Scores, threshold: real,
                          c: V.Classification, d: V.Classification)
    requires ClassifiesMerged(verdicts, scores, threshold, c) && ClassifiesMerged(verdicts, scores, threshold, d)
    ensures c == d
  {
    var vs :| IsListing(verdicts, scores, vs) && V.Classifies(vs, threshold, c);
    var ws :| IsListing(verdicts, scores, ws) && V.Classifies(ws, threshold, d);
    V.ClassifyIgnoresOrder(vs, ws, threshold, c, d);
  }

  lemma {:induction false} SomeListing<T>(entries: set<T>) returns (vs: seq<T>)
    ensures multiset(vs) == multiset(entries)
  {
    vs := [];
    if entries != {} {
      var e :| e in entries;
      var rest := SomeListing(entries - {e});
      vs := rest + [e];
    }
  }

  lemma HasClassification(verdicts: Verdicts, scores: Scores, threshold: real)
    ensures exists c :: ClassifiesMerged(verdicts, scores, threshold, c)
  {
    var vs := SomeListing(Entries(verdicts, scores));
    var c := V.SomeClassification(vs, threshold);
    assert IsListing(verdicts, scores, vs) && ClassifiesMerged(verdicts, scores, threshold, c);
  }

  ghost function OutcomeOf(verdicts: Verdicts, scores: Scores, threshold: real): (c: V.Classification)
    ensures ClassifiesMerged(verdicts, scores, threshold, c)
  {
    HasClassification(verdicts, scores, threshold);
    var c :| ClassifiesMerged(verdicts, scores, threshold, c);
    c
  }

  // classifyMerged: the vendors are visited in whatever order the map yields them.
  method ClassifyMerged(verdicts: Verdicts, scores: Scores, threshold: real) returns (c: V.Classification)
    ensures c == OutcomeOf(verdicts, scores, threshold)
  {
    var vs: seq<V.VendorVerdict> := [];
    var left := verdicts.Keys;
    ghost var done: set<V.VendorVerdict> := {};
    while left != {}
      invariant left <= verdicts.Keys
      invariant done == set vendor | vendor in verdicts && vendor !in left :: EntryOf(verdicts, scores, vendor)
      invariant multiset(vs) == multiset(done)
    {
      var vendor :| vendor in left;
      var entry := EntryOf(verdicts, scores, vendor);
      assert entry !in done;
      left, vs, done := left - {vendor}, vs + [entry], done + {entry};
    }
    assert done == Entries(verdicts, scores) && IsListing(verdicts, scores, vs);
    c := V.Classify(vs, threshold);
    OneClassification(verdicts, scores, threshold, c, OutcomeOf(verdicts, scores, threshold));
  }

  // ---------------------------------------------------------------- the merge

  // Tier 1 beats tier 2, which beats everything else.
  function TierRank(tier: nat): nat {
    if tier == 1 then 2 else if tier == 2 then 1 else 0
  }

  predicate StrongerTier(a: nat, b: nat) {
    TierRank(a) > TierRank(b)
  }

  function Earlier(stored: Time, late: Time): Time {
    if stored != ZERO_TIME && stored < late then stored else late
  }

  // The span covers both closings; an unset stored time does not count.
  function MergeSpan(stored: Span, late: Span): Span {
    Span(Earlier(stored.windowStart, late.windowStart), Earlier(stored.first, late.first),
         if stored.last > late.last then stored.last else late.last)
  }

  // mergeRequestShape: fields the late side left blank are filled from the stored one, and the
  // shared flag is sticky.
  function MergeRequestShape(late: Request, stored: Request): Request {
    Request(
      if late.clientIP.None? then stored.clientIP else late.clientIP,
      late.shared || stored.shared,
      if late.asn == 0 then stored.asn else late.asn,
      if late.country == "" then stored.country else late.country,
      if late.host == "" then stored.host else late.host,
      if late.path == "" then stored.path else late.path,
      if late.requestMethod == "" then stored.requestMethod else late.requestMethod)
  }

  // The join is as good as the strongest evidence for it; the larger candidate count is kept.
  ghost function MergeJoin(stored: Join, late: Join): Join {
    var keep := StrongerTier(stored.tier, late.tier);
    Join(Union(stored.signals, late.signals),
         if keep then stored.tier else late.tier,
         if keep then stored.confidence else late.confidence,
         if stored.candidateCount > late.candidateCount then stored.candidateCount else late.candidateCount)
  }

  ghost function Merged(stored: Record, late: Record, threshold: real): Record {
    var vendors := Union(stored.vendors, late.vendors);
    var verdicts, scores := stored.verdicts + late.verdicts, stored.scores + late.scores;
    late.(
      span := MergeSpan(stored.span, late.span),
      vendors := vendors, vendorCount := ClampToByte(|vendors|),
      eventIDs := Union(stored.eventIDs, late.eventIDs),
      request := MergeRequestShape(late.request, stored.request),
      verdicts := verdicts, ruleIDs := stored.ruleIDs + late.ruleIDs, scores := scores,
      outcome := OutcomeOf(verdicts, scores, threshold),
      join := MergeJoin(stored.join, late.join))
  }

  method WidenSpan(stored: Span, late: Span) returns (span: Span)
    ensures span == MergeSpan(stored, late)
  {
    span := late;
    if stored.first != ZERO_TIME && stored.first < span.first {
      span := span.(first := stored.first);
    }
    if stored.last > span.last {
      span := span.(last := stored.last);
    }
    if stored.windowStart != ZERO_TIME && stored.windowStart < span.windowStart {
      span := span.(windowStart := stored.windowStart);
    }
  }

  method StrengthenJoin(stored: Join, late: Join) returns (join: Join)
    ensures join == MergeJoin(stored, late)
  {
    var signals := UnionStrings(stored.signals, late.signals);
    join := late.(signals := signals);
    if StrongerTier(stored.tier, join.tier) {
      join := join.(tier := stored.tier, confidence := stored.confidence);
    }
    if stored.candidateCount > join.candidateCount {
      join := join.(candidateCount := stored.candidateCount);
    }
  }

  method MergeRecords(stored: Record, late: Record, threshold: real) returns (merged: Record)
    ensures merged == Merged(stored, late, threshold)
  {
    var eventIDs := UnionStrings(stored.eventIDs, late.eventIDs);
    var vendors := UnionStrings(stored.vendors, late.vendors);
    var verdicts := MergeMap(stored.verdicts, late.verdicts);
    var ruleIDs := MergeMap(stored.ruleIDs, late.ruleIDs);
    var scores := MergeMap(stored.scores, late.scores);
    var span := WidenSpan(stored.span, late.span);
    var join := StrengthenJoin(stored.join, late.join);
    var outcome := ClassifyMerged(verdicts, scores, threshold);
    merged := late.(
      span := span, vendors := vendors, vendorCount := ClampToByte(|vendors|), eventIDs := eventIDs,
      request := MergeRequestShape(late.request, stored.request),
      verdicts := verdicts, ruleIDs := ruleIDs, scores := scores, outcome := outcome, join := join);
  }

  // ---------------------------------------------------------------- what one merge keeps

  // b holds at least the evidence of a. Matched rules are not part of it.
  ghost predicate Grew(a: Record, b: Record) {
    && ToSet(a.eventIDs) - {""} <= ToSet(b.eventIDs)
    && ToSet(a.vendors) - {""} <= ToSet(b.vendors)
    && ToSet(a.join.signals) - {""} <= ToSet(b.join.signals)
    && a.verdicts.Keys <= b.verdicts.Keys
    && a.ruleIDs.Keys <= b.ruleIDs.Keys
    && a.scores.Keys <= b.scores.Keys
    && a.span.last <= b.span.last
    && (a.request.shared ==> b.request.shared)
    && (a.request.clientIP.Some? ==> b.request.clientIP.Some?)
    && (a.request.host != "" ==> b.request.host != "")
    && (a.request.path != "" ==> b.request.path != "")
    && (a.request.requestMethod != "" ==> b.request.requestMethod != "")
    && (a.request.asn != 0 ==> b.request.asn != 0)
    && (a.request.country != "" ==> b.request.country != "")
    && TierRank(a.join.tier) <= TierRank(b.join.tier)
    && a.join.candidateCount <= b.join.candidateCount
  }

  lemma GrewTransitive(a: Record, b: Record, c: Record)
    requires Grew(a, b) && Grew(b, c)
    ensures Grew(a, c)
  {
  }

  // A merge loses nothing either side knew, whichever came first.
  lemma MergeKeepsBothSides(stored: Record, late: Record, threshold: real)
    ensures Grew(stored, Merged(stored, late, threshold))
    ensures Grew(late, Merged(stored, late, threshold))
    ensures late.matchedRuleIDs == Merged(stored, late, threshold).matchedRuleIDs
  {
    UnionShape(stored.eventIDs, late.eventIDs);
    UnionShape(stored.vendors, late.vendors);
    UnionShape(stored.join.signals, late.join.signals);
  }

  // Where both sides have a reading the late one stands, and what only the stored side has is kept:
  // verdicts, rules and scores vendor by vendor, the request field by field.
  lemma MergeTakesTheLateReading(stored: Record, late: Record, threshold: real)
    ensures var merged := Merged(stored, late, threshold);
      && (forall v :: v in merged.verdicts <==> v in stored.verdicts || v in late.verdicts)
      && (forall v | v in merged.verdicts ::
            merged.verdicts[v] == if v in late.verdicts then late.verdicts[v] else stored.verdicts[v])
      && (forall v :: v in merged.ruleIDs <==> v in stored.ruleIDs || v in late.ruleIDs)
      && (forall v | v in merged.ruleIDs ::
            merged.ruleIDs[v] == if v in late.ruleIDs then late.ruleIDs[v] else stored.ruleIDs[v])
      && (forall v :: v in merged.scores <==> v in stored.scores || v in late.scores)
      && (forall v | v in merged.scores ::
            merged.scores[v] == if v in late.scores then late.scores[v] else stored.scores[v])
    ensures var merged, was, now := Merged(stored, late, threshold).request, stored.request, late.request;
      && (if now.clientIP.Some? then merged.clientIP == now.clientIP else merged.clientIP == was.clientIP)
      && (if now.asn != 0 then merged.asn == now.asn else merged.asn == was.asn)
      && (if now.country != "" then merged.country == now.country else merged.country == was.country)
      && (if now.host != "" then merged.host == now.host else merged.host == was.host)
      && (if now.path != "" then merged.path == now.path else merged.path == was.path)
      && (if now.requestMethod != "" then merged.requestMethod == now.requestMethod
          else merged.requestMethod == was.requestMethod)
      && (merged.shared <==> was.shared || now.shared)
    ensures var merged := Merged(stored, late, threshold);
      && merged.correlationID == late.correlationID && merged.version == late.version && merged.amended == late.amended
      && merged.vendorCount == (if |merged.vendors| > 255 then 255 else |merged.vendors|)
      && merged.eventIDs == Union(stored.eventIDs, late.eventIDs) && merged.vendors == Union(stored.vendors, late.vendors)
      && merged.join.signals == Union(stored.join.signals, late.join.signals)
      && merged.outcome == OutcomeOf(merged.verdicts, merged.scores, threshold)
  {
    hide Union, OutcomeOf;
  }

  // An exact join beats a heuristic one, which beats none; the stored join stands only when it is the
  // better one, with its confidence. The larger candidate count and the later end are kept.
  lemma MergeKeepsTheBetterJoin(stored: Record, late: Record, threshold: real)
    ensures var merged := Merged(stored, late, threshold);
      var better := (stored.join.tier == 1 && late.join.tier != 1)
                    || (stored.join.tier == 2 && late.join.tier != 1 && late.join.tier != 2);
      && merged.join.tier == (if better then stored.join.tier else late.join.tier)
      && merged.join.confidence == (if better then stored.join.confidence else late.join.confidence)
      && merged.join.candidateCount >= stored.join.candidateCount && merged.join.candidateCount >= late.join.candidateCount
      && merged.join.candidateCount in {stored.join.candidateCount, late.join.candidateCount}
      && merged.span.last >= stored.span.last && merged.span.last >= late.span.last
      && merged.span.last in {stored.span.last, late.span.last}
      && merged.span.first in {stored.span.first, late.span.first}
      && merged.span.windowStart in {stored.span.windowStart, late.span.windowStart}
  {
    hide Union, OutcomeOf;
  }

  // The outcome of a record, by its own verdicts and scores.
  lemma OutcomeSays(verdicts: Verdicts, scores: Scores, threshold: real)
    ensures var c := OutcomeOf(verdicts, scores, threshold);
      && (c.kind == V.AllowVsBlock <==>
            && (exists v :: v in verdicts && verdicts[v] == "allowed")
            && (exists v :: v in verdicts && (verdicts[v] == "blocked" || verdicts[v] == "rate_limited")))
      && (c.kind == V.AllowVsChallenge <==>
            && (exists v :: v in verdicts && verdicts[v] == "allowed")
            && (exists v :: v in verdicts && verdicts[v] == "challenged")
            && (forall v | v in verdicts :: verdicts[v] != "blocked" && verdicts[v] != "rate_limited"))
      && (c.kind == V.ScoreConflict <==>
            && |verdicts| > 1 && (forall v | v in verdicts :: verdicts[v] == "allowed")
            && (exists v :: v in verdicts && v in scores && scores[v] >= if threshold <= 0.0 then 0.8 else threshold))
      && (c.disagreement <==> c.kind != V.Agreement)
  {
    var c := OutcomeOf(verdicts, scores, threshold);
    var vs :| IsListing(verdicts, scores, vs) && V.Classifies(vs, threshold, c);
    hide V.Classifies, OutcomeOf, IsListing, EntryOf;
    V.KindSays(vs, threshold, c);
    ListingIs(verdicts, scores, vs);
    forall v | v in verdicts ensures EntryOf(verdicts, scores, v) in vs {
    }
  }

  // A listing has one entry for each vendor, with its verdict, and its score as a bot score.
  lemma ListingIs(verdicts: Verdicts, scores: Scores, vs: seq<V.VendorVerdict>)
    requires IsListing(verdicts, scores, vs)
    ensures |vs| == |verdicts|
    ensures forall e :: e in vs <==> exists v :: v in verdicts && e == EntryOf(verdicts, scores, v)
    ensures forall v | v in verdicts ::
      var e := EntryOf(verdicts, scores, v);
      e.verdict == verdicts[v] && e.scoreKind == (if v in scores then "bot" else "")
      && e.score == if v in scores then Some(scores[v]) else None
  {
    var entries := Entries(verdicts, scores);
    forall e ensures e in vs <==> e in entries {
      assert e in multiset(vs) <==> e in multiset(entries);
    }
    assert |vs| == |multiset(vs)| == |multiset(entries)| == |entries|;
    EntriesCount(verdicts, scores);
  }

  lemma {:induction false} EntriesCount(verdicts: Verdicts, scores: Scores)
    ensures |Entries(verdicts, scores)| == |verdicts|
    decreases |verdicts|
  {
    hide EntryOf;
    if verdicts == map[] {
      assert Entries(verdicts, scores) == {};
    } else {
      var v :| v in verdicts;
      var rest := verdicts - {v};
      assert rest.Keys == verdicts.Keys - {v};
      assert |rest| == |rest.Keys| && |verdicts| == |verdicts.Keys|;
      EntriesCount(rest, scores);
      OneEntryLess(verdicts, scores, v);
    }
  }

  lemma OneEntryLess(verdicts: Verdicts, scores: Scores, v: string)
    requires v in verdicts
    ensures Entries(verdicts, scores) == Entries(verdicts - {v}, scores) + {EntryOf(verdicts, scores, v)}
    ensures EntryOf(verdicts, scores, v) !in Entries(verdicts - {v}, scores)
  {
    var rest := verdicts - {v};
    forall w | w in rest ensures EntryOf(rest, scores, w) == EntryOf(verdicts, scores, w) {
    }
  }

  // The first time and the window start never move later, except that a stored time that was
  // never set is ignored.
  lemma FirstTimesNeverMoveLater(stored: Span, late: Span)
    ensures MergeSpan(stored, late).first <= stored.first
      <==> stored.first != ZERO_TIME || late.first <= ZERO_TIME
    ensures MergeSpan(stored, late).windowStart <= stored.windowStart
      <==> stored.windowStart != ZERO_TIME || late.windowStart <= ZERO_TIME
    ensures MergeSpan(stored, late).first <= late.first && MergeSpan(stored, late).windowStart <= late.windowStart
  {
  }

  // The vendor list stays the set of vendors with a verdict, leaving out a blank vendor name.
  ghost predicate VendorsMatchVerdicts(r: Record) {
    ToSet(r.vendors) - {""} == r.verdicts.Keys - {""}
  }

  lemma MergeKeepsVendorsMatched(stored: Record, late: Record, threshold: real)
    requires VendorsMatchVerdicts(stored) && VendorsMatchVerdicts(late)
    ensures VendorsMatchVerdicts(Merged(stored, late, threshold))
    ensures ToSet(Merged(stored, late, threshold).vendors) == Merged(stored, late, threshold).verdicts.Keys - {""}
  {
    var merged := Merged(stored, late, threshold);
    UnionShape(stored.vendors, late.vendors);
    assert merged.verdicts.Keys == stored.verdicts.Keys + late.verdicts.Keys;
    assert ToSet(merged.vendors) == (ToSet(stored.vendors) - {""}) + (ToSet(late.vendors) - {""});
    assert "" !in ToSet(merged.vendors);
  }

  // A late vendor cannot hide a conflict: when the late closing brings only new vendors, the
  // combined outcome does not weaken and an allow-vs-block conflict stays one.
  lemma NewVendorsNeverWeakenTheOutcome(stored: Record, late: Record, threshold: real)
    requires stored.outcome == OutcomeOf(stored.verdicts, stored.scores, threshold)
    requires stored.verdicts.Keys !! late.verdicts.Keys
    requires stored.scores.Keys <= stored.verdicts.Keys && late.scores.Keys <= late.verdicts.Keys
    ensures V.Restrictiveness(stored.outcome.combinedOutcome)
         <= V.Restrictiveness(Merged(stored, late, threshold).outcome.combinedOutcome)
    ensures stored.outcome.kind == V.AllowVsBlock ==>
      Merged(stored, late, threshold).outcome.kind == V.AllowVsBlock
  {
    var verdicts, scores := stored.verdicts + late.verdicts, stored.scores + late.scores;
    var vs :| IsListing(stored.verdicts, stored.scores, vs) && V.Classifies(vs, threshold, stored.outcome);
    var more := ListingExtends(stored.verdicts, stored.scores, late.verdicts, late.scores, vs);
    var d := V.SomeClassification(vs + more, threshold);
    OneClassification(verdicts, scores, threshold, d, OutcomeOf(verdicts, scores, threshold));
    V.AddingVendorsNeverWeakens(vs, more, threshold, stored.outcome, d);
  }

  lemma ListingExtends(verdicts: Verdicts, scores: Scores, verdicts': Verdicts, scores': Scores, vs: seq<V.VendorVerdict>)
    returns (more: seq<V.VendorVerdict>)
    requires verdicts.Keys !! verdicts'.Keys && scores.Keys <= verdicts.Keys && scores'.Keys <= verdicts'.Keys
    requires IsListing(verdicts, scores, vs)
    ensures IsListing(verdicts + verdicts', scores + scores', vs + more)
  {
    EntriesOfBoth(verdicts, scores, verdicts', scores');
    hide Entries;
    more := SomeListing(Entries(verdicts', scores'));
    DisjointMultisets(Entries(verdicts, scores), Entries(verdicts', scores'));
  }

  lemma DisjointMultisets<T>(a: set<T>, b: set<T>)
    requires a !! b
    ensures multiset(a + b) == multiset(a) + multiset(b)
  {
  }

  lemma EntriesOfBoth(verdicts: Verdicts, scores: Scores, verdicts': Verdicts, scores': Scores)
    requires verdicts.Keys !! verdicts'.Keys && scores.Keys <= verdicts.Keys && scores'.Keys <= verdicts'.Keys
    ensures Entries(verdicts + verdicts', scores + scores') == Entries(verdicts, scores) + Entries(verdicts', scores')
    ensures Entries(verdicts, scores) !! Entries(verdicts', scores')
  {
    var all, allScores := verdicts + verdicts', scores + scores';
    forall v | v in verdicts ensures EntryOf(all, allScores, v) == EntryOf(verdicts, scores, v) {
    }
    forall v | v in verdicts' ensures EntryOf(all, allScores, v) == EntryOf(verdicts', scores', v) {
    }
    forall e | e in Entries(verdicts, scores) ensures e in Entries(all, allScores) {
      var v :| v in verdicts && e == EntryOf(verdicts, scores, v);
      assert v in all && e == EntryOf(all, allScores, v);
    }
    forall e | e in Entries(verdicts', scores') ensures e in Entries(all, allScores) {
      var v :| v in verdicts' && e == EntryOf(verdicts', scores', v);
      assert v in all && e == EntryOf(all, allScores, v);
    }
  }

  // Classifying a freshly built record again gives what it was built with, when each vendor
  // contributed one event and every score is a bot score.
  lemma {:induction false} ViewsOfSingleEvents(ms: seq<EventRow>, i: nat)
    requires i < |ms| && forall a, b | 0 <= a < b < |ms| :: ms[a].vendor != ms[b].vendor
    ensures ms[i].vendor in VerdictMap(ms) && VerdictMap(ms)[ms[i].vendor] == ms[i].verdict
    ensures ms[i].score.Some? <==> ms[i].vendor in ScoreMap(ms)
    ensures ms[i].score.Some? ==> ScoreMap(ms)[ms[i].vendor] == ms[i].score.value
    decreases |ms|
  {
    var init := ms[..|ms| - 1];
    if i < |init| {
      ViewsOfSingleEvents(init, i);
    } else {
      ScoreMapKeys(init);
      assert forall j | 0 <= j < |init| :: ms[j].vendor != ms[i].vendor;
    }
  }

  lemma {:induction false} ScoreMapKeys(ms: seq<EventRow>)
    ensures ScoreMap(ms).Keys <= VendorsOf(ms)
  {
    if ms != [] {
      ScoreMapKeys(ms[..|ms| - 1]);
      VerdictsSnoc(ms, |ms| - 1);
      assert ms[..|ms|] == ms;
    }
  }

  ghost function SeenAgain(ms: seq<EventRow>): seq<V.VendorVerdict>
  {
    seq(|ms|, i requires 0 <= i < |ms| =>
      V.VendorVerdict(ms[i].vendor, ms[i].verdict, ms[i].score, if ms[i].score.Some? then V.BOT_SCORE else ""))
  }

  lemma {:induction false} ListingOfSingleEvents(ms: seq<EventRow>)
    requires forall a, b | 0 <= a < b < |ms| :: ms[a].vendor != ms[b].vendor
    ensures IsListing(VerdictMap(ms), ScoreMap(ms), SeenAgain(ms))
  {
    var entries := Entries(VerdictMap(ms), ScoreMap(ms));
    var again := SeenAgain(ms);
    VerdictMapKeys(ms);
    forall i | 0 <= i < |ms| ensures again[i] == EntryOf(VerdictMap(ms), ScoreMap(ms), ms[i].vendor) {
      ViewsOfSingleEvents(ms, i);
    }
    assert ToSet(again) == entries by {
      forall e | e in entries ensures e in again {
        var v :| v in VerdictMap(ms) && e == EntryOf(VerdictMap(ms), ScoreMap(ms), v);
        var m :| m in ms && m.vendor == v;
        var i :| 0 <= i < |ms| && ms[i] == m;
        assert again[i] == e;
      }
    }
    DistinctListing(again);
  }

  lemma {:induction false} DistinctListing<T>(s: seq<T>)
    requires forall i, j | 0 <= i < j < |s| :: s[i] != s[j]
    ensures multiset(s) == multiset(ToSet(s))
  {
    if s != [] {
      var init, last := s[..|s| - 1], s[|s| - 1];
      DistinctListing(init);
      assert s == init + [last];
      assert last !in init && ToSet(s) == ToSet(init) + {last};
    }
  }

  lemma ReclassifyingABuiltRecordAgrees(r: Record, g: Group, threshold: real)
    requires BuiltFrom(r, g, threshold)
    requires |VendorsOf(g.members)| == |g.members|
    requires forall m | m in g.members && m.score.Some? :: m.scoreKind == V.BOT_SCORE
    ensures OutcomeOf(r.verdicts, r.scores, threshold) == r.outcome
  {
    var ms :| BuiltInOrder(r, g, threshold, ms);
    assert |ms| == |multiset(ms)| == |g.members|;
    forall m ensures m in ms <==> m in g.members {
      assert m in ms <==> m in multiset(ms);
    }
    assert VendorsOf(ms) == VendorsOf(g.members);
    OneEventPerVendor(ms);
    ListingOfSingleEvents(ms);
    var d := V.SomeClassification(SeenAgain(ms), threshold);
    OneClassification(r.verdicts, r.scores, threshold, d, OutcomeOf(r.verdicts, r.scores, threshold));
    SeenAgainLooksTheSame(ms, V.Effective(threshold));
    V.ClassifyDependsOnVerdictsOnly(VerdictsOf(ms), SeenAgain(ms), threshold, r.outcome, d);
  }

  lemma SeenAgainLooksTheSame(ms: seq<EventRow>, threshold: real)
    requires forall m | m in ms && m.score.Some? :: m.scoreKind == V.BOT_SCORE
    ensures forall verdict :: V.Saw(VerdictsOf(ms), verdict) <==> V.Saw(SeenAgain(ms), verdict)
    ensures V.HasHighBotScore(VerdictsOf(ms), threshold) <==> V.HasHighBotScore(SeenAgain(ms), threshold)
  {
    var a, b := VerdictsOf(ms), SeenAgain(ms);
    forall i | 0 <= i < |ms|
      ensures a[i].verdict == b[i].verdict
      ensures V.IsHighBotScore(a[i], threshold) <==> V.IsHighBotScore(b[i], threshold)
    {
      assert ms[i] in ms;
    }
    forall verdict ensures V.Saw(a, verdict) <==> V.Saw(b, verdict) {
      if i :| 0 <= i < |ms| && a[i].verdict == verdict {
        assert a[i] in a && b[i] in b;
      }
    }
    if i :| 0 <= i < |ms| && V.IsHighBotScore(a[i], threshold) {
      assert a[i] in a && b[i] in b;
    }
  }

  lemma {:induction false} OneEventPerVendor(ms: seq<EventRow>)
    ensures |VendorsOf(ms)| <= |ms|
    ensures |VendorsOf(ms)| == |ms| ==> forall i, j | 0 <= i < j < |ms| :: ms[i].vendor != ms[j].vendor
  {
    if ms != [] {
      var init, last := ms[..|ms| - 1], ms[|ms| - 1];
      OneEventPerVendor(init);
      VendorsSnoc(ms);
      forall i | 0 <= i < |init| ensures ms[i].vendor in VendorsOf(init) {
        assert init[i] in init;
      }
    }
  }

  lemma VendorsSnoc(ms: seq<EventRow>)
    requires ms != []
    ensures VendorsOf(ms) == VendorsOf(ms[..|ms| - 1]) + {ms[|ms| - 1].vendor}
  {
    assert ms == ms[..|ms| - 1] + [ms[|ms| - 1]];
  }
}
