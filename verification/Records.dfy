// Building one correlated record from a resolved group (backend/internal/correlate/record.go).

module Records {
  import opened Collections
  import opened SortedKeys
  import opened Wrappers
  import V = Verdicts

  // Times are nanoseconds; zero is the time that means "not set".
  type Time = int

  const ZERO_TIME: Time := 0
  const DEFAULT_WINDOW: Time := 5_000_000_000

  // The normalized row behind one member of a group.
  datatype EventRow = EventRow(
    eventID: string, eventTime: Time, vendor: string, verdict: string,
    ruleID: string, ruleIDs: seq<string>, score: Option<real>, scoreKind: string,
    clientIP: Option<string>, clientIPShared: bool, clientASN: nat, clientCountry: string,
    requestHost: string, requestPath: string, requestMethod: string)

  // A resolved group.
  datatype Group = Group(
    members: seq<EventRow>, keyWindowStart: Time, tier: nat, signals: seq<string>,
    candidateCount: int, confidence: string)

  // When the request was observed.
  datatype Span = Span(windowStart: Time, first: Time, last: Time)

  // The request's own identity as reported.
  datatype Request = Request(
    clientIP: Option<string>, shared: bool, asn: nat, country: string,
    host: string, path: string, requestMethod: string)

  // How its events were joined.
  datatype Join = Join(signals: seq<string>, tier: nat, confidence: string, candidateCount: nat)

  datatype Record = Record(
    correlationID: string, span: Span,
    vendors: seq<string>, vendorCount: nat, eventIDs: seq<string>, request: Request,
    verdicts: map<string, string>, ruleIDs: map<string, string>,
    matchedRuleIDs: map<string, seq<string>>, scores: map<string, real>,
    outcome: V.Classification, join: Join,
    version: nat, amended: bool)

  // Counts are stored in one byte and saturate.
  function ClampToByte(n: int): nat {
    if n < 0 then 0 else if n > 255 then 255 else n
  }

  function VerdictOf(m: EventRow): V.VendorVerdict {
    V.VendorVerdict(m.vendor, m.verdict, m.score, m.scoreKind)
  }

  ghost function VerdictsOf(ms: seq<EventRow>): seq<V.VendorVerdict> {
    seq(|ms|, i requires 0 <= i < |ms| => VerdictOf(ms[i]))
  }

  ghost function VendorsOf(ms: seq<EventRow>): set<string> {
    set m | m in ms :: m.vendor
  }

  // ---------------------------------------------------------------- time order

  ghost predicate TimeOrdered(ms: seq<EventRow>) {
    forall i, j | 0 <= i < j < |ms| :: ms[i].eventTime <= ms[j].eventTime
  }

  // The members that happened at one instant, in their listed order.
  ghost function AtTime(ms: seq<EventRow>, t: Time): seq<EventRow> {
    if ms == [] then []
    else AtTime(ms[..|ms| - 1], t) + (if ms[|ms| - 1].eventTime == t then [ms[|ms| - 1]] else [])
  }

  // A stable sort: time-ordered, and every instant lists the same members in the same order.
  ghost predicate IsStableTimeOrder(sorted: seq<EventRow>, ms: seq<EventRow>) {
    TimeOrdered(sorted) && multiset(sorted) == multiset(ms) && forall t :: AtTime(sorted, t) == AtTime(ms, t)
  }

  ghost function Insert(ms: seq<EventRow>, m: EventRow): seq<EventRow> {
    if ms == [] || ms[|ms| - 1].eventTime <= m.eventTime then ms + [m]
    else Insert(ms[..|ms| - 1], m) + [ms[|ms| - 1]]
  }

  lemma {:induction false} InsertKeepsMembers(ms: seq<EventRow>, m: EventRow)
    ensures multiset(Insert(ms, m)) == multiset(ms) + multiset{m}
  {
    if ms != [] && ms[|ms| - 1].eventTime > m.eventTime {
      InsertKeepsMembers(ms[..|ms| - 1], m);
      assert ms == ms[..|ms| - 1] + [ms[|ms| - 1]];
    }
  }

  lemma {:induction false} InsertKeepsOrder(ms: seq<EventRow>, m: EventRow)
    requires TimeOrdered(ms)
    ensures TimeOrdered(Insert(ms, m))
  {
    if ms != [] && ms[|ms| - 1].eventTime > m.eventTime {
      var init, last := ms[..|ms| - 1], ms[|ms| - 1];
      InsertKeepsOrder(init, m);
      InsertKeepsMembers(init, m);
      var inner := Insert(init, m);
      forall i | 0 <= i < |inner| ensures inner[i].eventTime <= last.eventTime {
        assert inner[i] in multiset(inner);
        if inner[i] != m {
          assert inner[i] in init;
        }
      }
    }
  }

  lemma {:induction false} InsertKeepsInstants(ms: seq<EventRow>, m: EventRow, t: Time)
    requires TimeOrdered(ms)
    ensures AtTime(Insert(ms, m), t) == AtTime(ms + [m], t)
  {
    hide AtTime;
    AtTimeSnoc(ms, m, t);
    if ms != [] && ms[|ms| - 1].eventTime > m.eventTime {
      var init, last := ms[..|ms| - 1], ms[|ms| - 1];
      InsertKeepsInstants(init, m, t);
      AtTimeSnoc(init, m, t);
      AtTimeSnoc(Insert(init, m), last, t);
      AtTimeSnoc(init, last, t);
      assert init + [last] == ms;
    }
  }

  lemma AtTimeSnoc(ms: seq<EventRow>, m: EventRow, t: Time)
    ensures AtTime(ms + [m], t) == AtTime(ms, t) + (if m.eventTime == t then [m] else [])
  {
    assert (ms + [m])[..|ms|] == ms;
  }

  lemma InsertKeepsStability(sorted: seq<EventRow>, ms: seq<EventRow>, m: EventRow)
    requires IsStableTimeOrder(sorted, ms)
    ensures IsStableTimeOrder(Insert(sorted, m), ms + [m])
  {
    InsertKeepsOrder(sorted, m);
    InsertKeepsMembers(sorted, m);
    forall t ensures AtTime(Insert(sorted, m), t) == AtTime(ms + [m], t) {
      InsertKeepsInstants(sorted, m, t);
      AtTimeSnoc(sorted, m, t);
      AtTimeSnoc(ms, m, t);
    }
  }

  lemma InsertAt(ms: seq<EventRow>, m: EventRow, j: nat)
    requires j <= |ms|
    ensures (j == 0 || ms[j - 1].eventTime <= m.eventTime) ==> Insert(ms[..j], m) == ms[..j] + [m]
    ensures j > 0 && ms[j - 1].eventTime > m.eventTime ==> Insert(ms[..j], m) == Insert(ms[..j - 1], m) + [ms[j - 1]]
  {
    if j > 0 {
      assert ms[..j][..j - 1] == ms[..j - 1];
    }
  }

  method InsertMember(sorted: seq<EventRow>, m: EventRow) returns (out: seq<EventRow>)
    ensures out == Insert(sorted, m)
  {
    hide Insert;
    var j := |sorted|;
    var tail: seq<EventRow> := [];
    assert sorted[..j] == sorted;
    while j > 0 && sorted[j - 1].eventTime > m.eventTime
      invariant 0 <= j <= |sorted| && tail == sorted[j..]
      invariant Insert(sorted, m) == Insert(sorted[..j], m) + tail
    {
      InsertAt(sorted, m, j);
      j, tail := j - 1, [sorted[j - 1]] + tail;
    }
    InsertAt(sorted, m, j);
    out := sorted[..j] + [m] + tail;
  }

  // sortedMembers: a copy ordered by time, the listed order kept among equal times.
  method SortedMembers(ms: seq<EventRow>) returns (sorted: seq<EventRow>)
    ensures IsStableTimeOrder(sorted, ms)
  {
    sorted := [];
    assert ms[..0] == [] && ms[..|ms|] == ms && IsStableTimeOrder([], []);
    hide IsStableTimeOrder, Insert;
    for i := 0 to |ms|
      invariant IsStableTimeOrder(sorted, ms[..i])
    {
      assert ms[..i + 1] == ms[..i] + [ms[i]];
      InsertKeepsStability(sorted, ms[..i], ms[i]);
      sorted := InsertMember(sorted, ms[i]);
    }
  }

  // ---------------------------------------------------------------- per-vendor views

  // The verdict of each vendor's last event.
  ghost function VerdictMap(ms: seq<EventRow>): map<string, string> {
    if ms == [] then map[]
    else var last := ms[|ms| - 1]; VerdictMap(ms[..|ms| - 1])[last.vendor := last.verdict]
  }

  // The score of each vendor's last scored event.
  ghost function ScoreMap(ms: seq<EventRow>): map<string, real> {
    if ms == [] then map[]
    else
      var init, last := ScoreMap(ms[..|ms| - 1]), ms[|ms| - 1];
      if last.score.Some? then init[last.vendor := last.score.value] else init
  }

  // The deciding rule each vendor reported last.
  ghost function RuleMap(ms: seq<EventRow>): map<string, string> {
    if ms == [] then map[]
    else
      var init, last := RuleMap(ms[..|ms| - 1]), ms[|ms| - 1];
      if last.ruleID != "" then init[last.vendor := last.ruleID] else init
  }

  // Every rule a vendor's events matched, in order, repeats included.
  ghost function RulesOf(ms: seq<EventRow>, vendor: string): seq<string> {
    if ms == [] then []
    else
      var init, last := RulesOf(ms[..|ms| - 1], vendor), ms[|ms| - 1];
      if last.vendor == vendor then init + last.ruleIDs else init
  }

  // Each vendor's matched rules, blanks and repeats dropped.
  ghost function MatchedMap(ms: seq<EventRow>): map<string, seq<string>> {
    map v | v in VendorsOf(ms) :: FreshKeys({""}, RulesOf(ms, v))
  }

  ghost function EventIDs(ms: seq<EventRow>): seq<string> {
    seq(|ms|, i requires 0 <= i < |ms| => ms[i].eventID)
  }

  // appendUnique: the rules not already listed, in arrival order.
  method AppendUnique(existing: seq<string>, incoming: seq<string>) returns (out: seq<string>)
    requires existing == FreshKeys({""}, existing)
    ensures out == FreshKeys({""}, existing + incoming)
  {
    out := existing;
    assert existing + incoming[..0] == existing;
    for i := 0 to |incoming|
      invariant out == FreshKeys({""}, existing + incoming[..i])
    {
      var rule := incoming[i];
      assert existing + incoming[..i + 1] == (existing + incoming[..i]) + [rule];
      FreshKeysSnoc({""}, existing + incoming[..i], rule);
      if rule != "" && rule !in out {
        out := out + [rule];
      }
    }
    assert incoming[..|incoming|] == incoming;
  }

  // The key's window, or the earliest event's own one: never unset for a real event time.
  function WindowStart(g: Group, first: Time): Time {
    if g.keyWindowStart != ZERO_TIME then g.keyWindowStart else first - first % DEFAULT_WINDOW
  }

  // What a freshly built record promises about the group behind it.
  ghost predicate BuiltFrom(r: Record, g: Group, threshold: real) {
    exists ms :: BuiltInOrder(r, g, threshold, ms)
  }

  ghost predicate BuiltInOrder(r: Record, g: Group, threshold: real, ms: seq<EventRow>) {
    && IsStableTimeOrder(ms, g.members) && ms != []
    && r.eventIDs == EventIDs(ms)
    && r.span == Span(WindowStart(g, ms[0].eventTime), ms[0].eventTime, ms[|ms| - 1].eventTime)
    && ToSet(r.vendors) == VendorsOf(ms) && r.vendorCount == ClampToByte(|r.vendors|)
    && Sorted(r.vendors)
    && r.verdicts == VerdictMap(ms) && r.scores == ScoreMap(ms)
    && r.ruleIDs == RuleMap(ms) && r.matchedRuleIDs == MatchedMap(ms)
    && V.Classifies(VerdictsOf(ms), threshold, r.outcome)
    && r.request == ShapeOf(ms).(asn := r.request.asn, country := r.request.country)
    && IsMostTrusted(ms, Networks(ms), 0, r.request.asn)
    && IsMostTrusted(ms, Countries(ms), "", r.request.country)
    && r.join == Join(g.signals, g.tier, g.confidence, ClampToByte(g.candidateCount))
    && r.version == 0 && !r.amended && r.correlationID == ""
  }

  lemma VerdictsSnoc(ms: seq<EventRow>, i: nat)
    requires i < |ms|
    ensures VerdictsOf(ms[..i + 1]) == VerdictsOf(ms[..i]) + [VerdictOf(ms[i])]
    ensures EventIDs(ms[..i + 1]) == EventIDs(ms[..i]) + [ms[i].eventID]
    ensures VendorsOf(ms[..i + 1]) == VendorsOf(ms[..i]) + {ms[i].vendor}
    ensures VerdictMap(ms[..i + 1]) == VerdictMap(ms[..i])[ms[i].vendor := ms[i].verdict]
    ensures ScoreMap(ms[..i + 1])
         == if ms[i].score.Some? then ScoreMap(ms[..i])[ms[i].vendor := ms[i].score.value] else ScoreMap(ms[..i])
  {
    assert ms[..i + 1] == ms[..i] + [ms[i]];
    assert ms[..i + 1][..i] == ms[..i];
  }

  // One more member: the rules it adds.
  lemma RulesSnoc(ms: seq<EventRow>, i: nat)
    requires i < |ms|
    ensures RuleMap(ms[..i + 1])
         == if ms[i].ruleID != "" then RuleMap(ms[..i])[ms[i].vendor := ms[i].ruleID] else RuleMap(ms[..i])
    ensures MatchedMap(ms[..i + 1])
         == var known := if ms[i].vendor in MatchedMap(ms[..i]) then MatchedMap(ms[..i])[ms[i].vendor] else [];
            MatchedMap(ms[..i])[ms[i].vendor := FreshKeys({""}, known + ms[i].ruleIDs)]
  {
    hide *;
    RulesStep(ms, i);
    VerdictsSnoc(ms, i);
    MatchedIs(ms[..i]);
    MatchedIs(ms[..i + 1]);
    var v := ms[i].vendor;
    FreshAgain(RulesOf(ms[..i], v), ms[i].ruleIDs);
    if v !in VendorsOf(ms[..i]) {
      NoRulesOf(ms[..i], v);
    }
    var known := if v in MatchedMap(ms[..i]) then MatchedMap(ms[..i])[v] else [];
    assert FreshKeys({""}, known + ms[i].ruleIDs) == FreshKeys({""}, RulesOf(ms[..i + 1], v));
    assert MatchedMap(ms[..i + 1]) == MatchedMap(ms[..i])[v := FreshKeys({""}, known + ms[i].ruleIDs)];
  }

  lemma RulesStep(ms: seq<EventRow>, i: nat)
    requires i < |ms|
    ensures RuleMap(ms[..i + 1])
         == if ms[i].ruleID != "" then RuleMap(ms[..i])[ms[i].vendor := ms[i].ruleID] else RuleMap(ms[..i])
    ensures forall v :: (RulesOf(ms[..i + 1], v)
      == if v == ms[i].vendor then RulesOf(ms[..i], v) + ms[i].ruleIDs else RulesOf(ms[..i], v))
  {
    assert ms[..i + 1][..i] == ms[..i];
  }

  lemma MatchedIs(ms: seq<EventRow>)
    ensures MatchedMap(ms).Keys == VendorsOf(ms)
    ensures forall v | v in VendorsOf(ms) :: MatchedMap(ms)[v] == FreshKeys({""}, RulesOf(ms, v))
  {
    hide FreshKeys, RulesOf, VendorsOf;
  }

  lemma FreshAgain(a: seq<string>, b: seq<string>)
    ensures FreshKeys({""}, FreshKeys({""}, a) + b) == FreshKeys({""}, a + b)
  {
    hide FreshKeys;
    FreshKeysConcat({""}, FreshKeys({""}, a), b);
    FreshKeysConcat({""}, a, b);
    FreshKeysAbsorb({""}, {""}, a);
    FreshKeysShape({""}, a);
    assert {""} + {""} == {""};
    assert {""} + ToSet(FreshKeys({""}, a)) == {""} + ToSet(a);
  }

  lemma {:induction false} NoRulesOf(ms: seq<EventRow>, vendor: string)
    requires vendor !in VendorsOf(ms)
    ensures RulesOf(ms, vendor) == [] && FreshKeys({""}, []) == []
    ensures forall rules: seq<string> :: [] + rules == rules
  {
    if ms != [] {
      assert ms[|ms| - 1] in ms;
      NoRulesOf(ms[..|ms| - 1], vendor);
    }
  }

  lemma MatchedIsFresh(ms: seq<EventRow>, vendor: string)
    requires vendor in MatchedMap(ms)
    ensures MatchedMap(ms)[vendor] == FreshKeys({""}, MatchedMap(ms)[vendor])
  {
    FreshKeysAbsorb({""}, {""}, RulesOf(ms, vendor));
    assert {""} + {""} == {""};
    hide FreshKeys, RulesOf;
  }

  // The shape with the fields m can still fill filled in.
  function FilledFrom(s: Request, m: EventRow): Request {
    s.(
      clientIP := if s.clientIP.None? then m.clientIP else s.clientIP,
      shared := s.shared || m.clientIPShared,
      host := if s.host == "" then m.requestHost else s.host,
      path := if s.path == "" then m.requestPath else s.path,
      requestMethod := if s.requestMethod == "" then m.requestMethod else s.requestMethod)
  }

  // applyRequestShape: the first member that reported a field wins; the shared flag is sticky.
  ghost function ShapeOf(ms: seq<EventRow>): Request {
    if ms == [] then Request(None, false, 0, "", "", "", "") else FilledFrom(ShapeOf(ms[..|ms| - 1]), ms[|ms| - 1])
  }

  // The request's fields as reported, a field no one reported being none.
  datatype Field = ClientIP | ASN | Country | Host | Path | RequestMethod

  datatype Reading = Text(text: string) | Number(number: nat)

  function TextReading(s: string): Option<Reading> {
    if s == "" then None else Some(Text(s))
  }

  function Reported(r: Request, field: Field): Option<Reading> {
    match field
    case ClientIP => if r.clientIP.Some? then Some(Text(r.clientIP.value)) else None
    case ASN => if r.asn == 0 then None else Some(Number(r.asn))
    case Country => TextReading(r.country)
    case Host => TextReading(r.host)
    case Path => TextReading(r.path)
    case RequestMethod => TextReading(r.requestMethod)
  }

  // What one member reports of its request.
  function ReportedBy(m: EventRow, field: Field): Option<Reading> {
    match field
    case ClientIP => if m.clientIP.Some? then Some(Text(m.clientIP.value)) else None
    case ASN => if m.clientASN == 0 then None else Some(Number(m.clientASN))
    case Country => TextReading(m.clientCountry)
    case Host => TextReading(m.requestHost)
    case Path => TextReading(m.requestPath)
    case RequestMethod => TextReading(m.requestMethod)
  }

  // The fields every vendor sees alike: the network and the country are attributed separately.
  predicate IsPlain(field: Field) {
    field != ASN && field != Country
  }

  ghost predicate FirstReportAt(ms: seq<EventRow>, field: Field, i: nat) {
    i < |ms| && ReportedBy(ms[i], field).Some? && forall j | 0 <= j < i :: ReportedBy(ms[j], field).None?
  }

  lemma FilledFromTakes(s: Request, m: EventRow, field: Field)
    requires IsPlain(field)
    ensures Reported(FilledFrom(s, m), field) == if Reported(s, field).Some? then Reported(s, field) else ReportedBy(m, field)
  {
  }

  // What the first member that reports the field says; nothing when no member reports it.
  ghost predicate IsFirstReport(ms: seq<EventRow>, field: Field, r: Option<Reading>) {
    match r
    case None => forall m | m in ms :: ReportedBy(m, field).None?
    case Some(_) => exists i: nat :: FirstReportAt(ms, field, i) && ReportedBy(ms[i], field) == r
  }

  lemma FirstReportSnoc(ms: seq<EventRow>, m: EventRow, field: Field, r: Option<Reading>)
    requires IsFirstReport(ms, field, r)
    ensures IsFirstReport(ms + [m], field, if r.Some? then r else ReportedBy(m, field))
  {
    hide ReportedBy;
    var longer := ms + [m];
    assert forall i | 0 <= i < |ms| :: longer[i] == ms[i];
    if r.Some? {
      var i: nat :| FirstReportAt(ms, field, i) && ReportedBy(ms[i], field) == r;
      assert FirstReportAt(longer, field, i);
    } else if ReportedBy(m, field).Some? {
      assert forall i | 0 <= i < |ms| :: ms[i] in ms;
      assert longer[|ms|] == m && FirstReportAt(longer, field, |ms|);
    }
  }

  // Address, host, path and method each come from the first member that reports one, and stay blank
  // exactly when nobody does.
  lemma {:induction false} FirstReportedFieldWins(ms: seq<EventRow>, field: Field)
    requires IsPlain(field)
    ensures IsFirstReport(ms, field, Reported(ShapeOf(ms), field))
  {
    hide Reported, ReportedBy, FilledFrom, IsFirstReport, FirstReportAt;
    if ms == [] {
      NothingShown(field);
    } else {
      var init, last := ms[..|ms| - 1], ms[|ms| - 1];
      assert ms == init + [last];
      FirstReportedFieldWins(init, field);
      FilledFromTakes(ShapeOf(init), last, field);
      FirstReportSnoc(init, last, field, Reported(ShapeOf(init), field));
    }
  }

  lemma NothingShown(field: Field)
    ensures Reported(ShapeOf([]), field).None? && IsFirstReport([], field, None)
  {
  }

  lemma {:induction false} SharedIsSticky(ms: seq<EventRow>)
    ensures ShapeOf(ms).shared <==> exists m | m in ms :: m.clientIPShared
  {
    if ms != [] {
      SharedIsSticky(ms[..|ms| - 1]);
      assert ms == ms[..|ms| - 1] + [ms[|ms| - 1]];
    }
  }

  // ---------------------------------------------------------------- network attribution

  // The vendors in front of the path see the client's own network; the ones behind see the proxy's.
  const GEO_TRUST_ORDER: seq<string> := ["cloudflare", "datadome", "f5", "nginx"]

  // The network of a CDN counts only when its owner reports it.
  const EDGE_NETWORKS: map<nat, string> := map[13335 := "cloudflare"]

  predicate TrustASN(vendor: string, asn: nat) {
    asn != 0 && (asn in EDGE_NETWORKS ==> EDGE_NETWORKS[asn] == vendor)
  }

  function Networks(ms: seq<EventRow>): seq<Option<nat>> {
    seq(|ms|, i requires 0 <= i < |ms| => if TrustASN(ms[i].vendor, ms[i].clientASN) then Some(ms[i].clientASN) else None)
  }

  function Countries(ms: seq<EventRow>): seq<Option<string>> {
    seq(|ms|, i requires 0 <= i < |ms| => if ms[i].clientCountry != "" then Some(ms[i].clientCountry) else None)
  }

  // A vendor's place in the trust order; one it does not name comes last.
  function TrustRank(vendor: string): nat {
    if vendor == "cloudflare" then 0 else if vendor == "datadome" then 1 else if vendor == "f5" then 2
    else if vendor == "nginx" then 3 else 4
  }

  // Cloudflare and DataDome stand in front of F5, F5 in front of nginx, and anyone else comes last; the
  // network of Cloudflare's edge counts only from Cloudflare, and no network never counts.
  lemma TrustSays(vendor: string, other: string, asn: nat)
    ensures TrustRank("cloudflare") < TrustRank("datadome") < TrustRank("f5") < TrustRank("nginx")
    ensures vendor in {"cloudflare", "datadome", "f5", "nginx"} && other !in {"cloudflare", "datadome", "f5", "nginx"} ==>
      TrustRank(vendor) < TrustRank(other)
    ensures vendor !in {"cloudflare", "datadome", "f5", "nginx"} && other !in {"cloudflare", "datadome", "f5", "nginx"} ==>
      TrustRank(vendor) == TrustRank(other)
    ensures TrustASN(vendor, asn) <==> asn != 0 && (asn == 13335 ==> vendor == "cloudflare")
  {
  }

  // The value of the most trusted vendor with a usable one, the first of its events that has one.
  ghost predicate IsTrusted<T>(ms: seq<EventRow>, values: seq<Option<T>>, k: nat) {
    && k < |ms| == |values| && values[k].Some?
    && forall j | 0 <= j < |ms| && values[j].Some? ::
         TrustRank(ms[k].vendor) < TrustRank(ms[j].vendor) || (TrustRank(ms[k].vendor) == TrustRank(ms[j].vendor) && k <= j)
  }

  ghost predicate IsMostTrusted<T>(ms: seq<EventRow>, values: seq<Option<T>>, zero: T, r: T) {
    && |ms| == |values|
    && if exists v :: v in values && v.Some? then exists k :: Gives(ms, values, k, r) else r == zero
  }

  ghost predicate Gives<T>(ms: seq<EventRow>, values: seq<Option<T>>, k: nat, r: T) {
    IsTrusted(ms, values, k) && values[k] == Some(r)
  }

  method MostTrusted<T>(ms: seq<EventRow>, values: seq<Option<T>>, zero: T) returns (r: T)
    requires |ms| == |values|
    ensures IsMostTrusted(ms, values, zero, r)
  {
    for rank := 0 to |GEO_TRUST_ORDER|
      invariant forall j | 0 <= j < |ms| && values[j].Some? :: TrustRank(ms[j].vendor) >= rank
    {
      for k := 0 to |ms|
        invariant forall j | 0 <= j < k && values[j].Some? :: TrustRank(ms[j].vendor) > rank
      {
        if ms[k].vendor == GEO_TRUST_ORDER[rank] && values[k].Some? {
          assert Gives(ms, values, k, values[k].value);
          return values[k].value;
        }
      }
    }
    for k := 0 to |ms|
      invariant forall j | 0 <= j < k :: values[j].None?
    {
      if values[k].Some? {
        assert Gives(ms, values, k, values[k].value);
        return values[k].value;
      }
    }
    return zero;
  }

  // The attribution does not depend on the order the events arrived in, as long as the events of
  // equally trusted vendors with a usable value report the same one; where they differ, the earliest
  // of them decides.
  lemma NetworkIgnoresOrder(a: seq<EventRow>, b: seq<EventRow>, x: nat, y: nat)
    requires multiset(a) == multiset(b) && IsMostTrusted(a, Networks(a), 0, x) && IsMostTrusted(b, Networks(b), 0, y)
    requires forall m, n | m in a && n in a && TrustASN(m.vendor, m.clientASN) && TrustASN(n.vendor, n.clientASN) ::
      TrustRank(m.vendor) == TrustRank(n.vendor) ==> m.clientASN == n.clientASN
    ensures x == y
  {
    hide TrustRank, TrustASN, Gives, Networks;
    SameMembers(a, b);
    if k :| Gives(a, Networks(a), k, x) {
      var j := SameNetwork(a, b, k, x);
      var l :| Gives(b, Networks(b), l, y);
      var i := SameNetwork(b, a, l, y);
      TrustedIsTop(a, k, x, i);
      TrustedIsTop(b, l, y, j);
    } else if l :| Gives(b, Networks(b), l, y) {
      var i := SameNetwork(b, a, l, y);
    }
  }

  lemma SameNetwork(a: seq<EventRow>, b: seq<EventRow>, k: nat, x: nat) returns (j: nat)
    requires Gives(a, Networks(a), k, x) && forall m :: m in a <==> m in b
    ensures k < |a| && j < |b| && b[j] == a[k] && TrustASN(a[k].vendor, a[k].clientASN) && a[k].clientASN == x
    ensures |Networks(b)| == |b| && Networks(b)[j].Some? && Networks(b)[j] in Networks(b)
  {
    hide TrustRank, TrustASN;
    assert a[k] in b;
    j :| 0 <= j < |b| && b[j] == a[k];
  }

  lemma TrustedIsTop(ms: seq<EventRow>, k: nat, x: nat, i: nat)
    requires Gives(ms, Networks(ms), k, x) && i < |ms| && |Networks(ms)| == |ms| && Networks(ms)[i].Some?
    ensures k < |ms| && TrustRank(ms[k].vendor) <= TrustRank(ms[i].vendor)
  {
    hide TrustRank, TrustASN, Networks;
  }

  method RequestShape(ms: seq<EventRow>) returns (s: Request)
    ensures s == ShapeOf(ms).(asn := s.asn, country := s.country)
    ensures IsMostTrusted(ms, Networks(ms), 0, s.asn) && IsMostTrusted(ms, Countries(ms), "", s.country)
  {
    s := FirstReported(ms);
    var asn := MostTrusted(ms, Networks(ms), 0);
    var country := MostTrusted(ms, Countries(ms), "");
    s := s.(asn := asn, country := country);
  }

  method FirstReported(ms: seq<EventRow>) returns (s: Request)
    ensures s == ShapeOf(ms)
  {
    s := Request(None, false, 0, "", "", "", "");
    for i := 0 to |ms|
      invariant s == ShapeOf(ms[..i])
    {
      assert ms[..i + 1][..i] == ms[..i];
      s := FilledFrom(s, ms[i]);
    }
    assert ms[..|ms|] == ms;
  }

  // Vendors: distinct names, sorted.
  method WithVendor(vendors: seq<string>, vendor: string) returns (out: seq<string>)
    requires Sorted(vendors)
    ensures Sorted(out) && ToSet(out) == ToSet(vendors) + {vendor}
  {
    hide Sorted, Place;
    out := vendors;
    if vendor !in vendors {
      PlaceSorted(vendors, vendor);
      out := Place(vendors, vendor);
    }
  }

  // The vendor-keyed fields, member by member.
  method CollectMembers(ms: seq<EventRow>)
      returns (eventIDs: seq<string>, vendors: seq<string>, verdicts: map<string, string>, ruleIDs: map<string, string>,
               matched: map<string, seq<string>>, scores: map<string, real>, all: seq<V.VendorVerdict>)
    ensures eventIDs == EventIDs(ms) && ToSet(vendors) == VendorsOf(ms) && Sorted(vendors)
    ensures verdicts == VerdictMap(ms) && scores == ScoreMap(ms)
    ensures ruleIDs == RuleMap(ms) && matched == MatchedMap(ms)
    ensures all == VerdictsOf(ms)
  {
    eventIDs, vendors, all := [], [], [];
    verdicts, ruleIDs, matched, scores := map[], map[], map[], map[];
    NothingYet();
    assert ms[..0] == [] && ms[..|ms|] == ms;
    hide *;
    for i := 0 to |ms|
      invariant eventIDs == EventIDs(ms[..i]) && ToSet(vendors) == VendorsOf(ms[..i])
      invariant Sorted(vendors)
      invariant verdicts == VerdictMap(ms[..i]) && scores == ScoreMap(ms[..i])
      invariant ruleIDs == RuleMap(ms[..i]) && matched == MatchedMap(ms[..i])
      invariant all == VerdictsOf(ms[..i])
    {
      var m := ms[i];
      VerdictsSnoc(ms, i);
      RulesSnoc(ms, i);
      eventIDs := eventIDs + [m.eventID];
      vendors := WithVendor(vendors, m.vendor);
      verdicts := verdicts[m.vendor := m.verdict];
      if m.ruleID != "" {
        ruleIDs := ruleIDs[m.vendor := m.ruleID];
      }
      var known := if m.vendor in matched then matched[m.vendor] else [];
      if m.vendor in matched {
        MatchedIsFresh(ms[..i], m.vendor);
      }
      var rules := AppendUnique(known, m.ruleIDs);
      matched := matched[m.vendor := rules];
      if m.score.Some? {
        scores := scores[m.vendor := m.score.value];
      }
      all := all + [VerdictOf(m)];
    }
  }

  method BuildRecord(g: Group, threshold: real) returns (r: Record)
    requires g.members != []
    ensures BuiltFrom(r, g, threshold)
  {
    hide IsStableTimeOrder, V.Classifies, ShapeOf, IsMostTrusted, VerdictMap, ScoreMap, RuleMap, MatchedMap, VendorsOf,
      ToSet, Sorted, EventIDs, VerdictsOf, WindowStart, Networks, Countries;
    var ms := SortedMembers(g.members);
    SortedIsNotEmpty(ms, g.members);
    var eventIDs, vendors, verdicts, ruleIDs, matched, scores, all := CollectMembers(ms);
    var shape := RequestShape(ms);
    var outcome := V.Classify(all, threshold);
    r := Record(
      "", Span(WindowStart(g, ms[0].eventTime), ms[0].eventTime, ms[|ms| - 1].eventTime),
      vendors, ClampToByte(|vendors|), eventIDs, shape,
      verdicts, ruleIDs, matched, scores, outcome,
      Join(g.signals, g.tier, g.confidence, ClampToByte(g.candidateCount)), 0, false);
    IsBuilt(r, g, threshold, ms);
  }

  lemma SortedIsNotEmpty(ms: seq<EventRow>, members: seq<EventRow>)
    requires IsStableTimeOrder(ms, members) && members != []
    ensures ms != []
  {
    assert |ms| == |multiset(ms)| == |members|;
  }

  lemma NothingYet()
    ensures EventIDs([]) == [] && ToSet<string>([]) == VendorsOf([]) && Sorted([])
    ensures VerdictMap([]) == map[] && ScoreMap([]) == map[] && RuleMap([]) == map[] && MatchedMap([]) == map[]
    ensures VerdictsOf([]) == [] && FreshKeys({""}, []) == []
  {
  }

  lemma IsBuilt(r: Record, g: Group, threshold: real, ms: seq<EventRow>)
    requires BuiltInOrder(r, g, threshold, ms)
    ensures BuiltFrom(r, g, threshold)
  {
    hide BuiltInOrder;
  }

  // ---------------------------------------------------------------- what the views mean

  lemma {:induction false} VerdictMapKeys(ms: seq<EventRow>)
    ensures VerdictMap(ms).Keys == VendorsOf(ms)
  {
    if ms != [] {
      VerdictMapKeys(ms[..|ms| - 1]);
      VerdictsSnoc(ms, |ms| - 1);
      assert ms[..|ms|] == ms;
    }
  }

  lemma SameMembers(a: seq<EventRow>, b: seq<EventRow>)
    requires multiset(a) == multiset(b)
    ensures |a| == |b| && VendorsOf(a) == VendorsOf(b)
    ensures forall m :: m in a <==> m in b
  {
    assert |a| == |multiset(a)| == |multiset(b)| == |b|;
    forall m ensures m in a <==> m in b {
      assert m in a <==> m in multiset(a);
    }
  }

  lemma OrderBoundsTimes(ms: seq<EventRow>)
    requires TimeOrdered(ms) && ms != []
    ensures forall m | m in ms :: ms[0].eventTime <= m.eventTime <= ms[|ms| - 1].eventTime
  {
  }

  lemma EventIDsHold(ms: seq<EventRow>, m: EventRow)
    requires m in ms
    ensures m.eventID in EventIDs(ms)
  {
    var i :| 0 <= i < |ms| && ms[i] == m;
    assert EventIDs(ms)[i] == m.eventID;
  }

  // A built record names each vendor that has a verdict, and its span covers every member.
  lemma BuiltRecordCoversItsGroup(r: Record, g: Group, threshold: real)
    requires BuiltFrom(r, g, threshold)
    ensures ToSet(r.vendors) == r.verdicts.Keys == VendorsOf(g.members)
    ensures forall m | m in g.members :: r.span.first <= m.eventTime <= r.span.last
    ensures |r.eventIDs| == |g.members|
    ensures forall m | m in g.members :: m.eventID in r.eventIDs
  {
    var ms :| BuiltInOrder(r, g, threshold, ms);
    assert TimeOrdered(ms) && multiset(ms) == multiset(g.members);
    hide VerdictMap, VendorsOf, TimeOrdered, AtTime, ToSet, V.Classifies, ShapeOf, ScoreMap, IsStableTimeOrder;
    VerdictMapKeys(ms);
    SameMembers(ms, g.members);
    OrderBoundsTimes(ms);
    forall m | m in g.members ensures m.eventID in r.eventIDs {
      EventIDsHold(ms, m);
    }
  }

  // ---------------------------------------------------------------- what a built record says

  // The value of a vendor's last event that has one.
  ghost predicate LatestAt<T(!new)>(ms: seq<EventRow>, values: seq<Option<T>>, i: nat, vendor: string, value: T) {
    && i < |ms| == |values| && ms[i].vendor == vendor && values[i] == Some(value)
    && forall j | i < j < |ms| && ms[j].vendor == vendor :: values[j].None?
  }

  // Exactly the vendors with a value are held, each with that of its last event that has one.
  ghost predicate HoldsLatest<T(!new)>(ms: seq<EventRow>, values: seq<Option<T>>, held: map<string, T>) {
    && |values| == |ms|
    && (forall v | v in held :: exists i :: LatestAt(ms, values, i, v, held[v]))
    && (forall i | 0 <= i < |ms| && values[i].Some? :: ms[i].vendor in held)
  }

  lemma HoldsLatestSnoc<T(!new)>(ms: seq<EventRow>, values: seq<Option<T>>, held: map<string, T>, m: EventRow, value: Option<T>)
    requires HoldsLatest(ms, values, held)
    ensures HoldsLatest(ms + [m], values + [value], if value.Some? then held[m.vendor := value.value] else held)
  {
    var longer, next := ms + [m], if value.Some? then held[m.vendor := value.value] else held;
    forall v | v in next ensures exists i :: LatestAt(longer, values + [value], i, v, next[v]) {
      if value.Some? && v == m.vendor {
        assert LatestAt(longer, values + [value], |ms|, v, next[v]);
      } else {
        var i :| LatestAt(ms, values, i, v, held[v]);
        assert LatestAt(longer, values + [value], i, v, next[v]);
      }
    }
  }

  ghost function Said(ms: seq<EventRow>): seq<Option<string>> {
    seq(|ms|, i requires 0 <= i < |ms| => Some(ms[i].verdict))
  }

  ghost function Scored(ms: seq<EventRow>): seq<Option<real>> {
    seq(|ms|, i requires 0 <= i < |ms| => ms[i].score)
  }

  ghost function Decided(ms: seq<EventRow>): seq<Option<string>> {
    seq(|ms|, i requires 0 <= i < |ms| => if ms[i].ruleID == "" then None else Some(ms[i].ruleID))
  }

  lemma ReadingsSnoc(ms: seq<EventRow>, m: EventRow)
    ensures Said(ms + [m]) == Said(ms) + [Some(m.verdict)] && Scored(ms + [m]) == Scored(ms) + [m.score]
    ensures Decided(ms + [m]) == Decided(ms) + [if m.ruleID == "" then None else Some(m.ruleID)]
  {
  }

  // A vendor's verdict is that of its last event, its score that of its last scored event, its rule
  // that of its last event with one.
  lemma {:induction false} LastReadingWins(ms: seq<EventRow>)
    ensures HoldsLatest(ms, Said(ms), VerdictMap(ms)) && HoldsLatest(ms, Scored(ms), ScoreMap(ms))
    ensures HoldsLatest(ms, Decided(ms), RuleMap(ms))
  {
    hide HoldsLatest, Said, Scored, Decided;
    if ms == [] {
      NoReadings();
    } else {
      var init, last := ms[..|ms| - 1], ms[|ms| - 1];
      assert ms == init + [last];
      LastReadingWins(init);
      ReadingsSnoc(init, last);
      HoldsLatestSnoc(init, Said(init), VerdictMap(init), last, Some(last.verdict));
      HoldsLatestSnoc(init, Scored(init), ScoreMap(init), last, last.score);
      HoldsLatestSnoc(init, Decided(init), RuleMap(init), last, if last.ruleID == "" then None else Some(last.ruleID));
    }
  }

  lemma NoReadings()
    ensures HoldsLatest([], Said([]), map[]) && HoldsLatest([], Scored([]), map[]) && HoldsLatest([], Decided([]), map[])
  {
  }

  // A vendor's matched rules are exactly those its events matched, once each and none blank.
  lemma MatchedRulesAreTheVendors(ms: seq<EventRow>, vendor: string, rule: string)
    ensures vendor in MatchedMap(ms) <==> exists m | m in ms :: m.vendor == vendor
    ensures vendor in MatchedMap(ms) ==> NoneTwice(MatchedMap(ms)[vendor])
    ensures vendor in MatchedMap(ms) ==>
      (rule in MatchedMap(ms)[vendor] <==> rule != "" && exists m | m in ms :: m.vendor == vendor && rule in m.ruleIDs)
  {
    hide FreshKeys, RulesOf, ToSet;
    if vendor in MatchedMap(ms) {
      FreshKeysShape({""}, RulesOf(ms, vendor));
      RulesOfIs(ms, vendor, rule);
      InToSet(MatchedMap(ms)[vendor], rule);
      InToSet(RulesOf(ms, vendor), rule);
    }
  }

  ghost predicate NoneTwice(rules: seq<string>) {
    forall i, j | 0 <= i < j < |rules| :: rules[i] != rules[j]
  }

  lemma InToSet(rules: seq<string>, rule: string)
    ensures rule in rules <==> rule in ToSet(rules)
  {
  }

  lemma {:induction false} RulesOfIs(ms: seq<EventRow>, vendor: string, rule: string)
    ensures rule in RulesOf(ms, vendor) <==> exists m | m in ms :: m.vendor == vendor && rule in m.ruleIDs
  {
    if ms != [] {
      var init, last := ms[..|ms| - 1], ms[|ms| - 1];
      assert ms == init + [last];
      RulesOfIs(init, vendor, rule);
    }
  }

  // No member with this reading happened before this one.
  ghost predicate Earliest(ms: seq<EventRow>, field: Field, m: EventRow) {
    m in ms && ReportedBy(m, field).Some? && forall n | n in ms && ReportedBy(n, field).Some? :: m.eventTime <= n.eventTime
  }

  // Address, host, path and method of a built record are those of the earliest member that reports
  // one, and blank exactly when no member does.
  lemma BuiltRecordReportsTheEarliest(r: Record, g: Group, threshold: real, field: Field)
    requires BuiltFrom(r, g, threshold) && IsPlain(field)
    ensures Reported(r.request, field).None? <==> forall m | m in g.members :: ReportedBy(m, field).None?
    ensures Reported(r.request, field).Some? ==>
      exists m :: Earliest(g.members, field, m) && ReportedBy(m, field) == Reported(r.request, field)
    ensures r.request.shared <==> exists m | m in g.members :: m.clientIPShared
  {
    var ms := InOrder(r, g, threshold);
    hide *;
    FirstReportedFieldWins(ms, field);
    SharedIsSticky(ms);
    PlainFieldsIgnoreNetwork(r.request, ShapeOf(ms), field);
    FirstIsEarliest(ms, g.members, field, Reported(r.request, field));
  }

  lemma PlainFieldsIgnoreNetwork(r: Request, s: Request, field: Field)
    requires IsPlain(field) && r == s.(asn := r.asn, country := r.country)
    ensures Reported(r, field) == Reported(s, field) && r.shared == s.shared
  {
  }

  lemma InOrder(r: Record, g: Group, threshold: real) returns (ms: seq<EventRow>)
    requires BuiltFrom(r, g, threshold)
    ensures TimeOrdered(ms) && ms != [] && (forall m :: m in ms <==> m in g.members)
    ensures r.request == ShapeOf(ms).(asn := r.request.asn, country := r.request.country)
    ensures r.verdicts == VerdictMap(ms) && r.scores == ScoreMap(ms)
    ensures r.ruleIDs == RuleMap(ms) && r.matchedRuleIDs == MatchedMap(ms)
    ensures r.span == Span(WindowStart(g, ms[0].eventTime), ms[0].eventTime, ms[|ms| - 1].eventTime)
    ensures r.vendorCount == ClampToByte(|r.vendors|)
    ensures r.join == Join(g.signals, g.tier, g.confidence, ClampToByte(g.candidateCount))
    ensures r.version == 0 && !r.amended && r.correlationID == ""
  {
    ms :| BuiltInOrder(r, g, threshold, ms);
    hide *;
    InOrderOf(r, g, threshold, ms);
    SameMembers(ms, g.members);
  }

  lemma InOrderOf(r: Record, g: Group, threshold: real, ms: seq<EventRow>)
    requires BuiltInOrder(r, g, threshold, ms)
    ensures TimeOrdered(ms) && ms != [] && multiset(ms) == multiset(g.members)
    ensures r.request == ShapeOf(ms).(asn := r.request.asn, country := r.request.country)
    ensures r.verdicts == VerdictMap(ms) && r.scores == ScoreMap(ms)
    ensures r.ruleIDs == RuleMap(ms) && r.matchedRuleIDs == MatchedMap(ms)
    ensures r.span == Span(WindowStart(g, ms[0].eventTime), ms[0].eventTime, ms[|ms| - 1].eventTime)
    ensures r.vendorCount == ClampToByte(|r.vendors|)
    ensures r.join == Join(g.signals, g.tier, g.confidence, ClampToByte(g.candidateCount))
    ensures V.Classifies(VerdictsOf(ms), threshold, r.outcome) && r.eventIDs == EventIDs(ms)
    ensures r.version == 0 && !r.amended && r.correlationID == ""
    ensures IsMostTrusted(ms, Networks(ms), 0, r.request.asn) && IsMostTrusted(ms, Countries(ms), "", r.request.country)
  {
    hide AtTime, ShapeOf, VerdictMap, ScoreMap, RuleMap, MatchedMap, WindowStart, ClampToByte, V.Classifies, IsMostTrusted,
      VendorsOf, ToSet, Sorted, EventIDs, VerdictsOf, Networks, Countries, TimeOrdered;
  }

  lemma FirstIsEarliest(ms: seq<EventRow>, members: seq<EventRow>, field: Field, r: Option<Reading>)
    requires IsFirstReport(ms, field, r) && TimeOrdered(ms) && forall m :: m in ms <==> m in members
    ensures r.None? <==> forall m | m in members :: ReportedBy(m, field).None?
    ensures r.Some? ==> exists m :: Earliest(members, field, m) && ReportedBy(m, field) == r
  {
    hide ReportedBy;
    if r.Some? {
      var i: nat :| FirstReportAt(ms, field, i) && ReportedBy(ms[i], field) == r;
      assert ms[i] in ms;
      forall n | n in members && ReportedBy(n, field).Some? ensures ms[i].eventTime <= n.eventTime {
        var j :| 0 <= j < |ms| && ms[j] == n;
        assert j >= i;
      }
      assert Earliest(members, field, ms[i]);
    }
  }

  // Of a vendor's members, m has a reading and no later one has.
  ghost predicate LastOf(ms: seq<EventRow>, m: EventRow, kind: Kind) {
    m in ms && Has(m, kind) && forall n | n in ms && n.vendor == m.vendor && Has(n, kind) :: n.eventTime <= m.eventTime
  }

  datatype Kind = AnyEvent | ScoredEvent | RuleEvent

  predicate Has(m: EventRow, kind: Kind) {
    match kind
    case AnyEvent => true
    case ScoredEvent => m.score.Some?
    case RuleEvent => m.ruleID != ""
  }

  // The verdict a built record holds of a vendor is that of its latest event, the score that of its
  // latest scored event, the rule that of its latest event with one.
  lemma BuiltRecordHoldsTheLatest(r: Record, g: Group, threshold: real, vendor: string)
    requires BuiltFrom(r, g, threshold)
    ensures vendor in r.verdicts <==> exists m | m in g.members :: m.vendor == vendor
    ensures vendor in r.scores <==> exists m | m in g.members :: m.vendor == vendor && m.score.Some?
    ensures vendor in r.ruleIDs <==> exists m | m in g.members :: m.vendor == vendor && m.ruleID != ""
    ensures vendor in r.verdicts ==>
      exists m :: LastOf(g.members, m, AnyEvent) && m.vendor == vendor && m.verdict == r.verdicts[vendor]
    ensures vendor in r.scores ==>
      exists m :: LastOf(g.members, m, ScoredEvent) && m.vendor == vendor && m.score == Some(r.scores[vendor])
    ensures vendor in r.ruleIDs ==>
      exists m :: LastOf(g.members, m, RuleEvent) && m.vendor == vendor && m.ruleID == r.ruleIDs[vendor]
  {
    var ms := InOrder(r, g, threshold);
    hide *;
    LastReadingWins(ms);
    HeldVerdict(ms, g.members, r.verdicts, vendor);
    HeldScore(ms, g.members, r.scores, vendor);
    HeldRule(ms, g.members, r.ruleIDs, vendor);
  }

  lemma HeldVerdict(ms: seq<EventRow>, members: seq<EventRow>, held: map<string, string>, vendor: string)
    requires TimeOrdered(ms) && (forall m :: m in ms <==> m in members) && HoldsLatest(ms, Said(ms), held)
    ensures vendor in held <==> exists m | m in members :: m.vendor == vendor
    ensures vendor in held ==> exists m :: LastOf(members, m, AnyEvent) && m.vendor == vendor && m.verdict == held[vendor]
  {
    hide TimeOrdered, HoldsLatest, LastOf;
    var i := LatestIsLast(ms, members, Said(ms), held, vendor, AnyEvent);
    assert forall m :: Has(m, AnyEvent);
  }

  lemma HeldScore(ms: seq<EventRow>, members: seq<EventRow>, held: map<string, real>, vendor: string)
    requires TimeOrdered(ms) && (forall m :: m in ms <==> m in members) && HoldsLatest(ms, Scored(ms), held)
    ensures vendor in held <==> exists m | m in members :: m.vendor == vendor && m.score.Some?
    ensures vendor in held ==> exists m :: LastOf(members, m, ScoredEvent) && m.vendor == vendor && m.score == Some(held[vendor])
  {
    hide TimeOrdered, HoldsLatest, LastOf;
    var i := LatestIsLast(ms, members, Scored(ms), held, vendor, ScoredEvent);
    assert forall m :: Has(m, ScoredEvent) <==> m.score.Some?;
  }

  lemma HeldRule(ms: seq<EventRow>, members: seq<EventRow>, held: map<string, string>, vendor: string)
    requires TimeOrdered(ms) && (forall m :: m in ms <==> m in members) && HoldsLatest(ms, Decided(ms), held)
    ensures vendor in held <==> exists m | m in members :: m.vendor == vendor && m.ruleID != ""
    ensures vendor in held ==> exists m :: LastOf(members, m, RuleEvent) && m.vendor == vendor && m.ruleID == held[vendor]
  {
    hide TimeOrdered, HoldsLatest, LastOf;
    var i := LatestIsLast(ms, members, Decided(ms), held, vendor, RuleEvent);
    assert forall m :: Has(m, RuleEvent) <==> m.ruleID != "";
  }

  // The matched rules a built record lists of a vendor are exactly those its events matched, once each
  // and none blank.
  lemma BuiltRecordListsEveryRule(r: Record, g: Group, threshold: real, vendor: string, rule: string)
    requires BuiltFrom(r, g, threshold)
    ensures vendor in r.matchedRuleIDs <==> exists m | m in g.members :: m.vendor == vendor
    ensures vendor in r.matchedRuleIDs ==> NoneTwice(r.matchedRuleIDs[vendor])
    ensures vendor in r.matchedRuleIDs ==> (rule in r.matchedRuleIDs[vendor] <==>
      rule != "" && exists m | m in g.members :: m.vendor == vendor && rule in m.ruleIDs)
  {
    var ms := InOrder(r, g, threshold);
    hide *;
    MatchedRulesAreTheVendors(ms, vendor, rule);
  }

  lemma LatestIsLast<T(!new)>(ms: seq<EventRow>, members: seq<EventRow>, values: seq<Option<T>>, held: map<string, T>,
                              vendor: string, kind: Kind) returns (i: nat)
    requires TimeOrdered(ms) && (forall m :: m in ms <==> m in members) && HoldsLatest(ms, values, held)
    requires |values| == |ms| && forall k | 0 <= k < |ms| :: values[k].Some? <==> Has(ms[k], kind)
    ensures vendor in held <==> exists m | m in members :: m.vendor == vendor && Has(m, kind)
    ensures vendor in held ==>
      i < |ms| && ms[i].vendor == vendor && values[i] == Some(held[vendor]) && LastOf(members, ms[i], kind)
  {
    hide Has;
    i := 0;
    if vendor in held {
      i :| LatestAt(ms, values, i, vendor, held[vendor]);
      assert ms[i] in ms;
      forall n | n in members && n.vendor == vendor && Has(n, kind) ensures n.eventTime <= ms[i].eventTime {
        var k :| 0 <= k < |ms| && ms[k] == n;
        assert k <= i;
      }
    } else {
      forall m | m in members && m.vendor == vendor ensures !Has(m, kind) {
        var k :| 0 <= k < |ms| && ms[k] == m;
      }
    }
  }

  // The span opens with the earliest member and ends with the latest; the window is the key's, or the
  // five seconds the earliest member falls into. Counts past a byte stay at 255.
  lemma BuiltRecordSpansItsGroup(r: Record, g: Group, threshold: real)
    requires BuiltFrom(r, g, threshold)
    ensures exists m | m in g.members :: m.eventTime == r.span.first
    ensures exists m | m in g.members :: m.eventTime == r.span.last
    ensures g.keyWindowStart != 0 ==> r.span.windowStart == g.keyWindowStart
    ensures g.keyWindowStart == 0 ==>
      r.span.windowStart % 5_000_000_000 == 0 && 0 <= r.span.first - r.span.windowStart < 5_000_000_000
    ensures r.vendorCount == if |r.vendors| > 255 then 255 else |r.vendors|
    ensures g.candidateCount <= 0 ==> r.join.candidateCount == 0
    ensures 0 <= g.candidateCount <= 255 ==> r.join.candidateCount == g.candidateCount
    ensures g.candidateCount > 255 ==> r.join.candidateCount == 255
    ensures r.join.signals == g.signals && r.join.tier == g.tier && r.join.confidence == g.confidence
    ensures r.version == 0 && !r.amended && r.correlationID == ""
  {
    var ms := InOrder(r, g, threshold);
    assert ms[0] in ms && ms[|ms| - 1] in ms;
    hide BuiltFrom, TimeOrdered, VerdictMap, ScoreMap, RuleMap, MatchedMap, ShapeOf;
  }

  // The verdicts a built record is classified by are each member's own, and its events are listed in the
  // same order, that of time.
  lemma BuiltOutcomeReadsItsMembers(r: Record, g: Group, threshold: real)
    requires BuiltFrom(r, g, threshold)
    ensures exists ms :: ClassifiedInOrder(r, g, ms, threshold)
  {
    var ms :| BuiltInOrder(r, g, threshold, ms);
    hide *;
    InOrderOf(r, g, threshold, ms);
    ReadFromMembers(ms);
    Classified(r, g, ms, threshold);
  }

  lemma ReadFromMembers(ms: seq<EventRow>)
    ensures ReadFrom(VerdictsOf(ms), ms)
  {
  }

  lemma Classified(r: Record, g: Group, ms: seq<EventRow>, threshold: real)
    requires multiset(ms) == multiset(g.members) && TimeOrdered(ms)
    requires ReadFrom(VerdictsOf(ms), ms) && V.Classifies(VerdictsOf(ms), threshold, r.outcome)
    requires r.eventIDs == EventIDs(ms)
    ensures ClassifiedInOrder(r, g, ms, threshold)
  {
    hide V.Classifies, ReadFrom, VerdictsOf, TimeOrdered;
  }

  ghost predicate ClassifiedInOrder(r: Record, g: Group, ms: seq<EventRow>, threshold: real) {
    && multiset(ms) == multiset(g.members) && TimeOrdered(ms) && ClassifiedBy(r, ms, threshold)
    && |r.eventIDs| == |ms| && forall i | 0 <= i < |ms| :: r.eventIDs[i] == ms[i].eventID
  }

  ghost predicate ClassifiedBy(r: Record, ms: seq<EventRow>, threshold: real) {
    exists vs :: ReadFrom(vs, ms) && V.Classifies(vs, threshold, r.outcome)
  }

  ghost predicate ReadFrom(vs: seq<V.VendorVerdict>, ms: seq<EventRow>) {
    && |vs| == |ms|
    && forall i | 0 <= i < |ms| ::
         vs[i].vendor == ms[i].vendor && vs[i].verdict == ms[i].verdict && vs[i].score == ms[i].score
         && vs[i].scoreKind == ms[i].scoreKind
  }

  // A network an event may stand for: one it reports, Cloudflare's edge only from Cloudflare.
  predicate UsableNetwork(m: EventRow) {
    m.clientASN != 0 && (m.clientASN != 13335 || m.vendor == "cloudflare")
  }

  predicate UsableCountry(m: EventRow) {
    m.clientCountry != ""
  }

  ghost predicate TopNetwork(ms: seq<EventRow>, m: EventRow) {
    m in ms && UsableNetwork(m) && forall n | n in ms && UsableNetwork(n) :: TrustRank(m.vendor) <= TrustRank(n.vendor)
  }

  ghost predicate TopCountry(ms: seq<EventRow>, m: EventRow) {
    m in ms && UsableCountry(m) && forall n | n in ms && UsableCountry(n) :: TrustRank(m.vendor) <= TrustRank(n.vendor)
  }

  // Network and country of a built record come from a member whose vendor is trusted most among those
  // that report a usable one, and are blank exactly when no member does.
  lemma BuiltNetworkIsTheMostTrusted(r: Record, g: Group, threshold: real)
    requires BuiltFrom(r, g, threshold)
    ensures r.request.asn == 0 <==> forall m | m in g.members :: !UsableNetwork(m)
    ensures r.request.asn != 0 ==> exists m :: TopNetwork(g.members, m) && m.clientASN == r.request.asn
    ensures r.request.country == "" <==> forall m | m in g.members :: !UsableCountry(m)
    ensures r.request.country != "" ==> exists m :: TopCountry(g.members, m) && m.clientCountry == r.request.country
  {
    var ms :| BuiltInOrder(r, g, threshold, ms);
    hide *;
    InOrderOf(r, g, threshold, ms);
    SameMembers(ms, g.members);
    NetworkOf(ms, g.members, r.request.asn);
    CountryOf(ms, g.members, r.request.country);
  }

  lemma NetworkOf(ms: seq<EventRow>, members: seq<EventRow>, asn: nat)
    requires IsMostTrusted(ms, Networks(ms), 0, asn) && forall m :: m in ms <==> m in members
    ensures asn == 0 <==> forall m | m in members :: !UsableNetwork(m)
    ensures asn != 0 ==> exists m :: TopNetwork(members, m) && m.clientASN == asn
  {
    hide TrustRank;
    var values := Networks(ms);
    assert forall i | 0 <= i < |ms| :: values[i] == if UsableNetwork(ms[i]) then Some(ms[i].clientASN) else None;
    if k: nat :| Gives(ms, values, k, asn) {
      assert TopNetwork(members, ms[k]);
    } else {
      forall m | m in members ensures !UsableNetwork(m) {
        var i :| 0 <= i < |ms| && ms[i] == m;
        assert values[i] in values;
      }
    }
  }

  lemma CountryOf(ms: seq<EventRow>, members: seq<EventRow>, country: string)
    requires IsMostTrusted(ms, Countries(ms), "", country) && forall m :: m in ms <==> m in members
    ensures country == "" <==> forall m | m in members :: !UsableCountry(m)
    ensures country != "" ==> exists m :: TopCountry(members, m) && m.clientCountry == country
  {
    hide TrustRank;
    var values := Countries(ms);
    assert forall i | 0 <= i < |ms| :: values[i] == if UsableCountry(ms[i]) then Some(ms[i].clientCountry) else None;
    if k: nat :| Gives(ms, values, k, country) {
      assert TopCountry(members, ms[k]);
    } else {
      forall m | m in members ensures !UsableCountry(m) {
        var i :| 0 <= i < |ms| && ms[i] == m;
        assert values[i] in values;
      }
    }
  }
}
