// The hash-chained audit trail (backend/internal/audit/entry.go) and the repository that appends
// to it (backend/internal/data/clickhouse/audit.go).

module AuditChain {
  import opened Wrappers
  import opened Text
  import FieldEncoding

  // The canonical text of a UUID or an IP address: never empty.
  type Name = s: string | s != "" witness "0"

  const GENESIS := "0000000000000000000000000000000000000000000000000000000000000000"

  // What was done, by whom and from where: the caller's part of an entry.
  datatype Actor = Actor(userID: Option<Name>, email: string, sourceIP: Option<Name>)

  datatype Deed = Deed(action: string, targetType: string, targetID: string, beforeValue: string,
                       afterValue: string, outcome: string, detail: string)

  datatype Record = Record(actor: Actor, deed: Deed)

  datatype Entry = Entry(prevHash: string, tenantID: Name, entryID: Name, occurredAt: int,
                         actor: Actor, deed: Deed, entryHash: string)

  // The digest and the rendering of a millisecond instant.
  datatype Hasher = Hasher(digest: string -> string, timeText: int -> string)

  // An ideal hash: no two texts share a digest, and none has the genesis value or the empty one,
  // which would restart the chain.
  ghost predicate Ideal(h: Hasher) {
    && (forall a :: h.digest(a) != "")
    && (forall a, b :: h.digest(a) == h.digest(b) ==> a == b)
    && (forall a :: h.digest(a) != GENESIS)
    && (forall s, t :: h.timeText(s) == h.timeText(t) ==> s == t)
  }

  // Such hashes exist.
  lemma SomeHashIsIdeal(timeText: int -> string)
    requires forall s, t :: timeText(s) == timeText(t) ==> s == t
    ensures exists h: Hasher :: h.timeText == timeText && Ideal(h)
  {
    var h := Hasher(a => a + GENESIS + "x", timeText);
    forall a ensures h.digest(a) != "" && h.digest(a) != GENESIS {
      assert |h.digest(a)| == |a| + |GENESIS| + 1;
    }
    forall a, b | h.digest(a) == h.digest(b) ensures a == b {
      assert |a| == |b|;
      assert h.digest(a)[..|a|] == a && h.digest(b)[..|b|] == b;
    }
    assert Ideal(h);
  }

  // And so do renderings of instants that tell them apart: the sign, then the decimal digits.
  function SignedDecimal(t: int): string {
    if t >= 0 then FieldEncoding.Decimal(t) else "-" + FieldEncoding.Decimal(-t)
  }

  lemma SignedDecimalInjective(s: int, t: int)
    requires SignedDecimal(s) == SignedDecimal(t)
    ensures s == t
  {
    var m, n := if s >= 0 then s else -s, if t >= 0 then t else -t;
    FieldEncoding.DecimalShape(m);
    FieldEncoding.DecimalShape(n);
    var x, y := SignedDecimal(s), SignedDecimal(t);
    if s < 0 && t < 0 {
      assert x[1..] == FieldEncoding.Decimal(m) && y[1..] == FieldEncoding.Decimal(n);
    }
    assert FieldEncoding.Decimal(m)[0] in FieldEncoding.Decimal(m) && FieldEncoding.Decimal(n)[0] in FieldEncoding.Decimal(n);
    assert (x[0] == '-' <==> s < 0) && (y[0] == '-' <==> t < 0);
    FieldEncoding.DecimalInjective(m, n);
  }

  lemma IdealHashersExist()
    ensures exists h: Hasher :: Ideal(h)
  {
    forall s, t | SignedDecimal(s) == SignedDecimal(t) ensures s == t {
      SignedDecimalInjective(s, t);
    }
    SomeHashIsIdeal(SignedDecimal);
  }

  function OrEmpty(name: Option<Name>): string {
    match name
    case None => ""
    case Some(n) => n
  }

  // The fourteen hashed fields, in order.
  function HashedFields(h: Hasher, e: Entry): seq<string> {
    [e.prevHash, e.tenantID, e.entryID, h.timeText(e.occurredAt),
     OrEmpty(e.actor.userID), e.actor.email, OrEmpty(e.actor.sourceIP),
     e.deed.action, e.deed.targetType, e.deed.targetID, e.deed.beforeValue, e.deed.afterValue,
     e.deed.outcome, e.deed.detail]
  }

  function ComputeHash(h: Hasher, e: Entry): string {
    h.digest(FieldEncoding.Fields(HashedFields(h, e)))
  }

  predicate SameContent(e: Entry, f: Entry) {
    e.(entryHash := "") == f.(entryHash := "")
  }

  lemma FieldsFixContent(h: Hasher, e: Entry, f: Entry)
    requires Ideal(h) && HashedFields(h, e) == HashedFields(h, f)
    ensures SameContent(e, f)
  {
    var a, b := HashedFields(h, e), HashedFields(h, f);
    assert a[0] == b[0] && a[1] == b[1] && a[2] == b[2] && a[3] == b[3] && a[4] == b[4] && a[5] == b[5];
    assert a[6] == b[6] && a[7] == b[7] && a[8] == b[8] && a[9] == b[9] && a[10] == b[10];
    assert a[11] == b[11] && a[12] == b[12] && a[13] == b[13];
  }

  // An entry's hash stands for exactly its content.
  lemma HashFixesContent(h: Hasher, e: Entry, f: Entry)
    requires Ideal(h)
    ensures ComputeHash(h, e) == ComputeHash(h, f) <==> SameContent(e, f)
    ensures ComputeHash(h, e) != GENESIS
  {
    if ComputeHash(h, e) == ComputeHash(h, f) {
      FieldEncoding.FieldsInjective(HashedFields(h, e), HashedFields(h, f));
      FieldsFixContent(h, e, f);
    }
    if SameContent(e, f) {
      assert HashedFields(h, e) == HashedFields(h, f);
    }
  }

  // ---------------------------------------------------------------- building

  datatype AuditError = ActionRequired | BadResult(outcome: string) | ActorRequired

  function Validate(r: Record): Option<AuditError> {
    if r.deed.action == "" then Some(ActionRequired)
    else if r.deed.outcome != "success" && r.deed.outcome != "denied" then Some(BadResult(r.deed.outcome))
    else if r.actor.email == "" && r.actor.userID.None? then Some(ActorRequired)
    else None
  }

  const NANOS_PER_MILLI: int := 1_000_000

  // The instant is cut to the milliseconds storage keeps, the email normalised.
  function Chain(h: Hasher, tenantID: Name, prevHash: string, entryID: Name, nanos: int, r: Record)
      : Result<Entry, AuditError>
  {
    match Validate(r)
    case Some(e) => Err(e)
    case None =>
      var actor := r.actor.(email := ToLower(TrimSpace(r.actor.email)));
      var prev := if prevHash == "" then GENESIS else prevHash;
      var e := Entry(prev, tenantID, entryID, nanos / NANOS_PER_MILLI, actor, r.deed, "");
      Ok(e.(entryHash := ComputeHash(h, e)))
  }

  // An entry records what its caller said, at the millisecond it happened, under the address in lower
  // case without the spaces around it; it links to the hash it was given, or to the start of the chain
  // when given none, and carries its own hash. It is refused exactly when it names no action, no
  // outcome that exists, or nobody.
  lemma ChainKeepsTheRecord(h: Hasher, tenantID: Name, prevHash: string, entryID: Name, nanos: int, r: Record)
    ensures Chain(h, tenantID, prevHash, entryID, nanos, r).Err?
       <==> (|| r.deed.action == "" || r.deed.outcome !in {"success", "denied"}
             || (r.actor.email == "" && r.actor.userID.None?))
    ensures Chain(h, tenantID, prevHash, entryID, nanos, r).Err? ==>
      Chain(h, tenantID, prevHash, entryID, nanos, r).error
      == (if r.deed.action == "" then ActionRequired
          else if r.deed.outcome !in {"success", "denied"} then BadResult(r.deed.outcome)
          else ActorRequired)
    ensures Chain(h, tenantID, prevHash, entryID, nanos, r).Ok? ==>
      var e := Chain(h, tenantID, prevHash, entryID, nanos, r).value;
      && e.deed == r.deed && e.actor.userID == r.actor.userID && e.actor.sourceIP == r.actor.sourceIP
      && IsEmailOf(r.actor.email, e.actor.email)
      && e.tenantID == tenantID && e.entryID == entryID
      && 1_000_000 * e.occurredAt <= nanos < 1_000_000 * (e.occurredAt + 1)
      && e.prevHash == (if prevHash == "" then GENESIS else prevHash)
      && e.entryHash == ComputeHash(h, e)
  {
    EmailIs(r.actor.email);
    hide TrimSpace, ToLower, IsEmailOf, FieldEncoding.Fields;
  }

  // The given address with the spaces around it gone and its capital letters lowered.
  ghost predicate IsEmailOf(given: string, kept: string) {
    exists before, email, after :: IsSpaced(given, before, email, after) && FoldsTo(email, kept)
  }

  ghost predicate IsSpaced(given: string, before: string, email: string, after: string) {
    given == before + email + after && AllSpaces(before) && AllSpaces(after) && IsTrimmed(email)
  }

  lemma EmailIs(given: string)
    ensures IsEmailOf(given, ToLower(TrimSpace(given)))
  {
    hide TrimSpace, ToLower, AllSpaces, IsTrimmed, FoldsTo;
    var before, after := TrimSplits(given);
    TrimTwice(given);
    FoldsToIsToLower(TrimSpace(given), ToLower(TrimSpace(given)));
    assert IsSpaced(given, before, TrimSpace(given), after);
  }

  // ---------------------------------------------------------------- checking

  predicate Linked(h: Hasher, entries: seq<Entry>, i: nat)
    requires i < |entries|
  {
    && entries[i].entryHash == ComputeHash(h, entries[i])
    && (i > 0 ==> entries[i].prevHash == entries[i - 1].entryHash)
  }

  // A slice of a chain: every entry hashes to its content and links to the one before.
  predicate IsRun(h: Hasher, entries: seq<Entry>) {
    forall i | 0 <= i < |entries| :: Linked(h, entries, i)
  }

  predicate IsChain(h: Hasher, entries: seq<Entry>) {
    IsRun(h, entries) && (entries != [] ==> entries[0].prevHash == GENESIS)
  }

  datatype Break = Unlinked(index: nat) | Modified(index: nat)

  // What each check reports names the first entry at which the log stops being one.
  ghost predicate ReportsFirstBreak(h: Hasher, entries: seq<Entry>, found: Option<Break>, first: string) {
    match found
    case None => IsRun(h, entries) && (entries != [] ==> first == "" || entries[0].prevHash == first)
    case Some(b) =>
      && b.index < |entries| && IsRun(h, entries[..b.index])
      && match b
         case Modified(i) => entries[i].entryHash != ComputeHash(h, entries[i])
         case Unlinked(i) =>
           if i == 0 then first != "" && entries[0].prevHash != first else entries[i].prevHash != entries[i - 1].entryHash
  }

  method VerifyChain(h: Hasher, entries: seq<Entry>) returns (found: Option<Break>)
    ensures found.None? <==> IsChain(h, entries)
    ensures ReportsFirstBreak(h, entries, found, GENESIS)
  {
    hide ComputeHash;
    var expectedPrev := GENESIS;
    for i := 0 to |entries|
      invariant forall k | 0 <= k < i :: Linked(h, entries, k)
      invariant i > 0 ==> entries[0].prevHash == GENESIS
      invariant expectedPrev == if i == 0 then GENESIS else entries[i - 1].entryHash
    {
      var e := entries[i];
      PrefixIsRun(h, entries, i);
      if e.prevHash != expectedPrev {
        assert i > 0 ==> !Linked(h, entries, i);
        return Some(Unlinked(i));
      }
      var got := ComputeHash(h, e);
      if got != e.entryHash {
        assert !Linked(h, entries, i);
        return Some(Modified(i));
      }
      expectedPrev := e.entryHash;
    }
    return None;
  }

  method VerifyRange(h: Hasher, entries: seq<Entry>) returns (found: Option<Break>)
    ensures found.None? <==> IsRun(h, entries)
    ensures ReportsFirstBreak(h, entries, found, "")
  {
    hide ComputeHash;
    for i := 0 to |entries|
      invariant forall k | 0 <= k < i :: Linked(h, entries, k)
    {
      var e := entries[i];
      PrefixIsRun(h, entries, i);
      var got := ComputeHash(h, e);
      if got != e.entryHash {
        assert !Linked(h, entries, i);
        return Some(Modified(i));
      }
      if i == 0 {
        continue;
      }
      if e.prevHash != entries[i - 1].entryHash {
        assert !Linked(h, entries, i);
        return Some(Unlinked(i));
      }
    }
    return None;
  }

  lemma PrefixIsRun(h: Hasher, entries: seq<Entry>, i: nat)
    requires i <= |entries| && forall k | 0 <= k < i :: Linked(h, entries, k)
    ensures IsRun(h, entries[..i])
  {
    hide ComputeHash;
    forall k | 0 <= k < i ensures Linked(h, entries[..i], k) {
      assert Linked(h, entries, k);
    }
  }

  // ---------------------------------------------------------------- what a verified log means

  function LastHash(log: seq<Entry>): string {
    if log == [] then "" else log[|log| - 1].entryHash
  }

  // Chaining onto the last hash of a verified log gives a verified log.
  lemma ChainExtends(h: Hasher, log: seq<Entry>, tenantID: Name, entryID: Name, nanos: int, r: Record)
    requires Ideal(h) && IsChain(h, log) && Chain(h, tenantID, LastHash(log), entryID, nanos, r).Ok?
    ensures IsChain(h, log + [Chain(h, tenantID, LastHash(log), entryID, nanos, r).value])
    ensures Validate(r).None?
  {
    var e := Chain(h, tenantID, LastHash(log), entryID, nanos, r).value;
    HashFixesContent(h, e, e.(entryHash := ""));
    if log != [] {
      assert Linked(h, log, |log| - 1);
      EmptyIsNoHash(h, log[|log| - 1]);
    }
    hide ComputeHash, Ideal;
    var longer := log + [e];
    forall i | 0 <= i < |longer| ensures Linked(h, longer, i) {
      if i < |log| {
        assert Linked(h, log, i);
      }
    }
  }

  // A digest is never the empty text, which would restart the chain.
  lemma EmptyIsNoHash(h: Hasher, e: Entry)
    requires Ideal(h)
    ensures ComputeHash(h, e) != ""
  {
  }

  // The content, and in particular the link to the entry before, behind one hash in two logs.
  lemma EqualHashesEqualEntries(h: Hasher, a: seq<Entry>, i: nat, b: seq<Entry>, j: nat)
    requires Ideal(h) && i < |a| && j < |b| && Linked(h, a, i) && Linked(h, b, j)
    requires a[i].entryHash == b[j].entryHash
    ensures a[i] == b[j]
  {
    HashFixesContent(h, a[i], b[j]);
  }

  lemma LinkedHashIsNotGenesis(h: Hasher, a: seq<Entry>, i: nat)
    requires Ideal(h) && i < |a| && Linked(h, a, i)
    ensures a[i].entryHash != GENESIS
  {
    HashFixesContent(h, a[i], a[i]);
  }

  // No hash of a verified log occurs twice.
  lemma {:induction false} HashesAreDistinct(h: Hasher, log: seq<Entry>, i: nat, j: nat)
    requires Ideal(h) && IsChain(h, log) && i < j < |log|
    ensures log[i].entryHash != log[j].entryHash
  {
    hide Ideal, ComputeHash;
    assert Linked(h, log, i) && Linked(h, log, j);
    if log[i].entryHash == log[j].entryHash {
      EqualHashesEqualEntries(h, log, i, log, j);
      if i == 0 {
        LinkedHashIsNotGenesis(h, log, j - 1);
      } else {
        HashesAreDistinct(h, log, i - 1, j - 1);
      }
      assert false;
    }
  }

  // Two accepted slices that end in the same hash agree entry by entry from the end.
  lemma {:induction false} RunsAgreeFromTheEnd(h: Hasher, a: seq<Entry>, b: seq<Entry>)
    requires Ideal(h) && IsRun(h, a) && IsRun(h, b) && 0 < |a| <= |b|
    requires LastHash(a) == LastHash(b)
    ensures a == b[|b| - |a|..]
  {
    hide Ideal, ComputeHash;
    var m, n := |a| - 1, |b| - 1;
    assert Linked(h, a, m) && Linked(h, b, n);
    EqualHashesEqualEntries(h, a, m, b, n);
    if m > 0 {
      PrefixIsRun(h, a, m);
      PrefixIsRun(h, b, n);
      RunsAgreeFromTheEnd(h, a[..m], b[..n]);
      assert a == a[..m] + [a[m]] && b[n - m..] == b[..n][n - m..] + [b[n]];
    } else {
      assert a == [a[0]] && b[n..] == [b[n]];
    }
  }

  // The last hash of a verified log fixes the whole log: nothing can be altered, removed, inserted
  // or reordered before it unnoticed.
  lemma LastHashFixesTheLog(h: Hasher, a: seq<Entry>, b: seq<Entry>)
    requires Ideal(h) && IsChain(h, a) && IsChain(h, b) && LastHash(a) == LastHash(b)
    ensures a == b
  {
    hide Ideal, ComputeHash;
    if a == [] || b == [] {
      var log := a + b;
      if log != [] {
        assert log == a || log == b;
        assert Linked(h, log, |log| - 1);
        EmptyIsNoHash(h, log[|log| - 1]);
      }
    } else {
      var short, long := if |a| <= |b| then a else b, if |a| <= |b| then b else a;
      RunsAgreeFromTheEnd(h, short, long);
      var k := |long| - |short|;
      assert short[0] == long[k];
      if k > 0 {
        assert Linked(h, long, k) && Linked(h, long, k - 1);
        LinkedHashIsNotGenesis(h, long, k - 1);
        assert false;
      }
    }
  }

  // Any stretch of a verified log passes the range check.
  lemma SlicesPass(h: Hasher, log: seq<Entry>, i: nat, j: nat)
    requires IsRun(h, log) && i <= j <= |log|
    ensures IsRun(h, log[i..j])
  {
    hide ComputeHash;
    forall k | 0 <= k < j - i ensures Linked(h, log[i..j], k) {
      assert Linked(h, log, i + k);
    }
  }

  // Removing a block: the range check misses it exactly when it was a head or a tail, the full
  // check exactly when it was a tail.
  lemma RemovedBlock(h: Hasher, log: seq<Entry>, i: nat, j: nat)
    requires Ideal(h) && IsChain(h, log) && i < j <= |log|
    ensures IsRun(h, log[..i] + log[j..]) <==> i == 0 || j == |log|
    ensures IsChain(h, log[..i] + log[j..]) <==> j == |log|
  {
    hide Ideal, ComputeHash;
    var cut := log[..i] + log[j..];
    SlicesPass(h, log, 0, i);
    SlicesPass(h, log, j, |log|);
    assert log[0..i] == log[..i];
    if j == |log| {
      assert cut == log[..i];
    } else if i == 0 {
      assert cut == log[j..|log|] && Linked(h, log, j) && Linked(h, log, j - 1);
      LinkedHashIsNotGenesis(h, log, j - 1);
    } else {
      assert cut[i] == log[j] && Linked(h, log, j) && Linked(h, log, j - 1);
      HashesAreDistinct(h, log, i - 1, j - 1);
      assert !Linked(h, cut, i);
    }
  }

  // Replacing entry k by a different one: it goes unnoticed exactly when nothing follows it, it
  // hashes to its own content and it keeps the link back.
  lemma AlteredEntry(h: Hasher, log: seq<Entry>, k: nat, forged: Entry)
    requires Ideal(h) && IsChain(h, log) && k < |log| && forged != log[k]
    ensures IsChain(h, log[k := forged])
       <==> k == |log| - 1 && forged.entryHash == ComputeHash(h, forged) && forged.prevHash == log[k].prevHash
    ensures IsRun(h, log[k := forged])
       <==> k == |log| - 1 && forged.entryHash == ComputeHash(h, forged)
            && (k > 0 ==> forged.prevHash == log[k].prevHash)
  {
    hide Ideal, ComputeHash;
    var altered := log[k := forged];
    assert Linked(h, log, k);
    if k < |log| - 1 {
      assert Linked(h, log, k + 1);
      if Linked(h, altered, k) && Linked(h, altered, k + 1) {
        EqualHashesEqualEntries(h, altered, k, log, k);
        assert false;
      }
    } else {
      forall i | 0 <= i < k ensures Linked(h, altered, i) {
        assert Linked(h, log, i);
      }
      assert IsRun(h, altered) <==> Linked(h, altered, k);
    }
  }

  // ---------------------------------------------------------------- the repository

  // The listing order: time, then entry id.
  predicate Earlier(a: Entry, b: Entry) {
    a.occurredAt < b.occurredAt || (a.occurredAt == b.occurredAt && Less(a.entryID, b.entryID))
  }

  function PlaceEntry(sorted: seq<Entry>, e: Entry): seq<Entry> {
    if sorted == [] || Earlier(e, sorted[0]) then [e] + sorted else [sorted[0]] + PlaceEntry(sorted[1..], e)
  }

  // ORDER BY occurred_at ASC, entry_id ASC over the rows as inserted.
  function Listed(rows: seq<Entry>): (sorted: seq<Entry>)
    ensures |sorted| == |rows|
  {
    if rows == [] then []
    else
      PlacedLength(Listed(rows[..|rows| - 1]), rows[|rows| - 1]);
      PlaceEntry(Listed(rows[..|rows| - 1]), rows[|rows| - 1])
  }

  lemma {:induction false} PlacedLength(sorted: seq<Entry>, e: Entry)
    ensures |PlaceEntry(sorted, e)| == |sorted| + 1
  {
    if sorted != [] && !Earlier(e, sorted[0]) {
      PlacedLength(sorted[1..], e);
    }
  }

  // The first place an entry is listed before: the end if it is not earlier than any other.
  function PlaceOf(sorted: seq<Entry>, e: Entry): (p: nat)
    ensures p <= |sorted|
    ensures p < |sorted| ==> Earlier(e, sorted[p])
    ensures forall i | 0 <= i < p :: !Earlier(e, sorted[i])
  {
    if sorted == [] || Earlier(e, sorted[0]) then 0 else 1 + PlaceOf(sorted[1..], e)
  }

  lemma {:induction false} PlacedAt(sorted: seq<Entry>, e: Entry)
    ensures var p := PlaceOf(sorted, e); PlaceEntry(sorted, e) == sorted[..p] + [e] + sorted[p..]
  {
    if sorted != [] && !Earlier(e, sorted[0]) {
      PlacedAt(sorted[1..], e);
      var p := PlaceOf(sorted[1..], e);
      assert sorted[..p + 1] == [sorted[0]] + sorted[1..][..p];
      assert sorted[p + 1..] == sorted[1..][p..];
    }
  }

  // Strictly before in time, or at one time with the lower id, as texts compare.
  ghost predicate ComesFirst(a: Entry, b: Entry) {
    || a.occurredAt < b.occurredAt
    || (a.occurredAt == b.occurredAt && exists i :: DiffersAt(a.entryID, b.entryID, i))
  }

  ghost predicate InOrder(sorted: seq<Entry>) {
    forall i, j | 0 <= i < j < |sorted| :: !ComesFirst(sorted[j], sorted[i])
  }

  // The listing holds the rows, each as often as it was inserted, in order of time and then of id.
  lemma {:induction false} ListingIsInOrder(rows: seq<Entry>)
    ensures multiset(Listed(rows)) == multiset(rows) && InOrder(Listed(rows))
  {
    if rows != [] {
      var init, last := rows[..|rows| - 1], rows[|rows| - 1];
      assert rows == init + [last];
      ListingIsInOrder(init);
      PlaceKeepsOrder(Listed(init), last);
      PlacedAt(Listed(init), last);
      var p := PlaceOf(Listed(init), last);
      assert Listed(init) == Listed(init)[..p] + Listed(init)[p..];
    }
  }

  lemma EarlierIsFirst(a: Entry, b: Entry)
    ensures Earlier(a, b) <==> ComesFirst(a, b)
  {
    LessIsTheFirstDifference(a.entryID, b.entryID);
  }

  lemma EarlierTransitive(a: Entry, b: Entry, c: Entry)
    requires Earlier(a, b) && !Earlier(c, b)
    ensures !Earlier(c, a)
  {
    hide Less;
    LessTotal(b.entryID, c.entryID);
    if b.entryID != c.entryID && Less(b.entryID, c.entryID) && Less(a.entryID, b.entryID) {
      LessTransitive(a.entryID, b.entryID, c.entryID);
    }
    if Less(c.entryID, a.entryID) {
      LessAsymmetric(c.entryID, a.entryID);
    }
    LessIrreflexive(a.entryID);
  }

  lemma EarlierIrreflexive(e: Entry)
    ensures !Earlier(e, e)
  {
    LessIrreflexive(e.entryID);
  }

  lemma PlaceKeepsOrder(sorted: seq<Entry>, e: Entry)
    requires InOrder(sorted)
    ensures InOrder(PlaceEntry(sorted, e))
  {
    hide Earlier, ComesFirst, PlaceEntry;
    PlacedAt(sorted, e);
    var p, all := PlaceOf(sorted, e), PlaceEntry(sorted, e);
    forall i, j | 0 <= i < j < |all| ensures !ComesFirst(all[j], all[i]) {
      EarlierIsFirst(all[j], all[i]);
      if i == p {
        EarlierIrreflexive(sorted[p]);
        EarlierIsFirst(all[j], sorted[p]);
        EarlierTransitive(e, sorted[p], all[j]);
      }
    }
  }

  // Inserting a chained entry anywhere but at the end breaks the chain.
  lemma InsertedEntry(h: Hasher, log: seq<Entry>, e: Entry, p: nat)
    requires Ideal(h) && IsChain(h, log) && p <= |log|
    requires e.entryHash == ComputeHash(h, e)
    requires e.prevHash == if log == [] then GENESIS else LastHash(log)
    ensures IsChain(h, log[..p] + [e] + log[p..]) <==> p == |log|
    ensures IsRun(h, log[..p] + [e] + log[p..]) <==> p == |log|
  {
    hide Ideal, ComputeHash;
    var n := |log|;
    var wider := log[..p] + [e] + log[p..];
    if p == n {
      assert wider == log + [e];
      forall i | 0 <= i < |wider| ensures Linked(h, wider, i) {
        if i < n {
          assert Linked(h, log, i);
        }
      }
    } else if Linked(h, wider, p + 1) && Linked(h, wider, p) {
      assert wider[p] == e && wider[p + 1] == log[p] && Linked(h, log, p);
      if p == 0 {
        LinkedHashIsNotGenesis(h, wider, p);
      } else {
        assert Linked(h, log, p - 1);
        EqualHashesEqualEntries(h, wider, p, log, p - 1);
        if p == 1 {
          assert Linked(h, log, n - 1);
          LinkedHashIsNotGenesis(h, log, n - 1);
        } else {
          assert Linked(h, log, p - 2);
          HashesAreDistinct(h, log, p - 2, n - 1);
        }
      }
      assert false;
    }
  }

  class AuditTrail {
    // The table: rows in the order they were inserted.
    var rows: seq<Entry>

    constructor ()
      ensures rows == []
    {
      rows := [];
    }

    // ORDER BY occurred_at DESC, entry_id DESC LIMIT 1.
    function LatestHash(): string
      reads this
    {
      LastHash(Listed(rows))
    }

    // One append under the tenant's lock. If the listing was a chain, it still is exactly when the
    // new entry is listed last: not when a clock stepped back, nor when two appends fall into one
    // millisecond and the second drew the lower id.
    method Append(h: Hasher, tenantID: Name, entryID: Name, nanos: int, r: Record)
        returns (result: Result<Entry, AuditError>)
      requires Ideal(h) && IsChain(h, Listed(rows))
      modifies this
      ensures result == Chain(h, tenantID, old(LatestHash()), entryID, nanos, r)
      ensures result.Err? ==> rows == old(rows)
      ensures result.Ok? ==> rows == old(rows) + [result.value]
      ensures IsChain(h, Listed(rows))
         <==> result.Err? || forall e | e in old(Listed(rows)) :: !Earlier(result.value, e)
      ensures IsRun(h, Listed(rows)) <==> IsChain(h, Listed(rows))
    {
      hide Ideal, ComputeHash, IsChain, IsRun, Earlier;
      ghost var log := Listed(rows);
      var prevHash := LatestHash();
      result := Chain(h, tenantID, prevHash, entryID, nanos, r);
      if result.Err? {
        ChainIsRun(h, log);
        return;
      }
      ghost var before := rows;
      rows := rows + [result.value];
      assert rows[..|rows| - 1] == before;
      PlacedAt(log, result.value);
      ChainedOnto(h, log, tenantID, entryID, nanos, r);
      InsertedEntry(h, log, result.value, PlaceOf(log, result.value));
    }
  }

  lemma ChainIsRun(h: Hasher, log: seq<Entry>)
    requires IsChain(h, log)
    ensures IsRun(h, log)
  {
  }

  lemma ChainedOnto(h: Hasher, log: seq<Entry>, tenantID: Name, entryID: Name, nanos: int, r: Record)
    requires Ideal(h) && IsChain(h, log) && Chain(h, tenantID, LastHash(log), entryID, nanos, r).Ok?
    ensures var e := Chain(h, tenantID, LastHash(log), entryID, nanos, r).value;
      && e.entryHash == ComputeHash(h, e)
      && e.prevHash == if log == [] then GENESIS else LastHash(log)
  {
    var e := Chain(h, tenantID, LastHash(log), entryID, nanos, r).value;
    HashFixesContent(h, e, e.(entryHash := ""));
    if log != [] {
      assert Linked(h, log, |log| - 1);
      EmptyIsNoHash(h, log[|log| - 1]);
    }
  }

  // A listing of a time range, cut at a limit, is a stretch of the whole listing.
  function InRange(sorted: seq<Entry>, start: int, end: int): seq<Entry> {
    if sorted == [] then []
    else
      var init, last := InRange(sorted[..|sorted| - 1], start, end), sorted[|sorted| - 1];
      if start <= last.occurredAt <= end then init + [last] else init
  }

  // Exactly the entries of the time range, both ends included.
  lemma {:induction false} InRangeHolds(sorted: seq<Entry>, start: int, end: int, e: Entry)
    ensures e in InRange(sorted, start, end) <==> e in sorted && start <= e.occurredAt <= end
  {
    if sorted != [] {
      InRangeHolds(sorted[..|sorted| - 1], start, end, e);
      assert sorted == sorted[..|sorted| - 1] + [sorted[|sorted| - 1]];
    }
  }

  predicate ByTime(sorted: seq<Entry>) {
    forall i, j | 0 <= i < j < |sorted| :: sorted[i].occurredAt <= sorted[j].occurredAt
  }

  lemma {:induction false} PlaceKeepsTime(sorted: seq<Entry>, e: Entry)
    requires ByTime(sorted)
    ensures ByTime(PlaceEntry(sorted, e))
  {
    PlacedAt(sorted, e);
    var p := PlaceOf(sorted, e);
    var all := sorted[..p] + [e] + sorted[p..];
    forall i, j | 0 <= i < j < |all| ensures all[i].occurredAt <= all[j].occurredAt {
      if p < |sorted| {
        assert Earlier(e, sorted[p]);
      }
      if i < p {
        assert !Earlier(e, sorted[i]);
      }
    }
  }

  lemma {:induction false} ListedByTime(rows: seq<Entry>)
    ensures ByTime(Listed(rows))
  {
    if rows != [] {
      ListedByTime(rows[..|rows| - 1]);
      PlaceKeepsTime(Listed(rows[..|rows| - 1]), rows[|rows| - 1]);
    }
  }

  lemma InRangeStep(sorted: seq<Entry>, start: int, end: int)
    requires sorted != []
    ensures var n := |sorted| - 1;
      InRange(sorted, start, end)
        == if start <= sorted[n].occurredAt <= end then InRange(sorted[..n], start, end) + [sorted[n]]
           else InRange(sorted[..n], start, end)
  {
  }

  lemma SliceOfPrefix(s: seq<Entry>, n: nat, i: nat, j: nat)
    requires i <= j <= n < |s|
    ensures s[..n][i..j] == s[i..j] && s[i..n] + [s[n]] == s[i..n + 1]
  {
  }

  lemma {:induction false} InRangeIsASlice(sorted: seq<Entry>, start: int, end: int) returns (i: nat, j: nat)
    requires ByTime(sorted)
    ensures i <= j <= |sorted| && InRange(sorted, start, end) == sorted[i..j]
    ensures i < j ==> start <= sorted[i].occurredAt
    ensures i < j < |sorted| ==> end < sorted[j].occurredAt
  {
    if sorted == [] {
      return 0, 0;
    }
    var n := |sorted| - 1;
    InRangeStep(sorted, start, end);
    hide InRange;
    i, j := InRangeIsASlice(sorted[..n], start, end);
    SliceOfPrefix(sorted, n, i, j);
    if start <= sorted[n].occurredAt <= end {
      if i == j {
        i := n;
      }
      j := n + 1;
    }
  }

  // The audit page never cries wolf: over a trail whose listing is a chain, the check of any time
  // range, cut at any number of entries, passes.
  lemma RangeChecksPass(h: Hasher, rows: seq<Entry>, start: int, end: int, limit: nat)
    requires IsChain(h, Listed(rows))
    ensures var listed := InRange(Listed(rows), start, end);
      IsRun(h, if |listed| > limit then listed[..limit] else listed)
  {
    hide ComputeHash, Linked;
    ListedByTime(rows);
    var i, j := InRangeIsASlice(Listed(rows), start, end);
    var listed := InRange(Listed(rows), start, end);
    SlicesPass(h, Listed(rows), i, j);
    if |listed| > limit {
      SlicesPass(h, listed, 0, limit);
      assert listed[0..limit] == listed[..limit];
    }
  }
}
