// The closer's exact-partner traversal (backend/internal/correlate/closer.go).
//
// `Alone` is the traversal of one window by itself. `ExpandExactPartners` is the batched
// form the closer runs: every due window in lockstep, one bucket read per level and tenant.
// The method is proved to hand every window exactly the sequence `Alone` gives it, and the
// lemmas say what that sequence is: the least set of events closed under shared identifiers.

module Windows {
  import opened Text

  datatype Scheduled = Scheduled(tenant: string, key: string)

  datatype Member = Member(
    eventID: string, vendor: string, eventTime: int,
    vendorRequestID: string, linkedRequestID: string)

  // The Redis lists behind the windows, by tenant and join key.
  type Lists = map<Scheduled, seq<Member>>

  ghost function Ids(ms: seq<Member>): set<string> {
    set m | m in ms :: m.eventID
  }

  ghost predicate DistinctEvents(ms: seq<Member>) {
    forall i, j | 0 <= i < j < |ms| :: ms[i].eventID != ms[j].eventID
  }

  // The members of ms that carry an event id not seen before, first copies only, in order.
  ghost function Fresh(seen: set<string>, ms: seq<Member>): seq<Member> {
    if ms == [] then []
    else
      var init, last := Fresh(seen, ms[..|ms| - 1]), ms[|ms| - 1];
      if last.eventID in seen + Ids(init) then init else init + [last]
  }

  // What a batched read answers for one key: the list, collapsed by event id.
  ghost function Bucket(lists: Lists, tenant: string, key: string): seq<Member> {
    var at := Scheduled(tenant, key);
    if at in lists then Fresh({}, lists[at]) else []
  }

  function ExactKeyValue(tenant: string, requestID: string): string {
    "t1|" + tenant + "|" + TrimSpace(requestID)
  }

  lemma {:induction false} FreshShape(seen: set<string>, ms: seq<Member>)
    ensures DistinctEvents(Fresh(seen, ms))
    ensures Ids(Fresh(seen, ms)) !! seen
    ensures forall m | m in Fresh(seen, ms) :: m in ms
    ensures seen + Ids(Fresh(seen, ms)) == seen + Ids(ms)
  {
    if ms != [] {
      var init, last := ms[..|ms| - 1], ms[|ms| - 1];
      FreshShape(seen, init);
      assert Ids(ms) == Ids(init) + {last.eventID};
      var f := Fresh(seen, init);
      assert Ids(f + [last]) == Ids(f) + {last.eventID};
    }
  }

  lemma DisjointDistinct(a: seq<Member>, b: seq<Member>)
    requires DistinctEvents(a) && DistinctEvents(b) && Ids(a) !! Ids(b)
    ensures DistinctEvents(a + b) && Ids(a + b) == Ids(a) + Ids(b)
  {
    forall i, j | 0 <= i < |a| && 0 <= j < |b| ensures a[i].eventID != b[j].eventID {
      assert a[i].eventID in Ids(a) && b[j].eventID in Ids(b);
    }
  }

  lemma IdsSnoc(ms: seq<Member>, m: Member)
    ensures Ids(ms + [m]) == Ids(ms) + {m.eventID}
  {
    forall id | id in Ids(ms) ensures id in Ids(ms + [m]) {
      var n :| n in ms && n.eventID == id;
      assert n in ms + [m];
    }
    assert m in ms + [m];
  }

  lemma FreshSnoc(seen: set<string>, ms: seq<Member>, m: Member)
    ensures Fresh(seen, ms + [m])
         == if m.eventID in seen + Ids(Fresh(seen, ms)) then Fresh(seen, ms) else Fresh(seen, ms) + [m]
  {
    assert (ms + [m])[..|ms|] == ms;
  }

  lemma FreshCovers(seen: set<string>, ms: seq<Member>, m: Member)
    requires m in ms
    ensures m.eventID in seen + Ids(Fresh(seen, ms))
  {
    FreshShape(seen, ms);
    assert m.eventID in Ids(ms);
  }
}

module PartnerWalk {
  import opened Collections
  import opened Wrappers
  import opened Windows

  // ---------------------------------------------------------------- one window alone

  // A window's position: event ids seen, identifiers visited, members found, and the
  // members whose identifiers have not been followed yet.
  datatype Walk = Walk(
    seen: set<string>, visited: set<string>, out: seq<Member>, frontier: seq<Member>)

  // identifiersOf: the exact bucket keys a member is reachable through.
  function IdentifiersOf(tenant: string, m: Member): seq<string> {
    (if m.vendorRequestID == "" then [] else [ExactKeyValue(tenant, m.vendorRequestID)])
    + (if m.linkedRequestID == "" then [] else [ExactKeyValue(tenant, m.linkedRequestID)])
  }

  ghost function Identifiers(tenant: string, ms: seq<Member>): seq<string> {
    if ms == [] then []
    else Identifiers(tenant, ms[..|ms| - 1]) + IdentifiersOf(tenant, ms[|ms| - 1])
  }

  ghost function Wanted(tenant: string, w: Walk): seq<string> {
    FreshKeys(w.visited, Identifiers(tenant, w.frontier))
  }

  ghost function Partners(lists: Lists, tenant: string, wanted: seq<string>): seq<Member> {
    if wanted == [] then []
    else Partners(lists, tenant, wanted[..|wanted| - 1]) + Bucket(lists, tenant, wanted[|wanted| - 1])
  }

  ghost function StartWalk(members: seq<Member>): Walk {
    var found := Fresh({}, members);
    Walk(Ids(found), {}, found, found)
  }

  // One level: ask for the wanted buckets, keep the partners not seen before.
  ghost function Step(lists: Lists, tenant: string, w: Walk): Walk {
    var wanted := Wanted(tenant, w);
    var found := Fresh(w.seen, Partners(lists, tenant, wanted));
    Walk(w.seen + Ids(found), w.visited + ToSet(wanted), w.out + found, found)
  }

  ghost function StoredMembers(lists: Lists, tenant: string): set<Member> {
    set k, m | k in lists && k.tenant == tenant && m in lists[k] :: m
  }

  // Identifiers a walk may still visit: the bound that makes it finite.
  ghost function Todo(lists: Lists, tenant: string, w: Walk): set<string> {
    (set m, id | m in StoredMembers(lists, tenant) && id in IdentifiersOf(tenant, m) :: id)
    + ToSet(Identifiers(tenant, w.frontier)) - w.visited
  }

  // The members a window ends up with when it is walked by itself.
  ghost function Alone(lists: Lists, tenant: string, w: Walk): seq<Member>
    decreases Todo(lists, tenant, w)
  {
    if Wanted(tenant, w) == [] then w.out
    else
      StepShrinks(lists, tenant, w);
      Alone(lists, tenant, Step(lists, tenant, w))
  }

  lemma IdentifiersNil(tenant: string, visited: set<string>)
    ensures FreshKeys(visited, Identifiers(tenant, [])) == []
  {
  }

  lemma IdentifiersSnoc(tenant: string, ms: seq<Member>, i: nat)
    requires i < |ms|
    ensures Identifiers(tenant, ms[..i + 1]) == Identifiers(tenant, ms[..i]) + IdentifiersOf(tenant, ms[i])
  {
    assert ms[..i + 1][..i] == ms[..i];
  }

  lemma PartnersSnoc(lists: Lists, tenant: string, wanted: seq<string>, i: nat)
    requires i < |wanted|
    ensures Partners(lists, tenant, wanted[..i + 1])
         == Partners(lists, tenant, wanted[..i]) + Bucket(lists, tenant, wanted[i])
  {
    assert wanted[..i + 1][..i] == wanted[..i];
  }

  lemma {:induction false} IdentifiersContain(tenant: string, ms: seq<Member>, id: string)
    ensures id in Identifiers(tenant, ms) <==> exists m :: m in ms && id in IdentifiersOf(tenant, m)
  {
    if ms != [] {
      var init, last := ms[..|ms| - 1], ms[|ms| - 1];
      IdentifiersContain(tenant, init, id);
      assert ms == init + [last];
    }
  }

  lemma {:induction false} PartnersContain(lists: Lists, tenant: string, wanted: seq<string>, p: Member)
    ensures p in Partners(lists, tenant, wanted) <==> exists k :: k in wanted && p in Bucket(lists, tenant, k)
  {
    if wanted != [] {
      var init, last := wanted[..|wanted| - 1], wanted[|wanted| - 1];
      PartnersContain(lists, tenant, init, p);
      assert wanted == init + [last];
    }
  }

  lemma BucketIsStored(lists: Lists, tenant: string, key: string, p: Member)
    requires p in Bucket(lists, tenant, key)
    ensures p in StoredMembers(lists, tenant)
  {
    FreshShape({}, lists[Scheduled(tenant, key)]);
  }

  // Members found by a step are stored members.
  lemma FoundIsStored(lists: Lists, tenant: string, w: Walk, m: Member)
    requires m in Step(lists, tenant, w).frontier
    ensures exists k :: k in Wanted(tenant, w) && m in Bucket(lists, tenant, k)
    ensures m in StoredMembers(lists, tenant)
  {
    var wanted := Wanted(tenant, w);
    FreshShape(w.seen, Partners(lists, tenant, wanted));
    PartnersContain(lists, tenant, wanted, m);
    var k :| k in wanted && m in Bucket(lists, tenant, k);
    BucketIsStored(lists, tenant, k, m);
  }

  lemma StepNeverGrows(lists: Lists, tenant: string, w: Walk)
    ensures Todo(lists, tenant, Step(lists, tenant, w)) <= Todo(lists, tenant, w) - ToSet(Wanted(tenant, w))
  {
    var next := Step(lists, tenant, w);
    FreshKeysShape(w.visited, Identifiers(tenant, w.frontier));
    forall id | id in Todo(lists, tenant, next)
      ensures id in Todo(lists, tenant, w) - ToSet(Wanted(tenant, w))
    {
      if id in Identifiers(tenant, next.frontier) {
        IdentifiersContain(tenant, next.frontier, id);
        var m :| m in next.frontier && id in IdentifiersOf(tenant, m);
        FoundIsStored(lists, tenant, w, m);
      }
    }
  }

  lemma StepShrinks(lists: Lists, tenant: string, w: Walk)
    requires Wanted(tenant, w) != []
    ensures Todo(lists, tenant, Step(lists, tenant, w)) < Todo(lists, tenant, w)
  {
    StepNeverGrows(lists, tenant, w);
    FreshKeysShape(w.visited, Identifiers(tenant, w.frontier));
    var id := Wanted(tenant, w)[0];
    assert id in ToSet(Wanted(tenant, w)) && id in Todo(lists, tenant, w);
  }

  // A further level never changes the answer, whether or not the walk had finished. This is
  // what lets a finished window wait in the batch for the others.
  lemma StepKeepsTheAnswer(lists: Lists, tenant: string, w: Walk)
    ensures Alone(lists, tenant, Step(lists, tenant, w)) == Alone(lists, tenant, w)
  {
    if Wanted(tenant, w) == [] {
      var next := Step(lists, tenant, w);
      assert next.frontier == [] && next.out == w.out + [] == w.out;
      assert Wanted(tenant, next) == [];
    }
  }

  // ---------------------------------------------------------------- the answer is a closure

  // An event id fixes its member: among everything stored for the tenant and the window's own
  // members, two copies of one event are equal.
  ghost predicate EventFixesMember(lists: Lists, tenant: string, start: seq<Member>) {
    forall a, b | a in StoredMembers(lists, tenant) + ToSet(start)
               && b in StoredMembers(lists, tenant) + ToSet(start) ::
      a.eventID == b.eventID ==> a == b
  }

  // Whoever shares an identifier's bucket with a member of s is in s.
  ghost predicate Closed(lists: Lists, tenant: string, s: set<Member>) {
    forall m, id, p | m in s && id in IdentifiersOf(tenant, m) && p in Bucket(lists, tenant, id) :: p in s
  }

  ghost predicate WalkInvariant(lists: Lists, tenant: string, start: seq<Member>, w: Walk) {
    && w.seen == Ids(w.out)
    && DistinctEvents(w.out)
    && (forall m | m in w.frontier :: m in w.out)
    && (forall m | m in w.out :: m in StoredMembers(lists, tenant) + ToSet(start))
    && (forall m, id | m in w.out && m !in w.frontier && id in IdentifiersOf(tenant, m) :: id in w.visited)
    && (forall id, p | id in w.visited && p in Bucket(lists, tenant, id) :: p.eventID in w.seen)
  }

  lemma StartInvariant(lists: Lists, tenant: string, start: seq<Member>)
    ensures WalkInvariant(lists, tenant, start, StartWalk(start))
  {
    FreshShape({}, start);
  }

  lemma StepFollowsItsFrontier(lists: Lists, tenant: string, w: Walk, m: Member, id: string)
    requires m in w.frontier && id in IdentifiersOf(tenant, m)
    ensures id in Step(lists, tenant, w).visited
  {
    FreshKeysShape(w.visited, Identifiers(tenant, w.frontier));
    IdentifiersContain(tenant, w.frontier, id);
    assert id in ToSet(Identifiers(tenant, w.frontier));
  }

  lemma StepSeesItsPartners(lists: Lists, tenant: string, w: Walk, id: string, p: Member)
    requires id in Step(lists, tenant, w).visited && id !in w.visited && p in Bucket(lists, tenant, id)
    ensures p.eventID in Step(lists, tenant, w).seen
  {
    var wanted := Wanted(tenant, w);
    PartnersContain(lists, tenant, wanted, p);
    FreshCovers(w.seen, Partners(lists, tenant, wanted), p);
  }

  lemma StepInvariant(lists: Lists, tenant: string, start: seq<Member>, w: Walk)
    requires WalkInvariant(lists, tenant, start, w)
    ensures WalkInvariant(lists, tenant, start, Step(lists, tenant, w))
  {
    var next := Step(lists, tenant, w);
    FreshShape(w.seen, Partners(lists, tenant, Wanted(tenant, w)));
    assert DistinctEvents(next.out) && next.seen == Ids(next.out) by {
      DisjointDistinct(w.out, next.frontier);
    }
    assert forall m | m in next.frontier :: m in StoredMembers(lists, tenant) by {
      forall m | m in next.frontier ensures m in StoredMembers(lists, tenant) {
        FoundIsStored(lists, tenant, w, m);
      }
    }
    forall m, id | m in next.out && m !in next.frontier && id in IdentifiersOf(tenant, m)
      ensures id in next.visited
    {
      if m in w.frontier {
        StepFollowsItsFrontier(lists, tenant, w, m, id);
      }
    }
    forall id, p | id in next.visited && p in Bucket(lists, tenant, id)
      ensures p.eventID in next.seen
    {
      if id !in w.visited {
        StepSeesItsPartners(lists, tenant, w, id, p);
      }
    }
  }

  // No event appears twice in what a window ends up with.
  lemma {:induction false} NoEventTwice(lists: Lists, tenant: string, start: seq<Member>, w: Walk)
    requires WalkInvariant(lists, tenant, start, w)
    ensures DistinctEvents(Alone(lists, tenant, w))
    decreases Todo(lists, tenant, w)
  {
    if Wanted(tenant, w) != [] {
      StepShrinks(lists, tenant, w);
      StepInvariant(lists, tenant, start, w);
      NoEventTwice(lists, tenant, start, Step(lists, tenant, w));
    }
  }

  lemma {:induction false} AloneExtends(lists: Lists, tenant: string, w: Walk)
    ensures w.out <= Alone(lists, tenant, w)
    decreases Todo(lists, tenant, w)
  {
    if Wanted(tenant, w) != [] {
      StepShrinks(lists, tenant, w);
      AloneExtends(lists, tenant, Step(lists, tenant, w));
    }
  }

  lemma FinishedIsClosed(lists: Lists, tenant: string, start: seq<Member>, w: Walk)
    requires EventFixesMember(lists, tenant, start) && WalkInvariant(lists, tenant, start, w)
    requires Wanted(tenant, w) == []
    ensures Closed(lists, tenant, ToSet(w.out))
  {
    FreshKeysShape(w.visited, Identifiers(tenant, w.frontier));
    forall m, id, p | m in ToSet(w.out) && id in IdentifiersOf(tenant, m) && p in Bucket(lists, tenant, id)
      ensures p in ToSet(w.out)
    {
      if m in w.frontier {
        IdentifiersContain(tenant, w.frontier, id);
        assert id in ToSet(Identifiers(tenant, w.frontier)) - ToSet(Wanted(tenant, w));
      }
      assert p.eventID in Ids(w.out);
      var q :| q in w.out && q.eventID == p.eventID;
      BucketIsStored(lists, tenant, id, p);
    }
  }

  lemma {:induction false} AloneIsClosed(lists: Lists, tenant: string, start: seq<Member>, w: Walk)
    requires EventFixesMember(lists, tenant, start) && WalkInvariant(lists, tenant, start, w)
    ensures Closed(lists, tenant, ToSet(Alone(lists, tenant, w)))
    decreases Todo(lists, tenant, w)
  {
    if Wanted(tenant, w) == [] {
      FinishedIsClosed(lists, tenant, start, w);
    } else {
      StepShrinks(lists, tenant, w);
      StepInvariant(lists, tenant, start, w);
      AloneIsClosed(lists, tenant, start, Step(lists, tenant, w));
    }
  }

  lemma StepStaysInside(lists: Lists, tenant: string, w: Walk, s: set<Member>, m: Member)
    requires Closed(lists, tenant, s) && ToSet(w.frontier) <= s
    requires m in Step(lists, tenant, w).frontier
    ensures m in s
  {
    FreshKeysShape(w.visited, Identifiers(tenant, w.frontier));
    FoundIsStored(lists, tenant, w, m);
    var k :| k in Wanted(tenant, w) && m in Bucket(lists, tenant, k);
    assert k in ToSet(Wanted(tenant, w));
    IdentifiersContain(tenant, w.frontier, k);
    var n :| n in w.frontier && k in IdentifiersOf(tenant, n);
    assert n in ToSet(w.frontier);
  }

  lemma {:induction false} AloneIsLeast(lists: Lists, tenant: string, w: Walk, s: set<Member>)
    requires Closed(lists, tenant, s) && ToSet(w.out) <= s && ToSet(w.frontier) <= s
    ensures ToSet(Alone(lists, tenant, w)) <= s
    decreases Todo(lists, tenant, w)
  {
    if Wanted(tenant, w) != [] {
      StepShrinks(lists, tenant, w);
      var next := Step(lists, tenant, w);
      forall m | m in next.frontier ensures m in s {
        StepStaysInside(lists, tenant, w, s, m);
      }
      assert ToSet(next.frontier) <= s && ToSet(next.out) <= s;
      AloneIsLeast(lists, tenant, next, s);
    }
  }

  // What one window collects.
  ghost function Closure(lists: Lists, tenant: string, members: seq<Member>): seq<Member> {
    Alone(lists, tenant, StartWalk(members))
  }

  // The closure of a window: its own members first, no event twice, closed under shared
  // identifiers, and inside every closed set that holds its members.
  lemma ClosureIsLeastClosedSet(lists: Lists, tenant: string, members: seq<Member>)
    requires EventFixesMember(lists, tenant, members)
    ensures Fresh({}, members) <= Closure(lists, tenant, members)
    ensures DistinctEvents(Closure(lists, tenant, members))
    ensures ToSet(members) <= ToSet(Closure(lists, tenant, members))
    ensures Closed(lists, tenant, ToSet(Closure(lists, tenant, members)))
    ensures forall s | ToSet(members) <= s && Closed(lists, tenant, s) ::
      ToSet(Closure(lists, tenant, members)) <= s
  {
    var w := StartWalk(members);
    StartInvariant(lists, tenant, members);
    NoEventTwice(lists, tenant, members, w);
    AloneExtends(lists, tenant, w);
    AloneIsClosed(lists, tenant, members, w);
    FreshShape({}, members);
    forall m | m in ToSet(members) ensures m in ToSet(Closure(lists, tenant, members)) {
      FreshCovers({}, members, m);
      var q :| q in w.out && q.eventID == m.eventID;
      assert q in members;
      assert q in Closure(lists, tenant, members);
    }
    forall s | ToSet(members) <= s && Closed(lists, tenant, s)
      ensures ToSet(Closure(lists, tenant, members)) <= s
    {
      AloneIsLeast(lists, tenant, w, s);
    }
  }

  // ---------------------------------------------------------------- every window in lockstep

  // The first copy of each event, in order, and the ids kept.
  method CollapseByEvent(entries: seq<Member>) returns (seen: set<string>, members: seq<Member>)
    ensures members == Fresh({}, entries) && seen == Ids(members)
  {
    seen, members := {}, [];
    assert Fresh({}, entries[..0]) == [] && Ids([]) == {};
    hide Fresh, Ids;
    for i := 0 to |entries|
      invariant members == Fresh({}, entries[..i]) && seen == Ids(members)
    {
      assert entries[..i + 1] == entries[..i] + [entries[i]];
      FreshSnoc({}, entries[..i], entries[i]);
      if entries[i].eventID !in seen {
        IdsSnoc(members, entries[i]);
        seen, members := seen + {entries[i].eventID}, members + [entries[i]];
      }
    }
    assert entries[..|entries|] == entries;
  }

  // partnerWalk: one window's position, updated level by level.
  class PartnerWalk {
    var seen: set<string>
    var visited: set<string>
    var out: seq<Member>
    var frontier: seq<Member>

    ghost function View(): Walk
      reads this
    {
      Walk(seen, visited, out, frontier)
    }

    constructor (members: seq<Member>)
      ensures View() == StartWalk(members)
    {
      var ids, found := CollapseByEvent(members);
      seen, visited, out, frontier := ids, {}, found, found;
    }

    // The identifiers of one member this window still wants, added after those in wanted.
    method VisitMember(ids: seq<string>, wanted: seq<string>, ghost before: set<string>, ghost done: seq<string>)
      returns (more: seq<string>)
      requires wanted == FreshKeys(before, done) && visited == before + ToSet(wanted)
      modifies this`visited
      ensures more == FreshKeys(before, done + ids) && visited == before + ToSet(more)
    {
      more := wanted;
      ghost var asked := done;
      hide FreshKeys;
      for j := 0 to |ids|
        invariant asked == done + ids[..j]
        invariant more == FreshKeys(before, asked) && visited == before + ToSet(more)
      {
        assert ids[..j + 1] == ids[..j] + [ids[j]];
        FreshKeysSnoc(before, asked, ids[j]);
        asked := asked + [ids[j]];
        if ids[j] !in visited {
          assert ToSet(more + [ids[j]]) == ToSet(more) + {ids[j]};
          visited, more := visited + {ids[j]}, more + [ids[j]];
        }
      }
      assert ids[..|ids|] == ids;
    }

    // The identifiers this window still wants, each marked visited as it is asked for.
    method Visit(tenant: string) returns (wanted: seq<string>)
      modifies this`visited
      ensures wanted == Wanted(tenant, old(View()))
      ensures visited == old(visited) + ToSet(wanted)
    {
      wanted := [];
      ghost var before := visited;
      assert frontier[..|frontier|] == frontier;
      hide FreshKeys, Identifiers, IdentifiersOf;
      assert frontier[..0] == [];
      IdentifiersNil(tenant, before);
      for i := 0 to |frontier|
        invariant wanted == FreshKeys(before, Identifiers(tenant, frontier[..i]))
        invariant visited == before + ToSet(wanted)
      {
        IdentifiersSnoc(tenant, frontier, i);
        wanted := VisitMember(IdentifiersOf(tenant, frontier[i]), wanted,
                              before, Identifiers(tenant, frontier[..i]));
      }
    }

    // The partners of one bucket this window has not seen, added after those in next.
    method TakeBucket(bucket: seq<Member>, next: seq<Member>,
                      ghost base: Walk, ghost done: seq<Member>)
      returns (more: seq<Member>)
      requires next == Fresh(base.seen, done)
      requires seen == base.seen + Ids(next) && out == base.out + next
      modifies this`seen, this`out
      ensures more == Fresh(base.seen, done + bucket)
      ensures seen == base.seen + Ids(more) && out == base.out + more
    {
      more := next;
      ghost var read := done;
      hide Fresh, Ids;
      for j := 0 to |bucket|
        invariant read == done + bucket[..j]
        invariant more == Fresh(base.seen, read)
        invariant seen == base.seen + Ids(more) && out == base.out + more
      {
        var p := bucket[j];
        assert bucket[..j + 1] == bucket[..j] + [p];
        FreshSnoc(base.seen, read, p);
        read := read + [p];
        if p.eventID !in seen {
          IdsSnoc(more, p);
          seen, out, more := seen + {p.eventID}, out + [p], more + [p];
        }
      }
      assert bucket[..|bucket|] == bucket;
    }

    // Takes the partners its own identifiers reached; they become the next frontier.
    method Absorb(wanted: seq<string>, found: map<string, seq<Member>>, ghost lists: Lists, ghost tenant: string)
      requires forall k | k in wanted :: Bucket(lists, tenant, k) == if k in found then found[k] else []
      modifies this`seen, this`out, this`frontier
      ensures frontier == Fresh(old(seen), Partners(lists, tenant, wanted))
      ensures seen == old(seen) + Ids(frontier) && out == old(out) + frontier
    {
      var next: seq<Member> := [];
      ghost var base := View();
      assert Fresh(base.seen, Partners(lists, tenant, wanted[..0])) == [] && Ids([]) == {};
      hide Fresh, Partners, Ids, Bucket;
      for i := 0 to |wanted|
        invariant next == Fresh(base.seen, Partners(lists, tenant, wanted[..i]))
        invariant seen == base.seen + Ids(next) && out == base.out + next
      {
        PartnersSnoc(lists, tenant, wanted, i);
        var bucket := if wanted[i] in found then found[wanted[i]] else [];
        next := TakeBucket(bucket, next, base, Partners(lists, tenant, wanted[..i]));
      }
      assert wanted[..|wanted|] == wanted;
      frontier := next;
    }
  }

  // No window is claimed twice in one batch: the schedule is a sorted set.
  ghost predicate DistinctWindows(due: seq<Scheduled>) {
    forall i, j | 0 <= i < j < |due| :: due[i] != due[j]
  }

  // Each due window has a walk of its own.
  ghost predicate OwnWalks(due: seq<Scheduled>, walks: map<Scheduled, PartnerWalk>) {
    && walks.Keys == ToSet(due)
    && forall s, t | s in walks && t in walks && s != t :: walks[s] != walks[t]
  }

  ghost function MembersOf(byWindow: map<Scheduled, seq<Member>>, s: Scheduled): seq<Member> {
    if s in byWindow then byWindow[s] else []
  }

  method NewPartnerWalks(due: seq<Scheduled>, byWindow: map<Scheduled, seq<Member>>)
    returns (walks: map<Scheduled, PartnerWalk>)
    requires DistinctWindows(due)
    ensures OwnWalks(due, walks)
    ensures forall s | s in walks :: fresh(walks[s]) && walks[s].View() == StartWalk(MembersOf(byWindow, s))
  {
    walks := map[];
    for i := 0 to |due|
      invariant OwnWalks(due[..i], walks)
      invariant forall s | s in walks :: fresh(walks[s]) && walks[s].View() == StartWalk(MembersOf(byWindow, s))
    {
      var s := due[i];
      var w := new PartnerWalk(if s in byWindow then byWindow[s] else []);
      ToSetSnoc(due, i);
      walks := walks[s := w];
    }
    assert due[..|due|] == due;
  }

  ghost function Views(walks: map<Scheduled, PartnerWalk>): map<Scheduled, Walk>
    reads walks.Values
  {
    map s | s in walks :: walks[s].View()
  }

  ghost function Visited(s: Scheduled, w: Walk): Walk {
    w.(visited := w.visited + ToSet(Wanted(s.tenant, w)))
  }

  // What the walks are once the windows in asked have marked their wanted identifiers.
  ghost function AfterVisit(vs: map<Scheduled, Walk>, asked: set<Scheduled>): map<Scheduled, Walk> {
    map s | s in vs :: if s in asked then Visited(s, vs[s]) else vs[s]
  }

  ghost predicate WantedIs(wanted: map<Scheduled, seq<string>>, vs: map<Scheduled, Walk>, asked: set<Scheduled>) {
    forall s | s in vs ::
      WantedOf(wanted, s) == if s in asked then Wanted(s.tenant, vs[s]) else []
  }

  function WantedOf(wanted: map<Scheduled, seq<string>>, s: Scheduled): seq<string> {
    if s in wanted then wanted[s] else []
  }

  function AskedOf(byTenant: map<string, set<string>>, tenant: string): set<string> {
    if tenant in byTenant then byTenant[tenant] else {}
  }

  // The per-tenant sets hold every wanted identifier and nothing else, and no set is empty.
  ghost predicate AsksExactly(byTenant: map<string, set<string>>, wanted: map<Scheduled, seq<string>>) {
    && (forall t | t in byTenant :: byTenant[t] != {})
    && (forall s, id | s in wanted && id in wanted[s] :: id in AskedOf(byTenant, s.tenant))
    && (forall t, id | t in byTenant && id in byTenant[t] :: exists s :: s in wanted && s.tenant == t && id in wanted[s])
  }

  // One window's share of nextIdentifiers.
  method AskWindow(s: Scheduled, w: PartnerWalk, wanted: map<Scheduled, seq<string>>,
                   byTenant: map<string, set<string>>)
    returns (wanted': map<Scheduled, seq<string>>, byTenant': map<string, set<string>>)
    requires s !in wanted && AsksExactly(byTenant, wanted)
    modifies w
    ensures w.View() == Visited(s, old(w.View()))
    ensures wanted' == wanted || wanted' == wanted[s := Wanted(s.tenant, old(w.View()))]
    ensures WantedOf(wanted', s) == Wanted(s.tenant, old(w.View()))
    ensures AsksExactly(byTenant', wanted')
  {
    wanted', byTenant' := wanted, byTenant;
    var ids := w.Visit(s.tenant);
    if ids != [] {
      wanted' := wanted[s := ids];
      byTenant' := byTenant[s.tenant := AskedOf(byTenant, s.tenant) + set id | id in ids];
      StillAsksExactly(byTenant, wanted, s, ids, byTenant');
    }
  }

  // What each due window still wants, and the deduplicated set to ask each tenant's store for.
  method NextIdentifiers(due: seq<Scheduled>, walks: map<Scheduled, PartnerWalk>)
    returns (wanted: map<Scheduled, seq<string>>, byTenant: map<string, set<string>>)
    requires DistinctWindows(due) && OwnWalks(due, walks)
    modifies walks.Values
    ensures wanted.Keys <= walks.Keys && WantedIs(wanted, old(Views(walks)), ToSet(due))
    ensures AsksExactly(byTenant, wanted)
    ensures Views(walks) == AfterVisit(old(Views(walks)), ToSet(due))
  {
    wanted, byTenant := map[], map[];
    ghost var vs := Views(walks);
    assert Views(walks) == AfterVisit(vs, {});
    assert WantedIs(wanted, vs, {}) && AsksExactly(byTenant, wanted);
    assert ToSet(due[..0]) == {} && walks.Keys == ToSet(due);
    hide *;
    for i := 0 to |due|
      invariant Views(walks) == AfterVisit(vs, ToSet(due[..i]))
      invariant WantedIs(wanted, vs, ToSet(due[..i])) && wanted.Keys <= ToSet(due[..i])
      invariant AsksExactly(byTenant, wanted)
    {
      var s := due[i];
      DueAt(due, walks, i);
      ghost var before, asked := Views(walks), wanted;
      ViewsAre(walks);
      AfterVisitKeys(vs, ToSet(due[..i]));
      wanted, byTenant := AskWindow(s, walks[s], wanted, byTenant);
      OnlyOneChanged(walks, s, before);
      AfterVisitSnoc(vs, ToSet(due[..i]), s);
      WantedOfOthers(asked, wanted, s);
      WantedSnoc(vs, ToSet(due[..i]), s, asked, wanted);
    }
    assert due[..|due|] == due;
  }

  lemma AfterVisitOut(vs: map<Scheduled, Walk>, asked: set<Scheduled>)
    ensures AfterVisit(vs, asked).Keys == vs.Keys
    ensures forall s | s in vs :: AfterVisit(vs, asked)[s].out == vs[s].out
  {
  }

  lemma ViewsAre(walks: map<Scheduled, PartnerWalk>)
    ensures Views(walks).Keys == walks.Keys
    ensures forall s | s in walks :: Views(walks)[s] == walks[s].View()
    ensures forall s | s in walks :: Views(walks)[s].out == walks[s].out
  {
  }

  lemma DueAt(due: seq<Scheduled>, walks: map<Scheduled, PartnerWalk>, i: nat)
    requires DistinctWindows(due) && OwnWalks(due, walks) && i < |due|
    ensures due[i] in walks && due[i] !in ToSet(due[..i])
    ensures forall t | t in walks && t != due[i] :: walks[t] != walks[due[i]]
    ensures ToSet(due[..i + 1]) == ToSet(due[..i]) + {due[i]}
  {
    ToSetSnoc(due, i);
  }

  lemma AfterVisitKeys(vs: map<Scheduled, Walk>, asked: set<Scheduled>)
    ensures AfterVisit(vs, asked).Keys == vs.Keys
  {
  }

  lemma WantedOfOthers(wanted: map<Scheduled, seq<string>>, wanted': map<Scheduled, seq<string>>, s: Scheduled)
    requires wanted' == wanted || (s in wanted' && wanted' == wanted[s := wanted'[s]])
    ensures forall t | t != s :: WantedOf(wanted', t) == WantedOf(wanted, t)
  {
  }

  lemma AfterVisitSnoc(vs: map<Scheduled, Walk>, asked: set<Scheduled>, s: Scheduled)
    requires s in vs && s !in asked
    ensures AfterVisit(vs, asked)[s] == vs[s]
    ensures AfterVisit(vs, asked)[s := Visited(s, vs[s])] == AfterVisit(vs, asked + {s})
  {
  }

  lemma WantedSnoc(vs: map<Scheduled, Walk>, asked: set<Scheduled>, s: Scheduled,
                   wanted: map<Scheduled, seq<string>>, wanted': map<Scheduled, seq<string>>)
    requires s in vs && s !in asked && WantedIs(wanted, vs, asked)
    requires forall t | t != s :: WantedOf(wanted', t) == WantedOf(wanted, t)
    requires WantedOf(wanted', s) == Wanted(s.tenant, vs[s])
    ensures WantedIs(wanted', vs, asked + {s})
  {
  }

  lemma OnlyOneChanged(walks: map<Scheduled, PartnerWalk>, s: Scheduled, before: map<Scheduled, Walk>)
    requires s in walks && before.Keys == walks.Keys
    requires forall t | t in walks && t != s :: walks[t].View() == before[t]
    ensures Views(walks) == before[s := walks[s].View()]
  {
  }

  lemma StillAsksExactly(had: map<string, set<string>>, asked: map<Scheduled, seq<string>>,
                         s: Scheduled, ids: seq<string>, byTenant: map<string, set<string>>)
    requires AsksExactly(had, asked) && s !in asked && ids != []
    requires byTenant == had[s.tenant := AskedOf(had, s.tenant) + set id | id in ids]
    ensures AsksExactly(byTenant, asked[s := ids])
  {
    var wanted := asked[s := ids];
    assert ids[0] in byTenant[s.tenant];
    forall t, id | t in byTenant && id in byTenant[t]
      ensures exists r :: r in wanted && r.tenant == t && id in wanted[r]
    {
      if t == s.tenant && id in ids {
        assert s in wanted && id in wanted[s];
      } else {
        var r :| r in asked && r.tenant == t && id in asked[r];
        assert r in wanted && wanted[r] == asked[r];
      }
    }
  }

  // ------------------------------------------------------------------ bucket reads

  function FoundIn(found: map<string, seq<Member>>, key: string): seq<Member> {
    if key in found then found[key] else []
  }

  // One batched read of several lists of a tenant; the order of the keys does not matter.
  method MembersMany(lists: Lists, tenant: string, keys: set<string>) returns (found: map<string, seq<Member>>)
    ensures forall k | k in keys :: FoundIn(found, k) == Bucket(lists, tenant, k)
  {
    found := map[];
    var left := keys;
    while left != {}
      invariant left <= keys && found.Keys !! left
      invariant forall k | k in keys - left :: FoundIn(found, k) == Bucket(lists, tenant, k)
    {
      var k :| k in left;
      left := left - {k};
      if Scheduled(tenant, k) in lists {
        var _, members := CollapseByEvent(lists[Scheduled(tenant, k)]);
        found := found[k := members];
      }
    }
  }

  function BucketsOf(buckets: map<string, map<string, seq<Member>>>, tenant: string): map<string, seq<Member>> {
    if tenant in buckets then buckets[tenant] else map[]
  }

  // One level's buckets, one read per tenant; tenants are taken in any order.
  method ReadBuckets(lists: Lists, byTenant: map<string, set<string>>, down: bool)
    returns (r: Option<map<string, map<string, seq<Member>>>>)
    ensures r.None? <==> down && byTenant != map[]
    ensures r.Some? ==> forall t, k | t in byTenant && k in byTenant[t] ::
      FoundIn(BucketsOf(r.value, t), k) == Bucket(lists, t, k)
  {
    var buckets: map<string, map<string, seq<Member>>> := map[];
    var left := byTenant.Keys;
    while left != {}
      invariant left <= byTenant.Keys && (down ==> left == byTenant.Keys)
      invariant forall t, k | t in byTenant.Keys - left && k in byTenant[t] ::
        FoundIn(BucketsOf(buckets, t), k) == Bucket(lists, t, k)
    {
      if down {
        return None;
      }
      var t :| t in left;
      left := left - {t};
      var found := MembersMany(lists, t, byTenant[t]);
      buckets := buckets[t := found];
    }
    return Some(buckets);
  }

  // ------------------------------------------------------------------ one level, then all of them

  ghost function Level(lists: Lists, vs: map<Scheduled, Walk>): map<Scheduled, Walk> {
    map s | s in vs :: Step(lists, s.tenant, vs[s])
  }

  ghost function HalfLevel(lists: Lists, vs: map<Scheduled, Walk>, moved: set<Scheduled>): map<Scheduled, Walk> {
    map s | s in vs :: if s in moved then Step(lists, s.tenant, vs[s]) else Visited(s, vs[s])
  }

  lemma HalfLevelSnoc(lists: Lists, vs: map<Scheduled, Walk>, moved: set<Scheduled>, s: Scheduled)
    requires s in vs && s !in moved
    ensures HalfLevel(lists, vs, moved)[s] == Visited(s, vs[s])
    ensures HalfLevel(lists, vs, moved)[s := Step(lists, s.tenant, vs[s])] == HalfLevel(lists, vs, moved + {s})
  {
  }

  lemma HalfLevelEnds(lists: Lists, vs: map<Scheduled, Walk>, due: seq<Scheduled>)
    requires vs.Keys == ToSet(due)
    ensures HalfLevel(lists, vs, ToSet(due[..0])) == AfterVisit(vs, ToSet(due))
    ensures HalfLevel(lists, vs, ToSet(due)) == Level(lists, vs)
  {
  }

  lemma WantedByAll(wanted: map<Scheduled, seq<string>>, vs: map<Scheduled, Walk>, due: seq<Scheduled>)
    requires vs.Keys == ToSet(due) && WantedIs(wanted, vs, ToSet(due))
    ensures forall s | s in due :: s in vs && WantedOf(wanted, s) == Wanted(s.tenant, vs[s])
  {
    hide Wanted;
  }

  // Hands each window the partners its own identifiers reached. vs is where the walks stood
  // before this level asked for its identifiers.
  method AdvanceWalks(due: seq<Scheduled>, walks: map<Scheduled, PartnerWalk>,
                      wanted: map<Scheduled, seq<string>>, buckets: map<string, map<string, seq<Member>>>,
                      ghost lists: Lists, ghost vs: map<Scheduled, Walk>)
    requires DistinctWindows(due) && OwnWalks(due, walks)
    requires vs.Keys == walks.Keys == ToSet(due) && WantedIs(wanted, vs, ToSet(due))
    requires Views(walks) == AfterVisit(vs, ToSet(due))
    requires forall s, k | s in due && k in WantedOf(wanted, s) ::
      FoundIn(BucketsOf(buckets, s.tenant), k) == Bucket(lists, s.tenant, k)
    modifies walks.Values
    ensures Views(walks) == Level(lists, vs)
  {
    hide *;
    HalfLevelEnds(lists, vs, due);
    WantedByAll(wanted, vs, due);
    for i := 0 to |due|
      invariant Views(walks) == HalfLevel(lists, vs, ToSet(due[..i]))
    {
      var s := due[i];
      DueAt(due, walks, i);
      ghost var before := Views(walks);
      ViewsAre(walks);
      HalfLevelSnoc(lists, vs, ToSet(due[..i]), s);
      AbsorbOne(s, walks[s], WantedOf(wanted, s), BucketsOf(buckets, s.tenant), lists, vs[s]);
      OnlyOneChanged(walks, s, before);
    }
    assert due[..|due|] == due;
  }

  // One window's share of advanceWalks.
  method AbsorbOne(s: Scheduled, w: PartnerWalk, wanted: seq<string>, found: map<string, seq<Member>>,
                   ghost lists: Lists, ghost was: Walk)
    requires w.View() == Visited(s, was) && wanted == Wanted(s.tenant, was)
    requires forall k | k in wanted :: FoundIn(found, k) == Bucket(lists, s.tenant, k)
    modifies w
    ensures w.View() == Step(lists, s.tenant, was)
  {
    w.Absorb(wanted, found, lists, s.tenant);
  }

  lemma ClosureIs(lists: Lists, tenant: string, members: seq<Member>)
    ensures Alone(lists, tenant, StartWalk(members)) == Closure(lists, tenant, members)
  {
  }

  // What is left to visit over the whole batch.
  ghost function TodoAll(lists: Lists, vs: map<Scheduled, Walk>): set<(Scheduled, string)> {
    set s, id | s in vs && id in Todo(lists, s.tenant, vs[s]) :: (s, id)
  }

  lemma LevelShrinks(lists: Lists, vs: map<Scheduled, Walk>, some: Scheduled)
    requires some in vs && Wanted(some.tenant, vs[some]) != []
    ensures TodoAll(lists, Level(lists, vs)) < TodoAll(lists, vs)
  {
    var next := Level(lists, vs);
    forall s, id | s in next && id in Todo(lists, s.tenant, next[s])
      ensures id in Todo(lists, s.tenant, vs[s])
    {
      StepNeverGrows(lists, s.tenant, vs[s]);
    }
    StepShrinks(lists, some.tenant, vs[some]);
    SmallerMisses(Todo(lists, some.tenant, next[some]), Todo(lists, some.tenant, vs[some]));
    var id :| id in Todo(lists, some.tenant, vs[some]) && id !in Todo(lists, some.tenant, next[some]);
    assert (some, id) in TodoAll(lists, vs) && (some, id) !in TodoAll(lists, next);
  }

  datatype LevelResult = Finished | Advanced | ReadFailed

  // One level of the batch: ask, read once per tenant, advance every window.
  method WalkOneLevel(due: seq<Scheduled>, walks: map<Scheduled, PartnerWalk>, lists: Lists, down: bool)
    returns (r: LevelResult)
    requires DistinctWindows(due) && OwnWalks(due, walks)
    modifies walks.Values
    ensures Views(walks).Keys == walks.Keys
    ensures r.ReadFailed? ==> down
    ensures r.Finished? ==> forall s | s in walks ::
      walks[s].out == Alone(lists, s.tenant, old(Views(walks))[s])
    ensures r.Advanced? ==> forall s | s in walks ::
      Alone(lists, s.tenant, Views(walks)[s]) == Alone(lists, s.tenant, old(Views(walks))[s])
    ensures r.Advanced? ==> TodoAll(lists, Views(walks)) < TodoAll(lists, old(Views(walks)))
  {
    hide *;
    DueKeys(due, walks);
    ghost var vs := Views(walks);
    ViewsAre(walks);
    var wanted, byTenant := NextIdentifiers(due, walks);
    ViewsAre(walks);
    if byTenant == map[] {
      NothingWanted(lists, byTenant, wanted, vs, ToSet(due));
      AfterVisitOut(vs, ToSet(due));
      return Finished;
    }
    var buckets := ReadBuckets(lists, byTenant, down);
    if buckets.None? {
      return ReadFailed;
    }
    WantedWasRead(byTenant, wanted);
    AdvanceWalks(due, walks, wanted, buckets.value, lists, vs);
    ViewsAre(walks);
    ghost var some := SomeoneWants(byTenant, wanted, vs, ToSet(due));
    LevelShrinks(lists, vs, some);
    LevelKeepsTheAnswers(lists, vs);
    return Advanced;
  }

  // The batched traversal. Every due window gets the sequence it would get alone, whatever the
  // other windows of the batch are and whatever order tenants and keys are read in. It fails only
  // when a level's read fails.
  method ExpandExactPartners(due: seq<Scheduled>, byWindow: map<Scheduled, seq<Member>>, lists: Lists,
                             outage: nat -> bool)
    returns (r: Option<map<Scheduled, seq<Member>>>)
    requires DistinctWindows(due)
    ensures r.Some? ==> r.value.Keys == ToSet(due)
    ensures r.Some? ==> forall s | s in due ::
      r.value[s] == Closure(lists, s.tenant, MembersOf(byWindow, s))
    ensures (forall level :: !outage(level)) ==> r.Some?
  {
    var walks := NewPartnerWalks(due, byWindow);
    hide *;
    DueKeys(due, walks);
    ViewsAre(walks);
    forall s | s in walks
      ensures Alone(lists, s.tenant, Views(walks)[s]) == Closure(lists, s.tenant, MembersOf(byWindow, s))
    {
      ClosureIs(lists, s.tenant, MembersOf(byWindow, s));
    }
    var level: nat := 0;
    while true
      invariant Views(walks).Keys == walks.Keys && forall s | s in walks :: fresh(walks[s])
      invariant forall s | s in walks ::
        Alone(lists, s.tenant, Views(walks)[s]) == Closure(lists, s.tenant, MembersOf(byWindow, s))
      decreases TodoAll(lists, Views(walks))
    {
      var status := WalkOneLevel(due, walks, lists, outage(level));
      match status {
        case Finished => return Some(map s | s in walks :: walks[s].out);
        case ReadFailed => return None;
        case Advanced => level := level + 1;
      }
    }
  }

  lemma LevelKeepsTheAnswers(lists: Lists, vs: map<Scheduled, Walk>)
    ensures Level(lists, vs).Keys == vs.Keys
    ensures forall s | s in vs ::
      Alone(lists, s.tenant, Level(lists, vs)[s]) == Alone(lists, s.tenant, vs[s])
  {
    forall s | s in vs
      ensures Alone(lists, s.tenant, Level(lists, vs)[s]) == Alone(lists, s.tenant, vs[s])
    {
      StepKeepsTheAnswer(lists, s.tenant, vs[s]);
    }
  }

  lemma DueKeys(due: seq<Scheduled>, walks: map<Scheduled, PartnerWalk>)
    requires OwnWalks(due, walks)
    ensures walks.Keys == ToSet(due) && forall s :: s in due <==> s in walks
  {
  }

  lemma WantedWasRead(byTenant: map<string, set<string>>, wanted: map<Scheduled, seq<string>>)
    requires AsksExactly(byTenant, wanted)
    ensures forall s, k | k in WantedOf(wanted, s) :: s.tenant in byTenant && k in byTenant[s.tenant]
  {
  }

  lemma SomeoneWants(byTenant: map<string, set<string>>, wanted: map<Scheduled, seq<string>>,
                     vs: map<Scheduled, Walk>, asked: set<Scheduled>)
    returns (some: Scheduled)
    requires byTenant != map[] && AsksExactly(byTenant, wanted)
    requires wanted.Keys <= vs.Keys && WantedIs(wanted, vs, asked)
    ensures some in vs && Wanted(some.tenant, vs[some]) != []
  {
    hide Wanted;
    var t :| t in byTenant;
    var id :| id in byTenant[t];
    some :| some in wanted && some.tenant == t && id in wanted[some];
  }

  lemma NothingWanted(lists: Lists, byTenant: map<string, set<string>>, wanted: map<Scheduled, seq<string>>,
                      vs: map<Scheduled, Walk>, asked: set<Scheduled>)
    requires byTenant == map[] && AsksExactly(byTenant, wanted) && WantedIs(wanted, vs, asked)
    ensures forall s | s in vs && s in asked :: Alone(lists, s.tenant, vs[s]) == vs[s].out
  {
    forall s | s in vs && s in asked ensures Wanted(s.tenant, vs[s]) == [] {
      var ids := WantedOf(wanted, s);
      assert ids != [] ==> ids[0] in AskedOf(byTenant, s.tenant);
    }
  }
}
