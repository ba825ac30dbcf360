// Which events of a horizon are one request (backend/internal/correlate/group/group.go).

module Grouping {
  import opened Wrappers
  import opened Text
  import opened Collections
  import opened FieldEncoding
  import opened UnionFinds

  // The heuristic key of an event, with the keys of the two neighbouring time windows.
  datatype Heuristic = Heuristic(value: string, before: string, after: string)

  // `identifiers` are its exact key values, none, one or two; `shared` marks a client address many
  // clients share.
  datatype Event = Event(eventTime: int, vendor: string, identifiers: seq<string>, heuristic: Option<Heuristic>,
                         shared: bool, reference: string)

  datatype Group = Group(key: string, members: seq<Event>)

  // ---------------------------------------------------------------- time order

  predicate Precedes(a: Event, b: Event) {
    a.eventTime < b.eventTime || (a.eventTime == b.eventTime && Less(a.vendor, b.vendor))
  }

  function Placed(sorted: seq<Event>, e: Event): seq<Event> {
    if sorted == [] || !Precedes(e, sorted[|sorted| - 1]) then sorted + [e]
    else Placed(sorted[..|sorted| - 1], e) + [sorted[|sorted| - 1]]
  }

  // A stable sort by time, then vendor.
  function Sorted(events: seq<Event>): seq<Event> {
    if events == [] then [] else Placed(Sorted(events[..|events| - 1]), events[|events| - 1])
  }

  lemma {:induction false} PlacedKeeps(sorted: seq<Event>, e: Event)
    ensures multiset(Placed(sorted, e)) == multiset(sorted) + multiset{e}
  {
    if sorted != [] && Precedes(e, sorted[|sorted| - 1]) {
      PlacedKeeps(sorted[..|sorted| - 1], e);
      assert sorted == sorted[..|sorted| - 1] + [sorted[|sorted| - 1]];
    }
  }

  lemma {:induction false} SortedKeeps(events: seq<Event>)
    ensures multiset(Sorted(events)) == multiset(events)
  {
    hide Placed;
    if events != [] {
      var init, last := events[..|events| - 1], events[|events| - 1];
      SortedKeeps(init);
      PlacedKeeps(Sorted(init), last);
      assert events == init + [last];
    }
  }

  predicate Ordered(events: seq<Event>) {
    forall i, j | 0 <= i < j < |events| :: !Precedes(events[j], events[i])
  }

  lemma PrecedesOrder(a: Event, b: Event, c: Event)
    ensures Precedes(a, b) ==> !Precedes(b, a)
    ensures !Precedes(b, a) && !Precedes(c, b) ==> !Precedes(c, a)
  {
    if Less(a.vendor, b.vendor) {
      LessAsymmetric(a.vendor, b.vendor);
    }
    LessTotal(a.vendor, b.vendor);
    LessTotal(b.vendor, c.vendor);
    if Less(c.vendor, a.vendor) && Less(a.vendor, b.vendor) {
      LessTransitive(c.vendor, a.vendor, b.vendor);
    }
  }

  lemma {:induction false} PlacedOrdered(sorted: seq<Event>, e: Event)
    requires Ordered(sorted)
    ensures Ordered(Placed(sorted, e))
  {
    hide Precedes;
    if sorted != [] {
      var init, last := sorted[..|sorted| - 1], sorted[|sorted| - 1];
      if Precedes(e, last) {
        PlacedOrdered(init, e);
        PlacedKeeps(init, e);
        var placed := Placed(init, e);
        forall i | 0 <= i < |placed| ensures !Precedes(last, placed[i]) {
          assert placed[i] in multiset(placed);
          if placed[i] != e {
            assert placed[i] in init;
          } else {
            PrecedesOrder(e, last, e);
          }
        }
      } else {
        forall i | 0 <= i < |sorted| ensures !Precedes(e, sorted[i]) {
          PrecedesOrder(sorted[i], last, e);
        }
      }
    }
  }

  // The order the groups are built in is time, then vendor, whatever order the events came in.
  lemma {:induction false} SortedIsOrdered(events: seq<Event>)
    ensures Ordered(Sorted(events))
  {
    hide Placed, Ordered;
    if events == [] {
      NothingOrdered();
    } else {
      SortedIsOrdered(events[..|events| - 1]);
      PlacedOrdered(Sorted(events[..|events| - 1]), events[|events| - 1]);
    }
  }

  lemma NothingOrdered()
    ensures Ordered([])
  {
  }

  // In time order; within an instant by the vendor's name; alike events as they were listed.
  lemma SortedSays(events: seq<Event>, t: int, vendor: string)
    ensures forall i, j | 0 <= i < j < |Sorted(events)| :: ComesBefore(Sorted(events)[i], Sorted(events)[j])
    ensures Alike(Sorted(events), t, vendor) == Alike(events, t, vendor)
  {
    SortedIsOrdered(events);
    SortedIsStable(events, t, vendor);
    hide Sorted;
    forall i, j | 0 <= i < j < |Sorted(events)| ensures ComesBefore(Sorted(events)[i], Sorted(events)[j]) {
      LessIsTheFirstDifference(Sorted(events)[j].vendor, Sorted(events)[i].vendor);
    }
  }

  // Not later, and at one time not behind it in the order of vendors.
  ghost predicate ComesBefore(a: Event, b: Event) {
    a.eventTime <= b.eventTime && (a.eventTime == b.eventTime ==> forall k: nat :: !DiffersAt(b.vendor, a.vendor, k))
  }

  // The events of one vendor at one time, as listed.
  ghost function Alike(events: seq<Event>, t: int, vendor: string): seq<Event> {
    if events == [] then []
    else
      var init, last := Alike(events[..|events| - 1], t, vendor), events[|events| - 1];
      if last.eventTime == t && last.vendor == vendor then init + [last] else init
  }

  lemma AlikeSnoc(events: seq<Event>, e: Event, t: int, vendor: string)
    ensures Alike(events + [e], t, vendor)
         == Alike(events, t, vendor) + (if e.eventTime == t && e.vendor == vendor then [e] else [])
  {
    assert (events + [e])[..|events|] == events;
  }

  lemma {:induction false} PlacedIsStable(sorted: seq<Event>, e: Event, t: int, vendor: string)
    ensures Alike(Placed(sorted, e), t, vendor) == Alike(sorted + [e], t, vendor)
  {
    hide Alike;
    if sorted != [] && Precedes(e, sorted[|sorted| - 1]) {
      var init, last := sorted[..|sorted| - 1], sorted[|sorted| - 1];
      assert init + [last] == sorted;
      PlacedIsStable(init, e, t, vendor);
      AlikeSnoc(Placed(init, e), last, t, vendor);
      AlikeSnoc(init, e, t, vendor);
      AlikeSnoc(init, last, t, vendor);
      AlikeSnoc(sorted, e, t, vendor);
      LessIrreflexive(e.vendor);
    }
  }

  lemma {:induction false} SortedIsStable(events: seq<Event>, t: int, vendor: string)
    ensures Alike(Sorted(events), t, vendor) == Alike(events, t, vendor)
  {
    hide Alike, Placed;
    if events != [] {
      var init, last := events[..|events| - 1], events[|events| - 1];
      assert init + [last] == events;
      SortedIsStable(init, t, vendor);
      PlacedIsStable(Sorted(init), last, t, vendor);
      AlikeSnoc(Sorted(init), last, t, vendor);
      AlikeSnoc(init, last, t, vendor);
    }
  }

  // ---------------------------------------------------------------- exact keys

  // An event ties its first identifier to each of its others.
  function Spokes(ids: seq<string>): Links {
    if |ids| <= 1 then [] else Spokes(ids[..|ids| - 1]) + [(ids[0], ids[|ids| - 1])]
  }

  function LinksOf(events: seq<Event>): Links {
    if events == [] then [] else LinksOf(events[..|events| - 1]) + Spokes(events[|events| - 1].identifiers)
  }

  // exactOf maps the index of every event with an identifier to its component's smallest one.
  ghost predicate IsExactOf(events: seq<Event>, exactOf: map<nat, string>) {
    && (forall i: nat :: i in exactOf <==> i < |events| && events[i].identifiers != [])
    && (forall i | i in exactOf :: IsCanonical(LinksOf(events), events[i].identifiers[0], exactOf[i]))
  }

  ghost function VendorsAt(events: seq<Event>, exactOf: map<nat, string>, root: string): set<string>
    requires forall i | i in exactOf :: i < |events|
  {
    set i | i in exactOf && exactOf[i] == root :: events[i].vendor
  }

  method LinkAll(union: UnionFind, ids: seq<string>)
    requires union.Valid()
    modifies union
    ensures union.Valid() && union.links == old(union.links) + Spokes(ids)
  {
    hide UnionFind.Valid;
    var k := 1;
    while k < |ids|
      invariant union.Valid() && 1 <= k
      invariant union.links == old(union.links) + Spokes(ids[..if k <= |ids| then k else |ids|])
    {
      assert ids[..k + 1][..k] == ids[..k];
      union.Link(ids[0], ids[k]);
      k := k + 1;
    }
    assert ids[..|ids|] == ids;
  }

  // An identity is confirmed when more than one vendor reported it.
  method ConfirmExact(events: seq<Event>) returns (confirmed: set<string>, exactOf: map<nat, string>)
    ensures IsExactOf(events, exactOf)
    ensures forall r :: r in confirmed <==> |VendorsAt(events, exactOf, r)| > 1
  {
    hide *;
    var union := new UnionFind();
    NoLinks();
    for i := 0 to |events|
      invariant fresh(union) && union.Valid() && union.links == LinksOf(events[..i])
    {
      LinksStep(events, i);
      LinkAll(union, events[i].identifiers);
    }
    assert events[..|events|] == events;
    ghost var links := union.links;

    // The identifiers come back in no particular order.
    var left := set i: nat | i < |events| && events[i].identifiers != [];
    ghost var all := left;
    exactOf := map[];
    var vendorsPerRoot: map<string, set<string>> := map[];
    while left != {}
      invariant fresh(union) && union.Valid() && union.links == links
      invariant exactOf.Keys == all - left && left <= all
      invariant forall i | i in exactOf :: IsCanonical(links, events[i].identifiers[0], exactOf[i])
      invariant CollectsVendors(events, exactOf, vendorsPerRoot)
      decreases |left|
    {
      var i :| i in left;
      var first := events[i].identifiers[0];
      var root := union.Find(first);
      CanonicalInForest(union, first);
      ghost var before := exactOf;
      exactOf := exactOf[i := root];
      var seen := if root in vendorsPerRoot then vendorsPerRoot[root] else {};
      CollectOne(events, before, vendorsPerRoot, i, root);
      vendorsPerRoot := vendorsPerRoot[root := seen + {events[i].vendor}];
      left := left - {i};
    }
    confirmed := set r | r in vendorsPerRoot && |vendorsPerRoot[r]| > 1;
    Confirmed(events, exactOf, vendorsPerRoot, confirmed);
    ExactOfIs(events, exactOf);
  }

  lemma NoLinks()
    ensures LinksOf([]) == [] && CollectsVendors([], map[], map[])
    ensures forall events: seq<Event> :: CollectsVendors(events, map[], map[])
  {
  }

  lemma LinksStep(events: seq<Event>, i: nat)
    requires i < |events|
    ensures LinksOf(events[..i + 1]) == LinksOf(events[..i]) + Spokes(events[i].identifiers)
  {
    assert events[..i + 1][..i] == events[..i];
  }

  ghost predicate CollectsVendors(events: seq<Event>, exactOf: map<nat, string>, vendorsPerRoot: map<string, set<string>>) {
    && (forall i | i in exactOf :: i < |events|)
    && (forall r :: VendorsAt(events, exactOf, r) == if r in vendorsPerRoot then vendorsPerRoot[r] else {})
  }

  lemma CollectOne(events: seq<Event>, exactOf: map<nat, string>, vendorsPerRoot: map<string, set<string>>, i: nat,
                   root: string)
    requires CollectsVendors(events, exactOf, vendorsPerRoot) && i < |events| && i !in exactOf
    ensures var seen := if root in vendorsPerRoot then vendorsPerRoot[root] else {};
      CollectsVendors(events, exactOf[i := root], vendorsPerRoot[root := seen + {events[i].vendor}])
  {
    hide VendorsAt;
    forall r
      ensures VendorsAt(events, exactOf[i := root], r)
           == VendorsAt(events, exactOf, r) + if r == root then {events[i].vendor} else {}
    {
      CollectAt(events, exactOf, i, root, r);
    }
  }

  lemma CollectAt(events: seq<Event>, exactOf: map<nat, string>, i: nat, root: string, r: string)
    requires (forall j | j in exactOf :: j < |events|) && i < |events| && i !in exactOf
    ensures VendorsAt(events, exactOf[i := root], r)
         == VendorsAt(events, exactOf, r) + if r == root then {events[i].vendor} else {}
  {
    var more := exactOf[i := root];
    assert forall j | j in exactOf :: j in more && more[j] == exactOf[j];
    assert i in more && more[i] == root;
  }

  lemma CanonicalInForest(union: UnionFind, v: string)
    requires union.Valid() && v in union.rep
    ensures IsCanonical(union.links, v, union.rep[v])
  {
    hide Represents, IsForest, IsCanonical, Joined;
    RepresentativesAreCanonical(union.rep, union.links, v);
  }

  lemma Confirmed(events: seq<Event>, exactOf: map<nat, string>, vendorsPerRoot: map<string, set<string>>,
                  confirmed: set<string>)
    requires CollectsVendors(events, exactOf, vendorsPerRoot)
    requires forall r :: r in confirmed <==> r in vendorsPerRoot && |vendorsPerRoot[r]| > 1
    ensures forall i | i in exactOf :: i < |events|
    ensures forall r :: r in confirmed <==> |VendorsAt(events, exactOf, r)| > 1
  {
    hide VendorsAt;
  }

  lemma ExactOfIs(events: seq<Event>, exactOf: map<nat, string>)
    requires forall i: nat :: i in exactOf <==> i < |events| && events[i].identifiers != []
    requires forall i | i in exactOf :: IsCanonical(LinksOf(events), events[i].identifiers[0], exactOf[i])
    ensures IsExactOf(events, exactOf)
  {
  }

  // ---------------------------------------------------------------- what exact keys mean

  // Two events have one key exactly when their identifiers are connected.
  lemma SameKeyMeansConnected(events: seq<Event>, exactOf: map<nat, string>, i: nat, j: nat)
    requires IsExactOf(events, exactOf) && i in exactOf && j in exactOf
    ensures exactOf[i] == exactOf[j]
       <==> Joined(LinksOf(events), events[i].identifiers[0], events[j].identifiers[0])
  {
    hide Joined, LinksOf;
    var links, a, b := LinksOf(events), events[i].identifiers[0], events[j].identifiers[0];
    if exactOf[i] == exactOf[j] {
      JoinedSymmetric(links, b, exactOf[j]);
      JoinedTransitive(links, a, exactOf[i], b);
    }
    if Joined(links, a, b) {
      CanonicalMoves(links, a, b, exactOf[i]);
      CanonicalIsUnique(links, b, exactOf[i], exactOf[j]);
    }
  }

  lemma CanonicalMoves(links: Links, a: string, b: string, root: string)
    requires Joined(links, a, b) && IsCanonical(links, a, root)
    ensures IsCanonical(links, b, root)
  {
    hide Joined;
    JoinedSymmetric(links, a, b);
    JoinedTransitive(links, b, a, root);
    forall c | Joined(links, b, c) ensures !Less(c, root) {
      JoinedTransitive(links, a, b, c);
    }
  }

  lemma {:induction false} LinksAreSpokes(events: seq<Event>, l: (string, string))
    ensures l in LinksOf(events) <==> exists e :: e in events && l in Spokes(e.identifiers)
  {
    if events != [] {
      var init, last := events[..|events| - 1], events[|events| - 1];
      LinksAreSpokes(init, l);
      assert events == init + [last] && last in events;
      if l in LinksOf(init) {
        var e :| e in init && l in Spokes(e.identifiers);
        assert e in events;
      }
    }
  }

  // The key of an event depends on which events there are, not on the order they came in.
  lemma KeysIgnoreOrder(events: seq<Event>, exactOf: map<nat, string>, other: seq<Event>, exactOf': map<nat, string>,
                        i: nat, j: nat)
    requires IsExactOf(events, exactOf) && IsExactOf(other, exactOf')
    requires forall e :: e in events <==> e in other
    requires i in exactOf && j in exactOf' && events[i] == other[j]
    ensures exactOf[i] == exactOf'[j]
  {
    hide Joined, LinksOf, Spokes;
    var links, links' := LinksOf(events), LinksOf(other);
    forall l ensures l in links <==> l in links' {
      LinksAreSpokes(events, l);
      LinksAreSpokes(other, l);
    }
    var a := events[i].identifiers[0];
    forall b ensures Joined(links, a, b) <==> Joined(links', a, b) {
      if Joined(links, a, b) { JoinedMonotone(links, links', a, b); }
      if Joined(links', a, b) { JoinedMonotone(links', links, a, b); }
    }
    CanonicalIsUnique(links, a, exactOf[i], exactOf'[j]);
  }

  // ---------------------------------------------------------------- chains of events

  ghost predicate ShareIdentifier(a: Event, b: Event) {
    exists id :: id in a.identifiers && id in b.identifiers
  }

  // Events of the batch, each sharing an identifier with the next.
  ghost predicate IsChain(events: seq<Event>, p: seq<Event>) {
    && p != []
    && (forall e | e in p :: e in events)
    && (forall i | 0 <= i < |p| - 1 :: ShareIdentifier(p[i], p[i + 1]))
  }

  ghost predicate Linked(events: seq<Event>, a: Event, b: Event) {
    exists p :: IsChain(events, p) && p[0] == a && p[|p| - 1] == b
  }

  lemma LinkedStep(events: seq<Event>, a: Event, b: Event, c: Event)
    requires Linked(events, a, b) && ShareIdentifier(b, c) && c in events
    ensures Linked(events, a, c)
  {
    hide ShareIdentifier;
    var p :| IsChain(events, p) && p[0] == a && p[|p| - 1] == b;
    var q := p + [c];
    forall i | 0 <= i < |q| - 1 ensures ShareIdentifier(q[i], q[i + 1]) {
      assert i < |p| - 1 ==> ShareIdentifier(p[i], p[i + 1]);
    }
    assert IsChain(events, q) && q[0] == a && q[|q| - 1] == c;
  }

  lemma LinkedToItself(events: seq<Event>, e: Event)
    requires e in events
    ensures Linked(events, e, e)
  {
    assert IsChain(events, [e]);
  }

  // Chains do not depend on the order of the batch.
  lemma LinkedMoves(events: seq<Event>, other: seq<Event>, a: Event, b: Event)
    requires forall e | e in events :: e in other
    ensures Linked(events, a, b) ==> Linked(other, a, b)
  {
    if p :| IsChain(events, p) && p[0] == a && p[|p| - 1] == b {
      assert IsChain(other, p);
    }
  }

  // A link joins two identifiers of one event, and the first to every other.
  lemma {:induction false} SpokesAre(ids: seq<string>, l: (string, string))
    ensures l in Spokes(ids) ==> l.0 in ids && l.1 in ids
    ensures forall k | 1 <= k < |ids| :: (ids[0], ids[k]) in Spokes(ids)
  {
    if |ids| > 1 {
      var init := ids[..|ids| - 1];
      SpokesAre(init, l);
      assert forall k | 1 <= k < |init| :: (ids[0], ids[k]) == (init[0], init[k]);
    }
  }

  lemma IdentifiersJoin(events: seq<Event>, e: Event, id: string)
    requires e in events && id in e.identifiers
    ensures Joined(LinksOf(events), e.identifiers[0], id)
  {
    hide Spokes, LinksOf;
    var k :| 0 <= k < |e.identifiers| && e.identifiers[k] == id;
    SpokesAre(e.identifiers, (e.identifiers[0], id));
    if k > 0 {
      LinksAreSpokes(events, (e.identifiers[0], id));
      LinkJoins(LinksOf(events), e.identifiers[0], id);
    }
  }

  // The identifiers of the events linked to one event.
  ghost function Gathered(events: seq<Event>, a: Event): set<string> {
    set e, id | e in events && id in e.identifiers && Linked(events, a, e) :: id
  }

  lemma GatheredIsClosed(events: seq<Event>, a: Event)
    ensures ClosedUnder(Gathered(events, a), LinksOf(events))
  {
    hide Spokes, LinksOf, Linked;
    var s := Gathered(events, a);
    forall l | l in LinksOf(events) ensures l.0 in s <==> l.1 in s {
      LinksAreSpokes(events, l);
      var e :| e in events && l in Spokes(e.identifiers);
      SpokesAre(e.identifiers, l);
      if l.0 in s || l.1 in s {
        var id := if l.0 in s then l.0 else l.1;
        var f :| f in events && id in f.identifiers && Linked(events, a, f);
        LinkedStep(events, a, f, e);
      }
    }
  }

  // Connected identifiers are what the linked events carry, whatever links the program drew.
  lemma JoinedMeansGathered(events: seq<Event>, a: Event, id: string)
    requires a in events && a.identifiers != []
    ensures Joined(LinksOf(events), a.identifiers[0], id) <==> id in Gathered(events, a)
  {
    hide Spokes, LinksOf, Linked;
    GatheredIsClosed(events, a);
    LinkedToItself(events, a);
    assert a.identifiers[0] in a.identifiers;
    assert a.identifiers[0] in Gathered(events, a);
    if id in Gathered(events, a) {
      var e :| e in events && id in e.identifiers && Linked(events, a, e);
      LinkedEventsJoin(events, a, e);
      IdentifiersJoin(events, e, id);
      JoinedTransitive(LinksOf(events), a.identifiers[0], e.identifiers[0], id);
    }
  }

  lemma LinkedEventsJoin(events: seq<Event>, a: Event, b: Event)
    requires Linked(events, a, b) && a.identifiers != [] && b.identifiers != []
    ensures Joined(LinksOf(events), a.identifiers[0], b.identifiers[0])
  {
    hide LinksOf, Joined, ShareIdentifier;
    var p :| IsChain(events, p) && p[0] == a && p[|p| - 1] == b;
    ChainJoins(events, p);
  }

  lemma {:induction false} ChainJoins(events: seq<Event>, p: seq<Event>)
    requires IsChain(events, p) && p[0].identifiers != [] && p[|p| - 1].identifiers != []
    ensures Joined(LinksOf(events), p[0].identifiers[0], p[|p| - 1].identifiers[0])
    decreases |p|
  {
    hide LinksOf, Joined;
    var links := LinksOf(events);
    assert p[0] in events;
    IdentifiersJoin(events, p[0], p[0].identifiers[0]);
    if |p| > 1 {
      var n := |p| - 1;
      assert ShareIdentifier(p[n - 1], p[n - 1 + 1]);
      var id :| id in p[n - 1].identifiers && id in p[n].identifiers;
      ChainInit(events, p);
      ChainJoins(events, p[..n]);
      assert p[n - 1] in events && p[n] in events;
      IdentifiersJoin(events, p[n - 1], id);
      IdentifiersJoin(events, p[n], id);
      JoinedSymmetric(links, p[n].identifiers[0], id);
      JoinedTransitive(links, p[0].identifiers[0], p[n - 1].identifiers[0], id);
      JoinedTransitive(links, p[0].identifiers[0], id, p[n].identifiers[0]);
    }
  }

  lemma ChainInit(events: seq<Event>, p: seq<Event>)
    requires IsChain(events, p) && |p| > 1
    ensures IsChain(events, p[..|p| - 1])
  {
    hide ShareIdentifier;
    var q := p[..|p| - 1];
    forall i | 0 <= i < |q| - 1 ensures ShareIdentifier(q[i], q[i + 1]) {
      assert ShareIdentifier(p[i], p[i + 1]);
    }
  }

  // Two events with identifiers have one exact key exactly when a chain of events of the batch, each
  // sharing an identifier with the next, leads from one to the other.
  lemma OneKeyExactlyWhenLinked(events: seq<Event>, exactOf: map<nat, string>, i: nat, j: nat)
    requires IsExactOf(events, exactOf) && i in exactOf && j in exactOf
    ensures exactOf[i] == exactOf[j] <==> Linked(events, events[i], events[j])
  {
    hide Joined, LinksOf, Linked, IsCanonical, Spokes;
    SameKeyMeansConnected(events, exactOf, i, j);
    JoinedMeansGathered(events, events[i], events[j].identifiers[0]);
    if events[j].identifiers[0] in Gathered(events, events[i]) {
      var e :| e in events && events[j].identifiers[0] in e.identifiers && Linked(events, events[i], e);
      LinkedStep(events, events[i], e, events[j]);
    }
    if Linked(events, events[i], events[j]) {
      assert events[j].identifiers[0] in events[j].identifiers;
    }
  }

  // The key is the smallest identifier that any linked event carries.
  lemma KeyIsSmallestIdentifier(events: seq<Event>, exactOf: map<nat, string>, i: nat)
    requires IsExactOf(events, exactOf) && i in exactOf
    ensures exists e :: e in events && exactOf[i] in e.identifiers && Linked(events, events[i], e)
    ensures forall e, id | e in events && id in e.identifiers && Linked(events, events[i], e) :: !Less(id, exactOf[i])
  {
    hide Joined, LinksOf, Linked, Spokes, Less;
    JoinedMeansGathered(events, events[i], exactOf[i]);
    forall e, id | e in events && id in e.identifiers && Linked(events, events[i], e) ensures !Less(id, exactOf[i]) {
      JoinedMeansGathered(events, events[i], id);
      assert id in Gathered(events, events[i]);
    }
  }

  // ---------------------------------------------------------------- slots

  // The group an event goes to in a pass, if any.
  type Slots = seq<Option<string>>

  function MembersAt(events: seq<Event>, slots: Slots, key: string): seq<Event>
    requires |slots| == |events|
  {
    if events == [] then []
    else
      var n := |events| - 1;
      MembersAt(events[..n], slots[..n], key) + if slots[n] == Some(key) then [events[n]] else []
  }

  function KeysOf(slots: Slots): seq<string> {
    if slots == [] then []
    else KeysOf(slots[..|slots| - 1]) + match slots[|slots| - 1] case None => [] case Some(k) => [k]
  }

  // Groups in the order their keys were first used.
  ghost predicate AreGroupsOf(events: seq<Event>, slots: Slots, groups: seq<Group>) {
    && |slots| == |events|
    && |groups| == |FreshKeys({}, KeysOf(slots))|
    && forall k | 0 <= k < |groups| ::
         var key := FreshKeys({}, KeysOf(slots))[k]; groups[k] == Group(key, MembersAt(events, slots, key))
  }

  // Exact slots: the confirmed key of an event.
  function ExactSlot(i: nat, confirmed: set<string>, exactOf: map<nat, string>): Option<string> {
    if i in exactOf && exactOf[i] in confirmed then Some(exactOf[i]) else None
  }

  function ExactSlots(n: nat, confirmed: set<string>, exactOf: map<nat, string>): (slots: Slots)
    ensures |slots| == n
  {
    if n == 0 then [] else ExactSlots(n - 1, confirmed, exactOf) + [ExactSlot(n - 1, confirmed, exactOf)]
  }

  function SoloKey(index: nat): string {
    "solo|" + Decimal(index)
  }

  // The event's own window, or a neighbouring one that is already open.
  function ResolveWindow(h: Heuristic, open: set<string>): string {
    if h.value in open then h.value
    else if h.before in open then h.before
    else if h.after in open then h.after
    else h.value
  }

  // Heuristic slots: everything tier one did not claim.
  function HeuristicSlots(events: seq<Event>, confirmed: set<string>, exactOf: map<nat, string>): (slots: Slots)
    ensures |slots| == |events|
  {
    if events == [] then []
    else
      var n := |events| - 1;
      var earlier := HeuristicSlots(events[..n], confirmed, exactOf);
      earlier + [
        if ExactSlot(n, confirmed, exactOf).Some? then None
        else if events[n].heuristic.None? then Some(SoloKey(n))
        else Some(ResolveWindow(events[n].heuristic.value, Open(earlier)))]
  }

  function Open(slots: Slots): set<string> {
    set k | k in KeysOf(slots)
  }

  // The groups as they are built: by key, and the keys in the order they were opened.
  ghost predicate Building(events: seq<Event>, slots: Slots, byKey: map<string, seq<Event>>, order: seq<string>) {
    && |slots| == |events|
    && order == FreshKeys({}, KeysOf(slots))
    && byKey.Keys == Open(slots)
    && forall k :: MembersAt(events, slots, k) == if k in byKey then byKey[k] else []
  }

  lemma BuildOne(events: seq<Event>, slots: Slots, byKey: map<string, seq<Event>>, order: seq<string>, e: Event,
                 slot: Option<string>)
    requires Building(events, slots, byKey, order)
    ensures slot.None? ==> Building(events + [e], slots + [slot], byKey, order)
    ensures slot.Some? ==>
      var key := slot.value;
      var members := if key in byKey then byKey[key] else [];
      Building(events + [e], slots + [slot], byKey[key := members + [e]], if key in byKey then order else order + [key])
  {
    hide FreshKeys, MembersAt, KeysOf;
    var longer := slots + [slot];
    KeysStep(slots, slot);
    forall k ensures MembersAt(events + [e], longer, k)
        == MembersAt(events, slots, k) + if slot == Some(k) then [e] else [] {
      MembersStep(events, slots, e, slot, k);
    }
    if slot.Some? {
      var key := slot.value;
      FreshKeysStep({}, KeysOf(slots), key);
      assert key in byKey <==> key in ToSet(KeysOf(slots));
    }
  }

  lemma MembersStep(events: seq<Event>, slots: Slots, e: Event, slot: Option<string>, key: string)
    requires |slots| == |events|
    ensures MembersAt(events + [e], slots + [slot], key)
         == MembersAt(events, slots, key) + if slot == Some(key) then [e] else []
  {
    assert (events + [e])[..|events|] == events && (slots + [slot])[..|slots|] == slots;
  }

  lemma KeysStep(slots: Slots, slot: Option<string>)
    ensures KeysOf(slots + [slot]) == if slot.None? then KeysOf(slots) else KeysOf(slots) + [slot.value]
  {
    assert (slots + [slot])[..|slots|] == slots;
  }

  lemma NothingBuilt()
    ensures Building([], [], map[], [])
  {
  }

  method Listing(events: seq<Event>, ghost slots: Slots, byKey: map<string, seq<Event>>, order: seq<string>)
      returns (groups: seq<Group>)
    requires Building(events, slots, byKey, order)
    ensures AreGroupsOf(events, slots, groups)
  {
    hide *;
    OrderIsKnown(events, slots, byKey, order);
    groups := [];
    for k := 0 to |order|
      invariant |groups| == k
      invariant forall j | 0 <= j < k :: groups[j] == Group(order[j], MembersAt(events, slots, order[j]))
    {
      assert order[k] in order;
      groups := groups + [Group(order[k], byKey[order[k]])];
    }
    GroupsAre(events, slots, groups, order);
  }

  lemma OrderIsKnown(events: seq<Event>, slots: Slots, byKey: map<string, seq<Event>>, order: seq<string>)
    requires Building(events, slots, byKey, order)
    ensures |slots| == |events| && order == FreshKeys({}, KeysOf(slots))
    ensures forall k | k in order :: k in byKey && byKey[k] == MembersAt(events, slots, k)
  {
    hide FreshKeys, KeysOf, MembersAt;
    FreshKeysShape({}, KeysOf(slots));
    forall k | k in order ensures k in byKey {
      assert k in ToSet(order);
    }
  }

  lemma GroupsAre(events: seq<Event>, slots: Slots, groups: seq<Group>, keys: seq<string>)
    requires |slots| == |events| && keys == FreshKeys({}, KeysOf(slots)) && |groups| == |keys|
    requires forall k | 0 <= k < |groups| :: groups[k] == Group(keys[k], MembersAt(events, slots, keys[k]))
    ensures AreGroupsOf(events, slots, groups)
  {
    hide FreshKeys, KeysOf, MembersAt;
  }

  method GroupsFromExact(events: seq<Event>, confirmed: set<string>, exactOf: map<nat, string>) returns (groups: seq<Group>)
    ensures AreGroupsOf(events, ExactSlots(|events|, confirmed, exactOf), groups)
  {
    hide Building, AreGroupsOf;
    var byKey: map<string, seq<Event>>, order: seq<string> := map[], [];
    NothingBuilt();
    for i := 0 to |events|
      invariant Building(events[..i], ExactSlots(i, confirmed, exactOf), byKey, order)
    {
      assert events[..i + 1] == events[..i] + [events[i]];
      BuildOne(events[..i], ExactSlots(i, confirmed, exactOf), byKey, order, events[i], ExactSlot(i, confirmed, exactOf));
      if i !in exactOf || exactOf[i] !in confirmed {
        continue;
      }
      var key := exactOf[i];
      if key !in byKey {
        order := order + [key];
      }
      byKey := byKey[key := (if key in byKey then byKey[key] else []) + [events[i]]];
    }
    assert events[..|events|] == events;
    groups := Listing(events, ExactSlots(|events|, confirmed, exactOf), byKey, order);
  }

  method GroupsFromHeuristic(events: seq<Event>, confirmed: set<string>, exactOf: map<nat, string>)
      returns (groups: seq<Group>)
    ensures AreGroupsOf(events, HeuristicSlots(events, confirmed, exactOf), groups)
  {
    hide Building, AreGroupsOf;
    var byKey: map<string, seq<Event>>, order: seq<string> := map[], [];
    NothingBuilt();
    for i := 0 to |events|
      invariant Building(events[..i], HeuristicSlots(events[..i], confirmed, exactOf), byKey, order)
    {
      assert events[..i + 1] == events[..i] + [events[i]] && events[..i + 1][..i] == events[..i];
      ghost var slots := HeuristicSlots(events[..i], confirmed, exactOf);
      OpenKeys(events[..i], slots, byKey, order);
      if i in exactOf && exactOf[i] in confirmed {
        BuildOne(events[..i], slots, byKey, order, events[i], None);
        continue;
      }
      var key := if events[i].heuristic.None? then SoloKey(i) else ResolveWindow(events[i].heuristic.value, byKey.Keys);
      BuildOne(events[..i], slots, byKey, order, events[i], Some(key));
      if key !in byKey {
        order := order + [key];
      }
      byKey := byKey[key := (if key in byKey then byKey[key] else []) + [events[i]]];
    }
    assert events[..|events|] == events;
    groups := Listing(events, HeuristicSlots(events, confirmed, exactOf), byKey, order);
  }

  lemma OpenKeys(events: seq<Event>, slots: Slots, byKey: map<string, seq<Event>>, order: seq<string>)
    requires Building(events, slots, byKey, order)
    ensures byKey.Keys == Open(slots)
  {
  }

  // ---------------------------------------------------------------- every event in one group

  function Spread(groups: seq<Group>): seq<Event> {
    if groups == [] then [] else Spread(groups[..|groups| - 1]) + groups[|groups| - 1].members
  }

  // The events a pass places.
  function Taken(events: seq<Event>, slots: Slots): seq<Event>
    requires |slots| == |events|
  {
    if events == [] then []
    else
      var n := |events| - 1;
      Taken(events[..n], slots[..n]) + if slots[n].Some? then [events[n]] else []
  }

  function SpreadOver(keys: seq<string>, events: seq<Event>, slots: Slots): seq<Event>
    requires |slots| == |events|
  {
    if keys == [] then []
    else SpreadOver(keys[..|keys| - 1], events, slots) + MembersAt(events, slots, keys[|keys| - 1])
  }

  lemma {:induction false} GroupsSpread(events: seq<Event>, slots: Slots, groups: seq<Group>, keys: seq<string>)
    requires |slots| == |events| && |groups| == |keys|
    requires forall k | 0 <= k < |groups| :: groups[k] == Group(keys[k], MembersAt(events, slots, keys[k]))
    ensures Spread(groups) == SpreadOver(keys, events, slots)
  {
    hide MembersAt;
    if groups != [] {
      GroupsSpread(events, slots, groups[..|groups| - 1], keys[..|keys| - 1]);
    }
  }

  // One more event adds itself to the spread of distinct keys exactly once if its key is among them.
  lemma {:induction false} SpreadMore(keys: seq<string>, events: seq<Event>, slots: Slots, e: Event, slot: Option<string>)
    requires |slots| == |events| && forall i, j | 0 <= i < j < |keys| :: keys[i] != keys[j]
    ensures multiset(SpreadOver(keys, events + [e], slots + [slot]))
         == multiset(SpreadOver(keys, events, slots))
            + if slot.Some? && slot.value in keys then multiset{e} else multiset{}
  {
    hide MembersAt;
    if keys != [] {
      var init, last := keys[..|keys| - 1], keys[|keys| - 1];
      assert keys == init + [last] && last !in init;
      SpreadMore(init, events, slots, e, slot);
      MembersStep(events, slots, e, slot, last);
    }
  }

  lemma {:induction false} NoMembers(events: seq<Event>, slots: Slots, key: string)
    requires |slots| == |events| && key !in ToSet(KeysOf(slots))
    ensures MembersAt(events, slots, key) == []
  {
    hide KeysOf;
    if events != [] {
      var n := |events| - 1;
      KeysStep(slots[..n], slots[n]);
      assert slots == slots[..n] + [slots[n]];
      NoMembers(events[..n], slots[..n], key);
    }
  }

  lemma {:induction false} SpreadIsTaken(events: seq<Event>, slots: Slots)
    requires |slots| == |events|
    ensures multiset(SpreadOver(FreshKeys({}, KeysOf(slots)), events, slots)) == multiset(Taken(events, slots))
  {
    hide MembersAt, Taken, FreshKeys, KeysOf, SpreadOver;
    if events == [] {
      NothingSpread();
    } else {
      var n := |events| - 1;
      var init, earlier, e, slot := events[..n], slots[..n], events[n], slots[n];
      assert events == init + [e] && slots == earlier + [slot];
      SpreadIsTaken(init, earlier);
      SpreadStep(init, earlier, e, slot);
    }
  }

  lemma NothingSpread()
    ensures SpreadOver(FreshKeys({}, KeysOf([])), [], []) == [] && Taken([], []) == []
  {
  }

  lemma SpreadStep(events: seq<Event>, slots: Slots, e: Event, slot: Option<string>)
    requires |slots| == |events|
    requires multiset(SpreadOver(FreshKeys({}, KeysOf(slots)), events, slots)) == multiset(Taken(events, slots))
    ensures multiset(SpreadOver(FreshKeys({}, KeysOf(slots + [slot])), events + [e], slots + [slot]))
         == multiset(Taken(events + [e], slots + [slot]))
  {
    hide *;
    var keys, more, longer := FreshKeys({}, KeysOf(slots)), events + [e], slots + [slot];
    TakenStep(events, slots, e, slot);
    KeysStep(slots, slot);
    FreshOnce(KeysOf(slots));
    SpreadMore(keys, events, slots, e, slot);
    if slot.None? {
      assert Taken(more, longer) == Taken(events, slots);
    } else {
      var key := slot.value;
      OneMoreKey(KeysOf(slots), key);
      OneMoreEvent(Taken(events, slots), e);
      if key !in keys {
        NewKey(events, slots, e, key, keys);
        OneMoreEvent(SpreadOver(keys, more, longer), e);
      }
    }
  }

  lemma FreshOnce(keys: seq<string>)
    ensures var f := FreshKeys({}, keys); forall i, j | 0 <= i < j < |f| :: f[i] != f[j]
  {
    FreshKeysShape({}, keys);
  }

  lemma OneMoreKey(keys: seq<string>, key: string)
    ensures var f := FreshKeys({}, keys);
      && FreshKeys({}, keys + [key]) == (if key in f then f else f + [key])
      && (key in f <==> key in ToSet(keys))
  {
    hide FreshKeys;
    var f := FreshKeys({}, keys);
    FreshKeysShape({}, keys);
    FreshKeysStep({}, keys, key);
    assert key in f <==> key in ToSet(f);
  }

  lemma OneMoreEvent(events: seq<Event>, e: Event)
    ensures multiset(events + [e]) == multiset(events) + multiset{e}
  {
  }

  lemma TakenStep(events: seq<Event>, slots: Slots, e: Event, slot: Option<string>)
    requires |slots| == |events|
    ensures Taken(events + [e], slots + [slot])
         == if slot.Some? then Taken(events, slots) + [e] else Taken(events, slots)
  {
    assert (events + [e])[..|events|] == events && (slots + [slot])[..|slots|] == slots;
  }

  lemma NewKey(events: seq<Event>, slots: Slots, e: Event, key: string, keys: seq<string>)
    requires |slots| == |events| && key !in ToSet(KeysOf(slots))
    ensures SpreadOver(keys + [key], events + [e], slots + [Some(key)])
         == SpreadOver(keys, events + [e], slots + [Some(key)]) + [e]
  {
    hide MembersAt, KeysOf;
    NoMembers(events, slots, key);
    MembersStep(events, slots, e, Some(key), key);
    assert (keys + [key])[..|keys|] == keys;
  }

  // The groups of a pass hold each event it placed exactly once.
  lemma GroupsHoldWhatIsTaken(events: seq<Event>, slots: Slots, groups: seq<Group>)
    requires AreGroupsOf(events, slots, groups)
    ensures multiset(Spread(groups)) == multiset(Taken(events, slots))
  {
    hide FreshKeys, KeysOf, MembersAt, Spread, Taken;
    GroupsSpread(events, slots, groups, FreshKeys({}, KeysOf(slots)));
    SpreadIsTaken(events, slots);
  }

  // What tier one does not place, tier two does.
  lemma {:induction false} PassesComplement(events: seq<Event>, confirmed: set<string>, exactOf: map<nat, string>)
    ensures multiset(Taken(events, ExactSlots(|events|, confirmed, exactOf)))
            + multiset(Taken(events, HeuristicSlots(events, confirmed, exactOf))) == multiset(events)
  {
    hide Taken, ExactSlot;
    if events == [] {
      NothingSpread();
    } else {
      var n := |events| - 1;
      var init, e := events[..n], events[n];
      PassesComplement(init, confirmed, exactOf);
      assert events == init + [e];
      var exact, left := ExactSlots(n, confirmed, exactOf), HeuristicSlots(init, confirmed, exactOf);
      var slot := HeuristicSlots(events, confirmed, exactOf)[n];
      TakenStep(init, exact, e, ExactSlot(n, confirmed, exactOf));
      TakenStep(init, left, e, slot);
      assert HeuristicSlots(events, confirmed, exactOf) == left + [slot];
    }
  }

  lemma {:induction false} SpreadConcat(a: seq<Group>, b: seq<Group>)
    ensures Spread(a + b) == Spread(a) + Spread(b)
  {
    hide *;
    SpreadNothing();
    if b == [] {
      assert a + b == a;
    } else {
      var init, last := b[..|b| - 1], b[|b| - 1];
      SpreadConcat(a, init);
      SpreadGroup(init, last);
      SpreadGroup(a + init, last);
      assert b == init + [last] && a + b == (a + init) + [last];
    }
  }

  lemma SpreadNothing()
    ensures Spread([]) == []
  {
  }

  lemma SpreadGroup(groups: seq<Group>, g: Group)
    ensures Spread(groups + [g]) == Spread(groups) + g.members
  {
    assert (groups + [g])[..|groups|] == groups;
  }

  lemma SameLength(events: seq<Event>)
    ensures |Sorted(events)| == |events|
  {
    SortedKeeps(events);
    assert |multiset(Sorted(events))| == |multiset(events)|;
  }

  // ---------------------------------------------------------------- what groups mean

  // An event is in a tier-one group of its batch exactly when an event of another vendor is linked
  // to it.
  lemma ConfirmedMeansSecondVendor(events: seq<Event>, exactOf: map<nat, string>, confirmed: set<string>, i: nat)
    requires IsExactOf(events, exactOf) && i in exactOf
    requires forall r :: r in confirmed <==> |VendorsAt(events, exactOf, r)| > 1
    ensures ExactSlot(i, confirmed, exactOf).Some?
       <==> exists j :: j in exactOf && events[j].vendor != events[i].vendor && Linked(events, events[i], events[j])
  {
    hide Joined, LinksOf, IsCanonical, Linked, Spokes;
    var seen := VendorsAt(events, exactOf, exactOf[i]);
    assert events[i].vendor in seen;
    forall j | j in exactOf ensures exactOf[i] == exactOf[j] <==> Linked(events, events[i], events[j]) {
      OneKeyExactlyWhenLinked(events, exactOf, i, j);
    }
    if |seen| > 1 {
      var rest := seen - {events[i].vendor};
      assert seen == rest + {events[i].vendor};
      var v :| v in rest;
      var j :| j in exactOf && exactOf[j] == exactOf[i] && events[j].vendor == v;
    }
    if j :| j in exactOf && exactOf[j] == exactOf[i] && events[j].vendor != events[i].vendor {
      assert {events[i].vendor, events[j].vendor} <= seen;
      TwoAreMoreThanOne(seen, events[i].vendor, events[j].vendor);
    }
  }

  lemma TwoAreMoreThanOne(s: set<string>, a: string, b: string)
    requires a in s && b in s && a != b
    ensures |s| > 1
  {
    assert s == {a} + (s - {a}) && b in s - {a};
  }

  // An event never leaves its own or a neighbouring window for its heuristic group: its own if that
  // is open, else an open neighbour, else its own.
  lemma {:induction false} HeuristicGroupsStayClose(events: seq<Event>, confirmed: set<string>, exactOf: map<nat, string>, i: nat)
    requires i < |events| && events[i].heuristic.Some?
    ensures var h, slot := events[i].heuristic.value, HeuristicSlots(events, confirmed, exactOf)[i];
      var open := Open(HeuristicSlots(events[..i], confirmed, exactOf));
      slot.Some? ==>
        && slot.value in {h.value, h.before, h.after}
        && (h.value in open ==> slot.value == h.value)
        && (h.value in open || h.before in open || h.after in open <==> slot.value in open)
        && (slot.value !in open ==> slot.value == h.value)
  {
    hide Open;
    if i < |events| - 1 {
      assert events[..|events| - 1][..i] == events[..i];
      HeuristicGroupsStayClose(events[..|events| - 1], confirmed, exactOf, i);
    }
  }

  // Tier one's events are left out; an event without a client or host is alone under a key of its own;
  // of two open neighbours the earlier window is joined.
  lemma {:induction false} HeuristicSlotSays(events: seq<Event>, confirmed: set<string>, exactOf: map<nat, string>, i: nat)
    requires i < |events|
    ensures var slot, open := HeuristicSlots(events, confirmed, exactOf)[i], Open(HeuristicSlots(events[..i], confirmed, exactOf));
      var claimed := i in exactOf && exactOf[i] in confirmed;
      && (slot.None? <==> claimed)
      && (!claimed && events[i].heuristic.None? ==> slot == Some("solo|" + Decimal(i)))
      && (!claimed && events[i].heuristic.Some? ==>
            var h := events[i].heuristic.value;
            h.value !in open && h.before in open ==> slot == Some(h.before))
  {
    hide Open;
    if i < |events| - 1 {
      assert events[..|events| - 1][..i] == events[..i];
      HeuristicSlotSays(events[..|events| - 1], confirmed, exactOf, i);
    }
  }

  // ---------------------------------------------------------------- the order of the input

  const SECOND := 1_000_000_000
  const YEAR_ONE := -62_135_596_800 * SECOND

  function Signed(n: int): string {
    if n < 0 then "-" + Decimal(-n) else Decimal(n)
  }

  // heuristicKey and AdjacentWindows: what the request looks like, then the Unix second its window
  // starts at. Windows are counted from the year one; a width that is not positive is a second.
  function KeyText(shape: string, start: int): string {
    "t2|" + shape + "|" + Signed(start / SECOND)
  }

  function KeysAt(shape: string, eventTime: int, width: int): Heuristic {
    var w := if width <= 0 then SECOND else width;
    var start := eventTime - (eventTime - YEAR_ONE) % w;
    Heuristic(KeyText(shape, start), KeyText(shape, start - w), KeyText(shape, start + w))
  }

  lemma SignedInjective(m: int, n: int)
    requires Signed(m) == Signed(n)
    ensures m == n
  {
    DecimalShape(if m < 0 then -m else m);
    DecimalShape(if n < 0 then -n else n);
    var x, y := Decimal(if m < 0 then -m else m), Decimal(if n < 0 then -n else n);
    assert x[0] in x && y[0] in y;
    assert m < 0 ==> Signed(m)[0] == '-' && Signed(m)[1..] == x;
    assert n < 0 ==> Signed(n)[0] == '-' && Signed(n)[1..] == y;
    assert (Signed(m)[0] == '-' <==> m < 0) && (Signed(n)[0] == '-' <==> n < 0);
    DecimalInjective(if m < 0 then -m else m, if n < 0 then -n else n);
  }

  // Two keys are one exactly when the requests look alike and the windows start in one second.
  lemma KeyTextTells(a: string, s: int, b: string, t: int)
    ensures KeyText(a, s) == KeyText(b, t) <==> a == b && s / 1_000_000_000 == t / 1_000_000_000
  {
    if KeyText(a, s) == KeyText(b, t) {
      KeyTextFixesShape(a, s, b, t);
      var prefix := "t2|" + a + "|";
      assert KeyText(a, s)[|prefix|..] == Signed(s / SECOND) && KeyText(b, t)[|prefix|..] == Signed(t / SECOND);
      SignedInjective(s / SECOND, t / SECOND);
    }
  }

  // The windows are those counted from the year one: an event's own holds it, the neighbours are one
  // width before and after.
  lemma KeysSay(shape: string, eventTime: int, width: int) returns (start: int, count: int)
    ensures var w := if width <= 0 then 1_000_000_000 else width;
      && start <= eventTime < start + w && start == w * count - 62_135_596_800_000_000_000
      && KeysAt(shape, eventTime, width)
           == Heuristic(KeyText(shape, start), KeyText(shape, start - w), KeyText(shape, start + w))
  {
    hide KeyText;
    var w := if width <= 0 then SECOND else width;
    var since := eventTime - YEAR_ONE;
    start := eventTime - since % w;
    count := since / w;
    assert since == w * count + since % w;
  }

  ghost predicate Derived(events: seq<Event>, width: int) {
    forall e | e in events && e.heuristic.Some? :: exists shape :: e.heuristic.value == KeysAt(shape, e.eventTime, width)
  }

  function KeysIn(h: Heuristic): set<string> {
    {h.value, h.before, h.after}
  }

  // All that the order of the input can touch: events at one time have one set of keys or none in
  // common, and no key is that of an event on its own.
  ghost predicate Timed(events: seq<Event>) {
    && (forall a, b | a in events && b in events && a.heuristic.Some? && b.heuristic.Some? && a.eventTime == b.eventTime ::
          a.heuristic == b.heuristic || KeysIn(a.heuristic.value) !! KeysIn(b.heuristic.value))
    && (forall a, key | a in events && a.heuristic.Some? && key in KeysIn(a.heuristic.value) :: !IsSolo(key))
  }

  predicate IsSolo(key: string) {
    "solo|" <= key
  }

  lemma SignedHasNoSeparator(n: int)
    ensures '|' !in Signed(n)
  {
    DecimalShape(if n < 0 then -n else n);
  }

  // A key names its shape.
  lemma KeyTextFixesShape(a: string, s: int, b: string, t: int)
    requires KeyText(a, s) == KeyText(b, t)
    ensures a == b
  {
    hide Signed;
    var m, n := Signed(s / SECOND), Signed(t / SECOND);
    SignedHasNoSeparator(s / SECOND);
    SignedHasNoSeparator(t / SECOND);
    var x, y := "t2|" + a + "|" + m, "t2|" + b + "|" + n;
    assert x[|"t2|" + a|] == '|' && y[|"t2|" + b|] == '|';
    assert forall i | |"t2|" + a| < i < |x| :: x[i] == m[i - |"t2|" + a| - 1] != '|';
    assert forall i | |"t2|" + b| < i < |y| :: y[i] == n[i - |"t2|" + b| - 1] != '|';
    assert |a| == |b|;
    assert x[3..3 + |a|] == a && y[3..3 + |b|] == b;
  }

  lemma KeyTextIsNotSolo(shape: string, start: int)
    ensures !IsSolo(KeyText(shape, start))
  {
    assert KeyText(shape, start)[0] == 't';
  }

  // Keys derived from event times are timed, whatever the width of a window.
  lemma DerivedIsTimed(events: seq<Event>, width: int)
    requires Derived(events, width)
    ensures Timed(events)
  {
    hide KeyText, IsSolo;
    forall a, b | a in events && b in events && a.heuristic.Some? && b.heuristic.Some? && a.eventTime == b.eventTime
      ensures a.heuristic == b.heuristic || KeysIn(a.heuristic.value) !! KeysIn(b.heuristic.value)
    {
      var v :| a.heuristic.value == KeysAt(v, a.eventTime, width);
      var w :| b.heuristic.value == KeysAt(w, b.eventTime, width);
      if !(KeysIn(a.heuristic.value) !! KeysIn(b.heuristic.value)) {
        SharedKeyFixesShape(v, w, a.eventTime, width);
      }
    }
    forall a, key | a in events && a.heuristic.Some? && key in KeysIn(a.heuristic.value) ensures !IsSolo(key) {
      var shape :| a.heuristic.value == KeysAt(shape, a.eventTime, width);
      KeysAreNotSolo(shape, a.eventTime, width, key);
    }
  }

  lemma SharedKeyFixesShape(v: string, w: string, eventTime: int, width: int)
    requires !(KeysIn(KeysAt(v, eventTime, width)) !! KeysIn(KeysAt(w, eventTime, width)))
    ensures v == w
  {
    hide KeyText;
    var key :| key in KeysIn(KeysAt(v, eventTime, width)) && key in KeysIn(KeysAt(w, eventTime, width));
    var s :| key == KeyText(v, s);
    var t :| key == KeyText(w, t);
    KeyTextFixesShape(v, s, w, t);
  }

  lemma KeysAreNotSolo(shape: string, eventTime: int, width: int, key: string)
    requires key in KeysIn(KeysAt(shape, eventTime, width))
    ensures !IsSolo(key)
  {
    hide KeyText, IsSolo;
    var start :| key == KeyText(shape, start);
    KeyTextIsNotSolo(shape, start);
  }

  ghost predicate InTime(events: seq<Event>) {
    forall i, j | 0 <= i < j < |events| :: events[i].eventTime <= events[j].eventTime
  }

  // The windows opened by the events before a time.
  ghost function OpenBefore(events: seq<Event>, slots: Slots, t: int): set<string>
    requires |slots| == |events|
  {
    set i | 0 <= i < |events| && events[i].eventTime < t && events[i].heuristic.Some? && slots[i].Some? :: slots[i].value
  }

  lemma SoloIsSolo(n: nat)
    ensures IsSolo(SoloKey(n))
  {
  }

  // What a window resolves to depends only on the keys of its own that are open, and opening the
  // key it resolved to changes nothing.
  lemma ResolveIsStable(h: Heuristic, open: set<string>, more: set<string>)
    requires forall k | k in KeysIn(h) && k in open :: k in more
    requires forall k | k in KeysIn(h) && k in more :: k in open || k == ResolveWindow(h, open)
    ensures ResolveWindow(h, more) == ResolveWindow(h, open)
  {
  }

  lemma {:induction false} SlotsOfPrefix(events: seq<Event>, confirmed: set<string>, exactOf: map<nat, string>, k: nat)
    requires k <= |events|
    ensures HeuristicSlots(events, confirmed, exactOf)[..k] == HeuristicSlots(events[..k], confirmed, exactOf)
    decreases |events|
  {
    if k < |events| {
      var init := events[..|events| - 1];
      SlotsOfPrefix(init, confirmed, exactOf, k);
      assert init[..k] == events[..k];
    } else {
      assert events[..k] == events;
    }
  }

  lemma SlotAt(events: seq<Event>, confirmed: set<string>, exactOf: map<nat, string>, i: nat)
    requires i < |events|
    ensures HeuristicSlots(events, confirmed, exactOf)[i]
         == if ExactSlot(i, confirmed, exactOf).Some? then None
            else if events[i].heuristic.None? then Some(SoloKey(i))
            else Some(ResolveWindow(events[i].heuristic.value, Open(HeuristicSlots(events, confirmed, exactOf)[..i])))
  {
    SlotsOfPrefix(events, confirmed, exactOf, i);
    SlotsOfPrefix(events, confirmed, exactOf, i + 1);
    assert events[..i + 1][..i] == events[..i];
    hide Open, ResolveWindow, ExactSlot;
  }

  lemma {:induction false} OpenIs(slots: Slots, k: string)
    ensures k in Open(slots) <==> exists i | 0 <= i < |slots| :: slots[i] == Some(k)
  {
    if slots != [] {
      var init := slots[..|slots| - 1];
      OpenIs(init, k);
      assert slots == init + [slots[|slots| - 1]];
    }
  }

  // An event's slot is settled by the windows opened at earlier times: events at its own time either
  // have its keys, and then its slot, or touch none of them.
  lemma {:induction false} SlotIsSettledBefore(events: seq<Event>, confirmed: set<string>, exactOf: map<nat, string>, i: nat)
    requires InTime(events) && Timed(events) && i < |events|
    requires events[i].heuristic.Some? && ExactSlot(i, confirmed, exactOf).None?
    ensures var slots := HeuristicSlots(events, confirmed, exactOf);
      slots[i] == Some(ResolveWindow(events[i].heuristic.value, OpenBefore(events, slots, events[i].eventTime)))
  {
    hide *;
    var slots := HeuristicSlots(events, confirmed, exactOf);
    var h, open := events[i].heuristic.value, OpenBefore(events, slots, events[i].eventTime);
    SlotAt(events, confirmed, exactOf, i);
    forall k | k in KeysIn(h)
      ensures k in open ==> k in Open(slots[..i])
      ensures k in Open(slots[..i]) ==> k in open || k == ResolveWindow(h, open)
    {
      OpenIs(slots[..i], k);
      OpenBeforeIs(events, slots, events[i].eventTime, k);
      if j :| 0 <= j < |events| && events[j].eventTime < events[i].eventTime && slots[j] == Some(k) {
        TimesOrder(events, i, j);
        assert slots[..i][j] == Some(k);
      }
      if j :| 0 <= j < |slots[..i]| && slots[..i][j] == Some(k) {
        assert slots[j] == Some(k);
        TimesOrder(events, j, i);
        HasHeuristic(events, confirmed, exactOf, i, j, k);
        if events[j].eventTime == events[i].eventTime {
          SlotIsSettledBefore(events, confirmed, exactOf, j);
          ResolvedIsOwnKey(events[j].heuristic.value, open);
          TimedPair(events, i, j, k);
        }
      }
    }
    ResolveIsStable(h, open, Open(slots[..i]));
  }

  lemma OpenBeforeIs(events: seq<Event>, slots: Slots, t: int, k: string)
    requires |slots| == |events|
    ensures k in OpenBefore(events, slots, t) <==>
      exists i | 0 <= i < |events| :: events[i].eventTime < t && events[i].heuristic.Some? && slots[i] == Some(k)
  {
  }

  lemma TimesOrder(events: seq<Event>, i: nat, j: nat)
    requires InTime(events) && i < |events| && j < |events|
    ensures i <= j ==> events[i].eventTime <= events[j].eventTime
    ensures events[j].eventTime < events[i].eventTime ==> j < i
  {
  }

  // A slot that is one of an event's heuristic keys belongs to an event with such keys.
  lemma HasHeuristic(events: seq<Event>, confirmed: set<string>, exactOf: map<nat, string>, i: nat, j: nat, k: string)
    requires Timed(events) && i < |events| && j < |events| && events[i].heuristic.Some? && k in KeysIn(events[i].heuristic.value)
    requires HeuristicSlots(events, confirmed, exactOf)[j] == Some(k)
    ensures events[j].heuristic.Some? && ExactSlot(j, confirmed, exactOf).None?
  {
    hide KeysIn, IsSolo, SoloKey, ResolveWindow, Open, HeuristicSlots, ExactSlot;
    SlotAt(events, confirmed, exactOf, j);
    SoloIsSolo(j);
    assert events[i] in events;
  }

  lemma ResolvedIsOwnKey(h: Heuristic, open: set<string>)
    ensures ResolveWindow(h, open) in KeysIn(h)
  {
  }

  lemma TimedPair(events: seq<Event>, i: nat, j: nat, k: string)
    requires Timed(events) && i < |events| && j < |events| && events[i].heuristic.Some? && events[j].heuristic.Some?
    requires events[i].eventTime == events[j].eventTime
    requires k in KeysIn(events[i].heuristic.value) && k in KeysIn(events[j].heuristic.value)
    ensures events[i].heuristic == events[j].heuristic
  {
    hide KeysIn, IsSolo;
    assert events[i] in events && events[j] in events;
  }

  // Two orders of the same events, with what tier one made of each.
  ghost predicate SameBatch(a: seq<Event>, c: set<string>, x: map<nat, string>,
                            b: seq<Event>, c': set<string>, x': map<nat, string>) {
    && InTime(a) && InTime(b) && Timed(a) && Timed(b)
    && (forall e :: e in a <==> e in b)
    && (forall i, j | 0 <= i < |a| && 0 <= j < |b| && a[i] == b[j] :: ExactSlot(i, c, x) == ExactSlot(j, c', x'))
  }

  ghost function Earlier(events: seq<Event>, t: int): set<int> {
    set i | 0 <= i < |events| && events[i].eventTime < t
  }

  // Before any time the same windows are open in either order.
  lemma {:induction false} SameOpenBefore(a: seq<Event>, c: set<string>, x: map<nat, string>,
                                          b: seq<Event>, c': set<string>, x': map<nat, string>, t: int, k: string)
    requires SameBatch(a, c, x, b, c', x') && k in OpenBefore(a, HeuristicSlots(a, c, x), t)
    ensures k in OpenBefore(b, HeuristicSlots(b, c', x'), t)
    decreases |Earlier(a, t)| + |Earlier(b, t)|
  {
    hide *;
    var slots, slots' := HeuristicSlots(a, c, x), HeuristicSlots(b, c', x');
    OpenBeforeIs(a, slots, t, k);
    var i :| 0 <= i < |a| && a[i].eventTime < t && a[i].heuristic.Some? && slots[i] == Some(k);
    SlotAt(a, c, x, i);
    var j := Counterpart(a, c, x, b, c', x', i);
    SlotIsSettledBefore(a, c, x, i);
    SlotIsSettledBefore(b, c', x', j);
    FewerEarlier(a, t, i);
    FewerEarlier(b, t, j);
    SameBatchMirrored(a, c, x, b, c', x');
    var now := a[i].eventTime;
    forall key ensures key in OpenBefore(a, slots, now) <==> key in OpenBefore(b, slots', now) {
      if key in OpenBefore(a, slots, now) {
        SameOpenBefore(a, c, x, b, c', x', now, key);
      }
      if key in OpenBefore(b, slots', now) {
        SameOpenBefore(b, c', x', a, c, x, now, key);
      }
    }
    assert OpenBefore(a, slots, now) == OpenBefore(b, slots', now);
    OpenBeforeIs(b, slots', t, k);
  }

  lemma Counterpart(a: seq<Event>, c: set<string>, x: map<nat, string>,
                    b: seq<Event>, c': set<string>, x': map<nat, string>, i: nat) returns (j: nat)
    requires SameBatch(a, c, x, b, c', x') && i < |a|
    ensures j < |b| && b[j] == a[i] && ExactSlot(i, c, x) == ExactSlot(j, c', x')
    ensures InTime(a) && InTime(b) && Timed(a) && Timed(b)
  {
    hide ExactSlot, InTime, Timed;
    assert a[i] in b;
    j :| 0 <= j < |b| && b[j] == a[i];
  }

  lemma FewerEarlier(events: seq<Event>, t: int, i: nat)
    requires i < |events| && events[i].eventTime < t
    ensures |Earlier(events, events[i].eventTime)| < |Earlier(events, t)|
  {
    var less, all := Earlier(events, events[i].eventTime), Earlier(events, t);
    assert i in all && i !in less;
    Shrinks(less, all, i);
  }

  lemma Shrinks(less: set<int>, all: set<int>, i: int)
    requires less <= all && i in all && i !in less
    ensures |less| < |all|
  {
    assert all == less + (all - less) && i in all - less;
  }

  lemma SameBatchMirrored(a: seq<Event>, c: set<string>, x: map<nat, string>,
                          b: seq<Event>, c': set<string>, x': map<nat, string>)
    requires SameBatch(a, c, x, b, c', x')
    ensures SameBatch(b, c', x', a, c, x)
  {
    hide ExactSlot, InTime, Timed;
  }

  // An event goes to one group whatever order the batch came in; events on their own stay alone.
  lemma SlotsIgnoreOrder(a: seq<Event>, c: set<string>, x: map<nat, string>,
                         b: seq<Event>, c': set<string>, x': map<nat, string>, i: nat, j: nat)
    requires SameBatch(a, c, x, b, c', x') && i < |a| && j < |b| && a[i] == b[j]
    ensures var slot, slot' := HeuristicSlots(a, c, x)[i], HeuristicSlots(b, c', x')[j];
      if a[i].heuristic.None? && slot.Some? then slot == Some(SoloKey(i)) && slot' == Some(SoloKey(j)) else slot == slot'
  {
    hide *;
    SlotAt(a, c, x, i);
    SlotAt(b, c', x', j);
    SameExact(a, c, x, b, c', x', i, j);
    if a[i].heuristic.Some? && ExactSlot(i, c, x).None? {
      SlotIsSettledBefore(a, c, x, i);
      SlotIsSettledBefore(b, c', x', j);
      SameBatchMirrored(a, c, x, b, c', x');
      var slots, slots', now := HeuristicSlots(a, c, x), HeuristicSlots(b, c', x'), a[i].eventTime;
      forall key ensures key in OpenBefore(a, slots, now) <==> key in OpenBefore(b, slots', now) {
        if key in OpenBefore(a, slots, now) {
          SameOpenBefore(a, c, x, b, c', x', now, key);
        }
        if key in OpenBefore(b, slots', now) {
          SameOpenBefore(b, c', x', a, c, x, now, key);
        }
      }
      assert OpenBefore(a, slots, now) == OpenBefore(b, slots', now);
    }
  }

  lemma SameExact(a: seq<Event>, c: set<string>, x: map<nat, string>,
                  b: seq<Event>, c': set<string>, x': map<nat, string>, i: nat, j: nat)
    requires SameBatch(a, c, x, b, c', x') && i < |a| && j < |b| && a[i] == b[j]
    ensures ExactSlot(i, c, x) == ExactSlot(j, c', x')
    ensures InTime(a) && InTime(b) && Timed(a) && Timed(b)
  {
    hide ExactSlot, InTime, Timed;
  }

  // ---------------------------------------------------------------- a batch

  // What Batch returns, with what it found in tier one.
  ghost predicate IsBatchOf(events: seq<Event>, groups: seq<Group>, exact: seq<Group>, confirmed: set<string>,
                            exactOf: map<nat, string>) {
    && IsExactOf(Sorted(events), exactOf)
    && (forall r :: r in confirmed <==> |VendorsAt(Sorted(events), exactOf, r)| > 1)
    && exact <= groups
    && AreGroupsOf(Sorted(events), ExactSlots(|events|, confirmed, exactOf), exact)
    && AreGroupsOf(Sorted(events), HeuristicSlots(Sorted(events), confirmed, exactOf), groups[|exact|..])
  }

  // ---------------------------------------------------------------- scores

  datatype Confidence = High | Medium | Low

  datatype Score = Score(candidateCount: nat, confidence: Confidence)

  ghost function Copies(members: seq<Event>, vendor: string): nat {
    if members == [] then 0
    else Copies(members[..|members| - 1], vendor) + if members[|members| - 1].vendor == vendor then 1 else 0
  }

  ghost function VendorsIn(members: seq<Event>): set<string> {
    set m | m in members :: m.vendor
  }

  // One member on a shared address makes a heuristic join uncertain.
  predicate IsAmbiguous(m: Event) {
    m.shared && m.heuristic.Some?
  }

  ghost predicate AnyAmbiguous(members: seq<Event>) {
    exists m | m in members :: IsAmbiguous(m)
  }

  // In an exact join nothing competed. Otherwise the count is the most events one vendor has in the
  // group. Only a heuristic join of several vendors is less than certain, and it is low when an
  // address was shared or a vendor had several candidates.
  ghost predicate IsScoreOf(score: Score, members: seq<Event>, exact: bool) {
    && score.candidateCount >= 1
    && (exact ==> score.candidateCount == 1)
    && (!exact ==> forall v :: Copies(members, v) <= score.candidateCount)
    && (!exact && score.candidateCount > 1 ==> exists v :: Copies(members, v) == score.candidateCount)
    && (score.confidence.High? <==> exact || |VendorsIn(members)| <= 1)
    && (score.confidence.Low? <==>
          !exact && |VendorsIn(members)| > 1 && (AnyAmbiguous(members) || score.candidateCount > 1))
  }

  function PerVendor(counts: map<string, nat>, vendor: string): nat {
    if vendor in counts then counts[vendor] else 0
  }

  lemma CopiesStep(members: seq<Event>, i: nat)
    requires i < |members|
    ensures forall v :: Copies(members[..i + 1], v) == Copies(members[..i], v) + if members[i].vendor == v then 1 else 0
    ensures VendorsIn(members[..i + 1]) == VendorsIn(members[..i]) + {members[i].vendor}
    ensures AnyAmbiguous(members[..i + 1]) <==> AnyAmbiguous(members[..i]) || IsAmbiguous(members[i])
  {
    assert members[..i + 1] == members[..i] + [members[i]];
    assert members[..i + 1][..i] == members[..i];
  }

  lemma NothingToScore()
    ensures VendorsIn([]) == {} && !AnyAmbiguous([]) && forall v :: Copies([], v) == 0
  {
  }

  lemma OneMoreCopy(counts: map<string, nat>, vendor: string)
    ensures forall v :: (PerVendor(counts[vendor := PerVendor(counts, vendor) + 1], v)
      == PerVendor(counts, v) + if vendor == v then 1 else 0)
  {
  }

  method CountVendors(members: seq<Event>) returns (counts: map<string, nat>, ambiguous: bool)
    ensures counts.Keys == VendorsIn(members)
    ensures forall v :: PerVendor(counts, v) == Copies(members, v)
    ensures ambiguous <==> AnyAmbiguous(members)
  {
    counts, ambiguous := map[], false;
    NothingToScore();
    assert members[..0] == [] && members[..|members|] == members;
    hide Copies, VendorsIn, AnyAmbiguous, IsAmbiguous;
    assert forall v :: PerVendor(counts, v) == 0;
    hide PerVendor;
    for i := 0 to |members|
      invariant counts.Keys == VendorsIn(members[..i])
      invariant forall v :: PerVendor(counts, v) == Copies(members[..i], v)
      invariant ambiguous <==> AnyAmbiguous(members[..i])
    {
      CopiesStep(members, i);
      OneMoreCopy(counts, members[i].vendor);
      ghost var before := counts;
      counts := counts[members[i].vendor := PerVendor(counts, members[i].vendor) + 1];
      ambiguous := ambiguous || IsAmbiguous(members[i]);
      forall v ensures PerVendor(counts, v) == Copies(members[..i + 1], v) {
        assert PerVendor(before, v) == Copies(members[..i], v);
      }
    }
  }

  method Most(counts: map<string, nat>) returns (most: nat)
    ensures most >= 1 && forall v :: PerVendor(counts, v) <= most
    ensures most > 1 ==> exists v :: PerVendor(counts, v) == most
  {
    most := 1;
    var left := counts.Keys;
    while left != {}
      invariant left <= counts.Keys && most >= 1
      invariant forall v | v !in left :: PerVendor(counts, v) <= most
      invariant most > 1 ==> exists v :: PerVendor(counts, v) == most
    {
      var v :| v in left;
      left := left - {v};
      if counts[v] > most {
        most := counts[v];
        assert PerVendor(counts, v) == most;
      }
    }
  }

  // score: the counts by vendor, then the largest of them.
  method ScoreOf(members: seq<Event>, exact: bool) returns (score: Score)
    ensures IsScoreOf(score, members, exact)
  {
    hide Copies, VendorsIn, AnyAmbiguous, PerVendor;
    var counts, ambiguous := CountVendors(members);
    assert |counts| == |counts.Keys|;
    var most := 1;
    if !exact {
      most := Most(counts);
      if most > 1 {
        ghost var v :| PerVendor(counts, v) == most;
        assert Copies(members, v) == most;
      }
    }
    var confidence :=
      if exact || |counts| <= 1 then High
      else if ambiguous || most > 1 then Low
      else Medium;
    score := Score(most, confidence);
  }

  // Two different members.
  ghost predicate TwoOf(members: seq<Event>, i: int, j: int) {
    0 <= i < j < |members|
  }

  // A join on an exact identifier is certain, and so is a record of one vendor. Any other is uncertain
  // when some member with a heuristic key is on a shared address or some vendor has two members.
  lemma ScoreSays(score: Score, members: seq<Event>, exact: bool)
    requires IsScoreOf(score, members, exact)
    ensures score.candidateCount > 1 <==>
      !exact && exists i, j :: TwoOf(members, i, j) && members[i].vendor == members[j].vendor
    ensures score.confidence == High <==>
      exact || forall i, j | TwoOf(members, i, j) :: members[i].vendor == members[j].vendor
    ensures score.confidence == Low <==>
      && !exact && (exists i, j :: TwoOf(members, i, j) && members[i].vendor != members[j].vendor)
      && (score.candidateCount > 1 || exists m :: m in members && m.shared && m.heuristic.Some?)
  {
    SeveralVendors(members);
    forall v ensures Copies(members, v) > 1 <==> HasTwo(members, v) {
      SeveralCopies(members, v);
    }
    assert AnyAmbiguous(members) <==> exists m :: m in members && m.shared && m.heuristic.Some?;
    hide Copies, VendorsIn, AnyAmbiguous, TwoOf;
    if i: int, j: int :| TwoOf(members, i, j) && members[i].vendor == members[j].vendor {
      assert HasTwo(members, members[i].vendor);
    }
    if !exact && score.candidateCount > 1 {
      var v :| Copies(members, v) == score.candidateCount;
      assert HasTwo(members, v);
    }
  }

  lemma SeveralVendors(members: seq<Event>)
    ensures |VendorsIn(members)| > 1 <==> exists i, j :: TwoOf(members, i, j) && members[i].vendor != members[j].vendor
  {
    if i: int, j: int :| TwoOf(members, i, j) && members[i].vendor != members[j].vendor {
      TwoAreMoreThanOne(VendorsIn(members), members[i].vendor, members[j].vendor);
    } else if members != [] {
      forall v | v in VendorsIn(members) ensures v == members[0].vendor {
        var i :| 0 <= i < |members| && members[i].vendor == v;
        assert i > 0 ==> TwoOf(members, 0, i);
      }
      assert VendorsIn(members) <= {members[0].vendor};
      OneAtMost(VendorsIn(members), members[0].vendor);
    }
  }

  lemma OneAtMost(s: set<string>, a: string)
    requires s <= {a}
    ensures |s| <= 1
  {
    assert s == {} || s == {a};
  }

  // A member of the vendor, and two of them.
  ghost predicate HasOne(members: seq<Event>, vendor: string) {
    exists i :: 0 <= i < |members| && members[i].vendor == vendor
  }

  ghost predicate HasTwo(members: seq<Event>, vendor: string) {
    exists i, j :: TwoOf(members, i, j) && members[i].vendor == members[j].vendor == vendor
  }

  lemma OneSnoc(members: seq<Event>, m: Event, vendor: string)
    ensures HasOne(members + [m], vendor) <==> HasOne(members, vendor) || m.vendor == vendor
  {
    var longer, n := members + [m], |members|;
    assert longer[n] == m && forall k | 0 <= k < n :: longer[k] == members[k];
  }

  lemma TwoSnoc(members: seq<Event>, m: Event, vendor: string)
    ensures HasTwo(members + [m], vendor) <==> HasTwo(members, vendor) || (m.vendor == vendor && HasOne(members, vendor))
  {
    var longer, n := members + [m], |members|;
    assert longer[n] == m && forall k | 0 <= k < n :: longer[k] == members[k];
    if i: int, j: int :| TwoOf(members, i, j) && members[i].vendor == members[j].vendor == vendor {
      assert TwoOf(longer, i, j);
    }
    if m.vendor == vendor && HasOne(members, vendor) {
      var i :| 0 <= i < n && members[i].vendor == vendor;
      assert TwoOf(longer, i, n);
    }
    if i: int, j: int :| TwoOf(longer, i, j) && longer[i].vendor == longer[j].vendor == vendor {
      assert j < n ==> TwoOf(members, i, j);
      assert members[i].vendor == vendor;
    }
  }

  lemma {:induction false} SeveralCopies(members: seq<Event>, vendor: string)
    ensures Copies(members, vendor) > 0 <==> HasOne(members, vendor)
    ensures Copies(members, vendor) > 1 <==> HasTwo(members, vendor)
  {
    if members != [] {
      var init, last := members[..|members| - 1], members[|members| - 1];
      assert members == init + [last];
      SeveralCopies(init, vendor);
      OneSnoc(init, last, vendor);
      TwoSnoc(init, last, vendor);
      hide HasOne, HasTwo;
    }
  }

  function VendorSlots(members: seq<Event>): Slots {
    seq(|members|, i requires 0 <= i < |members| => Some(members[i].vendor))
  }

  lemma {:induction false} CopiesAreMembers(members: seq<Event>, vendor: string)
    ensures Copies(members, vendor) == |MembersAt(members, VendorSlots(members), vendor)|
  {
    if members != [] {
      var n := |members| - 1;
      CopiesAreMembers(members[..n], vendor);
      assert VendorSlots(members)[..n] == VendorSlots(members[..n]);
    }
  }

  lemma CopiesIgnoreOrder(a: seq<Event>, b: seq<Event>, vendor: string)
    requires multiset(a) == multiset(b)
    ensures Copies(a, vendor) == Copies(b, vendor)
  {
    CopiesAreMembers(a, vendor);
    CopiesAreMembers(b, vendor);
    SlotsAgree(a, VendorSlots(a), b, VendorSlots(b), vendor);
    MembersAgree(a, VendorSlots(a), b, VendorSlots(b), vendor);
    var x, y := MembersAt(a, VendorSlots(a), vendor), MembersAt(b, VendorSlots(b), vendor);
    assert |x| == |multiset(x)| == |multiset(y)| == |y|;
  }

  // A score depends on the members alone, not on their order.
  lemma ScoresIgnoreOrder(a: seq<Event>, s: Score, b: seq<Event>, t: Score, exact: bool)
    requires multiset(a) == multiset(b) && IsScoreOf(s, a, exact) && IsScoreOf(t, b, exact)
    ensures s == t
  {
    hide Copies, IsAmbiguous;
    forall v ensures Copies(a, v) == Copies(b, v) {
      CopiesIgnoreOrder(a, b, v);
    }
    SameMembers(a, b);
    assert VendorsIn(a) == VendorsIn(b);
    assert AnyAmbiguous(a) <==> AnyAmbiguous(b);
  }

  // Every event of the batch ends in exactly one group, once; the groups come from the confirmed
  // identifiers and from what they leave over.
  method Batch(events: seq<Event>)
      returns (groups: seq<Group>, scores: seq<Score>, ghost exact: seq<Group>, ghost confirmed: set<string>,
               ghost exactOf: map<nat, string>)
    ensures multiset(Spread(groups)) == multiset(events)
    ensures IsBatchOf(events, groups, exact, confirmed, exactOf)
    ensures |scores| == |groups| && forall k | 0 <= k < |groups| :: IsScoreOf(scores[k], groups[k].members, k < |exact|)
  {
    hide *;
    var ordered := Sorted(events);
    SortedKeeps(events);
    SameLength(events);
    var c, x := ConfirmExact(ordered);
    confirmed, exactOf := c, x;
    var first := GroupsFromExact(ordered, c, x);
    var second := GroupsFromHeuristic(ordered, c, x);
    exact := first;
    groups := first + second;
    GroupsHoldWhatIsTaken(ordered, ExactSlots(|ordered|, c, x), first);
    GroupsHoldWhatIsTaken(ordered, HeuristicSlots(ordered, c, x), second);
    PassesComplement(ordered, c, x);
    SpreadConcat(first, second);
    assert groups[|exact|..] == second;
    BatchOf(events, groups, first, c, x);
    scores := [];
    for k := 0 to |groups|
      invariant |scores| == k && forall j | 0 <= j < k :: IsScoreOf(scores[j], groups[j].members, j < |first|)
    {
      var score := ScoreOf(groups[k].members, k < |first|);
      scores := scores + [score];
    }
  }

  lemma BatchOf(events: seq<Event>, groups: seq<Group>, exact: seq<Group>, c: set<string>, x: map<nat, string>)
    requires IsExactOf(Sorted(events), x) && forall r :: r in c <==> |VendorsAt(Sorted(events), x, r)| > 1
    requires exact <= groups
    requires AreGroupsOf(Sorted(events), ExactSlots(|events|, c, x), exact)
    requires AreGroupsOf(Sorted(events), HeuristicSlots(Sorted(events), c, x), groups[|exact|..])
    ensures IsBatchOf(events, groups, exact, c, x)
  {
    hide Sorted, IsExactOf, AreGroupsOf, VendorsAt, ExactSlots, HeuristicSlots;
  }

  // ---------------------------------------------------------------- batches of the same events

  lemma SortedInTime(events: seq<Event>)
    ensures InTime(Sorted(events)) && multiset(Sorted(events)) == multiset(events) && |Sorted(events)| == |events|
    ensures forall e :: e in Sorted(events) <==> e in events
  {
    hide Sorted;
    SortedIsOrdered(events);
    SortedKeeps(events);
    SameLength(events);
    forall i, j | 0 <= i < j < |Sorted(events)| ensures Sorted(events)[i].eventTime <= Sorted(events)[j].eventTime {
      assert !Precedes(Sorted(events)[j], Sorted(events)[i]);
    }
    forall e ensures e in Sorted(events) <==> e in events {
      assert e in multiset(Sorted(events)) <==> e in multiset(events);
    }
  }

  // The identities tier one confirms do not depend on the order either.
  lemma VendorsIgnoreOrder(a: seq<Event>, x: map<nat, string>, b: seq<Event>, x': map<nat, string>, r: string)
    requires IsExactOf(a, x) && IsExactOf(b, x') && forall e :: e in a <==> e in b
    ensures VendorsAt(a, x, r) <= VendorsAt(b, x', r)
  {
    hide IsCanonical, LinksOf;
    forall v | v in VendorsAt(a, x, r) ensures v in VendorsAt(b, x', r) {
      var i :| i in x && x[i] == r && a[i].vendor == v;
      assert a[i] in b;
      var j :| 0 <= j < |b| && b[j] == a[i];
      assert j in x';
      KeysIgnoreOrder(a, x, b, x', i, j);
    }
  }

  lemma PermutationIsSameBatch(events: seq<Event>, c: set<string>, x: map<nat, string>,
                               other: seq<Event>, c': set<string>, x': map<nat, string>, width: int)
    requires multiset(events) == multiset(other) && Derived(events, width)
    requires IsExactOf(Sorted(events), x) && IsExactOf(Sorted(other), x')
    requires forall r :: r in c <==> |VendorsAt(Sorted(events), x, r)| > 1
    requires forall r :: r in c' <==> |VendorsAt(Sorted(other), x', r)| > 1
    ensures SameBatch(Sorted(events), c, x, Sorted(other), c', x')
  {
    hide Sorted, Derived, Timed, IsCanonical, LinksOf, InTime, VendorsAt;
    var a, b := Sorted(events), Sorted(other);
    SortedInTime(events);
    SortedInTime(other);
    DerivedIsTimed(events, width);
    TimedMoves(events, a);
    TimedMoves(events, b);
    SameMembers(a, b);
    ExactIgnoresOrder(a, c, x, b, c', x');
  }

  lemma SameMembers(a: seq<Event>, b: seq<Event>)
    requires multiset(a) == multiset(b)
    ensures forall e :: e in a <==> e in b
  {
    forall e ensures e in a <==> e in b {
      assert e in a <==> e in multiset(a);
    }
  }

  lemma ExactIgnoresOrder(a: seq<Event>, c: set<string>, x: map<nat, string>,
                          b: seq<Event>, c': set<string>, x': map<nat, string>)
    requires IsExactOf(a, x) && IsExactOf(b, x') && forall e :: e in a <==> e in b
    requires forall r :: r in c <==> |VendorsAt(a, x, r)| > 1
    requires forall r :: r in c' <==> |VendorsAt(b, x', r)| > 1
    ensures forall i, j | 0 <= i < |a| && 0 <= j < |b| && a[i] == b[j] :: ExactSlot(i, c, x) == ExactSlot(j, c', x')
  {
    hide IsCanonical, LinksOf, VendorsAt;
    forall r ensures r in c <==> r in c' {
      VendorsIgnoreOrder(a, x, b, x', r);
      VendorsIgnoreOrder(b, x', a, x, r);
      assert VendorsAt(a, x, r) == VendorsAt(b, x', r);
    }
    forall i, j | 0 <= i < |a| && 0 <= j < |b| && a[i] == b[j] ensures ExactSlot(i, c, x) == ExactSlot(j, c', x') {
      if i in x {
        assert j in x';
        KeysIgnoreOrder(a, x, b, x', i, j);
      }
    }
  }

  lemma TimedMoves(a: seq<Event>, b: seq<Event>)
    requires Timed(a) && multiset(a) == multiset(b)
    ensures Timed(b)
  {
    hide KeysIn, IsSolo;
    forall e | e in b ensures e in a {
      assert e in multiset(b);
    }
  }

  lemma OneMoreCount(events: seq<Event>, more: Event, e: Event)
    ensures multiset(events + [more])[e] == multiset(events)[e] + if more == e then 1 else 0
    ensures events + [] == events
  {
  }

  lemma {:induction false} CountMembers(events: seq<Event>, slots: Slots, key: string, e: Event, taken: bool)
    requires |slots| == |events|
    requires forall i | 0 <= i < |events| && events[i] == e :: slots[i] == Some(key) <==> taken
    ensures multiset(MembersAt(events, slots, key))[e] == if taken then multiset(events)[e] else 0
  {
    hide MembersAt;
    if events == [] {
      NoneMember(events, slots, key);
    } else {
      var n := |events| - 1;
      CountMembers(events[..n], slots[..n], key, e, taken);
      MembersStep(events[..n], slots[..n], events[n], slots[n], key);
      assert events == events[..n] + [events[n]] && slots == slots[..n] + [slots[n]];
      OneMoreCount(events[..n], events[n], e);
      OneMoreCount(MembersAt(events[..n], slots[..n], key), events[n], e);
    }
  }

  // Equal events are in the group together or not at all, in both orders.
  ghost predicate AgreeOn(a: seq<Event>, slots: Slots, b: seq<Event>, slots': Slots, key: string) {
    && |slots| == |a| && |slots'| == |b|
    && forall i, j | 0 <= i < |a| && 0 <= j < |b| && a[i] == b[j] :: slots[i] == Some(key) <==> slots'[j] == Some(key)
  }

  lemma MembersAgree(a: seq<Event>, slots: Slots, b: seq<Event>, slots': Slots, key: string)
    requires AgreeOn(a, slots, b, slots', key) && multiset(a) == multiset(b)
    ensures |slots| == |a| && |slots'| == |b|
    ensures multiset(MembersAt(a, slots, key)) == multiset(MembersAt(b, slots', key))
  {
    SizesAgree(a, slots, b, slots', key);
    hide *;
    forall e ensures multiset(MembersAt(a, slots, key))[e] == multiset(MembersAt(b, slots', key))[e] {
      CountsAgree(a, slots, b, slots', key, e);
    }
  }

  lemma SizesAgree(a: seq<Event>, slots: Slots, b: seq<Event>, slots': Slots, key: string)
    requires AgreeOn(a, slots, b, slots', key)
    ensures |slots| == |a| && |slots'| == |b|
  {
  }

  lemma CountsAgree(a: seq<Event>, slots: Slots, b: seq<Event>, slots': Slots, key: string, e: Event)
    requires AgreeOn(a, slots, b, slots', key) && multiset(a) == multiset(b) && |slots| == |a| && |slots'| == |b|
    ensures multiset(MembersAt(a, slots, key))[e] == multiset(MembersAt(b, slots', key))[e]
  {
    hide MembersAt;
    SameMembers(a, b);
    var taken := exists i | 0 <= i < |a| :: a[i] == e && slots[i] == Some(key);
    if e in a {
      var i :| 0 <= i < |a| && a[i] == e;
      var j :| 0 <= j < |b| && b[j] == e;
    }
    CountMembers(a, slots, key, e, taken);
    CountMembers(b, slots', key, e, taken);
  }

  // An event without a client or host is alone in its group.
  lemma SoloIsAlone(events: seq<Event>, confirmed: set<string>, exactOf: map<nat, string>, i: nat)
    requires Timed(events) && i < |events|
    requires HeuristicSlots(events, confirmed, exactOf)[i] == Some(SoloKey(i))
    ensures MembersAt(events, HeuristicSlots(events, confirmed, exactOf), SoloKey(i)) == [events[i]]
  {
    hide HeuristicSlots, SoloKey, Timed;
    var slots := HeuristicSlots(events, confirmed, exactOf);
    forall j | 0 <= j < |events| ensures slots[j] == Some(SoloKey(i)) <==> j == i {
      if slots[j] == Some(SoloKey(i)) {
        SoloSlot(events, confirmed, exactOf, j, SoloKey(i));
        SoloIsSolo(i);
        SoloKeysDiffer(i, j);
      }
    }
    OneMember(events, slots, SoloKey(i), i);
  }

  lemma SoloKeysDiffer(i: nat, j: nat)
    requires SoloKey(i) == SoloKey(j)
    ensures i == j
  {
    assert SoloKey(i)[5..] == Decimal(i) && SoloKey(j)[5..] == Decimal(j);
    DecimalInjective(i, j);
  }

  // A solo slot is that of an event without heuristic keys.
  lemma SoloSlot(events: seq<Event>, confirmed: set<string>, exactOf: map<nat, string>, i: nat, key: string)
    requires Timed(events) && i < |events| && HeuristicSlots(events, confirmed, exactOf)[i] == Some(key)
    ensures IsSolo(key) ==> events[i].heuristic.None? && key == SoloKey(i)
    ensures events[i].heuristic.None? ==> key == SoloKey(i)
  {
    hide HeuristicSlots, SoloKey, ExactSlot, Open, ResolveWindow, KeysIn, IsSolo;
    SlotAt(events, confirmed, exactOf, i);
    if events[i].heuristic.Some? {
      ResolvedIsOwnKey(events[i].heuristic.value, Open(HeuristicSlots(events, confirmed, exactOf)[..i]));
      assert events[i] in events;
    }
  }

  lemma {:induction false} OneMember(events: seq<Event>, slots: Slots, key: string, i: nat)
    requires |slots| == |events| && i < |events|
    requires forall j | 0 <= j < |events| :: slots[j] == Some(key) <==> j == i
    ensures MembersAt(events, slots, key) == [events[i]]
  {
    var n := |events| - 1;
    if i == n {
      NoneMember(events[..n], slots[..n], key);
    } else {
      OneMember(events[..n], slots[..n], key, i);
    }
  }

  lemma {:induction false} NoneMember(events: seq<Event>, slots: Slots, key: string)
    requires |slots| == |events| && forall j | 0 <= j < |events| :: slots[j] != Some(key)
    ensures MembersAt(events, slots, key) == []
  {
    if events != [] {
      NoneMember(events[..|events| - 1], slots[..|events| - 1], key);
    }
  }

  // A group of a pass is that of some event's slot, and every slot has its group.
  lemma GroupOfSlot(events: seq<Event>, slots: Slots, groups: seq<Group>, i: nat)
    requires AreGroupsOf(events, slots, groups) && i < |events| && slots[i].Some?
    ensures Group(slots[i].value, MembersAt(events, slots, slots[i].value)) in groups
  {
    hide MembersAt, FreshKeys;
    var key, keys := slots[i].value, FreshKeys({}, KeysOf(slots));
    OpenIs(slots, key);
    FreshKeysShape({}, KeysOf(slots));
    assert key in ToSet(KeysOf(slots));
    assert key in ToSet(keys);
    var k :| 0 <= k < |keys| && keys[k] == key;
    assert groups[k] == Group(key, MembersAt(events, slots, key));
  }

  lemma SlotOfGroup(events: seq<Event>, slots: Slots, groups: seq<Group>, g: Group) returns (i: nat)
    requires AreGroupsOf(events, slots, groups) && g in groups
    ensures i < |events| && slots[i] == Some(g.key) && g.members == MembersAt(events, slots, g.key)
  {
    hide MembersAt, FreshKeys;
    var keys := FreshKeys({}, KeysOf(slots));
    var k :| 0 <= k < |groups| && groups[k] == g;
    FreshKeysShape({}, KeysOf(slots));
    assert keys[k] in ToSet(keys);
    assert g.key in KeysOf(slots);
    OpenIs(slots, g.key);
    i :| 0 <= i < |slots| && slots[i] == Some(g.key);
  }

  lemma {:induction false} ExactSlotsAt(n: nat, confirmed: set<string>, exactOf: map<nat, string>, i: nat)
    requires i < n
    ensures ExactSlots(n, confirmed, exactOf)[i] == ExactSlot(i, confirmed, exactOf)
  {
    if i < n - 1 {
      ExactSlotsAt(n - 1, confirmed, exactOf, i);
    }
  }

  // Batch is deterministic: on the same events in any order it makes the same groups, each with the
  // same members under the same key. The number in the key of a lone event is all that may change.
  lemma BatchIgnoresOrder(events: seq<Event>, groups: seq<Group>, exact: seq<Group>, c: set<string>, x: map<nat, string>,
                          other: seq<Event>, groups': seq<Group>, exact': seq<Group>, c': set<string>, x': map<nat, string>,
                          width: int, g: Group)
      returns (g': Group)
    requires IsBatchOf(events, groups, exact, c, x) && IsBatchOf(other, groups', exact', c', x')
    requires multiset(events) == multiset(other) && Derived(events, width) && g in groups
    ensures g' in groups' && multiset(g'.members) == multiset(g.members)
    ensures g'.key == g.key || (IsSolo(g.key) && IsSolo(g'.key) && |g.members| == 1)
    ensures if g in exact then g' in exact' else g' in groups'[|exact'|..]
  {
    hide *;
    BatchIs(events, groups, exact, c, x);
    BatchIs(other, groups', exact', c', x');
    PermutationIsSameBatch(events, c, x, other, c', x', width);
    SortedInTime(events);
    SortedInTime(other);
    InRest(groups, exact, g);
    if g in exact {
      g' := ExactGroupAgain(events, exact, c, x, other, exact', c', x', g);
    } else {
      g' := HeuristicGroupAgain(Sorted(events), groups[|exact|..], c, x, Sorted(other), groups'[|exact'|..], c', x', g);
    }
  }

  lemma InRest(groups: seq<Group>, exact: seq<Group>, g: Group)
    requires exact <= groups && g in groups
    ensures g in exact || g in groups[|exact|..]
  {
    assert groups == exact + groups[|exact|..];
  }

  lemma BatchIs(events: seq<Event>, groups: seq<Group>, exact: seq<Group>, c: set<string>, x: map<nat, string>)
    requires IsBatchOf(events, groups, exact, c, x)
    ensures IsExactOf(Sorted(events), x) && forall r :: r in c <==> |VendorsAt(Sorted(events), x, r)| > 1
    ensures exact <= groups && (forall g | g in exact :: g in groups) && (forall g | g in groups[|exact|..] :: g in groups)
    ensures AreGroupsOf(Sorted(events), ExactSlots(|events|, c, x), exact)
    ensures AreGroupsOf(Sorted(events), HeuristicSlots(Sorted(events), c, x), groups[|exact|..])
  {
    hide Sorted, IsExactOf, AreGroupsOf, VendorsAt, ExactSlots, HeuristicSlots;
  }

  lemma ExactGroupAgain(events: seq<Event>, exact: seq<Group>, c: set<string>, x: map<nat, string>,
                        other: seq<Event>, exact': seq<Group>, c': set<string>, x': map<nat, string>, g: Group)
      returns (g': Group)
    requires SameBatch(Sorted(events), c, x, Sorted(other), c', x') && g in exact
    requires |Sorted(events)| == |events| && |Sorted(other)| == |other|
    requires multiset(Sorted(events)) == multiset(Sorted(other))
    requires AreGroupsOf(Sorted(events), ExactSlots(|events|, c, x), exact)
    requires AreGroupsOf(Sorted(other), ExactSlots(|other|, c', x'), exact')
    ensures g' in exact' && g'.key == g.key && multiset(g'.members) == multiset(g.members)
  {
    hide *;
    var a, b := Sorted(events), Sorted(other);
    var slots, slots' := ExactSlots(|a|, c, x), ExactSlots(|b|, c', x');
    var i := SlotOfGroup(a, slots, exact, g);
    var j := Counterpart(a, c, x, b, c', x', i);
    forall k | 0 <= k < |a| ensures slots[k] == ExactSlot(k, c, x) {
      ExactSlotsAt(|a|, c, x, k);
    }
    forall k | 0 <= k < |b| ensures slots'[k] == ExactSlot(k, c', x') {
      ExactSlotsAt(|b|, c', x', k);
    }
    forall k, l | 0 <= k < |a| && 0 <= l < |b| && a[k] == b[l] ensures slots[k] == slots'[l] {
      SameExact(a, c, x, b, c', x', k, l);
    }
    GroupOfSlot(b, slots', exact', j);
    SlotsAgree(a, slots, b, slots', g.key);
    MembersAgree(a, slots, b, slots', g.key);
    g' := Group(g.key, MembersAt(b, slots', g.key));
  }

  lemma SlotsAgree(a: seq<Event>, slots: Slots, b: seq<Event>, slots': Slots, key: string)
    requires |slots| == |a| && |slots'| == |b|
    requires forall i, j | 0 <= i < |a| && 0 <= j < |b| && a[i] == b[j] :: slots[i] == Some(key) <==> slots'[j] == Some(key)
    ensures AgreeOn(a, slots, b, slots', key)
  {
  }

  lemma HeuristicGroupAgain(a: seq<Event>, groups: seq<Group>, c: set<string>, x: map<nat, string>,
                            b: seq<Event>, groups': seq<Group>, c': set<string>, x': map<nat, string>, g: Group)
      returns (g': Group)
    requires SameBatch(a, c, x, b, c', x') && g in groups && multiset(a) == multiset(b)
    requires AreGroupsOf(a, HeuristicSlots(a, c, x), groups) && AreGroupsOf(b, HeuristicSlots(b, c', x'), groups')
    ensures g' in groups' && multiset(g'.members) == multiset(g.members)
    ensures g'.key == g.key || (IsSolo(g.key) && IsSolo(g'.key) && |g.members| == 1)
  {
    hide *;
    var slots, slots' := HeuristicSlots(a, c, x), HeuristicSlots(b, c', x');
    var i := SlotOfGroup(a, slots, groups, g);
    var j := Counterpart(a, c, x, b, c', x', i);
    SlotsIgnoreOrder(a, c, x, b, c', x', i, j);
    GroupOfSlot(b, slots', groups', j);
    SoloSlot(a, c, x, i, g.key);
    if IsSolo(g.key) {
      SoloIsAlone(a, c, x, i);
      SoloIsAlone(b, c', x', j);
      SoloIsSolo(j);
      g' := Group(SoloKey(j), MembersAt(b, slots', SoloKey(j)));
    } else {
      forall k, l | 0 <= k < |a| && 0 <= l < |b| && a[k] == b[l] ensures slots[k] == Some(g.key) <==> slots'[l] == Some(g.key) {
        SlotsIgnoreOrder(a, c, x, b, c', x', k, l);
        SoloIsSolo(k);
        SoloIsSolo(l);
      }
      SoloIsSolo(i);
      SlotsAgree(a, slots, b, slots', g.key);
      MembersAgree(a, slots, b, slots', g.key);
      g' := Group(g.key, MembersAt(b, slots', g.key));
    }
  }

  // ---------------------------------------------------------------- what a batch makes of its events

  lemma {:induction false} MembersAre(events: seq<Event>, slots: Slots, key: string, e: Event)
    requires |slots| == |events|
    ensures e in MembersAt(events, slots, key) <==>
      exists i | 0 <= i < |events| :: events[i] == e && slots[i] == Some(key)
  {
    hide MembersAt;
    if events == [] {
      NoneMember(events, slots, key);
    } else {
      var n := |events| - 1;
      MembersAre(events[..n], slots[..n], key, e);
      MembersStep(events[..n], slots[..n], events[n], slots[n], key);
      assert events == events[..n] + [events[n]] && slots == slots[..n] + [slots[n]];
      if i :| 0 <= i < |events| && events[i] == e && slots[i] == Some(key) {
        assert i < n ==> events[..n][i] == e && slots[..n][i] == Some(key);
      }
    }
  }

  // The members are the events linked to e, and not all of one vendor.
  ghost predicate IsRequestOf(events: seq<Event>, members: seq<Event>, e: Event) {
    && (forall f :: f in members <==> f in events && f.identifiers != [] && Linked(events, e, f))
    && (exists f :: f in members && f.vendor != e.vendor)
  }

  // The exact groups of a batch are its requests: a group holds, with one event, exactly the events
  // linked to it, and more than one vendor; and every event linked to one of another vendor is in one.
  lemma ExactGroupsAreRequests(events: seq<Event>, groups: seq<Group>, exact: seq<Group>, c: set<string>, x: map<nat, string>)
    requires IsBatchOf(events, groups, exact, c, x)
    ensures forall g, e | g in exact && e in g.members :: IsRequestOf(events, g.members, e)
    ensures forall e, f | e in events && f in events && e.identifiers != [] && f.identifiers != []
        && Linked(events, e, f) && e.vendor != f.vendor ::
      exists g :: g in exact && e in g.members
  {
    hide *;
    BatchIs(events, groups, exact, c, x);
    SortedInTime(events);
    var a := Sorted(events);
    AsTierOne(a, exact, c, x);
    forall g, e | g in exact && e in g.members ensures IsRequestOf(events, g.members, e) {
      ExactGroupIs(events, a, exact, c, x, g, e);
    }
    forall e, f | e in events && f in events && e.identifiers != [] && f.identifiers != []
        && Linked(events, e, f) && e.vendor != f.vendor
      ensures exists g :: g in exact && e in g.members
    {
      ExactGroupExists(events, a, exact, c, x, e, f);
    }
  }

  ghost predicate IsTierOne(a: seq<Event>, exact: seq<Group>, c: set<string>, x: map<nat, string>) {
    && IsExactOf(a, x) && (forall r :: r in c <==> |VendorsAt(a, x, r)| > 1)
    && AreGroupsOf(a, ExactSlots(|a|, c, x), exact)
  }

  lemma AsTierOne(a: seq<Event>, exact: seq<Group>, c: set<string>, x: map<nat, string>)
    requires IsExactOf(a, x) && (forall r :: r in c <==> |VendorsAt(a, x, r)| > 1)
    requires AreGroupsOf(a, ExactSlots(|a|, c, x), exact)
    ensures IsTierOne(a, exact, c, x)
  {
    hide IsExactOf, AreGroupsOf, ExactSlots;
  }

  // An event's slot, and the events that share it.
  lemma SlotsAreLinked(a: seq<Event>, exact: seq<Group>, c: set<string>, x: map<nat, string>, i: nat, j: nat)
    requires IsTierOne(a, exact, c, x) && i < |a| && j < |a| && ExactSlots(|a|, c, x)[i].Some?
    ensures a[i].identifiers != []
    ensures ExactSlots(|a|, c, x)[j] == ExactSlots(|a|, c, x)[i] <==> a[j].identifiers != [] && Linked(a, a[i], a[j])
  {
    hide Joined, LinksOf, IsCanonical, Linked, VendorsAt, AreGroupsOf;
    ExactSlotsAt(|a|, c, x, i);
    ExactSlotsAt(|a|, c, x, j);
    if j in x {
      OneKeyExactlyWhenLinked(a, x, i, j);
    }
  }

  lemma ExactGroupIs(events: seq<Event>, a: seq<Event>, exact: seq<Group>, c: set<string>, x: map<nat, string>, g: Group, e: Event)
    requires (forall d :: d in a <==> d in events) && IsTierOne(a, exact, c, x) && g in exact && e in g.members
    ensures IsRequestOf(events, g.members, e)
  {
    hide *;
    TierOneIs(a, exact, c, x);
    var slots := ExactSlots(|a|, c, x);
    var k := SlotOfGroup(a, slots, exact, g);
    MembersAre(a, slots, g.key, e);
    var i :| 0 <= i < |a| && a[i] == e && slots[i] == Some(g.key);
    forall f ensures f in g.members <==> f in events && f.identifiers != [] && Linked(events, e, f) {
      MembersAre(a, slots, g.key, f);
      LinkedMoves(a, events, e, f);
      LinkedMoves(events, a, e, f);
      if f in events {
        var j :| 0 <= j < |a| && a[j] == f;
        SlotsAreLinked(a, exact, c, x, i, j);
      }
      forall j | 0 <= j < |a| && a[j] == f
        ensures slots[j] == Some(g.key) <==> f.identifiers != [] && Linked(a, e, f)
      {
        SlotsAreLinked(a, exact, c, x, i, j);
      }
    }
    var j := SecondVendor(a, exact, c, x, i);
    MembersAre(a, slots, g.key, a[j]);
    IsRequest(events, g.members, e, a[j]);
  }

  lemma IsRequest(events: seq<Event>, members: seq<Event>, e: Event, other: Event)
    requires forall f :: f in members <==> f in events && f.identifiers != [] && Linked(events, e, f)
    requires other in members && other.vendor != e.vendor
    ensures IsRequestOf(events, members, e)
  {
    hide Linked;
  }

  lemma TierOneIs(a: seq<Event>, exact: seq<Group>, c: set<string>, x: map<nat, string>)
    requires IsTierOne(a, exact, c, x)
    ensures |ExactSlots(|a|, c, x)| == |a| && AreGroupsOf(a, ExactSlots(|a|, c, x), exact)
    ensures forall i: nat :: i in x <==> i < |a| && a[i].identifiers != []
  {
    hide IsCanonical, LinksOf, AreGroupsOf, VendorsAt, ExactSlots;
  }

  lemma SecondVendor(a: seq<Event>, exact: seq<Group>, c: set<string>, x: map<nat, string>, i: nat) returns (j: nat)
    requires IsTierOne(a, exact, c, x) && i < |a| && ExactSlots(|a|, c, x)[i].Some?
    ensures j < |a| && a[j].vendor != a[i].vendor && ExactSlots(|a|, c, x)[j] == ExactSlots(|a|, c, x)[i]
  {
    hide Joined, LinksOf, IsCanonical, Linked, VendorsAt, AreGroupsOf, ExactSlots;
    ExactSlotsAt(|a|, c, x, i);
    ConfirmedMeansSecondVendor(a, x, c, i);
    j :| j in x && a[j].vendor != a[i].vendor && Linked(a, a[i], a[j]);
    SlotsAreLinked(a, exact, c, x, i, j);
  }

  lemma ExactGroupExists(events: seq<Event>, a: seq<Event>, exact: seq<Group>, c: set<string>, x: map<nat, string>, e: Event, f: Event)
    requires (forall d :: d in a <==> d in events) && IsTierOne(a, exact, c, x) && e in events && f in events
    requires e.identifiers != [] && f.identifiers != [] && Linked(events, e, f) && e.vendor != f.vendor
    ensures exists g :: g in exact && e in g.members
  {
    hide *;
    TierOneIs(a, exact, c, x);
    LinkedMoves(events, a, e, f);
    assert e in a && f in a;
    var i :| 0 <= i < |a| && a[i] == e;
    var j :| 0 <= j < |a| && a[j] == f;
    assert i in x && j in x;
    LinkedIsConfirmed(a, exact, c, x, i, j);
    var slots := ExactSlots(|a|, c, x);
    GroupOfSlot(a, slots, exact, i);
    MembersAre(a, slots, slots[i].value, e);
  }

  lemma LinkedIsConfirmed(a: seq<Event>, exact: seq<Group>, c: set<string>, x: map<nat, string>, i: nat, j: nat)
    requires IsTierOne(a, exact, c, x) && i in x && j in x && i < |a| && j < |a|
    requires Linked(a, a[i], a[j]) && a[i].vendor != a[j].vendor
    ensures ExactSlots(|a|, c, x)[i].Some?
  {
    hide Joined, LinksOf, IsCanonical, Linked, VendorsAt, AreGroupsOf, ExactSlots;
    ExactSlotsAt(|a|, c, x, i);
    ConfirmedMeansSecondVendor(a, x, c, i);
  }
}
