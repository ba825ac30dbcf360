// The disjoint sets of identifiers behind grouping (backend/internal/correlate/group/group.go).

module UnionFinds {
  import opened Text

  type Links = seq<(string, string)>

  ghost predicate ClosedUnder(s: set<string>, links: Links) {
    forall l | l in links :: l.0 in s <==> l.1 in s
  }

  // Connected by links: every set of identifiers that keeps linked ones together and holds a holds b.
  ghost predicate Joined(links: Links, a: string, b: string) {
    forall s: set<string> | ClosedUnder(s, links) && a in s :: b in s
  }

  // The smallest identifier connected to a.
  ghost predicate IsCanonical(links: Links, a: string, root: string) {
    Joined(links, a, root) && forall b | Joined(links, a, b) :: !Less(b, root)
  }

  // A choice of representatives: links stay within a class, a representative is in its class and no
  // member is smaller.
  ghost predicate Represents(rep: map<string, string>, links: Links) {
    && (forall l | l in links :: l.0 in rep && l.1 in rep && rep[l.0] == rep[l.1])
    && (forall v | v in rep :: rep[v] in rep && rep[rep[v]] == rep[v] && !Less(v, rep[v]))
    && (forall v | v in rep :: Joined(links, rep[v], v))
  }

  // ---------------------------------------------------------------- connection

  lemma JoinedMonotone(links: Links, more: Links, a: string, b: string)
    requires Joined(links, a, b) && forall l | l in links :: l in more
    ensures Joined(more, a, b)
  {
    forall s: set<string> | ClosedUnder(s, more) && a in s ensures b in s {
      assert ClosedUnder(s, links);
    }
  }

  lemma JoinedTransitive(links: Links, a: string, b: string, c: string)
    requires Joined(links, a, b) && Joined(links, b, c)
    ensures Joined(links, a, c)
  {
  }

  ghost function Ends(links: Links): set<string> {
    (set l | l in links :: l.0) + (set l | l in links :: l.1)
  }

  lemma JoinedSymmetric(links: Links, a: string, b: string)
    requires Joined(links, a, b)
    ensures Joined(links, b, a)
  {
    forall s: set<string> | ClosedUnder(s, links) && b in s ensures a in s {
      var others := Ends(links) + {a, b} - s;
      assert ClosedUnder(others, links) by {
        forall l | l in links ensures l.0 in others <==> l.1 in others {
          assert l.0 in Ends(links) && l.1 in Ends(links);
        }
      }
      assert a in others ==> b in others;
    }
  }

  lemma LinkJoins(links: Links, a: string, b: string)
    requires (a, b) in links
    ensures Joined(links, a, b)
  {
  }

  // Representatives tell the classes apart and are their smallest members.
  lemma RepresentativesAreCanonical(rep: map<string, string>, links: Links, a: string)
    requires Represents(rep, links) && a in rep
    ensures IsCanonical(links, a, rep[a])
    ensures forall b | b in rep :: rep[a] == rep[b] <==> Joined(links, a, b)
  {
    JoinedSymmetric(links, rep[a], a);
    var cell := set v | v in rep && rep[v] == rep[a];
    assert ClosedUnder(cell, links) && a in cell;
    forall b | b in rep ensures rep[a] == rep[b] <==> Joined(links, a, b) {
      if rep[a] == rep[b] {
        JoinedTransitive(links, a, rep[a], b);
      }
    }
    forall b | Joined(links, a, b) ensures !Less(b, rep[a]) {
      assert b in cell;
    }
  }

  lemma CanonicalIsUnique(links: Links, a: string, r: string, s: string)
    requires IsCanonical(links, a, r) && IsCanonical(links, a, s)
    ensures r == s
  {
    LessTotal(r, s);
  }

  // ---------------------------------------------------------------- the forest

  // Parents lead down, within the class, to its representative.
  ghost predicate IsForest(parent: map<string, string>, rep: map<string, string>) {
    parent.Keys == rep.Keys && forall v | v in parent :: LeadsDown(parent, rep, v)
  }

  ghost predicate LeadsDown(parent: map<string, string>, rep: map<string, string>, v: string) {
    && v in parent && v in rep && parent[v] in parent && parent[v] in rep && rep[parent[v]] == rep[v]
    && (if parent[v] == v then rep[v] == v else Less(parent[v], v))
  }

  ghost function Below(keys: set<string>, v: string): set<string> {
    set k | k in keys && Less(k, v)
  }

  lemma BelowShrinks(keys: set<string>, p: string, v: string)
    requires p in keys && Less(p, v)
    ensures |Below(keys, p)| < |Below(keys, v)|
  {
    hide Less;
    LessIrreflexive(p);
    forall k | k in Below(keys, p) ensures k in Below(keys, v) {
      LessTransitive(k, p, v);
    }
    assert p in Below(keys, v) && p !in Below(keys, p);
    CardinalityGrows(Below(keys, p), Below(keys, v));
  }

  lemma CardinalityGrows(small: set<string>, big: set<string>)
    requires small < big
    ensures |small| < |big|
  {
    var gap := big - small;
    assert big == small + gap && gap != {};
  }

  lemma JoinedReflexive(links: Links, a: string)
    ensures Joined(links, a, a)
  {
  }

  // A new identifier is a class of its own.
  lemma AddAlone(parent: map<string, string>, rep: map<string, string>, links: Links, v: string)
    requires IsForest(parent, rep) && Represents(rep, links) && v !in parent
    ensures IsForest(parent[v := v], rep[v := v]) && Represents(rep[v := v], links)
  {
    AddToForest(parent, rep, v);
    AddToClasses(rep, links, v);
  }

  lemma AddToForest(parent: map<string, string>, rep: map<string, string>, v: string)
    requires IsForest(parent, rep) && v !in parent
    ensures IsForest(parent[v := v], rep[v := v])
  {
    hide Less;
  }

  lemma AddToClasses(rep: map<string, string>, links: Links, v: string)
    requires Represents(rep, links) && v !in rep
    ensures Represents(rep[v := v], links)
  {
    hide Less, Joined;
    LessIrreflexive(v);
    JoinedReflexive(links, v);
  }

  lemma RepIsBelow(parent: map<string, string>, rep: map<string, string>, links: Links, v: string)
    requires IsForest(parent, rep) && Represents(rep, links) && v in parent && parent[v] != v
    ensures Less(rep[v], v) && rep[v] in parent && rep[rep[v]] == rep[v] && rep[v] != v
  {
    hide Less, Joined;
    LessIrreflexive(v);
    var p := parent[v];
    LessTotal(rep[p], p);
    if rep[p] != p {
      LessTransitive(rep[p], p, v);
    }
  }

  // Path compression.
  lemma Compress(parent: map<string, string>, rep: map<string, string>, links: Links, v: string)
    requires IsForest(parent, rep) && Represents(rep, links) && v in parent
    ensures IsForest(parent[v := rep[v]], rep)
  {
    hide Less;
    if parent[v] != v {
      RepIsBelow(parent, rep, links, v);
      Reparent(parent, rep, v, rep[v]);
    } else {
      assert parent[v := v] == parent;
    }
  }

  lemma Reparent(parent: map<string, string>, rep: map<string, string>, v: string, root: string)
    requires IsForest(parent, rep) && v in parent && root in parent && rep[root] == rep[v] && Less(root, v) && root != v
    ensures IsForest(parent[v := root], rep)
  {
    hide LeadsDown;
    var next := parent[v := root];
    forall u | u in next ensures LeadsDown(next, rep, u) {
      assert LeadsDown(parent, rep, u);
      StillLeadsDown(parent, rep, v, root, u);
    }
  }

  lemma StillLeadsDown(parent: map<string, string>, rep: map<string, string>, v: string, root: string, u: string)
    requires LeadsDown(parent, rep, u) && parent.Keys == rep.Keys
    requires v in parent && root in parent && rep[root] == rep[v] && Less(root, v) && root != v
    ensures LeadsDown(parent[v := root], rep, u)
  {
    hide Less;
  }

  lemma ParentLeadsDown(parent: map<string, string>, rep: map<string, string>, v: string)
    requires IsForest(parent, rep)
    ensures v in parent <==> v in rep
    ensures v in parent ==> parent[v] in parent && parent[v] in rep && rep[parent[v]] == rep[v]
    ensures v in parent ==> if parent[v] == v then rep[v] == v else Less(parent[v], v)
  {
  }

  ghost function Merged(rep: map<string, string>, winner: string, loser: string): map<string, string> {
    map v | v in rep :: if rep[v] == loser then winner else rep[v]
  }

  // The smaller root wins.
  lemma MergeRoots(parent: map<string, string>, rep: map<string, string>, links: Links, a: string, b: string,
                   winner: string, loser: string)
    requires IsForest(parent, rep) && Represents(rep, links) && a in rep && b in rep
    requires {winner, loser} == {rep[a], rep[b]} && Less(winner, loser)
    ensures IsForest(parent[loser := winner], Merged(rep, winner, loser))
    ensures Represents(Merged(rep, winner, loser), links + [(a, b)])
  {
    hide Less, Joined, Represents, IsForest;
    RootsAre(rep, links, a, b, winner, loser);
    MergedForest(parent, rep, winner, loser);
    MergedClasses(rep, links, a, b, winner, loser);
  }

  lemma RootsAre(rep: map<string, string>, links: Links, a: string, b: string, winner: string, loser: string)
    requires Represents(rep, links) && a in rep && b in rep
    requires {winner, loser} == {rep[a], rep[b]} && Less(winner, loser)
    ensures winner in rep && loser in rep && rep[winner] == winner && rep[loser] == loser && winner != loser
    ensures (winner == rep[a] && loser == rep[b]) || (winner == rep[b] && loser == rep[a])
  {
    hide Less, Joined;
    LessIrreflexive(winner);
    assert winner in {rep[a], rep[b]} && loser in {rep[a], rep[b]};
  }

  lemma MergedClasses(rep: map<string, string>, links: Links, a: string, b: string, winner: string, loser: string)
    requires Represents(rep, links) && a in rep && b in rep
    requires {winner, loser} == {rep[a], rep[b]} && Less(winner, loser)
    ensures Represents(Merged(rep, winner, loser), links + [(a, b)])
  {
    hide Less, Joined;
    RootsAre(rep, links, a, b, winner, loser);
    var more, merged := links + [(a, b)], Merged(rep, winner, loser);
    WinnerJoinsLoser(rep, links, a, b, winner, loser);
    forall v | v in merged
      ensures merged[v] in merged && merged[merged[v]] == merged[v] && !Less(v, merged[v])
      ensures Joined(more, merged[v], v)
    {
      JoinedMonotone(links, more, rep[v], v);
      if rep[v] == loser {
        JoinedTransitive(more, winner, loser, v);
        if Less(v, winner) {
          LessTransitive(v, winner, loser);
        }
      }
    }
    forall l | l in more ensures l.0 in merged && l.1 in merged && merged[l.0] == merged[l.1] {
      if l in links {
        assert rep[l.0] == rep[l.1];
      } else {
        assert l == (a, b);
      }
    }
  }

  lemma MergedForest(parent: map<string, string>, rep: map<string, string>, winner: string, loser: string)
    requires IsForest(parent, rep) && winner in rep && loser in rep && rep[winner] == winner && rep[loser] == loser
    requires Less(winner, loser) && winner != loser
    ensures IsForest(parent[loser := winner], Merged(rep, winner, loser))
  {
    hide Less;
  }

  lemma WinnerJoinsLoser(rep: map<string, string>, links: Links, a: string, b: string, winner: string, loser: string)
    requires Represents(rep, links) && a in rep && b in rep && {winner, loser} == {rep[a], rep[b]}
    ensures Joined(links + [(a, b)], winner, loser)
  {
    hide Joined;
    var more := links + [(a, b)];
    JoinedMonotone(links, more, rep[a], a);
    JoinedMonotone(links, more, rep[b], b);
    JoinedSymmetric(more, rep[a], a);
    JoinedSymmetric(more, rep[b], b);
    LinkJoins(more, a, b);
    JoinedSymmetric(more, a, b);
    JoinedTransitive(more, rep[a], a, b);
    JoinedTransitive(more, rep[a], b, rep[b]);
    JoinedSymmetric(more, rep[a], rep[b]);
    assert winner in {rep[a], rep[b]} && loser in {rep[a], rep[b]};
    assert rep[a] in {winner, loser} && rep[b] in {winner, loser};
  }

  class UnionFind {
    var parent: map<string, string>
    ghost var rep: map<string, string>
    ghost var links: Links

    constructor ()
      ensures Valid() && links == [] && rep == map[]
    {
      parent, rep, links := map[], map[], [];
    }

    ghost predicate Valid()
      reads this
    {
      IsForest(parent, rep) && Represents(rep, links)
    }

    // The representative of an identifier, shortening the way to it; an unknown one is its own.
    method Find(value: string) returns (root: string)
      requires Valid()
      modifies this`parent, this`rep
      ensures Valid()
      ensures value in rep && root == rep[value] && value in parent && parent[value] == root
      ensures rep == if value in old(rep) then old(rep) else old(rep)[value := value]
      decreases |Below(parent.Keys, value)|
    {
      hide Represents, IsForest, Less, Joined;
      ParentLeadsDown(parent, rep, value);
      if value !in parent {
        AddAlone(parent, rep, links, value);
        parent := parent[value := value];
        rep := rep[value := value];
        return value;
      }
      if parent[value] == value {
        return value;
      }
      BelowShrinks(parent.Keys, parent[value], value);
      root := Find(parent[value]);
      ParentLeadsDown(parent, rep, value);
      Compress(parent, rep, links, value);
      parent := parent[value := root];
    }

    method Link(a: string, b: string)
      requires Valid()
      modifies this
      ensures Valid() && links == old(links) + [(a, b)]
      ensures a in rep && b in rep && forall v | v in old(rep) :: v in rep
    {
      hide IsForest, Represents, Less, Joined;
      var rootA := Find(a);
      var rootB := Find(b);
      if rootA == rootB {
        LinkWithin(rep, links, a, b);
        links := links + [(a, b)];
        return;
      }
      LessTotal(rootA, rootB);
      if Less(rootB, rootA) {
        rootA, rootB := rootB, rootA;
      }
      MergeRoots(parent, rep, links, a, b, rootA, rootB);
      parent := parent[rootB := rootA];
      rep := Merged(rep, rootA, rootB);
      links := links + [(a, b)];
    }
  }

  lemma LinkWithin(rep: map<string, string>, links: Links, a: string, b: string)
    requires Represents(rep, links) && a in rep && b in rep && rep[a] == rep[b]
    ensures Represents(rep, links + [(a, b)])
  {
    hide Joined, Less;
    forall v | v in rep ensures Joined(links + [(a, b)], rep[v], v) {
      JoinedMonotone(links, links + [(a, b)], rep[v], v);
    }
  }
}
