// Alert suppression (backend/internal/alerting/cooldown.go, and fire in worker.go).

module CooldownKeys {
  import opened Wrappers
  import opened Text
  import opened FieldEncoding
  import opened SortedKeys

  ghost predicate AreSortedKeys(keys: seq<string>, group: map<string, string>) {
    Sorted(keys) && forall k :: k in keys <==> k in group
  }

  function Entry(key: string, value: string): string {
    Framed(key, '=') + Framed(value, ';')
  }

  // What is hashed: every key with its value, both length-prefixed, in key order.
  function Preimage(keys: seq<string>, group: map<string, string>): string
    requires forall k | k in keys :: k in group
  {
    if keys == [] then "" else Entry(keys[0], group[keys[0]]) + Preimage(keys[1..], group)
  }

  // The digest is taken to be ideal, so it is represented by what it digests. A group without
  // values has no digest.
  datatype Key = Key(tenantID: string, ruleID: string, preimage: string)

  lemma EntriesPrefixFree(k: string, v: string, r: string, l: string, w: string, s: string)
    requires Entry(k, v) + r == Entry(l, w) + s
    ensures k == l && v == w && r == s
  {
    hide Framed;
    assert Framed(k, '=') + (Framed(v, ';') + r) == Entry(k, v) + r;
    assert Framed(l, '=') + (Framed(w, ';') + s) == Entry(l, w) + s;
    FramePrefixFree(k, Framed(v, ';') + r, l, Framed(w, ';') + s, '=');
    FramePrefixFree(v, r, w, s, ';');
  }

  lemma EntryIsNotEmpty(k: string, v: string)
    ensures |Entry(k, v)| > 0
  {
  }

  // Equal preimages list the same keys with the same values.
  lemma {:induction false} PreimageInjective(ks: seq<string>, g: map<string, string>, ls: seq<string>, h: map<string, string>)
    requires (forall k | k in ks :: k in g) && (forall k | k in ls :: k in h)
    requires Preimage(ks, g) == Preimage(ls, h)
    ensures ks == ls && forall k | k in ks :: g[k] == h[k]
  {
    hide Entry;
    if ks != [] && ls != [] {
      var k, l := ks[0], ls[0];
      EntriesPrefixFree(k, g[k], Preimage(ks[1..], g), l, h[l], Preimage(ls[1..], h));
      PreimageInjective(ks[1..], g, ls[1..], h);
      assert ks == [k] + ks[1..] && ls == [l] + ls[1..];
    } else if ks != [] {
      EntryIsNotEmpty(ks[0], g[ks[0]]);
    } else if ls != [] {
      EntryIsNotEmpty(ls[0], h[ls[0]]);
    }
  }

  ghost predicate IsKeyOf(key: Key, tenantID: string, ruleID: string, group: map<string, string>) {
    key.tenantID == tenantID && key.ruleID == ruleID
    && exists keys :: AreSortedKeys(keys, group) && key.preimage == Preimage(keys, group)
  }

  // Two claims share a key exactly when tenant, rule and every group value are the same: a group
  // always finds its own cooldown and never another's.
  lemma KeysIdentifyGroups(a: Key, t: string, r: string, g: map<string, string>,
                           b: Key, u: string, s: string, h: map<string, string>)
    requires IsKeyOf(a, t, r, g) && IsKeyOf(b, u, s, h)
    ensures a == b <==> t == u && r == s && g == h
  {
    hide Preimage, Less, Sorted;
    var ks :| AreSortedKeys(ks, g) && a.preimage == Preimage(ks, g);
    var ls :| AreSortedKeys(ls, h) && b.preimage == Preimage(ls, h);
    if a == b {
      PreimageInjective(ks, g, ls, h);
      assert forall k :: k in g <==> k in h;
      assert g == h;
    }
    if g == h {
      SortedIsUnique(ks, ls);
    }
  }

  // Keys leave a Go map in no particular order and are sorted before they are hashed.
  method CooldownKey(tenantID: string, ruleID: string, group: map<string, string>) returns (key: Key)
    ensures IsKeyOf(key, tenantID, ruleID, group)
  {
    if group == map[] {
      assert AreSortedKeys([], group) && Preimage([], group) == "";
      return Key(tenantID, ruleID, "");
    }
    var keys: seq<string>, left := [], group.Keys;
    while left != {}
      invariant left <= group.Keys && Sorted(keys)
      invariant forall k :: k in keys <==> k in group && k !in left
      decreases |left|
    {
      hide Less, Sorted, Place;
      var k :| k in left;
      PlaceSorted(keys, k);
      keys := Place(keys, k);
      left := left - {k};
    }
    var hashed := Hashed(keys, group);
    assert AreSortedKeys(keys, group);
    return Key(tenantID, ruleID, hashed);
  }

  lemma PreimageStep(keys: seq<string>, i: nat, group: map<string, string>)
    requires i < |keys| && forall k | k in keys :: k in group
    ensures Preimage(keys[i..], group) == Entry(keys[i], group[keys[i]]) + Preimage(keys[i + 1..], group)
  {
    hide Entry;
    assert keys[i..][1..] == keys[i + 1..];
  }

  method Hashed(keys: seq<string>, group: map<string, string>) returns (text: string)
    requires forall k | k in keys :: k in group
    ensures text == Preimage(keys, group)
  {
    text := "";
    for i := 0 to |keys|
      invariant text + Preimage(keys[i..], group) == Preimage(keys, group)
    {
      hide Entry, Preimage;
      PreimageStep(keys, i, group);
      ghost var before, rest := text, Preimage(keys[i + 1..], group);
      text := text + Entry(keys[i], group[keys[i]]);
      assert text + rest == before + (Entry(keys[i], group[keys[i]]) + rest);
    }
    assert keys[|keys|..] == [];
  }
}

module Cooldowns {
  import opened Wrappers
  import opened CooldownKeys

  datatype Claim = Claim(key: Key, at: int, cooldown: int)

  // Two claims of one key are at least the earlier one's cooldown apart.
  ghost predicate Spaced(claims: seq<Claim>) {
    forall i, j | 0 <= i < j < |claims| && claims[i].key == claims[j].key ::
      claims[j].at >= claims[i].at + claims[i].cooldown
  }

  // No claim of the key is still running.
  ghost predicate IsFree(claims: seq<Claim>, key: Key, now: int) {
    forall c | c in claims && c.key == key :: c.at + c.cooldown <= now
  }

  // A claim of the key that ends then.
  ghost predicate EndsAt(claims: seq<Claim>, key: Key, end: int) {
    exists c | c in claims :: c.key == key && c.at + c.cooldown == end
  }

  ghost predicate Tracks(claims: seq<Claim>, expires: map<Key, int>, now: int) {
    && (forall c | c in claims :: c.at <= now && c.cooldown > 0)
    && (forall c | c in claims :: c.key in expires && expires[c.key] >= c.at + c.cooldown)
    && (forall k | k in expires :: EndsAt(claims, k, expires[k]))
  }

  // SET NX with a time to live, on the store's own clock, shared by every replica.
  class Store {
    var expires: map<Key, int>
    var now: int
    // Every claim granted so far.
    ghost var claims: seq<Claim>

    constructor (now: int)
      ensures Valid() && claims == []
    {
      expires, this.now, claims := map[], now, [];
    }

    ghost predicate Valid()
      reads this
    {
      Spaced(claims) && Tracks(claims, expires, now)
    }

    method Advance(to: int)
      requires Valid() && now <= to
      modifies this`now
      ensures Valid() && now == to
    {
      now := to;
    }

    method SetNX(key: Key, ttl: int) returns (claimed: bool)
      requires Valid() && ttl > 0
      modifies this`expires, this`claims
      ensures Valid()
      ensures claimed <==> IsFree(old(claims), key, now)
      ensures claims == if claimed then old(claims) + [Claim(key, now, ttl)] else old(claims)
    {
      hide Spaced, Tracks, IsFree;
      FreeExactlyWhen(claims, expires, now, key);
      if key in expires && expires[key] > now {
        return false;
      }
      OneClaimMore(claims, expires, now, key, ttl);
      expires := expires[key := now + ttl];
      claims := claims + [Claim(key, now, ttl)];
      return true;
    }
  }

  // The store holds for each key the end of its latest claim.
  lemma FreeExactlyWhen(claims: seq<Claim>, expires: map<Key, int>, now: int, key: Key)
    requires Tracks(claims, expires, now)
    ensures IsFree(claims, key, now) <==> key !in expires || expires[key] <= now
  {
    if key in expires {
      assert EndsAt(claims, key, expires[key]);
    }
  }

  lemma OneClaimMore(claims: seq<Claim>, expires: map<Key, int>, now: int, key: Key, ttl: int)
    requires Spaced(claims) && Tracks(claims, expires, now) && IsFree(claims, key, now) && ttl > 0
    ensures var longer := claims + [Claim(key, now, ttl)];
      Spaced(longer) && Tracks(longer, expires[key := now + ttl], now)
  {
    var longer, after := claims + [Claim(key, now, ttl)], expires[key := now + ttl];
    assert longer[|claims|] == Claim(key, now, ttl) && forall c | c in claims :: c in longer;
    assert forall i | 0 <= i < |claims| :: longer[i] == claims[i] && claims[i] in claims;
    forall k | k in after ensures EndsAt(longer, k, after[k]) {
      if k != key {
        assert EndsAt(claims, k, expires[k]);
      }
    }
  }

  datatype Allowance = Allowed | Suppressed | StoreFailed

  // How the store takes a call: it answers, it refuses it, or the call lands and the answer is lost.
  datatype Answer = Answers | Refuses | LosesAnswer

  class Cooldown {
    const store: Store

    constructor (store: Store)
      ensures this.store == store
    {
      this.store := store;
    }

    // A claim that is granted allows the alert. A store that does not answer allows nothing, even
    // when the claim it lost the answer to is granted and suppresses what follows.
    method Allow(tenantID: string, ruleID: string, group: map<string, string>, cooldown: int, answer: Answer)
        returns (allowed: Allowance)
      requires store.Valid()
      modifies store
      ensures store.Valid() && store.now == old(store.now)
      ensures cooldown <= 0 ==> allowed == Allowed && store.claims == old(store.claims)
      ensures cooldown > 0 ==> exists key |
        IsKeyOf(key, tenantID, ruleID, group) :: IsClaim(old(store.claims), store.now, key, cooldown, answer, allowed, store.claims)
    {
      if cooldown <= 0 {
        return Allowed;
      }
      var key := CooldownKey(tenantID, ruleID, group);
      if answer.Refuses? {
        return StoreFailed;
      }
      var claimed := store.SetNX(key, cooldown);
      if answer.LosesAnswer? {
        return StoreFailed;
      }
      return if claimed then Allowed else Suppressed;
    }
  }

  // What one claim comes to: granted exactly when no earlier one of its key is still running, and then
  // running for its own cooldown.
  ghost predicate IsClaim(claims: seq<Claim>, now: int, key: Key, cooldown: int, answer: Answer, allowed: Allowance,
                          after: seq<Claim>) {
    var free := IsFree(claims, key, now);
    && allowed == (if !answer.Answers? then StoreFailed else if free then Allowed else Suppressed)
    && after == if free && !answer.Refuses? then claims + [Claim(key, now, cooldown)] else claims
  }

  // An answered claim is suppressed exactly while some earlier one of its key is running; a granted one
  // starts now.
  lemma SuppressedExactlyWhen(claims: seq<Claim>, now: int, key: Key, cooldown: int, allowed: Allowance, after: seq<Claim>)
    requires IsClaim(claims, now, key, cooldown, Answers, allowed, after)
    ensures allowed == Suppressed <==> exists c | c in claims :: c.key == key && now < c.at + c.cooldown
    ensures allowed == Suppressed ==> after == claims
    ensures allowed != Suppressed ==> allowed == Allowed && after == claims + [Claim(key, now, cooldown)]
  {
  }

  // A claim the store refused changes nothing; one whose answer was lost may suppress what follows, but
  // allows nothing.
  lemma UnansweredAllowsNothing(claims: seq<Claim>, now: int, key: Key, cooldown: int, answer: Answer, allowed: Allowance,
                                after: seq<Claim>)
    requires IsClaim(claims, now, key, cooldown, answer, allowed, after) && !answer.Answers?
    ensures allowed == StoreFailed && (answer.Refuses? ==> after == claims)
    ensures answer.LosesAnswer? && cooldown > 0 ==> exists c | c in after :: c.key == key && now < c.at + c.cooldown
  {
    if answer.LosesAnswer? && IsFree(claims, key, now) {
      assert after[|claims|] == Claim(key, now, cooldown);
    }
  }

  // An alert row, with the store's time when its cooldown was claimed.
  datatype Fired = Fired(tenantID: string, ruleID: string, group: map<string, string>, cooldown: int, claimedAt: int)

  // The alerts inserted by every replica, each backed by a claim of its own, in order.
  class Alerts {
    const store: Store
    var rows: seq<Fired>
    // claimOf[i] is the claim behind rows[i]; rows without a cooldown have none.
    ghost var claimOf: seq<nat>

    constructor (store: Store)
      requires store.Valid() && store.claims == []
      ensures this.store == store && rows == [] && Valid()
    {
      this.store := store;
      rows, claimOf := [], [];
    }

    ghost predicate Backed(i: nat)
      requires i < |rows| && |claimOf| == |rows|
      reads this, store
    {
      rows[i].cooldown > 0 ==>
        && claimOf[i] < |store.claims|
        && var c := store.claims[claimOf[i]];
           c.at == rows[i].claimedAt && c.cooldown == rows[i].cooldown
           && IsKeyOf(c.key, rows[i].tenantID, rows[i].ruleID, rows[i].group)
    }

    ghost predicate Valid()
      reads this, store
    {
      && store.Valid()
      && |claimOf| == |rows|
      && (forall i | 0 <= i < |rows| :: Backed(i))
      && (forall i, j | 0 <= i < j < |rows| && rows[i].cooldown > 0 && rows[j].cooldown > 0 :: claimOf[i] < claimOf[j])
    }

    // fire: claim first, insert only what was claimed. An insert that fails leaves the claim taken.
    method Fire(cooldown: Cooldown, tenantID: string, ruleID: string, group: map<string, string>, seconds: int,
                answer: Answer, insertWorks: bool) returns (inserted: bool)
      requires Valid() && cooldown.store == store
      modifies this, store
      ensures Valid() && store.now == old(store.now)
      ensures rows == if inserted then old(rows) + [Fired(tenantID, ruleID, group, seconds, store.now)] else old(rows)
      ensures seconds <= 0 ==> inserted == insertWorks
      ensures seconds > 0 ==> exists key | IsKeyOf(key, tenantID, ruleID, group) ::
        inserted <==> insertWorks && answer.Answers? && IsFree(old(store.claims), key, store.now)
    {
      hide IsKeyOf, Spaced;
      ghost var before := store.claims;
      var allowed := cooldown.Allow(tenantID, ruleID, group, seconds, answer);
      assert before <= store.claims;
      forall i | 0 <= i < |rows| ensures Backed(i) {
        assert old(Backed(i));
      }
      if !allowed.Allowed? || !insertWorks {
        return false;
      }
      rows := rows + [Fired(tenantID, ruleID, group, seconds, store.now)];
      claimOf := claimOf + [|before|];
      forall i | 0 <= i < |rows| ensures Backed(i) {
        assert i < |rows| - 1 ==> old(Backed(i));
      }
      forall i | 0 <= i < |rows| - 1 && rows[i].cooldown > 0 ensures claimOf[i] < |before| {
        assert old(Backed(i));
      }
      return true;
    }

    // At most one alert per cooldown: any two alerts of one tenant, rule and group are at least the
    // first one's cooldown apart, whichever replicas fired them.
    lemma AlertsAreSpaced(i: nat, j: nat)
      requires Valid() && i < j < |rows|
      requires rows[i].cooldown > 0 && rows[j].cooldown > 0
      requires rows[i].tenantID == rows[j].tenantID && rows[i].ruleID == rows[j].ruleID
      requires rows[i].group == rows[j].group
      ensures rows[j].claimedAt >= rows[i].claimedAt + rows[i].cooldown
    {
      assert Backed(i) && Backed(j);
      var a, b := store.claims[claimOf[i]], store.claims[claimOf[j]];
      KeysIdentifyGroups(a.key, rows[i].tenantID, rows[i].ruleID, rows[i].group,
                         b.key, rows[j].tenantID, rows[j].ruleID, rows[j].group);
    }
  }
}
