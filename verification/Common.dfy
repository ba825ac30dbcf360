// Shared vocabulary: result types, the byte-wise string order, whitespace trimming, and
// the "<length>:<bytes>|" field encoding that several components hash.

module Wrappers {
  datatype Option<+T> = None | Some(value: T)

  datatype Result<+T, +E> = Ok(value: T) | Err(error: E)
}

module Text {
  // The characters Go's unicode.IsSpace accepts.
  predicate IsSpace(c: char) {
    || '\t' <= c <= '\r'
    || c == ' '
    || c == '\U{85}' || c == '\U{A0}' || c == '\U{1680}'
    || '\U{2000}' <= c <= '\U{200A}'
    || c == '\U{2028}' || c == '\U{2029}' || c == '\U{202F}' || c == '\U{205F}' || c == '\U{3000}'
  }

  // By their code points: below 128 the space and the five controls from tab to carriage return.
  lemma SpacesAre(c: char)
    ensures IsSpace(c) <==>
      || c as int == 32 || 9 <= c as int <= 13 || c as int == 0x85 || c as int == 0xA0 || c as int == 0x1680
      || 0x2000 <= c as int <= 0x200A || c as int == 0x2028 || c as int == 0x2029 || c as int == 0x202F
      || c as int == 0x205F || c as int == 0x3000
  {
  }

  function TrimLeft(s: string): (r: string)
    ensures |r| <= |s|
  {
    if s != [] && IsSpace(s[0]) then TrimLeft(s[1..]) else s
  }

  function TrimRight(s: string): (r: string)
    ensures |r| <= |s|
  {
    if s != [] && IsSpace(s[|s| - 1]) then TrimRight(s[..|s| - 1]) else s
  }

  function TrimSpace(s: string): string {
    TrimRight(TrimLeft(s))
  }

  predicate AllSpaces(s: string) {
    forall c | c in s :: IsSpace(c)
  }

  // Nothing to trim: empty, or without a space at either end.
  predicate IsTrimmed(s: string) {
    s == "" || (!IsSpace(s[0]) && !IsSpace(s[|s| - 1]))
  }

  lemma {:induction false} TrimLeftCuts(before: string, s: string)
    requires AllSpaces(before) && (s == "" || !IsSpace(s[0]))
    ensures TrimLeft(before + s) == s
  {
    hide IsSpace;
    if before == "" {
      assert before + s == s;
    } else {
      assert (before + s)[1..] == before[1..] + s;
      TrimLeftCuts(before[1..], s);
    }
  }

  lemma {:induction false} TrimRightCuts(s: string, after: string)
    requires AllSpaces(after) && (s == "" || !IsSpace(s[|s| - 1]))
    ensures TrimRight(s + after) == s
  {
    hide IsSpace;
    if after == "" {
      assert s + after == s;
    } else {
      var n := |after| - 1;
      assert (s + after)[..|s + after| - 1] == s + after[..n];
      TrimRightCuts(s, after[..n]);
    }
  }

  // Trimming takes the spaces off both ends and nothing else.
  lemma TrimSpaceCuts(before: string, s: string, after: string)
    requires AllSpaces(before) && AllSpaces(after) && IsTrimmed(s)
    ensures TrimSpace(before + s + after) == s
  {
    hide IsSpace, TrimLeft, TrimRight;
    if s == "" {
      assert before + s + after == (before + after) + "";
      TrimLeftCuts(before + after, "");
      TrimRightCuts("", "");
      assert "" + "" == "";
    } else {
      assert before + s + after == before + (s + after);
      TrimLeftCuts(before, s + after);
      TrimRightCuts(s, after);
    }
  }

  lemma TrimKeepsUnspaced(s: string)
    requires forall c | c in s :: !IsSpace(c)
    ensures TrimSpace(s) == s
  {
  }

  lemma {:induction false} TrimLeftIs(s: string)
    ensures TrimLeft(s) == "" || !IsSpace(TrimLeft(s)[0])
    ensures s != "" && !IsSpace(s[|s| - 1]) ==> TrimLeft(s) != "" && TrimLeft(s)[|TrimLeft(s)| - 1] == s[|s| - 1]
  {
    hide IsSpace;
    if s != "" && IsSpace(s[0]) {
      TrimLeftIs(s[1..]);
    }
  }

  lemma {:induction false} TrimRightIs(s: string)
    ensures TrimRight(s) == "" || !IsSpace(TrimRight(s)[|TrimRight(s)| - 1])
    ensures TrimRight(s) <= s
  {
    hide IsSpace;
    if s != "" && IsSpace(s[|s| - 1]) {
      TrimRightIs(s[..|s| - 1]);
    }
  }

  // What was trimmed is trimmed.
  lemma TrimTwice(s: string)
    ensures IsTrimmed(TrimSpace(s)) && TrimSpace(TrimSpace(s)) == TrimSpace(s)
  {
    hide IsSpace, TrimLeft, TrimRight;
    TrimLeftIs(s);
    TrimRightIs(TrimLeft(s));
    var t := TrimSpace(s);
    TrimSpaceCuts("", t, "");
    assert "" + t + "" == t;
  }

  // A text is what trimming leaves of it with spaces around.
  lemma TrimSplits(s: string) returns (before: string, after: string)
    ensures s == before + TrimSpace(s) + after && AllSpaces(before) && AllSpaces(after)
  {
    hide IsSpace;
    before := TrimLeftSplits(s);
    after := TrimRightSplits(TrimLeft(s));
    assert s == before + (TrimSpace(s) + after);
  }

  lemma {:induction false} TrimLeftSplits(s: string) returns (before: string)
    ensures s == before + TrimLeft(s) && AllSpaces(before)
  {
    hide IsSpace;
    before := "";
    if s != "" && IsSpace(s[0]) {
      var rest := TrimLeftSplits(s[1..]);
      before := [s[0]] + rest;
    }
  }

  lemma {:induction false} TrimRightSplits(s: string) returns (after: string)
    ensures s == TrimRight(s) + after && AllSpaces(after)
  {
    hide IsSpace;
    after := "";
    if s != "" && IsSpace(s[|s| - 1]) {
      var rest := TrimRightSplits(s[..|s| - 1]);
      after := rest + [s[|s| - 1]];
      assert s == s[..|s| - 1] + [s[|s| - 1]];
    }
  }

  // strings.ToLower on ASCII letters.
  function ToLower(s: string): string {
    if s == [] then []
    else [if 'A' <= s[0] <= 'Z' then (s[0] as int + 32) as char else s[0]] + ToLower(s[1..])
  }

  // Letter by letter: the upper-case letters moved to their lower-case ones, the rest as it was.
  lemma {:induction false} ToLowerLetters(s: string)
    ensures |ToLower(s)| == |s|
    ensures forall i | 0 <= i < |s| ::
      ToLower(s)[i] as int == if 'A' <= s[i] <= 'Z' then s[i] as int + 32 else s[i] as int
  {
    if s != "" {
      ToLowerLetters(s[1..]);
    }
  }

  // The text reads as the name, upper-case letters apart.
  predicate FoldsTo(s: string, name: string) {
    |s| == |name|
    && forall i | 0 <= i < |s| :: name[i] as int == if 'A' <= s[i] <= 'Z' then s[i] as int + 32 else s[i] as int
  }

  lemma FoldsToIsToLower(s: string, name: string)
    ensures FoldsTo(s, name) <==> ToLower(s) == name
  {
    ToLowerLetters(s);
    hide ToLower;
    if FoldsTo(s, name) {
      assert forall i | 0 <= i < |s| :: ToLower(s)[i] == name[i];
    }
  }

  // The order Go's < puts on strings.
  predicate Less(a: string, b: string) {
    if b == [] then false
    else if a == [] then true
    else if a[0] != b[0] then a[0] < b[0]
    else Less(a[1..], b[1..])
  }

  // The first difference decides; a text comes after its own beginning.
  ghost predicate DiffersAt(a: string, b: string, i: nat) {
    i <= |a| && i < |b| && a[..i] == b[..i] && (i == |a| || a[i] < b[i])
  }

  lemma {:induction false} LessIsTheFirstDifference(a: string, b: string)
    ensures Less(a, b) <==> exists i: nat :: DiffersAt(a, b, i)
  {
    if a == [] {
      assert b != [] ==> DiffersAt(a, b, 0);
    } else if b != [] {
      if a[0] != b[0] {
        assert a[0] < b[0] ==> DiffersAt(a, b, 0);
        assert forall i: nat | 0 < i <= |a| && i < |b| :: a[..i][0] != b[..i][0];
      } else {
        LessIsTheFirstDifference(a[1..], b[1..]);
        if i: nat :| DiffersAt(a[1..], b[1..], i) {
          assert a[..i + 1] == [a[0]] + a[1..][..i] && b[..i + 1] == [b[0]] + b[1..][..i];
          assert DiffersAt(a, b, i + 1);
        }
        if i: nat :| DiffersAt(a, b, i) {
          assert i > 0 && a[1..][..i - 1] == a[..i][1..] && b[1..][..i - 1] == b[..i][1..];
          assert DiffersAt(a[1..], b[1..], i - 1);
        }
      }
    }
  }

  lemma {:induction false} LessIrreflexive(a: string)
    ensures !Less(a, a)
  {
    if a != [] {
      LessIrreflexive(a[1..]);
    }
  }

  lemma {:induction false} LessTransitive(a: string, b: string, c: string)
    requires Less(a, b) && Less(b, c)
    ensures Less(a, c)
  {
    if a != [] && a[0] == b[0] && b[0] == c[0] {
      LessTransitive(a[1..], b[1..], c[1..]);
    }
  }

  lemma {:induction false} LessTotal(a: string, b: string)
    ensures a == b || Less(a, b) || Less(b, a)
  {
    if a != [] && b != [] && a[0] == b[0] {
      LessTotal(a[1..], b[1..]);
      if a[1..] == b[1..] {
        assert a == [a[0]] + a[1..] && b == [b[0]] + b[1..];
      }
    }
  }

  lemma LessAsymmetric(a: string, b: string)
    requires Less(a, b)
    ensures !Less(b, a)
  {
    if Less(b, a) {
      LessTransitive(a, b, a);
      LessIrreflexive(a);
    }
  }
}

// fmt.Fprintf(h, "%d:%s|", len(f), f), field after field.
module FieldEncoding {
  function Digit(n: nat): char
    requires n < 10
  {
    "0123456789"[n]
  }

  function Decimal(n: nat): string {
    if n < 10 then [Digit(n)] else Decimal(n / 10) + [Digit(n % 10)]
  }

  predicate IsDigit(c: char) {
    '0' <= c <= '9'
  }

  lemma {:induction false} DecimalShape(n: nat)
    ensures |Decimal(n)| > 0
    ensures forall c | c in Decimal(n) :: IsDigit(c)
    ensures n >= 10 ==> |Decimal(n)| > 1
  {
    if n >= 10 {
      DecimalShape(n / 10);
    }
  }

  // The number a text of digits stands for.
  ghost function NumberOf(s: string): int {
    if s == [] then 0 else 10 * NumberOf(s[..|s| - 1]) + (s[|s| - 1] as int - '0' as int)
  }

  // A number is written in its digits, without leading zeros.
  lemma {:induction false} DecimalReads(n: nat)
    ensures NumberOf(Decimal(n)) == n && (n > 0 ==> Decimal(n)[0] != '0')
    ensures |Decimal(n)| > 0 && Decimal(0) == "0"
  {
    if n >= 10 {
      DecimalReads(n / 10);
      assert Decimal(n)[..|Decimal(n)| - 1] == Decimal(n / 10);
    } else {
      assert Decimal(n)[..0] == [];
    }
  }

  lemma {:induction false} DecimalInjective(m: nat, n: nat)
    requires Decimal(m) == Decimal(n)
    ensures m == n
  {
    DecimalShape(m);
    DecimalShape(n);
    if m >= 10 && n >= 10 {
      var a, b := Decimal(m), Decimal(n);
      assert a[..|a| - 1] == Decimal(m / 10);
      assert b[..|b| - 1] == Decimal(n / 10);
      DecimalInjective(m / 10, n / 10);
      assert a[|a| - 1] == Digit(m % 10) && b[|b| - 1] == Digit(n % 10);
    }
  }

  // A length, a colon, the text, an end mark.
  function Framed(f: string, end: char): string {
    Decimal(|f|) + ":" + f + [end]
  }

  function Field(f: string): string {
    Framed(f, '|')
  }

  function Fields(fs: seq<string>): string {
    if fs == [] then "" else Field(fs[0]) + Fields(fs[1..])
  }

  // Field after field: its length, a colon, itself, a bar.
  lemma {:induction false} FieldsSnoc(fs: seq<string>, f: string)
    ensures Fields([]) == "" && Fields(fs + [f]) == Fields(fs) + (Decimal(|f|) + ":" + f + "|")
  {
    if fs == [] {
      assert (fs + [f])[1..] == [];
      assert Fields(fs + [f]) == Field(f) + "";
    } else {
      assert (fs + [f])[1..] == fs[1..] + [f];
      FieldsSnoc(fs[1..], f);
      hide Decimal;
      assert Field(fs[0]) + (Fields(fs[1..]) + (Decimal(|f|) + ":" + f + "|"))
          == Field(fs[0]) + Fields(fs[1..]) + (Decimal(|f|) + ":" + f + "|");
    }
  }

  // Two texts cut at their first separator agree on both sides of it.
  lemma SplitAtSeparator(a: string, x: string, b: string, y: string, sep: char)
    requires sep !in a && sep !in b
    requires a + [sep] + x == b + [sep] + y
    ensures a == b && x == y
  {
    var left, right := a + [sep] + x, b + [sep] + y;
    assert left[|a|] == sep && right[|b|] == sep;
    assert forall i | 0 <= i < |a| :: left[i] == a[i] != sep;
    assert forall i | 0 <= i < |b| :: right[i] == b[i] != sep;
    assert |a| == |b|;
    assert left[..|a|] == a && right[..|b|] == b;
    assert left[|a| + 1..] == x && right[|b| + 1..] == y;
  }

  // One framed text can be cut off the front of another in only one way.
  lemma FramePrefixFree(f: string, r: string, g: string, s: string, end: char)
    requires Framed(f, end) + r == Framed(g, end) + s
    ensures f == g && r == s
  {
    DecimalShape(|f|);
    DecimalShape(|g|);
    var x, y := f + [end] + r, g + [end] + s;
    assert Decimal(|f|) + [':'] + x == Framed(f, end) + r;
    assert Decimal(|g|) + [':'] + y == Framed(g, end) + s;
    SplitAtSeparator(Decimal(|f|), x, Decimal(|g|), y, ':');
    DecimalInjective(|f|, |g|);
    assert x[..|f|] == f && y[..|g|] == g;
    assert x[|f| + 1..] == r && y[|g| + 1..] == s;
  }

  // The whole encoding is injective, whatever bytes the fields hold.
  lemma {:induction false} FieldsInjective(fs: seq<string>, gs: seq<string>)
    requires Fields(fs) == Fields(gs)
    ensures fs == gs
  {
    if fs != [] && gs != [] {
      FramePrefixFree(fs[0], Fields(fs[1..]), gs[0], Fields(gs[1..]), '|');
      FieldsInjective(fs[1..], gs[1..]);
      assert fs == [fs[0]] + fs[1..] && gs == [gs[0]] + gs[1..];
    }
  }
}

module Collections {
  // The keys not visited before, first copies only, in order.
  ghost function FreshKeys(visited: set<string>, keys: seq<string>): seq<string> {
    if keys == [] then []
    else
      var init, last := FreshKeys(visited, keys[..|keys| - 1]), keys[|keys| - 1];
      if last in visited || last in init then init else init + [last]
  }

  ghost function ToSet<T>(s: seq<T>): set<T> {
    set x | x in s
  }

  lemma {:induction false} FreshKeysShape(visited: set<string>, keys: seq<string>)
    ensures ToSet(FreshKeys(visited, keys)) == ToSet(keys) - visited
    ensures forall i, j | 0 <= i < j < |FreshKeys(visited, keys)| ::
      FreshKeys(visited, keys)[i] != FreshKeys(visited, keys)[j]
  {
    if keys != [] {
      var init, last := keys[..|keys| - 1], keys[|keys| - 1];
      FreshKeysShape(visited, init);
      assert ToSet(keys) == ToSet(init) + {last};
      var f := FreshKeys(visited, init);
      assert last in f <==> last in ToSet(f);
      assert ToSet(f + [last]) == ToSet(f) + {last};
    }
  }

  lemma FreshKeysSnoc(visited: set<string>, keys: seq<string>, key: string)
    ensures FreshKeys(visited, keys + [key])
         == if key in visited + ToSet(FreshKeys(visited, keys)) then FreshKeys(visited, keys)
            else FreshKeys(visited, keys) + [key]
  {
    assert (keys + [key])[..|keys|] == keys;
  }

  lemma ToSetSnoc<T>(s: seq<T>, i: nat)
    requires i < |s|
    ensures ToSet(s[..i + 1]) == ToSet(s[..i]) + {s[i]}
  {
    assert s[..i + 1] == s[..i] + [s[i]];
  }

  lemma SmallerMisses<T>(small: set<T>, big: set<T>)
    requires small < big
    ensures exists x :: x in big && x !in small
  {
    var gap := big - small;
    assert small + gap == big;
    var x :| x in gap;
  }

  // ---------------------------------------------------------------- order-keeping unions

  lemma FreshKeysStep(visited: set<string>, keys: seq<string>, key: string)
    ensures FreshKeys(visited, keys + [key])
         == FreshKeys(visited, keys) + (if key in visited + ToSet(keys) then [] else [key])
  {
    FreshKeysSnoc(visited, keys, key);
    FreshKeysShape(visited, keys);
  }

  // The keys kept from a concatenation: those of the left part, then those of the right part
  // the left does not already hold.
  lemma {:induction false} FreshKeysConcat(visited: set<string>, a: seq<string>, b: seq<string>)
    ensures FreshKeys(visited, a + b) == FreshKeys(visited, a) + FreshKeys(visited + ToSet(a), b)
  {
    if b == [] {
      assert a + b == a;
    } else {
      var init, last := b[..|b| - 1], b[|b| - 1];
      FreshKeysConcat(visited, a, init);
      FreshKeysStep(visited, a + init, last);
      FreshKeysStep(visited + ToSet(a), init, last);
      assert ToSet(a + init) == ToSet(a) + ToSet(init);
      assert (a + init) + [last] == a + b && init + [last] == b;
    }
  }

  // Filtering what was already filtered under fewer exclusions changes nothing.
  lemma {:induction false} FreshKeysAbsorb(visited: set<string>, more: set<string>, a: seq<string>)
    ensures FreshKeys(visited + more, FreshKeys(visited, a)) == FreshKeys(visited + more, a)
  {
    if a != [] {
      var init, last := a[..|a| - 1], a[|a| - 1];
      FreshKeysAbsorb(visited, more, init);
      assert a == init + [last];
      FreshKeysSnoc(visited, init, last);
      FreshKeysSnoc(visited + more, init, last);
      FreshKeysShape(visited, init);
      FreshKeysShape(visited + more, init);
      if last !in visited + ToSet(FreshKeys(visited, init)) {
        FreshKeysSnoc(visited + more, FreshKeys(visited, init), last);
      }
    }
  }
}

// sort.Strings on keys that are all different.
module SortedKeys {
  import opened Text

  predicate Sorted(keys: seq<string>) {
    forall i, j | 0 <= i < j < |keys| :: Less(keys[i], keys[j])
  }

  // Sorting leaves one order only.
  lemma {:induction false} SortedIsUnique(a: seq<string>, b: seq<string>)
    requires Sorted(a) && Sorted(b) && forall k :: k in a <==> k in b
    ensures a == b
  {
    hide Less;
    assert b != [] ==> b[0] in a;
    assert a != [] ==> a[0] in b;
    if a != [] {
      var i :| 0 <= i < |a| && a[i] == b[0];
      var j :| 0 <= j < |b| && b[j] == a[0];
      if i > 0 && j > 0 {
        LessAsymmetric(a[0], b[0]);
      }
      assert a[0] == b[0];
      var s, t := a[1..], b[1..];
      assert a == [a[0]] + s && b == [b[0]] + t;
      LessIrreflexive(a[0]);
      forall k ensures k in s <==> k in t {
        assert k in a <==> k == a[0] || k in s;
        assert k in b <==> k == b[0] || k in t;
        assert a[0] !in s && b[0] !in t;
      }
      SortedIsUnique(s, t);
    }
  }

  // Insertion of a new key among sorted ones.
  function Place(keys: seq<string>, k: string): seq<string> {
    if keys == [] || Less(k, keys[0]) then [k] + keys else [keys[0]] + Place(keys[1..], k)
  }

  lemma {:induction false} PlaceSorted(keys: seq<string>, k: string)
    requires Sorted(keys) && k !in keys
    ensures Sorted(Place(keys, k)) && forall l :: l in Place(keys, k) <==> l in keys || l == k
  {
    hide Less;
    if keys != [] {
      var rest := keys[1..];
      assert keys == [keys[0]] + rest;
      if Less(k, keys[0]) {
        forall i | 0 <= i < |keys| ensures Less(k, keys[i]) {
          if i > 0 {
            LessTransitive(k, keys[0], keys[i]);
          }
        }
      } else {
        PlaceSorted(rest, k);
        LessTotal(k, keys[0]);
        var placed := Place(rest, k);
        forall i | 0 <= i < |placed| ensures Less(keys[0], placed[i]) {
          assert placed[i] in placed;
          if placed[i] != k {
            var j :| 0 <= j < |rest| && rest[j] == placed[i];
            assert keys[j + 1] == placed[i];
          }
        }
      }
    }
  }
}

// A ReplacingMergeTree: rows are only ever appended, and a reader that collapses versions gets
// the newest row of each key, the most recently inserted one among equal versions.
module Replacing {
  import opened Wrappers

  datatype Row<T> = Row(key: string, version: nat, value: T)

  function Newer<T>(a: Option<Row<T>>, b: Option<Row<T>>): Option<Row<T>> {
    if b.None? then a
    else if a.Some? && a.value.version > b.value.version then a
    else b
  }

  function Newest<T>(rows: seq<Row<T>>, key: string): Option<Row<T>> {
    if rows == [] then None
    else
      var last := rows[|rows| - 1];
      Newer(Newest(rows[..|rows| - 1], key), if last.key == key then Some(last) else None)
  }

  lemma {:induction false} NewestConcat<T>(a: seq<Row<T>>, b: seq<Row<T>>, key: string)
    ensures Newest(a + b, key) == Newer(Newest(a, key), Newest(b, key))
  {
    if b == [] {
      assert a + b == a;
    } else {
      var init, last := b[..|b| - 1], b[|b| - 1];
      NewestConcat(a, init, key);
      assert (a + b)[..|a + b| - 1] == a + init && (a + b)[|a + b| - 1] == last;
    }
  }

  // The newest row is one of the rows, and no row of its key has a higher version.
  lemma {:induction false} NewestIsMaximal<T>(rows: seq<Row<T>>, key: string)
    ensures Newest(rows, key).None? <==> forall r | r in rows :: r.key != key
    ensures Newest(rows, key).Some? ==>
      var n := Newest(rows, key).value;
      n in rows && n.key == key && forall r | r in rows && r.key == key :: r.version <= n.version
  {
    if rows != [] {
      var init, last := rows[..|rows| - 1], rows[|rows| - 1];
      NewestIsMaximal(init, key);
      assert rows == init + [last];
    }
  }
}
