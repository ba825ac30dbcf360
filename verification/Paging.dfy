// One page of an event search, and the walk over all of them (backend/internal/query/builder.go,
// backend/internal/data/clickhouse/search.go).
//
// A table is the sequence of its physical copies in whatever order its parts hold them; several
// copies may carry one id. A query orders the copies that pass its WHERE clause, keeps one copy
// per id, and takes one row more than a page.

module Paging {
  import opened Wrappers
  import opened Text
  import opened Bytes
  import opened Cursors

  // `sort` is the millisecond time the page order uses; `payload` stands for the other columns.
  datatype Row = Row(sort: Int64, id: ByteString, version: nat, payload: string)

  // The caller's conditions: a half-open time range and the payloads the other filters accept.
  datatype EventQuery = EventQuery(start: int, end: int, accepted: set<string>)

  predicate Matches(q: EventQuery, row: Row) {
    q.start <= row.sort < q.end && row.payload in q.accepted
  }

  function PositionOf(row: Row): Cursor {
    Cursor(row.sort, row.id)
  }

  predicate Below(p: Cursor, c: Cursor) {
    TupleLess(p.eventTime, p.id, c.eventTime, c.id)
  }

  // The keyset predicate, absent on the first page.
  predicate Passes(cursor: Cursor, p: Cursor) {
    IsZero(cursor) || Below(p, cursor)
  }

  lemma BelowIsAStrictOrder(a: Cursor, b: Cursor, c: Cursor)
    ensures !Below(a, a)
    ensures Below(a, b) && Below(b, c) ==> Below(a, c)
    ensures a != b ==> Below(a, b) != Below(b, a)
  {
    AfterIsTheTupleComparison(c, b, a);
    AfterIsTheTupleComparison(a, b, a);
  }

  // ---------------------------------------------------------------- ORDER BY ... LIMIT 1 BY

  function Select(table: seq<Row>, q: EventQuery, cursor: Cursor): seq<Row> {
    if table == [] then []
    else
      var init, last := Select(table[..|table| - 1], q, cursor), table[|table| - 1];
      if Matches(q, last) && Passes(cursor, PositionOf(last)) then init + [last] else init
  }

  // ORDER BY sort DESC, id DESC, version DESC.
  predicate Ahead(a: Row, b: Row) {
    Below(PositionOf(b), PositionOf(a)) || (PositionOf(a) == PositionOf(b) && a.version > b.version)
  }

  function Place(sorted: seq<Row>, row: Row): seq<Row> {
    if sorted == [] then [row]
    else if Ahead(row, sorted[0]) then [row] + sorted
    else [sorted[0]] + Place(sorted[1..], row)
  }

  function OrderBy(rows: seq<Row>): seq<Row> {
    if rows == [] then [] else Place(OrderBy(rows[..|rows| - 1]), rows[|rows| - 1])
  }

  function Ids(rows: seq<Row>): set<string> {
    set r | r in rows :: r.id
  }

  // LIMIT 1 BY id: the first copy of each id survives.
  function Dedupe(sorted: seq<Row>): seq<Row> {
    if sorted == [] then []
    else
      var init, last := Dedupe(sorted[..|sorted| - 1]), sorted[|sorted| - 1];
      if last.id in Ids(init) then init else init + [last]
  }

  // Everything a query returns before its LIMIT.
  function Answer(table: seq<Row>, q: EventQuery, cursor: Cursor): seq<Row> {
    Dedupe(OrderBy(Select(table, q, cursor)))
  }

  predicate Ordered(rows: seq<Row>) {
    forall i, j | 0 <= i < j < |rows| :: !Ahead(rows[j], rows[i])
  }

  predicate Descending(rows: seq<Row>) {
    forall i, j | 0 <= i < j < |rows| :: Below(PositionOf(rows[j]), PositionOf(rows[i]))
  }

  lemma {:induction false} SelectShape(table: seq<Row>, q: EventQuery, cursor: Cursor, r: Row)
    ensures r in Select(table, q, cursor)
       <==> r in table && Matches(q, r) && Passes(cursor, PositionOf(r))
  {
    if table != [] {
      var init, last := table[..|table| - 1], table[|table| - 1];
      SelectShape(init, q, cursor, r);
      assert table == init + [last];
    }
  }

  lemma AheadOrder(a: Row, b: Row, c: Row)
    ensures !Ahead(a, a)
    ensures Ahead(a, b) ==> !Ahead(b, a)
    ensures !Ahead(b, a) && !Ahead(c, b) ==> !Ahead(c, a)
    ensures !Ahead(b, a) && a.id != b.id ==> Below(PositionOf(b), PositionOf(a))
  {
    hide TupleLess;
    BelowIsAStrictOrder(PositionOf(a), PositionOf(b), PositionOf(c));
    BelowIsAStrictOrder(PositionOf(c), PositionOf(b), PositionOf(a));
    BelowIsAStrictOrder(PositionOf(a), PositionOf(c), PositionOf(b));
    BelowIsAStrictOrder(PositionOf(b), PositionOf(a), PositionOf(c));
    BelowIsAStrictOrder(PositionOf(b), PositionOf(c), PositionOf(a));
  }

  lemma {:induction false} PlaceShape(sorted: seq<Row>, row: Row)
    requires Ordered(sorted)
    ensures Ordered(Place(sorted, row))
    ensures forall r :: r in Place(sorted, row) <==> r in sorted || r == row
  {
    hide Ahead;
    if sorted != [] {
      if Ahead(row, sorted[0]) {
        AheadOrder(row, sorted[0], row);
        forall i | 0 <= i < |sorted| ensures !Ahead(sorted[i], row) {
          AheadOrder(row, sorted[0], sorted[i]);
        }
      } else {
        var rest := sorted[1..];
        assert sorted == [sorted[0]] + rest;
        PlaceShape(rest, row);
        var placed := Place(rest, row);
        forall i | 0 <= i < |placed| ensures !Ahead(placed[i], sorted[0]) {
          assert placed[i] in placed;
        }
      }
    }
  }

  lemma {:induction false} OrderByShape(rows: seq<Row>)
    ensures Ordered(OrderBy(rows))
    ensures forall r :: r in OrderBy(rows) <==> r in rows
  {
    if rows != [] {
      var init, last := rows[..|rows| - 1], rows[|rows| - 1];
      OrderByShape(init);
      PlaceShape(OrderBy(init), last);
      assert rows == init + [last];
    }
  }

  // No surviving copy is behind another copy of its id, every id survives, and what survives is
  // strictly descending.
  ghost predicate IsDeduped(sorted: seq<Row>, kept: seq<Row>) {
    && Descending(kept)
    && Ids(kept) == Ids(sorted)
    && (forall r | r in kept :: r in sorted)
    && (forall r, s | r in kept && s in sorted && r.id == s.id :: !Ahead(s, r))
  }

  lemma DedupeStep(init: seq<Row>, kept: seq<Row>, last: Row)
    requires IsDeduped(init, kept) && forall r | r in init :: !Ahead(last, r)
    ensures IsDeduped(init + [last], if last.id in Ids(kept) then kept else kept + [last])
  {
    hide Ahead, Below;
    var sorted := init + [last];
    assert Ids(sorted) == Ids(init) + {last.id};
    AheadOrder(last, last, last);
    if last.id !in Ids(kept) {
      var longer := kept + [last];
      assert Ids(longer) == Ids(kept) + {last.id};
      forall r | r in init ensures r.id != last.id {
        assert r.id in Ids(init);
      }
      forall i | 0 <= i < |kept| ensures Below(PositionOf(last), PositionOf(kept[i])) {
        assert kept[i] in init;
        AheadOrder(kept[i], last, last);
      }
    }
  }

  lemma {:induction false} DedupeShape(sorted: seq<Row>)
    requires Ordered(sorted)
    ensures IsDeduped(sorted, Dedupe(sorted))
  {
    if sorted != [] {
      var init, last := sorted[..|sorted| - 1], sorted[|sorted| - 1];
      hide Ahead, IsDeduped;
      DedupeShape(init);
      assert sorted == init + [last];
      DedupeStep(init, Dedupe(init), last);
    } else {
      assert Dedupe(sorted) == [];
    }
  }

  predicate Eligible(table: seq<Row>, q: EventQuery, cursor: Cursor, r: Row) {
    r in table && Matches(q, r) && Passes(cursor, PositionOf(r))
  }

  // What one query returns: strictly descending positions, only eligible copies, one for each id
  // that has an eligible copy, and the one no other eligible copy of the id is ahead of.
  lemma AnswerShape(table: seq<Row>, q: EventQuery, cursor: Cursor)
    ensures Descending(Answer(table, q, cursor))
    ensures forall r | r in Answer(table, q, cursor) :: Eligible(table, q, cursor, r)
    ensures forall r | Eligible(table, q, cursor, r) :: r.id in Ids(Answer(table, q, cursor))
    ensures forall r, s | r in Answer(table, q, cursor) && Eligible(table, q, cursor, s) && r.id == s.id ::
      !Ahead(s, r)
  {
    hide Ahead, Matches, Passes, Descending, Dedupe, OrderBy, Select;
    var selected := Select(table, q, cursor);
    OrderByShape(selected);
    DedupeShape(OrderBy(selected));
    forall r ensures r in selected <==> Eligible(table, q, cursor, r) {
      SelectShape(table, q, cursor, r);
    }
    forall r | Eligible(table, q, cursor, r) ensures r.id in Ids(OrderBy(selected)) {
      assert r in selected;
    }
  }

  // A row the query asks for: in its half-open time range, accepted by its other filters, and past the
  // last row of the page before, being older or as old with a smaller id; no page is before the first.
  ghost predicate Wanted(q: EventQuery, cursor: Cursor, r: Row) {
    && q.start <= r.sort && r.sort < q.end && r.payload in q.accepted
    && (|| (cursor.eventTime == -62_135_596_800_000 && cursor.id == "")
        || r.sort < cursor.eventTime
        || (r.sort == cursor.eventTime && SmallerText(r.id, cursor.id)))
  }

  ghost predicate SmallerText(a: string, b: string) {
    exists i :: DiffersAt(a, b, i)
  }

  // A page is asked for in newest-first order: later times first, larger ids first within a time. It
  // holds one copy of each id with a wanted copy: a latest one, and of those the newest version.
  lemma PagesSay(table: seq<Row>, q: EventQuery, cursor: Cursor)
    ensures forall r | r in Answer(table, q, cursor) :: r in table && Wanted(q, cursor, r)
    ensures forall r | r in table && Wanted(q, cursor, r) :: exists s :: s in Answer(table, q, cursor) && s.id == r.id
    ensures forall i, j | 0 <= i < j < |Answer(table, q, cursor)| ::
      var a, b := Answer(table, q, cursor)[i], Answer(table, q, cursor)[j];
      b.sort < a.sort || (b.sort == a.sort && SmallerText(b.id, a.id))
    ensures forall r, s | r in Answer(table, q, cursor) && s in table && Wanted(q, cursor, s) && r.id == s.id ::
      s.sort < r.sort || (s.sort == r.sort && s.version <= r.version)
  {
    hide Answer;
    AnswerShape(table, q, cursor);
    forall r: Row ensures Matches(q, r) && Passes(cursor, PositionOf(r)) <==> Wanted(q, cursor, r) {
      LessIsTheFirstDifference(r.id, cursor.id);
    }
    forall a: Row, b: Row ensures Below(PositionOf(b), PositionOf(a))
      <==> b.sort < a.sort || (b.sort == a.sort && SmallerText(b.id, a.id))
    {
      LessIsTheFirstDifference(b.id, a.id);
    }
    hide Wanted, Matches, Passes, Below, SmallerText;
    forall r, s | r in Answer(table, q, cursor) && s in table && Wanted(q, cursor, s) && r.id == s.id
      ensures s.sort < r.sort || (s.sort == r.sort && s.version <= r.version)
    {
      assert Eligible(table, q, cursor, s);
      NotAhead(r, s);
    }
  }

  // Of two copies of one id, the one that is not ahead is older, or as old and of no newer version.
  lemma NotAhead(r: Row, s: Row)
    requires r.id == s.id && !Ahead(s, r)
    ensures s.sort < r.sort || (s.sort == r.sort && s.version <= r.version)
  {
    LessIrreflexive(r.id);
  }

  // A strictly descending sequence whose elements are the top of another's is a prefix of it.
  lemma {:induction false} DescendingPrefix(a: seq<Row>, b: seq<Row>)
    requires Descending(a) && Descending(b)
    requires forall r | r in a :: r in b
    requires forall r, s | r in b && s in a :: r in a || Below(PositionOf(r), PositionOf(s))
    ensures a <= b
  {
    hide Below;
    if a != [] {
      HeadsAgree(a, b);
      var s, t := a[1..], b[1..];
      assert a == [a[0]] + s && b == [b[0]] + t;
      HeadIsNotBelow(a);
      HeadIsNotBelow(b);
      forall r | r in s ensures r in t {
        assert r in a;
      }
      forall r, x | r in t && x in s ensures r in s || Below(PositionOf(r), PositionOf(x)) {
        assert r in b && x in a;
      }
      DescendingPrefix(s, t);
    }
  }

  lemma HeadsAgree(a: seq<Row>, b: seq<Row>)
    requires Descending(a) && Descending(b) && a != []
    requires forall r | r in a :: r in b
    requires forall r, s | r in b && s in a :: r in a || Below(PositionOf(r), PositionOf(s))
    ensures b != [] && a[0] == b[0]
  {
    hide Below;
    assert a[0] in b;
    var j :| 0 <= j < |b| && b[j] == a[0];
    assert b[0] in b && a[0] in a;
    if b[0] in a {
      var i :| 0 <= i < |a| && a[i] == b[0];
    }
    BelowIsAStrictOrder(PositionOf(a[0]), PositionOf(b[0]), PositionOf(a[0]));
  }

  lemma HeadIsNotBelow(a: seq<Row>)
    requires Descending(a) && a != []
    ensures Descending(a[1..]) && a[0] !in a[1..]
  {
    forall i | 1 <= i < |a| ensures a[i] != a[0] {
      BelowIsAStrictOrder(PositionOf(a[0]), PositionOf(a[i]), PositionOf(a[0]));
    }
  }

  // ---------------------------------------------------------------- LIMIT 1 BY against FINAL

  const DAY_MS := 86_400_000

  function DayOf(row: Row): int {
    row.sort / DAY_MS
  }

  // The table's sorting key: the event's date and its id. The vendor beside them is fixed by the id.
  predicate SameKey(r: Row, s: Row) {
    r.id == s.id && DayOf(r) == DayOf(s)
  }

  // Days are counted in milliseconds from the epoch, backwards before it.
  lemma DaysAre(row: Row)
    ensures 86_400_000 * DayOf(row) <= row.sort < 86_400_000 * (DayOf(row) + 1)
  {
  }

  // Two copies under one key with one version are the same row.
  ghost predicate VersionsIdentify(table: seq<Row>) {
    forall r, s | r in table && s in table && SameKey(r, s) && r.version == s.version :: r == s
  }

  ghost predicate IsNewest(table: seq<Row>, r: Row) {
    r in table && forall s | s in table && SameKey(s, r) :: s.version <= r.version
  }

  // What the same query returns over the merged table, the one FINAL reads.
  ghost predicate IsFinalAnswer(table: seq<Row>, q: EventQuery, cursor: Cursor, rows: seq<Row>) {
    && Descending(rows)
    && forall r :: r in rows <==> IsNewest(table, r) && Eligible(table, q, cursor, r)
  }

  // The side condition: the copies of an id that match have one sort value, and the newest copy
  // under the key of one that matches does too.
  ghost predicate CopiesAgree(table: seq<Row>, q: EventQuery) {
    && (forall c, d | c in table && d in table && c.id == d.id && Matches(q, c) && Matches(q, d) :: c.sort == d.sort)
    && (forall c, n | c in table && IsNewest(table, n) && SameKey(c, n) && Matches(q, c) :: Matches(q, n))
  }

  lemma {:induction false} NewestExists(table: seq<Row>, r: Row)
    requires r in table
    ensures exists n :: IsNewest(table, n) && SameKey(n, r)
    decreases |table|
  {
    hide DayOf;
    var init, last := table[..|table| - 1], table[|table| - 1];
    assert table == init + [last];
    if exists s :: s in init && SameKey(s, r) {
      var s :| s in init && SameKey(s, r);
      NewestExists(init, s);
      var n :| IsNewest(init, n) && SameKey(n, s);
      var newest := if SameKey(last, r) && last.version > n.version then last else n;
      assert IsNewest(table, newest);
    } else {
      assert IsNewest(table, last);
    }
  }

  // With the side condition, the cheap query is the FINAL query, from every cursor.
  lemma DedupeIsFinal(table: seq<Row>, q: EventQuery, cursor: Cursor)
    requires VersionsIdentify(table) && CopiesAgree(table, q)
    ensures IsFinalAnswer(table, q, cursor, Answer(table, q, cursor))
  {
    hide Answer, Descending, Matches, TupleLess;
    var rows := Answer(table, q, cursor);
    AnswerShape(table, q, cursor);
    forall r | r in rows ensures IsNewest(table, r) {
      assert Eligible(table, q, cursor, r);
      NewestExists(table, r);
      var n :| IsNewest(table, n) && SameKey(n, r);
      assert PositionOf(n) == PositionOf(r);
      assert Eligible(table, q, cursor, n);
      assert !Ahead(n, r);
      assert n == r;
    }
    forall r | IsNewest(table, r) && Eligible(table, q, cursor, r) ensures r in rows {
      assert r.id in Ids(rows);
      var s :| s in rows && s.id == r.id;
      assert IsNewest(table, s) && Eligible(table, q, cursor, s);
    }
  }

  // Matching copies of one id at two sort values: the first page shows the one on top, and the page
  // after it shows a second copy of the id, which FINAL would have shown on both or on neither.
  lemma MovedCopyIsShownTwice(table: seq<Row>, q: EventQuery, c: Row, d: Row) returns (cursor: Cursor)
    requires forall r | r in table :: r.id != ""
    requires c in table && d in table && c.id == d.id && Matches(q, c) && Matches(q, d) && c.sort > d.sort
    ensures !IsZero(cursor)
    ensures !IsFinalAnswer(table, q, FIRST_PAGE, Answer(table, q, FIRST_PAGE))
         || !IsFinalAnswer(table, q, cursor, Answer(table, q, cursor))
  {
    hide Answer, Descending, Matches, IsNewest;
    var first := Answer(table, q, FIRST_PAGE);
    AnswerShape(table, q, FIRST_PAGE);
    LessIrreflexive(c.id);
    assert Eligible(table, q, FIRST_PAGE, c);
    var r :| r in first && r.id == c.id;
    cursor := PositionOf(r);
    assert !Ahead(c, r);
    var second := Answer(table, q, cursor);
    AnswerShape(table, q, cursor);
    assert Eligible(table, q, cursor, d);
    var s :| s in second && s.id == c.id;
    assert Eligible(table, q, cursor, s) && s.sort < r.sort;
    OncePerID(table, q, r, s);
  }

  lemma OncePerID(table: seq<Row>, q: EventQuery, r: Row, s: Row)
    requires r in Answer(table, q, FIRST_PAGE) && r.id == s.id && s.sort < r.sort
    ensures s !in Answer(table, q, FIRST_PAGE)
  {
    hide Answer, Descending, Matches;
    AnswerShape(table, q, FIRST_PAGE);
    assert s in table && Matches(q, s) ==> Eligible(table, q, FIRST_PAGE, s);
    assert Eligible(table, q, FIRST_PAGE, r);
    LessIrreflexive(r.id);
    assert Ahead(r, s);
  }

  // A copy matches that its key's newest does not: the first page shows what FINAL would not.
  lemma SupersededResurfaces(table: seq<Row>, q: EventQuery, c: Row, n: Row)
    requires VersionsIdentify(table)
    requires c in table && IsNewest(table, n) && SameKey(c, n) && Matches(q, c) && !Matches(q, n)
    requires forall d | d in table && d.id == c.id && Matches(q, d) :: d.sort == c.sort
    ensures !IsFinalAnswer(table, q, FIRST_PAGE, Answer(table, q, FIRST_PAGE))
  {
    hide Answer, Descending, Matches;
    AnswerShape(table, q, FIRST_PAGE);
    assert Eligible(table, q, FIRST_PAGE, c);
    var r :| r in Answer(table, q, FIRST_PAGE) && r.id == c.id;
    assert SameKey(r, n);
    assert !IsNewest(table, r);
  }

  // LIMIT 1 BY may stand in for FINAL exactly when copies agree.
  lemma DedupeReplacesFinalExactlyWhenCopiesAgree(table: seq<Row>, q: EventQuery)
    requires VersionsIdentify(table) && forall r | r in table :: r.id != ""
    ensures CopiesAgree(table, q)
       <==> forall cursor :: IsFinalAnswer(table, q, cursor, Answer(table, q, cursor))
  {
    hide Answer, IsFinalAnswer, Matches, IsNewest;
    if CopiesAgree(table, q) {
      forall cursor ensures IsFinalAnswer(table, q, cursor, Answer(table, q, cursor)) {
        DedupeIsFinal(table, q, cursor);
      }
    } else if c, d :| c in table && d in table && c.id == d.id && Matches(q, c) && Matches(q, d) && c.sort > d.sort {
      var cursor := MovedCopyIsShownTwice(table, q, c, d);
    } else {
      var c, n :| c in table && IsNewest(table, n) && SameKey(c, n) && Matches(q, c) && !Matches(q, n);
      SupersededResurfaces(table, q, c, n);
    }
  }
}
