// The export of an event search: the walk over all its pages
// (backend/internal/service/search.go) and the row cap (backend/internal/query/export.go).

module Exports {
  import opened Wrappers
  import opened Text
  import opened Bytes
  import opened Cursors
  import opened Paging

  const PAGE_SIZE: nat := 100
  const MAX_EXPORT_ROWS: nat := 100_000

  datatype Page = Page(items: seq<Row>, nextCursor: string)

  datatype SearchError = QueryFailed | CursorInvalid | EncodingFailed

  // The lookahead row is dropped, and its presence is what says there is another page.
  function Paginate(items: seq<Row>, pageSize: nat): Page
    requires pageSize > 0
  {
    if |items| > pageSize then Page(items[..pageSize], EncodeCursor(PositionOf(items[pageSize - 1])))
    else Page(items, "")
  }

  // One query with LIMIT pageSize + 1.
  function SearchEvents(table: seq<Row>, q: EventQuery, cursor: Cursor, pageSize: nat): Page
    requires pageSize > 0
  {
    var rows := Answer(table, q, cursor);
    Paginate(if |rows| > pageSize + 1 then rows[..pageSize + 1] else rows, pageSize)
  }

  function Cap(maxRows: int): nat {
    if maxRows <= 0 || maxRows > MAX_EXPORT_ROWS then MAX_EXPORT_ROWS else maxRows
  }

  // A page holds a hundred rows; an export without a usable limit of its own is cut at a hundred
  // thousand.
  lemma LimitsAre(maxRows: int)
    ensures PAGE_SIZE == 100
    ensures 1 <= maxRows <= 100_000 ==> Cap(maxRows) == maxRows
    ensures maxRows < 1 || maxRows > 100_000 ==> Cap(maxRows) == 100_000
  {
  }

  // A page is the first rows of the answer, and names a next page exactly when there are more.
  lemma PageIsTheTop(table: seq<Row>, q: EventQuery, cursor: Cursor, pageSize: nat)
    requires pageSize > 0
    ensures var answer, page := Answer(table, q, cursor), SearchEvents(table, q, cursor, pageSize);
      && page.items == (if |answer| <= pageSize then answer else answer[..pageSize])
      && (page.nextCursor == "" <==> |answer| <= pageSize || IsZero(PositionOf(answer[pageSize - 1])))
      && (|answer| > pageSize ==> page.nextCursor == EncodeCursor(PositionOf(answer[pageSize - 1])))
  {
    hide Answer;
    var answer := Answer(table, q, cursor);
    if |answer| > pageSize {
      hide IsZero, EncodeCursor;
      assert answer[..pageSize + 1][..pageSize] == answer[..pageSize];
      TokenIsEmpty(PositionOf(answer[pageSize - 1]));
    }
  }

  lemma TokenIsEmpty(c: Cursor)
    ensures EncodeCursor(c) == "" <==> IsZero(c)
  {
    if !IsZero(c) {
      PayloadRoundTrip(c);
    }
  }

  // ---------------------------------------------------------------- what a walk delivers

  ghost function Positions(rows: seq<Row>): set<Cursor> {
    set r | r in rows :: PositionOf(r)
  }

  // A position some matching copy holds, and no matching copy of its id holds another.
  ghost predicate SteadyIn(table: seq<Row>, q: EventQuery, p: Cursor) {
    && (exists r :: r in table && Matches(q, r) && PositionOf(r) == p)
    && (forall r | r in table && Matches(q, r) && r.id == p.id :: r.sort == p.eventTime)
  }

  // Present at every read, whatever else arrived, merged or vanished between them.
  ghost predicate Steady(tables: seq<seq<Row>>, q: EventQuery, p: Cursor) {
    forall table | table in tables :: SteadyIn(table, q, p)
  }

  // A matching copy that no matching copy at its position outdates.
  ghost predicate Freshest(table: seq<Row>, q: EventQuery, r: Row) {
    && r in table && Matches(q, r)
    && (forall s | s in table && Matches(q, s) && PositionOf(s) == PositionOf(r) :: s.version <= r.version)
  }

  ghost predicate Genuine(tables: seq<seq<Row>>, q: EventQuery, rows: seq<Row>) {
    forall r | r in rows :: exists table :: table in tables && Freshest(table, q, r)
  }

  ghost predicate CoveredDownTo(tables: seq<seq<Row>>, q: EventQuery, rows: seq<Row>, cursor: Cursor) {
    forall p | Steady(tables, q, p) && !Passes(cursor, p) :: p in Positions(rows)
  }

  ghost predicate Covered(tables: seq<seq<Row>>, q: EventQuery, rows: seq<Row>) {
    forall p | Steady(tables, q, p) :: p in Positions(rows)
  }

  ghost predicate MoreBelow(table: seq<Row>, q: EventQuery, cursor: Cursor) {
    exists r :: r in table && Matches(q, r) && Below(PositionOf(r), cursor)
  }

  // The state between two pages: every page so far was full, and the cursor names its last row.
  ghost predicate Halfway(tables: seq<seq<Row>>, q: EventQuery, rows: seq<Row>, cursor: Cursor) {
    && Descending(rows)
    && Genuine(tables, q, rows)
    && |rows| == PAGE_SIZE * |tables|
    && CoveredDownTo(tables, q, rows, cursor)
    && if tables == [] then IsZero(cursor)
       else !IsZero(cursor) && cursor == PositionOf(rows[|rows| - 1]) && MoreBelow(tables[|tables| - 1], q, cursor)
  }

  ghost predicate Finished(tables: seq<seq<Row>>, q: EventQuery, rows: seq<Row>) {
    && Descending(rows)
    && Genuine(tables, q, rows)
    && |rows| <= PAGE_SIZE * |tables|
    && Covered(tables, q, rows)
  }

  // ---------------------------------------------------------------- one page more

  lemma GenuinePage(table: seq<Row>, q: EventQuery, cursor: Cursor, r: Row)
    requires r in Answer(table, q, cursor)
    ensures Freshest(table, q, r) && Passes(cursor, PositionOf(r))
  {
    hide Answer, Matches, Passes;
    AnswerShape(table, q, cursor);
    forall s | s in table && Matches(q, s) && PositionOf(s) == PositionOf(r) ensures s.version <= r.version {
      assert Eligible(table, q, cursor, s);
    }
  }

  lemma SteadyIsAnswered(table: seq<Row>, q: EventQuery, cursor: Cursor, p: Cursor)
    requires SteadyIn(table, q, p) && Passes(cursor, p)
    ensures p in Positions(Answer(table, q, cursor))
  {
    hide Answer, Matches, Passes;
    AnswerShape(table, q, cursor);
    var r :| r in table && Matches(q, r) && PositionOf(r) == p;
    assert Eligible(table, q, cursor, r);
    var s :| s in Answer(table, q, cursor) && s.id == r.id;
    assert PositionOf(s) == p;
  }

  lemma DescendingAppend(rows: seq<Row>, cursor: Cursor, page: seq<Row>)
    requires Descending(rows) && Descending(page)
    requires rows != [] ==> !IsZero(cursor) && cursor == PositionOf(rows[|rows| - 1])
    requires forall r | r in page :: Passes(cursor, PositionOf(r))
    ensures Descending(rows + page)
  {
    hide TupleLess, IsZero;
    var all := rows + page;
    forall i, j | 0 <= i < |rows| <= j < |all| ensures Below(PositionOf(all[j]), PositionOf(all[i])) {
      assert all[j] in page;
      BelowIsAStrictOrder(PositionOf(all[j]), cursor, PositionOf(all[i]));
    }
  }

  lemma GenuineAppend(tables: seq<seq<Row>>, table: seq<Row>, q: EventQuery, rows: seq<Row>, page: seq<Row>)
    requires Genuine(tables, q, rows)
    requires forall r | r in page :: Freshest(table, q, r)
    ensures Genuine(tables + [table], q, rows + page)
  {
    hide Freshest;
    var longer := tables + [table];
    assert table in longer;
    forall r | r in rows + page ensures exists t :: t in longer && Freshest(t, q, r) {
      if r in rows {
        var t :| t in tables && Freshest(t, q, r);
        assert t in longer;
      } else {
        assert r in page;
      }
    }
  }

  lemma SteadyNext(tables: seq<seq<Row>>, table: seq<Row>, q: EventQuery, p: Cursor)
    ensures Steady(tables + [table], q, p) <==> Steady(tables, q, p) && SteadyIn(table, q, p)
  {
    hide SteadyIn;
    var longer := tables + [table];
    assert table in longer && forall t | t in tables :: t in longer;
    assert forall t | t in longer :: t in tables || t == table;
  }

  lemma SplitAnswer(answer: seq<Row>, n: nat, p: Cursor)
    requires n < |answer| && Descending(answer) && p in Positions(answer)
    ensures p in Positions(answer[..n]) || (n > 0 ==> Below(p, PositionOf(answer[n - 1])))
  {
    hide Below;
    var r :| r in answer && PositionOf(r) == p;
    var i :| 0 <= i < |answer| && answer[i] == r;
    if i < n {
      assert answer[..n][i] == r;
    }
  }

  // A full page carries the walk on.
  lemma FullPage(tables: seq<seq<Row>>, table: seq<Row>, q: EventQuery, rows: seq<Row>, cursor: Cursor)
    requires Halfway(tables, q, rows, cursor)
    requires |Answer(table, q, cursor)| > PAGE_SIZE
    requires !IsZero(PositionOf(Answer(table, q, cursor)[PAGE_SIZE - 1]))
    ensures var page := Answer(table, q, cursor)[..PAGE_SIZE];
      Halfway(tables + [table], q, rows + page, PositionOf(page[PAGE_SIZE - 1]))
  {
    hide Answer, Matches, SteadyIn, Steady, Genuine, TupleLess, IsZero;
    var answer := Answer(table, q, cursor);
    var page := answer[..PAGE_SIZE];
    var at := PositionOf(page[PAGE_SIZE - 1]);
    AnswerShape(table, q, cursor);
    forall r | r in answer ensures Freshest(table, q, r) && Passes(cursor, PositionOf(r)) {
      GenuinePage(table, q, cursor, r);
    }
    assert forall r | r in page :: r in answer;
    DescendingAppend(rows, cursor, page);
    GenuineAppend(tables, table, q, rows, page);
    forall p | Steady(tables + [table], q, p) && !Passes(at, p) ensures p in Positions(rows + page) {
      SteadyNext(tables, table, q, p);
      if Passes(cursor, p) {
        SteadyIsAnswered(table, q, cursor, p);
        SplitAnswer(answer, PAGE_SIZE, p);
      }
    }
    assert answer[PAGE_SIZE] in answer;
    assert Below(PositionOf(answer[PAGE_SIZE]), at);
  }

  // A page without a lookahead row ends it.
  lemma LastPage(tables: seq<seq<Row>>, table: seq<Row>, q: EventQuery, rows: seq<Row>, cursor: Cursor)
    requires Halfway(tables, q, rows, cursor)
    requires |Answer(table, q, cursor)| <= PAGE_SIZE
    ensures Finished(tables + [table], q, rows + Answer(table, q, cursor))
  {
    hide Answer, Matches, SteadyIn, Steady, Genuine, TupleLess, IsZero;
    var answer := Answer(table, q, cursor);
    AnswerShape(table, q, cursor);
    forall r | r in answer ensures Freshest(table, q, r) && Passes(cursor, PositionOf(r)) {
      GenuinePage(table, q, cursor, r);
    }
    DescendingAppend(rows, cursor, answer);
    GenuineAppend(tables, table, q, rows, answer);
    forall p | Steady(tables + [table], q, p) ensures p in Positions(rows + answer) {
      SteadyNext(tables, table, q, p);
      if Passes(cursor, p) {
        SteadyIsAnswered(table, q, cursor, p);
      }
    }
  }

  // ---------------------------------------------------------------- the walk

  // What the export's caller gets: everything steady if the pages ran out; otherwise the cap was
  // reached, and everything steady down to the last row.
  ghost predicate IsWalk(tables: seq<seq<Row>>, q: EventQuery, cap: nat, rows: seq<Row>, complete: bool) {
    && tables != [] && PAGE_SIZE * (|tables| - 1) < cap
    && (complete ==> Finished(tables, q, rows))
    && (!complete ==> PAGE_SIZE * |tables| >= cap && rows != [] && Halfway(tables, q, rows, PositionOf(rows[|rows| - 1])))
  }

  lemma AnswerIsStored(table: seq<Row>, q: EventQuery, cursor: Cursor)
    ensures forall r | r in Answer(table, q, cursor) :: r in table
  {
    hide Answer, Matches, Passes, Descending, Ahead;
    AnswerShape(table, q, cursor);
  }

  lemma TokenOfARow(row: Row)
    requires row.id != ""
    ensures EncodeCursor(PositionOf(row)) != "" && !IsZero(PositionOf(row))
    ensures IsPosition(PositionOf(row)) ==> DecodeCursor(EncodeCursor(PositionOf(row))) == Some(PositionOf(row))
    ensures !IsPosition(PositionOf(row)) ==> DecodeCursor(EncodeCursor(PositionOf(row))) == None
  {
    hide EncodeCursor, DecodeCursor;
    CursorRoundTrip(PositionOf(row));
    PayloadRoundTrip(PositionOf(row));
  }

  // One turn of the loop: without a next cursor the walk is finished; with one, decoding it either
  // leads on from the last row or fails because that row has no position.
  lemma PageKeepsTheWalk(tables: seq<seq<Row>>, k: nat, q: EventQuery, rows: seq<Row>, cursor: Cursor)
    requires k < |tables| && forall r | r in tables[k] :: r.id != ""
    requires Halfway(tables[..k], q, rows, cursor)
    ensures var page := SearchEvents(tables[k], q, cursor, PAGE_SIZE);
      var all := rows + page.items;
      if page.nextCursor == "" then Finished(tables[..k + 1], q, all)
      else
        match DecodeCursor(page.nextCursor)
        case None => exists r :: r in tables[k] && !IsPosition(PositionOf(r))
        case Some(next) => all != [] && next == PositionOf(all[|all| - 1]) && Halfway(tables[..k + 1], q, all, next)
  {
    hide *;
    PageSizeIsPositive();
    var table := tables[k];
    assert tables[..k + 1] == tables[..k] + [table];
    AnswerIsStored(table, q, cursor);
    PageOfAnswer(table, q, cursor);
    if |Answer(table, q, cursor)| > PAGE_SIZE {
      MiddlePage(tables[..k], table, q, rows, cursor);
    } else {
      LastPage(tables[..k], table, q, rows, cursor);
    }
  }

  lemma PageSizeIsPositive()
    ensures PAGE_SIZE > 0
  {
  }

  // A full page's token either leads on from its last row or is refused.
  lemma MiddlePage(tables: seq<seq<Row>>, table: seq<Row>, q: EventQuery, rows: seq<Row>, cursor: Cursor)
    requires Halfway(tables, q, rows, cursor) && |Answer(table, q, cursor)| > PAGE_SIZE
    requires forall r | r in table :: r.id != ""
    requires forall r | r in Answer(table, q, cursor) :: r in table
    ensures var page := Answer(table, q, cursor)[..PAGE_SIZE];
      var all, token := rows + page, EncodeCursor(PositionOf(page[PAGE_SIZE - 1]));
      && token != "" && all != []
      && match DecodeCursor(token)
         case None => exists r :: r in table && !IsPosition(PositionOf(r))
         case Some(next) => next == PositionOf(all[|all| - 1]) && Halfway(tables + [table], q, all, next)
  {
    hide *;
    PageSizeIsPositive();
    var answer := Answer(table, q, cursor);
    var last := answer[PAGE_SIZE - 1];
    assert last in answer;
    TokenOfARow(last);
    FullPage(tables, table, q, rows, cursor);
    var all := rows + answer[..PAGE_SIZE];
    assert all[|all| - 1] == last;
  }

  lemma PageOfAnswer(table: seq<Row>, q: EventQuery, cursor: Cursor)
    ensures var answer := Answer(table, q, cursor);
      var page := SearchEvents(table, q, cursor, PAGE_SIZE);
      if |answer| > PAGE_SIZE then
        page.items == answer[..PAGE_SIZE] && page.nextCursor == EncodeCursor(PositionOf(answer[PAGE_SIZE - 1]))
      else page.items == answer && page.nextCursor == ""
  {
    hide Answer, EncodeCursor;
  }

  // tables[k] is what read k finds, and the reads in `outages` fail.
  method CollectExportRows(tables: seq<seq<Row>>, outages: set<nat>, q: EventQuery, maxRows: int)
      returns (result: Result<seq<Row>, SearchError>, ghost pages: nat, ghost complete: bool)
    requires PAGE_SIZE * |tables| >= Cap(maxRows)
    requires forall table, r | table in tables && r in table :: r.id != ""
    ensures pages <= |tables|
    ensures result.Ok? ==> IsWalk(tables[..pages], q, Cap(maxRows), result.value, complete)
    ensures result == Err(QueryFailed) ==> exists k | k in outages :: k < |tables|
    ensures result == Err(CursorInvalid) ==> exists table, r :: table in tables && r in table && !IsPosition(PositionOf(r))
    ensures result != Err(EncodingFailed)
  {
    var cap := Cap(maxRows);
    var out: seq<Row>, cursor := [], FIRST_PAGE;
    var k := 0;
    pages, complete := 0, false;
    while |out| < cap
      invariant pages == k <= |tables|
      invariant Halfway(tables[..k], q, out, cursor)
      invariant k > 0 ==> PAGE_SIZE * (k - 1) < cap
      decreases |tables| - k
    {
      hide *;
      if k in outages {
        return Err(QueryFailed), k, false;
      }
      var page := SearchEvents(tables[k], q, cursor, PAGE_SIZE);
      PageKeepsTheWalk(tables, k, q, out, cursor);
      out := out + page.items;
      if page.nextCursor == "" {
        return Ok(out), k + 1, true;
      }
      match DecodeCursor(page.nextCursor) {
        case None =>
          return Err(CursorInvalid), k + 1, false;
        case Some(decoded) =>
          cursor := decoded;
      }
      k := k + 1;
      pages := k;
    }
    return Ok(out), k, false;
  }

  // ---------------------------------------------------------------- what the walk means

  // A row present throughout is delivered exactly once, under one position, when the walk ends by
  // itself; when the cap ends it, every such row down to the last one delivered is.
  lemma SteadyRowsAreDeliveredOnce(tables: seq<seq<Row>>, q: EventQuery, cap: nat, rows: seq<Row>, complete: bool,
                                   p: Cursor)
    requires IsWalk(tables, q, cap, rows, complete) && Steady(tables, q, p)
    requires complete || !Below(p, PositionOf(rows[|rows| - 1]))
    ensures exists i :: 0 <= i < |rows| && PositionOf(rows[i]) == p
    ensures forall i, j | 0 <= i < |rows| && 0 <= j < |rows| && rows[i].id == rows[j].id == p.id :: i == j
  {
    hide Below, Matches, IsZero;
    assert p in Positions(rows);
    var r :| r in rows && PositionOf(r) == p;
    forall i, j | 0 <= i < j < |rows| && rows[i].id == rows[j].id == p.id ensures false {
      AtItsSteadyPosition(tables, q, rows, p, rows[i]);
      AtItsSteadyPosition(tables, q, rows, p, rows[j]);
      BelowIsAStrictOrder(p, p, p);
    }
  }

  lemma AtItsSteadyPosition(tables: seq<seq<Row>>, q: EventQuery, rows: seq<Row>, p: Cursor, r: Row)
    requires Genuine(tables, q, rows) && Steady(tables, q, p) && r in rows && r.id == p.id
    ensures PositionOf(r) == p
  {
    hide Matches;
    var table :| table in tables && Freshest(table, q, r);
    assert SteadyIn(table, q, p);
  }

  // Over a table that does not change, the walk is the prefix of the FINAL answer it stopped at,
  // and it only stops short of the end when more rows are left.
  lemma WalkOfAFrozenTable(table: seq<Row>, tables: seq<seq<Row>>, q: EventQuery, cap: nat, rows: seq<Row>,
                           complete: bool)
    requires IsWalk(tables, q, cap, rows, complete) && forall t | t in tables :: t == table
    requires VersionsIdentify(table) && CopiesAgree(table, q)
    ensures rows <= Answer(table, q, FIRST_PAGE)
    ensures complete <==> rows == Answer(table, q, FIRST_PAGE)
  {
    hide *;
    var answer := Answer(table, q, FIRST_PAGE);
    DedupeIsFinal(table, q, FIRST_PAGE);
    FinalIsDescending(table, q, FIRST_PAGE, answer);
    WalkIsDescending(tables, q, cap, rows, complete);
    forall r | r in rows ensures r in answer {
      DeliveredIsFinal(table, tables, q, cap, rows, complete, r);
    }
    forall r, s | r in answer && s in rows ensures r in rows || Below(PositionOf(r), PositionOf(s)) {
      AnsweredIsDelivered(table, tables, q, cap, rows, complete, r, s);
    }
    DescendingPrefix(rows, answer);
    if complete {
      forall r | r in answer ensures r in rows {
        CompleteWalkMissesNothing(table, tables, q, cap, rows, r);
      }
      DescendingPrefix(answer, rows);
    } else {
      IncompleteWalkLeavesSome(table, tables, q, cap, rows);
    }
  }

  lemma FinalIsDescending(table: seq<Row>, q: EventQuery, cursor: Cursor, rows: seq<Row>)
    requires IsFinalAnswer(table, q, cursor, rows)
    ensures Descending(rows)
    ensures forall r :: r in rows <==> IsNewest(table, r) && Eligible(table, q, cursor, r)
  {
  }

  lemma WalkIsDescending(tables: seq<seq<Row>>, q: EventQuery, cap: nat, rows: seq<Row>, complete: bool)
    requires IsWalk(tables, q, cap, rows, complete)
    ensures Descending(rows) && Genuine(tables, q, rows)
  {
    hide Descending, Genuine;
  }

  // A delivered row is the newest copy of its id.
  lemma DeliveredIsFinal(table: seq<Row>, tables: seq<seq<Row>>, q: EventQuery, cap: nat, rows: seq<Row>,
                         complete: bool, r: Row)
    requires IsWalk(tables, q, cap, rows, complete) && forall t | t in tables :: t == table
    requires VersionsIdentify(table) && CopiesAgree(table, q) && r in rows
    ensures IsNewest(table, r) && Eligible(table, q, FIRST_PAGE, r)
  {
    hide IsWalk, Matches;
    WalkIsDescending(tables, q, cap, rows, complete);
    assert Freshest(table, q, r);
    var n := NewestCopy(table, q, r);
  }

  lemma AnswerIsSteady(table: seq<Row>, tables: seq<seq<Row>>, q: EventQuery, r: Row)
    requires forall t | t in tables :: t == table
    requires CopiesAgree(table, q) && IsNewest(table, r) && Matches(q, r)
    ensures Steady(tables, q, PositionOf(r))
  {
    hide Matches;
    assert SteadyIn(table, q, PositionOf(r));
  }

  lemma NewestAtOnePosition(table: seq<Row>, r: Row, s: Row)
    requires VersionsIdentify(table) && IsNewest(table, r) && IsNewest(table, s) && PositionOf(r) == PositionOf(s)
    ensures r == s
  {
  }

  lemma AnsweredIsDelivered(table: seq<Row>, tables: seq<seq<Row>>, q: EventQuery, cap: nat, rows: seq<Row>,
                            complete: bool, r: Row, s: Row)
    requires IsWalk(tables, q, cap, rows, complete) && forall t | t in tables :: t == table
    requires VersionsIdentify(table) && CopiesAgree(table, q)
    requires IsNewest(table, r) && Eligible(table, q, FIRST_PAGE, r) && s in rows
    ensures r in rows || Below(PositionOf(r), PositionOf(s))
  {
    hide Below, Matches, Passes, VersionsIdentify, CopiesAgree;
    var p := PositionOf(r);
    AnswerIsSteady(table, tables, q, r);
    if complete || !Passes(PositionOf(rows[|rows| - 1]), p) {
      var d :| d in rows && PositionOf(d) == p;
      DeliveredIsFinal(table, tables, q, cap, rows, complete, d);
      NewestAtOnePosition(table, r, d);
    } else {
      var last := PositionOf(rows[|rows| - 1]);
      assert Below(p, last) by {
        assert !IsZero(last);
        PassesMeansBelow(last, p);
      }
      var i :| 0 <= i < |rows| && rows[i] == s;
      BelowIsAStrictOrder(p, last, PositionOf(s));
    }
  }

  lemma PassesMeansBelow(cursor: Cursor, p: Cursor)
    requires !IsZero(cursor)
    ensures Passes(cursor, p) <==> Below(p, cursor)
  {
  }

  lemma CompleteWalkMissesNothing(table: seq<Row>, tables: seq<seq<Row>>, q: EventQuery, cap: nat, rows: seq<Row>,
                                  r: Row)
    requires IsWalk(tables, q, cap, rows, true) && forall t | t in tables :: t == table
    requires VersionsIdentify(table) && CopiesAgree(table, q)
    requires IsNewest(table, r) && Eligible(table, q, FIRST_PAGE, r)
    ensures r in rows
  {
    hide Below, Matches, Passes, VersionsIdentify, CopiesAgree;
    AnswerIsSteady(table, tables, q, r);
    var d :| d in rows && PositionOf(d) == PositionOf(r);
    DeliveredIsFinal(table, tables, q, cap, rows, true, d);
    NewestAtOnePosition(table, r, d);
  }

  // A matching row has a newest copy, which matches at the same position.
  lemma NewestCopy(table: seq<Row>, q: EventQuery, r: Row) returns (n: Row)
    requires CopiesAgree(table, q) && r in table && Matches(q, r)
    ensures IsNewest(table, n) && Matches(q, n) && PositionOf(n) == PositionOf(r)
  {
    hide Matches;
    NewestExists(table, r);
    n :| IsNewest(table, n) && SameKey(n, r);
  }

  lemma IncompleteWalkLeavesSome(table: seq<Row>, tables: seq<seq<Row>>, q: EventQuery, cap: nat, rows: seq<Row>)
    requires IsWalk(tables, q, cap, rows, false) && forall t | t in tables :: t == table
    requires VersionsIdentify(table) && CopiesAgree(table, q)
    ensures rows != Answer(table, q, FIRST_PAGE)
  {
    hide Below, Matches, Answer, Genuine, CoveredDownTo, IsNewest, CopiesAgree, VersionsIdentify;
    var last := PositionOf(rows[|rows| - 1]);
    assert tables[|tables| - 1] in tables;
    var r :| r in table && Matches(q, r) && Below(PositionOf(r), last);
    var n := NewestCopy(table, q, r);
    NewestIsAnswered(table, q, n);
    forall i | 0 <= i < |rows| ensures rows[i] != n {
      BelowIsAStrictOrder(PositionOf(n), last, PositionOf(rows[i]));
      BelowIsAStrictOrder(PositionOf(n), PositionOf(n), last);
    }
  }

  lemma NewestIsAnswered(table: seq<Row>, q: EventQuery, n: Row)
    requires VersionsIdentify(table) && CopiesAgree(table, q) && IsNewest(table, n) && Matches(q, n)
    ensures n in Answer(table, q, FIRST_PAGE)
  {
    hide Answer, Matches, CopiesAgree, VersionsIdentify;
    DedupeIsFinal(table, q, FIRST_PAGE);
    assert Eligible(table, q, FIRST_PAGE, n);
  }

  // ---------------------------------------------------------------- the exporter

  class Exporter {
    const maxRows: nat
    var written: nat
    var truncated: bool

    constructor (requested: int)
      ensures maxRows == Cap(requested) && written == 0 && !truncated
    {
      maxRows := Cap(requested);
      written := 0;
      truncated := false;
    }

    // The callback of both formats: one more row, or the mark that there was one; a row that cannot
    // be encoded ends the export.
    method Yield(row: Row, encodes: bool) returns (more: bool, failed: bool)
      modifies this
      ensures more == (old(written) < maxRows && encodes)
      ensures failed == (old(written) < maxRows && !encodes)
      ensures written == old(written) + (if more then 1 else 0)
      ensures truncated == (old(truncated) || old(written) >= maxRows)
    {
      if written >= maxRows {
        truncated := true;
        return false, false;
      }
      if !encodes {
        return false, true;
      }
      written := written + 1;
      return true, false;
    }

    // The rows at the positions in broken cannot be encoded.
    method Write(rows: seq<Row>, broken: set<nat>) returns (content: seq<Row>, failed: bool)
      requires written <= maxRows
      modifies this
      ensures written == old(written) + |content| && written <= maxRows
      ensures content <= rows && forall k: nat | k < |content| :: k !in broken
      ensures failed ==> |content| < |rows| && |content| in broken && written < maxRows && truncated == old(truncated)
      ensures !failed && content != rows ==> written == maxRows
      ensures !failed ==> truncated == (old(truncated) || content != rows)
    {
      content := [];
      for k: nat := 0 to |rows|
        invariant content == rows[..k] && written == old(written) + k <= maxRows
        invariant truncated == old(truncated)
        invariant forall j: nat | j < k :: j !in broken
      {
        var more;
        more, failed := Yield(rows[k], k !in broken);
        if !more {
          return;
        }
        content := content + [rows[k]];
      }
      failed := false;
    }
  }

  datatype ExportReply = ExportReply(content: seq<Row>, rowCount: nat, truncated: bool)

  // The first rows up to the cap, and the flag raised exactly when more were supplied.
  predicate IsExportOf(reply: ExportReply, rows: seq<Row>, cap: nat) {
    && reply.content <= rows
    && |reply.content| == (if |rows| <= cap then |rows| else cap)
    && reply.rowCount == |reply.content|
    && reply.truncated == (|rows| > cap)
  }

  // The capped prefix of what some walk over the tables delivers.
  ghost predicate IsCappedWalk(tables: seq<seq<Row>>, q: EventQuery, cap: nat, reply: ExportReply) {
    exists pages: nat, rows, complete ::
      pages <= |tables| && IsWalk(tables[..pages], q, cap, rows, complete) && IsExportOf(reply, rows, cap)
  }

  method ExportSearch(tables: seq<seq<Row>>, outages: set<nat>, broken: set<nat>, q: EventQuery, maxRows: int)
      returns (reply: Result<ExportReply, SearchError>)
    requires PAGE_SIZE * |tables| >= Cap(maxRows)
    requires forall table, r | table in tables && r in table :: r.id != ""
    ensures reply.Ok? ==> IsCappedWalk(tables, q, Cap(maxRows), reply.value)
    ensures reply.Ok? ==> forall k: nat | k < |reply.value.content| :: k !in broken
    ensures reply == Err(QueryFailed) ==> exists k | k in outages :: k < |tables|
    ensures reply == Err(CursorInvalid) ==> exists table, r :: table in tables && r in table && !IsPosition(PositionOf(r))
    ensures reply == Err(EncodingFailed) ==> exists k | k in broken :: k < Cap(maxRows)
  {
    hide IsWalk;
    var collected;
    ghost var pages, complete;
    collected, pages, complete := CollectExportRows(tables, outages, q, maxRows);
    if collected.Err? {
      return Err(collected.error);
    }
    var exporter := new Exporter(maxRows);
    var content, failed := exporter.Write(collected.value, broken);
    if failed {
      return Err(EncodingFailed);
    }
    reply := Ok(ExportReply(content, exporter.written, exporter.truncated));
  }

  // Over a table that does not change, the export is the first rows of the FINAL answer, as many as
  // the cap allows. The reply says it was cut short only when it was, but it does not always say
  // so: the walk stops at the cap itself whenever the cap is a whole number of pages, and the
  // exporter then never sees the row it would have had to refuse.
  lemma ExportOfAFrozenTable(table: seq<Row>, tables: seq<seq<Row>>, q: EventQuery, cap: nat, rows: seq<Row>,
                             complete: bool, reply: ExportReply)
    requires IsWalk(tables, q, cap, rows, complete) && forall t | t in tables :: t == table
    requires VersionsIdentify(table) && CopiesAgree(table, q)
    requires IsExportOf(reply, rows, cap)
    ensures var answer := Answer(table, q, FIRST_PAGE);
      && reply.content <= answer
      && |reply.content| == (if |answer| <= cap then |answer| else cap)
      && (reply.truncated <==> |answer| > cap && cap % PAGE_SIZE != 0)
  {
    var answer := Answer(table, q, FIRST_PAGE);
    WalkOfAFrozenTable(table, tables, q, cap, rows, complete);
    WalkLength(tables, q, cap, rows, complete);
    hide Answer, IsWalk;
    assert rows <= answer && reply.content <= rows;
    var n := |tables|;
    if complete {
      assert |rows| == |answer|;
    } else {
      assert |rows| < |answer| by {
        assert rows == answer[..|rows|];
      }
    }
    if cap % PAGE_SIZE == 0 {
      var m := cap / PAGE_SIZE;
      assert cap == PAGE_SIZE * m;
      assert n - 1 < m;
      assert |rows| <= cap;
    }
  }

  lemma WalkLength(tables: seq<seq<Row>>, q: EventQuery, cap: nat, rows: seq<Row>, complete: bool)
    requires IsWalk(tables, q, cap, rows, complete)
    ensures |tables| > 0 && PAGE_SIZE * (|tables| - 1) < cap && |rows| <= PAGE_SIZE * |tables|
    ensures !complete ==> |rows| == PAGE_SIZE * |tables| >= cap
  {
    hide Descending, Genuine, Covered, CoveredDownTo, MoreBelow;
  }
}
