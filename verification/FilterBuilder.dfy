// Search conditions with bound arguments (backend/internal/query/builder.go).

// LIKE with its wildcards, and the escaping of a user's literal text.
module Like {
  datatype Token = AnyText | AnyChar | Literal(c: char)

  predicate IsSpecial(c: char) {
    c == '\\' || c == '%' || c == '_'
  }

  // `%` and `_` are wildcards, a backslash before a special character stands for that character.
  function Tokens(pattern: string): seq<Token> {
    if pattern == [] then []
    else if pattern[0] == '\\' && |pattern| > 1 && IsSpecial(pattern[1]) then
      [Literal(pattern[1])] + Tokens(pattern[2..])
    else
      [if pattern[0] == '%' then AnyText else if pattern[0] == '_' then AnyChar else Literal(pattern[0])]
      + Tokens(pattern[1..])
  }

  predicate MatchesTokens(s: string, tokens: seq<Token>)
    decreases |tokens|, |s|
  {
    if tokens == [] then s == []
    else
      match tokens[0]
      case AnyText => MatchesTokens(s, tokens[1..]) || (s != [] && MatchesTokens(s[1..], tokens))
      case AnyChar => s != [] && MatchesTokens(s[1..], tokens[1..])
      case Literal(c) => s != [] && s[0] == c && MatchesTokens(s[1..], tokens[1..])
  }

  predicate Matches(s: string, pattern: string) {
    MatchesTokens(s, Tokens(pattern))
  }

  // One pass over the text, character by character.
  function Escape(value: string): string {
    if value == [] then []
    else (if IsSpecial(value[0]) then ['\\', value[0]] else [value[0]]) + Escape(value[1..])
  }

  function ContainsPattern(value: string): string {
    "%" + Escape(value) + "%"
  }

  predicate OccursAt(s: string, i: nat, value: string) {
    i + |value| <= |s| && s[i..i + |value|] == value
  }

  ghost predicate Contains(s: string, value: string) {
    exists i: nat :: OccursAt(s, i, value)
  }

  function Literals(value: string): seq<Token> {
    if value == [] then [] else [Literal(value[0])] + Literals(value[1..])
  }

  lemma LiteralTokens(c: char, tail: string)
    ensures IsSpecial(c) ==> Tokens(['\\', c] + tail) == [Literal(c)] + Tokens(tail)
    ensures !IsSpecial(c) ==> Tokens([c] + tail) == [Literal(c)] + Tokens(tail)
  {
    assert (['\\', c] + tail)[2..] == tail && ([c] + tail)[1..] == tail;
  }

  lemma {:induction false} EscapeReadsAsLiterals(value: string, rest: string)
    ensures Tokens(Escape(value) + rest) == Literals(value) + Tokens(rest)
  {
    hide Tokens;
    if value == [] {
      assert Escape(value) + rest == rest;
    } else {
      EscapeReadsAsLiterals(value[1..], rest);
      var tail := Escape(value[1..]) + rest;
      LiteralTokens(value[0], tail);
      if IsSpecial(value[0]) {
        assert Escape(value) + rest == ['\\', value[0]] + tail;
      } else {
        assert Escape(value) + rest == [value[0]] + tail;
      }
    }
  }

  lemma {:induction false} AnyTextAlone(s: string)
    ensures MatchesTokens(s, [AnyText])
  {
    if s != [] {
      AnyTextAlone(s[1..]);
    }
  }

  lemma {:induction false} LiteralsArePrefix(s: string, value: string)
    ensures MatchesTokens(s, Literals(value) + [AnyText]) <==> value <= s
  {
    var tokens := Literals(value) + [AnyText];
    if value == [] {
      assert tokens == [AnyText];
      AnyTextAlone(s);
    } else {
      assert tokens[0] == Literal(value[0]) && tokens[1..] == Literals(value[1..]) + [AnyText];
      if s != [] {
        LiteralsArePrefix(s[1..], value[1..]);
        assert value == [value[0]] + value[1..] && s == [s[0]] + s[1..];
      }
    }
  }

  lemma ContainsStep(s: string, value: string)
    ensures Contains(s, value) <==> value <= s || (s != [] && Contains(s[1..], value))
  {
    if value <= s {
      assert OccursAt(s, 0, value);
    }
    if s != [] && Contains(s[1..], value) {
      var i: nat :| OccursAt(s[1..], i, value);
      assert OccursAt(s, i + 1, value);
    }
    if Contains(s, value) {
      var i: nat :| OccursAt(s, i, value);
      if i > 0 {
        assert OccursAt(s[1..], i - 1, value);
      }
    }
  }

  lemma {:induction false} LeadingAnyText(s: string, value: string)
    ensures MatchesTokens(s, [AnyText] + (Literals(value) + [AnyText])) <==> Contains(s, value)
  {
    hide Contains, Literals;
    var rest := Literals(value) + [AnyText];
    var tokens := [AnyText] + rest;
    assert tokens[0] == AnyText && tokens[1..] == rest;
    LiteralsArePrefix(s, value);
    ContainsStep(s, value);
    if s != [] {
      LeadingAnyText(s[1..], value);
    }
  }

  // A contains filter matches exactly the values that hold the text, whatever characters it has.
  lemma ContainsIsSubstring(s: string, value: string)
    ensures Matches(s, ContainsPattern(value)) <==> Contains(s, value)
  {
    var pattern := ContainsPattern(value);
    EscapeReadsAsLiterals(value, "%");
    assert pattern == ['%'] + (Escape(value) + "%");
    assert pattern[1..] == Escape(value) + "%";
    assert Tokens("%") == [AnyText];
    assert Tokens(pattern) == [AnyText] + (Literals(value) + [AnyText]);
    LeadingAnyText(s, value);
  }
}

module FilterBuilder {
  import opened Wrappers
  import opened Text
  import Like

  // A caller's value: what a Go `any` can hold here. `Other` is a number or flag with its printed form.
  datatype Value = Text(text: string) | List(values: seq<string>) | Other(printed: string)

  type Op = string

  const OPS: set<Op> := {"=", "!=", ">=", "<=", "IN", "LIKE", "hasToken", "hasAny"}

  datatype Filter = Filter(column: string, op: Op, value: Value)

  datatype QueryError = UnknownField(field: string) | UnsupportedComparison(op: Op) | NeedsAValue(column: string)

  // The allowlist: API field names to column names. Column names hold no placeholder mark.
  type Columns = c: map<string, string> | forall f | f in c :: '?' !in c[f] witness map[]

  function Resolve(columns: Columns, field: string): Result<string, QueryError> {
    var key := ToLower(TrimSpace(field));
    if key in columns then Ok(columns[key]) else Err(UnknownField(field))
  }

  // ---------------------------------------------------------------- one filter

  // The clause text, and the arguments its placeholders take.
  datatype Clause = Clause(text: string, args: seq<Value>)

  function Repeat(s: string, n: nat): string {
    if n == 0 then "" else s + Repeat(s, n - 1)
  }

  function TrimSuffix(s: string, suffix: string): string {
    if |s| >= |suffix| && s[|s| - |suffix|..] == suffix then s[..|s| - |suffix|] else s
  }

  // One placeholder per value of an IN list.
  function Marks(n: nat): string {
    TrimSuffix(Repeat("?,", n), ",")
  }

  function Texts(values: seq<string>): seq<Value> {
    seq(|values|, i requires 0 <= i < |values| => Text(values[i]))
  }

  function Join(parts: seq<string>, separator: string): string {
    if parts == [] then ""
    else if |parts| == 1 then parts[0]
    else Join(parts[..|parts| - 1], separator) + separator + parts[|parts| - 1]
  }

  // fmt.Sprint of a value.
  function Sprint(v: Value): string {
    match v
    case Text(t) => t
    case List(vs) => "[" + Join(vs, " ") + "]"
    case Other(p) => p
  }

  function ClauseOf(f: Filter): Result<Clause, QueryError> {
    if f.op == "IN" then
      if !f.value.List? || f.value.values == [] then Err(NeedsAValue(f.column))
      else
        Ok(Clause(f.column + " IN (" + Marks(|f.value.values|) + ")", Texts(f.value.values)))
    else if f.op == "LIKE" then
      Ok(Clause(f.column + " LIKE ?", [Text(Like.ContainsPattern(Sprint(f.value)))]))
    else if f.op == "hasToken" then Ok(Clause("hasToken(" + f.column + ", ?)", [f.value]))
    else if f.op == "hasAny" then
      if !f.value.List? || f.value.values == [] then Err(NeedsAValue(f.column))
      else Ok(Clause("hasAny(" + f.column + ", ?)", [f.value]))
    else if f.op in OPS then Ok(Clause(f.column + " " + f.op + " ?", [f.value]))
    else Err(UnsupportedComparison(f.op))
  }

  // ---------------------------------------------------------------- binding

  // A statement with its arguments in place: plain characters and bound values. A placeholder
  // without an argument, or an argument without a placeholder, shows as such.
  datatype Piece = Char(c: char) | Bound(v: Value) | Unfilled | Unused(v: Value)

  // The driver fills placeholders from left to right.
  function Bind(text: string, args: seq<Value>): seq<Piece> {
    if text == [] then Leftover(args)
    else if text[0] != '?' then [Char(text[0])] + Bind(text[1..], args)
    else if args == [] then [Unfilled] + Bind(text[1..], args)
    else [Bound(args[0])] + Bind(text[1..], args[1..])
  }

  function Leftover(args: seq<Value>): seq<Piece> {
    seq(|args|, i requires 0 <= i < |args| => Unused(args[i]))
  }

  function Placeholders(text: string): nat {
    if text == [] then 0 else (if text[0] == '?' then 1 else 0) + Placeholders(text[1..])
  }

  function Chars(text: string): seq<Piece> {
    seq(|text|, i requires 0 <= i < |text| => Char(text[i]))
  }

  // The comma-separated list an IN predicate shows.
  function Listed(values: seq<Value>): seq<Piece> {
    if values == [] then []
    else if |values| == 1 then [Bound(values[0])]
    else [Bound(values[0]), Char(',')] + Listed(values[1..])
  }

  // How a filter reads once bound, written down without placeholders.
  function Reading(f: Filter): seq<Piece> {
    if f.op == "IN" && f.value.List? then Chars(f.column + " IN (") + Listed(Texts(f.value.values)) + [Char(')')]
    else if f.op == "LIKE" then
      Chars(f.column + " LIKE ") + [Bound(Text(Like.ContainsPattern(Sprint(f.value))))]
    else if f.op == "hasToken" || f.op == "hasAny" then
      Chars(f.op + "(" + f.column + ", ") + [Bound(f.value)] + [Char(')')]
    else Chars(f.column + " " + f.op + " ") + [Bound(f.value)]
  }

  lemma BindUnfold(text: string, args: seq<Value>)
    requires text != []
    ensures text[0] != '?' ==> Bind(text, args) == [Char(text[0])] + Bind(text[1..], args)
    ensures text[0] == '?' && args != [] ==> Bind(text, args) == [Bound(args[0])] + Bind(text[1..], args[1..])
    ensures Placeholders(text) == (if text[0] == '?' then 1 else 0) + Placeholders(text[1..])
  {
  }

  lemma BindNothing()
    ensures Bind("", []) == [] && Placeholders("") == 0
  {
  }

  lemma {:induction false} BindConcat(a: string, x: seq<Value>, b: string, y: seq<Value>)
    requires Placeholders(a) == |x|
    ensures Bind(a + b, x + y) == Bind(a, x) + Bind(b, y)
    ensures Placeholders(a + b) == |x| + Placeholders(b)
  {
    hide *;
    BindNothing();
    if a == [] {
      assert a + b == b && x + y == y;
      assert x == [];
    } else {
      BindUnfold(a, x);
      BindUnfold(a + b, x + y);
      assert (a + b)[1..] == a[1..] + b;
      if a[0] == '?' {
        assert (x + y)[1..] == x[1..] + y;
        BindConcat(a[1..], x[1..], b, y);
      } else {
        BindConcat(a[1..], x, b, y);
      }
    }
  }

  lemma {:induction false} BindPlain(text: string)
    requires '?' !in text
    ensures Bind(text, []) == Chars(text) && Placeholders(text) == 0
  {
    if text != [] {
      BindPlain(text[1..]);
      assert Chars(text) == [Char(text[0])] + Chars(text[1..]);
    }
  }

  // Plain text, one placeholder, plain text.
  lemma BindOne(before: string, v: Value, after: string)
    requires '?' !in before && '?' !in after
    ensures Bind(before + "?" + after, [v]) == Chars(before) + [Bound(v)] + Chars(after)
    ensures Placeholders(before + "?" + after) == 1
  {
    assert "?"[1..] == "";
    assert Bind("?", [v]) == [Bound(v)];
    BindAround(before, "?", [v], after);
  }

  lemma {:induction false} RepeatShape(n: nat)
    requires n > 0
    ensures |Repeat("?,", n)| == 2 * n
    ensures Repeat("?,", n)[2 * n - 1] == ','
  {
    if n > 1 {
      RepeatShape(n - 1);
    }
  }

  lemma MarksStep(n: nat)
    requires n > 0
    ensures Marks(n) == if n == 1 then "?" else "?," + Marks(n - 1)
  {
    RepeatShape(n);
    var all := Repeat("?,", n);
    assert all[|all| - 1..] == ",";
    if n > 1 {
      RepeatShape(n - 1);
      var rest := Repeat("?,", n - 1);
      assert rest[|rest| - 1..] == ",";
      assert all == "?," + rest;
    }
  }

  lemma {:induction false} BindMarks(values: seq<Value>)
    requires values != []
    ensures Bind(Marks(|values|), values) == Listed(values) && Placeholders(Marks(|values|)) == |values|
  {
    MarksStep(|values|);
    if |values| == 1 {
      assert values == [values[0]] && values[1..] == [] && "?"[1..] == "";
    } else {
      hide Marks;
      var rest := Marks(|values| - 1);
      BindMarks(values[1..]);
      var all := "?," + rest;
      assert all[0] == '?' && all[1..] == "," + rest && all[1..][0] == ',' && all[1..][1..] == rest;
      assert Bind(all[1..], values[1..]) == [Char(',')] + Bind(rest, values[1..]);
    }
  }

  // Binding a clause gives its reading: each placeholder has its own argument and none is left.
  lemma ClauseBinds(f: Filter)
    requires '?' !in f.column && ClauseOf(f).Ok?
    ensures Bind(ClauseOf(f).value.text, ClauseOf(f).value.args) == Reading(f)
    ensures Placeholders(ClauseOf(f).value.text) == |ClauseOf(f).value.args|
  {
    hide Bind, Placeholders, Chars, Listed, Like.ContainsPattern, Sprint, Marks;
    var clause := ClauseOf(f).value;
    if f.op == "IN" {
      ListClauseBinds(f.column, Texts(f.value.values));
    } else if f.op == "LIKE" {
      var before := f.column + " LIKE ";
      BindOne(before, clause.args[0], "");
      assert clause.text == before + "?" + "";
      PlainEmpty();
    } else if f.op == "hasToken" || f.op == "hasAny" {
      var before := f.op + "(" + f.column + ", ";
      BindOne(before, f.value, ")");
      assert clause.text == before + "?" + ")";
      PlainEmpty();
    } else {
      var before := f.column + " " + f.op + " ";
      BindOne(before, f.value, "");
      assert clause.text == before + "?" + "";
      PlainEmpty();
    }
  }

  lemma PlainEmpty()
    ensures Chars("") == [] && Chars(")") == [Char(')')]
  {
  }

  lemma ListClauseBinds(column: string, values: seq<Value>)
    requires '?' !in column && values != []
    ensures var text := column + " IN (" + Marks(|values|) + ")";
      && Bind(text, values) == Chars(column + " IN (") + Listed(values) + [Char(')')]
      && Placeholders(text) == |values|
  {
    hide *;
    PlainEmpty();
    BindMarks(values);
    BindAround(column + " IN (", Marks(|values|), values, ")");
  }

  // Plain text, anything, plain text.
  lemma BindAround(before: string, text: string, args: seq<Value>, after: string)
    requires '?' !in before && '?' !in after && Placeholders(text) == |args|
    ensures Bind(before + text + after, args) == Chars(before) + Bind(text, args) + Chars(after)
    ensures Placeholders(before + text + after) == |args|
  {
    hide *;
    BindPlain(before);
    BindPlain(after);
    BindConcat(text, args, after, []);
    BindConcat(before, [], text + after, args);
    assert args + [] == args && [] + args == args;
    assert before + (text + after) == before + text + after;
  }

  // ---------------------------------------------------------------- all filters

  function Prefixed(clauses: seq<string>): string {
    if clauses == [] then "" else Prefixed(clauses[..|clauses| - 1]) + " AND " + clauses[|clauses| - 1]
  }

  lemma {:induction false} JoinIsPrefixed(clauses: seq<string>)
    requires clauses != []
    ensures " AND " + Join(clauses, " AND ") == Prefixed(clauses)
  {
    var init, last := clauses[..|clauses| - 1], clauses[|clauses| - 1];
    if init == [] {
      assert Prefixed(clauses) == "" + " AND " + last;
    } else {
      JoinIsPrefixed(init);
      assert " AND " + (Join(init, " AND ") + " AND " + last) == (" AND " + Join(init, " AND ")) + " AND " + last;
    }
  }

  // The bound statement a list of filters stands for.
  function Readings(filters: seq<Filter>): seq<Piece> {
    if filters == [] then []
    else Readings(filters[..|filters| - 1]) + Chars(" AND ") + Reading(filters[|filters| - 1])
  }

  // The first filter that has no clause.
  function FirstBad(filters: seq<Filter>): Option<QueryError> {
    if filters == [] then None
    else
      match FirstBad(filters[..|filters| - 1])
      case Some(e) => Some(e)
      case None =>
        match ClauseOf(filters[|filters| - 1])
        case Err(e) => Some(e)
        case Ok(_) => None
  }

  lemma ConditionsStep(text: string, args: seq<Value>, filters: seq<Filter>, f: Filter)
    requires Bind(text, args) == Readings(filters) && Placeholders(text) == |args|
    requires '?' !in f.column && ClauseOf(f).Ok?
    ensures var clause := ClauseOf(f).value;
      && Bind(text + " AND " + clause.text, args + clause.args) == Readings(filters + [f])
      && Placeholders(text + " AND " + clause.text) == |args + clause.args|
  {
    hide ClauseOf, Bind, Placeholders, Reading;
    var clause := ClauseOf(f).value;
    ClauseBinds(f);
    BindPlain(" AND ");
    BindConcat(" AND ", [], clause.text, clause.args);
    BindConcat(text, args, " AND " + clause.text, clause.args);
    assert [] + clause.args == clause.args;
    assert text + (" AND " + clause.text) == text + " AND " + clause.text;
    assert (filters + [f])[..|filters|] == filters;
  }

  // One call of Where.
  datatype Call = Call(field: string, op: Op, value: Value)

  function Accept(columns: Columns, call: Call): Result<Filter, QueryError> {
    match Resolve(columns, call.field)
    case Err(e) => Err(e)
    case Ok(column) => if call.op in OPS then Ok(Filter(column, call.op, call.value)) else Err(UnsupportedComparison(call.op))
  }

  // What a chain of calls asks for: every filter, or the first call that could not be accepted.
  function Asked(columns: Columns, calls: seq<Call>): Result<seq<Filter>, QueryError> {
    if calls == [] then Ok([])
    else
      match Asked(columns, calls[..|calls| - 1])
      case Err(e) => Err(e)
      case Ok(filters) =>
        match Accept(columns, calls[|calls| - 1])
        case Err(e) => Err(e)
        case Ok(f) => Ok(filters + [f])
  }

  class Builder {
    const columns: Columns
    var filters: seq<Filter>
    var err: Option<QueryError>
    // Every call that reached Where, in order.
    ghost var calls: seq<Call>

    ghost predicate Valid()
      reads this
    {
      && (err.None? ==> Asked(columns, calls) == Ok(filters))
      && (err.Some? ==> Asked(columns, calls) == Err(err.value))
      && forall f | f in filters :: '?' !in f.column
    }

    constructor (columns: Columns)
      ensures Valid() && calls == [] && this.columns == columns
    {
      this.columns := columns;
      filters, err, calls := [], None, [];
    }

    method Where(field: string, op: Op, value: Value)
      requires Valid()
      modifies this
      ensures Valid() && calls == old(calls) + [Call(field, op, value)]
    {
      ghost var call := Call(field, op, value);
      calls := calls + [call];
      assert calls[..|calls| - 1] == old(calls);
      if err.Some? {
        return;
      }
      var column := Resolve(columns, field);
      if column.Err? {
        err := Some(column.error);
        return;
      }
      if op !in OPS {
        err := Some(UnsupportedComparison(op));
        return;
      }
      filters := filters + [Filter(column.value, op, value)];
    }

    method WhereIfSet(field: string, op: Op, value: string)
      requires Valid()
      modifies this
      ensures Valid()
      ensures calls == old(calls) + if TrimSpace(value) == "" then [] else [Call(field, op, Text(value))]
    {
      if TrimSpace(value) == "" {
        return;
      }
      Where(field, op, Text(value));
    }

    lemma WhatIsAsked()
      requires Valid()
      ensures err.None? ==> Asked(columns, calls) == Ok(filters) && forall f | f in filters :: '?' !in f.column
      ensures err.Some? ==> Asked(columns, calls) == Err(err.value)
    {
    }

    // Either the first problem of the chain, or a fragment that, bound, reads as every filter
    // asked for, in order, each with its own values.
    method Conditions() returns (result: Result<Clause, QueryError>)
      requires Valid()
      ensures Answers(Asked(columns, calls), result)
    {
      hide *;
      WhatIsAsked();
      if err.Some? {
        ErrorAnswers(err.value);
        return Err(err.value);
      }
      var filters := this.filters;
      var clauses: seq<string>, args: seq<Value> := [], [];
      NothingBound();
      for k := 0 to |filters|
        invariant FirstBad(filters[..k]).None? && |clauses| == k
        invariant Bind(Prefixed(clauses), args) == Readings(filters[..k])
        invariant Placeholders(Prefixed(clauses)) == |args|
      {
        var f := filters[k];
        assert filters[..k + 1] == filters[..k] + [f];
        FirstBadStep(filters, k);
        var clause := ClauseOf(f);
        if clause.Err? {
          RefusedAnswers(filters, clause.error);
          return Err(clause.error);
        }
        ConditionsStep(Prefixed(clauses), args, filters[..k], f);
        PrefixedSnoc(clauses, clause.value.text);
        clauses := clauses + [clause.value.text];
        args := args + clause.value.args;
      }
      assert filters[..|filters|] == filters;
      ghost var whole := Clause(Prefixed(clauses), args);
      RenderedAnswers(filters, whole);
      if clauses == [] {
        assert args == [] by { NothingBound(); }
        return Ok(Clause("", []));
      }
      JoinIsPrefixed(clauses);
      return Ok(Clause(" AND " + Join(clauses, " AND "), args));
    }
  }

  ghost predicate Answers(asked: Result<seq<Filter>, QueryError>, result: Result<Clause, QueryError>) {
    match asked
    case Err(e) => result == Err(e)
    case Ok(filters) =>
      match FirstBad(filters)
      case Some(e) => result == Err(e)
      case None =>
        && result.Ok?
        && Bind(result.value.text, result.value.args) == Readings(filters)
        && Placeholders(result.value.text) == |result.value.args|
  }

  lemma ErrorAnswers(e: QueryError)
    ensures Answers(Err(e), Err(e))
  {
  }

  lemma RefusedAnswers(filters: seq<Filter>, e: QueryError)
    requires FirstBad(filters) == Some(e)
    ensures Answers(Ok(filters), Err(e))
  {
  }

  lemma RenderedAnswers(filters: seq<Filter>, clause: Clause)
    requires FirstBad(filters).None? && Bind(clause.text, clause.args) == Readings(filters)
    requires Placeholders(clause.text) == |clause.args|
    ensures Answers(Ok(filters), Ok(clause))
  {
  }

  lemma NothingBound()
    ensures Bind("", []) == Readings([]) && Placeholders("") == 0
    ensures Prefixed([]) == "" && FirstBad([]).None?
  {
  }

  lemma PrefixedSnoc(clauses: seq<string>, clause: string)
    ensures Prefixed(clauses + [clause]) == Prefixed(clauses) + " AND " + clause
  {
    assert (clauses + [clause])[..|clauses|] == clauses;
  }

  // The first k filters are fine: the next decides whether k + 1 are, and a bad one is the answer
  // for the whole list.
  lemma FirstBadStep(filters: seq<Filter>, k: nat)
    requires k < |filters| && FirstBad(filters[..k]).None?
    ensures ClauseOf(filters[k]).Ok? ==> FirstBad(filters[..k + 1]).None?
    ensures ClauseOf(filters[k]).Err? ==> FirstBad(filters) == Some(ClauseOf(filters[k]).error)
  {
    hide ClauseOf;
    assert filters[..k + 1][..k] == filters[..k];
    if ClauseOf(filters[k]).Err? {
      FirstBadStays(filters, k + 1, ClauseOf(filters[k]).error);
    }
  }

  lemma {:induction false} FirstBadStays(filters: seq<Filter>, k: nat, e: QueryError)
    requires k <= |filters| && FirstBad(filters[..k]) == Some(e)
    ensures FirstBad(filters) == Some(e)
    decreases |filters|
  {
    hide ClauseOf;
    if k < |filters| {
      assert filters[..|filters| - 1][..k] == filters[..k];
      FirstBadStays(filters[..|filters| - 1], k, e);
    } else {
      assert filters[..k] == filters;
    }
  }

  // Call i is refused with this error, and every earlier call is accepted.
  predicate FirstRefused(columns: Columns, calls: seq<Call>, i: nat, e: QueryError) {
    i < |calls| && Accept(columns, calls[i]) == Err(e) && forall j | 0 <= j < i :: Accept(columns, calls[j]).Ok?
  }

  // No valid call is dropped: the filters asked for are the calls', one each, in order.
  lemma {:induction false} EveryCallIsAFilter(columns: Columns, calls: seq<Call>)
    ensures match Asked(columns, calls)
      case Ok(filters) => |filters| == |calls| && forall i | 0 <= i < |calls| :: Accept(columns, calls[i]) == Ok(filters[i])
      case Err(e) => exists i :: FirstRefused(columns, calls, i, e)
  {
    hide Accept;
    if calls != [] {
      var n := |calls| - 1;
      EveryCallIsAFilter(columns, calls[..n]);
      match Asked(columns, calls[..n]) {
        case Err(e) =>
          var i :| FirstRefused(columns, calls[..n], i, e);
          assert FirstRefused(columns, calls, i, e) by {
            assert forall j | 0 <= j <= i :: calls[j] == calls[..n][j];
          }
          assert Asked(columns, calls) == Err(e);
        case Ok(filters) =>
          if Accept(columns, calls[n]).Err? {
            forall j | 0 <= j < n ensures Accept(columns, calls[j]).Ok? {
              assert Accept(columns, calls[..n][j]) == Ok(filters[j]);
            }
            assert FirstRefused(columns, calls, n, Accept(columns, calls[n]).error);
            assert Asked(columns, calls) == Err(Accept(columns, calls[n]).error);
          }
      }
    }
  }

  // Nothing but an allowlisted column and a supported comparison ever enters a statement.
  lemma {:induction false} OnlyListedColumns(columns: Columns, calls: seq<Call>, i: nat)
    requires Asked(columns, calls).Ok? && i < |Asked(columns, calls).value|
    ensures Asked(columns, calls).value[i].column in columns.Values
    ensures Asked(columns, calls).value[i].op in OPS
  {
    var init := calls[..|calls| - 1];
    if i < |Asked(columns, init).value| {
      OnlyListedColumns(columns, init, i);
    }
  }

  // ---------------------------------------------------------------- no value reaches the text

  // Everything about a filter but its values.
  predicate SameShape(f: Filter, g: Filter) {
    && f.column == g.column && f.op == g.op && f.value.List? == g.value.List?
    && (f.value.List? ==> |f.value.values| == |g.value.values|)
  }

  // The statement text is the same for every choice of values.
  lemma TextIgnoresValues(f: Filter, g: Filter)
    requires SameShape(f, g)
    ensures ClauseOf(f).Ok? <==> ClauseOf(g).Ok?
    ensures ClauseOf(f).Ok? ==> ClauseOf(f).value.text == ClauseOf(g).value.text
    ensures ClauseOf(f).Ok? ==> |ClauseOf(f).value.args| == |ClauseOf(g).value.args|
  {
    hide Like.ContainsPattern, Sprint;
  }

  // ---------------------------------------------------------------- what a filter says

  // A contains filter on a text binds one pattern, which matches exactly the values holding the text.
  lemma ContainsFilterMatches(column: string, text: string, s: string)
    ensures ClauseOf(Filter(column, "LIKE", Text(text))).Ok?
    ensures var clause := ClauseOf(Filter(column, "LIKE", Text(text))).value;
      && clause.text == column + " LIKE ?" && |clause.args| == 1 && clause.args[0].Text?
      && (Like.Matches(s, clause.args[0].text) <==> Like.Contains(s, text))
  {
    Like.ContainsIsSubstring(s, text);
    hide Like.Matches, Like.Contains, Like.ContainsPattern;
  }

  // The same for a number, read as it prints, and for a list, read in brackets with spaces between.
  lemma ContainsFilterPrints(column: string, v: Value, s: string)
    ensures ClauseOf(Filter(column, "LIKE", v)).Ok?
    ensures var clause := ClauseOf(Filter(column, "LIKE", v)).value;
      && clause.text == column + " LIKE ?" && |clause.args| == 1 && clause.args[0].Text?
      && (v.Other? ==> (Like.Matches(s, clause.args[0].text) <==> Like.Contains(s, v.printed)))
      && (v == List([]) ==> (Like.Matches(s, clause.args[0].text) <==> Like.Contains(s, "[]")))
      && (v.List? && |v.values| == 2 ==>
            (Like.Matches(s, clause.args[0].text) <==> Like.Contains(s, "[" + v.values[0] + " " + v.values[1] + "]")))
  {
    Like.ContainsIsSubstring(s, Sprint(v));
    if v.List? && |v.values| == 2 {
      assert v.values[..1] == [v.values[0]];
      assert Join(v.values, " ") == v.values[0] + " " + v.values[1];
      assert "[" + (v.values[0] + " " + v.values[1]) + "]" == "[" + v.values[0] + " " + v.values[1] + "]";
    }
    assert Join([], " ") == "" && "[" + "" + "]" == "[]";
    hide Like.Matches, Like.Contains, Like.ContainsPattern, Join;
  }

  // How each comparison reads once bound, the value itself in the place of its placeholder.
  lemma ComparisonReads(column: string, op: Op, v: Value)
    requires '?' !in column
    ensures op in {"=", "!=", ">=", "<=", "hasToken"} || (op == "hasAny" && v.List? && v.values != []) ==>
      ClauseOf(Filter(column, op, v)).Ok?
    ensures op in {"=", "!=", ">=", "<="} ==>
      Shown(Filter(column, op, v)) == Chars(column + " " + op + " ") + [Bound(v)]
    ensures op == "hasToken" ==>
      Shown(Filter(column, op, v)) == Chars("hasToken(" + column + ", ") + [Bound(v)] + [Char(')')]
    ensures op == "hasAny" && v.List? && v.values != [] ==>
      Shown(Filter(column, op, v)) == Chars("hasAny(" + column + ", ") + [Bound(v)] + [Char(')')]
  {
    hide Bind, Placeholders, Chars;
    PlainEmpty();
    if op in {"=", "!=", ">=", "<="} {
      var before := column + " " + op + " ";
      BindOne(before, v, "");
      assert ClauseOf(Filter(column, op, v)).value.text == before + "?" + "";
    } else if op == "hasToken" {
      var before := "hasToken(" + column + ", ";
      BindOne(before, v, ")");
      assert ClauseOf(Filter(column, op, v)).value.text == before + "?" + ")";
    } else if op == "hasAny" {
      var before := "hasAny(" + column + ", ";
      BindOne(before, v, ")");
      assert "hasAny(" + column + ", ?)" == before + "?" + ")";
    }
  }

  // A filter's clause with its arguments in place.
  ghost function Shown(f: Filter): seq<Piece>
    requires ClauseOf(f).Ok?
  {
    Bind(ClauseOf(f).value.text, ClauseOf(f).value.args)
  }

  // A list filter reads as its values between commas, each bound by itself.
  lemma ListReads(column: string, values: seq<string>)
    requires '?' !in column && values != []
    ensures ClauseOf(Filter(column, "IN", List(values))).Ok?
    ensures exists inner ::
      Commas(inner, values) && Shown(Filter(column, "IN", List(values))) == Chars(column + " IN (") + inner + [Char(')')]
  {
    var inner := Listed(Texts(values));
    ListClauseBinds(column, Texts(values));
    ListedAt(Texts(values));
    assert Commas(inner, values);
    hide Bind, Chars, Listed, Marks;
  }

  ghost predicate Commas(inner: seq<Piece>, values: seq<string>) {
    && |inner| == 2 * |values| - 1
    && (forall i | 0 <= i < |values| :: inner[2 * i] == Bound(Text(values[i])))
    && (forall i | 0 <= i < |values| - 1 :: inner[2 * i + 1] == Char(','))
  }

  lemma {:induction false} ListedAt(values: seq<Value>)
    requires values != []
    ensures |Listed(values)| == 2 * |values| - 1
    ensures forall i | 0 <= i < |values| :: Listed(values)[2 * i] == Bound(values[i])
    ensures forall i | 0 <= i < |values| - 1 :: Listed(values)[2 * i + 1] == Char(',')
  {
    if |values| > 1 {
      ListedAt(values[1..]);
      var rest := Listed(values[1..]);
      forall i | 0 <= i < |values| ensures Listed(values)[2 * i] == Bound(values[i]) {
        assert i > 0 ==> Listed(values)[2 * i] == rest[2 * (i - 1)];
      }
      forall i | 0 <= i < |values| - 1 ensures Listed(values)[2 * i + 1] == Char(',') {
        assert i > 0 ==> Listed(values)[2 * i + 1] == rest[2 * (i - 1) + 1];
      }
    }
  }

  // A filter is refused exactly when it wants a list and has none, or its comparison does not exist.
  lemma RefusedExactlyWhen(f: Filter)
    ensures ClauseOf(f).Err? <==>
      || (f.op in {"IN", "hasAny"} && !(f.value.List? && f.value.values != []))
      || f.op !in {"=", "!=", ">=", "<=", "IN", "LIKE", "hasToken", "hasAny"}
    ensures ClauseOf(f).Err? ==>
      ClauseOf(f).error == if f.op in {"IN", "hasAny"} then NeedsAValue(f.column) else UnsupportedComparison(f.op)
  {
    hide Marks, Texts, Sprint, Like.ContainsPattern;
  }

  // The field is a listed one in any case, with any spaces around it.
  ghost predicate IsField(field: string, key: string) {
    exists before, name, after :: Around(field, before, name, after) && IsTrimmed(name) && FoldsTo(name, key)
  }

  ghost predicate Around(field: string, before: string, name: string, after: string) {
    field == before + name + after && AllSpaces(before) && AllSpaces(after)
  }

  lemma FieldIsItsName(field: string, key: string)
    ensures IsField(field, key) <==> ToLower(TrimSpace(field)) == key
  {
    hide IsSpace, TrimSpace, ToLower, AllSpaces, IsTrimmed, FoldsTo;
    var before, after := TrimSplits(field);
    TrimTwice(field);
    FoldsToIsToLower(TrimSpace(field), key);
    assert Around(field, before, TrimSpace(field), after);
    if IsField(field, key) {
      var b, name, a :| Around(field, b, name, a) && IsTrimmed(name) && FoldsTo(name, key);
      TrimSpaceCuts(b, name, a);
    }
  }

  // A call is accepted exactly when it names a listed field and a comparison there is; it then becomes
  // a filter on that field's column, its comparison and value as given. The field is checked first.
  lemma AcceptedExactlyWhen(columns: Columns, call: Call)
    ensures Accept(columns, call).Ok?
       <==> (exists key | key in columns :: IsField(call.field, key))
            && call.op in {"=", "!=", ">=", "<=", "IN", "LIKE", "hasToken", "hasAny"}
    ensures Accept(columns, call).Ok? ==> forall key | key in columns && IsField(call.field, key) ::
      Accept(columns, call).value == Filter(columns[key], call.op, call.value)
    ensures Accept(columns, call).Err? ==>
      Accept(columns, call).error
      == (if exists key | key in columns :: IsField(call.field, key) then UnsupportedComparison(call.op)
          else UnknownField(call.field))
  {
    hide IsField, TrimSpace, ToLower;
    forall key ensures IsField(call.field, key) <==> ToLower(TrimSpace(call.field)) == key {
      FieldIsItsName(call.field, key);
    }
  }

  // Filter i has no clause, for this reason, and every earlier one has.
  predicate FirstRefusedFilter(filters: seq<Filter>, i: nat, e: QueryError) {
    i < |filters| && ClauseOf(filters[i]) == Err(e) && forall j | 0 <= j < i :: ClauseOf(filters[j]).Ok?
  }

  lemma {:induction false} FirstBadIsTheFirst(filters: seq<Filter>)
    ensures FirstBad(filters).None? <==> forall f | f in filters :: ClauseOf(f).Ok?
    ensures FirstBad(filters).Some? ==> exists i: nat :: FirstRefusedFilter(filters, i, FirstBad(filters).value)
  {
    hide ClauseOf;
    if filters != [] {
      var n := |filters| - 1;
      FirstBadIsTheFirst(filters[..n]);
      assert filters == filters[..n] + [filters[n]];
      if FirstBad(filters[..n]).Some? {
        var i: nat :| FirstRefusedFilter(filters[..n], i, FirstBad(filters[..n]).value);
        assert FirstRefusedFilter(filters, i, FirstBad(filters).value) by {
          assert forall j | 0 <= j <= i :: filters[j] == filters[..n][j];
        }
      } else if ClauseOf(filters[n]).Err? {
        assert forall j | 0 <= j < n :: filters[j] in filters[..n];
        assert FirstRefusedFilter(filters, n, FirstBad(filters).value);
      }
    }
  }

  // A list of filters reads one after another, each behind its own AND.
  lemma ReadingsSay(before: seq<Filter>, f: Filter)
    requires '?' !in f.column && ClauseOf(f).Ok?
    ensures Readings([]) == []
    ensures Readings(before + [f]) == Readings(before) + Chars(" AND ") + Shown(f)
  {
    ClauseBinds(f);
    hide Bind, ClauseOf, Reading, Chars;
    assert (before + [f])[..|before|] == before;
  }

  // The fragment a chain of calls renders to: no call is dropped, each reads as its own filter, and the
  // first problem of the chain is the answer when there is one.
  lemma ConditionsSay(columns: Columns, calls: seq<Call>, result: Result<Clause, QueryError>)
    requires Answers(Asked(columns, calls), result)
    ensures result.Ok? <==> forall i | 0 <= i < |calls| ::
      Accept(columns, calls[i]).Ok? && ClauseOf(Accept(columns, calls[i]).value).Ok?
    ensures result.Ok? ==> exists filters :: Rendered(columns, calls, filters, result.value)
  {
    EveryCallIsAFilter(columns, calls);
    hide Accept, ClauseOf, Bind, Placeholders, Asked;
    match Asked(columns, calls) {
      case Err(e) =>
        var i: nat :| FirstRefused(columns, calls, i, e);
        assert !Accept(columns, calls[i]).Ok?;
      case Ok(filters) =>
        FirstBadIsTheFirst(filters);
        if FirstBad(filters).Some? {
          var i: nat :| FirstRefusedFilter(filters, i, FirstBad(filters).value);
          assert Accept(columns, calls[i]) == Ok(filters[i]);
        } else {
          assert forall i | 0 <= i < |calls| :: filters[i] in filters;
          assert Rendered(columns, calls, filters, result.value);
        }
    }
  }

  ghost predicate Rendered(columns: Columns, calls: seq<Call>, filters: seq<Filter>, clause: Clause) {
    && |filters| == |calls| && (forall i | 0 <= i < |calls| :: Accept(columns, calls[i]) == Ok(filters[i]))
    && Bind(clause.text, clause.args) == Readings(filters)
  }
}
