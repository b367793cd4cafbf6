/** Book search conditions, the parameterised statement built from them and
    the meaning the store gives that statement. */
module Queries {
  import opened Entities
  import opened Strings
  import opened Ordering

  /** Optional filters (`None` is a Java `null`) and the mandatory sort. */
  datatype Conditions = Conditions(
    category: Option<string>,
    title: Option<string>,
    press: Option<string>,
    minPublishYear: Option<int>,
    maxPublishYear: Option<int>,
    author: Option<string>,
    minPrice: Option<int>,
    maxPrice: Option<int>,
    sortBy: SortColumn,
    sortOrder: SortOrder)

  /** What a search promises: exact category, substring title, press and
      author, inclusive year and price bounds; an absent condition admits all. */
  predicate Matches(c: Conditions, b: BookRow)
  {
    && (c.category.Some? ==> b.category == c.category.value)
    && (c.title.Some? ==> Contains(b.title, c.title.value))
    && (c.press.Some? ==> Contains(b.press, c.press.value))
    && (c.minPublishYear.Some? ==> c.minPublishYear.value <= b.publishYear)
    && (c.maxPublishYear.Some? ==> b.publishYear <= c.maxPublishYear.value)
    && (c.author.Some? ==> Contains(b.author, c.author.value))
    && (c.minPrice.Some? ==> c.minPrice.value <= b.price)
    && (c.maxPrice.Some? ==> b.price <= c.maxPrice.value)
  }

  /** The substring conditions hold no `LIKE` wildcard. */
  predicate PlainPatterns(c: Conditions)
  {
    && (c.title.Some? ==> NoWildcards(c.title.value))
    && (c.press.Some? ==> NoWildcards(c.press.value))
    && (c.author.Some? ==> NoWildcards(c.author.value))
  }

  /** One `AND` clause of the statement, each with one placeholder. */
  datatype Clause = CategoryEq | TitleLike | PressLike | MinYear | MaxYear | AuthorLike | MinPrice | MaxPrice

  /** A value bound to a placeholder, by its JDBC setter. */
  datatype Param = StringParam(s: string) | IntParam(n: int) | DoubleParam(d: int)

  datatype Filter = Filter(clause: Clause, param: Param)

  /** The position of a clause in the fixed order the statement uses. */
  function Rank(cl: Clause): nat
  {
    match cl
    case CategoryEq => 0
    case TitleLike => 1
    case PressLike => 2
    case MinYear => 3
    case MaxYear => 4
    case AuthorLike => 5
    case MinPrice => 6
    case MaxPrice => 7
  }

  /** Whether the condition a clause tests is present. */
  predicate IsSet(c: Conditions, cl: Clause)
  {
    match cl
    case CategoryEq => c.category.Some?
    case TitleLike => c.title.Some?
    case PressLike => c.press.Some?
    case MinYear => c.minPublishYear.Some?
    case MaxYear => c.maxPublishYear.Some?
    case AuthorLike => c.author.Some?
    case MinPrice => c.minPrice.Some?
    case MaxPrice => c.maxPrice.Some?
  }

  /** The value bound for a present condition: the condition itself, or
      `%x%` for a substring condition. */
  function ParamOf(c: Conditions, cl: Clause): Param
    requires IsSet(c, cl)
  {
    match cl
    case CategoryEq => StringParam(c.category.value)
    case TitleLike => StringParam(SubstringPattern(c.title.value))
    case PressLike => StringParam(SubstringPattern(c.press.value))
    case MinYear => IntParam(c.minPublishYear.value)
    case MaxYear => IntParam(c.maxPublishYear.value)
    case AuthorLike => StringParam(SubstringPattern(c.author.value))
    case MinPrice => DoubleParam(c.minPrice.value)
    case MaxPrice => DoubleParam(c.maxPrice.value)
  }

  /** The pair a condition contributes: none when it is absent. */
  function Slot(c: Conditions, cl: Clause): seq<Filter>
  {
    if IsSet(c, cl) then [Filter(cl, ParamOf(c, cl))] else []
  }

  /** The fixed order in which conditions are tested. */
  const Order: seq<Clause> :=
    [CategoryEq, TitleLike, PressLike, MinYear, MaxYear, AuthorLike, MinPrice, MaxPrice]

  /** The pairs the first `n` conditions of `Order` contribute. */
  function Prefix(c: Conditions, n: nat): seq<Filter>
    requires n <= |Order|
  {
    if n == 0 then [] else Prefix(c, n - 1) + Slot(c, Order[n - 1])
  }

  /** The (clause, parameter) pairs of the present conditions, in order. */
  function Filters(c: Conditions): seq<Filter>
  {
    Prefix(c, |Order|)
  }

  const SelectAll: string := "SELECT * FROM book WHERE 1=1"

  function ClauseText(cl: Clause): string
  {
    match cl
    case CategoryEq => " AND category = ?"
    case TitleLike => " AND title LIKE ?"
    case PressLike => " AND press LIKE ?"
    case MinYear => " AND publish_year >= ?"
    case MaxYear => " AND publish_year <= ?"
    case AuthorLike => " AND author LIKE ?"
    case MinPrice => " AND price >= ?"
    case MaxPrice => " AND price <= ?"
  }

  /** The statement text once the clauses are appended to the base query. */
  function SqlText(q: seq<Clause>): string
  {
    if q == [] then SelectAll else SqlText(q[..|q| - 1]) + ClauseText(q[|q| - 1])
  }

  /** The number of `?` placeholders in a statement text. */
  function Placeholders(s: string): nat
  {
    if s == [] then 0 else Placeholders(s[..|s| - 1]) + (if s[|s| - 1] == '?' then 1 else 0)
  }

  lemma {:induction false} PlaceholdersAppend(a: string, b: string)
    ensures Placeholders(a + b) == Placeholders(a) + Placeholders(b)
    decreases |b|
  {
    if b == [] {
      assert a + b == a;
    } else {
      assert (a + b)[..|a + b| - 1] == a + b[..|b| - 1];
      PlaceholdersAppend(a, b[..|b| - 1]);
    }
  }

  lemma PlaceholdersOfClause(cl: Clause)
    ensures Placeholders(ClauseText(cl)) == 1
  {
    var t := ClauseText(cl);
    var init := t[..|t| - 1];
    assert t[|t| - 1] == '?';
    assert '?' !in init;
    PlaceholdersNone(init);
  }

  lemma {:induction false} PlaceholdersNone(s: string)
    requires '?' !in s
    ensures Placeholders(s) == 0
  {
    if s != [] {
      assert s == s[..|s| - 1] + [s[|s| - 1]];
      PlaceholdersNone(s[..|s| - 1]);
    }
  }

  /** The statement text has one placeholder per appended clause. */
  lemma {:induction false} SqlPlaceholders(q: seq<Clause>)
    ensures Placeholders(SqlText(q)) == |q|
  {
    if q == [] {
      PlaceholdersNone(SelectAll);
    } else {
      SqlPlaceholders(q[..|q| - 1]);
      PlaceholdersOfClause(q[|q| - 1]);
      PlaceholdersAppend(SqlText(q[..|q| - 1]), ClauseText(q[|q| - 1]));
    }
  }

  /** How the store evaluates one clause with the value bound to it; a value
      of the wrong kind would satisfy nothing. */
  predicate Holds(cl: Clause, p: Param, b: BookRow)
  {
    match (cl, p)
    case (CategoryEq, StringParam(s)) => b.category == s
    case (TitleLike, StringParam(s)) => Like(b.title, s)
    case (PressLike, StringParam(s)) => Like(b.press, s)
    case (MinYear, IntParam(n)) => b.publishYear >= n
    case (MaxYear, IntParam(n)) => b.publishYear <= n
    case (AuthorLike, StringParam(s)) => Like(b.author, s)
    case (MinPrice, DoubleParam(d)) => b.price >= d
    case (MaxPrice, DoubleParam(d)) => b.price <= d
    case _ => false
  }

  /** A row satisfies a prepared statement when every clause holds with the
      value bound at its 1-based position. */
  predicate SatisfiesWhere(q: seq<Clause>, bindings: map<int, Param>, b: BookRow)
  {
    forall i | 0 <= i < |q| :: i + 1 in bindings && Holds(q[i], bindings[i + 1], b)
  }

  /** The rows the built statement selects. */
  predicate SqlMatches(c: Conditions, b: BookRow)
  {
    forall f | f in Filters(c) :: Holds(f.clause, f.param, b)
  }

  /** The clause texts of the pairs `fs`, in order. */
  function ClausesOf(fs: seq<Filter>): seq<Clause>
  {
    if fs == [] then [] else ClausesOf(fs[..|fs| - 1]) + [fs[|fs| - 1].clause]
  }

  /** The values of the pairs `fs`, bound at positions 1 to |fs|. */
  function BindingsOf(fs: seq<Filter>): map<int, Param>
  {
    if fs == [] then map[] else BindingsOf(fs[..|fs| - 1])[|fs| := fs[|fs| - 1].param]
  }

  lemma {:induction false} ClausesOfAt(fs: seq<Filter>)
    ensures |ClausesOf(fs)| == |fs|
    ensures forall i | 0 <= i < |fs| :: ClausesOf(fs)[i] == fs[i].clause
  {
    if fs != [] {
      var init := fs[..|fs| - 1];
      ClausesOfAt(init);
      forall i | 0 <= i < |fs| ensures ClausesOf(fs)[i] == fs[i].clause {
        if i < |fs| - 1 {
          assert ClausesOf(fs)[i] == ClausesOf(init)[i] && init[i] == fs[i];
        }
      }
    }
  }

  lemma {:induction false} BindingsOfAt(fs: seq<Filter>)
    ensures forall k :: k in BindingsOf(fs) <==> 1 <= k <= |fs|
    ensures forall i | 0 <= i < |fs| :: BindingsOf(fs)[i + 1] == fs[i].param
  {
    if fs != [] {
      var init := fs[..|fs| - 1];
      BindingsOfAt(init);
      assert BindingsOf(fs) == BindingsOf(init)[|fs| := fs[|fs| - 1].param];
      assert forall k :: k in BindingsOf(fs) <==> 1 <= k <= |fs|;
      forall i | 0 <= i < |fs| ensures BindingsOf(fs)[i + 1] == fs[i].param {
        if i < |fs| - 1 {
          assert BindingsOf(fs)[i + 1] == BindingsOf(init)[i + 1] && init[i] == fs[i];
        }
      }
    }
  }

  lemma ClauseStep(c: Conditions, n: nat)
    requires n < |Order|
    ensures IsSet(c, Order[n]) ==> ClausesOf(Prefix(c, n + 1)) == ClausesOf(Prefix(c, n)) + [Order[n]]
    ensures !IsSet(c, Order[n]) ==> ClausesOf(Prefix(c, n + 1)) == ClausesOf(Prefix(c, n))
  {
    var fs := Prefix(c, n);
    if IsSet(c, Order[n]) {
      assert Prefix(c, n + 1)[..|fs|] == fs;
    } else {
      assert Prefix(c, n + 1) == fs;
    }
  }

  lemma BindingStep(c: Conditions, n: nat)
    requires n < |Order|
    ensures IsSet(c, Order[n]) ==> |Prefix(c, n + 1)| == |Prefix(c, n)| + 1
    ensures IsSet(c, Order[n]) ==>
      BindingsOf(Prefix(c, n + 1)) == BindingsOf(Prefix(c, n))[|Prefix(c, n)| + 1 := ParamOf(c, Order[n])]
    ensures !IsSet(c, Order[n]) ==> Prefix(c, n + 1) == Prefix(c, n)
  {
    var fs := Prefix(c, n);
    if IsSet(c, Order[n]) {
      assert Prefix(c, n + 1)[..|fs|] == fs;
    }
  }

  /** First pass of `queryBook`: the clause text of each present condition
      appended to the base query, condition by condition in `Order`. */
  method AppendClauses(c: Conditions) returns (query: seq<Clause>)
    ensures query == ClausesOf(Filters(c))
  {
    query := [];
    for n := 0 to |Order|
      invariant query == ClausesOf(Prefix(c, n))
    {
      ClauseStep(c, n);
      if IsSet(c, Order[n]) {
        query := query + [Order[n]];
      }
    }
  }

  /** Second pass of `queryBook`: the value of each present condition bound
      at a running 1-based index, condition by condition in `Order`. */
  method BindParameters(c: Conditions) returns (bindings: map<int, Param>)
    ensures bindings == BindingsOf(Filters(c))
  {
    bindings := map[];
    var index := 1;
    for n := 0 to |Order|
      invariant index == |Prefix(c, n)| + 1
      invariant bindings == BindingsOf(Prefix(c, n))
    {
      BindingStep(c, n);
      if IsSet(c, Order[n]) {
        bindings := bindings[index := ParamOf(c, Order[n])];
        index := index + 1;
      }
    }
  }

  /** The statement `queryBook` prepares: as many placeholders as bound
      values, and clause and value at each position from the same present
      condition. */
  method BuildQuery(c: Conditions) returns (query: seq<Clause>, bindings: map<int, Param>)
    ensures Placeholders(SqlText(query)) == |query| == |Filters(c)|
    ensures forall i | 0 <= i < |query| :: query[i] == Filters(c)[i].clause
    ensures forall k :: k in bindings <==> 1 <= k <= |query|
    ensures forall i | 0 <= i < |query| :: bindings[i + 1] == Filters(c)[i].param
  {
    query := AppendClauses(c);
    bindings := BindParameters(c);
    ClausesOfAt(Filters(c));
    BindingsOfAt(Filters(c));
    SqlPlaceholders(query);
  }

  lemma OrderRank(cl: Clause)
    ensures Rank(cl) < |Order| && Order[Rank(cl)] == cl
  {
  }

  lemma {:induction false} PrefixMembers(c: Conditions, n: nat)
    requires n <= |Order|
    ensures forall f | f in Prefix(c, n) ::
      Rank(f.clause) < n && IsSet(c, f.clause) && f.param == ParamOf(c, f.clause)
    ensures forall cl | Rank(cl) < n && IsSet(c, cl) :: Filter(cl, ParamOf(c, cl)) in Prefix(c, n)
    ensures forall i, j | 0 <= i < j < |Prefix(c, n)| ::
      Rank(Prefix(c, n)[i].clause) < Rank(Prefix(c, n)[j].clause)
  {
    if n > 0 {
      PrefixMembers(c, n - 1);
      var p, q := Prefix(c, n - 1), Prefix(c, n);
      assert Rank(Order[n - 1]) == n - 1;
      forall cl | Rank(cl) < n && IsSet(c, cl) ensures Filter(cl, ParamOf(c, cl)) in q {
        OrderRank(cl);
      }
      forall i, j | 0 <= i < j < |q| ensures Rank(q[i].clause) < Rank(q[j].clause) {
        if j >= |p| {
          assert q[j].clause == Order[n - 1];
          assert i < |p| && q[i] == p[i] && p[i] in p;
        } else {
          assert q[i] == p[i] && q[j] == p[j];
        }
      }
    }
  }

  /** The built filters are exactly the present conditions, each with its
      value, in the fixed order: one placeholder per non-null condition. */
  lemma FiltersExactlyPresent(c: Conditions)
    ensures forall f | f in Filters(c) :: IsSet(c, f.clause) && f.param == ParamOf(c, f.clause)
    ensures forall cl | IsSet(c, cl) :: Filter(cl, ParamOf(c, cl)) in Filters(c)
    ensures forall i, j | 0 <= i < j < |Filters(c)| ::
      Rank(Filters(c)[i].clause) < Rank(Filters(c)[j].clause)
  {
    PrefixMembers(c, |Order|);
    forall cl | IsSet(c, cl) ensures Filter(cl, ParamOf(c, cl)) in Filters(c) {
      OrderRank(cl);
    }
  }

  /** Every present condition's clause holds with the value bound for it. */
  predicate PresentHold(c: Conditions, b: BookRow)
  {
    forall cl | IsSet(c, cl) :: Holds(cl, ParamOf(c, cl), b)
  }

  /** The filters test exactly the present conditions. */
  lemma SqlMatchesPresent(c: Conditions, b: BookRow)
    ensures SqlMatches(c, b) <==> PresentHold(c, b)
  {
    FiltersExactlyPresent(c);
    if SqlMatches(c, b) {
      forall cl | IsSet(c, cl) ensures Holds(cl, ParamOf(c, cl), b) {
        assert Filter(cl, ParamOf(c, cl)) in Filters(c);
      }
    }
  }

  /** With wildcard-free patterns each present clause tests what its
      condition describes. */
  lemma PresentHoldMeaning(c: Conditions, b: BookRow)
    requires PlainPatterns(c)
    ensures PresentHold(c, b) <==> Matches(c, b)
  {
    if c.title.Some? {
      LikeSubstring(b.title, c.title.value);
    }
    if c.press.Some? {
      LikeSubstring(b.press, c.press.value);
    }
    if c.author.Some? {
      LikeSubstring(b.author, c.author.value);
    }
    if PresentHold(c, b) {
      assert IsSet(c, CategoryEq) ==> Holds(CategoryEq, ParamOf(c, CategoryEq), b);
      assert IsSet(c, TitleLike) ==> Holds(TitleLike, ParamOf(c, TitleLike), b);
      assert IsSet(c, PressLike) ==> Holds(PressLike, ParamOf(c, PressLike), b);
      assert IsSet(c, MinYear) ==> Holds(MinYear, ParamOf(c, MinYear), b);
      assert IsSet(c, MaxYear) ==> Holds(MaxYear, ParamOf(c, MaxYear), b);
      assert IsSet(c, AuthorLike) ==> Holds(AuthorLike, ParamOf(c, AuthorLike), b);
      assert IsSet(c, MinPrice) ==> Holds(MinPrice, ParamOf(c, MinPrice), b);
      assert IsSet(c, MaxPrice) ==> Holds(MaxPrice, ParamOf(c, MaxPrice), b);
    }
  }

  /** For wildcard-free substring conditions the filters the statement
      applies select exactly the books the conditions describe. */
  lemma FiltersMeaning(c: Conditions, b: BookRow)
    requires PlainPatterns(c)
    ensures SqlMatches(c, b) <==> Matches(c, b)
  {
    SqlMatchesPresent(c, b);
    PresentHoldMeaning(c, b);
  }

  /** A prepared statement built as `BuildQuery` promises selects the rows
      the filters select. */
  lemma StatementMeaning(c: Conditions, query: seq<Clause>, bindings: map<int, Param>, b: BookRow)
    requires |query| == |Filters(c)|
    requires forall i | 0 <= i < |query| :: query[i] == Filters(c)[i].clause
    requires forall k :: k in bindings <==> 1 <= k <= |query|
    requires forall i | 0 <= i < |query| :: bindings[i + 1] == Filters(c)[i].param
    ensures SatisfiesWhere(query, bindings, b) <==> SqlMatches(c, b)
  {
    var fs := Filters(c);
    if SatisfiesWhere(query, bindings, b) {
      forall f | f in fs ensures Holds(f.clause, f.param, b) {
        var i :| 0 <= i < |fs| && fs[i] == f;
        assert Holds(query[i], bindings[i + 1], b);
      }
    }
    if SqlMatches(c, b) {
      forall i | 0 <= i < |query| ensures i + 1 in bindings && Holds(query[i], bindings[i + 1], b) {
        assert fs[i] in fs;
      }
    }
  }

  /** The rows, in table order, that the statement built from `c` selects. */
  function Selected(c: Conditions, rows: seq<BookRow>): seq<BookRow>
  {
    if rows == [] then []
    else Selected(c, rows[..|rows| - 1]) + (if SqlMatches(c, rows[|rows| - 1]) then [rows[|rows| - 1]] else [])
  }

  /** Selecting keeps every matching row as often as the table holds it and
      drops every other row. */
  lemma {:induction false} SelectedCounts(c: Conditions, rows: seq<BookRow>)
    ensures forall b :: multiset(Selected(c, rows))[b] == if SqlMatches(c, b) then multiset(rows)[b] else 0
  {
    if rows != [] {
      var init, last := rows[..|rows| - 1], rows[|rows| - 1];
      assert rows == init + [last];
      SelectedCounts(c, init);
      assert multiset(rows) == multiset(init) + multiset{last};
    }
  }

  lemma SelectedMembers(c: Conditions, rows: seq<BookRow>)
    ensures forall b :: b in Selected(c, rows) <==> b in rows && SqlMatches(c, b)
  {
    SelectedCounts(c, rows);
    forall b ensures b in Selected(c, rows) <==> b in rows && SqlMatches(c, b) {
      assert b in Selected(c, rows) <==> multiset(Selected(c, rows))[b] > 0;
      assert b in rows <==> multiset(rows)[b] > 0;
    }
  }

  /** Selecting keeps the table's identities valid and distinct. */
  lemma {:induction false} SelectedIds(c: Conditions, rows: seq<BookRow>)
    requires AllValidIds(rows) && DistinctIds(rows)
    ensures AllValidIds(Selected(c, rows)) && DistinctIds(Selected(c, rows))
  {
    if rows != [] {
      var init, last := rows[..|rows| - 1], rows[|rows| - 1];
      assert AllValidIds(init) && DistinctIds(init) by {
        forall i | 0 <= i < |init| ensures init[i] == rows[i] { }
      }
      SelectedIds(c, init);
      SelectedMembers(c, init);
      var si := Selected(c, init);
      var r := Selected(c, rows);
      forall i | 0 <= i < |si| ensures si[i].bookId != last.bookId {
        assert si[i] in init;
        var k :| 0 <= k < |init| && init[k] == si[i];
        assert rows[k] == si[i];
      }
      forall i, j | 0 <= i < j < |r| ensures r[i].bookId != r[j].bookId {
        if j < |si| {
          assert r[i] == si[i] && r[j] == si[j];
        } else {
          assert r[i] == si[i] && r[j] == last;
        }
      }
      forall i | 0 <= i < |r| ensures ValidBookId(r[i].bookId) {
        if i < |si| {
          assert r[i] == si[i];
        }
      }
    }
  }

  predicate NoConditions(c: Conditions)
  {
    && c.category.None? && c.title.None? && c.press.None?
    && c.minPublishYear.None? && c.maxPublishYear.None? && c.author.None?
    && c.minPrice.None? && c.maxPrice.None?
  }

  lemma {:induction false} NoConditionsNoFilters(c: Conditions, n: nat)
    requires NoConditions(c) && n <= |Order|
    ensures Prefix(c, n) == []
  {
    if n > 0 {
      NoConditionsNoFilters(c, n - 1);
    }
  }

  lemma SelectedSnoc(c: Conditions, init: seq<BookRow>, last: BookRow)
    ensures Selected(c, init + [last]) == Selected(c, init) + (if SqlMatches(c, last) then [last] else [])
  {
    assert (init + [last])[..|init|] == init;
  }

  /** With no condition present every row is selected, in table order. */
  lemma {:induction false} NoConditionsSelectAll(c: Conditions, rows: seq<BookRow>)
    requires NoConditions(c)
    ensures Selected(c, rows) == rows
  {
    if rows != [] {
      var init, last := rows[..|rows| - 1], rows[|rows| - 1];
      assert SqlMatches(c, last) by {
        NoConditionsNoFilters(c, |Order|);
      }
      assert Selected(c, init) == init by {
        NoConditionsSelectAll(c, init);
      }
      assert rows == init + [last];
      SelectedSnoc(c, init, last);
    }
  }

  /** The sorted result of a search depends only on which rows the table
      holds, not on the order in which the store returns them. */
  lemma ResultIndependentOfRowOrder(c: Conditions, rows: seq<BookRow>, rows': seq<BookRow>)
    requires multiset(rows) == multiset(rows')
    requires AllValidIds(rows) && DistinctIds(rows) && AllValidIds(rows') && DistinctIds(rows')
    ensures SortBooks(c.sortBy, c.sortOrder, Selected(c, rows)) == SortBooks(c.sortBy, c.sortOrder, Selected(c, rows'))
  {
    var s, s' := Selected(c, rows), Selected(c, rows');
    assert multiset(s) == multiset(s') by {
      SelectedCounts(c, rows);
      SelectedCounts(c, rows');
      forall b ensures multiset(s)[b] == multiset(s')[b] { }
    }
    SelectedIds(c, rows);
    SelectedIds(c, rows');
    SortBooksSorted(c.sortBy, c.sortOrder, s);
    SortBooksSorted(c.sortBy, c.sortOrder, s');
    SortedUnique(c.sortBy, c.sortOrder, SortBooks(c.sortBy, c.sortOrder, s), SortBooks(c.sortBy, c.sortOrder, s'));
  }
}
