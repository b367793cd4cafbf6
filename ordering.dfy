/** The order of query results: one column comparator, reversed for DESC,
    with ascending book id breaking ties; and the sort that applies it. */
module Ordering {
  import opened Entities
  import opened Strings

  /** The attribute a query sorts by. */
  datatype SortColumn = BookId | Category | Title | Press | PublishYear | Author | Price | Stock

  datatype SortOrder = Asc | Desc

  /** The value a column comparator looks at. */
  datatype SortKey = IntKey(n: int) | StrKey(s: string)

  function KeyOf(col: SortColumn, b: BookRow): SortKey
  {
    match col
    case BookId => IntKey(b.bookId)
    case Category => StrKey(b.category)
    case Title => StrKey(b.title)
    case Press => StrKey(b.press)
    case PublishYear => IntKey(b.publishYear)
    case Author => StrKey(b.author)
    case Price => IntKey(b.price)
    case Stock => IntKey(b.stock)
  }

  /** Natural order of column values: numbers by value, text lexicographically. */
  function KeyCmp(k: SortKey, l: SortKey): (r: int)
    ensures -1 <= r <= 1
  {
    match (k, l)
    case (IntKey(m), IntKey(n)) => if m < n then -1 else if m > n then 1 else 0
    case (StrKey(s), StrKey(t)) => StrCmp(s, t)
    case (IntKey(_), StrKey(_)) => -1
    case (StrKey(_), IntKey(_)) => 1
  }

  lemma KeyCmpProperties(k: SortKey, l: SortKey)
    ensures KeyCmp(k, l) == -KeyCmp(l, k)
    ensures KeyCmp(k, l) == 0 <==> k == l
  {
    if k.StrKey? && l.StrKey? {
      StrCmpAntisymmetric(k.s, l.s);
      StrCmpZero(k.s, l.s);
    }
  }

  lemma KeyCmpTransitive(k: SortKey, l: SortKey, m: SortKey)
    requires KeyCmp(k, l) < 0 && KeyCmp(l, m) < 0
    ensures KeyCmp(k, m) < 0
  {
    if k.StrKey? && l.StrKey? && m.StrKey? {
      StrCmpTransitive(k.s, l.s, m.s);
    }
  }

  /** The column comparator, reversed (arguments swapped) for DESC. */
  function DirectedCmp(col: SortColumn, ord: SortOrder, a: BookRow, b: BookRow): int
  {
    if ord == Asc then KeyCmp(KeyOf(col, a), KeyOf(col, b))
    else KeyCmp(KeyOf(col, b), KeyOf(col, a))
  }

  /** The comparator handed to the sort: the directed comparator, and on a
      tie the Java `int` difference of the book ids. */
  function TieBrokenCmp(col: SortColumn, ord: SortOrder, a: BookRow, b: BookRow): int
  {
    var c := DirectedCmp(col, ord, a, b);
    if c == 0 then Sub32(a.bookId, b.bookId) else c
  }

  predicate Before(col: SortColumn, ord: SortOrder, a: BookRow, b: BookRow)
  {
    TieBrokenCmp(col, ord, a, b) < 0
  }

  lemma DirectedCmpProperties(col: SortColumn, ord: SortOrder, a: BookRow, b: BookRow)
    ensures DirectedCmp(col, ord, a, b) == -DirectedCmp(col, ord, b, a)
    ensures DirectedCmp(col, ord, a, b) == 0 <==> KeyOf(col, a) == KeyOf(col, b)
  {
    KeyCmpProperties(KeyOf(col, a), KeyOf(col, b));
  }

  /** On rows with valid ids, `Before` is a strict order ... */
  lemma BeforeIrreflexive(col: SortColumn, ord: SortOrder, a: BookRow)
    requires ValidBookId(a.bookId)
    ensures !Before(col, ord, a, a)
  {
    DirectedCmpProperties(col, ord, a, a);
  }

  lemma BeforeAsymmetric(col: SortColumn, ord: SortOrder, a: BookRow, b: BookRow)
    requires ValidBookId(a.bookId) && ValidBookId(b.bookId)
    requires Before(col, ord, a, b)
    ensures !Before(col, ord, b, a)
  {
    DirectedCmpProperties(col, ord, a, b);
    Sub32OfBookIds(a.bookId, b.bookId);
    Sub32OfBookIds(b.bookId, a.bookId);
  }

  lemma BeforeTransitive(col: SortColumn, ord: SortOrder, a: BookRow, b: BookRow, c: BookRow)
    requires ValidBookId(a.bookId) && ValidBookId(b.bookId) && ValidBookId(c.bookId)
    requires Before(col, ord, a, b) && Before(col, ord, b, c)
    ensures Before(col, ord, a, c)
  {
    DirectedCmpProperties(col, ord, a, b);
    DirectedCmpProperties(col, ord, b, c);
    DirectedCmpProperties(col, ord, a, c);
    Sub32OfBookIds(a.bookId, b.bookId);
    Sub32OfBookIds(b.bookId, c.bookId);
    Sub32OfBookIds(a.bookId, c.bookId);
    var ab, bc := DirectedCmp(col, ord, a, b), DirectedCmp(col, ord, b, c);
    if ab < 0 && bc < 0 {
      if ord == Asc {
        KeyCmpTransitive(KeyOf(col, a), KeyOf(col, b), KeyOf(col, c));
      } else {
        KeyCmpTransitive(KeyOf(col, c), KeyOf(col, b), KeyOf(col, a));
      }
    }
  }

  /** ... and total: of two rows with different ids one comes first. */
  lemma BeforeConnected(col: SortColumn, ord: SortOrder, a: BookRow, b: BookRow)
    requires ValidBookId(a.bookId) && ValidBookId(b.bookId)
    requires a.bookId != b.bookId
    ensures Before(col, ord, a, b) || Before(col, ord, b, a)
  {
    DirectedCmpProperties(col, ord, a, b);
    Sub32OfBookIds(a.bookId, b.bookId);
    Sub32OfBookIds(b.bookId, a.bookId);
  }

  /** The tie-broken order refines the directed column order; rows that tie
      on the column are in ascending id order. */
  lemma BeforeMeaning(col: SortColumn, ord: SortOrder, a: BookRow, b: BookRow)
    requires ValidBookId(a.bookId) && ValidBookId(b.bookId)
    ensures Before(col, ord, a, b) <==>
      DirectedCmp(col, ord, a, b) < 0 ||
      (KeyOf(col, a) == KeyOf(col, b) && a.bookId < b.bookId)
  {
    DirectedCmpProperties(col, ord, a, b);
    Sub32OfBookIds(a.bookId, b.bookId);
  }

  predicate AllValidIds(s: seq<BookRow>)
  {
    forall i | 0 <= i < |s| :: ValidBookId(s[i].bookId)
  }

  predicate DistinctIds(s: seq<BookRow>)
  {
    forall i, j | 0 <= i < j < |s| :: s[i].bookId != s[j].bookId
  }

  /** Every earlier element comes strictly before every later one. */
  predicate Sorted(col: SortColumn, ord: SortOrder, s: seq<BookRow>)
  {
    forall i, j | 0 <= i < j < |s| :: Before(col, ord, s[i], s[j])
  }

  /** Insertion of `x` before the first element it does not follow. */
  function Insert(col: SortColumn, ord: SortOrder, x: BookRow, s: seq<BookRow>): (r: seq<BookRow>)
    ensures multiset(r) == multiset(s) + multiset{x}
  {
    if s == [] then [x]
    else if Before(col, ord, s[0], x) then
      assert s == [s[0]] + s[1..];
      [s[0]] + Insert(col, ord, x, s[1..])
    else [x] + s
  }

  /** The sort the query applies to the rows the store returned. */
  function SortBooks(col: SortColumn, ord: SortOrder, s: seq<BookRow>): (r: seq<BookRow>)
    ensures multiset(r) == multiset(s)
  {
    if s == [] then []
    else
      assert s == [s[0]] + s[1..];
      Insert(col, ord, s[0], SortBooks(col, ord, s[1..]))
  }

  lemma SortedTail(col: SortColumn, ord: SortOrder, s: seq<BookRow>)
    requires s != [] && Sorted(col, ord, s)
    ensures Sorted(col, ord, s[1..])
  {
    var t := s[1..];
    forall i, j | 0 <= i < j < |t| ensures Before(col, ord, t[i], t[j]) {
      assert t[i] == s[i + 1] && t[j] == s[j + 1];
    }
  }

  lemma SortedCons(col: SortColumn, ord: SortOrder, x: BookRow, t: seq<BookRow>)
    requires Sorted(col, ord, t)
    requires forall k | 0 <= k < |t| :: Before(col, ord, x, t[k])
    ensures Sorted(col, ord, [x] + t)
  {
    var r := [x] + t;
    forall i, j | 0 <= i < j < |r| ensures Before(col, ord, r[i], r[j]) {
      assert r[j] == t[j - 1];
      if i > 0 {
        assert r[i] == t[i - 1];
      }
    }
  }

  lemma {:induction false} InsertSorted(col: SortColumn, ord: SortOrder, x: BookRow, s: seq<BookRow>)
    requires Sorted(col, ord, s) && AllValidIds(s) && ValidBookId(x.bookId)
    requires forall i | 0 <= i < |s| :: s[i].bookId != x.bookId
    ensures Sorted(col, ord, Insert(col, ord, x, s))
  {
    if s == [] {
    } else if Before(col, ord, s[0], x) {
      var t := s[1..];
      SortedTail(col, ord, s);
      assert AllValidIds(t) && forall i | 0 <= i < |t| :: t[i].bookId != x.bookId by {
        forall i | 0 <= i < |t| ensures t[i] == s[i + 1] { }
      }
      InsertSorted(col, ord, x, t);
      var rest := Insert(col, ord, x, t);
      forall k | 0 <= k < |rest| ensures Before(col, ord, s[0], rest[k]) {
        assert rest[k] in multiset(rest);
        if rest[k] != x {
          var m :| 0 <= m < |t| && t[m] == rest[k];
          assert s[m + 1] == rest[k];
        }
      }
      SortedCons(col, ord, s[0], rest);
    } else {
      BeforeConnected(col, ord, x, s[0]);
      forall k | 0 <= k < |s| ensures Before(col, ord, x, s[k]) {
        if k > 0 {
          BeforeTransitive(col, ord, x, s[0], s[k]);
        }
      }
      SortedCons(col, ord, x, s);
    }
  }

  /** Given valid, pairwise distinct ids the sort's output is sorted. */
  lemma {:induction false} SortBooksSorted(col: SortColumn, ord: SortOrder, s: seq<BookRow>)
    requires AllValidIds(s) && DistinctIds(s)
    ensures Sorted(col, ord, SortBooks(col, ord, s))
    ensures AllValidIds(SortBooks(col, ord, s))
  {
    if s != [] {
      var t := s[1..];
      assert AllValidIds(t) && DistinctIds(t) by {
        forall i | 0 <= i < |t| ensures t[i] == s[i + 1] { }
      }
      SortBooksSorted(col, ord, t);
      var st := SortBooks(col, ord, t);
      forall i | 0 <= i < |st| ensures st[i].bookId != s[0].bookId {
        assert st[i] in multiset(st);
        var k :| 0 <= k < |t| && t[k] == st[i];
        assert s[k + 1] == st[i];
      }
      InsertSorted(col, ord, s[0], st);
      var r := SortBooks(col, ord, s);
      forall i | 0 <= i < |r| ensures ValidBookId(r[i].bookId) {
        assert r[i] in multiset(r);
        var k :| 0 <= k < |s| && s[k] == r[i];
      }
    }
  }

  /** Two sorted arrangements of the same non-empty rows start alike. */
  lemma SortedHeadsEqual(col: SortColumn, ord: SortOrder, s: seq<BookRow>, t: seq<BookRow>)
    requires s != [] && Sorted(col, ord, s) && Sorted(col, ord, t)
    requires AllValidIds(s) && multiset(s) == multiset(t)
    ensures t != [] && s[0] == t[0]
  {
    assert s[0] in multiset(t);
    var i :| 0 <= i < |t| && t[i] == s[0];
    assert t[0] in multiset(s);
    var j :| 0 <= j < |s| && s[j] == t[0];
    if s[0] != t[0] {
      assert Before(col, ord, s[0], s[j]);
      assert Before(col, ord, t[0], t[i]);
      BeforeAsymmetric(col, ord, s[0], t[0]);
      assert false;
    }
  }

  /** Two sorted arrangements of the same rows are the same sequence: the
      order of the result does not depend on how the rows arrived. */
  lemma {:induction false} SortedUnique(col: SortColumn, ord: SortOrder, s: seq<BookRow>, t: seq<BookRow>)
    requires Sorted(col, ord, s) && Sorted(col, ord, t)
    requires AllValidIds(s) && multiset(s) == multiset(t)
    ensures s == t
  {
    if s == [] {
      assert |t| == |multiset(t)| == 0;
    } else {
      SortedHeadsEqual(col, ord, s, t);
      assert s == [s[0]] + s[1..] && t == [t[0]] + t[1..];
      assert multiset(s) == multiset{s[0]} + multiset(s[1..]);
      assert multiset(t) == multiset{t[0]} + multiset(t[1..]);
      assert multiset(s[1..]) == multiset(s) - multiset{s[0]} == multiset(t) - multiset{t[0]} == multiset(t[1..]);
      SortedTail(col, ord, s);
      SortedTail(col, ord, t);
      assert AllValidIds(s[1..]) by {
        forall a | 0 <= a < |s[1..]| ensures s[1..][a] == s[a + 1] { }
      }
      SortedUnique(col, ord, s[1..], t[1..]);
    }
  }

  /** In a sorted sequence the column values are in the requested direction
      and equal column values come in ascending id order. */
  lemma SortedMeaning(col: SortColumn, ord: SortOrder, s: seq<BookRow>, i: int, j: int)
    requires Sorted(col, ord, s) && AllValidIds(s)
    requires 0 <= i < j < |s|
    ensures DirectedCmp(col, ord, s[i], s[j]) <= 0
    ensures KeyOf(col, s[i]) == KeyOf(col, s[j]) ==> s[i].bookId < s[j].bookId
  {
    BeforeMeaning(col, ord, s[i], s[j]);
    DirectedCmpProperties(col, ord, s[i], s[j]);
  }
}
