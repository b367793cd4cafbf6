/** The library's operations over its store: the book, card and borrow
    tables held in memory, with the book table's auto-increment counter. */
module Library {
  import opened Entities
  import opened Strings
  import opened Ordering
  import opened Queries

  /** No two rows share category, title, press, publish year and author. */
  predicate UniqueKeys(rows: seq<BookRow>)
  {
    forall i, j | 0 <= i < j < |rows| :: KeyOfRow(rows[i]) != KeyOfRow(rows[j])
  }

  /** Some row has the given identifying columns (the duplicate-check query
      returns a row). */
  predicate KeyTaken(rows: seq<BookRow>, k: BookKey)
  {
    exists i | 0 <= i < |rows| :: KeyOfRow(rows[i]) == k
  }

  /** Stored rows keep ids below the counter, distinct and within a Java
      `int`, and no two of them share a key. */
  predicate ValidTables(books: seq<BookRow>, nextBookId: int)
  {
    && 1 <= nextBookId <= MaxInt + 1
    && (forall i | 0 <= i < |books| :: 1 <= books[i].bookId < nextBookId)
    && DistinctIds(books)
    && UniqueKeys(books)
  }

  /** Where a store error interrupts `storeBook`: while checking for a
      duplicate or inserting (nothing stored), or while reading back the
      generated id (the row is stored, `book` is not updated). */
  datatype StoreFault = BeforeInsert(message: string) | AfterInsert(message: string)

  const DuplicateMessage: string := "The book already exists in the library."
  const StoredMessage: string := "The book has been successfully stored in the library."
  /** Stands for the store's error once the INT auto-increment column is
      used up; the database's own text is not modelled. */
  const IdsExhaustedMessage: string := "Book identities exhausted"

  /** `storeBook` reaches and completes the insert: no error before it, no
      duplicate, and an identity left. */
  predicate Inserted(fault: Option<StoreFault>, books: seq<BookRow>, key: BookKey, nextBookId: int)
  {
    && !(fault.Some? && fault.value.BeforeInsert?)
    && !KeyTaken(books, key)
    && nextBookId <= MaxInt
  }

  /** The rows, in store order, that a statement selecting what the filters
      of `c` select returns when executed over `rows`. */
  method CollectRows(c: Conditions, query: seq<Clause>, bindings: map<int, Param>, rows: seq<BookRow>)
    returns (selected: seq<BookRow>)
    requires forall b :: SatisfiesWhere(query, bindings, b) <==> SqlMatches(c, b)
    ensures selected == Selected(c, rows)
  {
    selected := [];
    var i := 0;
    while i < |rows|
      invariant 0 <= i <= |rows|
      invariant selected == Selected(c, rows[..i])
    {
      var row := rows[i];
      ghost var seen := rows[..i];
      assert rows[..i + 1] == seen + [row];
      assert Selected(c, seen + [row]) == Selected(c, seen) + (if SqlMatches(c, row) then [row] else []) by {
        SelectedSnoc(c, seen, row);
      }
      if SatisfiesWhere(query, bindings, row) {
        selected := selected + [row];
      }
      i := i + 1;
    }
    assert rows[..i] == rows;
  }

  /** With wildcard-free patterns a query returns exactly the stored books
      that meet every present condition. */
  lemma QueryResultMembers(c: Conditions, rows: seq<BookRow>)
    requires PlainPatterns(c)
    ensures forall b :: b in SortBooks(c.sortBy, c.sortOrder, Selected(c, rows)) <==> b in rows && Matches(c, b)
  {
    var selected := Selected(c, rows);
    var sorted := SortBooks(c.sortBy, c.sortOrder, selected);
    SelectedMembers(c, rows);
    forall b ensures b in sorted <==> b in rows && Matches(c, b) {
      assert b in sorted <==> b in multiset(sorted);
      assert b in selected <==> b in multiset(selected);
      FiltersMeaning(c, b);
    }
  }

  class LibraryManagementSystem {
    var books: seq<BookRow>
    var cards: seq<Card>
    var borrows: seq<Borrow>
    /** The id the store generates for the next inserted book. */
    var nextBookId: int

    ghost predicate Valid()
      reads this
    {
      ValidTables(books, nextBookId)
    }

    /** A system over the tables the connected database already holds. */
    constructor (books: seq<BookRow>, cards: seq<Card>, borrows: seq<Borrow>, nextBookId: int)
      requires ValidTables(books, nextBookId)
      ensures Valid()
      ensures this.books == books && this.cards == cards && this.borrows == borrows
      ensures this.nextBookId == nextBookId
    {
      this.books, this.cards, this.borrows := books, cards, borrows;
      this.nextBookId := nextBookId;
    }

    /** `storeBook(Book)`: refuse a duplicate of an existing book, else insert
        the row under a fresh id and write that id into `book`. A `fault` is
        an error the store raises before or after the row is inserted. */
    method StoreBook(book: Book, fault: Option<StoreFault>) returns (r: ApiResult)
      requires Valid()
      modifies this, book`bookId
      ensures Valid()
      ensures cards == old(cards) && borrows == old(borrows)
      ensures fault.Some? && fault.value.BeforeInsert? ==>
        r == ApiResult(false, Message(fault.value.message))
      ensures !(fault.Some? && fault.value.BeforeInsert?) && KeyTaken(old(books), book.Key()) ==>
        r == ApiResult(false, Message(DuplicateMessage))
      ensures !(fault.Some? && fault.value.BeforeInsert?) && !KeyTaken(old(books), book.Key())
              && old(nextBookId) > MaxInt
        ==> r == ApiResult(false, Message(IdsExhaustedMessage))
      ensures Inserted(fault, old(books), book.Key(), old(nextBookId)) ==>
        && books == old(books) + [BookRow(old(nextBookId), book.category, book.title,
             book.press, book.publishYear, book.author, book.price, book.stock)]
        && nextBookId == old(nextBookId) + 1
        && (forall i | 0 <= i < |old(books)| :: old(books)[i].bookId < old(nextBookId))
      ensures !Inserted(fault, old(books), book.Key(), old(nextBookId)) ==>
        books == old(books) && nextBookId == old(nextBookId)
      ensures Inserted(fault, old(books), book.Key(), old(nextBookId)) && fault.Some? ==>
        r == ApiResult(false, Message(fault.value.message)) && book.bookId == old(book.bookId)
      ensures r.ok <==> Inserted(fault, old(books), book.Key(), old(nextBookId)) && fault.None?
      ensures r.ok ==> r.payload == Message(StoredMessage) && book.bookId == old(nextBookId)
      ensures !r.ok ==> book.bookId == old(book.bookId)
    {
      if fault.Some? && fault.value.BeforeInsert? {
        return ApiResult(false, Message(fault.value.message));
      }
      if KeyTaken(books, book.Key()) {
        return ApiResult(false, Message(DuplicateMessage));
      }
      if nextBookId > MaxInt {
        return ApiResult(false, Message(IdsExhaustedMessage));
      }
      var row := BookRow(nextBookId, book.category, book.title, book.press,
                         book.publishYear, book.author, book.price, book.stock);
      assert forall i | 0 <= i < |books| :: KeyOfRow(books[i]) != KeyOfRow(row);
      books := books + [row];
      nextBookId := nextBookId + 1;
      if fault.Some? {
        return ApiResult(false, Message(fault.value.message));
      }
      book.bookId := row.bookId;
      r := ApiResult(true, Message(StoredMessage));
    }

    /** `queryBook`: prepare the statement, collect the rows it selects, and
        sort them by the requested column and direction, ties by ascending
        id. A `fault` is an error the store raises on the query. */
    method QueryBook(c: Conditions, fault: Option<string>) returns (r: ApiResult)
      requires Valid()
      ensures fault.Some? ==> r == ApiResult(false, Message(fault.value))
      ensures fault.None? ==> r.ok && r.payload.BookResults?
      ensures fault.None? ==> r.payload.books == SortBooks(c.sortBy, c.sortOrder, Selected(c, books))
      ensures fault.None? ==> Sorted(c.sortBy, c.sortOrder, r.payload.books)
      ensures fault.None? ==> multiset(r.payload.books) == multiset(Selected(c, books))
      ensures fault.None? && PlainPatterns(c) ==>
        forall b :: b in r.payload.books <==> b in books && Matches(c, b)
    {
      if fault.Some? {
        return ApiResult(false, Message(fault.value));
      }
      var query, bindings := BuildQuery(c);
      forall b ensures SatisfiesWhere(query, bindings, b) <==> SqlMatches(c, b) {
        StatementMeaning(c, query, bindings, b);
      }
      var rows := CollectRows(c, query, bindings, books);
      assert AllValidIds(books);
      SelectedIds(c, books);
      SortBooksSorted(c.sortBy, c.sortOrder, rows);
      var sorted := SortBooks(c.sortBy, c.sortOrder, rows);
      if PlainPatterns(c) {
        QueryResultMembers(c, books);
      }
      r := ApiResult(true, BookResults(sorted));
    }

    /** `resetDatabase`: drop and recreate the three tables as one batch; a
        `fault` anywhere in the batch rolls all of it back. */
    method ResetDatabase(fault: Option<string>) returns (r: ApiResult)
      requires Valid()
      modifies this
      ensures Valid()
      ensures fault.Some? ==> r == ApiResult(false, Message(fault.value))
      ensures fault.Some? ==>
        books == old(books) && cards == old(cards) && borrows == old(borrows) && nextBookId == old(nextBookId)
      ensures fault.None? ==> r == ApiResult(true, Nothing)
      ensures fault.None? ==> books == [] && cards == [] && borrows == [] && nextBookId == 1
    {
      if fault.Some? {
        return ApiResult(false, Message(fault.value));
      }
      borrows := [];
      books := [];
      cards := [];
      nextBookId := 1;
      r := ApiResult(true, Nothing);
    }

    /** `incBookStock(bookId, deltaStock)`: not implemented. */
    method IncBookStock(bookId: int, deltaStock: int) returns (r: ApiResult)
      ensures r == Unimplemented
    {
      r := Unimplemented;
    }

    /** `storeBook(List<Book>)`: not implemented. */
    method StoreBooks(batch: seq<Book>) returns (r: ApiResult)
      ensures r == Unimplemented
    {
      r := Unimplemented;
    }

    /** `removeBook(bookId)`: not implemented. */
    method RemoveBook(bookId: int) returns (r: ApiResult)
      ensures r == Unimplemented
    {
      r := Unimplemented;
    }

    /** `modifyBookInfo(book)`: not implemented. */
    method ModifyBookInfo(book: Book) returns (r: ApiResult)
      ensures r == Unimplemented
    {
      r := Unimplemented;
    }

    /** `borrowBook(borrow)`: not implemented. */
    method BorrowBook(borrow: Borrow) returns (r: ApiResult)
      ensures r == Unimplemented
    {
      r := Unimplemented;
    }

    /** `returnBook(borrow)`: not implemented. */
    method ReturnBook(borrow: Borrow) returns (r: ApiResult)
      ensures r == Unimplemented
    {
      r := Unimplemented;
    }

    /** `showBorrowHistory(cardId)`: not implemented. */
    method ShowBorrowHistory(cardId: int) returns (r: ApiResult)
      ensures r == Unimplemented
    {
      r := Unimplemented;
    }

    /** `registerCard(card)`: not implemented. */
    method RegisterCard(card: Card) returns (r: ApiResult)
      ensures r == Unimplemented
    {
      r := Unimplemented;
    }

    /** `removeCard(cardId)`: not implemented. */
    method RemoveCard(cardId: int) returns (r: ApiResult)
      ensures r == Unimplemented
    {
      r := Unimplemented;
    }

    /** `showCards()`: not implemented. */
    method ShowCards() returns (r: ApiResult)
      ensures r == Unimplemented
    {
      r := Unimplemented;
    }
  }

  /** A second book with the same identifying columns is refused even when
      its price and stock differ, and the table keeps only the first. */
  method DuplicateIsRefused()
  {
    var lib := new LibraryManagementSystem([], [], [], 1);
    var first := new Book("Computer Science", "Databases", "ZJU Press", 2020, "Wang", 4500, 3);
    assert !KeyTaken([], first.Key());
    var r1 := lib.StoreBook(first, None);
    assert r1.ok && first.bookId == 1;
    var second := new Book("Computer Science", "Databases", "ZJU Press", 2020, "Wang", 9900, 1);
    assert KeyOfRow(lib.books[0]) == second.Key();
    var r2 := lib.StoreBook(second, None);
    assert r2 == ApiResult(false, Message(DuplicateMessage));
    assert |lib.books| == 1 && second.bookId == 0;
  }

  /** An error while reading back the generated id fails the call, yet the
      row is stored and a retry of the same book is refused as a duplicate. */
  method FaultAfterInsertKeepsRow()
  {
    var lib := new LibraryManagementSystem([], [], [], 1);
    var book := new Book("Fiction", "Dune", "Ace", 1965, "Herbert", 999, 2);
    assert !KeyTaken([], book.Key());
    var r1 := lib.StoreBook(book, Some(AfterInsert("connection lost")));
    assert !r1.ok && book.bookId == 0;
    assert |lib.books| == 1 && lib.books[0].bookId == 1;
    assert KeyOfRow(lib.books[0]) == book.Key();
    var r2 := lib.StoreBook(book, None);
    assert r2 == ApiResult(false, Message(DuplicateMessage));
  }

  /** After a successful reset every search succeeds with no results. */
  method ResetThenQueryIsEmpty(lib: LibraryManagementSystem, c: Conditions)
    requires lib.Valid()
    modifies lib
  {
    var r := lib.ResetDatabase(None);
    assert r.ok;
    var q := lib.QueryBook(c, None);
    assert q.ok && q.payload.books == [];
  }
}
