# Library management system: book-table rules

This project models the book operations of `LibraryManagementSystemImpl` in a small
library-management backend, and proves properties of the model in Dafny.

The relational store is modelled as one object, `Library.LibraryManagementSystem`. It
holds the `book`, `card` and `borrow` tables as sequences of records. It also holds the
counter behind the book table's auto-increment id.

Three operations do real work:

- **`storeBook(Book)`** (`StoreBook`):
  - Refuses a book whose category, title, press, publish year and author match a stored
    row. Price and stock are not part of that check.
  - Otherwise appends one row under the next identity.
  - Writes that identity into the caller's `Book` object.
- **`queryBook(conditions)`** (`QueryBook`):
  - Builds the statement text and the bound parameters from the present conditions
    only. It walks the conditions in one fixed order, with a running placeholder
    index (`BuildQuery`).
  - Collects the rows the statement selects (`CollectRows`).
  - Sorts them with the column comparator, reversed for DESC, with the Java `int`
    difference of the ids as tie-break.
- **`resetDatabase()`** (`ResetDatabase`): drops and recreates the three tables as one
  batch. It either empties them all or, on a failure, leaves everything as it was.

The ten other operations of the class return `ApiResult(false, "Unimplemented Function")`
and change nothing. They are modelled as exactly that: this model follows the code,
where they are stubs. So `showCards` after a reset yields that failure, not an empty
list.

Errors the database raises (`SQLException`) are a parameter `fault` of each
store-touching operation. `Some(msg)` is the error the store raised, and the operation
returns `ApiResult(false, msg)` as the code does. For `storeBook` the fault also says
where it strikes. `BeforeInsert` means during the duplicate check or the insert, and
nothing is stored. `AfterInsert` means while the generated id is read back: the row
stays stored and `book` keeps its old id.

The system is constructed over the tables its database already holds. Those tables
must meet the table invariant `ValidTables`:
- ids are distinct, within a Java `int`, and below the auto-increment counter;
- no two books share a key.

## Modules

- `entities.dfy` — `Entities`:
  - the book row and the caller's `Book` object;
  - card and borrow records;
  - the result envelope;
  - Java `int` wrap-around.
- `strings.dfy` — `Strings`:
  - substring containment;
  - SQL `LIKE` with `%` and `_`;
  - lexicographic string comparison.
- `ordering.dfy` — `Ordering`:
  - the column keys and their comparators;
  - `DirectedCmp`, the comparator reversed for DESC (lines 157-160);
  - `TieBrokenCmp`, the sort lambda with the id tie-break (lines 162-167), and its
    "less than" `Before`;
  - the sort and its uniqueness.
- `queries.dfy` — `Queries`:
  - search conditions and their declarative meaning;
  - the clause and parameter builder;
  - the store's reading of the built statement;
  - the selected rows.
- `library.dfy` — `Library`: the class with the table state and every public operation.
  It also holds three scenarios:
  - `DuplicateIsRefused`: a second book with the same key and a different price and
    stock is refused;
  - `FaultAfterInsertKeepsRow`: an error while the id is read back fails the call, yet
    the row stays and a retry is refused as a duplicate;
  - `ResetThenQueryIsEmpty`: a search after a reset succeeds with no results.

## Model

| member | source | states |
|---|---|---|
| Entities.Wrap32 | src/main/java/LibraryManagementSystemImpl.java:164 | Java `int` arithmetic: the result is an `int`, congruent to the exact value modulo 2^32, and equal to it when it fits |
| Entities.Sub32OfBookIds | src/main/java/LibraryManagementSystemImpl.java:164 | for two table identities the wrapped `lhs.getBookId() - rhs.getBookId()` has the exact value, so its sign orders the ids |
| Strings.LikeSubstring | src/main/java/LibraryManagementSystemImpl.java:96-123 | a `LIKE ?` clause bound to `"%" + x + "%"`, with `x` free of wildcards, holds exactly when the column contains `x` |
| Strings.LikePrefix | src/main/java/LibraryManagementSystemImpl.java:96-98 | `t LIKE 'x%'` for a wildcard-free `x` holds exactly when `x` is a prefix of `t` |
| Strings.StrCmp | src/main/java/LibraryManagementSystemImpl.java:157 | a string comparator result is one of -1, 0, 1 |
| Strings.StrCmpAntisymmetric | src/main/java/LibraryManagementSystemImpl.java:157 | swapping the arguments of the string comparator negates its result |
| Strings.StrCmpZero | src/main/java/LibraryManagementSystemImpl.java:157 | the string comparator returns 0 exactly on equal strings |
| Strings.StrCmpTransitive | src/main/java/LibraryManagementSystemImpl.java:157 | the string comparator's "less" is transitive |
| Ordering.KeyCmp | src/main/java/LibraryManagementSystemImpl.java:157 | a column comparator result is one of -1, 0, 1 |
| Ordering.KeyCmpProperties | src/main/java/LibraryManagementSystemImpl.java:157 | column comparators are antisymmetric and return 0 exactly on equal column values |
| Ordering.KeyCmpTransitive | src/main/java/LibraryManagementSystemImpl.java:157 | column comparators' "less" is transitive |
| Ordering.DirectedCmpProperties | src/main/java/LibraryManagementSystemImpl.java:157-160 | the comparator, reversed or not, is antisymmetric and ties exactly on equal column values |
| Ordering.BeforeIrreflexive | src/main/java/LibraryManagementSystemImpl.java:162-167 | the tie-broken comparator `TieBrokenCmp` never puts a row before itself |
| Ordering.BeforeAsymmetric | src/main/java/LibraryManagementSystemImpl.java:162-167 | the tie-broken comparator never puts two rows each before the other |
| Ordering.BeforeTransitive | src/main/java/LibraryManagementSystemImpl.java:162-167 | the tie-broken comparator is transitive on valid ids |
| Ordering.BeforeConnected | src/main/java/LibraryManagementSystemImpl.java:162-167 | of two rows with different ids the tie-broken comparator orders one first, so it is a strict total order |
| Ordering.BeforeMeaning | src/main/java/LibraryManagementSystemImpl.java:157-167 | `TieBrokenCmp` puts a row first exactly when `DirectedCmp` puts it first, or ties there and has the smaller id |
| Ordering.Insert | src/main/java/LibraryManagementSystemImpl.java:168 | inserting a row adds exactly that row to the multiset of rows |
| Ordering.SortBooks | src/main/java/LibraryManagementSystemImpl.java:168 | sorting returns a permutation of its input |
| Ordering.InsertSorted | src/main/java/LibraryManagementSystemImpl.java:168 | inserting a row with a fresh valid id into a sorted sequence keeps it sorted |
| Ordering.SortBooksSorted | src/main/java/LibraryManagementSystemImpl.java:168 | the sort of rows with valid, distinct ids is sorted by the tie-broken comparator and keeps ids valid |
| Ordering.SortedUnique | src/main/java/LibraryManagementSystemImpl.java:168 | two sorted arrangements of the same rows are equal, so any correct sort gives this result |
| Ordering.SortedMeaning | src/main/java/LibraryManagementSystemImpl.java:157-168 | in a sorted result column values follow the requested direction, and equal column values come in ascending id order |
| Queries.PlaceholdersOfClause | src/main/java/LibraryManagementSystemImpl.java:93-116 | every appended clause carries exactly one `?` |
| Queries.SqlPlaceholders | src/main/java/LibraryManagementSystemImpl.java:92-116 | the statement text has one `?` per appended clause |
| Queries.ClausesOfAt | src/main/java/LibraryManagementSystemImpl.java:92-116 | the clause list has one clause per filter, in the filters' order |
| Queries.BindingsOfAt | src/main/java/LibraryManagementSystemImpl.java:117-142 | parameters are bound at exactly the positions 1..n, the i-th filter's value at position i |
| Queries.AppendClauses | src/main/java/LibraryManagementSystemImpl.java:92-116 | the loop appends the clause of each present condition, and only those, in the fixed order |
| Queries.BindParameters | src/main/java/LibraryManagementSystemImpl.java:117-142 | the running index binds each present condition's value at the next position, in the same fixed order |
| Queries.BuildQuery | src/main/java/LibraryManagementSystemImpl.java:92-142 | as many placeholders as clauses as present conditions; clause i and the parameter at position i+1 come from the same condition; no other positions are bound |
| Queries.FiltersExactlyPresent | src/main/java/LibraryManagementSystemImpl.java:93-142 | the filters are exactly the present conditions with their bound values, in the category, title, press, year, author, price order |
| Queries.SqlMatchesPresent | src/main/java/LibraryManagementSystemImpl.java:93-142 | a row meets the filters exactly when every present condition's clause holds with its value; an absent condition imposes nothing |
| Queries.PresentHoldMeaning | src/main/java/LibraryManagementSystemImpl.java:94-141 | with wildcard-free text, the clauses test exact category, substring title, press and author, and inclusive year and price bounds |
| Queries.FiltersMeaning | src/main/java/LibraryManagementSystemImpl.java:93-142 | with wildcard-free text, the statement's filters select exactly the books the conditions describe |
| Queries.StatementMeaning | src/main/java/LibraryManagementSystemImpl.java:117-143 | a statement built as the builder promises selects exactly the rows the filters select |
| Queries.SelectedCounts | src/main/java/LibraryManagementSystemImpl.java:143-156 | selecting keeps each matching row as often as the table holds it and drops every other row |
| Queries.SelectedMembers | src/main/java/LibraryManagementSystemImpl.java:143-156 | a row is selected exactly when it is in the table and meets the filters |
| Queries.SelectedIds | src/main/java/LibraryManagementSystemImpl.java:143-156 | selected rows keep valid, distinct identities |
| Queries.NoConditionsNoFilters | src/main/java/LibraryManagementSystemImpl.java:92-116 | with every condition null no clause is appended |
| Queries.NoConditionsSelectAll | src/main/java/LibraryManagementSystemImpl.java:92-156 | with every condition null every row is selected, in table order |
| Queries.ResultIndependentOfRowOrder | src/main/java/LibraryManagementSystemImpl.java:143-168 | the sorted result depends only on which rows the table holds, not on the order the store returns them in |
| Library.CollectRows | src/main/java/LibraryManagementSystemImpl.java:143-156 | the result-set loop collects exactly the selected rows, in store order |
| Library.QueryResultMembers | src/main/java/LibraryManagementSystemImpl.java:93-168 | with wildcard-free text a book is in the sorted result exactly when it is stored and meets every present condition |
| Library.LibraryManagementSystem.constructor | src/main/java/LibraryManagementSystemImpl.java:17-19 | a system opens over whatever tables its database holds, provided they meet the table invariant, and keeps them as given |
| Library.LibraryManagementSystem.StoreBook | src/main/java/LibraryManagementSystemImpl.java:22-66 | an error during the check or insert fails with its message and stores nothing; a duplicate key fails with "The book already exists in the library." and stores nothing; otherwise exactly one row with the given fields and a fresh id larger than every stored id is appended; the id is then written into `book` and the call succeeds, unless an error strikes while the id is read back, which fails with its message, keeps the row and leaves `book` alone; card and borrow tables never change; the table invariant is kept |
| Library.LibraryManagementSystem.QueryBook | src/main/java/LibraryManagementSystemImpl.java:89-179 | a store error fails with its message; otherwise it succeeds with a sorted permutation of the selected rows, which with wildcard-free text are exactly the stored books meeting every present condition; nothing changes |
| Library.LibraryManagementSystem.ResetDatabase | src/main/java/LibraryManagementSystemImpl.java:212-230 | on success with no payload all three tables are empty and identities restart at 1; on a failure its message is returned and every table is as before |
| Library.LibraryManagementSystem.IncBookStock | src/main/java/LibraryManagementSystemImpl.java:69-71 | always fails with "Unimplemented Function" and changes nothing |
| Library.LibraryManagementSystem.StoreBooks | src/main/java/LibraryManagementSystemImpl.java:74-76 | always fails with "Unimplemented Function" and changes nothing |
| Library.LibraryManagementSystem.RemoveBook | src/main/java/LibraryManagementSystemImpl.java:79-81 | always fails with "Unimplemented Function" and changes nothing |
| Library.LibraryManagementSystem.ModifyBookInfo | src/main/java/LibraryManagementSystemImpl.java:84-86 | always fails with "Unimplemented Function" and changes nothing |
| Library.LibraryManagementSystem.BorrowBook | src/main/java/LibraryManagementSystemImpl.java:182-184 | always fails with "Unimplemented Function" and changes nothing |
| Library.LibraryManagementSystem.ReturnBook | src/main/java/LibraryManagementSystemImpl.java:187-189 | always fails with "Unimplemented Function" and changes nothing |
| Library.LibraryManagementSystem.ShowBorrowHistory | src/main/java/LibraryManagementSystemImpl.java:192-194 | always fails with "Unimplemented Function" and changes nothing |
| Library.LibraryManagementSystem.RegisterCard | src/main/java/LibraryManagementSystemImpl.java:197-199 | always fails with "Unimplemented Function" and changes nothing |
| Library.LibraryManagementSystem.RemoveCard | src/main/java/LibraryManagementSystemImpl.java:202-204 | always fails with "Unimplemented Function" and changes nothing |
| Library.LibraryManagementSystem.ShowCards | src/main/java/LibraryManagementSystemImpl.java:207-209 | always fails with "Unimplemented Function" and changes nothing |

## Left out

- JDBC plumbing is not modelled: connections, statements, result sets, `printStackTrace`, and the `commit`/`rollback` helpers that swallow their own exceptions. The store is an in-memory table. A failure of any statement is the `fault` parameter.
- The DDL text of the schema provider is not modelled, nor how the database executes the batch. Only the net effect of a reset is modelled: three empty tables and identities restarting at 1. A failing batch is modelled as all-or-nothing.
- Prices are integers (cents). Floating-point `double` prices and their rounding are not modelled.
- `LIKE` matching, case sensitivity and collation follow no particular database. `LIKE` is modelled with `%` and `_` and no escape character. The "contains exactly" results assume the condition text holds no wildcard; with wildcards the model still evaluates `LIKE` literally.
- The column comparators behind `getSortBy().getComparator()` are not modelled as written. They are natural orders: numbers by value, strings lexicographically by character code.
- String order is by Unicode code point, not by Java's UTF-16 code units. The two differ only beyond the Basic Multilingual Plane.
- `List.sort` is modelled as a pure insertion sort on values, not an in-place sort of an `ArrayList`. `SortedUnique` shows that the choice of sorting algorithm does not change the result.
- Query results are row values, not freshly allocated `Book` objects.
- The eight `if` statements of each builder pass are written as one loop over the fixed condition order. The order, the conditions and the running index are the same.
- Null text fields in a stored `Book` are not modelled.
- Library.LibraryManagementSystem.StoreBook: a generated-key result set that is empty without an error is not modelled. The code then succeeds and leaves `book` untouched. The model's insert always yields the key.
- Library.LibraryManagementSystem.StoreBook: the store's error once the INT identity column is used up is modelled by a fixed placeholder message, not by the database's own text.
- `Main.java`, the configuration, and the console loop are I/O and are not modelled.
- Concurrency and transaction isolation are left to the database and are not modelled.
