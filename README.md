# Library catalogue: tables, lookups and mutations

This project models the core of a small library catalogue kept in three keyed tables,
Books, Users and Reservations (EXE4.PY:8-19). It covers the four read paths: book detail,
list-all, title search and the status lookup by one search text. It also covers the three
operations that change the tables: add a book, update a book's status, delete a book.

- `schema.dfy` (module `Schema`): the rows and the tables. Each table is a `map` from its
  primary key to the rest of the row. Foreign keys are not enforced, so reservations may
  refer to books or users that do not exist.
- `queries.dfy` (module `Queries`): the left join `Books ⋈ Reservations ⋈ Users` as the set
  of rows it yields for each book. On top of it: book detail, list-all, title search, and the
  rule that a reserver is shown only when the joined Name is truthy.
- `resolver.dfy` (module `Resolver`): classifies the search text by prefix ("LB", then "LU",
  then "LR", otherwise a Title). Each class has its own query and its own not-found answer.
- `catalog.dfy` (module `Catalog`): `Insert`, `SetStatus` and `Remove` as functions of the
  tables. Class `Library` holds the three maps as fields and its methods apply those
  functions in place. Lemmas state what each change does to the lookups and what it leaves
  untouched. A client module, `CatalogClient`, walks one book through every operation; its
  assertions are proved from the contracts alone.

An answer read with `fetchone` may be any matching row. So each lookup gives the *set* of
answers the program may print, and multi-row results are sets of rows.

Two behaviours of the code worth knowing:
- A title search with no match prints "Book not found." (EXE4.PY:117-118).
- The status update writes Books only. The code also tries at EXE4.PY:162 to copy the status
  into a Status column that Reservations does not have (EXE4.PY:16-17; see Findings). In the
  model the Status in Books is the only copy. After an update, the "LB" and "LR" lookups, the
  detail, the listing and the title search all report the new status
  (`Catalog.UpdateThenLookups`).

## Model

| member | source | states |
|---|---|---|
| `Queries.BookRows` | EXE4.PY:38-42 | the left join never drops a book: a book yields at least one row, and every row carries that book's BookID, Title, Author and Status |
| `Queries.BookRowsUser` | EXE4.PY:40-41 | a row with user columns `c` exists exactly when some reservation of the book names an existing user with Name and Email `c` |
| `Queries.BookRowsNoUser` | EXE4.PY:40-41 | a row with NULL user columns exists exactly when the book has no reservation, or one of its reservations names a missing user |
| `Queries.BookDetail` | EXE4.PY:38-58 | always has an answer; "Book not found." exactly when the BookID is absent, and then it is the only answer; for an existing book the found rows are exactly the rows of its left join, each showing that book's columns |
| `Queries.DetailReservedBy` | EXE4.PY:38-56 | detail may report reserver `c` exactly when `c.name` is not empty and some reservation of the book joins to an existing user with Name and Email `c` |
| `Queries.DetailNotReserved` | EXE4.PY:38-56 | detail may answer "Not reserved." exactly when the book has no reservation, or one of its reservations names a missing user or a user with an empty Name |
| `Queries.DetailUnreserved` | EXE4.PY:38-58 | a book that no reservation refers to has exactly one detail: its own columns, "Not reserved." |
| `Queries.AllBooks` | EXE4.PY:121-143 | the join is tested as the source tests it, and "No books found in the database." comes exactly when Books is empty, since a left join keeps every book; otherwise the answer is the rows of the whole join |
| `Queries.ListingReservedBy` | EXE4.PY:122-141 | the listing may show a book as reserved by user `u` exactly when `u`'s Name is not empty and some reservation of the book joins to `u` |
| `Queries.AllRowsCover` | EXE4.PY:122-126 | every book appears in the listing, and every listed row shows the columns of a book in Books |
| `Queries.TitleRowsFilter` | EXE4.PY:96-101 | the title search is the listing filtered by exact Title, and it is empty exactly when no book has that Title |
| `Resolver.Classify` | EXE4.PY:64-95 | one path per text, carrying the whole text: "LB" prefix ⇔ book path, "LU" ⇔ user path, "LR" ⇔ reservation path, none of the three ⇔ title path |
| `Resolver.Answers` | EXE4.PY:61-118 | every text gets an answer; every answer belongs to the path the text was classified to; a not-found answer or a title-search result is then the only possible answer |
| `Resolver.ResolveBook` | EXE4.PY:64-71 | an "LB" text reports the Status of the book with that BookID, and "Book not found." exactly when no such BookID exists |
| `Resolver.ResolveUser` | EXE4.PY:72-83 | an "LU" text may report status `s` exactly when some reservation joins that UserID to an existing user and a book with Status `s`; "User not found." exactly when no reservation does, even if the user exists |
| `Resolver.ResolveReservation` | EXE4.PY:84-94 | an "LR" text reports the Status of the reserved book; "Reservation not found." exactly when the reservation or its book is absent |
| `Resolver.ResolveTitle` | EXE4.PY:95-118 | any other text is an exact Title search: "Book not found." exactly when no book has that Title, otherwise the listing rows with that Title |
| `Catalog.Library.constructor` | EXE4.PY:8-19 | the library starts from the tables already in the database |
| `Catalog.Library.AddBook` | EXE4.PY:22-32 | answers duplicate exactly when the BookID is present; the new tables are `Insert` of the old |
| `Catalog.Library.ModifyBookDetails` | EXE4.PY:146-168 | "Book not found." for a missing BookID, "No modifications made." without confirmation, otherwise updated; the new tables are `SetStatus` of the old when confirmed, unchanged otherwise |
| `Catalog.Library.DeleteBook` | EXE4.PY:171-183 | answers not-found exactly when the BookID is absent; the new tables are `Remove` of the old |
| `Catalog.AddFresh` | EXE4.PY:29-30 | a fresh BookID gets exactly the five supplied fields, nothing else changes, and the "LB" lookup then reports the supplied Status; an existing BookID leaves every table unchanged |
| `Catalog.AddThenDetail` | EXE4.PY:29-58 | after adding, the detail shows the supplied Title, Author and Status; with no reservation for that BookID it shows exactly those and "Not reserved." |
| `Catalog.SetStatusFrame` | EXE4.PY:161 | on an existing book only its Status changes; other books, users and reservations stay; a missing BookID changes nothing |
| `Catalog.UpdateThenLookups` | EXE4.PY:161 | after an update the "LB" lookup, the "LR" lookup of each of the book's reservations, every detail row, and every row of the book in the listing and in any title search report the new Status |
| `Catalog.RemoveFrame` | EXE4.PY:174-183 | deleting an existing book removes it and exactly its reservations; other books, users and other reservations keep their values; a missing BookID changes nothing |
| `Catalog.DeleteThenLookups` | EXE4.PY:178-179 | after a delete the detail is "Book not found.", a second delete finds nothing and changes nothing, and each of the book's former reservations answers "Reservation not found." |
| `Catalog.ModifyAsWrittenLosesStatus` | EXE4.PY:161-163 | as written, a confirmed update of an existing book stops with "no such column: Status", and the "LB" lookup still reports the old Status |

## Left out

- The menu loop, `input()` and `print()` (EXE4.PY:186-217). Inputs are parameters. Outputs are result datatypes; message text is not reproduced.
- The sqlite connection, cursor, `commit` and `close` (EXE4.PY:4-5, 31, 163, 180, 220). Each operation is one atomic change of the maps.
- Creating users and reservations: the source has no such operation. The `Library` constructor takes all three tables as the database's initial contents.
- Referential integrity: sqlite does not enforce the FOREIGN KEY clauses by default, so reservations may dangle. The join results above depend on that.
- NULL columns in seeded rows: every stored column is a string. A NULL Name would also print "Not reserved.", as an empty Name does.
- Queries.BookDetail: which row `fetchone` returns is not modelled; the result is the set of rows it may return.
- Resolver.Answers: which row `fetchone` takes on the user path is not modelled; the result is the set of statuses it may report.
- Queries.AllBooks: rows are a set, so their order from `fetchall` and any duplicate rows are not modelled.
- Resolver.ResolveTitle: rows are a set, so their order and any duplicate rows are not modelled.
- Catalog.Library.AddBook: in the source a duplicate BookID raises an uncaught `IntegrityError` that ends the program. The model returns `DuplicateBookID` with the tables unchanged. Committed state is the same either way.
- Catalog.Library.ModifyBookDetails: models the intended Books update of EXE4.PY:161 only. The failing Reservations statement of EXE4.PY:162 is modelled separately, in `Catalog.ModifyAsWritten`. There is no reservation status field.
- Confirmation: `choice.lower() == "y"` is taken as `choice` being "y" or "Y".
- Book detail and the listings never select ISBN (EXE4.PY:38, 96, 122); only `modify_book_details` prints it, as part of the whole row (EXE4.PY:149-154), and that printing is not modelled. `Catalog.AddFresh` states that the ISBN is stored.

## Findings

| source | as written | input that shows it | evidently intended | confidence | as-written member | corrected member |
|---|---|---|---|---|---|---|
| EXE4.PY:162 | after updating Books.Status, `UPDATE Reservations SET Status = ?` names a column Reservations does not have. It raises before the commit at line 163, nothing catches it, and the open transaction holding the Books update is rolled back | an existing BookID such as `LB001`, answer `y`, any new status | the Books Status is set and committed; the status is read from Books on every path | high; not executed | `Catalog.ModifyAsWrittenLosesStatus` | `Catalog.Library.ModifyBookDetails` |
