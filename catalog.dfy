/** The three operations that change the tables: add_book (EXE4.PY:22-32),
    modify_book_details (EXE4.PY:146-168) and delete_book (EXE4.PY:171-183). Each is a
    function of the tables, and a method of `Library` applies it to the tables in place. */
module Catalog {
  import opened Schema
  import opened Queries
  import opened Resolver

  /** "Book added successfully.", or the primary-key violation of a second BookID. */
  datatype AddResult = Added | DuplicateBookID

  /** "Book details updated successfully.", "No modifications made." or "Book not found." */
  datatype UpdateResult = Updated | NotModified | UpdateBookNotFound

  /** "Book deleted successfully." or "Book not found." */
  datatype DeleteResult = Deleted | DeleteBookNotFound

  /** The INSERT of EXE4.PY:29-30; a BookID already present breaks the primary key and
      the tables stay as they were. */
  function Insert(t: Tables, bookID: string, b: Book): Tables
  {
    if bookID in t.books then t else t.(books := t.books[bookID := b])
  }

  /** `UPDATE Books SET Status = ? WHERE BookID = ?` (EXE4.PY:161). */
  function SetStatus(t: Tables, bookID: string, status: string): Tables
  {
    if bookID in t.books then t.(books := t.books[bookID := t.books[bookID].(status := status)]) else t
  }

  /** The two DELETEs of EXE4.PY:178-179, done only when the book exists (EXE4.PY:174-177). */
  function Remove(t: Tables, bookID: string): Tables
  {
    if bookID in t.books then
      Tables(t.books - {bookID}, t.users,
             map rid | rid in t.reservations && t.reservations[rid].bookID != bookID :: t.reservations[rid])
    else t
  }

  /** The confirmation answer of EXE4.PY:156-158: `choice.lower() == "y"`. */
  predicate Confirms(choice: string)
  {
    choice == "y" || choice == "Y"
  }

  /** The database connection with its three tables. Users and Reservations are never
      written here: they are whatever the database held when it was opened. */
  class Library {
    var books: map<string, Book>
    var users: map<string, User>
    var reservations: map<string, Reservation>

    /** The tables as one value. */
    function State(): Tables
      reads this
    {
      Tables(books, users, reservations)
    }

    constructor (initial: Tables)
      ensures State() == initial
    {
      books := initial.books;
      users := initial.users;
      reservations := initial.reservations;
    }

    method AddBook(bookID: string, title: string, author: string, isbn: string, status: string)
      returns (r: AddResult)
      modifies this
      ensures r == if bookID in old(books) then DuplicateBookID else Added
      ensures State() == Insert(old(State()), bookID, Book(title, author, isbn, status))
    {
      if bookID in books {
        r := DuplicateBookID;
      } else {
        books := books[bookID := Book(title, author, isbn, status)];
        r := Added;
      }
    }

    method ModifyBookDetails(bookID: string, choice: string, newStatus: string) returns (r: UpdateResult)
      modifies this
      ensures r == if bookID !in old(books) then UpdateBookNotFound
                   else if Confirms(choice) then Updated else NotModified
      ensures State() == if Confirms(choice) then SetStatus(old(State()), bookID, newStatus) else old(State())
    {
      if bookID !in books {
        r := UpdateBookNotFound;
      } else if Confirms(choice) {
        books := books[bookID := books[bookID].(status := newStatus)];
        r := Updated;
      } else {
        r := NotModified;
      }
    }

    method DeleteBook(bookID: string) returns (r: DeleteResult)
      modifies this
      ensures r == if bookID in old(books) then Deleted else DeleteBookNotFound
      ensures State() == Remove(old(State()), bookID)
    {
      if bookID in books {
        books := books - {bookID};
        reservations := map rid | rid in reservations && reservations[rid].bookID != bookID :: reservations[rid];
        r := Deleted;
      } else {
        r := DeleteBookNotFound;
      }
    }
  }

  /** Adding a fresh BookID stores exactly the supplied row and touches nothing else; the
      "LB" lookup then reports the supplied Status. A BookID already present leaves every
      table as it was. */
  lemma AddFresh(t: Tables, bookID: string, b: Book)
    ensures bookID in t.books ==> Insert(t, bookID, b) == t
    ensures bookID !in t.books ==>
      && Insert(t, bookID, b).books.Keys == t.books.Keys + {bookID}
      && Insert(t, bookID, b).books[bookID] == b
      && (forall id :: id in t.books ==> Insert(t, bookID, b).books[id] == t.books[id])
      && Insert(t, bookID, b).users == t.users
      && Insert(t, bookID, b).reservations == t.reservations
    ensures bookID !in t.books && StartsWith(bookID, "LB") ==>
      Answers(Insert(t, bookID, b), bookID) == {Reported(b.status)}
  {
  }

  /** Book detail after adding a fresh BookID shows the supplied Title, Author and Status;
      when no reservation refers to that BookID it shows exactly those with "Not reserved." */
  lemma AddThenDetail(t: Tables, bookID: string, b: Book)
    requires bookID !in t.books
    ensures forall d :: d in BookDetail(Insert(t, bookID, b), bookID) ==>
      d.BookFound? && d.row.bookID == bookID && d.row.title == b.title
      && d.row.author == b.author && d.row.status == b.status
    ensures (forall rid :: rid in t.reservations ==> t.reservations[rid].bookID != bookID) ==>
      BookDetail(Insert(t, bookID, b), bookID) == {BookFound(Row(bookID, b.title, b.author, b.status, None))}
  {
  }

  /** Setting the Status of an existing book changes that one field and keeps every other
      book, every user and every reservation; on a missing BookID nothing changes. */
  lemma SetStatusFrame(t: Tables, bookID: string, status: string)
    ensures bookID !in t.books ==> SetStatus(t, bookID, status) == t
    ensures bookID in t.books ==>
      && SetStatus(t, bookID, status).books.Keys == t.books.Keys
      && SetStatus(t, bookID, status).books[bookID] == t.books[bookID].(status := status)
      && (forall id :: id in t.books && id != bookID ==> SetStatus(t, bookID, status).books[id] == t.books[id])
      && SetStatus(t, bookID, status).users == t.users
      && SetStatus(t, bookID, status).reservations == t.reservations
  {
  }

  /** After a status update the new Status is what these paths report for the book: the "LB"
      lookup of the book, the "LR" lookup of every reservation of the book, every row of the
      book's detail, and every row of the book in the listing and in any title search. */
  lemma UpdateThenLookups(t: Tables, bookID: string, status: string)
    requires bookID in t.books
    ensures StartsWith(bookID, "LB") ==> Answers(SetStatus(t, bookID, status), bookID) == {Reported(status)}
    ensures forall rid :: rid in t.reservations && t.reservations[rid].bookID == bookID && StartsWith(rid, "LR") ==>
      Answers(SetStatus(t, bookID, status), rid) == {Reported(status)}
    ensures forall d :: d in BookDetail(SetStatus(t, bookID, status), bookID) ==> d.BookFound? && d.row.status == status
    ensures forall row :: row in AllRows(SetStatus(t, bookID, status)) && row.bookID == bookID ==> row.status == status
    ensures forall title, row :: row in TitleRows(SetStatus(t, bookID, status), title) && row.bookID == bookID ==>
      row.status == status
  {
  }

  /** Deleting an existing book removes it and every reservation of it, and keeps every
      other book, every user and every reservation of another book. On a missing BookID
      nothing changes. */
  lemma RemoveFrame(t: Tables, bookID: string)
    ensures bookID !in t.books ==> Remove(t, bookID) == t
    ensures bookID in t.books ==>
      && Remove(t, bookID).books.Keys == t.books.Keys - {bookID}
      && (forall id :: id in Remove(t, bookID).books ==> Remove(t, bookID).books[id] == t.books[id])
      && Remove(t, bookID).users == t.users
      && (forall rid :: rid in Remove(t, bookID).reservations <==>
            rid in t.reservations && t.reservations[rid].bookID != bookID)
      && (forall rid :: rid in Remove(t, bookID).reservations ==>
            Remove(t, bookID).reservations[rid] == t.reservations[rid])
  {
  }

  /** After a delete the book is gone from every lookup: its detail is "Book not found.",
      a second delete finds nothing and changes nothing, and every reservation that referred
      to it now answers "Reservation not found." */
  lemma DeleteThenLookups(t: Tables, bookID: string)
    requires bookID in t.books
    ensures BookDetail(Remove(t, bookID), bookID) == {BookMissing}
    ensures bookID !in Remove(t, bookID).books
    ensures Remove(Remove(t, bookID), bookID) == Remove(t, bookID)
    ensures forall rid :: rid in t.reservations && t.reservations[rid].bookID == bookID && StartsWith(rid, "LR") ==>
      Answers(Remove(t, bookID), rid) == {ReservationNotFound}
  {
  }

  /** How a run of modify_book_details ends as the source is written. */
  datatype ModifyRun = Finished(result: UpdateResult) | NoSuchColumn(column: string)

  /** modify_book_details as written: after the Books UPDATE of EXE4.PY:161 the statement of
      EXE4.PY:162 names a Status column that Reservations lacks (EXE4.PY:16-17), so it raises
      before the commit of EXE4.PY:163; nothing catches the error, and the still open
      transaction holding the first UPDATE is rolled back. The second component is the
      committed tables. */
  function ModifyAsWritten(t: Tables, bookID: string, choice: string, newStatus: string): (ModifyRun, Tables)
  {
    if bookID !in t.books then (Finished(UpdateBookNotFound), t)
    else if !Confirms(choice) then (Finished(NotModified), t)
    else
      var pending := SetStatus(t, bookID, newStatus);
      if "Status" in RESERVATION_COLUMNS then (Finished(Updated), pending)
      else (NoSuchColumn("Status"), t)
  }

  /** As written, a confirmed update of an existing book fails and the "LB" lookup still
      reports the old Status, whatever new Status was entered. */
  lemma ModifyAsWrittenLosesStatus(t: Tables, bookID: string, newStatus: string)
    requires bookID in t.books && StartsWith(bookID, "LB")
    ensures ModifyAsWritten(t, bookID, "y", newStatus).0 == NoSuchColumn("Status")
    ensures Answers(ModifyAsWritten(t, bookID, "y", newStatus).1, bookID) == {Reported(t.books[bookID].status)}
  {
  }
}

/** A client that can see only the contracts: one book, seeded with a user and a reservation
    of it, looked up by every path, updated and deleted. */
module CatalogClient {
  import opened Schema
  import opened Queries
  import opened Resolver
  import opened Catalog

  method Scenario()
  {
    var seed := Tables(map[], map["LU001" := User("Alice", "a@x.com")],
                       map["LR001" := Reservation("LB001", "LU001", "2024-01-01")]);
    var lib := new Library(seed);
    var added := lib.AddBook("LB001", "Dune", "Herbert", "123", "Available");
    assert added == Added;
    var again := lib.AddBook("LB001", "Other", "Someone", "456", "Lost");
    assert again == DuplicateBookID;
    ResolveBook(lib.State(), "LB001");
    assert Answers(lib.State(), "LB001") == {Reported("Available")};
    ResolveReservation(lib.State(), "LR001");
    assert Answers(lib.State(), "LR001") == {Reported("Available")};
    DetailReservedBy(lib.State(), "LB001", User("Alice", "a@x.com"));
    assert JoinedUser(lib.State(), "LU001") == Some(User("Alice", "a@x.com"));
    assert lib.State().reservations["LR001"].bookID == "LB001";
    assert exists d :: d in BookDetail(lib.State(), "LB001") && d.BookFound? && ReservedBy(d.row) == Some(User("Alice", "a@x.com"));

    ghost var before := lib.State();
    var updated := lib.ModifyBookDetails("LB001", "y", "Checked Out");
    assert updated == Updated;
    UpdateThenLookups(before, "LB001", "Checked Out");
    assert Answers(lib.State(), "LR001") == {Reported("Checked Out")};

    var deleted := lib.DeleteBook("LB001");
    assert deleted == Deleted;
    ResolveReservation(lib.State(), "LR001");
    assert Answers(lib.State(), "LR001") == {ReservationNotFound};
    var twice := lib.DeleteBook("LB001");
    assert twice == DeleteBookNotFound;
  }
}
