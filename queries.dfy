/** The read queries over the catalogue: book detail (EXE4.PY:35-58), the title search
    (EXE4.PY:96-118) and the listing of every book (EXE4.PY:121-143). All three select from
    `Books LEFT JOIN Reservations ON Books.BookID = Reservations.BookID
             LEFT JOIN Users ON Reservations.UserID = Users.UserID`.
    The order in which rows come back is not modelled: multi-row results are sets, and an
    answer taken with `fetchone` is any one of the matching rows. */
module Queries {
  import opened Schema

  /** One selected row: BookID, Title, Author and Status of the book, then Name and Email of
      the joined user, both NULL (`None`) when the left join finds no user. */
  datatype Row = Row(bookID: string, title: string, author: string, status: string, user: Option<User>)

  /** The answer of the book-detail query: some row of the join, or "Book not found." */
  datatype Detail = BookFound(row: Row) | BookMissing

  /** The answer of the list-all query: the rows, or "No books found in the database." */
  datatype Listing = NoBooks | Listed(rows: set<Row>)

  /** The Users side of the second left join: NULL columns when no user has that UserID. */
  function JoinedUser(t: Tables, userID: string): Option<User>
  {
    if userID in t.users then Some(t.users[userID]) else None
  }

  /** The keys of the reservations whose BookID column equals `bookID`. */
  function ReservationsFor(t: Tables, bookID: string): set<string>
  {
    set rid | rid in t.reservations && t.reservations[rid].bookID == bookID
  }

  /** The row of book `bookID` joined with user columns `user`. */
  function BookRow(t: Tables, bookID: string, user: Option<User>): Row
    requires bookID in t.books
  {
    var b := t.books[bookID];
    Row(bookID, b.title, b.author, b.status, user)
  }

  /** Row `row` shows the selected columns of book `bookID`. */
  predicate ShowsBook(t: Tables, bookID: string, row: Row)
    requires bookID in t.books
  {
    var b := t.books[bookID];
    row.bookID == bookID && row.title == b.title && row.author == b.author && row.status == b.status
  }

  /** The rows the left join yields for one book: one per reservation of the book, or a
      single row with NULL user columns when the book has no reservation. A left join never
      drops a book. */
  function BookRows(t: Tables, bookID: string): (rows: set<Row>)
    requires bookID in t.books
    ensures rows != {}
    ensures forall row :: row in rows ==> ShowsBook(t, bookID, row)
  {
    var rs := ReservationsFor(t, bookID);
    if rs == {} then {BookRow(t, bookID, None)}
    else
      var rows := set r | r in rs :: BookRow(t, bookID, JoinedUser(t, t.reservations[r].userID));
      var rid :| rid in rs;
      assert BookRow(t, bookID, JoinedUser(t, t.reservations[rid].userID)) in rows;
      rows
  }

  /** The rule at EXE4.PY:52-56 (and 112-116, 137-141): "Reserved by" with the Email is shown
      only when the joined Name is truthy, that is present and not empty; otherwise the row
      is shown as "Not reserved." */
  function ReservedBy(row: Row): Option<User>
  {
    if row.user.Some? && row.user.value.name != "" then row.user else None
  }

  /** Book detail by BookID (EXE4.PY:38-58). */
  function BookDetail(t: Tables, bookID: string): (r: set<Detail>)
    ensures r != {}
    ensures BookMissing in r <==> bookID !in t.books
    ensures BookMissing in r ==> r == {BookMissing}
    ensures forall d :: d in r && d.BookFound? ==> bookID in t.books && ShowsBook(t, bookID, d.row)
    ensures bookID in t.books ==> forall row :: BookFound(row) in r <==> row in BookRows(t, bookID)
  {
    if bookID in t.books then
      var rows := BookRows(t, bookID);
      var found := set x | x in rows :: BookFound(x);
      var row :| row in rows;
      assert BookFound(row) in found;
      found
    else {BookMissing}
  }

  /** Every row of the unrestricted join (EXE4.PY:122-125). */
  function AllRows(t: Tables): set<Row>
  {
    set id, row | id in t.books && row in BookRows(t, id) :: row
  }

  /** The list-all query (EXE4.PY:121-143). */
  function AllBooks(t: Tables): (r: Listing)
    ensures r.NoBooks? <==> t.books == map[]
    ensures r.Listed? ==> r.rows == AllRows(t)
  {
    AllRowsCover(t);
    var rows := AllRows(t);
    if rows == {} then NoBooks else Listed(rows)
  }

  /** The rows of the join restricted to `Books.Title = title` (EXE4.PY:96-100). */
  function TitleRows(t: Tables, title: string): set<Row>
  {
    set id, row | id in t.books && t.books[id].title == title && row in BookRows(t, id) :: row
  }

  /** The left join reports a user for a book exactly when some reservation of that book
      names an existing user, and then it reports that user's Name and Email. */
  lemma BookRowsUser(t: Tables, bookID: string, c: User)
    requires bookID in t.books
    ensures BookRow(t, bookID, Some(c)) in BookRows(t, bookID) <==>
      exists rid :: rid in t.reservations && t.reservations[rid].bookID == bookID
        && JoinedUser(t, t.reservations[rid].userID) == Some(c)
  {
    var rs := ReservationsFor(t, bookID);
    if BookRow(t, bookID, Some(c)) in BookRows(t, bookID) {
      assert rs != {};
      var rid :| rid in rs && BookRow(t, bookID, Some(c)) == BookRow(t, bookID, JoinedUser(t, t.reservations[rid].userID));
      assert rid in t.reservations && t.reservations[rid].bookID == bookID;
    }
  }

  /** The left join yields a row with NULL user columns for a book exactly when the book has
      no reservation or one of its reservations names a user that does not exist. */
  lemma BookRowsNoUser(t: Tables, bookID: string)
    requires bookID in t.books
    ensures BookRow(t, bookID, None) in BookRows(t, bookID) <==>
      ReservationsFor(t, bookID) == {}
      || exists rid :: rid in t.reservations && t.reservations[rid].bookID == bookID
           && t.reservations[rid].userID !in t.users
  {
  }

  /** Book detail may report a reserver `c` exactly when some reservation of the book names
      an existing user whose Name is `c.name`, not empty, and whose Email is `c.email`. */
  lemma DetailReservedBy(t: Tables, bookID: string, c: User)
    requires bookID in t.books
    ensures (exists d :: d in BookDetail(t, bookID) && d.BookFound? && ReservedBy(d.row) == Some(c)) <==>
      c.name != "" &&
      exists rid :: rid in t.reservations && t.reservations[rid].bookID == bookID
        && JoinedUser(t, t.reservations[rid].userID) == Some(c)
  {
    BookRowsUser(t, bookID, c);
    var row := BookRow(t, bookID, Some(c));
    if exists d :: d in BookDetail(t, bookID) && d.BookFound? && ReservedBy(d.row) == Some(c) {
      var d :| d in BookDetail(t, bookID) && d.BookFound? && ReservedBy(d.row) == Some(c);
      assert d.row == row;
    }
    if c.name != "" && row in BookRows(t, bookID) {
      assert BookFound(row) in BookDetail(t, bookID);
    }
  }

  /** Book detail on a book that no reservation refers to is that book's columns with
      "Not reserved." */
  lemma DetailUnreserved(t: Tables, bookID: string)
    requires bookID in t.books
    requires forall rid :: rid in t.reservations ==> t.reservations[rid].bookID != bookID
    ensures BookDetail(t, bookID) == {BookFound(BookRow(t, bookID, None))}
  {
  }

  /** The UserID names an existing user with a non-empty Name. */
  predicate NamedUser(t: Tables, userID: string)
  {
    userID in t.users && t.users[userID].name != ""
  }

  /** Book detail may answer "Not reserved." exactly when the book has no reservation, or one
      of its reservations names a user that does not exist or whose Name is empty. */
  lemma DetailNotReserved(t: Tables, bookID: string)
    requires bookID in t.books
    ensures (exists d :: d in BookDetail(t, bookID) && d.BookFound? && ReservedBy(d.row) == None) <==>
      ReservationsFor(t, bookID) == {}
      || exists rid :: rid in t.reservations && t.reservations[rid].bookID == bookID
           && !NamedUser(t, t.reservations[rid].userID)
  {
    var rs := ReservationsFor(t, bookID);
    if exists d :: d in BookDetail(t, bookID) && d.BookFound? && ReservedBy(d.row) == None {
      var d :| d in BookDetail(t, bookID) && d.BookFound? && ReservedBy(d.row) == None;
      if rs != {} {
        var rid :| rid in rs && d.row == BookRow(t, bookID, JoinedUser(t, t.reservations[rid].userID));
        assert rid in t.reservations && t.reservations[rid].bookID == bookID;
      }
    }
    if rs == {} {
      assert BookFound(BookRow(t, bookID, None)) in BookDetail(t, bookID);
    } else if exists rid :: rid in rs && !NamedUser(t, t.reservations[rid].userID) {
      var rid :| rid in rs && !NamedUser(t, t.reservations[rid].userID);
      var row := BookRow(t, bookID, JoinedUser(t, t.reservations[rid].userID));
      assert row in BookRows(t, bookID);
      assert BookFound(row) in BookDetail(t, bookID);
    }
  }

  /** Every book of the catalogue appears in the listing, and the listing shows nothing
      but books of the catalogue. */
  lemma AllRowsCover(t: Tables)
    ensures forall id :: id in t.books ==> exists row :: row in AllRows(t) && ShowsBook(t, id, row)
    ensures forall row :: row in AllRows(t) ==> row.bookID in t.books && ShowsBook(t, row.bookID, row)
  {
    forall id | id in t.books
      ensures exists row :: row in AllRows(t) && ShowsBook(t, id, row)
    {
      var rows := BookRows(t, id);
      assert rows != {};
      var row :| row in rows;
      assert row in AllRows(t);
    }
  }

  /** The listing may show book `bookID` as reserved by `u` exactly when `u`'s Name is not
      empty and some reservation of the book joins to `u` (EXE4.PY:137-141, and 112-116 for
      the title search, whose rows are the listing's). */
  lemma ListingReservedBy(t: Tables, bookID: string, u: User)
    requires bookID in t.books
    ensures (exists row :: row in AllRows(t) && row.bookID == bookID && ReservedBy(row) == Some(u)) <==>
      u.name != "" &&
      exists rid :: rid in t.reservations && t.reservations[rid].bookID == bookID
        && JoinedUser(t, t.reservations[rid].userID) == Some(u)
  {
    BookRowsUser(t, bookID, u);
    var row := BookRow(t, bookID, Some(u));
    if exists r :: r in AllRows(t) && r.bookID == bookID && ReservedBy(r) == Some(u) {
      var r :| r in AllRows(t) && r.bookID == bookID && ReservedBy(r) == Some(u);
      var id :| id in t.books && r in BookRows(t, id);
      assert r == row;
    }
    if u.name != "" && row in BookRows(t, bookID) {
      assert row in AllRows(t);
    }
  }

  /** The title search is the listing restricted to rows of that Title, and it finds no row
      exactly when no book has that Title. */
  lemma TitleRowsFilter(t: Tables, title: string)
    ensures TitleRows(t, title) == set row | row in AllRows(t) && row.title == title
    ensures TitleRows(t, title) == {} <==> forall id :: id in t.books ==> t.books[id].title != title
  {
    AllRowsCover(t);
    if exists id :: id in t.books && t.books[id].title == title {
      var id :| id in t.books && t.books[id].title == title;
      var rows := BookRows(t, id);
      assert rows != {};
      var row :| row in rows;
      assert row in TitleRows(t, title);
    }
  }
}
