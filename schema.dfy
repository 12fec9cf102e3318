/** The three tables of the library database (EXE4.PY:8-19), each held as a map from its
    primary key to the rest of its row. */
module Schema {

  datatype Option<T> = None | Some(value: T)

  /** A row of Books without its primary key BookID. */
  datatype Book = Book(title: string, author: string, isbn: string, status: string)

  /** A row of Users without its primary key UserID. */
  datatype User = User(name: string, email: string)

  /** A row of Reservations without its primary key ReservationID. BookID and UserID are
      declared as foreign keys, but nothing enforces them: they may dangle. */
  datatype Reservation = Reservation(bookID: string, userID: string, date: string)

  /** The whole database: one map per table, keyed by the primary key. */
  datatype Tables = Tables(
    books: map<string, Book>,
    users: map<string, User>,
    reservations: map<string, Reservation>)

  /** The column names of Reservations as the schema creates it. */
  const RESERVATION_COLUMNS: set<string> := {"ReservationID", "BookID", "UserID", "ReservationDate"}

  /** Python's str.startswith. */
  predicate StartsWith(s: string, prefix: string)
  {
    |prefix| <= |s| && s[..|prefix|] == prefix
  }
}
