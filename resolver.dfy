/** The status lookup by a single search text (EXE4.PY:61-118). The text is classified by
    its prefix, tested in the order "LB", "LU", "LR", and anything else is a Title; each
    class has its own query and its own not-found message. */
module Resolver {
  import opened Schema
  import opened Queries

  /** The four lookup paths. Each carries the whole search text, prefix included, since the
      queries compare the whole text with the key. */
  datatype Token =
    | BookToken(text: string)
    | UserToken(text: string)
    | ReservationToken(text: string)
    | TitleToken(text: string)

  /** What the lookup reports: "Reservation status: <status>", one of the three not-found
      messages, or the rows of the title search. */
  datatype Answer =
    | Reported(status: string)
    | BookNotFound
    | UserNotFound
    | ReservationNotFound
    | SearchResults(rows: set<Row>)

  /** The prefix dispatch of EXE4.PY:64, 72, 84 and 95. */
  function Classify(text: string): (k: Token)
    ensures k.text == text
    ensures k.BookToken? <==> StartsWith(text, "LB")
    ensures k.UserToken? <==> StartsWith(text, "LU")
    ensures k.ReservationToken? <==> StartsWith(text, "LR")
    ensures k.TitleToken? <==>
      !StartsWith(text, "LB") && !StartsWith(text, "LU") && !StartsWith(text, "LR")
  {
    if StartsWith(text, "LB") then BookToken(text)
    else if StartsWith(text, "LU") then UserToken(text)
    else if StartsWith(text, "LR") then ReservationToken(text)
    else TitleToken(text)
  }

  /** Reservation `rid` joins user `userID` to an existing user and an existing book: a row
      of `Books JOIN Reservations JOIN Users WHERE Users.UserID = userID` (EXE4.PY:73-77). */
  predicate UserJoin(t: Tables, rid: string, userID: string)
  {
    rid in t.reservations && t.reservations[rid].userID == userID
    && userID in t.users && t.reservations[rid].bookID in t.books
  }

  /** The Status column of the rows of the user query. */
  function UserStatuses(t: Tables, userID: string): set<string>
  {
    set rid | rid in t.reservations && UserJoin(t, rid, userID) :: t.books[t.reservations[rid].bookID].status
  }

  /** The answer belongs to the path the token was classified to. */
  predicate OnPath(k: Token, a: Answer)
  {
    match k
    case BookToken(_) => a.Reported? || a.BookNotFound?
    case UserToken(_) => a.Reported? || a.UserNotFound?
    case ReservationToken(_) => a.Reported? || a.ReservationNotFound?
    case TitleToken(_) => a.SearchResults? || a.BookNotFound?
  }

  /** Every answer the lookup of `text` may give; `fetchone` on the user query may return
      the row of any of the user's reservations, so that path may have several. */
  function Answers(t: Tables, text: string): (r: set<Answer>)
    ensures r != {}
    ensures forall a :: a in r ==> OnPath(Classify(text), a)
    ensures forall a :: a in r && !a.Reported? ==> r == {a}
  {
    match Classify(text)
    case BookToken(id) =>
      if id in t.books then {Reported(t.books[id].status)} else {BookNotFound}
    case UserToken(userID) =>
      var statuses := UserStatuses(t, userID);
      if statuses == {} then {UserNotFound}
      else
        var reported := set s | s in statuses :: Reported(s);
        var s :| s in statuses;
        assert Reported(s) in reported;
        reported
    case ReservationToken(rid) =>
      if rid in t.reservations && t.reservations[rid].bookID in t.books
      then {Reported(t.books[t.reservations[rid].bookID].status)}
      else {ReservationNotFound}
    case TitleToken(title) =>
      var rows := TitleRows(t, title);
      if rows == {} then {BookNotFound} else {SearchResults(rows)}
  }

  /** The "LB" path reports the Status of the book with that BookID, and "Book not found."
      exactly when there is none. */
  lemma ResolveBook(t: Tables, text: string)
    requires StartsWith(text, "LB")
    ensures text in t.books ==> Answers(t, text) == {Reported(t.books[text].status)}
    ensures Answers(t, text) == {BookNotFound} <==> text !in t.books
  {
  }

  /** The "LR" path reports the Status of the book that reservation `text` refers to, and
      "Reservation not found." when the reservation is absent or its book is. */
  lemma ResolveReservation(t: Tables, text: string)
    requires StartsWith(text, "LR")
    ensures text in t.reservations && t.reservations[text].bookID in t.books ==>
      Answers(t, text) == {Reported(t.books[t.reservations[text].bookID].status)}
    ensures Answers(t, text) == {ReservationNotFound} <==>
      text !in t.reservations || t.reservations[text].bookID !in t.books
  {
  }

  /** The "LU" path may report exactly the statuses of books that some reservation joins to
      that user, and reports "User not found." when no reservation joins the UserID to both an
      existing user and an existing book, even if the user exists. */
  lemma ResolveUser(t: Tables, text: string)
    requires StartsWith(text, "LU")
    ensures forall s :: Reported(s) in Answers(t, text) <==>
      exists rid :: UserJoin(t, rid, text) && t.books[t.reservations[rid].bookID].status == s
    ensures Answers(t, text) == {UserNotFound} <==> forall rid :: !UserJoin(t, rid, text)
  {
    assert !StartsWith(text, "LB");
    var statuses := UserStatuses(t, text);
    forall s ensures Reported(s) in Answers(t, text) <==>
      exists rid :: UserJoin(t, rid, text) && t.books[t.reservations[rid].bookID].status == s
    {
      if exists rid :: UserJoin(t, rid, text) && t.books[t.reservations[rid].bookID].status == s {
        var rid :| UserJoin(t, rid, text) && t.books[t.reservations[rid].bookID].status == s;
        assert s in statuses;
      }
    }
    if exists rid :: UserJoin(t, rid, text) {
      var rid :| UserJoin(t, rid, text);
      assert t.books[t.reservations[rid].bookID].status in statuses;
    }
  }

  /** A text with none of the three prefixes is an exact Title search: it reports the rows of
      the books with that Title, and "Book not found." when no book has it. */
  lemma ResolveTitle(t: Tables, text: string)
    requires !StartsWith(text, "LB") && !StartsWith(text, "LU") && !StartsWith(text, "LR")
    ensures Answers(t, text) == {BookNotFound} <==>
      forall id :: id in t.books ==> t.books[id].title != text
    ensures Answers(t, text) != {BookNotFound} ==>
      Answers(t, text) == {SearchResults(set row | row in AllRows(t) && row.title == text)}
  {
    TitleRowsFilter(t, text);
  }
}
