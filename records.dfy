/** The rows of the library tracker's three tables: Books, Loans (the table
    the tracker files as "users") and the audit log, and counting over loan rows. */
module Records {

  datatype Option<T> = None | Some(value: T)

  type BookId = string
  type UserId = string

  /** A point in time, in whole microseconds since a fixed epoch (the
      resolution of `datetime.today()`). */
  type Timestamp = int

  /** One row of the Books table. */
  datatype Book = Book(id: BookId, title: string, author: string, total: int, available: int)

  /** One row of the Loans table; `returned == None` marks a copy still out. */
  datatype Loan = Loan(user: UserId, name: string, bookId: BookId, issued: Timestamp, returned: Option<Timestamp>)

  datatype Action = Issued | Returned

  /** One row of the audit log. */
  datatype LogEntry = LogEntry(user: UserId, bookId: BookId, action: Action, date: Timestamp)

  /** Which loan rows a row filter keeps. */
  datatype Selector =
    | BookRows(id: BookId)                     // every row for the book, returned or not
    | OpenRows(id: BookId)                     // the book's rows with no ReturnDate
    | OpenRowsOf(user: UserId, id: BookId)     // the user's rows for the book with no ReturnDate

  predicate Selects(s: Selector, l: Loan) {
    match s
    case BookRows(id) => l.bookId == id
    case OpenRows(id) => l.bookId == id && l.returned.None?
    case OpenRowsOf(user, id) => l.user == user && l.bookId == id && l.returned.None?
  }

  /** Number of rows of `loans` that `s` keeps. */
  function Count(loans: seq<Loan>, s: Selector): (n: nat)
    ensures n <= |loans|
  {
    if loans == [] then 0
    else Count(loans[..|loans| - 1], s) + (if Selects(s, loans[|loans| - 1]) then 1 else 0)
  }

  /** A count is zero exactly when no row matches. */
  lemma {:induction false} CountZero(loans: seq<Loan>, s: Selector)
    ensures Count(loans, s) == 0 <==> forall i :: 0 <= i < |loans| ==> !Selects(s, loans[i])
  {
    if loans != [] {
      var n := |loans| - 1;
      CountZero(loans[..n], s);
      assert forall i :: 0 <= i < n ==> loans[..n][i] == loans[i];
    }
  }

  /** Appending a row adds one to every count that keeps it and leaves the others alone. */
  lemma CountAppend(loans: seq<Loan>, l: Loan, s: Selector)
    ensures Count(loans + [l], s) == Count(loans, s) + (if Selects(s, l) then 1 else 0)
  {
    assert (loans + [l])[..|loans|] == loans;
  }

  /** Index of the first row that `s` keeps, the row `.iloc[0]` picks under a mask. */
  function FirstSelected(loans: seq<Loan>, s: Selector): (r: Option<nat>)
    ensures r.None? <==> Count(loans, s) == 0
    ensures r.Some? ==> r.value < |loans| && Selects(s, loans[r.value])
    ensures r.Some? ==> forall j :: 0 <= j < r.value ==> !Selects(s, loans[j])
  {
    CountZero(loans, s);
    if loans == [] then None
    else if Selects(s, loans[0]) then Some(0)
    else
      CountZero(loans[1..], s);
      assert forall i :: 1 <= i < |loans| ==> loans[i] == loans[1..][i - 1];
      match FirstSelected(loans[1..], s)
      case None => None
      case Some(i) => Some(i + 1)
  }
}
