/** Issuing and returning copies: the session's tables as one object whose
    methods update them in place, and the table invariant
    AvailableCopies = TotalCopies - outstanding loans. */
module Circulation {
  import opened Records
  import opened Inventory
  import opened Fines

  datatype IssueStatus = BookIssued | BookNotFound | NoCopiesLeft

  datatype ReturnStatus = BookReturned(fine: nat) | NoActiveLoan

  /** `users.loc[mask, "ReturnDate"] = today`, where the mask keeps the
      user's open rows for the book: only ReturnDate changes, and only on
      those rows. */
  function CloseLoans(loans: seq<Loan>, user: UserId, id: BookId, today: Timestamp): (r: seq<Loan>)
    ensures |r| == |loans|
    ensures forall i :: 0 <= i < |r| ==> r[i].(returned := loans[i].returned) == loans[i]
    ensures forall i :: 0 <= i < |r| ==>
      r[i].returned == if Selects(OpenRowsOf(user, id), loans[i]) then Some(today) else loans[i].returned
  {
    seq(|loans|, i requires 0 <= i < |loans| =>
      if Selects(OpenRowsOf(user, id), loans[i]) then loans[i].(returned := Some(today)) else loans[i])
  }

  /** Closing leaves no open row of the pair, takes exactly the pair's open
      rows out of the book's open count and no other book's, and every row
      still counts as a borrow. */
  lemma {:induction false} CloseLoansCounts(loans: seq<Loan>, user: UserId, id: BookId, today: Timestamp, other: BookId)
    ensures Count(CloseLoans(loans, user, id, today), OpenRowsOf(user, id)) == 0
    ensures Count(CloseLoans(loans, user, id, today), OpenRows(other))
         == Count(loans, OpenRows(other)) - (if other == id then Count(loans, OpenRowsOf(user, id)) else 0)
    ensures Count(CloseLoans(loans, user, id, today), BookRows(other)) == Count(loans, BookRows(other))
  {
    if loans != [] {
      var n := |loans| - 1;
      var pre := loans[..n];
      var r := CloseLoans(loans, user, id, today);
      var rp := CloseLoans(pre, user, id, today);
      CloseLoansCounts(pre, user, id, today, other);
      forall i | 0 <= i < n
        ensures r[..n][i] == rp[i]
      {
        assert pre[i] == loans[i];
      }
      assert r[..n] == rp;
      assert r[n].bookId == loans[n].bookId && r[n].user == loans[n].user;
    }
  }

  /** AvailableCopies = TotalCopies - outstanding loans, row by row. */
  ghost predicate Balanced(books: seq<Book>, loans: seq<Loan>) {
    forall i :: 0 <= i < |books| ==> books[i].available == books[i].total - Count(loans, OpenRows(books[i].id))
  }

  /** The table invariant: unique BookIDs, at least one copy per title,
      availability never negative, every loan for a known book, and balance. */
  ghost predicate Consistent(books: seq<Book>, loans: seq<Loan>) {
    && UniqueIds(books)
    && (forall i :: 0 <= i < |books| ==> 1 <= books[i].total && 0 <= books[i].available)
    && (forall j :: 0 <= j < |loans| ==> HasBook(books, loans[j].bookId))
    && Balanced(books, loans)
  }

  lemma AddBookPreservesConsistency(books: seq<Book>, loans: seq<Loan>, id: BookId, title: string, author: string, copies: Option<int>)
    requires Consistent(books, loans)
    ensures Consistent(AddBook(books, id, title, author, copies).books, loans)
  {
    var r := AddBook(books, id, title, author, copies);
    AddBookKeepsIdsUnique(books, id, title, author, copies);
    if r.status == BookAdded {
      CountZero(loans, OpenRows(id));
      forall j | 0 <= j < |loans|
        ensures HasBook(r.books, loans[j].bookId)
      {
        var i :| 0 <= i < |books| && books[i].id == loans[j].bookId;
        assert r.books[i] == books[i];
      }
    }
  }

  /** The new state of a successful issue keeps the invariant. */
  lemma IssuePreservesConsistency(books: seq<Book>, loans: seq<Loan>, user: UserId, name: string, id: BookId, today: Timestamp)
    requires Consistent(books, loans)
    requires FindBook(books, id).Some? && books[FindBook(books, id).value].available > 0
    ensures Consistent(AdjustAvailable(books, id, -1), loans + [Loan(user, name, id, today, None)])
  {
    var k := FindBook(books, id).value;
    var books' := AdjustAvailable(books, id, -1);
    var loan := Loan(user, name, id, today, None);
    AdjustAvailableOneRow(books, id, -1, k);
    forall i | 0 <= i < |books'|
      ensures books'[i].available == books'[i].total - Count(loans + [loan], OpenRows(books'[i].id))
    {
      CountAppend(loans, loan, OpenRows(books[i].id));
    }
    forall j | 0 <= j < |loans + [loan]|
      ensures HasBook(books', (loans + [loan])[j].bookId)
    {
      if j < |loans| {
        var i :| 0 <= i < |books| && books[i].id == loans[j].bookId;
        assert books'[i].id == books[i].id;
      } else {
        assert books'[k].id == id;
      }
    }
  }

  /** The new state of a successful return keeps the invariant when the
      user held exactly one open loan of the book. */
  lemma ReturnPreservesConsistency(books: seq<Book>, loans: seq<Loan>, user: UserId, id: BookId, today: Timestamp)
    requires Consistent(books, loans)
    requires Count(loans, OpenRowsOf(user, id)) == 1
    ensures Consistent(AdjustAvailable(books, id, 1), CloseLoans(loans, user, id, today))
  {
    var books' := AdjustAvailable(books, id, 1);
    var loans' := CloseLoans(loans, user, id, today);
    forall i | 0 <= i < |books'|
      ensures books'[i].available == books'[i].total - Count(loans', OpenRows(books'[i].id))
    {
      CloseLoansCounts(loans, user, id, today, books[i].id);
    }
    forall j | 0 <= j < |loans'|
      ensures HasBook(books', loans'[j].bookId)
    {
      var i :| 0 <= i < |books| && books[i].id == loans[j].bookId;
      assert books'[i].id == books[i].id;
    }
  }

  /** Return closes every open loan of the pair but credits one copy, so with
      two or more such loans the balance is lost. */
  lemma ReturnOverCredits(books: seq<Book>, loans: seq<Loan>, user: UserId, id: BookId, today: Timestamp)
    requires Consistent(books, loans)
    requires Count(loans, OpenRowsOf(user, id)) >= 2
    ensures !Balanced(AdjustAvailable(books, id, 1), CloseLoans(loans, user, id, today))
  {
    var j := FirstSelected(loans, OpenRowsOf(user, id)).value;
    assert HasBook(books, loans[j].bookId);
    var k := FindBook(books, id).value;
    var books' := AdjustAvailable(books, id, 1);
    var loans' := CloseLoans(loans, user, id, today);
    CloseLoansCounts(loans, user, id, today, id);
    assert books'[k].id == id;
    assert books'[k].total == books[k].total;
    assert books'[k].available == books[k].available + 1;
    assert books[k].available == books[k].total - Count(loans, OpenRows(id));
    assert Count(loans', OpenRows(id)) <= Count(loans, OpenRows(id)) - 2;
  }

  /** Issue does not look at the loans a user already holds: a second issue
      of the same book to the same user succeeds whenever a copy is left, and
      the return that follows breaks the balance. */
  lemma DoubleIssueThenReturnBreaksBalance(books: seq<Book>, loans: seq<Loan>, user: UserId, name: string, id: BookId, t1: Timestamp, t2: Timestamp, t3: Timestamp)
    requires Consistent(books, loans) && Count(loans, OpenRowsOf(user, id)) == 0
    requires FindBook(books, id).Some? && books[FindBook(books, id).value].available >= 2
    ensures
      var books1 := AdjustAvailable(books, id, -1);
      var loans1 := loans + [Loan(user, name, id, t1, None)];
      && FindBook(books1, id).Some? && books1[FindBook(books1, id).value].available > 0
      && var books2 := AdjustAvailable(books1, id, -1);
         var loans2 := loans1 + [Loan(user, name, id, t2, None)];
         && Consistent(books2, loans2)
         && !Balanced(AdjustAvailable(books2, id, 1), CloseLoans(loans2, user, id, t3))
  {
    var k := FindBook(books, id).value;
    var books1 := AdjustAvailable(books, id, -1);
    var loans1 := loans + [Loan(user, name, id, t1, None)];
    AdjustAvailableOneRow(books, id, -1, k);
    IssuePreservesConsistency(books, loans, user, name, id, t1);
    var books2 := AdjustAvailable(books1, id, -1);
    var loans2 := loans1 + [Loan(user, name, id, t2, None)];
    IssuePreservesConsistency(books1, loans1, user, name, id, t2);
    CountAppend(loans, Loan(user, name, id, t1, None), OpenRowsOf(user, id));
    CountAppend(loans1, Loan(user, name, id, t2, None), OpenRowsOf(user, id));
    ReturnOverCredits(books2, loans2, user, id, t3);
  }

  /** The three tables held for one session. */
  class Library {
    var books: seq<Book>
    var loans: seq<Loan>
    var logs: seq<LogEntry>

    /** The tables as `load_data` read them. */
    constructor (books: seq<Book>, loans: seq<Loan>, logs: seq<LogEntry>)
      ensures this.books == books && this.loans == loans && this.logs == logs
    {
      this.books := books;
      this.loans := loans;
      this.logs := logs;
    }

    /** Menu choice 1: `books = add_book(books)`. */
    method AddBook(id: BookId, title: string, author: string, copies: Option<int>) returns (status: AddStatus)
      modifies this
      ensures status == Inventory.AddBook(old(books), id, title, author, copies).status
      ensures books == Inventory.AddBook(old(books), id, title, author, copies).books
      ensures loans == old(loans) && logs == old(logs)
      ensures old(Consistent(books, loans)) ==> Consistent(books, loans)
    {
      var r := Inventory.AddBook(books, id, title, author, copies);
      if Consistent(books, loans) {
        AddBookPreservesConsistency(books, loans, id, title, author, copies);
      }
      status, books := r.status, r.books;
    }

    /** Menu choice 2: issue a copy of `id` to `user` at time `today`. */
    method IssueBook(user: UserId, name: string, id: BookId, today: Timestamp) returns (status: IssueStatus)
      modifies this
      ensures status == BookNotFound <==> !HasBook(old(books), id)
      ensures status == NoCopiesLeft <==>
        HasBook(old(books), id) && old(books)[FindBook(old(books), id).value].available <= 0
      ensures status != BookIssued ==> books == old(books) && loans == old(loans) && logs == old(logs)
      ensures status == BookIssued ==>
        && books == AdjustAvailable(old(books), id, -1)
        && loans == old(loans) + [Loan(user, name, id, today, None)]
        && logs == old(logs) + [LogEntry(user, id, Issued, today)]
      ensures old(Consistent(books, loans)) ==> Consistent(books, loans)
    {
      var found := FindBook(books, id);
      if found.None? {
        return BookNotFound;
      }
      if books[found.value].available <= 0 {
        return NoCopiesLeft;
      }
      if Consistent(books, loans) {
        IssuePreservesConsistency(books, loans, user, name, id, today);
      }
      loans := loans + [Loan(user, name, id, today, None)];
      books := AdjustAvailable(books, id, -1);
      logs := logs + [LogEntry(user, id, Issued, today)];
      status := BookIssued;
    }

    /** Menu choice 3: `user` returns `id` at time `today`; the fine is worked
        out from the first open loan of the pair. */
    method ReturnBook(user: UserId, id: BookId, today: Timestamp) returns (status: ReturnStatus)
      modifies this
      ensures status == NoActiveLoan <==> Count(old(loans), OpenRowsOf(user, id)) == 0
      ensures status == NoActiveLoan ==> books == old(books) && loans == old(loans) && logs == old(logs)
      ensures status.BookReturned? ==>
        && status.fine == Fine(ElapsedDays(old(loans)[FirstSelected(old(loans), OpenRowsOf(user, id)).value].issued, today))
        && loans == CloseLoans(old(loans), user, id, today)
        && books == AdjustAvailable(old(books), id, 1)
        && logs == old(logs) + [LogEntry(user, id, Returned, today)]
      ensures old(Consistent(books, loans)) && Count(old(loans), OpenRowsOf(user, id)) == 1 ==>
        Consistent(books, loans)
    {
      var first := FirstSelected(loans, OpenRowsOf(user, id));
      if first.None? {
        return NoActiveLoan;
      }
      var fine := Fine(ElapsedDays(loans[first.value].issued, today));
      var closed := CloseLoans(loans, user, id, today);
      var credited := AdjustAvailable(books, id, 1);
      assert Consistent(books, loans) && Count(loans, OpenRowsOf(user, id)) == 1 ==> Consistent(credited, closed) by {
        if Consistent(books, loans) && Count(loans, OpenRowsOf(user, id)) == 1 {
          ReturnPreservesConsistency(books, loans, user, id, today);
        }
      }
      loans, books := closed, credited;
      logs := logs + [LogEntry(user, id, Returned, today)];
      status := BookReturned(fine);
    }
  }

  /** Two copies of B1 go to two users; the third request is refused and no
      copy is left. */
  method CopiesRunOut(today: Timestamp) returns (first: IssueStatus, second: IssueStatus, third: IssueStatus, left: int)
    ensures first == BookIssued && second == BookIssued && third == NoCopiesLeft && left == 0
  {
    var lib := new Library([], [], []);
    var added := lib.AddBook("B1", "Title", "Author", Some(2));
    assert lib.books == [Book("B1", "Title", "Author", 2, 2)];
    first := lib.IssueBook("U1", "Alice", "B1", today);
    assert lib.books[0].available == 1;
    second := lib.IssueBook("U2", "Bob", "B1", today);
    assert lib.books[0].available == 0;
    third := lib.IssueBook("U3", "Carl", "B1", today);
    left := lib.books[0].available;
  }
}
