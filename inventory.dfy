/** The Books table: lookup by BookID, adding a book, and adjusting the
    AvailableCopies column of the rows for one BookID. */
module Inventory {
  import opened Records

  /** `id in books["BookID"].values` */
  predicate HasBook(books: seq<Book>, id: BookId) {
    exists i :: 0 <= i < |books| && books[i].id == id
  }

  /** No two rows share a BookID. Only the duplicate check of AddBook keeps it. */
  ghost predicate UniqueIds(books: seq<Book>) {
    forall i, j :: 0 <= i < j < |books| ==> books[i].id != books[j].id
  }

  /** Index of the first row with BookID `id`. */
  function FindBook(books: seq<Book>, id: BookId): (r: Option<nat>)
    ensures r.None? <==> !HasBook(books, id)
    ensures r.Some? ==> r.value < |books| && books[r.value].id == id
    ensures r.Some? ==> forall j :: 0 <= j < r.value ==> books[j].id != id
  {
    if books == [] then None
    else if books[0].id == id then Some(0)
    else
      match FindBook(books[1..], id)
      case None =>
        assert forall i :: 1 <= i < |books| ==> books[i] == books[1..][i - 1];
        None
      case Some(i) => Some(i + 1)
  }

  /** Under unique BookIDs the first row with `id` is the only one. */
  lemma FindBookUnique(books: seq<Book>, id: BookId, j: nat)
    requires UniqueIds(books)
    requires j < |books| && books[j].id == id
    ensures FindBook(books, id) == Some(j)
  {
  }

  datatype AddStatus = BookAdded | DuplicateId | InvalidCopies

  datatype AddResult = AddResult(status: AddStatus, books: seq<Book>)

  /** Add a book. `copies` is the parsed copy count, `None` when it is not an integer.
      The BookID is checked before the copy count. */
  function AddBook(books: seq<Book>, id: BookId, title: string, author: string, copies: Option<int>): (r: AddResult)
    ensures r.status == DuplicateId <==> HasBook(books, id)
    ensures r.status == InvalidCopies <==> !HasBook(books, id) && (copies.None? || copies.value < 1)
    ensures r.status != BookAdded ==> r.books == books
    ensures r.status == BookAdded ==>
      && copies.Some? && copies.value >= 1
      && |r.books| == |books| + 1 && r.books[..|books|] == books
      && r.books[|books|] == Book(id, title, author, copies.value, copies.value)
  {
    if HasBook(books, id) then AddResult(DuplicateId, books)
    else if copies.None? || copies.value < 1 then AddResult(InvalidCopies, books)
    else AddResult(BookAdded, books + [Book(id, title, author, copies.value, copies.value)])
  }

  /** AddBook never creates a second row for a BookID. */
  lemma AddBookKeepsIdsUnique(books: seq<Book>, id: BookId, title: string, author: string, copies: Option<int>)
    requires UniqueIds(books)
    ensures UniqueIds(AddBook(books, id, title, author, copies).books)
  {
    var r := AddBook(books, id, title, author, copies);
    if r.status == BookAdded {
      forall i | 0 <= i < |books|
        ensures r.books[i].id != id
      {
        assert r.books[i] == books[i];
      }
    }
  }

  /** `books.loc[books["BookID"] == id, "AvailableCopies"] += delta`: every row
      with that BookID changes, and no other column of any row does. */
  function AdjustAvailable(books: seq<Book>, id: BookId, delta: int): (r: seq<Book>)
    ensures |r| == |books|
    ensures forall i :: 0 <= i < |r| ==> r[i].(available := books[i].available) == books[i]
    ensures forall i :: 0 <= i < |r| ==>
      r[i].available == books[i].available + (if books[i].id == id then delta else 0)
  {
    seq(|books|, i requires 0 <= i < |books| =>
      if books[i].id == id then books[i].(available := books[i].available + delta) else books[i])
  }

  /** With unique BookIDs, exactly the one row of `id` changes, by `delta`, and
      it is still the row found for `id`. */
  lemma AdjustAvailableOneRow(books: seq<Book>, id: BookId, delta: int, k: nat)
    requires UniqueIds(books)
    requires FindBook(books, id) == Some(k)
    ensures UniqueIds(AdjustAvailable(books, id, delta))
    ensures FindBook(AdjustAvailable(books, id, delta), id) == Some(k)
    ensures AdjustAvailable(books, id, delta)[k].available == books[k].available + delta
    ensures forall j :: 0 <= j < |books| && j != k ==> AdjustAvailable(books, id, delta)[j] == books[j]
  {
    var r := AdjustAvailable(books, id, delta);
    assert forall j :: 0 <= j < |books| ==> r[j].id == books[j].id;
    FindBookUnique(r, id, k);
  }
}
