/** The "most borrowed" report: loan rows counted per BookID
    (`value_counts`), the five largest counts kept (`nlargest(5)`), each
    labelled with the book's title. */
module Reporting {
  import opened Records
  import opened Inventory

  const TOP_N := 5

  /** A BookID with its number of loan rows: one entry of `value_counts()`. */
  type Tally = (BookId, nat)

  /** Number of loan rows, returned or not, for `id`. */
  function Borrows(loans: seq<Loan>, id: BookId): nat {
    Count(loans, BookRows(id))
  }

  /** No BookID occurs twice. */
  predicate DistinctIds(s: seq<Tally>) {
    forall i, j :: 0 <= i < j < |s| ==> s[i].0 != s[j].0
  }

  /** Counts do not increase along the list. */
  predicate Descending(s: seq<Tally>) {
    forall i, j :: 0 <= i < j < |s| ==> s[i].1 >= s[j].1
  }

  /** The BookID column `users["BookID"]`. */
  function BookColumn(loans: seq<Loan>): seq<BookId> {
    seq(|loans|, i requires 0 <= i < |loans| => loans[i].bookId)
  }

  /** A BookID is in the column exactly when it has been borrowed at least once. */
  lemma InColumnIffBorrowed(loans: seq<Loan>)
    ensures forall id :: id in BookColumn(loans) <==> Borrows(loans, id) > 0
  {
    var ids := BookColumn(loans);
    forall id
      ensures id in ids <==> Borrows(loans, id) > 0
    {
      CountZero(loans, BookRows(id));
      assert forall i :: 0 <= i < |loans| ==> ids[i] == loans[i].bookId;
    }
  }

  /** The distinct values of `ids`, each where it first occurs. */
  function Distinct(ids: seq<BookId>): (r: seq<BookId>)
    ensures forall x :: x in r <==> x in ids
    ensures forall i, j :: 0 <= i < j < |r| ==> r[i] != r[j]
  {
    if ids == [] then []
    else
      var r := Distinct(ids[..|ids| - 1]);
      assert forall x :: x in ids <==> x in ids[..|ids| - 1] || x == ids[|ids| - 1];
      if ids[|ids| - 1] in r then r else r + [ids[|ids| - 1]]
  }

  /** `users["BookID"].value_counts()`, before ordering: one entry per
      borrowed BookID with its number of loan rows. */
  function ValueCounts(loans: seq<Loan>): (r: seq<Tally>)
    ensures DistinctIds(r)
    ensures forall k :: 0 <= k < |r| ==> r[k].1 == Borrows(loans, r[k].0) > 0
    ensures forall id :: Borrows(loans, id) > 0 ==> (id, Borrows(loans, id)) in r
  {
    InColumnIffBorrowed(loans);
    var ids := Distinct(BookColumn(loans));
    var r := seq(|ids|, k requires 0 <= k < |ids| => (ids[k], Borrows(loans, ids[k])));
    assert forall id :: id in ids ==> (id, Borrows(loans, id)) in r by {
      forall id | id in ids
        ensures (id, Borrows(loans, id)) in r
      {
        var k :| 0 <= k < |ids| && ids[k] == id;
        assert r[k] == (id, Borrows(loans, id));
      }
    }
    r
  }

  /** Put `x` in front of the first entry whose count is not larger. */
  function Insert(x: Tally, s: seq<Tally>): (r: seq<Tally>)
    ensures |r| == |s| + 1
    ensures forall y :: y in r <==> y == x || y in s
    ensures multiset(r) == multiset(s) + multiset{x}
  {
    if s == [] then [x]
    else if x.1 >= s[0].1 then [x] + s
    else
      assert s == [s[0]] + s[1..];
      assert forall y :: y in s <==> y == s[0] || y in s[1..];
      [s[0]] + Insert(x, s[1..])
  }

  lemma {:induction false} InsertDescending(x: Tally, s: seq<Tally>)
    requires Descending(s)
    ensures Descending(Insert(x, s))
  {
    if s != [] && x.1 < s[0].1 {
      var rest := Insert(x, s[1..]);
      InsertDescending(x, s[1..]);
      forall k | 0 <= k < |rest|
        ensures rest[k].1 <= s[0].1
      {
        assert rest[k] in rest;
        if rest[k] != x {
          var j :| 0 <= j < |s[1..]| && s[1..][j] == rest[k];
          assert s[j + 1] == rest[k];
        }
      }
      var r := [s[0]] + rest;
      forall i, j | 0 <= i < j < |r|
        ensures r[i].1 >= r[j].1
      {
        assert r[j] == rest[j - 1];
        if i > 0 {
          assert r[i] == rest[i - 1];
        }
      }
      assert r == Insert(x, s);
    }
  }

  lemma {:induction false} InsertDistinctIds(x: Tally, s: seq<Tally>)
    requires DistinctIds(s) && forall k :: 0 <= k < |s| ==> s[k].0 != x.0
    ensures DistinctIds(Insert(x, s))
  {
    if s != [] && x.1 < s[0].1 {
      var rest := Insert(x, s[1..]);
      InsertDistinctIds(x, s[1..]);
      forall k | 0 <= k < |rest|
        ensures rest[k].0 != s[0].0
      {
        assert rest[k] in rest;
        if rest[k] != x {
          var j :| 0 <= j < |s[1..]| && s[1..][j] == rest[k];
          assert s[j + 1] == rest[k];
        }
      }
      var r := [s[0]] + rest;
      forall i, j | 0 <= i < j < |r|
        ensures r[i].0 != r[j].0
      {
        assert r[j] == rest[j - 1];
        if i > 0 {
          assert r[i] == rest[i - 1];
        }
      }
      assert r == Insert(x, s);
    }
  }

  /** Order by count, largest first; equal counts keep their order. */
  function SortDescending(s: seq<Tally>): (r: seq<Tally>)
    ensures |r| == |s|
    ensures forall y :: y in r <==> y in s
    ensures multiset(r) == multiset(s)
    ensures Descending(r)
    ensures DistinctIds(s) ==> DistinctIds(r)
  {
    if s == [] then []
    else
      var rest := SortDescending(s[1..]);
      assert s == [s[0]] + s[1..];
      assert multiset(s) == multiset(s[1..]) + multiset{s[0]};
      assert forall y :: y in s <==> y == s[0] || y in s[1..];
      InsertDescending(s[0], rest);
      if DistinctIds(s) then
        assert forall k :: 0 <= k < |rest| ==> rest[k] in s[1..];
        InsertDistinctIds(s[0], rest);
        Insert(s[0], rest)
      else Insert(s[0], rest)
  }

  function Min(a: int, b: int): int {
    if a <= b then a else b
  }

  /** The first `m` entries of a list ordered largest first are a sub-list
      of it, still ordered, and any entry they leave out is no larger than
      the ones they keep. */
  lemma {:induction false} PrefixOfDescending(sorted: seq<Tally>, m: nat)
    requires m <= |sorted| && Descending(sorted)
    ensures multiset(sorted[..m]) <= multiset(sorted)
    ensures forall y :: y in sorted[..m] ==> y in sorted
    ensures Descending(sorted[..m])
    ensures DistinctIds(sorted) ==> DistinctIds(sorted[..m])
    ensures forall y :: y in sorted && y !in sorted[..m] ==> forall k :: 0 <= k < m ==> sorted[..m][k].1 >= y.1
  {
    var r := sorted[..m];
    assert sorted == r + sorted[m..];
    assert multiset(sorted) == multiset(r) + multiset(sorted[m..]);
    assert forall k :: 0 <= k < m ==> r[k] == sorted[k];
    forall y | y in sorted && y !in r
      ensures forall k :: 0 <= k < m ==> r[k].1 >= y.1
    {
      var p :| 0 <= p < |sorted| && sorted[p] == y;
    }
  }

  /** `nlargest(n)`: the first `n` entries of the ordered list. Whatever
      they leave out has a count no larger than any they keep, and they leave
      something out only when they are `n` entries. */
  function NLargest(s: seq<Tally>, n: nat): (r: seq<Tally>)
    ensures |r| == Min(n, |s|)
    ensures forall y :: y in r ==> y in s
    ensures multiset(r) <= multiset(s)
    ensures Descending(r)
    ensures DistinctIds(s) ==> DistinctIds(r)
    ensures forall y :: y in s && y !in r ==> |r| == n && forall k :: 0 <= k < |r| ==> r[k].1 >= y.1
  {
    var sorted := SortDescending(s);
    PrefixOfDescending(sorted, Min(n, |sorted|));
    var r := sorted[..Min(n, |sorted|)];
    assert |r| < n ==> r == sorted;
    r
  }

  /** What the report promises of its list of tallies: at most TOP_N of
      them, largest first, no BookID twice, each count the BookID's number of
      loan rows, and a borrowed BookID is left out only when the list is full
      of BookIDs borrowed at least as often. */
  ghost predicate IsTop(loans: seq<Loan>, top: seq<Tally>) {
    && |top| <= TOP_N
    && Descending(top)
    && DistinctIds(top)
    && (forall k :: 0 <= k < |top| ==> top[k].1 == Borrows(loans, top[k].0) > 0)
    && (forall id :: Borrows(loans, id) > 0 && (forall k :: 0 <= k < |top| ==> top[k].0 != id) ==>
          |top| == TOP_N && forall k :: 0 <= k < |top| ==> top[k].1 >= Borrows(loans, id))
  }

  /** `users["BookID"].value_counts().nlargest(5)`, empty when there are no
      loan rows. */
  function TopCounts(loans: seq<Loan>): (r: seq<Tally>)
    ensures loans == [] ==> r == []
    ensures IsTop(loans, r)
  {
    if loans == [] then []
    else
      var counts := ValueCounts(loans);
      var r := NLargest(counts, TOP_N);
      assert forall k :: 0 <= k < |r| ==> r[k] in counts;
      r
  }

  /** `book_titles.get(id, id)`: the title of the first row for `id`, else the id. */
  function Label(books: seq<Book>, id: BookId): string {
    match FindBook(books, id)
    case Some(i) => books[i].title
    case None => id
  }

  /** One bar of the chart: the BookID it counts, its caption and its height. */
  datatype Bar = Bar(id: BookId, caption: string, count: nat)

  /** The (BookID, height) of each bar, in order. */
  function Heights(r: seq<Bar>): seq<Tally> {
    seq(|r|, k requires 0 <= k < |r| => (r[k].id, r[k].count))
  }

  /** Each tally as a bar captioned by `Label`. */
  function Bars(top: seq<Tally>, books: seq<Book>): (r: seq<Bar>)
    ensures Heights(r) == top
    ensures forall k :: 0 <= k < |r| ==>
      && (HasBook(books, r[k].id) ==> r[k].caption == books[FindBook(books, r[k].id).value].title)
      && (!HasBook(books, r[k].id) ==> r[k].caption == r[k].id)
  {
    var r := seq(|top|, k requires 0 <= k < |top| => Bar(top[k].0, Label(books, top[k].0), top[k].1));
    assert forall k :: 0 <= k < |r| ==> Heights(r)[k] == top[k];
    r
  }

  /** The bars of the chart: their BookIDs and heights are the top counts,
      and each caption is the book's title, or the BookID for a book not in
      the Books table. */
  function TopBorrowed(loans: seq<Loan>, books: seq<Book>): (r: seq<Bar>)
    ensures loans == [] ==> r == []
    ensures IsTop(loans, Heights(r))
    ensures forall k :: 0 <= k < |r| ==>
      && (HasBook(books, r[k].id) ==> r[k].caption == books[FindBook(books, r[k].id).value].title)
      && (!HasBook(books, r[k].id) ==> r[k].caption == r[k].id)
  {
    if loans == [] then []
    else Bars(TopCounts(loans), books)
  }
}
