# Library inventory tracker — a Dafny model of its business rules

The tracker keeps three tables for one interactive session: Books (BookID,
Title, Author, TotalCopies, AvailableCopies), Loans (UserID, Name, BookID,
IssueDate, ReturnDate; the program stores it as its "users" table; an absent
ReturnDate marks a copy still out) and an audit log (UserID, BookID, Action,
Date). This project models the operations that change or report on those
tables: adding a book, issuing a copy, returning a copy with its late fine,
and the counts behind the "top 5 most borrowed" chart. It proves what each
operation does to the tables and when the table invariant
AvailableCopies = TotalCopies − outstanding loans survives it.

Layout:

- `records.dfy` (module `Records`): the row types and counting over loan rows
  by a row filter (`Selector`).
- `inventory.dfy` (module `Inventory`): BookID lookup, `AddBook` (a pure
  function, as `add_book` builds and returns a new table), and the in-place
  column update `AdjustAvailable`.
- `fines.dfy` (module `Fines`): whole elapsed days and the fine.
- `circulation.dfy` (module `Circulation`): class `Library`, whose fields are
  the three tables and whose methods `AddBook`, `IssueBook` and `ReturnBook`
  update them as the menu loop does, together with `CloseLoans`, the invariant
  `Consistent` and the lemmas about it.
- `reporting.dfy` (module `Reporting`): the borrow counts (`ValueCounts`), the
  five largest of them (`TopCounts`) and the captioned bars (`TopBorrowed`).

Modelling decisions:

- The clock is a parameter `today`, a `Timestamp` in whole microseconds, the
  resolution of `datetime.today()`, which the CSV files keep. Whole days are
  the floor of the difference divided by 86 400 000 000. A pandas `Timedelta`
  counts its days the same way.
- The copy count is given already parsed: `Some(n)`, or `None` when the text
  is not an integer.
- `add_book` checks the BookID before it looks at the copy count. A duplicate
  ID with a bad count is therefore reported as a duplicate.
- BookIDs are kept unique only by that duplicate check. `IssueBook` reads the
  first row with the BookID but decrements every such row, as the code does.
  `AdjustAvailableOneRow` shows that only one row changes while IDs are unique.
- `IssueBook` does not stop a user from holding two open loans of one book.
  `ReturnBook` then closes all of them but credits one copy. The code does
  this, and the model does the same. The invariant lemmas therefore carry that
  condition: `ReturnPreservesConsistency` needs exactly one open loan for the
  (user, book) pair. `ReturnOverCredits` and `DoubleIssueThenReturnBreaksBalance`
  show that the balance breaks otherwise.
- One might expect a return to close a single loan and the balance to hold
  after every operation. The code closes every matching loan (main.py:94)
  and keeps the balance only under the condition above. The model follows
  the code.
- Equal counts in the top-5 report are ordered by where the BookID first
  occurs in the Loans table. The contracts pin down only that counts do not
  increase along the result.
- Each bar of the chart keeps the BookID it counts next to its caption and
  height, so that the contract can say which book each bar stands for.
  `IsTop` states what the report promises of its (BookID, count) list.

## Model

| member | source | states |
|---|---|---|
| `Records.Count` | main.py:84-85 | the number of rows a filter keeps is at most the table size |
| `Records.CountZero` | main.py:84-85 | a count is zero exactly when no row matches (`mask.any()` is false) |
| `Records.CountAppend` | main.py:73 | appending a row raises a count by one exactly when the filter keeps that row |
| `Records.FirstSelected` | main.py:90 | finds the first row the mask keeps (`.iloc[0]`), and finds none exactly when the count is zero |
| `Inventory.FindBook` | main.py:63-67 | finds no row exactly when the BookID is absent; otherwise it gives the first row with that BookID |
| `Inventory.FindBookUnique` | main.py:40-42 | with unique BookIDs, the first row with an ID is the row that has it |
| `Inventory.AddBook` | main.py:37-55 | a duplicate BookID, or a missing or non-positive copy count, leaves the table unchanged with the matching status; otherwise one row is appended with TotalCopies = AvailableCopies = copies and the old rows are kept |
| `Inventory.AddBookKeepsIdsUnique` | main.py:40-53 | adding a book never creates a second row for a BookID |
| `Inventory.AdjustAvailable` | main.py:74 | every row with the BookID changes AvailableCopies by delta; every other row, and every other column, is unchanged |
| `Inventory.AdjustAvailableOneRow` | main.py:74 | with unique BookIDs, exactly the found row changes, by delta; IDs stay unique and the row is still found |
| `Fines.ElapsedDays` | main.py:89-91 | whole days elapsed, rounded down; never negative when the return is not before the issue |
| `Fines.Fine` | main.py:12 | the fine is zero exactly when at most 14 days elapsed, and is (days − 14) × 5 otherwise; it is never negative |
| `Fines.FineGrowsPerDay` | main.py:92 | past the grace period each extra day adds FINE_PER_DAY |
| `Fines.FineMonotone` | main.py:92 | a later return never costs less |
| `Fines.FineExamples` | main.py:89-92 | 15 days less one microsecond costs 0 (truncation), as do 15 days less 0.3 s across two sub-second issue and return times; 15 days cost 5, 20 days cost 30, 5 days cost 0 |
| `Circulation.CloseLoans` | main.py:94 | only ReturnDate changes, it is set to today on exactly the open rows of the (user, book) pair, and afterwards no open row of the pair is left |
| `Circulation.CloseLoansCounts` | main.py:94 | the book's open count falls by the number of the pair's open rows, other books' open counts are unchanged, and borrow counts are unchanged |
| `Circulation.AddBookPreservesConsistency` | main.py:37-55 | adding a book keeps the table invariant |
| `Circulation.IssuePreservesConsistency` | main.py:72-75 | the state after a successful issue keeps the table invariant, including AvailableCopies ≥ 0 |
| `Circulation.ReturnPreservesConsistency` | main.py:94-96 | the state after a return keeps the invariant when the pair had exactly one open loan |
| `Circulation.ReturnOverCredits` | main.py:94-95 | with two or more open loans of the pair, the return leaves AvailableCopies ≠ TotalCopies − outstanding |
| `Circulation.DoubleIssueThenReturnBreaksBalance` | main.py:57-96 | from a consistent state with at least two free copies, issuing the same book twice to one user succeeds and keeps the invariant, and the return that follows breaks it |
| `Circulation.Library.constructor` | main.py:127-129 | the session starts with the loaded tables |
| `Circulation.Library.AddBook` | main.py:142-143 | menu choice 1 replaces the Books table with the result of `AddBook`, leaves Loans and Logs alone, and keeps the invariant |
| `Circulation.Library.IssueBook` | main.py:57-77 | an unknown BookID or a found row with AvailableCopies ≤ 0 changes nothing; otherwise availability is decremented by one, an open loan dated today is appended and an "Issued" log entry is appended; the invariant is kept |
| `Circulation.Library.ReturnBook` | main.py:79-101 | with no open loan of the pair nothing changes; otherwise the fine comes from the first open loan's IssueDate, all the pair's open loans are closed today, availability goes up by one and a "Returned" log entry is appended; the invariant is kept when the pair had one open loan |
| `Circulation.CopiesRunOut` | main.py:63-74 | a book with two copies is issued twice and the third request is refused with no copy left |
| `Reporting.InColumnIffBorrowed` | main.py:112 | a BookID occurs in the BookID column exactly when it has at least one loan row |
| `Reporting.Distinct` | main.py:112 | the distinct BookIDs: the same values as the input, without repeats |
| `Reporting.ValueCounts` | main.py:112 | one entry per borrowed BookID, none twice, each with its number of loan rows, and every borrowed BookID has its entry |
| `Reporting.Insert` | main.py:112 | inserting adds exactly the one given entry: the result is the input plus that entry, as multisets |
| `Reporting.InsertDescending` | main.py:112 | inserting into a list ordered by count, largest first, keeps it ordered |
| `Reporting.InsertDistinctIds` | main.py:112 | inserting an entry for a new BookID into a list without repeated BookIDs gives a list without repeated BookIDs |
| `Reporting.SortDescending` | main.py:112 | the result is a permutation of the input (equal multisets), in non-increasing order of count, with no repeated BookID if the input had none |
| `Reporting.PrefixOfDescending` | main.py:112 | the first m entries of a list ordered largest first are a sub-multiset of it, still ordered, and each entry they leave out is no larger than any they keep |
| `Reporting.NLargest` | main.py:112 | `nlargest(n)` keeps min(n, size) entries, a sub-multiset of the input, ordered, without repeats if the input had none; what it leaves out means it kept n entries, each with a count at least as large |
| `Reporting.TopCounts` | main.py:109-112 | empty without loans; at most 5 distinct borrowed BookIDs in non-increasing order of count, each with its number of loan rows; a borrowed BookID left out means 5 were kept, each borrowed at least as often |
| `Reporting.Bars` | main.py:113-114 | each (BookID, count) becomes one bar of that height, captioned with the book's title, or with the raw BookID when no book has it |
| `Reporting.TopBorrowed` | main.py:107-115 | empty without loans; the bars' (BookID, height) pairs satisfy everything `TopCounts` promises; each caption is the book's title, or the raw BookID when no book has it |

## Left out

- Storage: creating, loading and saving the three CSV files (`ensure_files`,
  `load_data`, `save_data`) and `export_logs` are file I/O. The constructor of
  `Library` takes the loaded tables as parameters instead.
- Column types that pandas infers when it reads the CSV files are not
  modelled. Every BookID and UserID is a string here. pandas may instead read
  numeric-looking IDs back as numbers, which then never equal the typed string.
- The menu loop, its prompts and messages, `view_books` and the fine message
  are console I/O. Only the rebinding of the tables by menu choices 1 to 3 is
  modelled, as the methods of `Library`.
- The bar chart is matplotlib rendering. Only its labels and counts are
  modelled, by `TopBorrowed`.
- The clock (`datetime.today()`) is a parameter. Timestamps are whole
  microseconds, not pandas nanoseconds. Every time the program stores comes
  from `datetime.today()`, whose resolution is one microsecond, so no
  whole-day count changes.
- Parsing the copy count with `int()` and stripping the typed text are
  library behaviour. The copy count arrives as an optional integer.
- Reporting.TopBorrowed: when two Books rows share a BookID, pandas would give
  a series of titles as the label. The model takes the first row's title.
- Reporting.TopCounts: pandas leaves the order among equal counts open. The model
  picks first-occurrence order, and its contract states only that counts do
  not increase.
