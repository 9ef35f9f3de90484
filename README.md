# Library circulation desk, modelled in Dafny

This project models the circulation desk in `src/models.py`. The model has three parts:

- a `Book` record, created available: no borrower and no due date;
- a `Member` record, holding an ordered list of borrowed ISBNs;
- the `Library` aggregate, which holds a map from ISBN to book and a map from member id to member. It has a fixed loan period of 14 days.

`Library` has these operations:

- two upserts: `add_book` and `add_member`;
- two guarded mutators returning a boolean: `borrow_book` and `return_book`;
- three read-only queries: overdue books, case-insensitive search by author, and a member's borrowed books.

The files are:

- `ascii.dfy` (module `Ascii`): the two string operations the author search uses. `Lower` is `str.lower()` restricted to ASCII. `Contains` is Python's `q in s`, and it is proved equal to the substring relation in both directions.
- `models.dfy` (module `Models`) has:
  - the `Book` and `Member` datatypes;
  - the loan invariant `Consistent`;
  - pure state transitions `Lend` and `Release` for a successful borrow and a successful return;
  - `RemoveFirst`, which is Python's `list.remove`;
  - the filters that specify the three queries;
  - the `Library` class. Its fields `books` and `members` are the two maps. Its methods update them in place, with loops for the queries.
- `scenarios.dfy` (module `Scenarios`): the situations the repository's tests walk through, proved from the contracts above.

Modelling choices:

- Books and members are values held in the maps. `BorrowBook` and `ReturnBook` write a changed copy back under the same key.
- Time is an integer instant in days, passed in as `now`. A successful borrow sets the due date to `now + loanPeriodDays`.
- Python dictionaries iterate in insertion order, and `books.values()` is what the overdue and author queries scan. The class therefore keeps a field `isbns` that lists the keys of `books` in the order they were first inserted. Overwriting an existing key keeps its position, as it does in a Python dict. `OrderValid()` says `isbns` lists every key once. The constructor and every method maintain it.
- `Valid()` is `OrderValid()` plus `Consistent(books, members)`. `Consistent` has these parts:
  - every entry sits under its own key;
  - on every book, "not available", "has a borrower" and "has a due date" coincide;
  - a book on loan names a registered member whose list contains its ISBN;
  - every ISBN a member lists, once only, is a book on loan to that member.

  The last part is what makes "borrow, then return" restore the state exactly.
- `add_book` and `add_member` are permissive upserts, so they keep `Valid()` only under conditions their contracts state. `ReRegisteringBorrowerBreaksReturn` shows the upsert breaking it: re-registering a member who has a book out, with a fresh record, means that book's return can no longer find its ISBN in the member's list. Python's `list.remove` raises at that point.

## Model

| member | source | states |
|---|---|---|
| `Models.NewBook` | src/models.py:4-12 | a new book is available, has no borrower and no due date, and keeps its ISBN, title, author and year; its loan fields agree |
| `Models.NewMember` | src/models.py:14-19 | a new member keeps id, name and email and has borrowed nothing |
| `Models.Library.constructor` | src/models.py:22-26 | a new library has no books and no members, a loan period of 14 days, and satisfies the loan invariant |
| `Models.Library.AddBook` | src/models.py:28-29 | the book is stored under its ISBN, replacing any book there; every other ISBN and the member map are unchanged; the insertion order gains the ISBN only if it is new; the invariant survives when the new book is available and does not replace a book on loan |
| `Models.Library.AddMember` | src/models.py:31-32 | the member is stored under their id, replacing any member there; every other id and the book map are unchanged; the invariant survives when the record carries over the replaced member's loan list |
| `Models.Library.BorrowBook` | src/models.py:34-48 | returns true exactly when the ISBN and the member id are both known and the book is available; on false nothing changes; on true the book is off the shelf, borrowed by the member and due at `now + loanPeriodDays`, the ISBN is appended to the member's list, and everything else is unchanged; the invariant is preserved |
| `Models.Library.ReturnBook` | src/models.py:50-64 | returns true exactly when the ISBN is known and the book is not available, so a double return is a no-op; on true the ISBN's first occurrence is removed from the borrower's list and the book is reset to available with no borrower and no due date; the invariant is preserved |
| `Models.Library.GetOverdueBooks` | src/models.py:66-74 | the result is the books in dict order that are on loan with a due date strictly before `now`, and exactly those; nothing is changed |
| `Models.Library.SearchBooksByAuthor` | src/models.py:76-85 | the result is the books in dict order whose lower-cased author contains the lower-cased query, and exactly those; nothing is changed |
| `Models.Library.GetMemberBorrowedBooks` | src/models.py:87-99 | an unknown id gives the empty sequence; otherwise the result is the books named by the member's ISBNs in list order, skipping ISBNs with no book, so it is no longer than the list |
| `Models.Library.ShelfIsCatalogue` | src/models.py:70 | `books.values()` in dict order holds every registered book, one per ISBN, and nothing else |
| `Models.Lend` | src/models.py:44-47 | a successful borrow marks the book on loan to the member and due at `due`, keeping its ISBN, title, author and year, and appends the ISBN to the member's list, keeping the member's other fields; every other book and member is untouched and no key is added or removed |
| `Models.Release` | src/models.py:58-63 | a successful return resets the book to available with no borrower and no due date, keeping its other fields, and shortens the borrower's list by one (the first occurrence of the ISBN, by `RemoveFirstSplits`), keeping the borrower's other fields; every other book and member is untouched and no key is added or removed |
| `Models.LendKeepsConsistent` | src/models.py:44-47 | a borrow that passes its guards preserves the loan invariant |
| `Models.ReleaseKeepsConsistent` | src/models.py:58-63 | under the invariant, a return that passes its guards finds the borrower and the ISBN in their list, and preserves the invariant |
| `Models.ConsistentReturnsAreSafe` | src/models.py:58-59 | under the invariant, the borrower lookup and the list removal in a return cannot fail |
| `Models.BorrowThenReturnRestores` | src/models.py:34-64 | under the invariant, a successful borrow followed by a return restores every book and every member exactly |
| `Models.AddBookKeepsConsistent` | src/models.py:28-29 | storing an available book over no book, or over an available one, preserves the invariant |
| `Models.AddMemberKeepsConsistent` | src/models.py:31-32 | storing a member whose loan list equals the replaced member's list (empty for a new id) preserves the invariant; no separate duplicate-freedom condition is needed, since the invariant already gives it for the carried-over list |
| `Models.ReRegisteringBorrowerBreaksReturn` | src/models.py:31-32 | after a borrow, re-registering the borrower with a fresh record leaves the return unable to find the ISBN in the borrower's list, where `list.remove` raises |
| `Models.RemoveFirst` | src/models.py:59 | `list.remove(x)` is defined only when `x` is listed and shortens the list by one |
| `Models.RemoveFirstSplits` | src/models.py:59 | removal cuts the list at the first index holding `x`, which no earlier index holds |
| `Models.RemoveFirstMultiset` | src/models.py:59 | removal takes away exactly one copy of `x` |
| `Models.RemoveFirstUndoesAppend` | src/models.py:47 | removing an ISBN that was appended to a list not yet holding it gives back the original list |
| `Models.RemoveFirstWithoutDuplicates` | src/models.py:59 | on a list without duplicates, removal leaves no copy of `x`, keeps every other element, and creates no duplicate |
| `Models.Resolve` | src/models.py:95-97 | looking up a list of ISBNs, skipping those with no book, gives at most one book per ISBN |
| `Models.ResolveExact` | src/models.py:95-97 | a book is in the lookup result exactly when some listed ISBN stores it |
| `Models.ResolveAllPresent` | src/models.py:95-97 | when every listed ISBN has a book, nothing is skipped and the i-th result is the book of the i-th ISBN |
| `Models.MemberBooksAreTheirLoans` | src/models.py:87-99 | under the invariant, a member's borrowed books are one per listed ISBN and are exactly the books on loan to that member |
| `Models.OverdueIn` | src/models.py:70-72 | the overdue filter keeps at most the books it is given |
| `Models.OverdueInExact` | src/models.py:71 | a book is in the overdue filter exactly when it is on loan with a due date before `now` |
| `Models.LentBookOverdueIff` | src/models.py:46 | a book lent at `t` is overdue at `now` exactly when `t + loan period < now` |
| `Models.ByAuthorIn` | src/models.py:81-83 | the author filter keeps at most the books it is given |
| `Models.ByAuthorInExact` | src/models.py:82 | a book is in the author filter exactly when its lower-cased author contains the lower-cased query |
| `Models.ByAuthorIgnoresQueryCase` | src/models.py:78 | two queries with the same lower-cased form find the same books |
| `Models.MissingCharacterRulesOutMatch` | src/models.py:82 | a query character missing from the author's lower-cased name rules out the match |
| `Ascii.LowerChar` | src/models.py:78 | a lower-cased character is not a capital letter; non-capitals are kept, capitals map to their small letter |
| `Ascii.Lower` | src/models.py:78 | `lower()` keeps the length and leaves no capital letter |
| `Ascii.LowerIdempotent` | src/models.py:78 | lower-casing twice is lower-casing once, so an already lower-cased query is its own lower-cased form |
| `Models.LoweredQueryFindsSame` | src/models.py:78-83 | searching with the query lower-cased in advance finds the same books, in the same order, as searching with the query as typed |
| `Ascii.Contains` | src/models.py:82 | `q in s`: true whenever `q` is a prefix of `s` (so always for the empty query), and only when `q` is no longer than `s`; `ContainsIff` gives the full meaning |
| `Ascii.ContainsIff` | src/models.py:82 | `q in s` holds exactly when `q` occurs in `s` at some index |
| `Scenarios.JohnSmithMatchesJohn` | tests/test_library.py:63-73 | the author "John Smith" matches "john" and not "JANE" |
| `Scenarios.JaneDoeMatchesJane` | tests/test_library.py:64-77 | the author "Jane Doe" matches "JANE" and not "john" |
| `Scenarios.SearchByAuthorScenario` | tests/test_library.py:62-77 | over two John Smith books and one Jane Doe book, "john" finds the two John Smith books and "JANE" finds the Jane Doe book |
| `Scenarios.TwoLoansInBorrowOrder` | tests/test_library.py:79-92 | a member who borrows two distinct available books gets both back from the member lookup, in borrow order |

`Scenarios.BorrowReturnScenario` is a client of the `Library` class. It proves, from the method contracts, a sequence modelled on tests/test_library.py:19-60:

- a borrow succeeds and a second borrow fails;
- the book is overdue one day after the loan period ends and not on its last day;
- a return restores the new-book state, and a second return fails.

The tests reach the unavailable and overdue states by writing `is_available` and `due_date` directly through a shared `Book` reference (tests/test_library.py:34, 56). The scenario reaches them through the library instead: the unavailable state by a first borrow, the overdue state by querying at a later `now`.

## Left out

- `datetime.now()` and `timedelta` (src/models.py:46, 68): time is an integer number of days, passed in as `now`. Comparisons below one day are not modelled.
- `Member.registration_date` (src/models.py:20): it is written once and never read, so it is dropped.
- Unicode case folding in `str.lower()` (src/models.py:78, 82): only ASCII capitals are lower-cased. Every other character is kept.
- Object aliasing: Python stores references, so a caller holding a `Book` or `Member` sees the library's later changes, and vice versa (the tests rely on this). The model stores values, and the queries return copies.
- Exceptions: the model states the conditions under which the source does not raise. It does not model the raise itself.
- `Models.Library.ReturnBook`: requires `ReturnSafe`, which is exactly the condition under which src/models.py:58-59 does not raise `KeyError` or `ValueError`. `Valid()` implies it.
- `Models.Library.GetOverdueBooks`: requires that every book off the shelf has a due date. Otherwise src/models.py:71 compares `None` with a datetime and raises `TypeError`. `Valid()` implies it. It also requires `OrderValid()`, the representation invariant of the insertion order, which every method maintains.
- `Models.Library.SearchBooksByAuthor`: requires `OrderValid()`, the representation invariant of the insertion order, which every method maintains.
- Dict order across different Python implementations: the model fixes insertion order, the order CPython uses.
- `tests/test_library.py` is not modelled as code. It is used only as the source of the scenarios above.
