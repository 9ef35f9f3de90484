/**
 * A library circulation desk: books and members registered in two maps,
 * loans made and ended by borrow and return, and three read-only queries
 * (overdue loans, search by author, a member's borrowed books).
 *
 * Books and members are values stored in the maps; the `Library` class
 * owns the maps and updates them in place. Time is an integer instant
 * passed in by the caller, counted in days.
 */
module Models {
  import Ascii

  datatype Option<T> = None | Some(value: T)

  /** The loan period a new library starts with, in days. */
  const DefaultLoanPeriodDays: nat := 14

  datatype Book = Book(
    isbn: string,
    title: string,
    author: string,
    year: int,
    isAvailable: bool,
    borrowedBy: Option<string>,
    dueDate: Option<int>)

  /** `borrowedBooks` lists the ISBNs on loan to the member, in borrow order. */
  datatype Member = Member(
    memberId: string,
    name: string,
    email: string,
    borrowedBooks: seq<string>)

  type Books = map<string, Book>
  type Members = map<string, Member>

  /** A newly constructed book: on the shelf, no borrower, no due date. */
  function NewBook(isbn: string, title: string, author: string, year: int): (b: Book)
    ensures b.isbn == isbn && b.title == title && b.author == author && b.year == year
    ensures b.isAvailable && LoanFieldsAgree(b)
  {
    Book(isbn, title, author, year, true, None, None)
  }

  /** A newly constructed member, who has borrowed nothing. */
  function NewMember(memberId: string, name: string, email: string): (m: Member)
    ensures m.memberId == memberId && m.name == name && m.email == email
    ensures m.borrowedBooks == []
  {
    Member(memberId, name, email, [])
  }

  // ---------------------------------------------------------------------
  // The loan invariant
  // ---------------------------------------------------------------------

  /** A book is off the shelf exactly when it has a borrower, exactly when it has a due date. */
  predicate LoanFieldsAgree(b: Book) {
    (b.isAvailable <==> b.borrowedBy.None?) && (b.isAvailable <==> b.dueDate.None?)
  }

  predicate NoDuplicates<T(==)>(s: seq<T>) {
    forall i, j :: 0 <= i < j < |s| ==> s[i] != s[j]
  }

  /**
   * The consistency the desk keeps between its two maps: every entry sits
   * under its own key, every book's loan fields agree, a book on loan names
   * a registered member who lists its ISBN, and every ISBN a member lists,
   * once only, is a book on loan to that member.
   */
  predicate Consistent(books: Books, members: Members) {
    && (forall i :: i in books ==> books[i].isbn == i && LoanFieldsAgree(books[i]))
    && (forall m :: m in members ==> members[m].memberId == m && NoDuplicates(members[m].borrowedBooks))
    && (forall i :: i in books && books[i].borrowedBy.Some? ==>
          books[i].borrowedBy.value in members &&
          i in members[books[i].borrowedBy.value].borrowedBooks)
    && (forall m, i :: m in members && i in members[m].borrowedBooks ==>
          i in books && books[i].borrowedBy == Some(m))
  }

  // ---------------------------------------------------------------------
  // Borrow and return as state transitions
  // ---------------------------------------------------------------------

  /** The guards of a borrow: known book, known member, book on the shelf. */
  predicate CanBorrow(books: Books, members: Members, isbn: string, memberId: string) {
    isbn in books && memberId in members && books[isbn].isAvailable
  }

  /** The state after a successful borrow, the book being due at `due`. */
  function Lend(books: Books, members: Members, isbn: string, memberId: string, due: int): (r: (Books, Members))
    requires isbn in books && memberId in members
    ensures r.0.Keys == books.Keys && r.1.Keys == members.Keys
    ensures var lent := r.0[isbn];
            && !lent.isAvailable && lent.borrowedBy == Some(memberId) && lent.dueDate == Some(due)
            && lent.(isAvailable := true, borrowedBy := None, dueDate := None)
               == books[isbn].(isAvailable := true, borrowedBy := None, dueDate := None)
    ensures r.1[memberId].borrowedBooks == members[memberId].borrowedBooks + [isbn]
    ensures r.1[memberId].(borrowedBooks := []) == members[memberId].(borrowedBooks := [])
    ensures forall k :: k in books && k != isbn ==> r.0[k] == books[k]
    ensures forall k :: k in members && k != memberId ==> r.1[k] == members[k]
  {
    var book := books[isbn];
    var member := members[memberId];
    (books[isbn := book.(isAvailable := false, borrowedBy := Some(memberId), dueDate := Some(due))],
     members[memberId := member.(borrowedBooks := member.borrowedBooks + [isbn])])
  }

  /** The guards of a return: known book that is currently off the shelf. */
  predicate Returnable(books: Books, isbn: string) {
    isbn in books && !books[isbn].isAvailable
  }

  /**
   * A return that gets past its guards looks up the borrower and removes the
   * ISBN from the borrower's list; this says both steps succeed.
   */
  predicate ReturnSafe(books: Books, members: Members, isbn: string) {
    Returnable(books, isbn) ==>
      && books[isbn].borrowedBy.Some?
      && books[isbn].borrowedBy.value in members
      && isbn in members[books[isbn].borrowedBy.value].borrowedBooks
  }

  /** The state after a successful return. */
  function Release(books: Books, members: Members, isbn: string): (r: (Books, Members))
    requires Returnable(books, isbn) && ReturnSafe(books, members, isbn)
    ensures r.0.Keys == books.Keys && r.1.Keys == members.Keys
    ensures var back := r.0[isbn];
            && back.isAvailable && back.borrowedBy == None && back.dueDate == None
            && back.(isAvailable := false) == books[isbn].(isAvailable := false, borrowedBy := None, dueDate := None)
    ensures var borrower := books[isbn].borrowedBy.value;
            && |r.1[borrower].borrowedBooks| == |members[borrower].borrowedBooks| - 1
            && r.1[borrower].(borrowedBooks := []) == members[borrower].(borrowedBooks := [])
    ensures forall k :: k in books && k != isbn ==> r.0[k] == books[k]
    ensures forall k :: k in members && k != books[isbn].borrowedBy.value ==> r.1[k] == members[k]
  {
    var borrower := books[isbn].borrowedBy.value;
    var member := members[borrower];
    (books[isbn := books[isbn].(isAvailable := true, borrowedBy := None, dueDate := None)],
     members[borrower := member.(borrowedBooks := RemoveFirst(member.borrowedBooks, isbn))])
  }

  /** Python's `list.remove(x)`: drops the first occurrence of `x`. */
  function RemoveFirst<T(==)>(s: seq<T>, x: T): (r: seq<T>)
    requires x in s
    ensures |r| == |s| - 1
  {
    assert s == [s[0]] + s[1..];
    if s[0] == x then s[1..]
    else [s[0]] + RemoveFirst(s[1..], x)
  }

  /** The index of the first occurrence of `x` in `s`. */
  function FirstIndex<T(==)>(s: seq<T>, x: T): (k: nat)
    requires x in s
    ensures k < |s| && s[k] == x && x !in s[..k]
  {
    assert s[..1] == [s[0]];
    if s[0] == x then 0 else 1 + FirstIndex(s[1..], x)
  }

  /** `RemoveFirst` cuts `s` at the first index holding `x`. */
  lemma {:induction false} RemoveFirstSplits<T>(s: seq<T>, x: T)
    requires x in s
    ensures RemoveFirst(s, x) == s[..FirstIndex(s, x)] + s[FirstIndex(s, x) + 1..]
  {
    if s[0] == x {
      assert s[..0] + s[1..] == s[1..];
    } else {
      var tail := s[1..];
      var k := FirstIndex(tail, x);
      RemoveFirstSplits(tail, x);
      assert FirstIndex(s, x) == k + 1;
      assert s[..k + 1] == [s[0]] + tail[..k];
      assert s[k + 2..] == tail[k + 1..];
    }
  }

  /** `RemoveFirst` takes away one copy of `x` and nothing else. */
  lemma RemoveFirstMultiset<T>(s: seq<T>, x: T)
    requires x in s
    ensures multiset(RemoveFirst(s, x)) == multiset(s) - multiset{x}
  {
    RemoveFirstSplits(s, x);
    var k := FirstIndex(s, x);
    assert s == s[..k] + [x] + s[k + 1..];
  }

  /** Removing an element that was not yet listed undoes appending it. */
  lemma {:induction false} RemoveFirstUndoesAppend<T>(s: seq<T>, x: T)
    requires x !in s
    ensures RemoveFirst(s + [x], x) == s
  {
    if s != [] {
      assert (s + [x])[1..] == s[1..] + [x];
      RemoveFirstUndoesAppend(s[1..], x);
    }
  }

  /** Without duplicates, removing `x` leaves no `x` and keeps every other element. */
  lemma RemoveFirstWithoutDuplicates<T>(s: seq<T>, x: T)
    requires x in s && NoDuplicates(s)
    ensures NoDuplicates(RemoveFirst(s, x))
    ensures forall y :: y in RemoveFirst(s, x) <==> y in s && y != x
  {
    RemoveFirstSplits(s, x);
    var k := FirstIndex(s, x);
    var r := RemoveFirst(s, x);
    assert forall i :: 0 <= i < |r| ==> r[i] == s[if i < k then i else i + 1];
    forall y | y in s && y != x
      ensures y in r
    {
      var i :| 0 <= i < |s| && s[i] == y;
      assert r[if i < k then i else i - 1] == y;
    }
  }

  /** A borrow that passes its guards keeps the desk consistent. */
  lemma LendKeepsConsistent(books: Books, members: Members, isbn: string, memberId: string, due: int)
    requires Consistent(books, members) && CanBorrow(books, members, isbn, memberId)
    ensures Consistent(Lend(books, members, isbn, memberId, due).0, Lend(books, members, isbn, memberId, due).1)
  {
  }

  /** A return that passes its guards keeps the desk consistent. */
  lemma ReleaseKeepsConsistent(books: Books, members: Members, isbn: string)
    requires Consistent(books, members) && Returnable(books, isbn)
    ensures ReturnSafe(books, members, isbn)
    ensures Consistent(Release(books, members, isbn).0, Release(books, members, isbn).1)
  {
    var borrower := books[isbn].borrowedBy.value;
    var list := members[borrower].borrowedBooks;
    RemoveFirstWithoutDuplicates(list, isbn);
    var (books', members') := Release(books, members, isbn);
    forall i | i in books' && books'[i].borrowedBy.Some?
      ensures books'[i].borrowedBy.value in members' && i in members'[books'[i].borrowedBy.value].borrowedBooks
    {
      assert i != isbn;
    }
  }

  /**
   * Borrowing a book and returning it again gives back exactly the state
   * the desk started from, books and members alike.
   */
  lemma BorrowThenReturnRestores(books: Books, members: Members, isbn: string, memberId: string, due: int)
    requires Consistent(books, members) && CanBorrow(books, members, isbn, memberId)
    ensures Returnable(Lend(books, members, isbn, memberId, due).0, isbn)
    ensures ReturnSafe(Lend(books, members, isbn, memberId, due).0, Lend(books, members, isbn, memberId, due).1, isbn)
    ensures Release(Lend(books, members, isbn, memberId, due).0, Lend(books, members, isbn, memberId, due).1, isbn)
            == (books, members)
  {
    var (books', members') := Lend(books, members, isbn, memberId, due);
    var list := members[memberId].borrowedBooks;
    assert isbn !in list;
    RemoveFirstUndoesAppend(list, isbn);
    var (books'', members'') := Release(books', members', isbn);
    assert books''[isbn] == books[isbn];
    assert members''[memberId] == members[memberId];
    assert books'' == books;
    assert members'' == members;
  }

  /** Under the invariant, no return that gets past its guards can fail its lookups. */
  lemma ConsistentReturnsAreSafe(books: Books, members: Members, isbn: string)
    requires Consistent(books, members)
    ensures ReturnSafe(books, members, isbn)
  {
  }

  /**
   * Registering a book keeps the desk consistent when the book is new on the
   * shelf and does not replace a book that is on loan.
   */
  lemma AddBookKeepsConsistent(books: Books, members: Members, book: Book)
    requires Consistent(books, members)
    requires book.isAvailable && LoanFieldsAgree(book)
    requires book.isbn in books ==> books[book.isbn].isAvailable
    ensures Consistent(books[book.isbn := book], members)
  {
  }

  /**
   * Registering a member keeps the desk consistent when the record carries
   * over the loan list of the member it replaces (none for a new id).
   */
  lemma AddMemberKeepsConsistent(books: Books, members: Members, member: Member)
    requires Consistent(books, members)
    requires member.borrowedBooks ==
             if member.memberId in members then members[member.memberId].borrowedBooks else []
    ensures Consistent(books, members[member.memberId := member])
  {
  }

  /**
   * The upsert is permissive: re-registering a member who has a book out,
   * with a fresh record, leaves that book's return unable to find its ISBN
   * in the borrower's list (Python's `list.remove` raises there).
   */
  lemma ReRegisteringBorrowerBreaksReturn()
    ensures var book := NewBook("X", "T", "A", 2023);
            var member := NewMember("M1", "N", "E");
            var lent := Lend(map["X" := book], map["M1" := member], "X", "M1", 14);
            && Consistent(lent.0, lent.1)
            && !ReturnSafe(lent.0, lent.1["M1" := member], "X")
  {
  }

  // ---------------------------------------------------------------------
  // Queries as filters
  // ---------------------------------------------------------------------

  /**
   * The books stored under `keys`, in the order of `keys`, skipping keys
   * that name no book.
   */
  function Resolve(books: Books, keys: seq<string>): (r: seq<Book>)
    ensures |r| <= |keys|
  {
    if keys == [] then []
    else
      var last := keys[|keys| - 1];
      Resolve(books, keys[..|keys| - 1]) + (if last in books then [books[last]] else [])
  }

  /** A book is resolved from `keys` exactly when some listed key stores it. */
  lemma {:induction false} ResolveExact(books: Books, keys: seq<string>)
    ensures forall b :: b in Resolve(books, keys) <==> exists k :: k in keys && k in books && books[k] == b
  {
    if keys != [] {
      var front := keys[..|keys| - 1];
      ResolveExact(books, front);
      assert keys == front + [keys[|keys| - 1]];
    }
  }

  /** When every key names a book, nothing is skipped and the order is the keys' order. */
  lemma {:induction false} ResolveAllPresent(books: Books, keys: seq<string>)
    requires forall k :: k in keys ==> k in books
    ensures |Resolve(books, keys)| == |keys|
    ensures forall j :: 0 <= j < |keys| ==> Resolve(books, keys)[j] == books[keys[j]]
  {
    if keys != [] {
      var front := keys[..|keys| - 1];
      assert forall k :: k in front ==> k in keys;
      ResolveAllPresent(books, front);
    }
  }

  /** Overdue: on loan, with a due date strictly before `now`. */
  predicate IsOverdue(b: Book, now: int) {
    !b.isAvailable && b.dueDate.Some? && b.dueDate.value < now
  }

  /** Python compares the due date of every book that is off the shelf; this says it has one. */
  predicate DueDatesSet(books: Books) {
    forall i :: i in books && !books[i].isAvailable ==> books[i].dueDate.Some?
  }

  /** The overdue books of `shelf`, in shelf order. */
  function OverdueIn(shelf: seq<Book>, now: int): (r: seq<Book>)
    ensures |r| <= |shelf|
  {
    if shelf == [] then []
    else
      var last := shelf[|shelf| - 1];
      OverdueIn(shelf[..|shelf| - 1], now) + (if IsOverdue(last, now) then [last] else [])
  }

  lemma {:induction false} OverdueInExact(shelf: seq<Book>, now: int)
    ensures forall b :: b in OverdueIn(shelf, now) <==> b in shelf && IsOverdue(b, now)
  {
    if shelf != [] {
      var front := shelf[..|shelf| - 1];
      OverdueInExact(front, now);
      assert shelf == front + [shelf[|shelf| - 1]];
    }
  }

  /**
   * A book lent at `lentAt` turns overdue exactly when `now` is past the end
   * of the loan period.
   */
  lemma LentBookOverdueIff(books: Books, members: Members, isbn: string, memberId: string,
                           lentAt: int, loanPeriodDays: nat, now: int)
    requires isbn in books && memberId in members
    ensures IsOverdue(Lend(books, members, isbn, memberId, lentAt + loanPeriodDays).0[isbn], now)
            <==> lentAt + loanPeriodDays < now
  {
  }

  /** Case-insensitive substring match of `query` in the book's author. */
  predicate AuthorMatches(b: Book, query: string) {
    Ascii.Contains(Ascii.Lower(b.author), Ascii.Lower(query))
  }

  /** The books of `shelf` whose author matches `query`, in shelf order. */
  function ByAuthorIn(shelf: seq<Book>, query: string): (r: seq<Book>)
    ensures |r| <= |shelf|
  {
    if shelf == [] then []
    else
      var last := shelf[|shelf| - 1];
      ByAuthorIn(shelf[..|shelf| - 1], query) + (if AuthorMatches(last, query) then [last] else [])
  }

  lemma {:induction false} ByAuthorInExact(shelf: seq<Book>, query: string)
    ensures forall b :: b in ByAuthorIn(shelf, query) <==> b in shelf && AuthorMatches(b, query)
  {
    if shelf != [] {
      var front := shelf[..|shelf| - 1];
      ByAuthorInExact(front, query);
      assert shelf == front + [shelf[|shelf| - 1]];
    }
  }

  /**
   * A character of the query that the author's name lacks rules the match
   * out (Python's `q in s` is then false).
   */
  lemma MissingCharacterRulesOutMatch(b: Book, query: string, c: char)
    requires c in Ascii.Lower(query) && c !in Ascii.Lower(b.author)
    ensures !AuthorMatches(b, query)
  {
    Ascii.ContainsIff(Ascii.Lower(b.author), Ascii.Lower(query));
  }

  /** The search ignores the case of the query: only its lower-cased form matters. */
  lemma {:induction false} ByAuthorIgnoresQueryCase(shelf: seq<Book>, q1: string, q2: string)
    requires Ascii.Lower(q1) == Ascii.Lower(q2)
    ensures ByAuthorIn(shelf, q1) == ByAuthorIn(shelf, q2)
  {
    if shelf != [] {
      ByAuthorIgnoresQueryCase(shelf[..|shelf| - 1], q1, q2);
    }
  }

  /**
   * Searching with the query already lower-cased finds the same books as
   * searching with the query as typed.
   */
  lemma LoweredQueryFindsSame(shelf: seq<Book>, query: string)
    ensures ByAuthorIn(shelf, Ascii.Lower(query)) == ByAuthorIn(shelf, query)
  {
    Ascii.LowerIdempotent(query);
    ByAuthorIgnoresQueryCase(shelf, Ascii.Lower(query), query);
  }

  /**
   * Under the invariant, a member's borrowed books are exactly the books on
   * loan to that member, one per listed ISBN, in borrow order.
   */
  lemma MemberBooksAreTheirLoans(books: Books, members: Members, memberId: string)
    requires Consistent(books, members) && memberId in members
    ensures |Resolve(books, members[memberId].borrowedBooks)| == |members[memberId].borrowedBooks|
    ensures forall b :: b in Resolve(books, members[memberId].borrowedBooks) <==>
                        b in books.Values && b.borrowedBy == Some(memberId)
  {
    var list := members[memberId].borrowedBooks;
    ResolveAllPresent(books, list);
    ResolveExact(books, list);
    forall b | b in books.Values && b.borrowedBy == Some(memberId)
      ensures b in Resolve(books, list)
    {
      var k :| k in books && books[k] == b;
      assert k in list;
    }
  }

  // ---------------------------------------------------------------------
  // The library
  // ---------------------------------------------------------------------

  class Library {
    var books: Books
    var members: Members
    /** The keys of `books` in the order they were first registered (dict order). */
    var isbns: seq<string>
    const loanPeriodDays: nat

    /** `isbns` lists every key of `books` once. */
    ghost predicate OrderValid()
      reads this
    {
      NoDuplicates(isbns) && forall k :: k in isbns <==> k in books
    }

    ghost predicate Valid()
      reads this
    {
      OrderValid() && Consistent(books, members)
    }

    /** The books as `books.values()` yields them. */
    function Shelf(): seq<Book>
      reads this
    {
      Resolve(books, isbns)
    }

    constructor ()
      ensures books == map[] && members == map[] && isbns == []
      ensures loanPeriodDays == DefaultLoanPeriodDays
      ensures Valid()
    {
      books := map[];
      members := map[];
      isbns := [];
      loanPeriodDays := DefaultLoanPeriodDays;
    }

    /** Registers `book` under its ISBN, replacing any book stored there. */
    method AddBook(book: Book)
      modifies this
      ensures books == old(books)[book.isbn := book] && members == old(members)
      ensures isbns == if book.isbn in old(books) then old(isbns) else old(isbns) + [book.isbn]
      ensures old(OrderValid()) ==> OrderValid()
      ensures (old(Valid()) && book.isAvailable && LoanFieldsAgree(book)
               && (book.isbn in old(books) ==> old(books)[book.isbn].isAvailable)) ==> Valid()
    {
      ghost var wasValid := Valid();
      if book.isbn !in books {
        isbns := isbns + [book.isbn];
      }
      if wasValid && book.isAvailable && LoanFieldsAgree(book)
         && (book.isbn in books ==> books[book.isbn].isAvailable) {
        AddBookKeepsConsistent(books, members, book);
      }
      books := books[book.isbn := book];
    }

    /** Registers `member` under its id, replacing any member stored there. */
    method AddMember(member: Member)
      modifies this
      ensures members == old(members)[member.memberId := member]
      ensures books == old(books) && isbns == old(isbns)
      ensures (old(Valid())
               && member.borrowedBooks == (if member.memberId in old(members)
                                           then old(members)[member.memberId].borrowedBooks else []))
              ==> Valid()
    {
      if Valid()
         && member.borrowedBooks == (if member.memberId in members
                                     then members[member.memberId].borrowedBooks else []) {
        AddMemberKeepsConsistent(books, members, member);
      }
      members := members[member.memberId := member];
    }

    /**
     * Lends the book `isbn` to `memberId` at instant `now`; reports whether
     * the loan was made.
     */
    method BorrowBook(isbn: string, memberId: string, now: int) returns (ok: bool)
      modifies this
      ensures ok == CanBorrow(old(books), old(members), isbn, memberId)
      ensures ok ==> (books, members) == Lend(old(books), old(members), isbn, memberId, now + loanPeriodDays)
      ensures !ok ==> books == old(books) && members == old(members)
      ensures isbns == old(isbns)
      ensures old(Valid()) ==> Valid()
    {
      if isbn !in books || memberId !in members {
        return false;
      }
      var book := books[isbn];
      var member := members[memberId];
      if !book.isAvailable {
        return false;
      }
      if Valid() {
        LendKeepsConsistent(books, members, isbn, memberId, now + loanPeriodDays);
      }
      books := books[isbn := book.(isAvailable := false, borrowedBy := Some(memberId),
                                   dueDate := Some(now + loanPeriodDays))];
      members := members[memberId := member.(borrowedBooks := member.borrowedBooks + [isbn])];
      ok := true;
    }

    /** Ends the loan of the book `isbn`; reports whether there was one. */
    method ReturnBook(isbn: string) returns (ok: bool)
      requires ReturnSafe(books, members, isbn)
      modifies this
      ensures ok == Returnable(old(books), isbn)
      ensures ok ==> (books, members) == Release(old(books), old(members), isbn)
      ensures !ok ==> books == old(books) && members == old(members)
      ensures isbns == old(isbns)
      ensures old(Valid()) ==> Valid()
    {
      if isbn !in books {
        return false;
      }
      var book := books[isbn];
      if book.isAvailable {
        return false;
      }
      if Valid() {
        ReleaseKeepsConsistent(books, members, isbn);
      }
      var borrower := book.borrowedBy.value;
      var member := members[borrower];
      members := members[borrower := member.(borrowedBooks := RemoveFirst(member.borrowedBooks, isbn))];
      books := books[isbn := book.(isAvailable := true, borrowedBy := None, dueDate := None)];
      ok := true;
    }

    /** The books on loan whose due date is before `now`, in registration order. */
    method GetOverdueBooks(now: int) returns (overdue: seq<Book>)
      requires OrderValid() && DueDatesSet(books)
      ensures overdue == OverdueIn(Shelf(), now)
      ensures forall b :: b in overdue <==> b in books.Values && IsOverdue(b, now)
    {
      overdue := [];
      for i := 0 to |isbns|
        invariant overdue == OverdueIn(Resolve(books, isbns[..i]), now)
      {
        var book := books[isbns[i]];
        assert isbns[..i + 1][..i] == isbns[..i];
        assert Resolve(books, isbns[..i + 1]) == Resolve(books, isbns[..i]) + [book];
        ghost var shelf := Resolve(books, isbns[..i + 1]);
        assert shelf[..|shelf| - 1] == Resolve(books, isbns[..i]);
        if !book.isAvailable && book.dueDate.value < now {
          overdue := overdue + [book];
        }
      }
      assert isbns[..|isbns|] == isbns;
      OverdueInExact(Shelf(), now);
      ShelfIsCatalogue();
    }

    /** The books whose author contains `author`, ignoring case, in registration order. */
    method SearchBooksByAuthor(author: string) returns (matching: seq<Book>)
      requires OrderValid()
      ensures matching == ByAuthorIn(Shelf(), author)
      ensures forall b :: b in matching <==> b in books.Values && AuthorMatches(b, author)
    {
      var authorLower := Ascii.Lower(author);
      matching := [];
      for i := 0 to |isbns|
        invariant matching == ByAuthorIn(Resolve(books, isbns[..i]), author)
      {
        var book := books[isbns[i]];
        assert isbns[..i + 1][..i] == isbns[..i];
        assert Resolve(books, isbns[..i + 1]) == Resolve(books, isbns[..i]) + [book];
        ghost var shelf := Resolve(books, isbns[..i + 1]);
        assert shelf[..|shelf| - 1] == Resolve(books, isbns[..i]);
        if Ascii.Contains(Ascii.Lower(book.author), authorLower) {
          matching := matching + [book];
        }
      }
      assert isbns[..|isbns|] == isbns;
      ByAuthorInExact(Shelf(), author);
      ShelfIsCatalogue();
    }

    /**
     * The books `memberId` has borrowed, in borrow order; nothing for an
     * unknown member, and listed ISBNs that name no book are skipped.
     */
    method GetMemberBorrowedBooks(memberId: string) returns (borrowed: seq<Book>)
      ensures memberId !in members ==> borrowed == []
      ensures memberId in members ==> borrowed == Resolve(books, members[memberId].borrowedBooks)
      ensures memberId in members ==> |borrowed| <= |members[memberId].borrowedBooks|
    {
      if memberId !in members {
        return [];
      }
      var member := members[memberId];
      borrowed := [];
      for i := 0 to |member.borrowedBooks|
        invariant borrowed == Resolve(books, member.borrowedBooks[..i])
      {
        var isbn := member.borrowedBooks[i];
        assert member.borrowedBooks[..i + 1][..i] == member.borrowedBooks[..i];
        if isbn in books {
          borrowed := borrowed + [books[isbn]];
        }
      }
      assert member.borrowedBooks[..|member.borrowedBooks|] == member.borrowedBooks;
    }

    /** The shelf holds every registered book, once per ISBN, in registration order. */
    lemma ShelfIsCatalogue()
      requires OrderValid()
      ensures |Shelf()| == |isbns|
      ensures forall j :: 0 <= j < |isbns| ==> Shelf()[j] == books[isbns[j]]
      ensures forall b :: b in Shelf() <==> b in books.Values
    {
      ResolveAllPresent(books, isbns);
      ResolveExact(books, isbns);
    }
  }
}
