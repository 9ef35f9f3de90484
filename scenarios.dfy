/**
 * The circulation scenarios the repository's tests walk through, stated
 * against the model: what the contracts of `Library` let a caller conclude.
 */
module Scenarios {
  import Ascii
  import opened Models

  /** An author "John Smith" matches the query "john" but not "JANE". */
  lemma JohnSmithMatchesJohn(b: Book)
    requires b.author == "John Smith"
    ensures AuthorMatches(b, "john") && !AuthorMatches(b, "JANE")
  {
    assert Ascii.Lower("John Smith") == "john smith";
    assert Ascii.Lower("john") == "john";
    assert Ascii.Contains("john smith", "john");
    assert Ascii.Lower("JANE") == "jane" && "jane"[1] == 'a';
    assert 'a' !in "john smith";
    MissingCharacterRulesOutMatch(b, "JANE", 'a');
  }

  /** An author "Jane Doe" matches the query "JANE" but not "john". */
  lemma JaneDoeMatchesJane(b: Book)
    requires b.author == "Jane Doe"
    ensures AuthorMatches(b, "JANE") && !AuthorMatches(b, "john")
  {
    assert Ascii.Lower("Jane Doe") == "jane doe";
    assert Ascii.Lower("JANE") == "jane";
    assert Ascii.Contains("jane doe", "jane");
    assert Ascii.Lower("john") == "john" && "john"[2] == 'h';
    assert 'h' !in "jane doe";
    MissingCharacterRulesOutMatch(b, "john", 'h');
  }

  /** "john" finds both books by John Smith; "JANE" finds the one by Jane Doe. */
  lemma SearchByAuthorScenario(b1: Book, b2: Book, b3: Book)
    requires b1.author == "John Smith" && b2.author == "Jane Doe" && b3.author == "John Smith"
    ensures ByAuthorIn([b1, b2, b3], "john") == [b1, b3]
    ensures ByAuthorIn([b1, b2, b3], "JANE") == [b2]
  {
    JohnSmithMatchesJohn(b1);
    JaneDoeMatchesJane(b2);
    JohnSmithMatchesJohn(b3);
    var shelf := [b1, b2, b3];
    assert shelf[..2] == [b1, b2] && [b1, b2][..1] == [b1] && [b1][..0] == [];
    assert ByAuthorIn([b1], "john") == [b1];
    assert ByAuthorIn([b1, b2], "john") == [b1];
    assert ByAuthorIn([b1], "JANE") == [];
    assert ByAuthorIn([b1, b2], "JANE") == [b2];
  }

  /**
   * One book, one member: borrow succeeds, a second borrow fails, the book
   * turns overdue after the loan period, and the return puts everything back.
   */
  method BorrowReturnScenario(now: int)
  {
    var library := new Library();
    library.AddBook(NewBook("X", "Test Book", "Test Author", 2023));
    library.AddMember(NewMember("M1", "John Doe", "john@example.com"));

    var ok := library.BorrowBook("X", "M1", now);
    assert ok;
    assert !library.books["X"].isAvailable && library.books["X"].borrowedBy == Some("M1");
    assert library.books["X"].dueDate == Some(now + 14);
    assert library.members["M1"].borrowedBooks == ["X"];

    ok := library.BorrowBook("X", "M1", now);
    assert !ok;

    var overdue := library.GetOverdueBooks(now + 15);
    assert overdue == [library.books["X"]];
    overdue := library.GetOverdueBooks(now + 14);
    assert overdue == [];

    ok := library.ReturnBook("X");
    assert ok;
    assert library.books["X"] == NewBook("X", "Test Book", "Test Author", 2023);
    assert library.members["M1"].borrowedBooks == [];

    ok := library.ReturnBook("X");
    assert !ok;
  }

  /**
   * A member who borrows two books gets both back from the member query,
   * in borrow order.
   */
  lemma TwoLoansInBorrowOrder(book1: Book, book2: Book, member: Member, due: int)
    requires book1.isbn != book2.isbn && book1.isAvailable && book2.isAvailable
    requires member.borrowedBooks == []
    ensures var books := map[book1.isbn := book1, book2.isbn := book2];
            var members := map[member.memberId := member];
            var first := Lend(books, members, book1.isbn, member.memberId, due);
            && CanBorrow(first.0, first.1, book2.isbn, member.memberId)
            && var second := Lend(first.0, first.1, book2.isbn, member.memberId, due);
               Resolve(second.0, second.1[member.memberId].borrowedBooks)
               == [second.0[book1.isbn], second.0[book2.isbn]]
  {
  }
}
