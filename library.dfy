/**
 * The lending service: enrolls members and runs the borrow and return
 * transactions against the ledger and the member's own state. The current
 * date is an explicit `today` argument.
 */
module Lending {
  import opened Books
  import opened Errors
  import Fees
  import opened Members
  import opened BookRepositories

  /** Some held book has been held for more days than the late threshold (strictly). */
  predicate HasLateBook(held: seq<Book>, loans: Loans, today: Day, threshold: int)
    requires forall b :: b in held ==> b in loans
  {
    exists i :: 0 <= i < |held| && today - loans[held[i]] > threshold
  }

  /** A book held exactly the threshold number of days is not late. */
  lemma LatenessIsStrict(held: seq<Book>, loans: Loans, today: Day, threshold: int)
    requires forall b :: b in held ==> b in loans
    requires forall i :: 0 <= i < |held| ==> today - loans[held[i]] <= threshold
    ensures !HasLateBook(held, loans, today, threshold)
  {
  }

  /**
   * The boundary of lateness: a book borrowed on day `borrowedAt` is not
   * late on day `borrowedAt + threshold` and is late from the next day on.
   */
  lemma LateFromTheDayAfterThreshold(book: Book, loans: Loans, threshold: int)
    requires book in loans
    ensures !HasLateBook([book], loans, loans[book] + threshold, threshold)
    ensures HasLateBook([book], loans, loans[book] + threshold + 1, threshold)
  {
    assert [book][0] == book;
  }

  /** Once a member has a late book, waiting longer does not clear it. */
  lemma LatenessPersists(held: seq<Book>, loans: Loans, today: Day, later: Day, threshold: int)
    requires forall b :: b in held ==> b in loans
    requires today <= later && HasLateBook(held, loans, today, threshold)
    ensures HasLateBook(held, loans, later, threshold)
  {
  }

  class Library {
    /** The enrolled members, in the order they were added. */
    var members: seq<Member>
    /** The ledger of available and borrowed books. */
    const repository: BookRepository

    /** Every book the member holds has a recorded borrow date. */
    predicate HoldsOnlyLentBooks(member: Member)
      reads this, repository, member
    {
      forall b :: b in member.borrowedBooks ==> b in repository.borrowedBooks
    }

    constructor ()
      ensures members == [] && fresh(repository)
      ensures repository.Valid() && repository.Disjoint()
      ensures repository.availableBooks == map[] && repository.borrowedBooks == map[]
    {
      members := [];
      repository := new BookRepository();
    }

    /**
     * Borrows the book with ISBN code `isbnCode` for `member` on day
     * `borrowedAt`. Fails with HasLateBooks, changing nothing, if the member
     * holds a late book as of `today`; gives no book, changing nothing, if no
     * book with that ISBN is on the shelf; otherwise the member holds the
     * book and the ledger records it as on loan since `borrowedAt`.
     */
    method BorrowBook(isbnCode: int, member: Member, borrowedAt: Day, today: Day)
      returns (r: Result<Option<Book>, LibraryError>)
      requires repository.Valid() && member.Valid() && HoldsOnlyLentBooks(member)
      modifies member`borrowedBooks, repository
      ensures repository.Valid() && member.Valid() && HoldsOnlyLentBooks(member)
      ensures old(repository.Disjoint()) ==> repository.Disjoint()
      ensures var late := HasLateBook(old(member.borrowedBooks), old(repository.borrowedBooks), today,
                                      Fees.LateThreshold(member.category));
              var isbn := Some(Isbn(isbnCode));
              if late || isbn !in old(repository.availableBooks) then
                && r == (if late then Err(HasLateBooks(LateBooksMessage)) else Ok(None))
                && member.borrowedBooks == old(member.borrowedBooks)
                && repository.availableBooks == old(repository.availableBooks)
                && repository.borrowedBooks == old(repository.borrowedBooks)
              else
                var book := old(repository.availableBooks)[isbn];
                && r == Ok(Some(book))
                && book.isbn == isbn
                && book in member.borrowedBooks
                && member.borrowedBooks == (if book in old(member.borrowedBooks) then old(member.borrowedBooks)
                                            else old(member.borrowedBooks) + [book])
                && repository.borrowedBooks == old(repository.borrowedBooks)[book := borrowedAt]
                && repository.availableBooks == old(repository.availableBooks) - {isbn}
    {
      var check := CheckIfMemberCanBorrowBook(member, today);
      if check.Fail? {
        return Err(check.error);
      }
      var book := repository.FindAvailableBook(isbnCode);
      if book.None? {
        return Ok(None);
      }
      member.AddBorrowedBook(book.value);
      repository.SaveBorrowedBook(book.value, borrowedAt);
      return Ok(book);
    }

    /** Fails with HasLateBooks exactly when one of the member's books is late as of `today`. */
    method CheckIfMemberCanBorrowBook(member: Member, today: Day) returns (r: Outcome<LibraryError>)
      requires HoldsOnlyLentBooks(member)
      ensures r == if HasLateBook(member.borrowedBooks, repository.borrowedBooks, today,
                                  Fees.LateThreshold(member.category))
                   then Fail(HasLateBooks(LateBooksMessage)) else Pass
    {
      var held := member.borrowedBooks;
      for i := 0 to |held|
        invariant forall j :: 0 <= j < i ==>
                    today - repository.borrowedBooks[held[j]] <= Fees.LateThreshold(member.category)
      {
        var days := NumberOfDaysOfBorrowedBook(held[i], today);
        if days > member.NumberOfDaysWhereConsideredLate() {
          return Fail(HasLateBooks(LateBooksMessage));
        }
      }
      return Pass;
    }

    /**
     * Returns a borrowed book on day `today`. The member pays for the days
     * held; if the payment fails the return fails with the same message and
     * nothing changes. Otherwise the member no longer holds the book and it
     * is back on the shelf.
     */
    method ReturnBook(book: Book, member: Member, today: Day) returns (r: Outcome<LibraryError>)
      requires repository.Valid() && member.Valid()
      requires book in repository.borrowedBooks
      modifies member`wallet, member`borrowedBooks, repository
      ensures repository.Valid() && member.Valid()
      ensures old(repository.Disjoint()) ==> repository.Disjoint()
      ensures old(HoldsOnlyLentBooks(member)) ==> HoldsOnlyLentBooks(member)
      ensures var days := today - old(repository.borrowedBooks[book]);
              if Fees.CanPay(member.category, old(member.wallet), days) then
                && r == Pass
                && member.wallet == old(member.wallet) - Fees.Fee(member.category, days)
                && member.borrowedBooks == RemoveFirst(old(member.borrowedBooks), book)
                && book !in member.borrowedBooks
                && repository.borrowedBooks == old(repository.borrowedBooks) - {book}
                && repository.availableBooks == old(repository.availableBooks)[book.isbn := book]
              else
                && r == Fail(CanNotReturnBook(CannotPayMessage))
                && member.wallet == old(member.wallet)
                && member.borrowedBooks == old(member.borrowedBooks)
                && repository.borrowedBooks == old(repository.borrowedBooks)
                && repository.availableBooks == old(repository.availableBooks)
    {
      var numberOfDays := NumberOfDaysOfBorrowedBook(book, today);
      var paid := member.PayBook(numberOfDays);
      if paid.Fail? {
        return Fail(CanNotReturnBook(paid.error.message));
      }
      RemoveFirstOfDistinct(member.borrowedBooks, book);
      member.borrowedBooks := RemoveFirst(member.borrowedBooks, book);
      repository.MakeBorrowedBookAvailable(book);
      r := Pass;
    }

    /** The number of days from the book's recorded borrow date to `today`. */
    method NumberOfDaysOfBorrowedBook(book: Book, today: Day) returns (days: int)
      requires book in repository.borrowedBooks
      ensures days + repository.borrowedBooks[book] == today
    {
      var borrowedAt := repository.FindBorrowedBookDate(book);
      days := today - borrowedAt.value;
    }

    /** Enrolls a member at the end of the list; a null member is ignored. */
    method AddMember(member: Member?)
      modifies this`members
      ensures members == if member == null then old(members) else old(members) + [member]
    {
      if member != null {
        members := members + [member];
      }
    }
  }
}
