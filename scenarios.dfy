/**
 * Whole transactions through the service, for every value of `today`:
 * the worked cases of the library's own test suite, proved from the
 * contracts of the service, the ledger and the members.
 */
module Scenarios {
  import opened Books
  import Fees
  import opened Errors
  import opened Members
  import opened BookRepositories
  import opened Lending

  const HarryPotterCode: int := 46578964513
  const SecondCode: int := 968787565445

  /** A library whose shelf holds the given catalogue. */
  method LibraryWith(books: seq<Option<Book>>) returns (library: Library)
    ensures fresh(library) && fresh(library.repository) && library.members == []
    ensures library.repository.Valid() && library.repository.Disjoint()
    ensures library.repository.availableBooks == ShelvedAll(map[], books)
    ensures library.repository.borrowedBooks == map[]
  {
    library := new Library();
    library.repository.AddBooks(books);
  }

  /** Two members enrolled one after the other are both on the list; null is ignored. */
  method EnrollTwoMembers() returns (count: nat)
    ensures count == 2
  {
    var library := new Library();
    var student := new Member.Student();
    library.AddMember(student);
    library.AddMember(null);
    var resident := new Member.Resident();
    library.AddMember(resident);
    count := |library.members|;
  }

  /**
   * A member borrows the book and returns it, `daysHeld` days later, for
   * the fee of their category. Returns the final wallet, whether the book
   * is back on the shelf and whether the member still holds it.
   */
  method BorrowAndReturn(member: Member, daysHeld: int, today: Day)
    returns (wallet: int, onShelf: bool, stillHeld: bool)
    requires member.Valid() && member.borrowedBooks == []
    requires Fees.CanPay(member.category, member.wallet, daysHeld)
    modifies member
    ensures wallet == old(member.wallet) - Fees.Fee(member.category, daysHeld)
    ensures onShelf && !stillHeld
  {
    var harry := Book(Some(Isbn(HarryPotterCode)));
    var library := LibraryWith([Some(harry)]);
    var borrowed := library.BorrowBook(HarryPotterCode, member, today - daysHeld, today);
    assert borrowed == Ok(Some(harry));
    var returned := library.ReturnBook(harry, member, today);
    var found := library.repository.FindAvailableBook(HarryPotterCode);
    wallet, onShelf, stillHeld := member.wallet, found.Some?, harry in member.borrowedBooks;
  }

  /**
   * Borrowing a book off the shelf and returning it, paid for, restores
   * the ledger and the member's list of held books; the member's wallet is
   * lower by exactly the fee for the days held.
   */
  method BorrowThenReturnRestoresLedger(library: Library, member: Member, isbnCode: int,
                                        borrowDay: Day, returnDay: Day)
    returns (borrowed: Result<Option<Book>, LibraryError>, returned: Outcome<LibraryError>)
    requires library.repository.Valid() && library.repository.Disjoint()
    requires member.Valid() && library.HoldsOnlyLentBooks(member)
    requires Some(Isbn(isbnCode)) in library.repository.availableBooks
    requires !HasLateBook(member.borrowedBooks, library.repository.borrowedBooks, borrowDay,
                          Fees.LateThreshold(member.category))
    requires Fees.CanPay(member.category, member.wallet, returnDay - borrowDay)
    modifies member, library.repository
    ensures borrowed == Ok(Some(old(library.repository.availableBooks)[Some(Isbn(isbnCode))]))
    ensures returned == Pass
    ensures library.repository.availableBooks == old(library.repository.availableBooks)
    ensures library.repository.borrowedBooks == old(library.repository.borrowedBooks)
    ensures member.borrowedBooks == old(member.borrowedBooks)
    ensures member.wallet == old(member.wallet) - Fees.Fee(member.category, returnDay - borrowDay)
  {
    var book := library.repository.availableBooks[Some(Isbn(isbnCode))];
    assert book !in library.repository.borrowedBooks;
    RemoveFirstOfAppended(member.borrowedBooks, book);
    borrowed := library.BorrowBook(isbnCode, member, borrowDay, borrowDay);
    returned := library.ReturnBook(book, member, returnDay);
  }

  /** A resident with an empty wallet returns a book on the day it was borrowed, at no cost. */
  method ReturnOnBorrowDayIsFree(today: Day) returns (wallet: int, onShelf: bool, stillHeld: bool)
    ensures wallet == 0 && onShelf && !stillHeld
  {
    var resident := new Member.Resident();
    wallet, onShelf, stillHeld := BorrowAndReturn(resident, 0, today);
  }

  /** A resident with 1.00 who keeps a book 3 days is left with 0.70. */
  method ResidentPaysTenCentsADay(today: Day) returns (wallet: int)
    ensures wallet == 70
  {
    var resident := new Member.Resident(100);
    var onShelf, stillHeld;
    wallet, onShelf, stillHeld := BorrowAndReturn(resident, 3, today);
  }

  /** A resident with 30.00 who keeps a book 67 days pays 6.00 + 1.40 and is left with 22.60. */
  method ResidentPaysTwentyCentsAfterSixtyDays(today: Day) returns (wallet: int)
    ensures wallet == 2260
  {
    var resident := new Member.Resident(3000);
    var onShelf, stillHeld;
    wallet, onShelf, stillHeld := BorrowAndReturn(resident, 67, today);
  }

  /** A student, not in the first year, with 30.00 who keeps a book 30 days is left with 27.00. */
  method StudentPaysTenCentsADay(today: Day) returns (wallet: int)
    ensures wallet == 2700
  {
    var student := new Member.Student(3000);
    var onShelf, stillHeld;
    wallet, onShelf, stillHeld := BorrowAndReturn(student, 30, today);
  }

  /** A first-year student with 30.00 who keeps a book 15 days pays nothing. */
  method FirstYearStudentPaysNothingWithinFifteenDays(today: Day) returns (wallet: int)
    ensures wallet == 3000
  {
    var student := new Member.Student(3000, true);
    var onShelf, stillHeld;
    wallet, onShelf, stillHeld := BorrowAndReturn(student, 15, today);
  }

  /** A resident with an empty wallet cannot return a book held a day or more; the loan stays. */
  method EmptyWalletCannotReturn(daysHeld: int, today: Day) returns (r: Outcome<LibraryError>, stillLent: bool)
    requires daysHeld > 0
    ensures r == Fail(CanNotReturnBook(CannotPayMessage)) && stillLent
  {
    var harry := Book(Some(Isbn(HarryPotterCode)));
    var library := LibraryWith([Some(harry)]);
    var resident := new Member.Resident();
    var borrowed := library.BorrowBook(HarryPotterCode, resident, today - daysHeld, today);
    r := library.ReturnBook(harry, resident, today);
    stillLent := harry in library.repository.borrowedBooks && harry in resident.borrowedBooks;
  }

  /** Once one member has the book, a second member gets no book and holds nothing. */
  method SecondMemberCannotBorrowLentBook(today: Day) returns (r: Result<Option<Book>, LibraryError>, held: seq<Book>)
    ensures r == Ok(None) && held == []
  {
    var harry := Book(Some(Isbn(HarryPotterCode)));
    var library := LibraryWith([Some(harry)]);
    var first := new Member.Resident();
    var second := new Member.Resident();
    var _ := library.BorrowBook(HarryPotterCode, first, today, today);
    r := library.BorrowBook(HarryPotterCode, second, today, today);
    held := second.borrowedBooks;
  }

  /** A resident holding a book for 67 days is refused any further book. */
  method LateResidentCannotBorrow(today: Day) returns (r: Result<Option<Book>, LibraryError>)
    ensures r == Err(HasLateBooks(LateBooksMessage))
  {
    var harry := Book(Some(Isbn(HarryPotterCode)));
    var other := Book(Some(Isbn(SecondCode)));
    var library := LibraryWith([Some(harry), Some(other)]);
    var resident := new Member.Resident(3000);
    var _ := library.BorrowBook(HarryPotterCode, resident, today - 67, today);
    r := library.BorrowBook(SecondCode, resident, today - 67, today);
  }

  /** A resident holding a book exactly 60 days may still borrow. */
  method ResidentAtThresholdMayBorrow(today: Day) returns (r: Result<Option<Book>, LibraryError>)
    ensures r == Ok(Some(Book(Some(Isbn(SecondCode)))))
  {
    var harry := Book(Some(Isbn(HarryPotterCode)));
    var other := Book(Some(Isbn(SecondCode)));
    var library := LibraryWith([Some(harry), Some(other)]);
    var resident := new Member.Resident();
    var _ := library.BorrowBook(HarryPotterCode, resident, today - 60, today);
    r := library.BorrowBook(SecondCode, resident, today, today);
  }
}
