# Library lending core, in Dafny

This project models the lending core of a small library application.

- **Ledger** (`BookRepository`). It keeps two maps. The available map takes an ISBN to a book. The borrowed map takes a book to its borrow date.
- **Members**. Each has a wallet and a duplicate-free list of the books they hold. A member is a resident or a student, and a student may be in their first year.
- **Fee policies**.
  - A resident pays 10 cents a day up to 60 days and 20 cents for every day after that.
  - A student pays a flat 10 cents for every day held.
  - A first-year student who returns a book within 15 days pays nothing.
  - A payment that would make the wallet negative fails and leaves the wallet as it was.
- **Service** (`Library`). It enrolls members and runs borrow and return.
  - Borrowing is refused (HasLateBooks) while the member holds a book for more days than their late threshold: 60 for residents, 30 for students.
  - Borrowing an ISBN that is not on the shelf gives no book and changes nothing.
  - Returning a book charges the member. A failed payment becomes CanNotReturnBook with the same message, and then nothing changes.

The files:

- `books.dfy`: books, ISBNs and day numbers.
- `errors.dfy`: the three error kinds, as result values.
- `fees.dfy`: the two tariffs as functions, with a day-by-day reference definition they are proved equal to.
- `members.dfy`: the `Member` class, holding a wallet, the held books and a category.
- `book_repository.dfy`: the `BookRepository` class, holding the two maps.
- `library.dfy`: the `Library` service class.
- `scenarios.dfy`: whole transactions taken from the library's unit tests, proved for every value of "today".

Modelling choices:

- **Money**. It is counted in integer cents, so 0.10 becomes 10 and 0.20 becomes 20.
- **Dates**. A date is an integer day number. The days between two dates is their difference.
- **Today**. The service reads the system clock. The model takes `today` as an explicit argument of `BorrowBook` and `ReturnBook` instead. The lateness check also uses `today`, not the `borrowedAt` argument, as the code does.
- **Books**. A `Book` is equal to another exactly when their ISBNs are equal, so a `Book` carries only its (possibly missing) ISBN.
- **Shelf keys**. The available map is keyed by the optional ISBN, like a Java map that allows a null key. `AddBook` never files a book without an ISBN. `MakeBorrowedBookAvailable` files the book under whatever ISBN it has, as the code does.
- **Null values**. A null book given to `addBook` is modelled as `None`. A null member given to `addMember` is modelled as `null` of type `Member?`.

Two rules one might expect that the code does not keep; the model follows the code:

- **Lateness date**. The lateness check measures days up to today. It does not use the borrow date passed in.
- **Ledger exclusivity**. The code does not keep "a book is never both available and borrowed" as an invariant: `addBook` can shelve a book that is on loan. The model states this as the `Disjoint` predicate. It proves that saving, returning and the two service operations preserve `Disjoint`, and that `AddBook` preserves it for an entry it rejects or a book not on loan.

## Model

| member | source | states |
|---|---|---|
| Fees.ResidentFeeIsSumOfDailyRates | recruitment-web-master/src/main/java/fr/d2factory/libraryapp/member/Resident.java:27-42 | the resident fee for n days equals the sum over days 1..n of 10 cents up to day 60 and 20 cents after it |
| Fees.StudentFeeIsSumOfDailyRates | recruitment-web-master/src/main/java/fr/d2factory/libraryapp/member/Student.java:24-28 | outside the first-year waiver a student pays 10 cents for every day held, with no split anywhere |
| Fees.FeeIsSumOfDailyRates | recruitment-web-master/src/main/java/fr/d2factory/libraryapp/member/Member.java:22 | for either category, every fee actually charged equals the day-by-day sum of that category's daily rates |
| Fees.ResidentFeeSplit | recruitment-web-master/src/main/java/fr/d2factory/libraryapp/member/Resident.java:35-40 | up to 60 days a resident owes days x 10 cents; past 60 owes 600 + (days - 60) x 20 cents |
| Fees.FirstYearWaiver | recruitment-web-master/src/main/java/fr/d2factory/libraryapp/member/Student.java:38-40 | within 15 days a first-year student's payment is waived (fee 0) while another student owes days x 10 cents |
| Fees.FirstYearWaiverIsNotProrated | recruitment-web-master/src/main/java/fr/d2factory/libraryapp/member/Student.java:24-28 | from day 16 a first-year student owes days x 10 cents for all days, the same as any other student |
| Fees.LateThresholds | recruitment-web-master/src/main/java/fr/d2factory/libraryapp/member/Resident.java:44-47 | the late threshold is 60 days for a resident and 30 days for a student (Student.java lines 50-53) |
| Fees.FeeMonotone | recruitment-web-master/src/main/java/fr/d2factory/libraryapp/member/Resident.java:27-42 | for non-negative durations, holding a book longer never costs less, in either category |
| Fees.ZeroDaysIsFree | recruitment-web-master/src/main/java/fr/d2factory/libraryapp/member/Resident.java:19-24 | a zero-day loan costs nothing and is payable from any non-negative wallet, including an empty one |
| Fees.PaymentNeverOverdraws | recruitment-web-master/src/main/java/fr/d2factory/libraryapp/member/Student.java:24-35 | whether a payment fails, is waived or is taken, a non-negative wallet stays non-negative, and a payment for a non-negative number of days never adds money (the resident version is Resident.java lines 19-24) |
| Fees.PaymentsNeverOverdraw | recruitment-web-master/src/main/java/fr/d2factory/libraryapp/library/LibraryImp.java:60-66 | over any number of returns paid one after the other, a wallet that starts non-negative stays non-negative, and never grows when every duration is non-negative |
| Members.AppendAbsentKeepsDistinct | recruitment-web-master/src/main/java/fr/d2factory/libraryapp/member/Member.java:59-63 | appending a book not yet held keeps the held list free of duplicates |
| Members.RemoveFirstMultiset | recruitment-web-master/src/main/java/fr/d2factory/libraryapp/library/LibraryImp.java:68 | removing a book from a list takes away exactly one copy of it, if present, and nothing else |
| Members.RemoveFirstOfAppended | recruitment-web-master/src/main/java/fr/d2factory/libraryapp/library/LibraryImp.java:68 | removing a book that was just appended to a list not holding it gives back the list as it was |
| Members.RemoveFirstOfDistinct | recruitment-web-master/src/main/java/fr/d2factory/libraryapp/library/LibraryImp.java:68 | removing a book from a duplicate-free list leaves a duplicate-free list holding every other book and not that one |
| Members.Member.Resident | recruitment-web-master/src/main/java/fr/d2factory/libraryapp/member/Resident.java:7-12 | a new resident holds no books and has the given wallet, 0 by default |
| Members.Member.Student | recruitment-web-master/src/main/java/fr/d2factory/libraryapp/member/Student.java:9-19 | a new student holds no books, has the given wallet (0 by default) and is not first-year unless said so |
| Members.Member.AddBorrowedBook | recruitment-web-master/src/main/java/fr/d2factory/libraryapp/member/Member.java:59-63 | a book already held changes nothing; otherwise it is appended at the end; the list stays duplicate-free |
| Members.Member.PayBook | recruitment-web-master/src/main/java/fr/d2factory/libraryapp/member/Resident.java:14-25 | fails with "Member can't pay the book." exactly when not waived and wallet - fee < 0, leaving the wallet; otherwise deducts exactly the fee; a non-negative wallet is never left negative (the student version is Student.java lines 21-36) |
| BookRepositories.ShelvingRejectedEntriesChangesNothing | recruitment-web-master/src/main/java/fr/d2factory/libraryapp/book/BookRepository.java:26-30 | adding only null books or books without ISBN leaves the shelf unchanged |
| BookRepositories.ShelvedAllKeys | recruitment-web-master/src/main/java/fr/d2factory/libraryapp/book/BookRepository.java:20-24 | adding books never removes an ISBN and adds only ISBNs of the added books that have one, never a missing ISBN |
| BookRepositories.ShelvingNewIsbnsGrowsShelf | recruitment-web-master/src/main/java/fr/d2factory/libraryapp/book/BookRepository.java:20-29 | adding n books with distinct ISBNs that are not yet on the shelf grows it by exactly n |
| BookRepositories.LendThenReturnRestores | recruitment-web-master/src/main/java/fr/d2factory/libraryapp/book/BookRepository.java:37-49 | for a shelved book not on loan, saving it as borrowed and making it available again restores both maps |
| BookRepositories.BookRepository.constructor | recruitment-web-master/src/main/java/fr/d2factory/libraryapp/book/BookRepository.java:15-18 | both maps start empty |
| BookRepositories.BookRepository.AddBooks | recruitment-web-master/src/main/java/fr/d2factory/libraryapp/book/BookRepository.java:20-24 | the shelf afterwards is the old shelf with each entry added in order, as AddBook does |
| BookRepositories.BookRepository.AddBook | recruitment-web-master/src/main/java/fr/d2factory/libraryapp/book/BookRepository.java:26-30 | a null book or one without ISBN changes nothing; otherwise the book is filed under its ISBN, replacing any earlier one |
| BookRepositories.BookRepository.FindAvailableBook | recruitment-web-master/src/main/java/fr/d2factory/libraryapp/book/BookRepository.java:32-35 | gives no book exactly when the ISBN is not a key of the shelf, else the book filed there, which has that ISBN |
| BookRepositories.BookRepository.SaveBorrowedBook | recruitment-web-master/src/main/java/fr/d2factory/libraryapp/book/BookRepository.java:37-40 | records the book as borrowed on the given day and takes its ISBN off the shelf; no other entry changes |
| BookRepositories.BookRepository.FindBorrowedBookDate | recruitment-web-master/src/main/java/fr/d2factory/libraryapp/book/BookRepository.java:42-44 | gives a date exactly when the book is on loan, and then the date recorded for it |
| BookRepositories.BookRepository.MakeBorrowedBookAvailable | recruitment-web-master/src/main/java/fr/d2factory/libraryapp/book/BookRepository.java:46-49 | ends the loan and files the book on the shelf under its ISBN; no other entry changes |
| Lending.LatenessIsStrict | recruitment-web-master/src/main/java/fr/d2factory/libraryapp/library/LibraryImp.java:50 | books held at most the threshold number of days are not late |
| Lending.LateFromTheDayAfterThreshold | recruitment-web-master/src/main/java/fr/d2factory/libraryapp/library/LibraryImp.java:50 | a book borrowed on day d is not late on day d + threshold and is late on day d + threshold + 1 |
| Lending.LatenessPersists | recruitment-web-master/src/main/java/fr/d2factory/libraryapp/library/LibraryImp.java:44-55 | a member who has a late book today still has one on any later day |
| Lending.Library.constructor | recruitment-web-master/src/main/java/fr/d2factory/libraryapp/library/LibraryImp.java:21-24 | no members and a fresh, empty ledger |
| Lending.Library.BorrowBook | recruitment-web-master/src/main/java/fr/d2factory/libraryapp/library/LibraryImp.java:26-42 | late book: HasLateBooks and nothing changes; ISBN not on the shelf: no book and nothing changes; else returns the shelved book, which the member now holds, which is on loan since borrowedAt and off the shelf |
| Lending.Library.CheckIfMemberCanBorrowBook | recruitment-web-master/src/main/java/fr/d2factory/libraryapp/library/LibraryImp.java:44-55 | fails with "Member has late books." exactly when some held book has been held strictly more days than the member's threshold |
| Lending.Library.ReturnBook | recruitment-web-master/src/main/java/fr/d2factory/libraryapp/library/LibraryImp.java:57-71 | if the member cannot pay for the days held, CanNotReturnBook with the payment's message and nothing changes; else the fee is paid, the member no longer holds the book and it is back on the shelf |
| Lending.Library.NumberOfDaysOfBorrowedBook | recruitment-web-master/src/main/java/fr/d2factory/libraryapp/library/LibraryImp.java:73-79 | the days held is today minus the recorded borrow date |
| Lending.Library.AddMember | recruitment-web-master/src/main/java/fr/d2factory/libraryapp/library/LibraryImp.java:81-84 | a null member changes nothing; any other member is appended at the end |
| Scenarios.LibraryWith | recruitment-web-master/src/test/java/fr/d2factory/libraryapp/library/LibraryTest.java:38-47 | a new library after a catalogue import has exactly the imported shelf and no loans |
| Scenarios.EnrollTwoMembers | recruitment-web-master/src/test/java/fr/d2factory/libraryapp/library/LibraryTest.java:49-72 | enrolling a student, null and a resident leaves two members |
| Scenarios.BorrowThenReturnRestoresLedger | recruitment-web-master/src/main/java/fr/d2factory/libraryapp/library/LibraryImp.java:26-71 | for a shelved book, a member with no late book and a payable stay, borrowing then returning restores both ledger maps and the member's held list, and lowers the wallet by exactly the fee |
| Scenarios.BorrowAndReturn | recruitment-web-master/src/test/java/fr/d2factory/libraryapp/library/LibraryTest.java:177-212 | a payable borrow-then-return leaves the book on the shelf, not held, and the wallet lower by exactly the fee |
| Scenarios.ReturnOnBorrowDayIsFree | recruitment-web-master/src/test/java/fr/d2factory/libraryapp/library/LibraryTest.java:177-194 | a resident with an empty wallet can return a book on the day it was borrowed |
| Scenarios.EmptyWalletCannotReturn | recruitment-web-master/src/test/java/fr/d2factory/libraryapp/library/LibraryTest.java:214-233 | with an empty wallet and a day or more held, the return fails with "Member can't pay the book." and the loan stays |
| Scenarios.ResidentPaysTenCentsADay | recruitment-web-master/src/test/java/fr/d2factory/libraryapp/library/LibraryTest.java:235-252 | 100 cents, 3 days: 70 cents left |
| Scenarios.StudentPaysTenCentsADay | recruitment-web-master/src/test/java/fr/d2factory/libraryapp/library/LibraryTest.java:254-271 | a student not in the first year, 3000 cents, 30 days: 2700 cents left |
| Scenarios.FirstYearStudentPaysNothingWithinFifteenDays | recruitment-web-master/src/test/java/fr/d2factory/libraryapp/library/LibraryTest.java:273-290 | a first-year student, 3000 cents, 15 days: 3000 cents left |
| Scenarios.ResidentPaysTwentyCentsAfterSixtyDays | recruitment-web-master/src/test/java/fr/d2factory/libraryapp/library/LibraryTest.java:292-308 | 3000 cents, 67 days: 2260 cents left |
| Scenarios.SecondMemberCannotBorrowLentBook | recruitment-web-master/src/test/java/fr/d2factory/libraryapp/library/LibraryTest.java:156-175 | a second member asking for a book on loan gets no book and holds nothing |
| Scenarios.LateResidentCannotBorrow | recruitment-web-master/src/test/java/fr/d2factory/libraryapp/library/LibraryTest.java:310-330 | a resident holding a book for 67 days is refused with "Member has late books." |
| Scenarios.ResidentAtThresholdMayBorrow | recruitment-web-master/src/main/java/fr/d2factory/libraryapp/library/LibraryImp.java:50 | a resident holding a book for exactly 60 days can still borrow another |

## Left out

- Floating-point money. The wallet and fees are exact integer cents, so float rounding of the wallet is not reproduced.
- The system clock and `java.time`. The date is an explicit `today` argument, and dates are integer day numbers.
- The `(int)` cast of the day count in `returnBook`. Day counts are unbounded integers.
- Catalogue loading from JSON and file I/O in the test setup. `AddBooks` receives the parsed records.
- Getters and setters that hand out or replace internal collections: `setMembers`, `setBookRepository`, `setAvailableBooks`, and `setBorrowedBooks` on the ledger and on `Member`. Besides aliasing, a setter can install any contents. `setBorrowedBooks` (Member.java lines 55-57) can give a member a held list with duplicates. `setAvailableBooks` (BookRepository.java lines 55-57) can install a shelf whose keys are not the books' ISBNs. The model has no such operations: the ledger is fixed at construction. It assumes the two invariants these setters could break instead: `Member.Valid` (no duplicate held books) and `BookRepository.Valid` (every shelf entry filed under its own ISBN).
- The mutator `setWallet` (Member.java lines 47-49) as a public operation. The wallet changes only through `PayBook`, which is where the code itself calls it.
- The mutator `setFirstYear` (Student.java lines 46-48). A member's category, first-year status included, is fixed at construction. So the model does not capture a student whose first-year status changes while a book is held, which would change what `payBook` charges for it.
- The call to `findBorrowedBookDate` at LibraryImp.java line 48. Its result is discarded, so it has no effect.
- Titles and authors. `Book.java` and `ISBN.java` are not part of this model; a book is its ISBN, since books are equal exactly when their ISBNs are.
- The `Library` interface and the exception classes other than `HasLateBooksException`. They are not part of this model; the three error kinds are values of `LibraryError`.
- Null pointer failures. The code fails with a null pointer error in these cases, and the model turns each into a precondition:
  - `returnBook` of a book with no recorded loan;
  - `borrowBook` by a member holding a book with no recorded loan, which happens after someone else returned that book. The code only fails when its lateness loop reaches that book. If an earlier held book is late, the code reports HasLateBooks instead. The precondition also excludes those states, so the model does not capture that HasLateBooks outcome;
  - a null member passed to `borrowBook` or `returnBook`.
- Concurrent use. The core is sequential.
