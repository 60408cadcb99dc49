/**
 * Borrowers: a wallet in cents, the list of books currently held, and the
 * fee policy of their category (resident or student).
 */
module Members {
  import opened Books
  import opened Errors
  import Fees

  /** No book appears twice in a list of held books. */
  predicate NoDuplicates(s: seq<Book>)
  {
    forall i, j :: 0 <= i < j < |s| ==> s[i] != s[j]
  }

  /** The list after removing the first occurrence of `b`, if any (a list's remove-by-value). */
  function RemoveFirst(s: seq<Book>, b: Book): seq<Book>
  {
    if s == [] then []
    else if s[0] == b then s[1..]
    else [s[0]] + RemoveFirst(s[1..], b)
  }

  /** Removing a book takes away exactly one copy of it, if there was one, and nothing else. */
  lemma {:induction false} RemoveFirstMultiset(s: seq<Book>, b: Book)
    ensures multiset(RemoveFirst(s, b)) == multiset(s) - multiset{b}
  {
    if s != [] {
      assert s == [s[0]] + s[1..];
      if s[0] != b {
        RemoveFirstMultiset(s[1..], b);
      }
    }
  }

  /** Removing from a duplicate-free list keeps it duplicate-free and leaves the book out. */
  lemma {:induction false} RemoveFirstOfDistinct(s: seq<Book>, b: Book)
    requires NoDuplicates(s)
    ensures NoDuplicates(RemoveFirst(s, b))
    ensures b !in RemoveFirst(s, b)
    ensures forall x :: x in RemoveFirst(s, b) <==> x in s && x != b
  {
    if s != [] {
      if s[0] == b {
        assert forall x :: x in s[1..] ==> x != b by {
          forall x | x in s[1..] ensures x != b {
            var k :| 0 <= k < |s[1..]| && s[1..][k] == x;
            assert s[k + 1] == x;
          }
        }
        assert forall x :: x in s <==> x == s[0] || x in s[1..] by {
          assert s == [s[0]] + s[1..];
        }
      } else {
        RemoveFirstOfDistinct(s[1..], b);
        var rest := RemoveFirst(s[1..], b);
        assert s[0] !in rest;
        assert forall x :: x in s <==> x == s[0] || x in s[1..] by {
          assert s == [s[0]] + s[1..];
        }
        var r := [s[0]] + rest;
        forall i, j | 0 <= i < j < |r| ensures r[i] != r[j] {
          if i == 0 {
            assert r[j] == rest[j - 1];
          } else {
            assert r[i] == rest[i - 1] && r[j] == rest[j - 1];
          }
        }
      }
    }
  }

  /** Removing a book just appended to a list that did not hold it gives back the list. */
  lemma {:induction false} RemoveFirstOfAppended(s: seq<Book>, b: Book)
    requires b !in s
    ensures RemoveFirst(s + [b], b) == s
  {
    if s != [] {
      assert (s + [b])[1..] == s[1..] + [b];
      RemoveFirstOfAppended(s[1..], b);
    }
  }

  /** Appending a book that is not held keeps the list duplicate-free. */
  lemma AppendAbsentKeepsDistinct(s: seq<Book>, b: Book)
    requires NoDuplicates(s) && b !in s
    ensures NoDuplicates(s + [b])
  {
  }

  class Member {
    /** What the member has left to pay with, in cents. */
    var wallet: int
    /** The books the member currently holds, in the order they were borrowed. */
    var borrowedBooks: seq<Book>
    /** Resident or student, and for a student whether in the first year. */
    const category: Fees.Category

    ghost predicate Valid()
      reads this
    {
      NoDuplicates(borrowedBooks)
    }

    /** A resident, with an initial wallet that defaults to 0. */
    constructor Resident(initialWallet: int := 0)
      ensures Valid()
      ensures category == Fees.Resident && wallet == initialWallet && borrowedBooks == []
    {
      category := Fees.Resident;
      wallet := initialWallet;
      borrowedBooks := [];
    }

    /** A student, with an initial wallet that defaults to 0, not in the first year unless said so. */
    constructor Student(initialWallet: int := 0, isFirstYear: bool := false)
      ensures Valid()
      ensures category == Fees.Student(isFirstYear) && wallet == initialWallet && borrowedBooks == []
    {
      category := Fees.Student(isFirstYear);
      wallet := initialWallet;
      borrowedBooks := [];
    }

    function NumberOfDaysWhereConsideredLate(): nat
    {
      Fees.LateThreshold(category)
    }

    /** Records a borrowed book, unless it is already held. */
    method AddBorrowedBook(borrowedBook: Book)
      requires Valid()
      modifies this`borrowedBooks
      ensures Valid()
      ensures borrowedBooks == if borrowedBook in old(borrowedBooks) then old(borrowedBooks)
                               else old(borrowedBooks) + [borrowedBook]
    {
      if borrowedBook !in borrowedBooks {
        AppendAbsentKeepsDistinct(borrowedBooks, borrowedBook);
        borrowedBooks := borrowedBooks + [borrowedBook];
      }
    }

    /**
     * Pays for a book held `numberOfDays` days. The payment fails, leaving
     * the wallet as it was, when it would make the wallet negative; a
     * waived payment always succeeds.
     */
    method PayBook(numberOfDays: int) returns (r: Outcome<LibraryError>)
      modifies this`wallet
      ensures r == if Fees.CanPay(category, old(wallet), numberOfDays) then Pass
                   else Fail(CanNotPayBook(CannotPayMessage))
      ensures wallet == if r.Pass? then old(wallet) - Fees.Fee(category, numberOfDays) else old(wallet)
      ensures wallet == Fees.WalletAfterPayment(category, old(wallet), numberOfDays)
      ensures old(wallet) >= 0 ==> wallet >= 0
    {
      match category
      case Resident =>
        var moneyToPay := Fees.ResidentFee(numberOfDays);
        var newBalance := wallet - moneyToPay;
        if newBalance < 0 {
          return Fail(CanNotPayBook(CannotPayMessage));
        }
        wallet := newBalance;
        r := Pass;
      case Student(firstYear) =>
        if Fees.FreeForFirstYearUnderFifteenDays(firstYear, numberOfDays) {
          return Pass;
        }
        var moneyToPay := numberOfDays * Fees.DailyFee;
        var newBalance := wallet - moneyToPay;
        if newBalance < 0 {
          return Fail(CanNotPayBook(CannotPayMessage));
        }
        wallet := newBalance;
        r := Pass;
    }
  }
}
