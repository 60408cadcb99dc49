/**
 * The lending ledger: an in-memory store of the books on the shelf, keyed
 * by ISBN, and of the books on loan with the date each was borrowed.
 */
module BookRepositories {
  import opened Books

  /** The books on the shelf, keyed by ISBN (a missing ISBN is a key like any other). */
  type Shelf = map<Option<Isbn>, Book>

  /** The books on loan, each with the day it was borrowed. */
  type Loans = map<Book, Day>

  /** Every shelf entry is filed under the book's own ISBN. */
  predicate KeyedByIsbn(shelf: Shelf)
  {
    forall k :: k in shelf ==> shelf[k].isbn == k
  }

  /** The shelf after adding one catalogue entry: a null book or a book without ISBN is dropped. */
  function Shelved(shelf: Shelf, book: Option<Book>): Shelf
  {
    if book.Some? && book.value.isbn.Some? then shelf[book.value.isbn := book.value] else shelf
  }

  /** The shelf after adding catalogue entries one by one, in order. */
  function ShelvedAll(shelf: Shelf, books: seq<Option<Book>>): Shelf
  {
    if books == [] then shelf
    else Shelved(ShelvedAll(shelf, books[..|books| - 1]), books[|books| - 1])
  }

  /** The ISBNs a list of catalogue entries would add: those of the books that have one. */
  function IsbnsOf(books: seq<Option<Book>>): set<Option<Isbn>>
  {
    set i | 0 <= i < |books| && books[i].Some? && books[i].value.isbn.Some? :: books[i].value.isbn
  }

  /** Entries that are null or have no ISBN leave the shelf as it was. */
  lemma {:induction false} ShelvingRejectedEntriesChangesNothing(shelf: Shelf, books: seq<Option<Book>>)
    requires forall i :: 0 <= i < |books| ==> books[i].None? || books[i].value.isbn.None?
    ensures ShelvedAll(shelf, books) == shelf
  {
    if books != [] {
      ShelvingRejectedEntriesChangesNothing(shelf, books[..|books| - 1]);
    }
  }

  /** Shelving only adds keys: those of the shelf and those of the entries. */
  lemma {:induction false} ShelvedAllKeys(shelf: Shelf, books: seq<Option<Book>>)
    ensures shelf.Keys <= ShelvedAll(shelf, books).Keys <= shelf.Keys + IsbnsOf(books)
  {
    if books != [] {
      var n := |books| - 1;
      ShelvedAllKeys(shelf, books[..n]);
      assert IsbnsOf(books[..n]) <= IsbnsOf(books) by {
        forall k | k in IsbnsOf(books[..n]) ensures k in IsbnsOf(books) {
          var i :| 0 <= i < n && books[..n][i].Some? && books[..n][i].value.isbn.Some? && books[..n][i].value.isbn == k;
          assert books[i] == books[..n][i];
        }
      }
      if books[n].Some? && books[n].value.isbn.Some? {
        assert books[n].value.isbn in IsbnsOf(books);
      }
    }
  }

  /**
   * Adding n entries with distinct ISBNs that are not on the shelf yet
   * grows the shelf by exactly n.
   */
  lemma {:induction false} ShelvingNewIsbnsGrowsShelf(shelf: Shelf, books: seq<Option<Book>>)
    requires forall i :: 0 <= i < |books| ==> books[i].Some? && books[i].value.isbn.Some?
    requires forall i :: 0 <= i < |books| ==> books[i].value.isbn !in shelf
    requires forall i, j :: 0 <= i < j < |books| ==> books[i].value.isbn != books[j].value.isbn
    ensures |ShelvedAll(shelf, books)| == |shelf| + |books|
  {
    if books != [] {
      var n := |books| - 1;
      var prefix := books[..n];
      ShelvingNewIsbnsGrowsShelf(shelf, prefix);
      ShelvedAllKeys(shelf, prefix);
      var last := books[n].value.isbn;
      assert last !in IsbnsOf(prefix);
      assert last !in ShelvedAll(shelf, prefix);
    }
  }

  /**
   * Lending a book off the shelf and taking it back restores both maps,
   * when the book was on the shelf and not already on loan.
   */
  lemma LendThenReturnRestores(shelf: Shelf, loans: Loans, book: Book, borrowedAt: Day)
    requires book.isbn in shelf && shelf[book.isbn] == book && book !in loans
    ensures (shelf - {book.isbn})[book.isbn := book] == shelf
    ensures loans[book := borrowedAt] - {book} == loans
  {
  }

  class BookRepository {
    var availableBooks: Shelf
    var borrowedBooks: Loans

    ghost predicate Valid()
      reads this
    {
      KeyedByIsbn(availableBooks)
    }

    /** No book is both on the shelf and on loan. */
    ghost predicate Disjoint()
      reads this
    {
      forall b :: b in borrowedBooks ==> b.isbn !in availableBooks
    }

    constructor ()
      ensures Valid() && Disjoint()
      ensures availableBooks == map[] && borrowedBooks == map[]
    {
      availableBooks := map[];
      borrowedBooks := map[];
    }

    /** Adds each catalogue entry in turn, exactly as `AddBook` would. */
    method AddBooks(books: seq<Option<Book>>)
      requires Valid()
      modifies this`availableBooks
      ensures Valid()
      ensures availableBooks == ShelvedAll(old(availableBooks), books)
    {
      for i := 0 to |books|
        invariant Valid()
        invariant availableBooks == ShelvedAll(old(availableBooks), books[..i])
      {
        AddBook(books[i]);
        assert books[..i + 1][..i] == books[..i];
      }
      assert books[..|books|] == books;
    }

    /**
     * Puts a book on the shelf under its ISBN, replacing any book filed
     * there; a null book or a book without ISBN is silently dropped.
     */
    method AddBook(book: Option<Book>)
      requires Valid()
      modifies this`availableBooks
      ensures Valid()
      ensures book.None? || book.value.isbn.None? ==> availableBooks == old(availableBooks)
      ensures book.Some? && book.value.isbn.Some? ==>
                availableBooks == old(availableBooks)[book.value.isbn := book.value]
      ensures old(Disjoint()) && (book.None? || book.value.isbn.None? || book.value !in borrowedBooks) ==> Disjoint()
    {
      if book.Some? && book.value.isbn.Some? {
        availableBooks := availableBooks[book.value.isbn := book.value];
      }
    }

    /** The book on the shelf under the ISBN with this code, if there is one. */
    method FindAvailableBook(isbnCode: int) returns (r: Option<Book>)
      requires Valid()
      ensures r.None? <==> Some(Isbn(isbnCode)) !in availableBooks
      ensures r.Some? ==> r.value == availableBooks[Some(Isbn(isbnCode))]
                          && r.value.isbn == Some(Isbn(isbnCode))
    {
      var isbn := Some(Isbn(isbnCode));
      r := if isbn in availableBooks then Some(availableBooks[isbn]) else None;
    }

    /**
     * Records a book as on loan since `borrowedAt` and takes it off the
     * shelf. Whether it was on the shelf is not checked.
     */
    method SaveBorrowedBook(book: Book, borrowedAt: Day)
      requires Valid()
      modifies this
      ensures Valid()
      ensures borrowedBooks == old(borrowedBooks)[book := borrowedAt]
      ensures availableBooks == old(availableBooks) - {book.isbn}
      ensures old(Disjoint()) ==> Disjoint()
    {
      borrowedBooks := borrowedBooks[book := borrowedAt];
      availableBooks := availableBooks - {book.isbn};
    }

    /** The day the book was borrowed, if it is on loan. */
    method FindBorrowedBookDate(book: Book) returns (r: Option<Day>)
      ensures r.Some? <==> book in borrowedBooks
      ensures r.Some? ==> r.value == borrowedBooks[book]
    {
      r := if book in borrowedBooks then Some(borrowedBooks[book]) else None;
    }

    /** Ends a loan and puts the book back on the shelf under its ISBN. */
    method MakeBorrowedBookAvailable(book: Book)
      requires Valid()
      modifies this
      ensures Valid()
      ensures borrowedBooks == old(borrowedBooks) - {book}
      ensures availableBooks == old(availableBooks)[book.isbn := book]
      ensures old(Disjoint()) ==> Disjoint()
    {
      borrowedBooks := borrowedBooks - {book};
      availableBooks := availableBooks[book.isbn := book];
    }
  }
}
