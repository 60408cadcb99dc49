/** Books as the lending ledger sees them, and the dates it records. */
module Books {

  datatype Option<+T> = None | Some(value: T)

  /** An ISBN wraps an integer code; two ISBNs are equal when their codes are. */
  datatype Isbn = Isbn(code: int)

  /**
   * A catalogued book. Two books are the same book exactly when their ISBNs
   * are equal, so the ISBN is all the value carries; the ISBN itself may be
   * missing (a catalogue record without one).
   */
  datatype Book = Book(isbn: Option<Isbn>)

  /** A calendar date, as a day number; the days between two dates is their difference. */
  type Day = int
}
