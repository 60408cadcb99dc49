/** The three failures of the lending core, as values instead of exceptions. */
module Errors {

  datatype Result<+T, +E> = Ok(value: T) | Err(error: E)

  datatype Outcome<+E> = Pass | Fail(error: E)

  datatype LibraryError =
    | HasLateBooks(message: string)
    | CanNotPayBook(message: string)
    | CanNotReturnBook(message: string)

  const LateBooksMessage: string := "Member has late books."
  const CannotPayMessage: string := "Member can't pay the book."
}
