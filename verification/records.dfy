/** The records the catalog keeps: book records and borrow entries. */
module Records {
  import opened Wrappers

  const AVAILABLE := "Available"
  const BORROWED := "Borrowed"

  /**
   * A book record (a `BookNode` without its `next` link). Ids are text of the
   * form category code + running number; `borrower` and `borrowDate` are
   * `null` (None) while the book is on the shelf.
   */
  datatype Book = Book(
    id: string,
    title: string,
    author: string,
    category: string,
    status: string,
    borrower: Option<string>,
    borrowDate: Option<string>)

  /** One line of the borrow ledger: a copy of the borrowed book's fields taken at borrow time. */
  datatype BorrowEntry = BorrowEntry(
    bookId: string,
    title: string,
    author: string,
    category: string,
    borrower: string,
    borrowDate: string)
}
