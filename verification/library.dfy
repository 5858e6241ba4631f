/**
 * The page's three stores, `booksList`, `recentlyAdded` and `borrowQueue`,
 * and the façade functions that change them in place. Each method does what
 * the source does step by step and is proved to leave the stores as the
 * matching operation on values says; the agreement between catalog and
 * ledger is part of the object's invariant.
 */
module Library {
  import opened Wrappers
  import opened Seqs
  import opened Text
  import opened Records
  import opened CatalogStore
  import opened RecentBuffer
  import opened BorrowLedger
  import opened Identifiers
  import opened Consistency
  import opened Operations
  import opened SheetImport

  class Library {
    const books: BookLinkedList
    const recent: BookStack
    const queue: BorrowQueue

    /**
     * The recent buffer holds at most five records, and the ledger holds one
     * entry per borrowed record.
     */
    ghost predicate Valid()
      reads this, books, recent, queue
    {
      && recent.Valid()
      && Consistent(books.nodes, queue.items)
    }

    /** The contents of the three stores. */
    function State(): (c: Catalog)
      reads this, books, recent, queue
      ensures c.books == books.nodes && c.recent == recent.items && c.ledger == queue.items
    {
      Catalog(books.nodes, recent.items, queue.items)
    }

    /** Three empty stores. */
    constructor ()
      ensures Valid() && State() == Catalog([], [], [])
      ensures fresh(books) && fresh(recent) && fresh(queue)
    {
      books := new BookLinkedList();
      recent := new BookStack();
      queue := new BorrowQueue();
    }

    /**
     * `generateBookId`: the code padded to two characters, then one more than
     * the number of catalog ids with that prefix, counted over `toArray()`,
     * padded to three digits.
     */
    method GenerateBookId(code: string) returns (id: string)
      ensures id == NextId(books.nodes, code)
    {
      var category := PadStart(code, 2);
      var count := 0;
      var all := books.ToArray();
      var i := 0;
      while i < |all|
        invariant 0 <= i <= |all|
        invariant count == CountWithPrefix(all[..i], category)
      {
        TakeTake(all, i, i + 1);
        if StartsWith(all[i].id, category) {
          count := count + 1;
        }
        i := i + 1;
      }
      TakeAll(all);
      id := category + PadStart(NatToString(count + 1), 3);
    }

    /**
     * `addBook`: trimmed title and author and a category are required; the
     * new record goes on the catalog and on the recent buffer.
     */
    method AddBook(title: string, author: string, category: string) returns (outcome: Outcome)
      requires Valid()
      modifies books, recent
      ensures Valid()
      ensures (outcome, State()) == Add(old(State()), title, author, category)
    {
      ghost var c := State();
      var t, a := Trim(title), Trim(author);
      if t == [] || a == [] || category == [] {
        return Failed(MissingFields);
      }
      var id := GenerateBookId(category);
      Store(NewRecord(id, t, a, category));
      outcome := Succeeded;
      AddStores(c, title, author, category);
    }

    /** `booksList.add(newBook)` followed by `recentlyAdded.push(newBook)` for a record on the shelf. */
    method Store(book: Book)
      requires Valid()
      requires book.status == AVAILABLE && book.borrower.None? && book.borrowDate.None?
      modifies books, recent
      ensures Valid()
      ensures State() == Stored(old(State()), book)
    {
      ghost var c := State();
      assert NodeFor(book) == book;
      books.Add(book);
      recent.Push(book);
      AppendAvailableKeepsConsistent(c.books, c.ledger, book);
    }

    /**
     * `deleteBook`: once confirmed, the first record with the id is unlinked
     * and, when there was one, every ledger entry for the id is dropped.
     */
    method DeleteBook(id: string, confirmed: bool) returns (outcome: Outcome)
      requires Valid()
      modifies books, queue
      ensures Valid()
      ensures (outcome, State()) == Delete(old(State()), id, confirmed)
    {
      ghost var c := State();
      if !confirmed {
        return Failed(NotConfirmed);
      }
      var removed := books.Remove(id);
      if removed {
        queue.RemoveByBookId(id);
        outcome := Succeeded;
      } else {
        outcome := Failed(DeleteFailed);
      }
      DeleteKeepsConsistent(c, id, confirmed);
    }

    /**
     * `borrowBook`: with a non-blank name, the record `find` reaches must be
     * on the shelf; it is marked borrowed in place and its entry enqueued.
     */
    method BorrowBook(id: string, name: Option<string>, now: string) returns (outcome: Outcome)
      requires Valid()
      modifies books, queue
      ensures Valid()
      ensures (outcome, State()) == Borrow(old(State()), id, name, now)
    {
      ghost var c := State();
      if name.None? || Trim(name.value) == [] {
        return Failed(NameRequired);
      }
      var k := books.Find(id);
      if k.None? {
        return Failed(NotFound);
      }
      var book := books.nodes[k.value];
      if book.status != AVAILABLE {
        return Failed(AlreadyBorrowed);
      }
      var borrowed := BorrowedCopy(book, name.value, now);
      books.UpdateNode(k.value, borrowed);
      queue.Enqueue(EntryOf(borrowed));
      outcome := Succeeded;
      BorrowKeepsConsistent(c, id, name, now);
    }

    /**
     * `returnBook`: the record `find` reaches must be borrowed; it is put back
     * on the shelf in place and every ledger entry for the id is dropped.
     */
    method ReturnBook(id: string) returns (outcome: Outcome)
      requires Valid()
      modifies books, queue
      ensures Valid()
      ensures (outcome, State()) == Return(old(State()), id)
    {
      ghost var c := State();
      var k := books.Find(id);
      if k.None? {
        return Failed(NotFound);
      }
      var book := books.nodes[k.value];
      if book.status != BORROWED {
        return Failed(NotBorrowed);
      }
      books.UpdateNode(k.value, ReturnedCopy(book));
      queue.RemoveByBookId(id);
      outcome := Succeeded;
      ReturnKeepsConsistent(c, id);
    }

    /**
     * One pass of the row loop of `handleExcelImport`: a row that passes the
     * checks is added under the next id of its category.
     */
    method ImportSheetRow(row: SheetRow) returns (imported: bool)
      requires Valid()
      modifies books, recent
      ensures Valid()
      ensures (imported, State()) == ImportRow(old(State()), row)
    {
      match ParseRowAsWritten(row) {
        case None =>
          imported := false;
        case Some(f) =>
          var id := GenerateBookId(f.code);
          Store(NewRecord(id, f.title, f.author, f.code));
          imported := true;
      }
    }

    /**
     * The row loop of `handleExcelImport`, counting the rows imported and the
     * rows refused.
     */
    method ImportRows(rows: seq<SheetRow>) returns (imported: nat, errors: nat)
      requires Valid()
      modifies books, recent
      ensures Valid()
      ensures Report(imported, errors, State()) == Import(old(State()), rows)
    {
      ghost var c := State();
      imported, errors := 0, 0;
      var i := 0;
      while i < |rows|
        invariant 0 <= i <= |rows|
        invariant Valid()
        invariant Report(imported, errors, State()) == Import(c, rows[..i])
      {
        ghost var before := Import(c, rows[..i]);
        assert before.imported == imported && before.errors == errors;
        var ok := ImportSheetRow(rows[i]);
        ImportStep(c, rows, i, ok, State());
        imported, errors := imported + (if ok then 1 else 0), errors + (if ok then 0 else 1);
        assert Import(c, rows[..i + 1]) == Report(imported, errors, State());
        i := i + 1;
      }
      TakeAll(rows);
    }
  }
}
