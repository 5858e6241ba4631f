/**
 * The business rules of the façade functions `addBook`, `deleteBook`,
 * `borrowBook` and `returnBook`, stated over a snapshot of the three stores.
 * The browser prompts (`confirm`, `prompt`) and the clock reach them as
 * parameters; notifications become an `Outcome`.
 */
module Operations {
  import opened Wrappers
  import opened Text
  import opened Records
  import opened CatalogStore
  import opened RecentBuffer
  import opened BorrowLedger
  import opened Identifiers
  import opened Consistency

  /** Why an operation refused to act (the error notification it shows). */
  datatype Failure =
    | MissingFields     // "Please fill in all fields!"
    | NameRequired      // "Borrower name is required!"
    | NotFound          // "Book not found!"
    | AlreadyBorrowed   // "Book is already borrowed!"
    | NotBorrowed       // "Book is not borrowed!"
    | NotConfirmed      // the user dismissed the confirmation dialog
    | DeleteFailed      // "Failed to delete book!"

  datatype Outcome = Succeeded | Failed(reason: Failure)

  /** The three stores: catalog records, the recent-additions buffer, and the borrow ledger. */
  datatype Catalog = Catalog(books: seq<Book>, recent: seq<Book>, ledger: seq<BorrowEntry>)

  /** The record `addBook` and the import build: on the shelf, with no borrower and no date. */
  function NewRecord(id: string, title: string, author: string, category: string): Book
  {
    Book(id, title, author, category, AVAILABLE, None, None)
  }

  /**
   * `addBook`: title and author are trimmed, the category is taken as it is;
   * any of the three empty refuses. Otherwise a record under the next id for
   * the category is appended to the catalog and pushed on the recent buffer.
   */
  function Add(c: Catalog, title: string, author: string, category: string): (r: (Outcome, Catalog))
    ensures r.0.Failed? <==> Trim(title) == [] || Trim(author) == [] || category == []
    ensures r.0.Failed? ==> r.0.reason == MissingFields && r.1 == c
    ensures r.0.Succeeded? ==>
      && |r.1.books| == |c.books| + 1 && r.1.books[..|c.books|] == c.books
      && r.1.books[|c.books|] == NewRecord(NextId(c.books, category), Trim(title), Trim(author), category)
      && r.1.ledger == c.ledger
      && r.1.recent != [] && r.1.recent[|r.1.recent| - 1] == r.1.books[|c.books|]
    ensures |c.recent| <= MaxSize ==> |r.1.recent| <= MaxSize
    ensures r.0.Succeeded? && |c.recent| <= MaxSize ==> r.1.recent == Newest(c.recent + [r.1.books[|c.books|]], MaxSize)
  {
    var t, a := Trim(title), Trim(author);
    if t == [] || a == [] || category == [] then (Failed(MissingFields), c)
    else
      var b := NewRecord(NextId(c.books, category), t, a, category);
      var c' := Stored(c, b);
      assert c'.books[|c.books|] == b;
      (Succeeded, c')
  }

  /** `booksList.add(newBook)` and `recentlyAdded.push(newBook)` for a new record. */
  function Stored(c: Catalog, b: Book): (c': Catalog)
    requires b.status == AVAILABLE && b.borrower.None? && b.borrowDate.None?
    ensures c'.books == c.books + [b] && c'.ledger == c.ledger
    ensures c'.recent != [] && c'.recent[|c'.recent| - 1] == b
    ensures |c.recent| <= MaxSize ==> |c'.recent| <= MaxSize
    ensures |c.recent| <= MaxSize ==> c'.recent == Newest(c.recent + [b], MaxSize)
  {
    c.(books := c.books + [b], recent := PushBounded(c.recent, b))
  }

  /**
   * `deleteBook`: nothing happens unless confirmed; then the first record
   * with the id is unlinked and every ledger entry for the id is dropped, or
   * the deletion fails when no record has the id.
   */
  function Delete(c: Catalog, id: string, confirmed: bool): (r: (Outcome, Catalog))
    ensures r.0.Succeeded? <==> confirmed && exists i :: 0 <= i < |c.books| && c.books[i].id == id
    ensures !confirmed ==> r.0 == Failed(NotConfirmed)
    ensures confirmed && FirstIndex(c.books, id).None? ==> r.0 == Failed(DeleteFailed)
    ensures r.0.Failed? ==> r.1 == c
    ensures r.0.Succeeded? ==> |r.1.books| == |c.books| - 1 && r.1.recent == c.recent
    ensures r.0.Succeeded? ==> forall e :: e in r.1.ledger <==> e in c.ledger && e.bookId != id
    ensures r.0.Succeeded? ==> r.1.books == RemoveFirst(c.books, id) && r.1.ledger == KeepOthers(c.ledger, id)
  {
    if !confirmed then (Failed(NotConfirmed), c)
    else if FirstIndex(c.books, id).None? then (Failed(DeleteFailed), c)
    else (Succeeded, c.(books := RemoveFirst(c.books, id), ledger := KeepOthers(c.ledger, id)))
  }

  /** The first record with `id`, marked borrowed by `name` at `now`. */
  function BorrowedCopy(b: Book, name: string, now: string): Book
  {
    b.(status := BORROWED, borrower := Some(Trim(name)), borrowDate := Some(now))
  }

  /**
   * `borrowBook`: a missing or blank borrower name refuses first; then the
   * first record with the id must exist and be "Available". It is marked
   * borrowed in place and one ledger entry copied from it is enqueued.
   */
  function Borrow(c: Catalog, id: string, name: Option<string>, now: string): (r: (Outcome, Catalog))
    ensures name.None? || Trim(name.value) == [] ==> r.0 == Failed(NameRequired)
    ensures name.Some? && Trim(name.value) != [] && FirstIndex(c.books, id).None? ==> r.0 == Failed(NotFound)
    ensures (name.Some? && Trim(name.value) != [] && FirstIndex(c.books, id).Some?
             && c.books[FirstIndex(c.books, id).value].status != AVAILABLE) ==> r.0 == Failed(AlreadyBorrowed)
    ensures r.0.Succeeded? <==>
      && name.Some? && Trim(name.value) != []
      && FirstIndex(c.books, id).Some? && c.books[FirstIndex(c.books, id).value].status == AVAILABLE
    ensures r.0.Failed? ==> r.1 == c
    ensures r.0.Succeeded? ==>
      var k := FirstIndex(c.books, id).value;
      && |r.1.books| == |c.books|
      && (forall i :: 0 <= i < |c.books| && i != k ==> r.1.books[i] == c.books[i])
      && r.1.books[k].id == id && r.1.books[k].status == BORROWED
      && r.1.books[k].borrower == Some(Trim(name.value)) && r.1.books[k].borrowDate == Some(now)
      && r.1.books[k].title == c.books[k].title && r.1.books[k].author == c.books[k].author
      && r.1.books[k].category == c.books[k].category
      && r.1.ledger == c.ledger + [EntryOf(r.1.books[k])]
      && r.1.recent == c.recent
  {
    if name.None? || Trim(name.value) == [] then (Failed(NameRequired), c)
    else match FirstIndex(c.books, id)
      case None => (Failed(NotFound), c)
      case Some(k) =>
        if c.books[k].status != AVAILABLE then (Failed(AlreadyBorrowed), c)
        else
          var b := BorrowedCopy(c.books[k], name.value, now);
          (Succeeded, c.(books := c.books[k := b], ledger := c.ledger + [EntryOf(b)]))
  }

  /** The first record with `id`, back on the shelf. */
  function ReturnedCopy(b: Book): Book
  {
    b.(status := AVAILABLE, borrower := None, borrowDate := None)
  }

  /**
   * `returnBook`: the first record with the id must exist and be "Borrowed".
   * It is put back on the shelf in place and every ledger entry for the id is
   * dropped.
   */
  function Return(c: Catalog, id: string): (r: (Outcome, Catalog))
    ensures r.0.Succeeded? <==>
      FirstIndex(c.books, id).Some? && c.books[FirstIndex(c.books, id).value].status == BORROWED
    ensures FirstIndex(c.books, id).None? ==> r.0 == Failed(NotFound)
    ensures FirstIndex(c.books, id).Some? && c.books[FirstIndex(c.books, id).value].status != BORROWED
            ==> r.0 == Failed(NotBorrowed)
    ensures r.0.Failed? ==> r.1 == c
    ensures r.0.Succeeded? ==>
      var k := FirstIndex(c.books, id).value;
      && |r.1.books| == |c.books|
      && (forall i :: 0 <= i < |c.books| && i != k ==> r.1.books[i] == c.books[i])
      && r.1.books[k].id == id && r.1.books[k].status == AVAILABLE
      && r.1.books[k].borrower.None? && r.1.books[k].borrowDate.None?
      && r.1.books[k].title == c.books[k].title && r.1.books[k].author == c.books[k].author
      && r.1.books[k].category == c.books[k].category
      && (forall e :: e in r.1.ledger <==> e in c.ledger && e.bookId != id)
      && r.1.ledger == KeepOthers(c.ledger, id)
      && r.1.recent == c.recent
  {
    match FirstIndex(c.books, id)
    case None => (Failed(NotFound), c)
    case Some(k) =>
      if c.books[k].status != BORROWED then (Failed(NotBorrowed), c)
      else (Succeeded, c.(books := c.books[k := ReturnedCopy(c.books[k])], ledger := KeepOthers(c.ledger, id)))
  }

  /** With all three fields present, adding stores the new record under the next id. */
  lemma AddStores(c: Catalog, title: string, author: string, category: string)
    requires Trim(title) != [] && Trim(author) != [] && category != []
    ensures Add(c, title, author, category)
         == (Succeeded, Stored(c, NewRecord(NextId(c.books, category), Trim(title), Trim(author), category)))
  {
  }

  /** Adding a book keeps the catalog and the ledger in agreement. */
  lemma AddKeepsConsistent(c: Catalog, title: string, author: string, category: string)
    requires Consistent(c.books, c.ledger)
    ensures var c' := Add(c, title, author, category).1; Consistent(c'.books, c'.ledger)
  {
    var r := Add(c, title, author, category);
    if r.0.Succeeded? {
      var b := r.1.books[|c.books|];
      assert r.1.books == c.books + [b];
      AppendAvailableKeepsConsistent(c.books, c.ledger, b);
    }
  }

  /** Adding a book under a category code of at most two characters keeps the ids well numbered. */
  lemma AddKeepsWellNumbered(c: Catalog, title: string, author: string, category: string)
    requires WellNumbered(c.books) && |category| <= 2
    ensures WellNumbered(Add(c, title, author, category).1.books)
  {
    var r := Add(c, title, author, category);
    if r.0.Succeeded? {
      var b := r.1.books[|c.books|];
      assert r.1.books == c.books + [b];
      NextIdKeepsWellNumbered(c.books, category, b);
    }
  }

  /** Deleting a book keeps the catalog and the ledger in agreement. */
  lemma DeleteKeepsConsistent(c: Catalog, id: string, confirmed: bool)
    requires Consistent(c.books, c.ledger)
    ensures var c' := Delete(c, id, confirmed).1; Consistent(c'.books, c'.ledger)
  {
    var r := Delete(c, id, confirmed);
    if r.0.Succeeded? {
      var k := FirstIndex(c.books, id).value;
      assert r.1.books == c.books[..k] + c.books[k + 1..];
      assert r.1.ledger == KeepOthers(c.ledger, c.books[k].id);
      RemoveKeepsConsistent(c.books, c.ledger, k);
    }
  }

  /** Borrowing a book keeps the catalog and the ledger in agreement. */
  lemma BorrowKeepsConsistent(c: Catalog, id: string, name: Option<string>, now: string)
    requires Consistent(c.books, c.ledger)
    ensures var c' := Borrow(c, id, name, now).1; Consistent(c'.books, c'.ledger)
  {
    var r := Borrow(c, id, name, now);
    if r.0.Succeeded? {
      var k := FirstIndex(c.books, id).value;
      var b := r.1.books[k];
      assert r.1.books == c.books[k := b];
      BorrowRecordKeepsConsistent(c.books, c.ledger, k, b);
    }
  }

  /** Returning a book keeps the catalog and the ledger in agreement. */
  lemma ReturnKeepsConsistent(c: Catalog, id: string)
    requires Consistent(c.books, c.ledger)
    ensures var c' := Return(c, id).1; Consistent(c'.books, c'.ledger)
  {
    var r := Return(c, id);
    if r.0.Succeeded? {
      var k := FirstIndex(c.books, id).value;
      var b := r.1.books[k];
      assert r.1.books == c.books[k := b];
      ReturnRecordKeepsConsistent(c.books, c.ledger, k, b);
    }
  }

  /** Borrowing changes no id, so a well-numbered catalog stays well numbered. */
  lemma BorrowKeepsWellNumbered(c: Catalog, id: string, name: Option<string>, now: string)
    requires WellNumbered(c.books)
    ensures WellNumbered(Borrow(c, id, name, now).1.books)
  {
    var r := Borrow(c, id, name, now);
    if r.0.Succeeded? {
      var k := FirstIndex(c.books, id).value;
      assert r.1.books == c.books[k := r.1.books[k]];
      UpdateKeepsWellNumbered(c.books, k, r.1.books[k]);
    }
  }

  /** Returning changes no id, so a well-numbered catalog stays well numbered. */
  lemma ReturnKeepsWellNumbered(c: Catalog, id: string)
    requires WellNumbered(c.books)
    ensures WellNumbered(Return(c, id).1.books)
  {
    var r := Return(c, id);
    if r.0.Succeeded? {
      var k := FirstIndex(c.books, id).value;
      assert r.1.books == c.books[k := r.1.books[k]];
      UpdateKeepsWellNumbered(c.books, k, r.1.books[k]);
    }
  }

  /** Adding "Dune" by Herbert in category "04" to an empty library files it as 04001, on the shelf. */
  lemma AddExample(c: Catalog, title: string, author: string, category: string)
    requires c == Catalog([], [], []) && title == "Dune" && author == "Herbert" && category == "04"
    ensures Add(c, title, author, category)
         == (Succeeded, Catalog([NewRecord("04001", "Dune", "Herbert", "04")],
                                [NewRecord("04001", "Dune", "Herbert", "04")], []))
  {
    AddExampleFacts();
    var b := NewRecord("04001", "Dune", "Herbert", "04");
    assert Add(c, title, author, category) == (Succeeded, Stored(c, b));
  }

  lemma AddExampleFacts()
    ensures Trim("Dune") == "Dune" && Trim("Herbert") == "Herbert" && NextId([], "04") == "04001"
  {
    DuneTrimmed();
    HerbertTrimmed();
    FirstIdExample();
  }

  lemma DuneTrimmed()
    ensures Trim("Dune") == "Dune"
  {
    TrimKeepsTrimmed("Dune");
  }

  lemma HerbertTrimmed()
    ensures Trim("Herbert") == "Herbert"
  {
    TrimKeepsTrimmed("Herbert");
  }

  lemma FirstIdExample()
    ensures NextId([], "04") == "04001"
  {
    assert Prefix("04") == "04";
    assert RunningNumber(1) == "001" by { assert NatToString(1) == "1"; }
  }

  /** A book someone has just borrowed cannot be borrowed again; the second attempt changes nothing. */
  lemma BorrowTwiceFails(c: Catalog, id: string, first: Option<string>, second: Option<string>, t1: string, t2: string)
    requires Borrow(c, id, first, t1).0 == Succeeded
    ensures var c1 := Borrow(c, id, first, t1).1;
      && Borrow(c1, id, second, t2).1 == c1
      && Borrow(c1, id, second, t2).0 == if second.None? || Trim(second.value) == [] then Failed(NameRequired) else Failed(AlreadyBorrowed)
  {
    var c1 := Borrow(c, id, first, t1).1;
    var k := FirstIndex(c.books, id).value;
    assert c1.books == c.books[k := c1.books[k]];
    FirstIndexAfterUpdate(c.books, k, c1.books[k], id);
  }

  /** A successful borrow leaves exactly one ledger entry for the book: the one it enqueued. */
  lemma BorrowLeavesOneEntry(c: Catalog, id: string, name: Option<string>, now: string)
    requires Consistent(c.books, c.ledger)
    requires Borrow(c, id, name, now).0 == Succeeded
    ensures var c1 := Borrow(c, id, name, now).1;
      && EntriesFor(c1.ledger, id) == [EntryOf(c1.books[FirstIndex(c.books, id).value])]
      && EntriesFor(c1.ledger, id)[0].borrower == Trim(name.value)
  {
    var c1 := Borrow(c, id, name, now).1;
    var k := FirstIndex(c.books, id).value;
    BorrowKeepsConsistent(c, id, name, now);
    OneEntryPerBorrowedBook(c1.books, c1.ledger, id);
    var e := EntryOf(c1.books[k]);
    EntriesForAppend(c.ledger, [e], id);
    assert EntriesFor([e], id) == [e];
  }

  /**
   * After Alice borrows a book and Bob tries to borrow it too, a consistent
   * ledger holds exactly one entry for the book, and it names Alice.
   */
  lemma BorrowTwiceLedgerExample(c: Catalog, id: string, t1: string, t2: string)
    requires Consistent(c.books, c.ledger)
    requires Borrow(c, id, Some("Alice"), t1).0 == Succeeded
    ensures var c2 := Borrow(Borrow(c, id, Some("Alice"), t1).1, id, Some("Bob"), t2).1;
      |EntriesFor(c2.ledger, id)| == 1 && EntriesFor(c2.ledger, id)[0].borrower == "Alice"
  {
    var c1 := Borrow(c, id, Some("Alice"), t1).1;
    BorrowTwiceFails(c, id, Some("Alice"), Some("Bob"), t1, t2);
    assert Borrow(c1, id, Some("Bob"), t2).1 == c1;
    BorrowLeavesOneEntry(c, id, Some("Alice"), t1);
    AliceTrimmed();
  }

  lemma AliceTrimmed()
    ensures Trim("Alice") == "Alice"
  {
    TrimKeepsTrimmed("Alice");
  }
}
