/**
 * The read-only views of the façade: the rows a page lists, the filter of
 * `searchBooks` and the key choice of `sortBooks`. The page comes in as a
 * parameter in place of `getCurrentPage`; rendering is not modelled.
 */
module Browse {
  import opened Seqs
  import opened Text
  import opened Records
  import opened Categories
  import opened Ordering
  import opened Operations

  /** The page the user is on: "borrow", "return", or any other page (which lists the whole catalog). */
  datatype Page = BorrowPage | ReturnPage | CatalogPage

  /** A listed item: a catalog record, or an entry of the borrow ledger on the return page. */
  datatype Row = BookRow(book: Book) | EntryRow(entry: BorrowEntry)

  /** The test of `.filter(b => b.status === "Available")`. */
  predicate OnShelf(b: Book)
  {
    b.status == AVAILABLE
  }

  function BookRows(bs: seq<Book>): (r: seq<Row>)
    ensures |r| == |bs| && forall i :: 0 <= i < |bs| ==> r[i] == BookRow(bs[i])
  {
    seq(|bs|, i requires 0 <= i < |bs| => BookRow(bs[i]))
  }

  function EntryRows(q: seq<BorrowEntry>): (r: seq<Row>)
    ensures |r| == |q| && forall i :: 0 <= i < |q| ==> r[i] == EntryRow(q[i])
  {
    seq(|q|, i requires 0 <= i < |q| => EntryRow(q[i]))
  }

  /** The data both `searchBooks` and `sortBooks` start from: available records, the ledger, or the whole catalog. */
  function PageRows(c: Catalog, page: Page): (r: seq<Row>)
    ensures page == BorrowPage ==> forall row :: row in r <==> row.BookRow? && row.book in c.books && row.book.status == AVAILABLE
    ensures page == ReturnPage ==> forall row :: row in r <==> row.EntryRow? && row.entry in c.ledger
    ensures page == CatalogPage ==> forall row :: row in r <==> row.BookRow? && row.book in c.books
    ensures page == CatalogPage ==> |r| == |c.books| && forall i :: 0 <= i < |r| ==> r[i] == BookRow(c.books[i])
    ensures page == ReturnPage ==> |r| == |c.ledger| && forall i :: 0 <= i < |r| ==> r[i] == EntryRow(c.ledger[i])
  {
    match page
    case BorrowPage => BookRows(Filter(c.books, OnShelf))
    case ReturnPage => EntryRows(c.ledger)
    case CatalogPage => BookRows(c.books)
  }

  /** A record is listed as often as it occurs in the list. */
  lemma {:induction false} BookRowsCount(bs: seq<Book>, b: Book)
    ensures multiset(BookRows(bs))[BookRow(b)] == multiset(bs)[b]
  {
    if bs != [] {
      var init := bs[..|bs| - 1];
      assert bs == init + [bs[|bs| - 1]];
      assert BookRows(bs) == BookRows(init) + [BookRow(bs[|bs| - 1])];
      BookRowsCount(init, b);
    }
  }

  /** The borrow page lists each available record as often as the catalog holds it, and nothing else. */
  lemma BorrowPageCount(c: Catalog, b: Book)
    ensures multiset(PageRows(c, BorrowPage))[BookRow(b)] == if b.status == AVAILABLE then multiset(c.books)[b] else 0
  {
    BookRowsCount(Filter(c.books, OnShelf), b);
    FilterCount(c.books, OnShelf, b);
  }

  /** The borrow page of two runs of records is the borrow page of each run, in list order. */
  lemma BorrowPageKeepsOrder(c: Catalog, a: seq<Book>, b: seq<Book>)
    ensures PageRows(c.(books := a + b), BorrowPage) == PageRows(c.(books := a), BorrowPage) + PageRows(c.(books := b), BorrowPage)
  {
    FilterAppend(a, b, OnShelf);
    var fa, fb := Filter(a, OnShelf), Filter(b, OnShelf);
    assert BookRows(fa + fb) == BookRows(fa) + BookRows(fb);
  }

  /** `(item.id || item.bookId || "").toString().toLowerCase()`. */
  function IdText(row: Row): string
  {
    match row
    case BookRow(b) => Lower(b.id)
    case EntryRow(e) => Lower(e.bookId)
  }

  function TitleText(row: Row): string
  {
    match row
    case BookRow(b) => Lower(b.title)
    case EntryRow(e) => Lower(e.title)
  }

  function AuthorText(row: Row): string
  {
    match row
    case BookRow(b) => Lower(b.author)
    case EntryRow(e) => Lower(e.author)
  }

  /** The lower-cased category name, "unknown" for a code outside the table. */
  function CategoryText(row: Row): string
  {
    match row
    case BookRow(b) => Lower(CategoryName(b.category))
    case EntryRow(e) => Lower(CategoryName(e.category))
  }

  /** `(item.borrower || "").toLowerCase()`: a record on the shelf has no borrower. */
  function BorrowerText(row: Row): string
  {
    match row
    case BookRow(b) => if b.borrower.Some? then Lower(b.borrower.value) else ""
    case EntryRow(e) => Lower(e.borrower)
  }

  /** The filter predicate: some one of the five fields contains the term. */
  predicate Matches(row: Row, term: string)
  {
    || Contains(IdText(row), term) || Contains(TitleText(row), term) || Contains(AuthorText(row), term)
    || Contains(CategoryText(row), term) || Contains(BorrowerText(row), term)
  }

  /**
   * `searchBooks`: the input is lower-cased and trimmed; an empty term lists
   * the page's rows as they are, any other term keeps the matching rows.
   */
  function Search(c: Catalog, page: Page, input: string): (r: seq<Row>)
    ensures Trim(Lower(input)) == [] ==> r == PageRows(c, page)
    ensures Trim(Lower(input)) != [] ==>
      forall row :: row in r <==> row in PageRows(c, page) && Matches(row, Trim(Lower(input)))
    ensures |r| <= |PageRows(c, page)|
  {
    var term := Trim(Lower(input));
    var rows := PageRows(c, page);
    if term == [] then rows else Filter(rows, (row: Row) => Matches(row, term))
  }

  /**
   * The search lists each row of the page as often as the page does when the
   * term is empty or the row matches it, and not at all otherwise.
   */
  lemma SearchCount(c: Catalog, page: Page, input: string, row: Row)
    ensures multiset(Search(c, page, input))[row]
         == if Trim(Lower(input)) == [] || Matches(row, Trim(Lower(input))) then multiset(PageRows(c, page))[row] else 0
  {
    var term := Trim(Lower(input));
    if term != [] {
      FilterCount(PageRows(c, page), (r: Row) => Matches(r, term), row);
    }
  }

  /**
   * The search keeps the page's order: searching a catalog made of two runs
   * of records lists the hits of the first run before those of the second.
   */
  lemma SearchKeepsOrder(c: Catalog, a: seq<Book>, b: seq<Book>, input: string)
    ensures Search(c.(books := a + b), CatalogPage, input)
         == Search(c.(books := a), CatalogPage, input) + Search(c.(books := b), CatalogPage, input)
  {
    var term := Trim(Lower(input));
    assert BookRows(a + b) == BookRows(a) + BookRows(b);
    if term != [] {
      FilterAppend(BookRows(a), BookRows(b), (row: Row) => Matches(row, term));
    }
  }

  /** The same on the return page: the ledger's hits come out in ledger order. */
  lemma SearchKeepsLedgerOrder(c: Catalog, p: seq<BorrowEntry>, q: seq<BorrowEntry>, input: string)
    ensures Search(c.(ledger := p + q), ReturnPage, input)
         == Search(c.(ledger := p), ReturnPage, input) + Search(c.(ledger := q), ReturnPage, input)
  {
    var term := Trim(Lower(input));
    assert EntryRows(p + q) == EntryRows(p) + EntryRows(q);
    if term != [] {
      FilterAppend(EntryRows(p), EntryRows(q), (row: Row) => Matches(row, term));
    }
  }

  /** Search ignores letter case in the query. */
  lemma SearchIgnoresCase(c: Catalog, page: Page, input: string)
    ensures Search(c, page, Lower(input)) == Search(c, page, input)
  {
    LowerIdempotent(input);
  }

  /** A record can always be found by typing its id, when the id is a run of digits. */
  lemma SearchFindsById(c: Catalog, page: Page, b: Book)
    requires BookRow(b) in PageRows(c, page)
    requires b.id != [] && IsDigits(b.id)
    ensures BookRow(b) in Search(c, page, b.id)
  {
    DigitsLowered(b.id);
    TrimKeepsTrimmed(b.id);
    var term := Trim(Lower(b.id));
    assert term == b.id;
    assert Matches(BookRow(b), term) by {
      assert StartsWith(IdText(BookRow(b)), term);
    }
  }

  lemma DigitsLowered(s: string)
    requires IsDigits(s)
    ensures Lower(s) == s
  {
  }

  /** On the borrow page only records on the shelf are ever listed, whatever the query. */
  lemma BorrowSearchOnlyOnShelf(c: Catalog, input: string, row: Row)
    requires row in Search(c, BorrowPage, input)
    ensures row.BookRow? && row.book in c.books && row.book.status == AVAILABLE
  {
  }

  /** The field `sortBooks` sorts by: on the return page "id" means the ledger's "bookId". */
  function SortKeyFor(page: Page, sortBy: string): (field: string)
    ensures page == ReturnPage && sortBy == "id" ==> field == "bookId"
    ensures !(page == ReturnPage && sortBy == "id") ==> field == sortBy
  {
    if page == ReturnPage && sortBy == "id" then "bookId" else sortBy
  }

  /**
   * `item[key]`: a text field gives its text, an empty borrower or date on a
   * record gives `null`, and a field the row does not have gives `undefined`.
   */
  function RowField(row: Row, field: string): (k: Key)
    ensures k.Num? == false
  {
    match row
    case BookRow(b) =>
      if field == "id" then Str(b.id)
      else if field == "title" then Str(b.title)
      else if field == "author" then Str(b.author)
      else if field == "category" then Str(b.category)
      else if field == "status" then Str(b.status)
      else if field == "borrower" then (if b.borrower.Some? then Str(b.borrower.value) else Null)
      else if field == "borrowDate" then (if b.borrowDate.Some? then Str(b.borrowDate.value) else Null)
      else Undefined
    case EntryRow(e) =>
      if field == "bookId" then Str(e.bookId)
      else if field == "title" then Str(e.title)
      else if field == "author" then Str(e.author)
      else if field == "category" then Str(e.category)
      else if field == "borrower" then Str(e.borrower)
      else if field == "borrowDate" then Str(e.borrowDate)
      else Undefined
  }

  /** The key function handed to the tree sort. */
  function FieldOf(field: string): Row -> Key
  {
    (row: Row) => RowField(row, field)
  }

  /** The fields every row of a page has as text. */
  predicate TextField(page: Page, field: string)
  {
    if page == ReturnPage then field in {"bookId", "title", "author", "category", "borrower", "borrowDate"}
    else field in {"id", "title", "author", "category", "status"}
  }

  /**
   * Sorting by id, title, author or category orders every page completely:
   * after the alias, the key is a text field of every row the page lists.
   */
  lemma SortFieldsAreText(c: Catalog, page: Page, sortBy: string)
    requires sortBy in {"id", "title", "author", "category"}
    ensures TextField(page, SortKeyFor(page, sortBy))
    ensures SingleKind(PageRows(c, page), FieldOf(SortKeyFor(page, sortBy)))
  {
    var field := SortKeyFor(page, sortBy);
    forall row | row in PageRows(c, page) ensures KindOk(FieldOf(field)(row), true) {
      assert RowField(row, field).Str?;
    }
  }

  /** Without the alias, the ledger's entries have no "id": every key would be `undefined`. */
  lemma LedgerHasNoId(e: BorrowEntry)
    ensures RowField(EntryRow(e), "id") == Undefined && RowField(EntryRow(e), "bookId") == Str(e.bookId)
  {
  }

  /**
   * `sortBooks`: "none" lists the page's rows in their own order; any other
   * choice tree-sorts them, ascending, by the aliased field.
   */
  method SortRows(c: Catalog, page: Page, sortBy: string) returns (r: seq<Row>)
    ensures sortBy == "none" ==> r == PageRows(c, page)
    ensures sortBy != "none" ==> r == TreeOrder(PageRows(c, page), FieldOf(SortKeyFor(page, sortBy)))
    ensures multiset(r) == multiset(PageRows(c, page))
    ensures sortBy != "none" ==> SortedBy(r, FieldOf(SortKeyFor(page, sortBy)))
  {
    var rows := PageRows(c, page);
    if sortBy == "none" {
      return rows;
    }
    var keyOf := FieldOf(SortKeyFor(page, sortBy));
    r := TreeSort(rows, keyOf, true);
  }

  /**
   * Sorting a page by id, title, author or category is stable: rows whose keys
   * compare equal to a listed row's key come out in the page's own order.
   */
  lemma SortByTextFieldIsStable(c: Catalog, page: Page, sortBy: string, row: Row)
    requires sortBy in {"id", "title", "author", "category"} && row in PageRows(c, page)
    ensures var keyOf := FieldOf(SortKeyFor(page, sortBy));
      EqualKeyed(TreeOrder(PageRows(c, page), keyOf), keyOf, keyOf(row)) == EqualKeyed(PageRows(c, page), keyOf, keyOf(row))
  {
    SortFieldsAreText(c, page, sortBy);
    TreeOrderStable(PageRows(c, page), FieldOf(SortKeyFor(page, sortBy)), row);
  }
}
