# Library catalog engine — a Dafny model

This project models the core of a small browser-based library catalog, `script.js`.
The page keeps three stores:

- `booksList`: a singly linked list of book records. Each record has an id, title, author,
  category code, status ("Available" or "Borrowed"), borrower and borrow date.
- `recentlyAdded`: a stack of the most recently added records, capped at five.
- `borrowQueue`: a ledger with one entry for each borrowed book, in the order the books were borrowed.

On top of the stores sit:

- the category codec: code to name, and name to code;
- the id generator: a two-character category prefix plus a three-digit running number;
- the add, delete, borrow and return actions;
- the search filter and the tree sort behind the sort control, which uses a binary search tree keyed by
  a field of each row;
- the spreadsheet import loop, which turns rows into records.

The Dafny modules follow that structure:

- `Records`: the book record and the ledger entry.
- `CatalogStore`: the linked list, as a class over a sequence of records. A node reference becomes a
  position in that sequence.
- `RecentBuffer`: the five-slot stack.
- `BorrowLedger`: the borrow queue.
- `Ordering`: the key comparison, the search tree and `treeSort`.
- `Categories` and `Identifiers`: the two lookup tables and `generateBookId`.
- `Operations`: the four actions as functions on a value `Catalog`, with their error outcomes.
- `Consistency`: the catalog/ledger agreement those actions preserve.
- `Library`: a class that holds the three stores. It performs the same actions step by step, in place,
  and each of its methods is proved to leave the stores as the matching function says.
- `Browse`: the search and sort views.
- `SheetImport`: the import loop.
- `Text`, `Seqs` and `Wrappers`: the string helpers the code relies on, such as `trim`,
  `toLowerCase` and `padStart`, plus sequence lemmas and `Option`.

The main results are these:

- Every action keeps the ledger in agreement with the catalog. The ledger holds exactly one entry for
  each borrowed book, with the borrower and date recorded on it.
- As long as nothing is deleted, ids stay pairwise distinct through any history of adds, imports,
  borrows and returns, and each id `generateBookId` produces is fresh. This holds for category codes of
  at most two characters, which covers every code the category table produces.
- The category tables are mutual inverses.
- The tree sort returns a permutation of its input, sorted under `_compareKeys` whatever mix of text,
  number, null and undefined keys it gets. When all keys are of one kind, it also keeps rows with equal
  keys in their input order.
- The recent buffer always holds the newest five records.
- Importing reports one count for every row, and the import keeps every invariant above.

Two behaviours of the code are worth knowing:

- **Ids are reused after a delete.** The running number counts the ids that currently carry the prefix.
  After a delete, the next id can therefore equal one still in use (`Identifiers.DeleteThenAddCollides`).
- **The tree sort is stable for keys of one kind.** Ties go to the right subtree, and equal keys follow
  the same path, so rows with equal keys come out in input order (`Ordering.TreeOrderStable`). With
  mixed keys this fails, because a null key ties with every text key. Sorting the keys [b, null, a] gives
  [a, b, null], which puts a ahead of the null it ties with.

## Model

| member | source | states |
|---|---|---|
| CatalogStore.NodeFor | script.js:4-15 | a node copies id, title, author and category; an empty status becomes "Available" and any other status is kept; an empty borrower or date becomes null and any other value, null included, is kept |
| CatalogStore.FirstIndex | script.js:48-59 | the position `find` stops at holds the id and no earlier node does; None exactly when no node has the id |
| CatalogStore.RemoveFirst | script.js:62-82 | unlinking removes exactly the first node with the id (one fewer node, multiset minus that record), and the nodes before and after it keep their order; nothing changes when no node has it |
| CatalogStore.FirstIndexAfterUpdate | script.js:523-525 | overwriting a node's fields in place, id kept, does not change what `find` returns for any id |
| CatalogStore.BookLinkedList.constructor | script.js:19-22 | the list starts empty |
| CatalogStore.BookLinkedList.Add | script.js:24-45 | the new node, with defaults filled in, is linked at the tail |
| CatalogStore.BookLinkedList.Find | script.js:48-59 | returns the first node with the id, or none |
| CatalogStore.BookLinkedList.Remove | script.js:62-82 | reports true exactly when some node has the id, and unlinks only the first such node |
| CatalogStore.BookLinkedList.ToArray | script.js:85-102 | the records in list order |
| CatalogStore.BookLinkedList.GetSize | script.js:105-113 | the number of nodes |
| CatalogStore.BookLinkedList.Clear | script.js:116-118 | the list becomes empty |
| CatalogStore.BookLinkedList.UpdateNode | script.js:523-525 | writing through the reference `find` returned changes that node and no other |
| RecentBuffer.PushBounded | script.js:129-134 | the pushed record is on top; a buffer of at most five stays at most five and holds the newest five of the old entries and the record |
| RecentBuffer.Newest | script.js:129-134 | the newest `n` of a sequence, at most `n` long |
| RecentBuffer.PushesKeepNewest | script.js:129-134 | after any run of pushes the buffer holds exactly the newest five records, in push order |
| RecentBuffer.PushesAppend | script.js:129-134 | pushing a run and then one more record is one push after the run |
| RecentBuffer.BookStack.constructor | script.js:124-127 | the stack starts empty |
| RecentBuffer.BookStack.Push | script.js:129-134 | appends and drops the oldest once over five, keeping the size bound |
| RecentBuffer.BookStack.Pop | script.js:136-138 | removes and returns the top; undefined (None) on an empty stack |
| RecentBuffer.BookStack.Peek | script.js:140-142 | the top record, or none exactly when empty |
| RecentBuffer.BookStack.IsEmpty | script.js:144-146 | true exactly when no record is held |
| RecentBuffer.BookStack.ToArray | script.js:152-154 | the records newest first (the stored order reversed) |
| BorrowLedger.KeepOthers | script.js:190-193 | keeps exactly the entries whose book id differs from the given id |
| BorrowLedger.KeepOthersAppend | script.js:190-193 | filtering distributes over concatenation, so order is kept |
| BorrowLedger.KeepOthersCount | script.js:190-193 | each entry keeps its multiplicity unless it carries the id, in which case it is gone |
| BorrowLedger.KeepOthersNoMatch | script.js:190-193 | a ledger with no entry for the id is left as it is |
| BorrowLedger.BorrowQueue.constructor | script.js:159-161 | the ledger starts empty |
| BorrowLedger.BorrowQueue.Enqueue | script.js:163-172 | the entry goes at the back |
| BorrowLedger.BorrowQueue.Dequeue | script.js:174-176 | removes and returns the front entry; none on an empty ledger |
| BorrowLedger.BorrowQueue.IsEmpty | script.js:178-180 | true exactly when the ledger is empty |
| BorrowLedger.BorrowQueue.RemoveByBookId | script.js:190-193 | the ledger becomes the entries for other ids, in order |
| Ordering.CompareStrings | script.js:243 | a three-way comparison (-1, 0 or 1) that is zero exactly on equal texts |
| Ordering.CompareStringsFlip | script.js:243 | swapping the texts negates the result |
| Ordering.CompareStringsTrans | script.js:243 | "at most" is transitive |
| Ordering.CompareKeys | script.js:241-251 | texts compare ignoring case (zero exactly when the lower-cased texts agree); undefined sorts after everything; numbers and null compare by value |
| Ordering.CompareKeysFlip | script.js:241-251 | the comparison is antisymmetric for every pair of keys |
| Ordering.CompareKeysTrans | script.js:241-251 | among keys of one kind the comparison is transitive |
| Ordering.CompareKeysCongruent | script.js:241-251 | among keys of one kind, keys comparing equal compare alike against any third key |
| Ordering.InsertNode | script.js:223-239 | insertion adds exactly the new item to the tree's contents |
| Ordering.InOrderMembers | script.js:223-239 | after insertion the traversal holds the old items and the new one, and nothing else |
| Ordering.InsertKeepsSearchTree | script.js:223-239 | smaller keys go left and others right, so insertion keeps the search-tree order |
| Ordering.BuildIsSearchTree | script.js:275-278 | the tree built by the insert loop is a search tree |
| Ordering.BuildPermutes | script.js:275-280 | the in-order traversal of the built tree is a permutation of the input |
| Ordering.PivotSeparates | script.js:241-251 | for keys of every kind, a key below a pivot is at most any key not below it |
| Ordering.SearchTreeSorted | script.js:259-265 | the in-order traversal of any search tree is sorted, whatever mix of keys it holds |
| Ordering.TreeOrderSorted | script.js:269-283 | the tree order is a permutation of the input and sorted, for every mix of keys |
| Ordering.InsertAfterEqualKeys | script.js:223-239 | an inserted item comes after every item with an equal key |
| Ordering.BuildKeepsEqualKeyOrder | script.js:275-280 | items with equal keys keep their input order in the tree order |
| Ordering.TreeOrderStable | script.js:269-283 | for keys of one kind, the tree sort is stable |
| Ordering.TreeOrderShort | script.js:270-272 | inputs of length at most one come back unchanged |
| Ordering.ExampleKeys | script.js:243 | "a" sorts before "b", and "a" ties with itself |
| Ordering.TreeOrderTies | script.js:269-283 | with y before x and z tied with y, the order of [x, y, z] is [y, z, x] |
| Ordering.TreeOrderTiesExample | script.js:269-283 | concrete rows b0, a1, a2 sorted by letter come out as a1, a2, b0 |
| Ordering.BinarySearchTree.constructor | script.js:208-210 | the tree starts empty |
| Ordering.BinarySearchTree.Insert | script.js:212-221 | the root becomes the tree with the node added on the search path |
| Ordering.BinarySearchTree.InOrderTraversal | script.js:253-257 | the items in key order (left subtree, node, right subtree) |
| Ordering.AppendInOrder | script.js:259-265 | appends a subtree's in-order items after what was collected so far |
| Ordering.BuildTree | script.js:274-280 | a fresh tree holding the items inserted in input order |
| Ordering.TreeSort | script.js:269-283 | short inputs unchanged; otherwise a permutation, sorted for every mix of keys when ascending, and non-increasing when descending |
| Categories.CodeKeys | script.js:299-304 | the code table has exactly the sixteen codes 01 to 16 |
| Categories.CodeToNameInverts | script.js:299-317 | every code's name maps back to that code |
| Categories.NameToCodeInverts | script.js:299-317 | every name's code maps back to that name |
| Categories.TablesAreInverse | script.js:299-317 | the two tables are mutual inverses over the sixteen codes |
| Categories.CategoryName | script.js:298-307 | "Unknown" exactly when the code padded to two characters is not in the table; otherwise a name whose code is that padded code |
| Categories.CategoryCodeFromName | script.js:310-318 | a code is found exactly when the name is one of the sixteen (exact spelling), and it is that name's two-character code |
| Categories.CodeFromNameSound | script.js:310-318 | null exactly for names not in the table (case-sensitive); a found code names the category back |
| Categories.CodeRoundTrip | script.js:298-318 | code to name to code is the identity on the sixteen codes |
| Categories.NameRoundTrip | script.js:298-318 | name to code to name is the identity on the sixteen names |
| Categories.ShortCodeExample | script.js:305 | "4" is padded to "04" and names Fantasy |
| Categories.UnknownCodeExample | script.js:306 | "17" gives "Unknown" |
| Categories.EmptyCodeExample | script.js:305-306 | the empty code pads to "00" and gives "Unknown" |
| Categories.LongCodeExample | script.js:305-306 | "004" is not shortened and gives "Unknown" |
| Categories.FantasyCode | script.js:311-317 | "Fantasy" has code "04" |
| Categories.NameExamples | script.js:311-317 | the lookup is case-sensitive: "fiction" gives null and "Fiction" gives "01" |
| Categories.LowerCaseNameUnknown | script.js:311-317 | "fiction" gives null |
| Categories.FictionCode | script.js:311-317 | "Fiction" gives "01" |
| Identifiers.Prefix | script.js:322 | a code of at most two characters gives a two-character prefix ending in the code |
| Identifiers.RunningNumber | script.js:334 | at least three characters, exactly three below 1000 |
| Identifiers.RunningNumberValue | script.js:334 | the running number is digits that read back as the number |
| Identifiers.CountWithPrefix | script.js:324-332 | the count never exceeds the number of records |
| Identifiers.NextId | script.js:321-336 | the id starts with the prefix and is five characters long while the category has fewer than 999 ids |
| Identifiers.NextIdNumber | script.js:321-336 | after the prefix the id reads as one more than the number of ids with that prefix |
| Identifiers.NextIdKeepsWellNumbered | script.js:321-336 | appending a record under the generated id keeps the catalog well numbered |
| Identifiers.WellNumberedSameIds | script.js:321-336 | the id numbering depends only on the ids, position by position, so records with the same ids are equally well numbered |
| Identifiers.UpdateKeepsWellNumbered | script.js:523-525 | overwriting one record's fields, keeping its id, keeps the catalog well numbered |
| Identifiers.WellNumberedDistinct | script.js:321-336 | in a well-numbered catalog no two records share an id |
| Identifiers.NextIdIsFresh | script.js:321-336 | in a well-numbered catalog the id generated for a code of at most two characters is not in use |
| Identifiers.SuccessiveIds | script.js:321-336 | records added one after another in one category get running numbers 1, 2, 3, … |
| Identifiers.RunningNumberExamples | script.js:334 | 1, 2 and 3 are written 001, 002 and 003 |
| Identifiers.ThreeAddsExample | script.js:321-336 | three adds in category 01 give 01001, 01002 and 01003 |
| Identifiers.DeleteThenAddCollides | script.js:321-336 | after deleting 01001 from {01001, 01002}, the next 01 id is 01002, which is still in use |
| Operations.Add | script.js:439-478 | fails with nothing changed exactly when the trimmed title, the trimmed author or the category is empty; otherwise appends a record under the next id, leaves the ledger alone and makes the recent buffer the newest five of its old entries and the record |
| Operations.Stored | script.js:465-467 | the record is appended to the catalog; the recent buffer becomes the newest five of its old entries and the record, so it stays at most five |
| Operations.Delete | script.js:481-501 | succeeds exactly when confirmed and some record has the id; then the first record with the id is unlinked, the others keep their order, and the ledger keeps exactly its entries for other ids, in order; otherwise nothing changes, and the reason is "not confirmed" or, when no record has the id, "failed to delete" |
| Operations.Borrow | script.js:503-540 | fails with nothing changed unless the name is non-blank and the record `find` reaches is available; then exactly that record becomes borrowed with the trimmed name and date, keeping its id, title, author and category, and its entry is enqueued; the reason for a refusal is "name required", else "not found" when no record has the id, else "already borrowed" |
| Operations.Return | script.js:543-565 | fails with nothing changed unless the record `find` reaches is borrowed, reporting "not found" when no record has the id and "not borrowed" otherwise; on success exactly that record goes back on the shelf, keeping its id, title, author and category, and the ledger keeps exactly its entries for other ids, in order |
| Operations.AddStores | script.js:446-467 | a successful add is the store of the new record |
| Operations.AddKeepsConsistent | script.js:439-478 | adding keeps the catalog and ledger in agreement |
| Operations.AddKeepsWellNumbered | script.js:439-478 | adding under a code of at most two characters keeps ids well numbered |
| Operations.DeleteKeepsConsistent | script.js:481-501 | deleting keeps the catalog and ledger in agreement |
| Operations.BorrowKeepsConsistent | script.js:503-540 | borrowing keeps the catalog and ledger in agreement |
| Operations.ReturnKeepsConsistent | script.js:543-565 | returning keeps the catalog and ledger in agreement |
| Operations.BorrowKeepsWellNumbered | script.js:503-540 | borrowing keeps ids well numbered, since it rewrites one record in place and keeps its id |
| Operations.ReturnKeepsWellNumbered | script.js:543-565 | returning keeps ids well numbered, since it rewrites one record in place and keeps its id |
| Operations.AddExample | script.js:439-478 | adding Dune by Herbert in category 04 to an empty catalog stores record 04001 in the catalog and the recent buffer |
| Operations.FirstIdExample | script.js:321-336 | the first id of category 04 is 04001 |
| Operations.BorrowTwiceFails | script.js:503-540 | a second borrow of the same id changes nothing and reports either "name required" or "already borrowed" |
| Operations.BorrowLeavesOneEntry | script.js:503-540 | after a borrow the ledger holds exactly one entry for the id, carrying the trimmed name |
| Operations.BorrowTwiceLedgerExample | script.js:503-540 | Alice borrows, then Bob tries: one entry remains, Alice's |
| Consistency.LedgerView | script.js:523-534 | the entries the borrowed records call for, one per borrowed record |
| Consistency.AppendAvailableKeepsConsistent | script.js:465-467 | appending an on-shelf record keeps the agreement |
| Consistency.ReleaseKeepsAgreement | script.js:190-193 | dropping every entry for a released record's id leaves exactly the entries the remaining records call for |
| Consistency.RemoveKeepsConsistent | script.js:486-489 | unlinking the first record with an id and dropping its entries keeps the agreement |
| Consistency.BorrowRecordKeepsConsistent | script.js:523-534 | marking the first record with an id as borrowed and enqueuing its entry keeps the agreement |
| Consistency.ReturnRecordKeepsConsistent | script.js:556-560 | putting a borrowed record back and dropping its entries keeps the agreement |
| Consistency.EntriesFor | script.js:190-193 | exactly the entries for the id |
| Consistency.CountBorrowed | script.js:518-525 | zero exactly when no record with the id is borrowed |
| Consistency.ViewEntriesFor | script.js:523-534 | the borrowed records with an id call for that many entries for it |
| Consistency.AtMostOneBorrowed | script.js:511-525 | at most one record per id is borrowed |
| Consistency.OneEntryPerBorrowedBook | script.js:503-565 | in agreement, the ledger holds one entry for an id if a record with it is borrowed, and none otherwise |
| Library.Library.State | script.js:285-287 | the contents of the three stores |
| Library.Library.constructor | script.js:285-287 | three empty stores |
| Library.Library.GenerateBookId | script.js:321-336 | the counting loop returns the next id of the category |
| Library.Library.AddBook | script.js:439-478 | the stores end as `Operations.Add` says, and the agreement is kept |
| Library.Library.Store | script.js:465-467 | the stores end as `Operations.Stored` says |
| Library.Library.DeleteBook | script.js:481-501 | the stores end as `Operations.Delete` says |
| Library.Library.BorrowBook | script.js:503-540 | the stores end as `Operations.Borrow` says |
| Library.Library.ReturnBook | script.js:543-565 | the stores end as `Operations.Return` says |
| Library.Library.ImportSheetRow | script.js:985-1018 | one row, with the checks as written: the result and the stores are as `SheetImport.ImportRow` says, so a refused row changes nothing |
| Library.Library.ImportRows | script.js:980-1019 | the counters and stores end as `SheetImport.Import` says, with the checks as written |
| Browse.BookRows | script.js:891-898 | one row per record, in order |
| Browse.EntryRows | script.js:891-898 | one row per ledger entry, in order |
| Browse.PageRows | script.js:891-898 | the catalog page lists every record and the return page every ledger entry, one row each, in list and borrow order; the borrow page lists exactly the available records |
| Browse.BookRowsCount | script.js:891-898 | a record is listed as often as it occurs in the list |
| Browse.BorrowPageCount | script.js:892-893 | the borrow page lists each available record as often as the catalog holds it, and no other record |
| Browse.BorrowPageKeepsOrder | script.js:892-893 | the borrow page of two runs of records is the two runs' borrow pages in order, so it keeps list order |
| Browse.Search | script.js:883-919 | a blank term lists the page; otherwise exactly the page rows whose id, title, author, category name or borrower contains the lower-cased trimmed term |
| Browse.SearchCount | script.js:901-913 | each matching row keeps its multiplicity, and every other row is dropped |
| Browse.SearchKeepsOrder | script.js:901-913 | searching the catalog page of two record runs is searching each run and concatenating, so results keep list order |
| Browse.SearchKeepsLedgerOrder | script.js:901-913 | the same for the return page and the ledger, so results keep borrow order |
| Browse.SearchIgnoresCase | script.js:887 | lower-casing the input does not change the result |
| Browse.SearchFindsById | script.js:903 | searching by a listed record's numeric id finds it |
| Browse.BorrowSearchOnlyOnShelf | script.js:892-893 | on the borrow page every result is an available record |
| Browse.SortKeyFor | script.js:948 | "id" means "bookId" on the return page; any other choice is kept |
| Browse.RowField | script.js:277 | a row's field is text, null or undefined, never a number |
| Browse.SortFieldsAreText | script.js:938-951 | sorting by id, title, author or category uses text keys on every page |
| Browse.LedgerHasNoId | script.js:948 | ledger rows have no "id", only "bookId", so the alias is needed |
| Browse.SortRows | script.js:922-957 | "none" lists the page as it is; otherwise the tree order of the page by the aliased field, a permutation, sorted whatever the field's keys |
| Browse.SortByTextFieldIsStable | script.js:938-951 | sorting any page by id, title, author or category is stable: rows with keys comparing equal keep the page's order |
| SheetImport.ParseRowAsWritten | script.js:987-1004 | a row is accepted only when title, author and category are text cells |
| SheetImport.RowChecksAsWritten | script.js:987-1004 | an empty or missing cell refuses the row; a number refuses it, since `trim` throws; an accepted row carries the trimmed title and author and the category's code; non-empty text with a known category is accepted |
| SheetImport.ParseRow | script.js:987-1004 | an accepted row has a non-empty title and author after trimming |
| SheetImport.ParseRowRefines | script.js:987-1004 | the corrected check agrees with the code as written on every row it accepts, and refuses only rows that would get a blank title or author |
| SheetImport.ParsesTo | script.js:987-1004 | a row of clean text with a known category parses to those fields |
| SheetImport.BlankTitleImported | script.js:987-1004 | a blank title passes the truthiness check and is imported as an empty title |
| SheetImport.BlankTrimmed | script.js:1003 | " " is truthy but trims to the empty text |
| SheetImport.ImportRow | script.js:985-1018 | one row of the loop as written: imported exactly when the truthiness checks and the category lookup accept it; a refused row changes nothing |
| SheetImport.ImportRowFixed | script.js:985-1018 | the corrected row step: imported exactly when the trimmed title and author are non-empty and the category is known; a refused row changes nothing; an imported row is imported just as the code as written does |
| SheetImport.ImportRowAppends | script.js:1000-1012 | an imported row appends a record under the next id with the fields the checks as written produce, tops the recent buffer and leaves the ledger alone |
| SheetImport.ImportRowIsAdd | script.js:1000-1012 | with the corrected checks, importing a row stores the same record as adding its fields by hand |
| SheetImport.ImportBlankTitleRow | script.js:984-1019 | the loop as written imports a row whose title is only white space, storing a record with an empty title and counting no error, while `addBook` and the corrected step refuse it |
| SheetImport.BlankTitleSheetExample | script.js:987-1013 | the row (" ", "Herbert", "Fiction") is imported as record (next 01 id, "", "Herbert", "01") with no error |
| SheetImport.Tally | script.js:1011-1018 | each row adds one to exactly one of the two counters |
| SheetImport.TallyStep | script.js:1011-1018 | errors grow exactly on the rows the checks as written refuse; the catalog grows only by imported records at its end; the ledger is kept |
| SheetImport.Import | script.js:984-1019 | the two counts add up to the number of rows |
| SheetImport.ImportSnoc | script.js:984-1019 | importing one more row tallies it onto the report for the rows before it |
| SheetImport.TallyCounts | script.js:1011-1018 | an imported row bumps the imported count, a refused one the error count |
| SheetImport.ImportStep | script.js:984-1019 | one iteration of the row loop, in terms of its counters and the new stores |
| SheetImport.ImportAppends | script.js:984-1019 | the import appends exactly as many records as it counts as imported, after the old ones |
| SheetImport.ImportKeepsLedger | script.js:984-1019 | importing never touches the ledger |
| SheetImport.ImportKeepsRecentBounded | script.js:1012 | the recent buffer stays at most five |
| SheetImport.ImportCounts | script.js:1015-1018 | the error count is the number of rows the checks as written refuse |
| SheetImport.FailingRows | script.js:1015-1018 | exactly the rows the checks as written refuse |
| SheetImport.ImportKeepsConsistent | script.js:984-1019 | importing keeps the catalog and ledger in agreement |
| SheetImport.ImportKeepsWellNumbered | script.js:993-1012 | importing keeps ids well numbered |
| SheetImport.OneGoodRowOneMissingAuthor | script.js:984-1019 | a good row then a row without an author: one imported, one error, one record added |
| SheetImport.ImportOneRow | script.js:984-1019 | one row is one tally from zero counts |
| SheetImport.ImportTwoRows | script.js:984-1019 | two rows are tallied in order |
| SheetImport.MissingAuthorRefused | script.js:987 | a row with no author is refused, by the checks as written and by the corrected ones |
| Text.Lower | script.js:887 | same length; each character lower-cased |
| Text.LowerIdempotent | script.js:887 | lower-casing twice is lower-casing once |
| Text.TrimStart | script.js:446 | drops exactly the leading white space |
| Text.TrimEnd | script.js:446 | drops exactly the trailing white space |
| Text.Trim | script.js:446-447 | the result is no longer than the text and neither starts nor ends with white space |
| Text.TrimPlacement | script.js:446-447 | the result is the text between its leading and its trailing white space, so nothing else is dropped |
| Text.TrimParts | script.js:446-447 | what trimming the front and then the back promise puts the result inside the text, with only white space around it |
| Text.TrimBlank | script.js:506 | trimming gives the empty text exactly when the text is all white space |
| Text.TrimKeepsTrimmed | script.js:446-447 | text without surrounding white space is kept |
| Text.TrimIdempotent | script.js:446-447 | trimming twice is trimming once |
| Text.PadStart | script.js:305 | pads on the left with zeros to the width, and keeps longer text unchanged |
| Text.NatToString | script.js:334 | decimal digits, without leading zeros, that read back as the number |
| Text.PaddedNumberRoundTrip | script.js:334 | a zero-padded number reads back as the number |
| Seqs.Reverse | script.js:282 | the same items in the opposite order |
| Seqs.ReversePermutes | script.js:282 | reversing is a permutation |
| Seqs.Filter | script.js:901-913 | keeps exactly the items the test accepts |

## Left out

- Rendering, notifications, the statistics panel and every `display…` function: these only read the
  stores and write the page.
- Saving to and loading from `localStorage`, and the JSON round-trip they perform.
- Reading the spreadsheet file (`FileReader`, `XLSX`): the import takes the parsed rows as a sequence of
  cells, where a cell is blank, text or a number.
- The borrower name prompt, the delete confirmation and the clock become parameters: an optional
  name, a `confirmed` flag and a `now` text. `formatDate` is not modelled, and the date is opaque text.
- `localeCompare` is modelled as ordinal comparison of the lower-cased texts. `toLowerCase` changes the
  ASCII letters only. `trim` removes the full set of JavaScript white space and line terminators.
- JavaScript numbers are modelled as unbounded integers. Numeric-looking text is not coerced by `<`
  and `>`. A text key compared with a number or null gives 0, as `NaN` comparisons do.
- The search tree is a value (`Tree`) held by the `BinarySearchTree` class rather than linked nodes, so
  sharing between nodes is not modelled.
- The linked list is a sequence inside `BookLinkedList`. A node reference is its position, and writes
  through the reference returned by `find` become `UpdateNode`.
- Property lookups on the two category objects only see their own keys. Inherited keys such as
  "toString" are not modelled.
- SheetImport.ParseRowAsWritten: a row whose `trim` throws, because a cell holds a number, is modelled
  as refused, which is what the `catch` does.
- Text.Trim: its own contract states only the length bound and that the ends are not white space. That
  the result is exactly the text between its leading and trailing white space is stated separately by
  `Text.TrimPlacement`, so that code calling `Trim` does not carry those quantifiers.
- `BookStack.size`, `BorrowQueue.size` and `BorrowQueue.toArray` are plain reads, modelled as bodies
  without contracts.

## Findings

The import loop, `SheetImport.Import` and `Library.ImportRows` follow the code as written. The
corrected row step, `SheetImport.ImportRowFixed`, is the one that agrees with `addBook`.

| source | as written | input that shows it | evidently intended | confidence | as-written member | corrected member |
|---|---|---|---|---|---|---|
| script.js:987, script.js:1003-1004 | the import checks the title and author for truthiness before trimming them | a row whose Title is a single blank, " ", with a valid author and category | refuse a blank title or author, as `addBook` does after trimming (script.js:446-453) | not executed | SheetImport.ImportBlankTitleRow, SheetImport.BlankTitleImported | SheetImport.ImportRowFixed, SheetImport.ParseRow |
