/**
 * The agreement the façade keeps between the catalog and the borrow ledger:
 * the ledger holds one entry per borrowed record, copied from that record.
 */
module Consistency {
  import opened Wrappers
  import opened Seqs
  import opened Records
  import opened BorrowLedger

  /** The ledger entry `borrowBook` enqueues for a record it has just marked borrowed. */
  function EntryOf(b: Book): BorrowEntry
  {
    BorrowEntry(b.id, b.title, b.author, b.category,
                if b.borrower.Some? then b.borrower.value else "",
                if b.borrowDate.Some? then b.borrowDate.value else "")
  }

  /** What one record contributes to the ledger: its entry when it is borrowed, nothing otherwise. */
  function Contribution(b: Book): seq<BorrowEntry>
  {
    if b.status == BORROWED then [EntryOf(b)] else []
  }

  /** The ledger the catalog calls for: one entry per borrowed record, in catalog order. */
  function LedgerView(bs: seq<Book>): (r: seq<BorrowEntry>)
    ensures |r| <= |bs|
  {
    if bs == [] then [] else Contribution(bs[0]) + LedgerView(bs[1..])
  }

  /** Status is one of the two states, and a record is borrowed exactly when it names a borrower and a date. */
  predicate RecordWellFormed(b: Book)
  {
    && (b.status == AVAILABLE || b.status == BORROWED)
    && (b.status == BORROWED <==> b.borrower.Some? && b.borrowDate.Some?)
  }

  /** Every record is well formed. */
  predicate AllWellFormed(bs: seq<Book>)
  {
    forall i :: 0 <= i < |bs| ==> RecordWellFormed(bs[i])
  }

  /**
   * Of several records sharing an id, only the first can be borrowed: `find`
   * and `remove` always reach the first one, so the later ones stay on the shelf.
   */
  predicate LaterCopiesAvailable(bs: seq<Book>)
  {
    forall i, j :: 0 <= i < j < |bs| && bs[i].id == bs[j].id ==> bs[j].status != BORROWED
  }

  /** The invariant the façade operations keep. */
  ghost predicate Consistent(bs: seq<Book>, q: seq<BorrowEntry>)
  {
    && AllWellFormed(bs)
    && LaterCopiesAvailable(bs)
    && multiset(q) == multiset(LedgerView(bs))
  }

  lemma {:induction false} ViewAppend(a: seq<Book>, b: seq<Book>)
    ensures LedgerView(a + b) == LedgerView(a) + LedgerView(b)
  {
    if a == [] {
      assert a + b == b;
    } else {
      assert (a + b)[0] == a[0];
      DropFirstAppend(a, b);
      ViewAppend(a[1..], b);
      AppendAssoc(Contribution(a[0]), LedgerView(a[1..]), LedgerView(b));
    }
  }

  /** Appending a record that is on the shelf keeps the agreement with the same ledger. */
  lemma AppendAvailableKeepsConsistent(bs: seq<Book>, q: seq<BorrowEntry>, b: Book)
    requires Consistent(bs, q)
    requires b.status == AVAILABLE && b.borrower.None? && b.borrowDate.None?
    ensures Consistent(bs + [b], q)
  {
    var bs' := bs + [b];
    ViewAppend(bs, [b]);
    assert LedgerView([b]) == [];
    AppendEmpty(LedgerView(bs));
    forall i | 0 <= i < |bs'| ensures RecordWellFormed(bs'[i]) {
      if i < |bs| {
        assert bs'[i] == bs[i];
      }
    }
    forall i, j | 0 <= i < j < |bs'| && bs'[i].id == bs'[j].id ensures bs'[j].status != BORROWED {
      assert bs'[i] == bs[i];
      if j < |bs| {
        assert bs'[j] == bs[j];
      }
    }
  }

  /** The ledger view split around position `k`. */
  lemma ViewAround(bs: seq<Book>, k: nat)
    requires k < |bs|
    ensures LedgerView(bs) == LedgerView(bs[..k]) + Contribution(bs[k]) + LedgerView(bs[k + 1..])
  {
    var rest := [bs[k]] + bs[k + 1..];
    SplitAt(bs, k);
    ViewAppend(bs[..k], rest);
    assert rest[0] == bs[k];
    DropConcat([bs[k]], bs[k + 1..]);
    AppendAssoc(LedgerView(bs[..k]), Contribution(bs[k]), LedgerView(bs[k + 1..]));
  }

  /** Replacing one record replaces its contribution and nothing else. */
  lemma ViewUpdate(bs: seq<Book>, k: nat, b: Book)
    requires k < |bs|
    ensures multiset(LedgerView(bs[k := b]))
         == multiset(LedgerView(bs)) - multiset(Contribution(bs[k])) + multiset(Contribution(b))
  {
    var bs' := bs[k := b];
    ViewAround(bs, k);
    ViewAround(bs', k);
    assert bs'[..k] == bs[..k] && bs'[k + 1..] == bs[k + 1..];
  }

  /** Removing one record removes its contribution and nothing else. */
  lemma ViewRemove(bs: seq<Book>, k: nat)
    requires k < |bs|
    ensures multiset(LedgerView(bs[..k] + bs[k + 1..])) == multiset(LedgerView(bs)) - multiset(Contribution(bs[k]))
  {
    ViewAround(bs, k);
    ViewAppend(bs[..k], bs[k + 1..]);
  }

  /** The view of records none of which is a borrowed record with `id` has no entry for `id`. */
  lemma {:induction false} ViewWithoutId(bs: seq<Book>, id: string)
    requires forall i :: 0 <= i < |bs| && bs[i].id == id ==> bs[i].status != BORROWED
    ensures forall e :: e in LedgerView(bs) ==> e.bookId != id
  {
    if bs != [] {
      ViewWithoutId(bs[1..], id);
    }
  }

  /**
   * When the record at `k` gives up its borrowed state (it is returned or
   * deleted) and no record with its id is left borrowed, dropping every
   * ledger entry for that id restores the agreement.
   */
  lemma ReleaseKeepsAgreement(bs: seq<Book>, q: seq<BorrowEntry>, k: nat, bs': seq<Book>)
    requires k < |bs| && multiset(q) == multiset(LedgerView(bs))
    requires multiset(LedgerView(bs')) == multiset(LedgerView(bs)) - multiset(Contribution(bs[k]))
    requires forall i :: 0 <= i < |bs'| && bs'[i].id == bs[k].id ==> bs'[i].status != BORROWED
    ensures multiset(KeepOthers(q, bs[k].id)) == multiset(LedgerView(bs'))
  {
    var id := bs[k].id;
    ViewWithoutId(bs', id);
    forall e ensures multiset(KeepOthers(q, id))[e] == multiset(LedgerView(bs'))[e] {
      KeepOthersCount(q, id, e);
      if e.bookId == id {
        assert e !in LedgerView(bs');
      } else {
        assert e !in Contribution(bs[k]);
        assert multiset(Contribution(bs[k]))[e] == 0;
      }
    }
    assert multiset(KeepOthers(q, id)) == multiset(LedgerView(bs'));
  }

  /** Unlinking the record at `k` keeps the later copies of every id on the shelf. */
  lemma RemoveKeepsLaterCopies(bs: seq<Book>, k: nat)
    requires k < |bs| && LaterCopiesAvailable(bs)
    ensures LaterCopiesAvailable(bs[..k] + bs[k + 1..])
  {
    var bs' := bs[..k] + bs[k + 1..];
    forall i, j | 0 <= i < j < |bs'| && bs'[i].id == bs'[j].id ensures bs'[j].status != BORROWED {
      var oi := if i < k then i else i + 1;
      var oj := if j < k then j else j + 1;
      assert bs'[i] == bs[oi] && bs'[j] == bs[oj];
    }
  }

  /**
   * Unlinking the first record with its id, and dropping every ledger entry
   * for that id, keeps the agreement.
   */
  lemma RemoveKeepsConsistent(bs: seq<Book>, q: seq<BorrowEntry>, k: nat)
    requires Consistent(bs, q) && k < |bs|
    requires forall j :: 0 <= j < k ==> bs[j].id != bs[k].id
    ensures Consistent(bs[..k] + bs[k + 1..], KeepOthers(q, bs[k].id))
  {
    var bs' := bs[..k] + bs[k + 1..];
    ViewRemove(bs, k);
    RemoveKeepsLaterCopies(bs, k);
    forall i | 0 <= i < |bs'| ensures RecordWellFormed(bs'[i]) {
      assert bs'[i] == if i < k then bs[i] else bs[i + 1];
    }
    forall i | 0 <= i < |bs'| && bs'[i].id == bs[k].id ensures bs'[i].status != BORROWED {
      if i >= k {
        assert bs'[i] == bs[i + 1];
      }
    }
    ReleaseKeepsAgreement(bs, q, k, bs');
  }

  /** Replacing a record by a well-formed one keeps every record well formed. */
  lemma UpdateKeepsWellFormed(bs: seq<Book>, k: nat, b: Book)
    requires k < |bs| && RecordWellFormed(b) && AllWellFormed(bs)
    ensures AllWellFormed(bs[k := b])
  {
    var bs' := bs[k := b];
    forall i | 0 <= i < |bs'| ensures RecordWellFormed(bs'[i]) {
      if i != k {
        assert bs'[i] == bs[i];
      }
    }
  }

  /**
   * Rewriting a record without changing its id keeps the later copies on the
   * shelf, provided it is borrowed only when no earlier record has its id.
   */
  lemma UpdateKeepsLaterCopies(bs: seq<Book>, k: nat, b: Book)
    requires k < |bs| && LaterCopiesAvailable(bs) && b.id == bs[k].id
    requires b.status == BORROWED ==> forall j :: 0 <= j < k ==> bs[j].id != bs[k].id
    ensures LaterCopiesAvailable(bs[k := b])
  {
    var bs' := bs[k := b];
    forall i, j | 0 <= i < j < |bs'| && bs'[i].id == bs'[j].id ensures bs'[j].status != BORROWED {
      if i == k {
        assert bs[i].id == bs[j].id;
      }
    }
  }

  /**
   * Marking the first record with its id borrowed, and enqueueing the entry
   * copied from it, keeps the agreement.
   */
  lemma BorrowRecordKeepsConsistent(bs: seq<Book>, q: seq<BorrowEntry>, k: nat, b: Book)
    requires Consistent(bs, q) && k < |bs|
    requires forall j :: 0 <= j < k ==> bs[j].id != bs[k].id
    requires bs[k].status == AVAILABLE
    requires b.id == bs[k].id && b.status == BORROWED && b.borrower.Some? && b.borrowDate.Some?
    ensures Consistent(bs[k := b], q + [EntryOf(b)])
  {
    ViewUpdate(bs, k, b);
    assert multiset(Contribution(bs[k])) == multiset{};
    assert multiset(Contribution(b)) == multiset{EntryOf(b)};
    assert multiset(q + [EntryOf(b)]) == multiset(q) + multiset{EntryOf(b)};
    UpdateKeepsWellFormed(bs, k, b);
    UpdateKeepsLaterCopies(bs, k, b);
  }

  /**
   * Putting a borrowed record back on the shelf, and dropping every ledger
   * entry for its id, keeps the agreement.
   */
  lemma ReturnRecordKeepsConsistent(bs: seq<Book>, q: seq<BorrowEntry>, k: nat, b: Book)
    requires Consistent(bs, q) && k < |bs|
    requires bs[k].status == BORROWED
    requires b.id == bs[k].id && b.status == AVAILABLE && b.borrower.None? && b.borrowDate.None?
    ensures Consistent(bs[k := b], KeepOthers(q, bs[k].id))
  {
    var bs' := bs[k := b];
    ViewUpdate(bs, k, b);
    assert multiset(Contribution(b)) == multiset{};
    UpdateKeepsLaterCopies(bs, k, b);
    forall i | 0 <= i < |bs'| && bs'[i].id == bs[k].id ensures bs'[i].status != BORROWED {
      if i > k {
        assert bs[k].id == bs[i].id;
      }
    }
    ReleaseKeepsAgreement(bs, q, k, bs');
    UpdateKeepsWellFormed(bs, k, b);
  }

  /** The ledger entries for one book id. */
  function EntriesFor(q: seq<BorrowEntry>, id: string): (r: seq<BorrowEntry>)
    ensures forall e :: e in r <==> e in q && e.bookId == id
  {
    if q == [] then []
    else (if q[0].bookId == id then [q[0]] else []) + EntriesFor(q[1..], id)
  }

  lemma {:induction false} EntriesForCount(q: seq<BorrowEntry>, id: string, e: BorrowEntry)
    ensures multiset(EntriesFor(q, id))[e] == if e.bookId == id then multiset(q)[e] else 0
  {
    if q != [] {
      EntriesForCount(q[1..], id, e);
      ConsTail(q);
    }
  }

  /** Ledgers holding the same entries hold equally many for each id. */
  lemma SameEntriesSameCount(q: seq<BorrowEntry>, q': seq<BorrowEntry>, id: string)
    requires multiset(q) == multiset(q')
    ensures |EntriesFor(q, id)| == |EntriesFor(q', id)|
  {
    forall e ensures multiset(EntriesFor(q, id))[e] == multiset(EntriesFor(q', id))[e] {
      EntriesForCount(q, id, e);
      EntriesForCount(q', id, e);
    }
    assert multiset(EntriesFor(q, id)) == multiset(EntriesFor(q', id));
    assert |multiset(EntriesFor(q, id))| == |EntriesFor(q, id)|;
  }

  /** The number of borrowed records with id `id`. */
  function CountBorrowed(bs: seq<Book>, id: string): (n: nat)
    ensures n == 0 <==> forall i :: 0 <= i < |bs| && bs[i].id == id ==> bs[i].status != BORROWED
  {
    if bs == [] then 0
    else
      var rest := CountBorrowed(bs[1..], id);
      assert forall i :: 1 <= i < |bs| ==> bs[i] == bs[1..][i - 1];
      (if bs[0].id == id && bs[0].status == BORROWED then 1 else 0) + rest
  }

  lemma {:induction false} ViewEntriesFor(bs: seq<Book>, id: string)
    ensures |EntriesFor(LedgerView(bs), id)| == CountBorrowed(bs, id)
  {
    if bs != [] {
      ViewEntriesFor(bs[1..], id);
      EntriesForAppend(Contribution(bs[0]), LedgerView(bs[1..]), id);
    }
  }

  lemma {:induction false} EntriesForAppend(a: seq<BorrowEntry>, b: seq<BorrowEntry>, id: string)
    ensures EntriesFor(a + b, id) == EntriesFor(a, id) + EntriesFor(b, id)
  {
    if a == [] {
      assert a + b == b;
    } else {
      assert (a + b)[0] == a[0];
      DropFirstAppend(a, b);
      EntriesForAppend(a[1..], b, id);
      var h := if a[0].bookId == id then [a[0]] else [];
      assert EntriesFor(a + b, id) == h + EntriesFor(a[1..] + b, id);
      AppendAssoc(h, EntriesFor(a[1..], id), EntriesFor(b, id));
    }
  }

  /** With later copies on the shelf, at most one record per id is borrowed. */
  lemma {:induction false} AtMostOneBorrowed(bs: seq<Book>, id: string)
    requires LaterCopiesAvailable(bs)
    ensures CountBorrowed(bs, id) <= 1
  {
    if bs != [] {
      assert LaterCopiesAvailable(bs[1..]) by {
        forall i, j | 0 <= i < j < |bs[1..]| && bs[1..][i].id == bs[1..][j].id
          ensures bs[1..][j].status != BORROWED
        {
          assert bs[1..][i] == bs[i + 1] && bs[1..][j] == bs[j + 1];
        }
      }
      AtMostOneBorrowed(bs[1..], id);
      if bs[0].id == id && bs[0].status == BORROWED {
        forall i | 0 <= i < |bs[1..]| && bs[1..][i].id == id ensures bs[1..][i].status != BORROWED {
          assert bs[1..][i] == bs[i + 1];
        }
      }
    }
  }

  /**
   * Borrowed status and ledger entries correspond one to one: a consistent
   * ledger holds exactly one entry for an id that has a borrowed record, and
   * none for any other id.
   */
  lemma OneEntryPerBorrowedBook(bs: seq<Book>, q: seq<BorrowEntry>, id: string)
    requires Consistent(bs, q)
    ensures |EntriesFor(q, id)| == if exists i :: 0 <= i < |bs| && bs[i].id == id && bs[i].status == BORROWED then 1 else 0
  {
    SameEntriesSameCount(q, LedgerView(bs), id);
    ViewEntriesFor(bs, id);
    AtMostOneBorrowed(bs, id);
  }
}
