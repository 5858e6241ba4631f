/** The borrow ledger: `BorrowQueue`, active borrows in the order they were made. */
module BorrowLedger {
  import opened Wrappers
  import opened Seqs
  import opened Records

  /** `filter(item => String(item.bookId) !== id)`: the entries for other books, in their original order. */
  function KeepOthers(q: seq<BorrowEntry>, id: string): (r: seq<BorrowEntry>)
    ensures |r| <= |q|
    ensures forall e :: e in r ==> e in q && e.bookId != id
    ensures forall e :: e in q && e.bookId != id ==> e in r
  {
    if q == [] then []
    else if q[0].bookId == id then KeepOthers(q[1..], id)
    else [q[0]] + KeepOthers(q[1..], id)
  }

  /** Filtering distributes over concatenation, so the kept entries keep their relative order. */
  lemma {:induction false} KeepOthersAppend(a: seq<BorrowEntry>, b: seq<BorrowEntry>, id: string)
    ensures KeepOthers(a + b, id) == KeepOthers(a, id) + KeepOthers(b, id)
  {
    if a == [] {
      assert a + b == b;
    } else {
      assert (a + b)[0] == a[0];
      DropFirstAppend(a, b);
      KeepOthersAppend(a[1..], b, id);
      if a[0].bookId != id {
        AppendAssoc([a[0]], KeepOthers(a[1..], id), KeepOthers(b, id));
      }
    }
  }

  /** Every entry for another book survives with its multiplicity; none for `id` does. */
  lemma {:induction false} KeepOthersCount(q: seq<BorrowEntry>, id: string, e: BorrowEntry)
    ensures multiset(KeepOthers(q, id))[e] == if e.bookId == id then 0 else multiset(q)[e]
  {
    if q != [] {
      KeepOthersCount(q[1..], id, e);
      ConsTail(q);
    }
  }

  /** Entries that are all for other books are left as they are. */
  lemma {:induction false} KeepOthersNoMatch(q: seq<BorrowEntry>, id: string)
    requires forall i :: 0 <= i < |q| ==> q[i].bookId != id
    ensures KeepOthers(q, id) == q
  {
    if q != [] {
      KeepOthersNoMatch(q[1..], id);
    }
  }

  class BorrowQueue {
    /** The entries, oldest first (the JavaScript array `items`). */
    var items: seq<BorrowEntry>

    constructor ()
      ensures items == []
    {
      items := [];
    }

    /** `enqueue`: a copy of the entry goes at the back. */
    method Enqueue(request: BorrowEntry)
      modifies this
      ensures items == old(items) + [request]
    {
      items := items + [BorrowEntry(request.bookId, request.title, request.author,
                                    request.category, request.borrower, request.borrowDate)];
    }

    /** `dequeue`: removes and returns the oldest entry; `undefined` (None) on an empty ledger. */
    method Dequeue() returns (front: Option<BorrowEntry>)
      modifies this
      ensures old(items) == [] ==> front == None && items == []
      ensures old(items) != [] ==> front == Some(old(items)[0]) && items == old(items)[1..]
    {
      if items == [] {
        return None;
      }
      front := Some(items[0]);
      items := items[1..];
    }

    function IsEmpty(): (empty: bool)
      reads this
      ensures empty <==> |items| == 0
    {
      |items| == 0
    }

    function Size(): nat
      reads this
    {
      |items|
    }

    /** `toArray`: the entries in enqueue order. */
    function ToArray(): seq<BorrowEntry>
      reads this
    {
      items
    }

    /** `removeByBookId`: drops every entry for this book and keeps the rest in order. */
    method RemoveByBookId(bookId: string)
      modifies this
      ensures items == KeepOthers(old(items), bookId)
    {
      items := KeepOthers(items, bookId);
    }
  }
}
