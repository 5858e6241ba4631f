/** The catalog store: `BookLinkedList`, a singly linked list of book records. */
module CatalogStore {
  import opened Wrappers
  import opened Records

  /**
   * The node `add` builds from the object it is given: a missing or empty
   * status becomes "Available", an empty borrower or borrow date becomes null.
   */
  function NodeFor(book: Book): (r: Book)
    ensures r.id == book.id && r.title == book.title && r.author == book.author && r.category == book.category
    ensures book.status == "" ==> r.status == AVAILABLE
    ensures book.status != "" ==> r.status == book.status
    ensures book.borrower == Some("") ==> r.borrower.None?
    ensures book.borrower != Some("") ==> r.borrower == book.borrower
    ensures book.borrowDate == Some("") ==> r.borrowDate.None?
    ensures book.borrowDate != Some("") ==> r.borrowDate == book.borrowDate
  {
    Book(book.id, book.title, book.author, book.category,
         if book.status == "" then AVAILABLE else book.status,
         if book.borrower == Some("") then None else book.borrower,
         if book.borrowDate == Some("") then None else book.borrowDate)
  }

  /** Position of the first record whose id is `id`, or None when no record has it. */
  function FirstIndex(s: seq<Book>, id: string): (r: Option<nat>)
    ensures r.Some? ==> r.value < |s| && s[r.value].id == id
    ensures r.Some? ==> forall j :: 0 <= j < r.value ==> s[j].id != id
    ensures r.None? <==> forall j :: 0 <= j < |s| ==> s[j].id != id
  {
    if s == [] then None
    else if s[0].id == id then Some(0)
    else match FirstIndex(s[1..], id)
      case None => None
      case Some(k) => Some(k + 1)
  }

  /**
   * The list after unlinking the first record whose id is `id` (its
   * predecessor is linked to its successor); the list itself when there is none.
   */
  function RemoveFirst(s: seq<Book>, id: string): (r: seq<Book>)
    ensures FirstIndex(s, id).None? ==> r == s
    ensures FirstIndex(s, id).Some? ==> |r| == |s| - 1
    ensures FirstIndex(s, id).Some? ==> multiset(r) == multiset(s) - multiset{s[FirstIndex(s, id).value]}
    ensures FirstIndex(s, id).Some? ==>
      var k := FirstIndex(s, id).value;
      && (forall j :: 0 <= j < k ==> r[j] == s[j])
      && (forall j :: k <= j < |r| ==> r[j] == s[j + 1])
  {
    match FirstIndex(s, id)
    case None => s
    case Some(k) =>
      assert s == s[..k] + [s[k]] + s[k + 1..];
      s[..k] + s[k + 1..]
  }

  /** Rewriting a record in place without changing its id leaves every first match where it was. */
  lemma {:induction false} FirstIndexAfterUpdate(s: seq<Book>, k: nat, b: Book, id: string)
    requires k < |s| && b.id == s[k].id
    ensures FirstIndex(s[k := b], id) == FirstIndex(s, id)
  {
    if k > 0 {
      assert s[k := b][1..] == s[1..][k - 1 := b];
      FirstIndexAfterUpdate(s[1..], k - 1, b, id);
    }
  }

  class BookLinkedList {
    /** The records in link order, from `head` to the last node. */
    var nodes: seq<Book>

    constructor ()
      ensures nodes == []
    {
      nodes := [];
    }

    /** `add`: the new node goes after the last one; the records before it are untouched. */
    method Add(book: Book)
      modifies this
      ensures nodes == old(nodes) + [NodeFor(book)]
    {
      nodes := nodes + [NodeFor(book)];
    }

    /** `find`: the position of the first record with this id (the node `find` returns), or None for `null`. */
    method Find(id: string) returns (r: Option<nat>)
      ensures r.Some? ==> r.value < |nodes| && nodes[r.value].id == id
      ensures r.Some? ==> forall j :: 0 <= j < r.value ==> nodes[j].id != id
      ensures r.None? <==> forall j :: 0 <= j < |nodes| ==> nodes[j].id != id
      ensures r == FirstIndex(nodes, id)
    {
      var i := 0;
      while i < |nodes|
        invariant 0 <= i <= |nodes|
        invariant forall j :: 0 <= j < i ==> nodes[j].id != id
      {
        if nodes[i].id == id {
          return Some(i);
        }
        i := i + 1;
      }
      return None;
    }

    /** `remove`: unlinks the first record with this id and reports whether there was one. */
    method Remove(id: string) returns (removed: bool)
      modifies this
      ensures removed <==> FirstIndex(old(nodes), id).Some?
      ensures nodes == RemoveFirst(old(nodes), id)
    {
      if nodes == [] {
        return false;
      }
      if nodes[0].id == id {
        nodes := nodes[1..];
        return true;
      }
      var i := 0;
      while i + 1 < |nodes| && nodes[i + 1].id != id
        invariant 0 <= i < |nodes|
        invariant forall j :: 0 <= j <= i ==> nodes[j].id != id
      {
        i := i + 1;
      }
      if i + 1 < |nodes| {
        assert FirstIndex(nodes, id) == Some(i + 1);
        nodes := nodes[..i + 1] + nodes[i + 2..];
        return true;
      }
      return false;
    }

    /** `toArray`: a copy of every record, in list order. */
    method ToArray() returns (result: seq<Book>)
      ensures result == nodes
    {
      result := [];
      var i := 0;
      while i < |nodes|
        invariant 0 <= i <= |nodes|
        invariant result == nodes[..i]
      {
        var current := nodes[i];
        result := result + [Book(current.id, current.title, current.author, current.category,
                                 current.status, current.borrower, current.borrowDate)];
        i := i + 1;
      }
    }

    /**
     * `getSize`: the number of nodes. This is a plain count of the positions
     * of `nodes`; it reads no node, as the walk along `next` reads none.
     */
    method GetSize() returns (count: nat)
      ensures count == |nodes|
    {
      count := 0;
      while count < |nodes|
        invariant count <= |nodes|
      {
        count := count + 1;
      }
    }

    /** `clear`. */
    method Clear()
      modifies this
      ensures nodes == []
    {
      nodes := [];
    }

    /**
     * The assignments borrow and return make through the node `find` returned:
     * the record at that position is replaced, the others stay as they were.
     */
    method UpdateNode(i: nat, book: Book)
      requires i < |nodes|
      modifies this
      ensures nodes == old(nodes)[i := book]
    {
      nodes := nodes[i := book];
    }
  }
}
