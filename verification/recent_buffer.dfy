/** The recent-additions buffer: `BookStack`, capped at five entries. */
module RecentBuffer {
  import opened Wrappers
  import opened Seqs
  import opened Records

  const MaxSize: nat := 5

  /** The stored entries after one `push`: append, then drop the oldest if the cap is exceeded. */
  function PushBounded(items: seq<Book>, book: Book): (r: seq<Book>)
    ensures r != [] && r[|r| - 1] == book
    ensures |items| <= MaxSize ==> |r| <= MaxSize
    ensures |items| <= MaxSize ==> r == Newest(items + [book], MaxSize)
  {
    if |items| + 1 > MaxSize then (items + [book])[1..] else items + [book]
  }

  /** The stored entries after pushing each of `books` in turn. */
  function Pushes(items: seq<Book>, books: seq<Book>): seq<Book>
    decreases |books|
  {
    if books == [] then items else Pushes(PushBounded(items, books[0]), books[1..])
  }

  /** The last `n` elements of `s` (all of it when it is shorter). */
  function Newest(s: seq<Book>, n: nat): (r: seq<Book>)
    ensures |r| <= n && |r| <= |s|
  {
    if |s| <= n then s else s[|s| - n..]
  }

  /**
   * However many books are pushed, the buffer holds exactly the last five
   * books pushed (or all of them while fewer), oldest first: the oldest
   * entry is always the one evicted.
   */
  lemma {:induction false} PushesKeepNewest(items: seq<Book>, books: seq<Book>)
    requires |items| <= MaxSize
    ensures Pushes(items, books) == Newest(items + books, MaxSize)
    ensures |Pushes(items, books)| <= MaxSize
    decreases |books|
  {
    if books != [] {
      var next := PushBounded(items, books[0]);
      PushesKeepNewest(next, books[1..]);
      var all := items + books;
      ConsTail(books);
      assert items + [books[0]] + books[1..] == all;
      if |items| + 1 > MaxSize {
        DropFirstAppend(items + [books[0]], books[1..]);
        assert next + books[1..] == all[1..];
        if |all| > MaxSize + 1 {
          DropDrop(all, 1, |all| - 1 - MaxSize);
        }
      } else {
        assert next + books[1..] == all;
      }
    }
  }

  /** Pushing a list and then one more book is pushing the longer list. */
  lemma {:induction false} PushesAppend(items: seq<Book>, books: seq<Book>, book: Book)
    ensures Pushes(items, books + [book]) == PushBounded(Pushes(items, books), book)
    decreases |books|
  {
    if books == [] {
      assert [] + [book] == [book];
    } else {
      assert (books + [book])[0] == books[0];
      DropFirstAppend(books, [book]);
      PushesAppend(PushBounded(items, books[0]), books[1..], book);
    }
  }

  class BookStack {
    /** The entries, oldest first (the JavaScript array `items`). */
    var items: seq<Book>

    ghost predicate Valid()
      reads this
    {
      |items| <= MaxSize
    }

    constructor ()
      ensures Valid() && items == []
    {
      items := [];
    }

    /** `push`: append, and evict the oldest entry once there are more than five. */
    method Push(book: Book)
      requires Valid()
      modifies this
      ensures Valid()
      ensures items == PushBounded(old(items), book)
    {
      items := items + [book];
      if |items| > MaxSize {
        items := items[1..];
      }
    }

    /** `pop`: removes and returns the newest entry; `undefined` (None) when empty. */
    method Pop() returns (top: Option<Book>)
      modifies this
      ensures old(items) == [] ==> top == None && items == []
      ensures old(items) != [] ==> top == Some(old(items)[|old(items)| - 1]) && items == old(items)[..|old(items)| - 1]
    {
      if items == [] {
        return None;
      }
      top := Some(items[|items| - 1]);
      items := items[..|items| - 1];
    }

    /** `peek`: the newest entry, None when empty. */
    function Peek(): (top: Option<Book>)
      reads this
      ensures top.None? <==> items == []
      ensures top.Some? ==> top.value == items[|items| - 1]
    {
      if items == [] then None else Some(items[|items| - 1])
    }

    function IsEmpty(): (empty: bool)
      reads this
      ensures empty <==> |items| == 0
    {
      |items| == 0
    }

    function Size(): nat
      reads this
    {
      |items|
    }

    /** `toArray`: the entries newest first. */
    function ToArray(): (r: seq<Book>)
      reads this
      ensures |r| == |items|
      ensures forall i :: 0 <= i < |items| ==> r[i] == items[|items| - 1 - i]
    {
      Reverse(items)
    }
  }
}
