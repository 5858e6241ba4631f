/**
 * The id generator, `generateBookId`: category prefix (the code padded to two
 * characters) followed by a three-digit running number, one more than the
 * number of catalog ids that already start with that prefix.
 */
module Identifiers {
  import opened Seqs
  import opened Text
  import opened Records

  /** The id prefix of a category code: `String(code).padStart(2, "0")`. */
  function Prefix(code: string): (p: string)
    ensures |code| <= 2 <==> |p| == 2
    ensures |p| >= |code| && p[|p| - |code|..] == code
  {
    PadStart(code, 2)
  }

  /** The running-number part of an id: `String(n).padStart(3, "0")`. */
  function RunningNumber(n: nat): (r: string)
    ensures n < 1000 ==> |r| == 3
    ensures |r| >= 3
  {
    PadStart(NatToString(n), 3)
  }

  /** The running number is a run of digits that reads back as the number. */
  lemma RunningNumberValue(n: nat)
    ensures IsDigits(RunningNumber(n)) && DigitsValue(RunningNumber(n)) == n
  {
    PaddedNumberRoundTrip(n, 3);
  }

  /** The number of records whose id starts with `p`: the counting loop of `generateBookId`. */
  function CountWithPrefix(bs: seq<Book>, p: string): (r: nat)
    ensures r <= |bs|
  {
    if bs == [] then 0
    else CountWithPrefix(bs[..|bs| - 1], p) + (if StartsWith(bs[|bs| - 1].id, p) then 1 else 0)
  }

  /** `generateBookId(code)` over the catalog `bs`. */
  function NextId(bs: seq<Book>, code: string): (id: string)
    ensures StartsWith(id, Prefix(code))
    ensures |code| <= 2 && CountWithPrefix(bs, Prefix(code)) < 999 ==> |id| == 5
  {
    var p := Prefix(code);
    var id := p + RunningNumber(CountWithPrefix(bs, p) + 1);
    assert id[..|p|] == p;
    id
  }

  /** After the prefix, the generated id is the decimal form of one more than the number of ids with that prefix. */
  lemma NextIdNumber(bs: seq<Book>, code: string)
    ensures IsDigits(NextId(bs, code)[|Prefix(code)|..])
    ensures DigitsValue(NextId(bs, code)[|Prefix(code)|..]) == CountWithPrefix(bs, Prefix(code)) + 1
  {
    var p := Prefix(code);
    var n := CountWithPrefix(bs, p) + 1;
    assert NextId(bs, code)[|p|..] == RunningNumber(n);
    RunningNumberValue(n);
  }

  /**
   * The id at position `i` is its two-character prefix followed by the number
   * of ids with that prefix among positions 0 to `i`.
   */
  ghost predicate NumberedAt(bs: seq<Book>, i: nat)
    requires i < |bs|
  {
    var id := bs[i].id;
    |id| >= 2 && id == id[..2] + RunningNumber(CountWithPrefix(bs[..i + 1], id[..2]))
  }

  /**
   * Every id is its own two-character prefix followed by its rank among the
   * ids with that prefix up to and including itself: the shape a catalog has
   * when every record came from `generateBookId` and none was deleted. It is
   * built up one record at a time, as the catalog is.
   */
  ghost predicate WellNumbered(bs: seq<Book>)
    decreases |bs|
  {
    bs == [] || (WellNumbered(bs[..|bs| - 1]) && NumberedAt(bs, |bs| - 1))
  }

  /** Adding a record under the generated id of a code of at most two characters keeps the catalog well numbered. */
  lemma NextIdKeepsWellNumbered(bs: seq<Book>, code: string, b: Book)
    requires WellNumbered(bs) && |code| <= 2 && b.id == NextId(bs, code)
    ensures WellNumbered(bs + [b])
  {
    TakeConcat(bs, [b]);
    NumberedAtNext(bs, code, b);
  }

  /** Two catalogs with the same id at every position. */
  predicate SameIds(a: seq<Book>, b: seq<Book>)
  {
    |a| == |b| && forall i :: 0 <= i < |a| ==> a[i].id == b[i].id
  }

  /** The count of ids with a prefix sees only the ids. */
  lemma {:induction false} CountSameIds(a: seq<Book>, b: seq<Book>, p: string)
    requires SameIds(a, b)
    ensures CountWithPrefix(a, p) == CountWithPrefix(b, p)
    decreases |a|
  {
    if a != [] {
      var n := |a|;
      var a', b' := a[..n - 1], b[..n - 1];
      assert SameIds(a', b') by {
        forall i | 0 <= i < n - 1 ensures a'[i].id == b'[i].id {
          assert a'[i] == a[i] && b'[i] == b[i];
        }
      }
      CountSameIds(a', b', p);
      assert a[n - 1].id == b[n - 1].id;
    }
  }

  /** Whether a position is numbered correctly depends on the ids alone. */
  lemma NumberedAtSameIds(a: seq<Book>, b: seq<Book>, i: nat)
    requires SameIds(a, b) && i < |a| && NumberedAt(a, i)
    ensures NumberedAt(b, i)
  {
    var a', b' := a[..i + 1], b[..i + 1];
    assert SameIds(a', b') by {
      forall j | 0 <= j <= i ensures a'[j].id == b'[j].id {
        assert a'[j] == a[j] && b'[j] == b[j];
      }
    }
    CountSameIds(a', b', a[i].id[..2]);
  }

  /** Whether a catalog is well numbered depends on its ids alone. */
  lemma {:induction false} WellNumberedSameIds(a: seq<Book>, b: seq<Book>)
    requires SameIds(a, b) && WellNumbered(a)
    ensures WellNumbered(b)
    decreases |a|
  {
    if a != [] {
      var n := |a|;
      var a', b' := a[..n - 1], b[..n - 1];
      assert SameIds(a', b') by {
        forall i | 0 <= i < n - 1 ensures a'[i].id == b'[i].id {
          assert a'[i] == a[i] && b'[i] == b[i];
        }
      }
      WellNumberedSameIds(a', b');
      NumberedAtSameIds(a, b, n - 1);
    }
  }

  /** Rewriting a record in place under the same id, as borrowing and returning do, keeps the catalog well numbered. */
  lemma UpdateKeepsWellNumbered(bs: seq<Book>, k: nat, b: Book)
    requires WellNumbered(bs) && k < |bs| && b.id == bs[k].id
    ensures WellNumbered(bs[k := b])
  {
    var bs' := bs[k := b];
    assert SameIds(bs, bs') by {
      forall i | 0 <= i < |bs| ensures bs[i].id == bs'[i].id {
        if i != k { assert bs'[i] == bs[i]; }
      }
    }
    WellNumberedSameIds(bs, bs');
  }

  /** In a well-numbered catalog every position is numbered correctly. */
  lemma {:induction false} WellNumberedAt(bs: seq<Book>, i: nat)
    requires WellNumbered(bs) && i < |bs|
    ensures NumberedAt(bs, i)
    decreases |bs|
  {
    if i < |bs| - 1 {
      var init := bs[..|bs| - 1];
      WellNumberedAt(init, i);
      NumberedAtExtend(init, bs[|bs| - 1], i);
      SplitLast(bs);
    }
  }

  /** Appending a record leaves the numbering of the earlier positions as it was. */
  lemma NumberedAtExtend(bs: seq<Book>, b: Book, i: nat)
    requires i < |bs| && NumberedAt(bs, i)
    ensures NumberedAt(bs + [b], i)
  {
    TakeAppend(bs, [b], i + 1);
    assert (bs + [b])[i] == bs[i];
  }

  /** A record appended under the generated id is numbered correctly at its position. */
  lemma NumberedAtNext(bs: seq<Book>, code: string, b: Book)
    requires |code| <= 2 && b.id == NextId(bs, code)
    ensures NumberedAt(bs + [b], |bs|)
  {
    var bs' := bs + [b];
    var p := Prefix(code);
    TakeAll(bs');
    TakeConcat(bs, [b]);
    assert bs'[|bs|] == b;
    TakeConcat(p, RunningNumber(CountWithPrefix(bs, p) + 1));
    assert CountWithPrefix(bs', p) == CountWithPrefix(bs, p) + 1;
  }

  /** Counting over a longer prefix of the catalog never counts fewer. */
  lemma {:induction false} CountMonotone(bs: seq<Book>, p: string, m: nat, n: nat)
    requires m <= n <= |bs|
    ensures CountWithPrefix(bs[..m], p) <= CountWithPrefix(bs[..n], p)
    decreases n
  {
    if m < n {
      assert bs[..n][..n - 1] == bs[..n - 1];
      CountMonotone(bs, p, m, n - 1);
    }
  }

  /** In a well-numbered catalog no two records share an id. */
  lemma WellNumberedDistinct(bs: seq<Book>)
    requires WellNumbered(bs)
    ensures forall i, j :: 0 <= i < j < |bs| ==> bs[i].id != bs[j].id
  {
    forall i, j | 0 <= i < j < |bs| ensures bs[i].id != bs[j].id {
      WellNumberedAt(bs, i);
      WellNumberedAt(bs, j);
      DistinctRanks(bs, i, j);
    }
  }

  /** Two well-numbered positions with the same prefix carry different running numbers. */
  lemma DistinctRanks(bs: seq<Book>, i: nat, j: nat)
    requires i < j < |bs| && NumberedAt(bs, i) && NumberedAt(bs, j)
    ensures bs[i].id != bs[j].id
  {
    if bs[i].id == bs[j].id {
      var p := bs[i].id[..2];
      SameIdSameRank(bs, i, j);
      assert StartsWith(bs[j].id, p);
      CountGrows(bs, p, i, j);
    }
  }

  /** Equal well-numbered ids carry equal running numbers. */
  lemma SameIdSameRank(bs: seq<Book>, i: nat, j: nat)
    requires i < |bs| && j < |bs| && NumberedAt(bs, i) && NumberedAt(bs, j) && bs[i].id == bs[j].id
    ensures CountWithPrefix(bs[..i + 1], bs[i].id[..2]) == CountWithPrefix(bs[..j + 1], bs[i].id[..2])
  {
    var p := bs[i].id[..2];
    DropConcat(p, RunningNumber(CountWithPrefix(bs[..i + 1], p)));
    DropConcat(p, RunningNumber(CountWithPrefix(bs[..j + 1], p)));
    RunningNumberValue(CountWithPrefix(bs[..i + 1], p));
    RunningNumberValue(CountWithPrefix(bs[..j + 1], p));
  }

  /** A later id with the prefix raises the count. */
  lemma CountGrows(bs: seq<Book>, p: string, i: nat, j: nat)
    requires i < j < |bs| && StartsWith(bs[j].id, p)
    ensures CountWithPrefix(bs[..i + 1], p) < CountWithPrefix(bs[..j + 1], p)
  {
    CountMonotone(bs, p, i + 1, j);
    assert bs[..j + 1][..j] == bs[..j];
    assert bs[..j + 1][j] == bs[j];
  }

  /** In a well-numbered catalog, the id generated for a code of at most two characters is not taken yet. */
  lemma NextIdIsFresh(bs: seq<Book>, code: string)
    requires WellNumbered(bs) && |code| <= 2
    ensures forall i :: 0 <= i < |bs| ==> bs[i].id != NextId(bs, code)
  {
    var b := Book(NextId(bs, code), "", "", "", AVAILABLE, Wrappers.None, Wrappers.None);
    NumberedAtNext(bs, code, b);
    forall i | 0 <= i < |bs| ensures bs[i].id != NextId(bs, code) {
      WellNumberedAt(bs, i);
      NumberedAtExtend(bs, b, i);
      DistinctRanks(bs + [b], i, |bs|);
      assert (bs + [b])[i] == bs[i] && (bs + [b])[|bs|] == b;
    }
  }

  /** A catalog all of whose ids start with `p` counts every record. */
  lemma {:induction false} CountAllPrefixed(bs: seq<Book>, p: string)
    requires forall i :: 0 <= i < |bs| ==> StartsWith(bs[i].id, p)
    ensures CountWithPrefix(bs, p) == |bs|
  {
    if bs != [] {
      CountAllPrefixed(bs[..|bs| - 1], p);
    }
  }

  /** Records added one after another in one category, starting from an empty catalog, are numbered 1, 2, 3, ... */
  lemma SuccessiveIds(bs: seq<Book>, code: string)
    requires forall i :: 0 <= i < |bs| ==> bs[i].id == NextId(bs[..i], code)
    ensures forall i :: 0 <= i < |bs| ==> bs[i].id == Prefix(code) + RunningNumber(i + 1)
  {
    var p := Prefix(code);
    forall i | 0 <= i < |bs| ensures bs[i].id == p + RunningNumber(i + 1) {
      forall j | 0 <= j < |bs[..i]| ensures StartsWith(bs[..i][j].id, p) {
        assert bs[..i][j] == bs[j];
      }
      CountAllPrefixed(bs[..i], p);
    }
  }

  /** The first three running numbers. */
  lemma RunningNumberExamples()
    ensures RunningNumber(1) == "001" && RunningNumber(2) == "002" && RunningNumber(3) == "003"
  {
    assert NatToString(1) == "1" && NatToString(2) == "2" && NatToString(3) == "3";
  }

  /** Three records added in category "01" to an empty catalog get the ids 01001, 01002 and 01003. */
  lemma ThreeAddsExample(bs: seq<Book>)
    requires |bs| == 3
    requires forall i :: 0 <= i < |bs| ==> bs[i].id == NextId(bs[..i], "01")
    ensures bs[0].id == "01001" && bs[1].id == "01002" && bs[2].id == "01003"
  {
    SuccessiveIds(bs, "01");
    assert Prefix("01") == "01";
    RunningNumberExamples();
  }

  /**
   * The count-based numbering can hand out an id that is still in use: with
   * 01001 and 01002 in the catalog, deleting 01001 leaves one "01" id, so the
   * next id generated for category "01" is 01002 again.
   */
  lemma DeleteThenAddCollides(b1: Book, b2: Book)
    requires b1.id == "01001" && b2.id == "01002"
    ensures NextId([b2], "01") == b2.id
    ensures !WellNumbered([b2])
  {
    assert Prefix("01") == "01";
    assert [b2][..0] == [];
    assert StartsWith(b2.id, "01");
    assert CountWithPrefix([b2], "01") == 1;
    assert RunningNumber(2) == "002" by { assert NatToString(2) == "2"; }
    assert [b2][..1] == [b2];
    assert RunningNumber(1) == "001" by { assert NatToString(1) == "1"; }
    assert b2.id[..2] == "01";
    assert b2.id != "01" + "001" by { assert b2.id[4] == '2'; }
    assert !NumberedAt([b2], 0);
  }
}
