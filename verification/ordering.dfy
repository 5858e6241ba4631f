/**
 * The ordering engine: `_compareKeys`, the unbalanced binary search tree
 * (`TreeNode` / `BinarySearchTree`) and `treeSort`.
 */
module Ordering {
  import opened Text
  import opened Seqs

  /** A sort key: a text, a number, `null`, or `undefined` (a missing field). */
  datatype Key = Str(s: string) | Num(n: int) | Null | Undefined

  /** Three-way ordinal comparison of two strings, character by character. */
  function CompareStrings(a: string, b: string): (c: int)
    ensures c == -1 || c == 0 || c == 1
    ensures c == 0 <==> a == b
  {
    if a == [] then (if b == [] then 0 else -1)
    else if b == [] then 1
    else if a[0] < b[0] then -1
    else if a[0] > b[0] then 1
    else
      var c := CompareStrings(a[1..], b[1..]);
      assert c == 0 ==> a == [a[0]] + a[1..] == [b[0]] + b[1..] == b;
      c
  }

  lemma {:induction false} CompareStringsFlip(a: string, b: string)
    ensures CompareStrings(a, b) == -CompareStrings(b, a)
  {
    if a != [] && b != [] && a[0] == b[0] {
      CompareStringsFlip(a[1..], b[1..]);
    }
  }

  lemma {:induction false} CompareStringsTrans(a: string, b: string, c: string)
    requires CompareStrings(a, b) <= 0 && CompareStrings(b, c) <= 0
    ensures CompareStrings(a, c) <= 0
  {
    if a != [] && b != [] && c != [] && a[0] == b[0] == c[0] {
      CompareStringsTrans(a[1..], b[1..], c[1..]);
    }
  }

  /** Keys JavaScript's `<` and `>` compare as numbers (`null` counts as 0). */
  predicate IsNumeric(k: Key)
  {
    k.Num? || k.Null?
  }

  function NumericValue(k: Key): int
    requires IsNumeric(k)
  {
    if k.Num? then k.n else 0
  }

  /**
   * `_compareKeys`: case-insensitive comparison of two texts; `undefined`
   * after everything else; `<`/`>` otherwise. A text against a number or
   * `null` gives 0, since `<` and `>` both fail once the text becomes NaN.
   */
  function CompareKeys(k1: Key, k2: Key): (c: int)
    ensures c == -1 || c == 0 || c == 1
    ensures k1.Undefined? && !k2.Undefined? ==> c == 1
    ensures !k1.Undefined? && k2.Undefined? ==> c == -1
    ensures k1.Str? && k2.Str? ==> (c == 0 <==> Lower(k1.s) == Lower(k2.s))
    ensures IsNumeric(k1) && IsNumeric(k2) ==> (c < 0 <==> NumericValue(k1) < NumericValue(k2))
  {
    if k1.Str? && k2.Str? then CompareStrings(Lower(k1.s), Lower(k2.s))
    else if k1.Undefined? && k2.Undefined? then 0
    else if k1.Undefined? then 1
    else if k2.Undefined? then -1
    else if k1.Str? || k2.Str? then 0
    else if NumericValue(k1) < NumericValue(k2) then -1
    else if NumericValue(k1) > NumericValue(k2) then 1
    else 0
  }

  /** Swapping the arguments negates the comparison, for every pair of keys. */
  lemma CompareKeysFlip(a: Key, b: Key)
    ensures CompareKeys(a, b) == -CompareKeys(b, a)
  {
    if a.Str? && b.Str? {
      CompareStringsFlip(Lower(a.s), Lower(b.s));
    }
  }

  /**
   * The kind of keys a sort can order consistently: texts (`textual`) or
   * numbers and nulls (not `textual`), with `undefined` allowed in both.
   */
  predicate KindOk(k: Key, textual: bool)
  {
    if textual then !IsNumeric(k) else !k.Str?
  }

  /** Within one kind, "compares at most" is transitive. */
  lemma CompareKeysTrans(a: Key, b: Key, c: Key, textual: bool)
    requires KindOk(a, textual) && KindOk(b, textual) && KindOk(c, textual)
    requires CompareKeys(a, b) <= 0 && CompareKeys(b, c) <= 0
    ensures CompareKeys(a, c) <= 0
  {
    if a.Str? && b.Str? && c.Str? {
      CompareStringsTrans(Lower(a.s), Lower(b.s), Lower(c.s));
    }
  }

  /** Within one kind, keys that compare equal compare alike against every other key. */
  lemma CompareKeysCongruent(a: Key, b: Key, z: Key, textual: bool)
    requires KindOk(a, textual) && KindOk(b, textual) && KindOk(z, textual)
    requires CompareKeys(a, b) == 0
    ensures CompareKeys(a, z) == CompareKeys(b, z)
  {
  }

  /** Every item's key is of the given kind. */
  ghost predicate OfKind<T>(s: seq<T>, keyOf: T -> Key, textual: bool)
  {
    forall x :: x in s ==> KindOk(keyOf(x), textual)
  }

  /** The items' keys can be ordered consistently: no text key sits beside a number or null key. */
  ghost predicate SingleKind<T>(s: seq<T>, keyOf: T -> Key)
  {
    OfKind(s, keyOf, true) || OfKind(s, keyOf, false)
  }

  /** Non-decreasing under `_compareKeys`. */
  ghost predicate SortedBy<T>(s: seq<T>, keyOf: T -> Key)
  {
    forall i, j :: 0 <= i < j < |s| ==> CompareKeys(keyOf(s[i]), keyOf(s[j])) <= 0
  }

  /** A `TreeNode` and everything below it; `Leaf` is a missing child. */
  datatype Tree<T> = Leaf | Node(left: Tree<T>, data: T, key: Key, right: Tree<T>)

  /** `_inOrder`: left subtree, the node, right subtree. */
  function InOrder<T>(t: Tree<T>): seq<T>
  {
    match t
    case Leaf => []
    case Node(l, d, _, r) => InOrder(l) + [d] + InOrder(r)
  }

  /**
   * `insert` / `_insertNode`: a key comparing below the node's goes left,
   * anything else (ties included) goes right; the tree then holds one more item.
   */
  function InsertNode<T>(t: Tree<T>, data: T, key: Key): (r: Tree<T>)
    ensures multiset(InOrder(r)) == multiset(InOrder(t)) + multiset{data}
  {
    match t
    case Leaf => Node(Leaf, data, key, Leaf)
    case Node(l, d, k, rt) =>
      if CompareKeys(key, k) < 0 then Node(InsertNode(l, data, key), d, k, rt)
      else Node(l, d, k, InsertNode(rt, data, key))
  }

  /** The binary-search-tree property, with every node keyed by `keyOf` of its item. */
  ghost predicate SearchTree<T>(t: Tree<T>, keyOf: T -> Key)
  {
    match t
    case Leaf => true
    case Node(l, d, k, r) =>
      && k == keyOf(d)
      && SearchTree(l, keyOf) && SearchTree(r, keyOf)
      && (forall x :: x in InOrder(l) ==> CompareKeys(keyOf(x), k) < 0)
      && (forall x :: x in InOrder(r) ==> CompareKeys(keyOf(x), k) >= 0)
  }

  /** The tree `treeSort` builds: the items inserted one after another, first to last. */
  function Build<T>(items: seq<T>, keyOf: T -> Key): Tree<T>
  {
    if items == [] then Leaf
    else InsertNode(Build(items[..|items| - 1], keyOf), items[|items| - 1], keyOf(items[|items| - 1]))
  }

  /** The in-order traversal of that tree: the ascending result of `treeSort`. */
  function TreeOrder<T>(items: seq<T>, keyOf: T -> Key): seq<T>
  {
    InOrder(Build(items, keyOf))
  }

  lemma {:induction false} InOrderMembers<T>(t: Tree<T>, data: T, key: Key, x: T)
    ensures x in InOrder(InsertNode(t, data, key)) <==> x in InOrder(t) || x == data
  {
    assert x in InOrder(InsertNode(t, data, key)) <==> x in multiset(InOrder(InsertNode(t, data, key)));
    assert x in InOrder(t) <==> x in multiset(InOrder(t));
  }

  /** Inserting an item keyed by `keyOf` keeps the search-tree property. */
  lemma {:induction false} InsertKeepsSearchTree<T>(t: Tree<T>, data: T, keyOf: T -> Key)
    requires SearchTree(t, keyOf)
    ensures SearchTree(InsertNode(t, data, keyOf(data)), keyOf)
  {
    match t
    case Leaf =>
    case Node(l, d, k, r) =>
      var key := keyOf(data);
      if CompareKeys(key, k) < 0 {
        InsertKeepsSearchTree(l, data, keyOf);
        forall x | x in InOrder(InsertNode(l, data, key)) ensures CompareKeys(keyOf(x), k) < 0 {
          InOrderMembers(l, data, key, x);
        }
      } else {
        InsertKeepsSearchTree(r, data, keyOf);
        forall x | x in InOrder(InsertNode(r, data, key)) ensures CompareKeys(keyOf(x), k) >= 0 {
          InOrderMembers(r, data, key, x);
        }
      }
  }

  /** The tree built from any items is a search tree. */
  lemma {:induction false} BuildIsSearchTree<T>(items: seq<T>, keyOf: T -> Key)
    ensures SearchTree(Build(items, keyOf), keyOf)
  {
    if items != [] {
      var init := items[..|items| - 1];
      BuildIsSearchTree(init, keyOf);
      InsertKeepsSearchTree(Build(init, keyOf), items[|items| - 1], keyOf);
    }
  }

  /** The tree built from any items holds exactly those items. */
  lemma {:induction false} BuildPermutes<T>(items: seq<T>, keyOf: T -> Key)
    ensures multiset(TreeOrder(items, keyOf)) == multiset(items)
  {
    if items != [] {
      var init := items[..|items| - 1];
      BuildPermutes(init, keyOf);
      SplitLast(items);
      assert multiset(items) == multiset(init) + multiset{items[|items| - 1]};
    }
  }

  /**
   * For keys of every kind: a key below the pivot `w` is at most any key not
   * below `w`. A key below `w` is of `w`'s own kind unless `w` is `undefined`.
   * The key not below `w` is then either of that kind too, where the
   * comparison is transitive, or of another kind: the lower key compares 0
   * against it (text against number or null) or -1 (against `undefined`).
   */
  lemma PivotSeparates(u: Key, w: Key, v: Key)
    requires CompareKeys(u, w) < 0 && CompareKeys(v, w) >= 0
    ensures CompareKeys(u, v) <= 0
  {
    CompareKeysFlip(v, w);
    if u.Str? && w.Str? && v.Str? {
      CompareKeysTrans(u, w, v, true);
    } else if IsNumeric(u) && IsNumeric(w) && IsNumeric(v) {
      CompareKeysTrans(u, w, v, false);
    }
  }

  /** A sorted left part, a pivot, and a sorted right part on the correct sides of it form a sorted sequence. */
  lemma {:induction false} SortedAroundPivot<T>(L: seq<T>, d: T, R: seq<T>, keyOf: T -> Key)
    requires SortedBy(L, keyOf) && SortedBy(R, keyOf)
    requires forall x :: x in L ==> CompareKeys(keyOf(x), keyOf(d)) < 0
    requires forall x :: x in R ==> CompareKeys(keyOf(x), keyOf(d)) >= 0
    ensures SortedBy(L + [d] + R, keyOf)
  {
    var s := L + [d] + R;
    var k := keyOf(d);
    assert d in s;
    forall y | y in R ensures CompareKeys(k, keyOf(y)) <= 0 {
      CompareKeysFlip(keyOf(y), k);
    }
    forall x, y | x in L && y in R ensures CompareKeys(keyOf(x), keyOf(y)) <= 0 {
      PivotSeparates(keyOf(x), k, keyOf(y));
    }
    forall i, j | 0 <= i < j < |s| ensures CompareKeys(keyOf(s[i]), keyOf(s[j])) <= 0 {
      if j < |L| {
        assert s[i] == L[i] && s[j] == L[j];
      } else if i > |L| {
        assert s[i] == R[i - |L| - 1] && s[j] == R[j - |L| - 1];
      } else if i == |L| {
        assert s[j] == R[j - |L| - 1];
      } else if j == |L| {
        assert s[i] == L[i];
      } else {
        assert s[i] == L[i] && s[j] == R[j - |L| - 1];
      }
    }
  }

  /** The in-order traversal of a search tree is sorted, whatever mix of keys it holds. */
  lemma {:induction false} SearchTreeSorted<T>(t: Tree<T>, keyOf: T -> Key)
    requires SearchTree(t, keyOf)
    ensures SortedBy(InOrder(t), keyOf)
  {
    match t
    case Leaf =>
    case Node(l, d, k, r) =>
      var L, R := InOrder(l), InOrder(r);
      assert InOrder(t) == L + [d] + R;
      SearchTreeSorted(l, keyOf);
      SearchTreeSorted(r, keyOf);
      SortedAroundPivot(L, d, R, keyOf);
  }

  /**
   * The ascending result of `treeSort` is a permutation of its input and
   * non-decreasing under `_compareKeys`, with `undefined` keys last, for
   * every mix of keys.
   */
  lemma TreeOrderSorted<T>(items: seq<T>, keyOf: T -> Key)
    ensures multiset(TreeOrder(items, keyOf)) == multiset(items)
    ensures SortedBy(TreeOrder(items, keyOf), keyOf)
  {
    BuildIsSearchTree(items, keyOf);
    BuildPermutes(items, keyOf);
    var s := TreeOrder(items, keyOf);
    forall x | x in s ensures x in items {
      assert x in multiset(s);
    }
    SearchTreeSorted(Build(items, keyOf), keyOf);
  }

  /** The items whose key compares equal to `k`, in their order. */
  function EqualKeyed<T>(s: seq<T>, keyOf: T -> Key, k: Key): seq<T>
  {
    if s == [] then []
    else (if CompareKeys(keyOf(s[0]), k) == 0 then [s[0]] else []) + EqualKeyed(s[1..], keyOf, k)
  }

  lemma {:induction false} EqualKeyedAppend<T>(a: seq<T>, b: seq<T>, keyOf: T -> Key, k: Key)
    ensures EqualKeyed(a + b, keyOf, k) == EqualKeyed(a, keyOf, k) + EqualKeyed(b, keyOf, k)
  {
    if a == [] {
      assert a + b == b;
    } else {
      assert (a + b)[0] == a[0];
      DropFirstAppend(a, b);
      EqualKeyedAppend(a[1..], b, keyOf, k);
      var h := if CompareKeys(keyOf(a[0]), k) == 0 then [a[0]] else [];
      assert EqualKeyed(a + b, keyOf, k) == h + EqualKeyed(a[1..] + b, keyOf, k);
      AppendAssoc(h, EqualKeyed(a[1..], keyOf, k), EqualKeyed(b, keyOf, k));
    }
  }

  lemma {:induction false} EqualKeyedNone<T>(s: seq<T>, keyOf: T -> Key, k: Key)
    requires forall x :: x in s ==> CompareKeys(keyOf(x), k) != 0
    ensures EqualKeyed(s, keyOf, k) == []
  {
    if s != [] {
      EqualKeyedNone(s[1..], keyOf, k);
    }
  }

  /** Nothing at or above a key that lies strictly above `k`'s class compares equal to `k`. */
  lemma {:induction false} NoneEqualAbove<T>(x: T, R: seq<T>, keyOf: T -> Key, kd: Key, k: Key, textual: bool)
    requires KindOk(kd, textual) && KindOk(k, textual) && KindOk(keyOf(x), textual)
    requires forall y :: y in R ==> KindOk(keyOf(y), textual)
    requires CompareKeys(kd, k) == 0 && CompareKeys(kd, keyOf(x)) < 0
    requires forall y :: y in R ==> CompareKeys(keyOf(y), keyOf(x)) >= 0
    ensures EqualKeyed([x] + R, keyOf, k) == []
  {
    var kx := keyOf(x);
    CompareKeysCongruent(kd, k, kx, textual);
    CompareKeysFlip(k, kx);
    forall y | y in [x] + R ensures CompareKeys(keyOf(y), k) != 0 {
      if y != x && CompareKeys(keyOf(y), k) == 0 {
        CompareKeysCongruent(keyOf(y), k, kx, textual);
      }
    }
    EqualKeyedNone([x] + R, keyOf, k);
  }

  /** The kind of a node's keys carries over to both subtrees and to the node itself. */
  lemma {:induction false} OfKindParts<T>(t: Tree<T>, keyOf: T -> Key, textual: bool)
    requires t.Node? && OfKind(InOrder(t), keyOf, textual)
    ensures OfKind(InOrder(t.left), keyOf, textual) && OfKind(InOrder(t.right), keyOf, textual)
    ensures KindOk(keyOf(t.data), textual)
  {
    assert InOrder(t) == InOrder(t.left) + [t.data] + InOrder(t.right);
  }

  /**
   * Inserting an item places it after every item already in the tree whose
   * key compares equal to its own: equal keys follow the same search path
   * and a tie goes right.
   */
  lemma {:induction false} InsertAfterEqualKeys<T>(t: Tree<T>, data: T, keyOf: T -> Key, k: Key, textual: bool)
    requires SearchTree(t, keyOf)
    requires OfKind(InOrder(t), keyOf, textual) && KindOk(keyOf(data), textual) && KindOk(k, textual)
    ensures EqualKeyed(InOrder(InsertNode(t, data, keyOf(data))), keyOf, k)
         == EqualKeyed(InOrder(t), keyOf, k) + EqualKeyed([data], keyOf, k)
  {
    var kd := keyOf(data);
    var D := EqualKeyed([data], keyOf, k);
    match t
    case Leaf =>
      assert InOrder(InsertNode(t, data, kd)) == [data];
      assert EqualKeyed(InOrder(t), keyOf, k) == [];
      assert EqualKeyed(InOrder(InsertNode(t, data, kd)), keyOf, k) == EqualKeyed(InOrder(t), keyOf, k) + D;
    case Node(l, x, kx, r) =>
      OfKindParts(t, keyOf, textual);
      var L, XR := InOrder(l), [x] + InOrder(r);
      EqualKeyedAppend(L, XR, keyOf, k);
      AppendAssoc(L, [x], InOrder(r));
      if CompareKeys(kd, kx) < 0 {
        InsertAfterEqualKeys(l, data, keyOf, k, textual);
        InsertLeftAfterEqualKeys(t, data, keyOf, k, textual);
      } else {
        var R, R' := InOrder(r), InOrder(InsertNode(r, data, kd));
        InsertAfterEqualKeys(r, data, keyOf, k, textual);
        assert InOrder(InsertNode(t, data, kd)) == (L + [x]) + R';
        assert InOrder(t) == (L + [x]) + R;
        EqualKeyedExtendRight(L + [x], R, R', keyOf, k, D);
      }
  }

  /** Growing the tail of a sequence by `D` in the projection grows the whole projection by `D`. */
  lemma {:induction false} EqualKeyedExtendRight<T>(A: seq<T>, R: seq<T>, R': seq<T>, keyOf: T -> Key, k: Key, D: seq<T>)
    requires EqualKeyed(R', keyOf, k) == EqualKeyed(R, keyOf, k) + D
    ensures EqualKeyed(A + R', keyOf, k) == EqualKeyed(A + R, keyOf, k) + D
  {
    EqualKeyedAppend(A, R', keyOf, k);
    EqualKeyedAppend(A, R, keyOf, k);
  }

  /** Growing a head by `D` grows the projection by `D` at the end, when the tail contributes nothing or `D` is empty. */
  lemma {:induction false} EqualKeyedExtendLeft<T>(L: seq<T>, L': seq<T>, XR: seq<T>, keyOf: T -> Key, k: Key, D: seq<T>)
    requires EqualKeyed(L', keyOf, k) == EqualKeyed(L, keyOf, k) + D
    requires D == [] || EqualKeyed(XR, keyOf, k) == []
    ensures EqualKeyed(L' + XR, keyOf, k) == EqualKeyed(L + XR, keyOf, k) + D
  {
    EqualKeyedAppend(L', XR, keyOf, k);
    EqualKeyedAppend(L, XR, keyOf, k);
    var EL, EXR := EqualKeyed(L, keyOf, k), EqualKeyed(XR, keyOf, k);
    if D == [] {
      AppendEmpty(EL);
      AppendEmpty(EL + EXR);
    } else {
      AppendEmpty(EL);
      AppendEmpty(EL + D);
    }
  }

  /** How the in-order sequence looks after an insertion that descends left at the root. */
  lemma {:induction false} InsertLeftShape<T>(t: Tree<T>, data: T, kd: Key)
    requires t.Node? && CompareKeys(kd, t.key) < 0
    ensures InOrder(t) == InOrder(t.left) + ([t.data] + InOrder(t.right))
    ensures InOrder(InsertNode(t, data, kd)) == InOrder(InsertNode(t.left, data, kd)) + ([t.data] + InOrder(t.right))
  {
    var L, L', R := InOrder(t.left), InOrder(InsertNode(t.left, data, kd)), InOrder(t.right);
    assert InOrder(t) == L + [t.data] + R;
    assert InOrder(InsertNode(t, data, kd)) == L' + [t.data] + R;
    Regroup(L, t.data, R);
    Regroup(L', t.data, R);
  }

  lemma Regroup<T>(a: seq<T>, x: T, b: seq<T>)
    ensures a + [x] + b == a + ([x] + b)
  {
  }

  /** The left-descent case of InsertAfterEqualKeys. */
  lemma {:induction false} InsertLeftAfterEqualKeys<T>(t: Tree<T>, data: T, keyOf: T -> Key, k: Key, textual: bool)
    requires t.Node? && t.key == keyOf(t.data) && CompareKeys(keyOf(data), t.key) < 0
    requires forall y :: y in InOrder(t.right) ==> CompareKeys(keyOf(y), t.key) >= 0
    requires OfKind(InOrder(t), keyOf, textual) && KindOk(keyOf(data), textual) && KindOk(k, textual)
    requires EqualKeyed(InOrder(InsertNode(t.left, data, keyOf(data))), keyOf, k)
          == EqualKeyed(InOrder(t.left), keyOf, k) + EqualKeyed([data], keyOf, k)
    ensures EqualKeyed(InOrder(InsertNode(t, data, keyOf(data))), keyOf, k)
         == EqualKeyed(InOrder(t), keyOf, k) + EqualKeyed([data], keyOf, k)
  {
    var kd := keyOf(data);
    OfKindParts(t, keyOf, textual);
    InsertLeftShape(t, data, kd);
    var D := EqualKeyed([data], keyOf, k);
    if CompareKeys(kd, k) == 0 {
      NoneEqualAbove(t.data, InOrder(t.right), keyOf, kd, k, textual);
    } else {
      EqualKeyedNone([data], keyOf, k);
    }
    EqualKeyedExtendLeft(InOrder(t.left), InOrder(InsertNode(t.left, data, kd)), [t.data] + InOrder(t.right), keyOf, k, D);
  }

  lemma {:induction false} BuildKeepsEqualKeyOrder<T>(items: seq<T>, keyOf: T -> Key, k: Key, textual: bool)
    requires OfKind(items, keyOf, textual) && KindOk(k, textual)
    ensures EqualKeyed(TreeOrder(items, keyOf), keyOf, k) == EqualKeyed(items, keyOf, k)
  {
    if items != [] {
      var init, last := items[..|items| - 1], items[|items| - 1];
      assert items == init + [last];
      assert forall y :: y in init ==> y in items;
      BuildKeepsEqualKeyOrder(init, keyOf, k, textual);
      BuildIsSearchTree(init, keyOf);
      BuildPermutes(init, keyOf);
      forall y | y in InOrder(Build(init, keyOf)) ensures KindOk(keyOf(y), textual) {
        assert y in multiset(InOrder(Build(init, keyOf)));
      }
      InsertAfterEqualKeys(Build(init, keyOf), last, keyOf, k, textual);
      EqualKeyedAppend(init, [last], keyOf, k);
    }
  }

  /**
   * `treeSort` is stable: the items whose keys compare equal to any item's key
   * come out in the order they went in (keys of one kind).
   */
  lemma TreeOrderStable<T>(items: seq<T>, keyOf: T -> Key, x: T)
    requires SingleKind(items, keyOf) && x in items
    ensures EqualKeyed(TreeOrder(items, keyOf), keyOf, keyOf(x)) == EqualKeyed(items, keyOf, keyOf(x))
  {
    if OfKind(items, keyOf, true) {
      BuildKeepsEqualKeyOrder(items, keyOf, keyOf(x), true);
    } else {
      BuildKeepsEqualKeyOrder(items, keyOf, keyOf(x), false);
    }
  }

  /** A tree built from at most one item reads back as that input. */
  lemma TreeOrderShort<T>(items: seq<T>, keyOf: T -> Key)
    requires |items| <= 1
    ensures TreeOrder(items, keyOf) == items
  {
    if |items| == 1 {
      assert items[..0] == [];
      assert Build(items, keyOf) == Node(Leaf, items[0], keyOf(items[0]), Leaf);
      assert InOrder(Build(items, keyOf)) == [] + [items[0]] + [];
    }
  }

  lemma ExampleKeys()
    ensures CompareKeys(Str("a"), Str("b")) < 0 && CompareKeys(Str("a"), Str("a")) == 0
  {
    assert Lower("a") == "a" && Lower("b") == "b";
    assert CompareStrings("a", "b") == -1;
  }

  /**
   * Ties keep their input order: of three items, the second and third with
   * equal keys below the first's, the traversal lists the second, the third,
   * then the first.
   */
  lemma TreeOrderTies<T>(x: T, y: T, z: T, keyOf: T -> Key)
    requires CompareKeys(keyOf(y), keyOf(x)) < 0 && keyOf(z) == keyOf(y)
    ensures TreeOrder([x, y, z], keyOf) == [y, z, x]
  {
    var kx, ky := keyOf(x), keyOf(y);
    BuildTiedThird(x, y, z, keyOf);
    InOrderOfThree(y, ky, z, ky, x, kx);
  }

  /** A third item keyed as the second hangs to the right of the second. */
  lemma BuildTiedThird<T>(x: T, y: T, z: T, keyOf: T -> Key)
    requires CompareKeys(keyOf(y), keyOf(x)) < 0 && keyOf(z) == keyOf(y)
    ensures Build([x, y, z], keyOf)
         == Node(Node(Leaf, y, keyOf(y), Node(Leaf, z, keyOf(y), Leaf)), x, keyOf(x), Leaf)
  {
    var kx, ky := keyOf(x), keyOf(y);
    TakeTriple(x, y, z);
    var t2 := Node(Node(Leaf, y, ky, Leaf), x, kx, Leaf);
    BuildSmallerSecond(x, y, keyOf);
    CompareKeysFlip(ky, ky);
    assert Build([x, y, z], keyOf) == InsertNode(t2, z, ky);
    assert InsertNode(Node(Leaf, y, ky, Leaf), z, ky) == Node(Leaf, y, ky, InsertNode(Leaf, z, ky));
  }

  lemma InOrderOfThree<T>(a: T, ka: Key, b: T, kb: Key, c: T, kc: Key)
    ensures InOrder(Node(Node(Leaf, a, ka, Node(Leaf, b, kb, Leaf)), c, kc, Leaf)) == [a, b, c]
  {
    assert InOrder(Node(Leaf, b, kb, Leaf)) == [b];
    assert InOrder(Node(Leaf, a, ka, Node(Leaf, b, kb, Leaf))) == [a, b];
  }

  /** A second item keyed below the first hangs to its left. */
  lemma BuildSmallerSecond<T>(x: T, y: T, keyOf: T -> Key)
    requires CompareKeys(keyOf(y), keyOf(x)) < 0
    ensures Build([x, y], keyOf) == Node(Node(Leaf, y, keyOf(y), Leaf), x, keyOf(x), Leaf)
  {
    var t1 := Node(Leaf, x, keyOf(x), Leaf);
    TakePair(x, y);
    assert Build([x], keyOf) == t1;
    assert Build([x, y], keyOf) == InsertNode(t1, y, keyOf(y));
    assert InsertNode(t1, y, keyOf(y)) == Node(InsertNode(Leaf, y, keyOf(y)), x, keyOf(x), Leaf);
  }

  /** Two items keyed "a" after one keyed "b" come out as both "a" items, in input order, then "b". */
  lemma TreeOrderTiesExample()
    ensures TreeOrder([("b", 0), ("a", 1), ("a", 2)], (p: (string, int)) => Str(p.0))
         == [("a", 1), ("a", 2), ("b", 0)]
  {
    ExampleKeys();
    TreeOrderTies(("b", 0), ("a", 1), ("a", 2), (p: (string, int)) => Str(p.0));
  }

  class BinarySearchTree<T> {
    var root: Tree<T>

    constructor ()
      ensures root == Leaf
    {
      root := Leaf;
    }

    /** `insert`: a new node hung below the first free child on the search path. */
    method Insert(data: T, key: Key)
      modifies this
      ensures root == InsertNode(old(root), data, key)
    {
      root := InsertNode(root, data, key);
    }

    /** `inOrderTraversal`. */
    method InOrderTraversal() returns (result: seq<T>)
      ensures result == InOrder(root)
    {
      result := AppendInOrder(root, []);
    }
  }

  /** `_inOrder(node, result)`: pushes the subtree's items, in order, after what `result` holds. */
  method AppendInOrder<T>(node: Tree<T>, result: seq<T>) returns (out: seq<T>)
    ensures out == result + InOrder(node)
  {
    match node
    case Leaf =>
      out := result;
    case Node(l, d, _, r) =>
      out := AppendInOrder(l, result);
      out := out + [d];
      out := AppendInOrder(r, out);
  }

  /** The loop of `treeSort` that inserts every item, in input order, into a new tree. */
  method BuildTree<T>(items: seq<T>, keyOf: T -> Key) returns (tree: BinarySearchTree<T>)
    ensures fresh(tree) && tree.root == Build(items, keyOf)
  {
    tree := new BinarySearchTree<T>();
    for i := 0 to |items|
      invariant tree.root == Build(items[..i], keyOf)
    {
      TakeTake(items, i, i + 1);
      tree.Insert(items[i], keyOf(items[i]));
    }
    TakeAll(items);
  }

  /**
   * `treeSort(items, key, ascending)`: inputs of length at most one come back
   * as they are; otherwise the items are inserted into a fresh tree in input
   * order and read back in order, reversed when `ascending` is false.
   */
  method TreeSort<T>(items: seq<T>, keyOf: T -> Key, ascending: bool) returns (r: seq<T>)
    ensures |items| <= 1 ==> r == items
    ensures multiset(r) == multiset(items)
    ensures ascending ==> SortedBy(r, keyOf)
    ensures !ascending ==> forall i, j :: 0 <= i < j < |r| ==> CompareKeys(keyOf(r[i]), keyOf(r[j])) >= 0
    ensures r == if ascending then TreeOrder(items, keyOf) else Reverse(TreeOrder(items, keyOf))
  {
    if |items| <= 1 {
      TreeOrderShort(items, keyOf);
      return items;
    }
    var tree := BuildTree(items, keyOf);
    var sorted := tree.InOrderTraversal();
    TreeOrderSorted(items, keyOf);
    if ascending {
      r := sorted;
    } else {
      r := Reverse(sorted);
      ReversePermutes(sorted);
      forall i, j | 0 <= i < j < |r| ensures CompareKeys(keyOf(r[i]), keyOf(r[j])) >= 0 {
        CompareKeysFlip(keyOf(r[i]), keyOf(r[j]));
      }
    }
  }
}
