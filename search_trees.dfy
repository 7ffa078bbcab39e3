/**
 * What `find`, `findMin` and `remove` of the binary search tree do, stated on tree values:
 * the node a search stops at, the splice that `replaceNodeInParent` performs, and the
 * removal that copies the in-order successor into a node with two children.
 */
module SearchTrees {
  import opened BinaryTrees
  import LinkedLists

  /** The subtree a search for `v` stops at: a node holding `v`, or an empty slot. */
  function Found<K>(t: Tree<K>, v: int): Tree<K>
  {
    At(t, SearchPath(t, v))
  }

  predicate TwoChildren<K>(n: Tree<K>)
  {
    n.Node? && n.left.Node? && n.right.Node?
  }

  /** The child that takes a node's place: its left child if any, else its right child (possibly empty). */
  function Promoted<K>(n: Tree<K>): Tree<K>
    requires n.Node?
  {
    if n.left.Node? then n.left else n.right
  }

  /** `replaceNodeInParent(node, child)`: the node at `p`, with at most one child, gives way to that child. */
  function Splice<K>(t: Tree<K>, p: Path): Tree<K>
    requires OnTree(t, p) && At(t, p).Node?
  {
    ReplaceAt(t, p, Promoted(At(t, p)))
  }

  /**
   * What `remove(v)` needs in order to finish: the tree is not empty, because `find`
   * reads the root's value, and when the node found has two children its successor holds
   * a different value, because otherwise the recursive `remove` finds the same node again.
   */
  predicate Removable<K>(t: Tree<K>, v: int)
  {
    t.Node? && (TwoChildren(Found(t, v)) ==> MinValue(Found(t, v).right) != v)
  }

  /** The node at `p`, if there is one, with its value replaced by `m`. */
  function SetValueAt<K>(t: Tree<K>, p: Path, m: int): Tree<K>
  {
    var n := At(t, p);
    ReplaceAt(t, p, if n.Node? then Node(n.left, n.key, m, n.right) else n)
  }

  /** The tree without its leftmost node, whose right subtree takes its place. */
  function RemoveMin<K>(t: Tree<K>): Tree<K>
    requires t.Node?
  {
    if t.left.Leaf? then t.right else Node(RemoveMin(t.left), t.key, t.value, t.right)
  }

  /**
   * `remove(v)`: nothing when no node holds `v`; the splice when the node found has at
   * most one child; otherwise the removal of the successor `m`, searched again from the
   * root, followed by writing `m` into the node found.
   */
  function RemoveTree<K>(t: Tree<K>, v: int): Tree<K>
    requires Ordered(t) && Removable(t, v)
  {
    SearchOnTree(t, v);
    var n := Found(t, v);
    if n.Leaf? then t
    else if TwoChildren(n) then
      var m := MinValue(n.right);
      SuccessorSearch(t, v);
      SetValueAt(Splice(t, SearchPath(t, m)), SearchPath(t, v), m)
    else Splice(t, SearchPath(t, v))
  }

  // ---------------------------------------------------------------------------
  // Lemmas
  // ---------------------------------------------------------------------------

  /** A subtree of an ordered tree is ordered, and its values are values of the whole tree. */
  lemma {:induction false} AtOrdered<K>(t: Tree<K>, p: Path)
    requires OnTree(t, p)
    ensures Ordered(t) ==> Ordered(At(t, p))
    ensures forall x | x in Elems(At(t, p)) :: x in Elems(t)
  {
    if p != [] {
      AtOrdered(Child(t, p[0]), p[1..]);
    }
  }

  /** The subtree at a path has distinct keys when the whole tree does. */
  lemma {:induction false} AtDistinct<K>(t: Tree<K>, p: Path)
    requires OnTree(t, p) && DistinctKeys(t)
    ensures DistinctKeys(At(t, p))
  {
    if p != [] {
      AtDistinct(Child(t, p[0]), p[1..]);
    }
  }

  /** On an ordered tree the search for the least value walks down the left spine. */
  lemma {:induction false} MinSearch<K>(t: Tree<K>)
    requires Ordered(t) && t.Node?
    ensures SearchPath(t, MinValue(t)) == LeftSpine(t)
  {
    if t.left.Node? {
      MinValueLeast(t.left);
      MinSearch(t.left);
    }
  }

  /**
   * When the node a search for `v` stops at has a right child whose least value `m`
   * differs from `v`, the search for `m` goes the same way, turns right there and then
   * follows the left spine of that right child.
   */
  lemma {:induction false} SuccessorPath<K>(t: Tree<K>, v: int, m: int)
    requires Ordered(t)
    requires Found(t, v).Node? && Found(t, v).right.Node?
    requires m == MinValue(Found(t, v).right) && m != v
    ensures SearchPath(t, m) == SearchPath(t, v) + ([Right] + LeftSpine(Found(t, v).right))
    decreases t, 1
  {
    SuccessorBounds(t, v, m);
    if t.value == v {
      MinSearch(t.right);
      assert SearchPath(t, v) == [];
      assert Found(t, v) == t;
      assert SearchPath(t, m) == [Right] + SearchPath(t.right, m);
    } else {
      SuccessorPathBelow(t, v, m);
    }
  }

  /** `SuccessorPath` when the search for `v` goes on below the root: both searches take the same first step. */
  lemma {:induction false} SuccessorPathBelow<K>(t: Tree<K>, v: int, m: int)
    requires Ordered(t) && t.Node? && t.value != v && v < m
    requires Found(t, v).Node? && Found(t, v).right.Node?
    requires m == MinValue(Found(t, v).right)
    ensures SearchPath(t, m) == SearchPath(t, v) + ([Right] + LeftSpine(Found(t, v).right))
    decreases t, 0
  {
    var d := if v < t.value then Left else Right;
    var c := Child(t, d);
    var sc := SearchPath(c, v);
    assert SearchPath(t, v) == [d] + sc;
    assert Found(t, v) == At(c, sc);
    SuccessorBounds(c, v, m);
    SuccessorPath(c, v, m);
    if d == Left {
      assert m < t.value;
    }
    var y := [Right] + LeftSpine(Found(t, v).right);
    assert SearchPath(c, m) == sc + y;
    assert SearchPath(t, m) == [d] + (sc + y);
    ConsAssoc(d, sc, y);
  }

  lemma ConsAssoc(d: Dir, a: Path, b: Path)
    ensures [d] + (a + b) == ([d] + a) + b
  {
  }

  /** The successor of the node found for `v` is larger than `v` and is a value of the tree. */
  lemma SuccessorBounds<K>(t: Tree<K>, v: int, m: int)
    requires Ordered(t)
    requires Found(t, v).Node? && Found(t, v).right.Node?
    requires m == MinValue(Found(t, v).right) && m != v
    ensures v < m && m in Elems(t)
  {
    SearchOnTree(t, v);
    var n := Found(t, v);
    AtOrdered(t, SearchPath(t, v));
    MinValueLeast(n.right);
    assert m in Elems(n);
  }

  /**
   * When the node found for `v` has two children and a successor value other than `v`,
   * the search for that successor stops at the successor node, which has no left child.
   */
  lemma SuccessorSearch<K>(t: Tree<K>, v: int)
    requires Ordered(t) && Removable(t, v) && TwoChildren(Found(t, v))
    ensures OnTree(t, SearchPath(t, v))
    ensures SearchPath(t, MinValue(Found(t, v).right)) == SearchPath(t, v) + ([Right] + LeftSpine(Found(t, v).right))
    ensures OnTree(t, SearchPath(t, MinValue(Found(t, v).right)))
    ensures Found(t, MinValue(Found(t, v).right)).Node? && Found(t, MinValue(Found(t, v).right)).left.Leaf?
    ensures Found(t, MinValue(Found(t, v).right)).key == MinKey(Found(t, v).right)
  {
    SearchOnTree(t, v);
    var n := Found(t, v);
    var p := SearchPath(t, v);
    var s := LeftSpine(n.right);
    SuccessorPath(t, v, MinValue(n.right));
    AtAppend(t, p, [Right] + s);
    LeftSpineEnds(n.right);
    assert ([Right] + s)[1..] == s;
    assert OnTree(n, [Right] + s) && At(n, [Right] + s) == At(n.right, s);
  }

  /** Removing a value the tree does not hold leaves it unchanged. */
  lemma RemoveAbsent<K>(t: Tree<K>, v: int)
    requires Ordered(t) && Removable(t, v) && v !in Elems(t)
    ensures RemoveTree(t, v) == t
  {
    SearchFinds(t, v);
  }

  lemma Cancel(a: multiset<int>, b: multiset<int>, c: multiset<int>)
    requires a + c == b + c
    ensures a == b
  {
    assert forall x :: a[x] == (a + c)[x] - c[x];
  }

  /** Splicing out a node with at most one child removes exactly its value. */
  lemma SpliceElems<K>(t: Tree<K>, p: Path)
    requires OnTree(t, p) && At(t, p).Node? && !TwoChildren(At(t, p))
    ensures Elems(Splice(t, p)) + multiset{At(t, p).value} == Elems(t)
  {
    var n := At(t, p);
    var c := Promoted(n);
    ReplaceElems(t, p, c);
    PromotedElems(n);
    Cancel(Elems(Splice(t, p)) + multiset{n.value}, Elems(t), Elems(c));
  }

  lemma PromotedElems<K>(n: Tree<K>)
    requires n.Node? && !TwoChildren(n)
    ensures Elems(n) == Elems(Promoted(n)) + multiset{n.value}
  {
    if n.left.Node? {
      assert Elems(n.right) == multiset{};
    } else {
      assert Elems(n.left) == multiset{};
    }
  }

  /** Splicing out a node with at most one child keeps the tree ordered. */
  lemma SpliceOrdered<K>(t: Tree<K>, p: Path)
    requires OnTree(t, p) && At(t, p).Node? && !TwoChildren(At(t, p)) && Ordered(t)
    ensures Ordered(Splice(t, p))
  {
    AtOrdered(t, p);
    ReplaceOrdered(t, p, Promoted(At(t, p)));
  }

  /** Splicing drops exactly the spliced node's key and keeps keys distinct. */
  lemma SpliceKeys<K>(t: Tree<K>, p: Path)
    requires OnTree(t, p) && At(t, p).Node? && !TwoChildren(At(t, p)) && DistinctKeys(t)
    ensures Keys(Splice(t, p)) == Keys(t) - {At(t, p).key}
    ensures DistinctKeys(Splice(t, p))
  {
    var n := At(t, p);
    var c := Promoted(n);
    AtDistinct(t, p);
    assert DistinctKeys(c);
    assert Keys(n) == Keys(c) + {n.key} && n.key !in Keys(c);
    ReplaceKeys(t, p, c);
  }

  /** Removing the leftmost node is splicing it out. */
  lemma {:induction false} RemoveMinSplice<K>(t: Tree<K>)
    requires t.Node?
    ensures OnTree(t, LeftSpine(t)) && At(t, LeftSpine(t)).Node?
    ensures Splice(t, LeftSpine(t)) == RemoveMin(t)
  {
    LeftSpineEnds(t);
    if t.left.Node? {
      RemoveMinSplice(t.left);
    }
  }

  /** Removing the leftmost node removes exactly the least value. */
  lemma {:induction false} RemoveMinElems<K>(t: Tree<K>)
    requires t.Node?
    ensures Elems(RemoveMin(t)) + multiset{MinValue(t)} == Elems(t)
    ensures forall x | x in Elems(RemoveMin(t)) :: x in Elems(t)
    ensures Ordered(t) ==> Ordered(RemoveMin(t))
  {
    if t.left.Node? {
      RemoveMinElems(t.left);
    }
  }

  /**
   * The two-child case, seen locally: the node found keeps its key and left subtree,
   * takes the successor's value, and its right subtree loses its leftmost node.
   */
  lemma RemoveTwoChildrenLocal<K>(t: Tree<K>, v: int)
    requires Ordered(t) && Removable(t, v) && TwoChildren(Found(t, v))
    ensures OnTree(t, SearchPath(t, v))
    ensures RemoveTree(t, v) == ReplaceAt(t, SearchPath(t, v), SuccessorCopied(Found(t, v)))
  {
    SearchOnTree(t, v);
    SuccessorSearch(t, v);
    var p := SearchPath(t, v);
    var n := At(t, p);
    var m := MinValue(n.right);
    var s := LeftSpine(n.right);
    var q := SearchPath(t, m);
    assert q == p + ([Right] + s);
    var x := Promoted(At(t, q));
    ReplaceBelow(t, p, [Right] + s, x);
    AtAppend(t, p, [Right] + s);
    assert ([Right] + s)[1..] == s;
    assert At(n, [Right] + s) == At(n.right, s);
    RemoveMinSplice(n.right);
    var y := ReplaceAt(n, [Right] + s, x);
    assert y == Node(n.left, n.key, v, RemoveMin(n.right));
    ReplaceTwice(t, p, y, SuccessorCopied(n));
  }

  /** A node with two children after the successor's value is copied in and its node removed. */
  function SuccessorCopied<K>(n: Tree<K>): Tree<K>
    requires TwoChildren(n)
  {
    Node(n.left, n.key, MinValue(n.right), RemoveMin(n.right))
  }

  /** Copying the successor into an ordered node keeps it ordered and removes its own value. */
  lemma SuccessorCopiedCorrect<K>(n: Tree<K>)
    requires TwoChildren(n) && Ordered(n)
    ensures Ordered(SuccessorCopied(n))
    ensures Elems(SuccessorCopied(n)) + multiset{n.value} == Elems(n)
    ensures forall x | x in Elems(SuccessorCopied(n)) :: x in Elems(n)
  {
    var m := MinValue(n.right);
    var rm := RemoveMin(n.right);
    RemoveMinElems(n.right);
    MinValueLeast(n.right);
    assert n.value <= m;
    assert forall x | x in Elems(rm) :: m <= x;
    Shuffle(Elems(n.left), Elems(n.right), Elems(rm), m, n.value);
  }

  lemma Shuffle(l: multiset<int>, r: multiset<int>, rm: multiset<int>, m: int, v: int)
    requires rm + multiset{m} == r
    ensures l + multiset{m} + rm + multiset{v} == l + multiset{v} + r
    ensures forall x | x in l + multiset{m} + rm :: x in l + multiset{v} + r
  {
  }

  /**
   * Removing a value held by a node with two children: the successor value `m` is removed
   * first (its node has no left child), then the node that held `v`, still on the same path
   * and still the same node, takes `m`.
   */
  lemma SuccessorStep<K>(t: Tree<K>, v: int, m: int)
    requires Ordered(t) && Removable(t, v) && TwoChildren(Found(t, v)) && m == MinValue(Found(t, v).right)
    ensures Removable(t, m) && !TwoChildren(Found(t, m)) && Found(t, m).Node?
    ensures OnTree(RemoveTree(t, m), SearchPath(t, v))
    ensures At(RemoveTree(t, m), SearchPath(t, v)).Node?
    ensures At(RemoveTree(t, m), SearchPath(t, v)).key == Found(t, v).key
    ensures RemoveTree(t, v) == SetValueAt(RemoveTree(t, m), SearchPath(t, v), m)
    ensures Ordered(SetValueAt(RemoveTree(t, m), SearchPath(t, v), m))
  {
    SuccessorSearch(t, v);
    var p := SearchPath(t, v);
    var q := SearchPath(t, m);
    var tail := [Right] + LeftSpine(Found(t, v).right);
    assert q == p + tail;
    ReplaceBelow(t, p, tail, Promoted(At(t, q)));
    RemoveCorrect(t, v);
  }

  /**
   * `remove(v)` on an ordered tree removes one occurrence of `v` when there is one and
   * nothing otherwise, and leaves the tree ordered.
   */
  lemma RemoveCorrect<K>(t: Tree<K>, v: int)
    requires Ordered(t) && Removable(t, v)
    ensures Ordered(RemoveTree(t, v))
    ensures v in Elems(t) ==> Elems(RemoveTree(t, v)) + multiset{v} == Elems(t)
    ensures v !in Elems(t) ==> RemoveTree(t, v) == t
  {
    SearchOnTree(t, v);
    SearchFinds(t, v);
    var p := SearchPath(t, v);
    var n := At(t, p);
    if TwoChildren(n) {
      RemoveTwoChildrenCorrect(t, v);
    } else if n.Node? {
      SpliceElems(t, p);
      SpliceOrdered(t, p);
    }
  }

  /**
   * Seen through iteration: after `remove(v)` the tree lists, in order, what it listed
   * before with its first `v` deleted.
   */
  lemma RemoveInOrder<K>(t: Tree<K>, v: int)
    requires Ordered(t) && Removable(t, v)
    ensures InOrder(RemoveTree(t, v)) == LinkedLists.RemoveFirst(InOrder(t), v)
  {
    var r := RemoveTree(t, v);
    RemoveCorrect(t, v);
    InOrderElems(t);
    InOrderElems(r);
    InOrderSorted(t);
    InOrderSorted(r);
    SortedRemoveFirst(InOrder(t), InOrder(r), v, Elems(t), Elems(r));
  }

  /**
   * A sorted sequence that holds the values of sorted `s` less one `v` (all of them when
   * `v` is absent) is `s` with its first `v` deleted.
   */
  lemma SortedRemoveFirst(s: seq<int>, a: seq<int>, v: int, e: multiset<int>, f: multiset<int>)
    requires Sorted(s) && Sorted(a) && multiset(s) == e && multiset(a) == f
    requires v in e ==> f + multiset{v} == e
    requires v !in e ==> f == e
    ensures a == LinkedLists.RemoveFirst(s, v)
  {
    if v in e {
      assert v in s;
      var k := LinkedLists.FirstIndex(s, v);
      var d := LinkedLists.RemoveFirst(s, v);
      LinkedLists.RemoveFirstMultiset(s, v);
      LinkedLists.RemoveFirstAt(s, v, k);
      SortedDelete(s, k);
      assert multiset(d) == e - multiset{v} == f;
      SortedUnique(a, d);
    } else {
      assert v !in s;
      LinkedLists.RemoveFirstAbsent(s, v);
      SortedUnique(a, s);
    }
  }

  /** `RemoveCorrect` for a value whose node has two children. */
  lemma RemoveTwoChildrenCorrect<K>(t: Tree<K>, v: int)
    requires Ordered(t) && Removable(t, v) && TwoChildren(Found(t, v))
    ensures Ordered(RemoveTree(t, v))
    ensures Elems(RemoveTree(t, v)) + multiset{v} == Elems(t)
  {
    RemoveTwoChildrenLocal(t, v);
    var p := SearchPath(t, v);
    var n := At(t, p);
    AtOrdered(t, p);
    SearchOnTree(t, v);
    var c := SuccessorCopied(n);
    SuccessorCopiedCorrect(n);
    ReplaceElems(t, p, c);
    ReplaceOrdered(t, p, c);
    var e := Elems(RemoveTree(t, v));
    assert e + Elems(n) == Elems(t) + Elems(c);
    assert Elems(n) == Elems(c) + multiset{v};
    Regroup(e, Elems(c), multiset{v}, Elems(t));
  }

  lemma Regroup(e: multiset<int>, c: multiset<int>, v: multiset<int>, t: multiset<int>)
    requires e + (c + v) == t + c
    ensures e + v == t
  {
    Cancel(e + v, t, c);
  }

  /** `remove(v)` keeps keys distinct and adds none. */
  lemma RemoveKeys<K>(t: Tree<K>, v: int)
    requires Ordered(t) && Removable(t, v) && DistinctKeys(t)
    ensures DistinctKeys(RemoveTree(t, v))
    ensures Keys(RemoveTree(t, v)) <= Keys(t)
  {
    SearchOnTree(t, v);
    var p := SearchPath(t, v);
    var n := At(t, p);
    if TwoChildren(n) {
      RemoveTwoChildrenLocal(t, v);
      AtDistinct(t, p);
      RemoveMinSplice(n.right);
      LeftSpineEnds(n.right);
      SpliceKeys(n.right, LeftSpine(n.right));
      var c := SuccessorCopied(n);
      assert Keys(c) <= Keys(n);
      ReplaceKeys(t, p, c);
    } else if n.Node? {
      SpliceKeys(t, p);
    }
  }
}
