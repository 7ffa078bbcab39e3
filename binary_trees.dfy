/**
 * Binary trees as values. Each node carries an integer `value` and a `key` naming the
 * node; the search tree instantiates `key` with its node objects, so the same tree states
 * both which values it holds and which objects hold them.
 */
module BinaryTrees {

  datatype Dir = Left | Right

  /** A path from the root: the directions taken at each node. */
  type Path = seq<Dir>

  datatype Tree<K> = Leaf | Node(left: Tree<K>, key: K, value: int, right: Tree<K>)

  function Child<K>(t: Tree<K>, d: Dir): Tree<K>
    requires t.Node?
  {
    if d == Left then t.left else t.right
  }

  /** The multiset of values held by `t`. */
  function Elems<K>(t: Tree<K>): multiset<int>
  {
    match t
    case Leaf => multiset{}
    case Node(l, _, v, r) => Elems(l) + multiset{v} + Elems(r)
  }

  /** The set of keys of `t`. */
  ghost function Keys<K>(t: Tree<K>): set<K>
  {
    match t
    case Leaf => {}
    case Node(l, k, _, r) => Keys(l) + {k} + Keys(r)
  }

  /** No key occurs twice in `t`. */
  ghost predicate DistinctKeys<K>(t: Tree<K>)
  {
    match t
    case Leaf => true
    case Node(l, k, _, r) =>
      && DistinctKeys(l) && DistinctKeys(r)
      && k !in Keys(l) && k !in Keys(r) && Keys(l) !! Keys(r)
  }

  /** Left-node-right order of the values. */
  function InOrder<K>(t: Tree<K>): seq<int>
  {
    match t
    case Leaf => []
    case Node(l, _, v, r) => InOrder(l) + [v] + InOrder(r)
  }

  /** The search-tree order: values to the left are smaller, values to the right are not. */
  predicate Ordered<K>(t: Tree<K>)
  {
    match t
    case Leaf => true
    case Node(l, _, v, r) =>
      && Ordered(l) && Ordered(r)
      && (forall x | x in Elems(l) :: x < v)
      && (forall x | x in Elems(r) :: v <= x)
  }

  predicate Sorted(s: seq<int>)
  {
    forall i, j | 0 <= i < j < |s| :: s[i] <= s[j]
  }

  /** The height: the number of nodes on the longest path from the root. */
  function Height<K>(t: Tree<K>): nat
  {
    match t
    case Leaf => 0
    case Node(l, _, _, r) => 1 + (if Height(l) < Height(r) then Height(r) else Height(l))
  }

  /** Inserting `v` under key `k`: smaller values go left, all others go right, down to an empty slot. */
  function Insert<K>(t: Tree<K>, v: int, k: K): Tree<K>
  {
    match t
    case Leaf => Node(Leaf, k, v, Leaf)
    case Node(l, k0, w, r) =>
      if v < w then Node(Insert(l, v, k), k0, w, r) else Node(l, k0, w, Insert(r, v, k))
  }

  /** The tree with its keys forgotten: only the values and the shape remain. */
  function Erase<K>(t: Tree<K>): Tree<()>
  {
    match t
    case Leaf => Leaf
    case Node(l, _, v, r) => Node(Erase(l), (), v, Erase(r))
  }

  /** Inserting the values of `s` one after the other, first to last. */
  function InsertAll(t: Tree<()>, s: seq<int>): Tree<()>
    decreases s
  {
    if s == [] then t else InsertAll(Insert(t, s[0], ()), s[1..])
  }

  /** The smallest value: the value of the leftmost node. */
  function MinValue<K>(t: Tree<K>): int
    requires t.Node?
  {
    if t.left.Leaf? then t.value else MinValue(t.left)
  }

  /** The leftmost node's key. */
  function MinKey<K>(t: Tree<K>): K
    requires t.Node?
  {
    if t.left.Leaf? then t.key else MinKey(t.left)
  }

  /** The path to the leftmost node. */
  function LeftSpine<K>(t: Tree<K>): Path
    requires t.Node?
  {
    if t.left.Leaf? then [] else [Left] + LeftSpine(t.left)
  }

  // ---------------------------------------------------------------------------
  // Paths
  // ---------------------------------------------------------------------------

  /** Every node `p` passes through is present; `p` may end at an empty slot. */
  predicate OnTree<K>(t: Tree<K>, p: Path)
  {
    p == [] || (t.Node? && OnTree(Child(t, p[0]), p[1..]))
  }

  /** The subtree at the end of `p`. */
  function At<K>(t: Tree<K>, p: Path): Tree<K>
  {
    if p == [] || t.Leaf? then t else At(Child(t, p[0]), p[1..])
  }

  /** `t` with the subtree at the end of `p` replaced by `x`. */
  function ReplaceAt<K>(t: Tree<K>, p: Path, x: Tree<K>): Tree<K>
  {
    if p == [] then x
    else if t.Leaf? then t
    else if p[0] == Left then Node(ReplaceAt(t.left, p[1..], x), t.key, t.value, t.right)
    else Node(t.left, t.key, t.value, ReplaceAt(t.right, p[1..], x))
  }

  /** `p` is the route that inserting or searching `v` takes: left exactly when `v` is smaller. */
  predicate Descends<K>(t: Tree<K>, v: int, p: Path)
  {
    p == [] || (t.Node? && p[0] == (if v < t.value then Left else Right) && Descends(Child(t, p[0]), v, p[1..]))
  }

  /** The route of a search for `v`: it stops at a node holding `v` or at an empty slot. */
  function SearchPath<K>(t: Tree<K>, v: int): Path
  {
    match t
    case Leaf => []
    case Node(l, _, w, r) =>
      if w == v then [] else if v < w then [Left] + SearchPath(l, v) else [Right] + SearchPath(r, v)
  }

  // ---------------------------------------------------------------------------
  // Lemmas: contents and order
  // ---------------------------------------------------------------------------

  /** Inserting adds exactly one occurrence of `v`. */
  lemma {:induction false} InsertElems<K>(t: Tree<K>, v: int, k: K)
    ensures Elems(Insert(t, v, k)) == Elems(t) + multiset{v}
  {
    match t
    case Leaf =>
    case Node(l, _, w, r) =>
      if v < w { InsertElems(l, v, k); } else { InsertElems(r, v, k); }
  }

  /** Inserting keeps the search-tree order. */
  lemma {:induction false} InsertOrdered<K>(t: Tree<K>, v: int, k: K)
    requires Ordered(t)
    ensures Ordered(Insert(t, v, k))
  {
    match t
    case Leaf =>
    case Node(l, _, w, r) =>
      if v < w {
        InsertOrdered(l, v, k);
        InsertBounded(l, v, k, w, true);
      } else {
        InsertOrdered(r, v, k);
        InsertBounded(r, v, k, w, false);
      }
  }

  /** Inserting a value on the same side of `w` as all values of `t` keeps them all on that side. */
  lemma InsertBounded<K>(t: Tree<K>, v: int, k: K, w: int, below: bool)
    requires below ==> v < w && forall x | x in Elems(t) :: x < w
    requires !below ==> w <= v && forall x | x in Elems(t) :: w <= x
    ensures below ==> forall x | x in Elems(Insert(t, v, k)) :: x < w
    ensures !below ==> forall x | x in Elems(Insert(t, v, k)) :: w <= x
  {
    InsertElems(t, v, k);
  }

  /** Inserting adds one node, on the path `Descends` describes, and keeps all others. */
  lemma {:induction false} InsertKeys<K>(t: Tree<K>, v: int, k: K)
    ensures Keys(Insert(t, v, k)) == Keys(t) + {k}
    ensures DistinctKeys(t) && k !in Keys(t) ==> DistinctKeys(Insert(t, v, k))
  {
    match t
    case Leaf =>
    case Node(l, _, w, r) =>
      if v < w { InsertKeys(l, v, k); } else { InsertKeys(r, v, k); }
  }

  /** Forgetting keys commutes with inserting. */
  lemma {:induction false} EraseInsert<K>(t: Tree<K>, v: int, k: K)
    ensures Erase(Insert(t, v, k)) == Insert(Erase(t), v, ())
  {
    match t
    case Leaf =>
    case Node(l, _, w, r) =>
      if v < w { EraseInsert(l, v, k); } else { EraseInsert(r, v, k); }
  }

  /** Inserting a sequence keeps the order and adds exactly its values. */
  lemma InsertAllCorrect(t: Tree<()>, s: seq<int>)
    requires Ordered(t)
    ensures Ordered(InsertAll(t, s))
    ensures Elems(InsertAll(t, s)) == Elems(t) + multiset(s)
  {
    InsertAllOrdered(t, s);
    InsertAllElems(t, s);
  }

  /** Inserting a sequence keeps the order. */
  lemma {:induction false} InsertAllOrdered(t: Tree<()>, s: seq<int>)
    requires Ordered(t)
    ensures Ordered(InsertAll(t, s))
    decreases s
  {
    if s != [] {
      InsertOrdered(t, s[0], ());
      InsertAllOrdered(Insert(t, s[0], ()), s[1..]);
    }
  }

  /** Inserting a sequence adds exactly its values. */
  lemma {:induction false} InsertAllElems(t: Tree<()>, s: seq<int>)
    ensures Elems(InsertAll(t, s)) == Elems(t) + multiset(s)
    decreases s
  {
    if s != [] {
      var t1 := Insert(t, s[0], ());
      InsertElems(t, s[0], ());
      InsertAllElems(t1, s[1..]);
      MultisetCons(s);
      Regroup3(Elems(InsertAll(t1, s[1..])), Elems(t1), Elems(t), multiset{s[0]}, multiset(s[1..]), multiset(s));
    }
  }

  /** The values of a non-empty sequence are its first value and the values of the rest. */
  lemma MultisetCons(s: seq<int>)
    requires s != []
    ensures multiset(s) == multiset{s[0]} + multiset(s[1..])
  {
    assert s == [s[0]] + s[1..];
  }

  /** Multiset union is associative, stated over names so that nothing is unfolded. */
  lemma Regroup3(r: multiset<int>, e: multiset<int>, a: multiset<int>, m: multiset<int>, b: multiset<int>, sm: multiset<int>)
    requires r == e + b && e == a + m && sm == m + b
    ensures r == a + sm
  {
    forall z
      ensures r[z] == (a + sm)[z]
    {
      assert r[z] == e[z] + b[z] && e[z] == a[z] + m[z] && sm[z] == m[z] + b[z];
    }
  }

  /**
   * A tree built by inserting the values of `s` into an empty tree lists, in order,
   * exactly the values of `s`, sorted.
   */
  lemma BuiltTreeInOrder(s: seq<int>)
    ensures Sorted(InOrder(InsertAll(Leaf, s)))
    ensures multiset(InOrder(InsertAll(Leaf, s))) == multiset(s)
  {
    InsertAllCorrect(Leaf, s);
    InOrderSorted(InsertAll(Leaf, s));
    InOrderElems(InsertAll(Leaf, s));
  }

  /** The in-order sequence lists every value exactly as often as the tree holds it. */
  lemma {:induction false} InOrderElems<K>(t: Tree<K>)
    ensures multiset(InOrder(t)) == Elems(t)
  {
    match t
    case Leaf =>
    case Node(l, _, _, r) =>
      InOrderElems(l);
      InOrderElems(r);
  }

  /** On an ordered tree the in-order sequence is sorted. */
  lemma {:induction false} InOrderSorted<K>(t: Tree<K>)
    requires Ordered(t)
    ensures Sorted(InOrder(t))
  {
    match t
    case Leaf =>
    case Node(l, _, v, r) =>
      InOrderSorted(l);
      InOrderSorted(r);
      InOrderSide(l, v, true);
      InOrderSide(r, v, false);
      SortedJoin(InOrder(l), v, InOrder(r));
  }

  /** The in-order sequence of a tree whose values all lie on one side of `v` lies on that side. */
  lemma InOrderSide<K>(t: Tree<K>, v: int, below: bool)
    requires below ==> forall x | x in Elems(t) :: x < v
    requires !below ==> forall x | x in Elems(t) :: v <= x
    ensures below ==> forall i | 0 <= i < |InOrder(t)| :: InOrder(t)[i] < v
    ensures !below ==> forall i | 0 <= i < |InOrder(t)| :: v <= InOrder(t)[i]
  {
    InOrderElems(t);
    forall i | 0 <= i < |InOrder(t)|
      ensures InOrder(t)[i] in Elems(t)
    {
      assert InOrder(t)[i] in multiset(InOrder(t));
    }
  }

  /** Two sorted sequences with the same values, counted with multiplicity, are equal. */
  lemma {:induction false} SortedUnique(a: seq<int>, b: seq<int>)
    requires Sorted(a) && Sorted(b) && multiset(a) == multiset(b)
    ensures a == b
    decreases |a|
  {
    if a != [] {
      SortedHeads(a, b);
      MultisetCons(a);
      MultisetCons(b);
      assert multiset(a[1..]) == multiset(a) - multiset{a[0]};
      assert multiset(b[1..]) == multiset(b) - multiset{b[0]};
      SortedTail(a);
      SortedTail(b);
      SortedUnique(a[1..], b[1..]);
      assert a == [a[0]] + a[1..] && b == [b[0]] + b[1..];
    }
  }

  /** Sorted sequences with the same values start with the same, least, value. */
  lemma SortedHeads(a: seq<int>, b: seq<int>)
    requires Sorted(a) && Sorted(b) && multiset(a) == multiset(b) && a != []
    ensures b != [] && a[0] == b[0]
  {
    assert a[0] in multiset(b);
    var j :| 0 <= j < |b| && b[j] == a[0];
    assert b[0] in multiset(a);
    var i :| 0 <= i < |a| && a[i] == b[0];
    assert b[0] <= b[j] && a[0] <= a[i];
  }

  /** The tail of a sorted sequence is sorted. */
  lemma SortedTail(s: seq<int>)
    requires Sorted(s) && s != []
    ensures Sorted(s[1..])
  {
    forall i, j | 0 <= i < j < |s| - 1
      ensures s[1..][i] <= s[1..][j]
    {
      assert s[1..][i] == s[i + 1] && s[1..][j] == s[j + 1];
    }
  }

  /** Deleting one position of a sorted sequence leaves it sorted. */
  lemma SortedDelete(s: seq<int>, k: nat)
    requires Sorted(s) && k < |s|
    ensures Sorted(s[..k] + s[k + 1..])
  {
    var d := s[..k] + s[k + 1..];
    forall i, j | 0 <= i < j < |d|
      ensures d[i] <= d[j]
    {
      var i' := if i < k then i else i + 1;
      var j' := if j < k then j else j + 1;
      assert d[i] == s[i'] && d[j] == s[j'];
    }
  }

  /** A sorted sequence below `v`, then `v`, then a sorted sequence not below `v`, is sorted. */
  lemma SortedJoin(a: seq<int>, v: int, b: seq<int>)
    requires Sorted(a) && Sorted(b)
    requires forall i | 0 <= i < |a| :: a[i] < v
    requires forall i | 0 <= i < |b| :: v <= b[i]
    ensures Sorted(a + [v] + b)
  {
    var s := a + [v] + b;
    forall i, j | 0 <= i < j < |s|
      ensures s[i] <= s[j]
    {
      if j < |a| {
        assert s[i] == a[i] && s[j] == a[j];
      } else if i < |a| && j == |a| {
        assert s[i] == a[i];
      } else if i < |a| {
        assert s[i] == a[i] && s[j] == b[j - |a| - 1];
      } else if i == |a| {
        assert s[j] == b[j - |a| - 1];
      } else {
        assert s[i] == b[i - |a| - 1] && s[j] == b[j - |a| - 1];
      }
    }
  }

  /** The leftmost value is held by the tree and, when the tree is ordered, is its least value. */
  lemma {:induction false} MinValueLeast<K>(t: Tree<K>)
    requires t.Node?
    ensures MinValue(t) in Elems(t)
    ensures Ordered(t) ==> forall x | x in Elems(t) :: MinValue(t) <= x
  {
    if t.left.Node? {
      MinValueLeast(t.left);
    }
  }

  /** The left spine ends at the leftmost node, which has no left child. */
  lemma {:induction false} LeftSpineEnds<K>(t: Tree<K>)
    requires t.Node?
    ensures OnTree(t, LeftSpine(t))
    ensures At(t, LeftSpine(t)).Node? && At(t, LeftSpine(t)).left.Leaf?
    ensures At(t, LeftSpine(t)).value == MinValue(t) && At(t, LeftSpine(t)).key == MinKey(t)
  {
    if t.left.Node? {
      LeftSpineEnds(t.left);
    }
  }

  /** A search stops inside the tree. */
  lemma {:induction false} SearchOnTree<K>(t: Tree<K>, v: int)
    ensures OnTree(t, SearchPath(t, v))
    ensures At(t, SearchPath(t, v)).Node? ==> At(t, SearchPath(t, v)).value == v
  {
    match t
    case Leaf =>
    case Node(l, _, w, r) =>
      if v < w { SearchOnTree(l, v); } else if w < v { SearchOnTree(r, v); }
  }

  /** On an ordered tree a search for `v` ends at a node exactly when `v` is held. */
  lemma {:induction false} SearchFinds<K>(t: Tree<K>, v: int)
    requires Ordered(t)
    ensures At(t, SearchPath(t, v)).Node? <==> v in Elems(t)
  {
    if t.Node? && t.value != v {
      var d := if v < t.value then Left else Right;
      var c := Child(t, d);
      SearchFinds(c, v);
      var q := SearchPath(c, v);
      assert SearchPath(t, v) == [d] + q;
      assert ([d] + q)[1..] == q;
      SearchSide(t, v);
    }
  }

  /** In an ordered tree whose root does not hold `v`, `v` can only be on its side of the root. */
  lemma SearchSide<K>(t: Tree<K>, v: int)
    requires Ordered(t) && t.Node? && t.value != v
    ensures v in Elems(t) <==> v in Elems(Child(t, if v < t.value then Left else Right))
  {
    if v < t.value {
      assert v !in Elems(t.right);
    } else {
      assert v !in Elems(t.left);
    }
  }

  // ---------------------------------------------------------------------------
  // Lemmas: paths
  // ---------------------------------------------------------------------------

  /** Replacing a subtree exchanges its values for those of the replacement. */
  lemma {:induction false} ReplaceElems<K>(t: Tree<K>, p: Path, x: Tree<K>)
    requires OnTree(t, p)
    ensures Elems(ReplaceAt(t, p, x)) + Elems(At(t, p)) == Elems(t) + Elems(x)
  {
    if p != [] {
      var c, q := Child(t, p[0]), p[1..];
      ReplaceElems(c, q, x);
      assert At(t, p) == At(c, q);
      var a, b, e, m := Elems(ReplaceAt(c, q, x)), Elems(At(c, q)), Elems(c), multiset{t.value};
      if p[0] == Left {
        Exchange(a, b, e, Elems(x), m, Elems(t.right));
      } else {
        Exchange(a, b, e, Elems(x), Elems(t.left), m);
      }
    }
  }

  /** Exchanging `b` for `x` beside `a` or `e`, with the same neighbours `u` and `w` on either side. */
  lemma Exchange(a: multiset<int>, b: multiset<int>, e: multiset<int>, x: multiset<int>, u: multiset<int>, w: multiset<int>)
    requires a + b == e + x
    ensures a + u + w + b == e + u + w + x
    ensures u + w + a + b == u + w + e + x
  {
    forall z
      ensures (a + u + w + b)[z] == (e + u + w + x)[z] && (u + w + a + b)[z] == (u + w + e + x)[z]
    {
      assert (a + b)[z] == (e + x)[z];
    }
  }

  /** Replacing a subtree exchanges its keys for those of the replacement. */
  lemma {:induction false} ReplaceKeys<K>(t: Tree<K>, p: Path, x: Tree<K>)
    requires OnTree(t, p) && DistinctKeys(t)
    ensures Keys(ReplaceAt(t, p, x)) == (Keys(t) - Keys(At(t, p))) + Keys(x)
    ensures DistinctKeys(x) && Keys(x) !! (Keys(t) - Keys(At(t, p))) ==> DistinctKeys(ReplaceAt(t, p, x))
    ensures Keys(At(t, p)) <= Keys(t)
  {
    if p != [] {
      ReplaceKeys(Child(t, p[0]), p[1..], x);
    }
  }

  /**
   * Replacing an ordered subtree by an ordered tree whose values all occur in the
   * replaced one keeps the whole tree ordered.
   */
  lemma {:induction false} ReplaceOrdered<K>(t: Tree<K>, p: Path, x: Tree<K>)
    requires OnTree(t, p) && Ordered(t) && Ordered(x)
    requires forall e | e in Elems(x) :: e in Elems(At(t, p))
    ensures Ordered(ReplaceAt(t, p, x))
    ensures forall e | e in Elems(ReplaceAt(t, p, x)) :: e in Elems(t)
  {
    ReplaceSubset(t, p, x);
    if p != [] && t.Node? {
      var c := Child(t, p[0]);
      ReplaceOrdered(c, p[1..], x);
      ReplaceWithin(ReplaceAt(c, p[1..], x), c, t.value, p[0] == Left);
    }
  }

  /** Replacing a subtree by a tree whose values all occur in it adds no value. */
  lemma {:induction false} ReplaceSubset<K>(t: Tree<K>, p: Path, x: Tree<K>)
    requires OnTree(t, p)
    requires forall e | e in Elems(x) :: e in Elems(At(t, p))
    ensures forall e | e in Elems(ReplaceAt(t, p, x)) :: e in Elems(t)
  {
    if p != [] && t.Node? {
      var c, q := Child(t, p[0]), p[1..];
      ReplaceSubset(c, q, x);
      var e, m := Elems(ReplaceAt(c, q, x)), multiset{t.value};
      if p[0] == Left {
        SubsetBeside(e, Elems(c), m, Elems(t.right));
      } else {
        SubsetBeside(e, Elems(c), Elems(t.left) + m, multiset{});
      }
    }
  }

  /** Values drawn from `b`, placed beside `u` and `w`, are drawn from `u + b + w` and `b + u + w`. */
  lemma SubsetBeside(a: multiset<int>, b: multiset<int>, u: multiset<int>, w: multiset<int>)
    requires forall e | e in a :: e in b
    ensures forall e | e in a + u + w :: e in b + u + w
    ensures forall e | e in u + a + w :: e in u + b + w
  {
  }

  /** A subtree whose values all occur in `c` lies on the same side of `w` as `c`. */
  lemma ReplaceWithin<K>(c2: Tree<K>, c: Tree<K>, w: int, below: bool)
    requires forall e | e in Elems(c2) :: e in Elems(c)
    requires below ==> forall e | e in Elems(c) :: e < w
    requires !below ==> forall e | e in Elems(c) :: w <= e
    ensures below ==> forall e | e in Elems(c2) :: e < w
    ensures !below ==> forall e | e in Elems(c2) :: w <= e
  {
  }

  /** Descending one more step from the end of `p`. */
  lemma {:induction false} AtSnoc<K>(t: Tree<K>, p: Path, d: Dir)
    requires OnTree(t, p) && At(t, p).Node?
    ensures OnTree(t, p + [d]) && At(t, p + [d]) == Child(At(t, p), d)
  {
    if p != [] {
      assert (p + [d])[1..] == p[1..] + [d];
      AtSnoc(Child(t, p[0]), p[1..], d);
    }
  }

  /** The path without its last step also lies on the tree, and ends at the parent of `p`'s end. */
  lemma {:induction false} PrefixOnTree<K>(t: Tree<K>, p: Path)
    requires OnTree(t, p) && p != []
    ensures OnTree(t, p[..|p| - 1]) && At(t, p[..|p| - 1]).Node?
    ensures At(t, p) == Child(At(t, p[..|p| - 1]), p[|p| - 1])
  {
    if |p| > 1 {
      var q := p[1..];
      PrefixOnTree(Child(t, p[0]), q);
      assert p[..|p| - 1] == [p[0]] + q[..|q| - 1];
      assert p[..|p| - 1][1..] == q[..|q| - 1];
    }
  }

  /** Following `p` and then `q` reaches the same subtree as following `p + q`. */
  lemma {:induction false} AtAppend<K>(t: Tree<K>, p: Path, q: Path)
    requires OnTree(t, p)
    ensures OnTree(t, p + q) == OnTree(At(t, p), q)
    ensures At(t, p + q) == At(At(t, p), q)
  {
    if p != [] {
      assert (p + q)[1..] == p[1..] + q;
      AtAppend(Child(t, p[0]), p[1..], q);
    } else {
      assert p + q == q;
    }
  }

  /** Replacing below the end of `p` leaves the subtree at `p` in place, with the replacement inside it. */
  lemma {:induction false} ReplaceBelow<K>(t: Tree<K>, p: Path, q: Path, x: Tree<K>)
    requires OnTree(t, p) && At(t, p).Node? && q != []
    ensures OnTree(ReplaceAt(t, p + q, x), p)
    ensures At(ReplaceAt(t, p + q, x), p) == ReplaceAt(At(t, p), q, x)
    ensures ReplaceAt(t, p + q, x) == ReplaceAt(t, p, ReplaceAt(At(t, p), q, x))
  {
    if p != [] {
      assert (p + q)[1..] == p[1..] + q;
      ReplaceBelow(Child(t, p[0]), p[1..], q, x);
    } else {
      assert p + q == q;
    }
  }

  /** Replacing at the same path twice keeps only the second replacement. */
  lemma {:induction false} ReplaceTwice<K>(t: Tree<K>, p: Path, x: Tree<K>, y: Tree<K>)
    requires OnTree(t, p)
    ensures OnTree(ReplaceAt(t, p, x), p)
    ensures At(ReplaceAt(t, p, x), p) == x
    ensures ReplaceAt(ReplaceAt(t, p, x), p, y) == ReplaceAt(t, p, y)
  {
    if p != [] {
      ReplaceTwice(Child(t, p[0]), p[1..], x, y);
    }
  }

  /** Replacing a subtree by itself changes nothing. */
  lemma {:induction false} ReplaceSame<K>(t: Tree<K>, p: Path)
    requires OnTree(t, p)
    ensures ReplaceAt(t, p, At(t, p)) == t
  {
    if p != [] {
      ReplaceSame(Child(t, p[0]), p[1..]);
    }
  }

  /** Inserting along the route to `p` is inserting into the subtree at `p`. */
  lemma {:induction false} InsertAlong<K>(t: Tree<K>, v: int, k: K, p: Path)
    requires Descends(t, v, p)
    ensures OnTree(t, p)
    ensures Insert(t, v, k) == ReplaceAt(t, p, Insert(At(t, p), v, k))
  {
    if p != [] {
      InsertAlong(Child(t, p[0]), v, k, p[1..]);
    }
  }

  /** One more step of the insertion route from a node. */
  lemma {:induction false} DescendsSnoc<K>(t: Tree<K>, v: int, p: Path)
    requires Descends(t, v, p) && At(t, p).Node?
    ensures Descends(t, v, p + [if v < At(t, p).value then Left else Right])
  {
    var d := if v < At(t, p).value then Left else Right;
    if p != [] {
      assert (p + [d])[1..] == p[1..] + [d];
      DescendsSnoc(Child(t, p[0]), v, p[1..]);
    }
  }

  /** A search follows the insertion route until it stops. */
  lemma {:induction false} SearchDescends<K>(t: Tree<K>, v: int)
    ensures Descends(t, v, SearchPath(t, v))
  {
    match t
    case Leaf =>
    case Node(l, _, w, r) =>
      if v < w { SearchDescends(l, v); } else if w < v { SearchDescends(r, v); }
  }
}
