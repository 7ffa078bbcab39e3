/**
 * `BinaryTree`: a tree of plain `BTNode` records (a value and two child links, no parent).
 * Its `insert` only ever touches the root and the root's two child slots; the private
 * `insertRec` descends to an empty slot as a search tree would.
 */
module PlainBinaryTrees {
  import opened BinaryTrees

  class BTNode {
    var value: int
    var left: BTNode?
    var right: BTNode?

    /** The record `{ value, left: null, right: null }`. */
    constructor (value: int)
      ensures this.value == value && left == null && right == null
    {
      this.value := value;
      left := null;
      right := null;
    }
  }

  type Shape = Tree<BTNode>

  function Root(t: Shape): BTNode?
  {
    if t.Leaf? then null else t.key
  }

  /** Each node's links and value are those `t` records. */
  ghost predicate Links(t: Shape)
    reads Keys(t)
  {
    match t
    case Leaf => true
    case Node(l, k, v, r) => k.left == Root(l) && k.right == Root(r) && k.value == v && Links(l) && Links(r)
  }

  /** A leaf holding `v` under key `k`. */
  function Single<K>(k: K, v: int): Tree<K>
  {
    Node(Leaf, k, v, Leaf)
  }

  /** A leaf's keys, values and height. */
  lemma SingleFacts<K>(k: K, v: int)
    ensures Keys(Single(k, v)) == {k} && Elems(Single(k, v)) == multiset{v} && Height(Single(k, v)) == 1
    ensures DistinctKeys(Single(k, v))
  {
    assert Keys(Single(k, v)) == Keys<K>(Leaf) + {k} + Keys<K>(Leaf);
    assert Elems(Single(k, v)) == Elems<K>(Leaf) + multiset{v} + Elems<K>(Leaf);
  }

  /**
   * `insert` as written: an empty tree becomes a leaf; otherwise the root's left slot (when
   * `v` is smaller than the root's value) or right slot is overwritten by a new leaf.
   */
  function ShallowInsert<K>(t: Tree<K>, v: int, k: K): Tree<K>
  {
    match t
    case Leaf => Single(k, v)
    case Node(l, k0, w, r) => if v < w then Node(Single(k, v), k0, w, r) else Node(l, k0, w, Single(k, v))
  }

  /** Inserting the values of `s` with `ShallowInsert`, first to last. */
  function ShallowInsertAll(t: Tree<()>, s: seq<int>): Tree<()>
    decreases s
  {
    if s == [] then t else ShallowInsertAll(ShallowInsert(t, s[0], ()), s[1..])
  }

  class BinaryTree {
    var root: BTNode?
    ghost var Shape: Shape
    ghost var Repr: set<object>

    ghost predicate Valid()
      reads this, Repr
      ensures Valid() ==> this in Repr
    {
      && this in Repr
      && Keys(Shape) <= Repr
      && DistinctKeys(Shape)
      && root == Root(Shape)
      && Links(Shape)
    }

    /** An empty tree. */
    constructor ()
      ensures Valid() && fresh(Repr) && Shape == Leaf
    {
      root := null;
      Shape := Leaf;
      Repr := {this};
    }

    /**
     * `insert(value)`: a new root on an empty tree; otherwise a new leaf in the root's left
     * slot when `value` is smaller than the root's value, and in its right slot if not,
     * replacing whatever subtree was there. The new node is returned as a ghost.
     */
    method Insert(value: int) returns (ghost n: BTNode)
      requires Valid()
      modifies this, Box(root)
      ensures Valid() && fresh(n) && fresh(Repr - old(Repr))
      ensures Shape == ShallowInsert(old(Shape), value, n)
    {
      var created := new BTNode(value);
      n := created;
      if root == null {
        root := created;
        Shape := Single(created, value);
        SingleFacts(created, value);
        Repr := Repr + {created};
        return;
      }
      ghost var before := Shape;
      if value < root.value {
        root.left := created;
        Shape := Node(Single(created, value), Shape.key, Shape.value, Shape.right);
        SingleFacts(created, value);
      } else {
        root.right := created;
        Shape := Node(Shape.left, Shape.key, Shape.value, Single(created, value));
        SingleFacts(created, value);
      }
      assert Keys(Shape) <= Keys(before) + {created};
      Repr := Repr + {created};
    }

    /**
     * `insertRec(root, value)` on the subtree `t` rooted at `root`: a new leaf for an empty
     * subtree, and otherwise the same root, with `value` inserted below it, left exactly
     * when it is smaller than the root's value. The new node is returned as a ghost.
     */
    method InsertRec(root: BTNode?, value: int, ghost t: Shape) returns (r: BTNode, ghost n: BTNode)
      requires Links(t) && DistinctKeys(t) && root == Root(t) && Keys(t) <= Repr
      modifies Keys(t)
      ensures fresh(n) && Links(BinaryTrees.Insert(t, value, n)) && DistinctKeys(BinaryTrees.Insert(t, value, n))
      ensures r == Root(BinaryTrees.Insert(t, value, n))
      decreases t
    {
      if root == null {
        r := new BTNode(value);
        n := r;
        SingleFacts(n, value);
        return;
      }
      r := root;
      if value < root.value {
        assert Links(t.right);
        var l;
        l, n := InsertRec(root.left, value, t.left);
        root.left := l;
        assert Links(t.right);
      } else {
        assert Links(t.left);
        var rr;
        rr, n := InsertRec(root.right, value, t.right);
        root.right := rr;
        assert Links(t.left);
      }
      InsertKeys(t, value, n);
    }
  }

  /** The node as a set: empty for null; `BinaryTreeNodes.Box` is the same frame idiom for the search tree's nodes. */
  function Box(n: BTNode?): set<object>
  {
    if n == null then {} else {n}
  }

  // ---------------------------------------------------------------------------
  // Lemmas
  // ---------------------------------------------------------------------------

  /** `insert` keeps the root, its key and its value, and never grows a tree of at most two levels beyond two. */
  lemma ShallowInsertShape<K>(t: Tree<K>, v: int, k: K)
    ensures ShallowInsert(t, v, k).Node?
    ensures t.Node? ==> ShallowInsert(t, v, k).value == t.value && ShallowInsert(t, v, k).key == t.key
    ensures Height(t) <= 2 ==> Height(ShallowInsert(t, v, k)) <= 2
  {
    SingleFacts(k, v);
  }

  /**
   * `insert` keeps the values of the slot it does not touch: the result holds the old values
   * less those of the overwritten slot, plus `v`.
   */
  lemma ShallowInsertElems<K>(t: Tree<K>, v: int, k: K)
    ensures t.Leaf? ==> Elems(ShallowInsert(t, v, k)) == multiset{v}
    ensures t.Node? ==>
      Elems(ShallowInsert(t, v, k)) + Elems(Child(t, if v < t.value then Left else Right)) == Elems(t) + multiset{v}
  {
    if t.Node? {
      var l, w, r := t.left, t.value, t.right;
      var single := multiset{v};
      SingleFacts(k, v);
      if v < w {
        calc {
          Elems(ShallowInsert(t, v, k)) + Elems(l);
          single + multiset{w} + Elems(r) + Elems(l);
          Elems(l) + multiset{w} + Elems(r) + single;
        }
      } else {
        calc {
          Elems(ShallowInsert(t, v, k)) + Elems(r);
          Elems(l) + multiset{w} + single + Elems(r);
          Elems(l) + multiset{w} + Elems(r) + single;
        }
      }
    }
  }

  /** While the slot on `v`'s side is empty, `insert` and the descending insertion agree. */
  lemma ShallowAgreesWhileSlotEmpty<K>(t: Tree<K>, v: int, k: K)
    requires t.Node? ==> Child(t, if v < t.value then Left else Right).Leaf?
    ensures ShallowInsert(t, v, k) == Insert(t, v, k)
  {
  }

  /** Starting from an empty tree, `insert` never builds more than two levels. */
  lemma {:induction false} ShallowInsertAllHeight(t: Tree<()>, s: seq<int>)
    requires Height(t) <= 2
    ensures Height(ShallowInsertAll(t, s)) <= 2
    decreases s
  {
    if s != [] {
      ShallowInsertShape(t, s[0], ());
      ShallowInsertAllHeight(ShallowInsert(t, s[0], ()), s[1..]);
    }
  }

  /**
   * Inserting 1, 2 and 3 with `insert` loses 2: the third insertion overwrites the root's
   * right slot. The descending insertion keeps all three, as a chain to the right.
   */
  lemma ShallowInsertLosesValue()
    ensures ShallowInsertAll(Leaf, [1, 2, 3]) == Node(Leaf, (), 1, Single((), 3))
    ensures 2 !in Elems(ShallowInsertAll(Leaf, [1, 2, 3]))
    ensures InsertAll(Leaf, [1, 2, 3]) == Node(Leaf, (), 1, Node(Leaf, (), 2, Single((), 3)))
    ensures Elems(InsertAll(Leaf, [1, 2, 3])) == multiset{1, 2, 3}
  {
    assert [1, 2, 3][1..] == [2, 3];
    assert [2, 3][1..] == [3];
    assert [3][1..] == [];
  }

  /** Inserting 1 then 2 with `insert`: the root holds 1 and its right slot a leaf holding 2. */
  lemma ShallowInsertTwo()
    ensures ShallowInsertAll(Leaf, [1, 2]) == Node(Leaf, (), 1, Single((), 2))
    ensures ShallowInsertAll(Leaf, [1, 2]) == InsertAll(Leaf, [1, 2])
  {
    assert [1, 2][1..] == [2];
    assert [2][1..] == [];
  }

  /** Inserting 1, 2, 3 through the class: the value 2 is no longer in the tree. */
  method InsertOneTwoThree() returns (t: BinaryTree)
    ensures t.Valid() && Erase(t.Shape) == ShallowInsertAll(Leaf, [1, 2, 3])
  {
    t := new BinaryTree();
    ghost var n1 := t.Insert(1);
    ghost var n2 := t.Insert(2);
    ghost var n3 := t.Insert(3);
    ShallowInsertLosesValue();
    assert [1, 2, 3][1..] == [2, 3];
    assert [2, 3][1..] == [3];
    assert [3][1..] == [];
  }
}
