/**
 * `BinarySearchTree`: an unbalanced search tree of `BinaryTreeNode`s. Smaller values go
 * left, all others go right. The ghost `Shape` is the tree of node objects with their
 * values; `Agree` ties every node's `left`, `right`, `value` and `parent` fields to it.
 */
module BinarySearchTrees {
  import opened BinaryTrees
  import opened SearchTrees
  import opened BinaryTreeNodes

  type Shape = Tree<BinaryTreeNode>

  function RootNode(t: Shape): BinaryTreeNode?
  {
    if t.Leaf? then null else t.key
  }

  /**
   * The heap agrees with `t`: each node's children are the roots of its subtrees, its
   * value is the one `t` records, and its parent is the node above it (`parent` for the root).
   */
  ghost predicate Agree(t: Shape, parent: BinaryTreeNode?)
    reads Keys(t)
  {
    match t
    case Leaf => true
    case Node(l, k, v, r) =>
      && k.left == RootNode(l) && k.right == RootNode(r) && k.value == v && k.parent == parent
      && Agree(l, k) && Agree(r, k)
  }

  /** The node above the end of `p`: the node at the path without its last step, or `parent` for the root. */
  function ParentOf(t: Shape, p: Path, parent: BinaryTreeNode?): BinaryTreeNode?
  {
    if p == [] then parent else RootNode(At(t, p[..|p| - 1]))
  }

  // ---------------------------------------------------------------------------
  // Heap lemmas
  // ---------------------------------------------------------------------------

  /** The fields of the node at the end of `p`, as `Agree` fixes them. */
  lemma {:induction false} AgreeAt(t: Shape, parent: BinaryTreeNode?, p: Path)
    requires Agree(t, parent) && OnTree(t, p)
    ensures Agree(At(t, p), ParentOf(t, p, parent))
  {
    if p != [] {
      var c := Child(t, p[0]);
      AgreeAt(c, t.key, p[1..]);
      ParentOfStep(t, p, parent);
    }
  }

  /** The parent of a path's end, seen one level down. */
  lemma ParentOfStep(t: Shape, p: Path, parent: BinaryTreeNode?)
    requires p != [] && OnTree(t, p)
    ensures ParentOf(t, p, parent) == ParentOf(Child(t, p[0]), p[1..], t.key)
    ensures p[1..] != [] ==> At(t, p[..|p| - 1]) == At(Child(t, p[0]), p[1..][..|p[1..]| - 1])
  {
    if p[1..] != [] {
      assert p[..|p| - 1] == [p[0]] + p[1..][..|p[1..]| - 1];
      assert p[..|p| - 1][1..] == p[1..][..|p[1..]| - 1];
    }
  }

  /** The parent's slot on the side of the last step holds the node at the end of `p`, and only that slot. */
  lemma ParentSlot(t: Shape, parent: BinaryTreeNode?, p: Path)
    requires Agree(t, parent) && OnTree(t, p) && p != [] && At(t, p).Node? && DistinctKeys(t)
    ensures ParentOf(t, p, parent) != null && ParentOf(t, p, parent) in Keys(t)
    ensures p[|p| - 1] == Left ==> ParentOf(t, p, parent).left == At(t, p).key
    ensures p[|p| - 1] == Right ==> ParentOf(t, p, parent).right == At(t, p).key
    ensures ParentOf(t, p, parent) !in Keys(At(t, p))
    ensures ParentOf(t, p, parent).left == At(t, p).key <==> p[|p| - 1] == Left
  {
    var pp := p[..|p| - 1];
    PrefixOnTree(t, p);
    AgreeAt(t, parent, pp);
    var n := At(t, pp);
    AtDistinct(t, pp);
    ReplaceKeys(t, pp, n);
    assert n.key !in Keys(n.left) && Keys(n.left) !! Keys(n.right);
  }

  /**
   * `Agree` only reads the nodes of the tree. `S`, a set of objects that existed before the
   * change, bounds them; the other parameters are only required to have existed then.
   */
  twostate lemma {:induction false} AgreeFrame(S: set<object>, new t: Shape, new parent: BinaryTreeNode?)
    requires old(allocated(t)) && old(allocated(parent))
    requires Keys(t) <= S && old(Agree(t, parent))
    requires forall o | o in Keys(t) :: unchanged(o)
    ensures Agree(t, parent)
  {
    match t
    case Leaf =>
    case Node(l, k, _, r) =>
      AgreeFrame(S, l, k);
      AgreeFrame(S, r, k);
  }

  /**
   * A node whose children's subtrees are untouched and whose child links are kept agrees
   * with its subtree under its current value and parent.
   */
  twostate lemma Relink(S: set<object>, new l: Shape, new k: BinaryTreeNode, new w: int, new r: Shape, new parent: BinaryTreeNode?)
    requires old(allocated(l)) && old(allocated(k)) && old(allocated(r)) && old(allocated(parent))
    requires Keys(Node(l, k, w, r)) <= S
    requires old(Agree(Node(l, k, w, r), parent)) && DistinctKeys(Node(l, k, w, r))
    requires forall o | o in Keys(l) :: unchanged(o)
    requires forall o | o in Keys(r) :: unchanged(o)
    requires k.left == old(k.left) && k.right == old(k.right)
    ensures Agree(Node(l, k, k.value, r), k.parent)
  {
    AgreeFrame(S, l, k);
    AgreeFrame(S, r, k);
  }

  /**
   * Replacing the subtree at `p` by `x`: when `x` agrees with the heap under the node above
   * it, that node's slot holds `x`'s root, and no other node of the rest of the tree
   * changed, the whole new tree agrees with the heap.
   */
  twostate lemma {:induction false} ReplaceAgree(S: set<object>, new t: Shape, new p: Path, new x: Shape, new parent: BinaryTreeNode?)
    requires old(allocated(t)) && old(allocated(parent))
    requires Keys(t) <= S
    requires OnTree(t, p) && old(Agree(t, parent)) && DistinctKeys(t)
    requires Agree(x, ParentOf(t, p, parent))
    requires forall o | o in Keys(t) && o !in Keys(At(t, p)) && o != ParentOf(t, p, parent) :: unchanged(o)
    requires p != [] ==>
      var q := ParentOf(t, p, parent);
      && q != null && q in S && q.value == old(q.value) && q.parent == old(q.parent)
      && (if p[|p| - 1] == Left then q.left == RootNode(x) && q.right == old(q.right)
          else q.right == RootNode(x) && q.left == old(q.left))
    ensures Agree(ReplaceAt(t, p, x), parent)
    decreases |p|, 1
  {
    if |p| == 1 {
      ReplaceChildAgree(S, t, p, x, parent);
    } else if p != [] {
      ReplaceDeepAgree(S, t, p, x, parent);
    }
  }

  /** `ReplaceAgree` for a child of the root: the root itself is the node above `x`. */
  twostate lemma {:induction false} ReplaceChildAgree(S: set<object>, new t: Shape, new p: Path, new x: Shape, new parent: BinaryTreeNode?)
    requires old(allocated(t)) && old(allocated(parent))
    requires Keys(t) <= S
    requires OnTree(t, p) && old(Agree(t, parent)) && DistinctKeys(t)
    requires Agree(x, ParentOf(t, p, parent))
    requires forall o | o in Keys(t) && o !in Keys(At(t, p)) && o != ParentOf(t, p, parent) :: unchanged(o)
    requires p != [] ==>
      var q := ParentOf(t, p, parent);
      && q != null && q in S && q.value == old(q.value) && q.parent == old(q.parent)
      && (if p[|p| - 1] == Left then q.left == RootNode(x) && q.right == old(q.right)
          else q.right == RootNode(x) && q.left == old(q.left))
    requires |p| == 1
    ensures Agree(ReplaceAt(t, p, x), parent)
    decreases |p|, 0
  {
    var other := Child(t, if p[0] == Left then Right else Left);
    assert p[1..] == [];
    assert ParentOf(t, p, parent) == t.key && At(t, p) == Child(t, p[0]);
    assert Keys(other) !! Keys(At(t, p)) && t.key !in Keys(other);
    AgreeFrame(S, other, t.key);
  }

  /** `ReplaceAgree` below a child of the root: the root keeps its fields and the change is one level down. */
  twostate lemma {:induction false} ReplaceDeepAgree(S: set<object>, new t: Shape, new p: Path, new x: Shape, new parent: BinaryTreeNode?)
    requires old(allocated(t)) && old(allocated(parent))
    requires Keys(t) <= S
    requires OnTree(t, p) && old(Agree(t, parent)) && DistinctKeys(t)
    requires Agree(x, ParentOf(t, p, parent))
    requires forall o | o in Keys(t) && o !in Keys(At(t, p)) && o != ParentOf(t, p, parent) :: unchanged(o)
    requires p != [] ==>
      var q := ParentOf(t, p, parent);
      && q != null && q in S && q.value == old(q.value) && q.parent == old(q.parent)
      && (if p[|p| - 1] == Left then q.left == RootNode(x) && q.right == old(q.right)
          else q.right == RootNode(x) && q.left == old(q.left))
    requires |p| > 1
    ensures Agree(ReplaceAt(t, p, x), parent)
    decreases |p|, 0
  {
    var c, rest := Child(t, p[0]), p[1..];
    var k := t.key;
    ParentOfStep(t, p, parent);
    ReplaceKeys(t, p, x);
    ReplaceKeys(c, rest, x);
    assert p[|p| - 1] == rest[|rest| - 1];
    PrefixOnTree(c, rest);
    ReplaceKeys(c, rest[..|rest| - 1], At(c, rest[..|rest| - 1]));
    assert ParentOf(c, rest, k) in Keys(c);
    ReplaceAgree(S, c, rest, x, k);
    var other := Child(t, if p[0] == Left then Right else Left);
    AgreeFrame(S, other, k);
  }

  /** The in-order walk over the nodes: left subtree, node, right subtree. */
  function TraverseInOrder(node: BinaryTreeNode?, ghost t: Shape, ghost parent: BinaryTreeNode?): (s: seq<int>)
    requires Agree(t, parent) && node == RootNode(t)
    reads Keys(t)
    ensures s == InOrder(t)
    decreases t
  {
    if node == null then []
    else TraverseInOrder(node.left, t.left, node) + [node.value] + TraverseInOrder(node.right, t.right, node)
  }

  // ---------------------------------------------------------------------------
  // The tree
  // ---------------------------------------------------------------------------

  class BinarySearchTree {
    var root: BinaryTreeNode?

    /** The nodes reachable from `root`, with their values. */
    ghost var Shape: Shape
    ghost var Repr: set<object>

    /**
     * The nodes form a tree of distinct objects, reachable from `root`, whose fields agree
     * with `Shape` (the root's parent is null), and the values are in search-tree order.
     */
    ghost predicate Valid()
      reads this, Repr
      ensures Valid() ==> this in Repr
    {
      && this in Repr
      && Keys(Shape) <= Repr
      && DistinctKeys(Shape)
      && root == RootNode(Shape)
      && Ordered(Shape)
      && Agree(Shape, null)
    }

    /** Creates a tree and inserts every element of `it`, in order. */
    constructor (it: seq<int>)
      ensures Valid() && fresh(Repr)
      ensures Erase(Shape) == InsertAll(Leaf, it)
    {
      root := null;
      Shape := Leaf;
      Repr := {this};
      new;
      var k := 0;
      while k < |it|
        invariant 0 <= k <= |it|
        invariant Valid() && fresh(Repr)
        invariant InsertAll(Erase(Shape), it[k..]) == InsertAll(Leaf, it)
      {
        ghost var before := Shape;
        ghost var n := Insert(it[k]);
        EraseInsert(before, it[k], n);
        assert it[k..][1..] == it[k + 1..];
        k := k + 1;
      }
    }

    /**
     * `insert(value)`: an empty tree gets a new root; otherwise the walk goes left when
     * `value` is smaller than the node's value and right otherwise, and hangs a new leaf
     * in the first empty slot. The new node is returned as a ghost.
     */
    method Insert(value: int) returns (ghost n: BinaryTreeNode)
      requires Valid()
      modifies Repr
      ensures Valid() && fresh(Repr - old(Repr))
      ensures fresh(n) && Shape == BinaryTrees.Insert(old(Shape), value, n)
    {
      if root == null {
        var created := new BinaryTreeNode(value);
        n := created;
        root := created;
        Shape := Node(Leaf, n, value, Leaf);
        Repr := Repr + {n};
        return;
      }
      var node, p, d := FindSlot(value);
      n := Attach(node, value, p, d);
    }

    /**
     * `insert`'s loop on a non-empty tree: from the root, go left when `value` is smaller than
     * the node's value and right otherwise, until that side is empty; the node reached, its path
     * and the empty side.
     */
    method FindSlot(value: int) returns (node: BinaryTreeNode, ghost p: Path, d: Dir)
      requires Valid() && root != null
      ensures OnTree(Shape, p) && At(Shape, p).Node? && node == At(Shape, p).key
      ensures Child(At(Shape, p), d).Leaf? && Descends(Shape, value, p + [d])
    {
      node := root;
      p := [];
      // The source loops while `node` is set; it always is, and each turn either returns at an empty slot or steps down.
      while true
        invariant OnTree(Shape, p) && At(Shape, p).Node? && node == At(Shape, p).key
        invariant Descends(Shape, value, p)
        decreases Height(At(Shape, p))
      {
        AgreeAt(Shape, null, p);
        d := if value < node.value then Left else Right;
        DescendsSnoc(Shape, value, p);
        if (d == Left && node.left == null) || (d == Right && node.right == null) {
          return;
        }
        AtSnoc(Shape, p, d);
        node := if d == Left then node.left else node.right;
        p := p + [d];
      }
    }

    /** Hangs a new leaf holding `value` in the empty `d` slot of `node`, the node at `p`. */
    method Attach(node: BinaryTreeNode, value: int, ghost p: Path, d: Dir) returns (ghost n: BinaryTreeNode)
      requires Valid() && OnTree(Shape, p) && At(Shape, p).Node? && node == At(Shape, p).key
      requires Child(At(Shape, p), d).Leaf? && Descends(Shape, value, p + [d])
      modifies Repr
      ensures Valid() && fresh(Repr - old(Repr))
      ensures fresh(n) && Shape == BinaryTrees.Insert(old(Shape), value, n)
    {
      AgreeAt(Shape, null, p);
      AtSnoc(Shape, p, d);
      ReplaceKeys(Shape, p, At(Shape, p));
      label L:
      var created := new BinaryTreeNode(value);
      n := created;
      if d == Left {
        node.SetLeft(created);
      } else {
        node.SetRight(created);
      }
      ghost var leaf := Node(Leaf, n, value, Leaf);
      assert p + [d] != [] && (p + [d])[..|p + [d]| - 1] == p;
      ReplaceAgree@L(Repr, Shape, p + [d], leaf, null);
      Graft(n, value, p + [d]);
    }

    /** The ghost half of `Attach`: record the new leaf `n`, at `q`, in `Shape` and `Repr`. */
    ghost method Graft(n: BinaryTreeNode, value: int, q: Path)
      requires this in Repr && Keys(Shape) <= Repr && DistinctKeys(Shape) && Ordered(Shape) && n !in Repr
      requires Descends(Shape, value, q) && OnTree(Shape, q) && At(Shape, q).Leaf?
      requires var t := ReplaceAt(Shape, q, Node(Leaf, n, value, Leaf)); root == RootNode(t) && Agree(t, null)
      modifies this
      ensures Valid() && Repr == old(Repr) + {n}
      ensures Shape == BinaryTrees.Insert(old(Shape), value, n)
    {
      InsertAlong(Shape, value, n, q);
      InsertOrdered(Shape, value, n);
      InsertKeys(Shape, value, n);
      Shape := ReplaceAt(Shape, q, Node(Leaf, n, value, Leaf));
      Repr := Repr + {n};
    }

    /**
     * `find(value)`: the first node on the search path holding `value`, or null when the
     * path runs out. The root must be set: the source reads `node.value` on a null root.
     */
    method Find(value: int) returns (r: BinaryTreeNode?)
      requires Valid() && root != null
      ensures r == RootNode(Found(Shape, value))
      ensures r != null ==> r.value == value
    {
      var node := root;
      ghost var p: Path := [];
      while true
        invariant OnTree(Shape, p) && At(Shape, p).Node? && node == At(Shape, p).key
        invariant Found(Shape, value) == Found(At(Shape, p), value)
        decreases Height(At(Shape, p))
      {
        AgreeAt(Shape, null, p);
        if node.value == value {
          SearchOnTree(Shape, value);
          return node;
        }
        var d := if value < node.value then Left else Right;
        FoundStep(At(Shape, p), value);
        AtSnoc(Shape, p, d);
        node := if d == Left then node.left else node.right;
        if node == null {
          break;
        }
        p := p + [d];
      }
      return null;
    }

    /** `findMin(node)`: follows `left` links from `node`, the node at `p`, to the leftmost node. */
    method FindMin(node: BinaryTreeNode, ghost p: Path) returns (r: BinaryTreeNode)
      requires Valid() && OnTree(Shape, p) && At(Shape, p).Node? && node == At(Shape, p).key
      ensures r == MinKey(At(Shape, p)) && r.value == MinValue(At(Shape, p))
    {
      AgreeAt(Shape, null, p);
      var currentNode := node;
      ghost var sub := At(Shape, p);
      while currentNode.left != null
        invariant sub.Node? && currentNode == sub.key && Agree(sub, currentNode.parent)
        invariant MinKey(At(Shape, p)) == MinKey(sub) && MinValue(At(Shape, p)) == MinValue(sub)
        decreases sub
      {
        currentNode := currentNode.left;
        sub := sub.left;
      }
      return currentNode;
    }

    /**
     * `replaceNodeInParent(node, newNode)` for the node at `p`, which has at most one
     * child, and that child (or null): the parent's slot, or `root`, takes the child.
     * Promoting the child to root also clears its `parent`, which the source leaves at the
     * removed node; `ReplaceNodeInParentAsWritten` keeps that stale link.
     */
    method ReplaceNodeInParent(node: BinaryTreeNode, newNode: BinaryTreeNode?, ghost p: Path)
      requires Valid() && OnTree(Shape, p) && At(Shape, p).Node? && node == At(Shape, p).key
      requires !TwoChildren(At(Shape, p)) && newNode == RootNode(Promoted(At(Shape, p)))
      modifies Repr
      ensures Valid() && Repr == old(Repr)
      ensures Shape == Splice(old(Shape), p)
    {
      ghost var n := At(Shape, p);
      ghost var x := Promoted(n);
      AgreeAt(Shape, null, p);
      AtDistinct(Shape, p);
      ReplaceKeys(Shape, p, x);
      if p != [] {
        ParentSlot(Shape, null, p);
      }
      label L:
      if node.parent != null {
        var par := node.parent;
        if node == par.left {
          par.SetLeft(newNode);
        } else {
          par.SetRight(newNode);
        }
        if x.Node? {
          Relink@L(Repr, x.left, x.key, x.value, x.right, node);
        }
        ReplaceAgree@L(Repr, Shape, p, x, null);
      } else {
        root := newNode;
        if newNode != null {
          newNode.parent := null;
          Relink@L(Repr, x.left, x.key, x.value, x.right, node);
        }
      }
      SpliceOrdered(Shape, p);
      SpliceKeys(Shape, p);
      Shape := Splice(Shape, p);
    }

    /**
     * `remove(value)`: nothing when no node holds `value`; a node with at most one child
     * gives way to it; a node with two children takes the value of its successor, whose
     * node is removed first by a recursive `remove` that searches from the root again.
     */
    method Remove(value: int)
      requires Valid() && Removable(Shape, value)
      modifies Repr
      ensures Valid() && Repr == old(Repr)
      ensures Shape == RemoveTree(old(Shape), value)
      decreases if TwoChildren(Found(Shape, value)) then 2 else 0
    {
      var node := Find(value);
      SearchOnTree(Shape, value);
      if node == null {
        return;
      }
      ghost var p := SearchPath(Shape, value);
      ghost var n := At(Shape, p);
      AgreeAt(Shape, null, p);
      if node.left != null && node.right != null {
        RemoveBySuccessor(node, value, p);
      } else {
        var newNode := if node.left != null then node.left else node.right;
        ReplaceNodeInParent(node, newNode, p);
      }
    }

    /**
     * `remove`'s case of a node with two children: the smallest value of its right subtree is
     * removed first, then written into the node.
     */
    method RemoveBySuccessor(node: BinaryTreeNode, value: int, ghost p: Path)
      requires Valid() && Removable(Shape, value) && TwoChildren(Found(Shape, value))
      requires p == SearchPath(Shape, value) && OnTree(Shape, p) && node == At(Shape, p).key
      modifies Repr
      ensures Valid() && Repr == old(Repr)
      ensures Shape == RemoveTree(old(Shape), value)
      decreases 1
    {
      AgreeAt(Shape, null, p);
      AtSnoc(Shape, p, Right);
      var minNode := FindMin(node.right, p + [Right]);
      var m := minNode.value;
      SuccessorStep(Shape, value, m);
      Remove(m);
      ReplaceKeys(Shape, p, At(Shape, p));
      WriteValue(node, m, p);
    }

    /** `node.value = m` for the node at `p`. */
    method WriteValue(node: BinaryTreeNode, m: int, ghost p: Path)
      requires Valid() && OnTree(Shape, p) && At(Shape, p).Node? && node == At(Shape, p).key
      requires Ordered(SetValueAt(Shape, p, m))
      modifies this, node`value
      ensures Valid() && Repr == old(Repr)
      ensures Shape == SetValueAt(old(Shape), p, m)
    {
      ghost var n := At(Shape, p);
      AgreeAt(Shape, null, p);
      AtDistinct(Shape, p);
      ghost var x := Node(n.left, n.key, m, n.right);
      ReplaceKeys(Shape, p, x);
      if p != [] {
        ParentSlot(Shape, null, p);
      }
      label L:
      node.value := m;
      Relink@L(Repr, n.left, n.key, n.value, n.right, ParentOf(Shape, p, null));
      ReplaceAgree@L(Repr, Shape, p, x, null);
      Shape := SetValueAt(Shape, p, m);
    }

    /** In-order iteration: the values, smallest first. */
    function Values(): (s: seq<int>)
      requires Valid()
      reads this, Repr
      ensures s == InOrder(Shape)
    {
      TraverseInOrder(root, Shape, null)
    }
  }

  /** One step of a search that has not stopped: it continues in the child on `value`'s side. */
  lemma FoundStep(n: Shape, value: int)
    requires n.Node? && n.value != value
    ensures Found(n, value) == Found(Child(n, if value < n.value then Left else Right), value)
  {
    var d := if value < n.value then Left else Right;
    var rest := SearchPath(Child(n, d), value);
    assert SearchPath(n, value) == [d] + rest;
    assert ([d] + rest)[1..] == rest;
  }

  // ---------------------------------------------------------------------------
  // Removing the root, as written
  // ---------------------------------------------------------------------------

  /**
   * `replaceNodeInParent` as the source writes it: when `node` has no parent the root is
   * simply set to `newNode`, whose `parent` still names the removed `node`.
   */
  method ReplaceNodeInParentAsWritten(root: BinaryTreeNode?, node: BinaryTreeNode, newNode: BinaryTreeNode?)
    returns (newRoot: BinaryTreeNode?)
    requires node.parent != null ==> node == node.parent.left || node == node.parent.right
    modifies Box(node.parent), Box(newNode)`parent, node`parent
    ensures old(node.parent) == null ==> newRoot == newNode && unchanged(Box(newNode))
    ensures old(node.parent) != null ==> newRoot == root
    ensures old(node.parent) != null && node == old(node.parent.left) ==> old(node.parent).left == newNode
    ensures old(node.parent) != null && node != old(node.parent.left) ==> old(node.parent).right == newNode
    ensures old(node.parent) != null && newNode != null ==> newNode.parent == old(node.parent)
    ensures old(node.parent) != null && node != newNode ==> node.parent == null
    ensures old(node.parent) != null ==> old(node.parent).value == old(node.parent.value)
    ensures old(node.parent) != null && node == old(node.parent.left) ==> old(node.parent).right == old(node.parent.right)
    ensures old(node.parent) != null && node != old(node.parent.left) ==> old(node.parent).left == old(node.parent.left)
    ensures old(node.parent) != null && old(node.parent) != newNode && old(node.parent) != node ==>
      old(node.parent).parent == old(node.parent.parent)
    ensures old(node.parent) == null ==> node.parent == null
  {
    newRoot := root;
    if node.parent != null {
      var par := node.parent;
      if node == par.left {
        par.SetLeft(newNode);
      } else {
        par.SetRight(newNode);
      }
    } else {
      newRoot := newNode;
    }
  }

  /**
   * Insert 2 then 1, remove 2, remove 1, with the root removal as written. Removing 2 makes
   * the node holding 1 the root but leaves its `parent` at the removed node; removing 1 then
   * unlinks it from that detached node, and the root still holds 1.
   */
  method StaleParentKeepsRemovedValue() returns (root: BinaryTreeNode)
    ensures root.value == 1 && root.left == null && root.right == null
  {
    var two := new BinaryTreeNode(2);
    var one := new BinaryTreeNode(1);
    two.SetLeft(one);
    // remove(2): the root has only a left child, which takes its place.
    var r := ReplaceNodeInParentAsWritten(two, two, one);
    assert r == one && one.parent == two && two.left == one;
    // remove(1): the node is the root and has no children; its stale parent is consulted.
    r := ReplaceNodeInParentAsWritten(r, one, null);
    assert r == one && two.left == null;
    return one;
  }

  /** The same steps through the tree, whose root removal clears the promoted child's parent: the tree ends empty. */
  method RootRemovalEmptiesTree() returns (t: BinarySearchTree)
    ensures t.Valid() && t.root == null && t.Shape == Leaf
  {
    t := new BinarySearchTree([2, 1]);
    ghost var e := Erase(t.Shape);
    assert e == Node(Node(Leaf, (), 1, Leaf), (), 2, Leaf);
    assert t.Shape.Node? && t.Shape.left.Node? && t.Shape.right.Leaf?;
    assert Erase(t.Shape.left) == e.left;
    assert Erase(t.Shape.left.left) == Leaf && Erase(t.Shape.left.right) == Leaf;
    assert t.Shape.left.left.Leaf? && t.Shape.left.right.Leaf?;
    t.Remove(2);
    assert t.Shape.Node? && t.Shape.value == 1 && t.Shape.left.Leaf? && t.Shape.right.Leaf?;
    t.Remove(1);
  }
}
