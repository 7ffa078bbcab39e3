/**
 * `BinaryTreeNode`: a node with a value, a `parent` back-reference and `left`/`right`
 * children. Assigning a child through a setter detaches the child it replaces (its
 * `parent` becomes null) and adopts the new child (its `parent` becomes this node).
 */
module BinaryTreeNodes {

  class BinaryTreeNode {
    var value: int
    var parent: BinaryTreeNode?
    /** Read directly, as the `left` getter does. */
    var left: BinaryTreeNode?
    /** Read directly, as the `right` getter does. */
    var right: BinaryTreeNode?

    /** A node holding `value`, with no children and no parent. */
    constructor (value: int)
      ensures this.value == value
      ensures left == null && right == null && parent == null
    {
      this.value := value;
      left := null;
      right := null;
      parent := null;
    }

    /**
     * The `left` setter. The previous left child, if any, loses its parent; `node`, if
     * not null, gets this node as parent. Nothing else changes: in particular `right`,
     * `value` and this node's own `parent`, unless this node is itself `node` or the
     * previous left child.
     */
    method SetLeft(node: BinaryTreeNode?)
      modifies this`left, Box(left)`parent, Box(node)`parent
      ensures left == node
      ensures right == old(right) && value == old(value)
      ensures node != null ==> node.parent == this
      ensures old(left) != null && old(left) != node ==> old(left).parent == null
      ensures this != node && this != old(left) ==> parent == old(parent)
    {
      if left != null {
        left.parent := null;
      }
      left := node;
      if node != null {
        node.parent := this;
      }
    }

    /** The `right` setter: as `SetLeft`, on the right slot. */
    method SetRight(node: BinaryTreeNode?)
      modifies this`right, Box(right)`parent, Box(node)`parent
      ensures right == node
      ensures left == old(left) && value == old(value)
      ensures node != null ==> node.parent == this
      ensures old(right) != null && old(right) != node ==> old(right).parent == null
      ensures this != node && this != old(right) ==> parent == old(parent)
    {
      if right != null {
        right.parent := null;
      }
      right := node;
      if node != null {
        node.parent := this;
      }
    }
  }

  /** The node as a set: empty for null. */
  function Box(n: BinaryTreeNode?): set<BinaryTreeNode>
  {
    if n == null then {} else {n}
  }

  /** Setting a child, setting it again elsewhere, and clearing a slot, as a caller sees it. */
  method SetterScenario()
  {
    var a := new BinaryTreeNode(1);
    var b := new BinaryTreeNode(2);
    var c := new BinaryTreeNode(3);
    a.SetLeft(b);
    assert a.left == b && b.parent == a && a.right == null;
    a.SetLeft(c);
    assert a.left == c && c.parent == a && b.parent == null;
    a.SetRight(b);
    assert a.right == b && b.parent == a && a.left == c;
    a.SetLeft(null);
    assert a.left == null && c.parent == null && a.right == b && a.parent == null;
  }
}
