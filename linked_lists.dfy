/**
 * A singly linked list with `head` and `tail` entry points (src/lib/linkedLists.ts).
 *
 * The list object keeps two ghost views of its chain: `Contents`, the values met when
 * walking `next` from `head`, and `Nodes`, the node objects met on that walk.
 * `Valid()` ties both views to the real `head`, `tail` and `next` fields.
 */
module LinkedLists {

  /** `LinkedNode`: a value and an optional successor. */
  class LinkedNode<T> {
    var value: T
    var next: LinkedNode?<T>

    constructor (value: T, next: LinkedNode?<T>)
      ensures this.value == value && this.next == next
    {
      this.value := value;
      this.next := next;
    }
  }

  // ---------------------------------------------------------------------------
  // Specification functions on value sequences
  // ---------------------------------------------------------------------------

  /** The position of the first occurrence of `v` in `s`. */
  function FirstIndex<T(==)>(s: seq<T>, v: T): (i: nat)
    requires v in s
    ensures i < |s| && s[i] == v && v !in s[..i]
  {
    if s[0] == v then 0 else FirstIndex(s[1..], v) + 1
  }

  /** `s` with its first occurrence of `v` deleted; `s` itself when `v` does not occur. */
  function RemoveFirst<T(==)>(s: seq<T>, v: T): seq<T>
  {
    if s == [] then []
    else if s[0] == v then s[1..]
    else [s[0]] + RemoveFirst(s[1..], v)
  }

  /**
   * The inputs on which `remove` as written does not dereference a missing node: the
   * head case needs a head whose value is `v`; the general case reads `head.next` and
   * then `currentNode.next`, so it needs at least two nodes.
   */
  predicate RemoveDefined<T(==)>(s: seq<T>, v: T)
  {
    |s| >= 1 && (s[0] == v || |s| >= 2)
  }

  /**
   * What `remove(v)` does to the value sequence as the source is written: the head case
   * drops the first value; the general case only inspects the successors of the node at
   * index 1, so it deletes the first occurrence of `v` at index 2 or later.
   */
  function RemoveAsWritten<T(==)>(s: seq<T>, v: T): seq<T>
    requires RemoveDefined(s, v)
  {
    if s[0] == v then s[1..] else s[..2] + RemoveFirst(s[2..], v)
  }

  // ---------------------------------------------------------------------------
  // Lemmas about the specification functions
  // ---------------------------------------------------------------------------

  /** The first occurrence is the only position that holds `v` with no `v` before it. */
  lemma FirstIndexUnique<T>(s: seq<T>, v: T, k: nat)
    requires k < |s| && s[k] == v && v !in s[..k]
    ensures v in s && FirstIndex(s, v) == k
  {
  }

  /** Deleting the first occurrence takes exactly one copy of `v` out of the multiset of values. */
  lemma {:induction false} RemoveFirstMultiset<T>(s: seq<T>, v: T)
    ensures multiset(RemoveFirst(s, v)) == multiset(s) - multiset{v}
    ensures |RemoveFirst(s, v)| == if v in s then |s| - 1 else |s|
  {
    if s != [] {
      assert s == [s[0]] + s[1..];
      if s[0] != v {
        RemoveFirstMultiset(s[1..], v);
      }
    }
  }

  /** Without `v` in `s`, deleting its first occurrence changes nothing. */
  lemma {:induction false} RemoveFirstAbsent<T>(s: seq<T>, v: T)
    requires v !in s
    ensures RemoveFirst(s, v) == s
  {
    if s != [] {
      RemoveFirstAbsent(s[1..], v);
    }
  }

  /** Deleting the first occurrence, at position `k`, keeps everything else in order. */
  lemma {:induction false} RemoveFirstAt<T>(s: seq<T>, v: T, k: nat)
    requires k < |s| && s[k] == v && v !in s[..k]
    ensures RemoveFirst(s, v) == s[..k] + s[k + 1..]
  {
    if k > 0 {
      assert s[0] == s[..k][0];
      assert s[1..][..k - 1] == s[1..k];
      RemoveFirstAt(s[1..], v, k - 1);
    }
  }

  /** A prefix without `v` is kept in front of the result. */
  lemma {:induction false} RemoveFirstAfterPrefix<T>(s: seq<T>, v: T, k: nat)
    requires k <= |s| && v !in s[..k]
    ensures RemoveFirst(s, v) == s[..k] + RemoveFirst(s[k..], v)
  {
    if k > 0 {
      assert s[0] == s[..k][0];
      assert s[1..][..k - 1] == s[1..k];
      RemoveFirstAfterPrefix(s[1..], v, k - 1);
      assert s[1..][k - 1..] == s[k..];
    }
  }

  /**
   * `remove` as written agrees with deleting the first occurrence whenever that
   * occurrence is not the second value of the list.
   */
  lemma RemoveAsWrittenAgrees<T>(s: seq<T>, v: T)
    requires RemoveDefined(s, v)
    requires !(v in s && FirstIndex(s, v) == 1)
    ensures RemoveAsWritten(s, v) == RemoveFirst(s, v)
  {
    if s[0] == v {
      FirstIndexUnique(s, v, 0);
    } else {
      assert v !in s[..2];
      RemoveFirstAfterPrefix(s, v, 2);
    }
  }

  /** Past the head, `remove` as written deletes the first `v` it finds from index 2 on. */
  lemma RemoveAsWrittenAt<T>(s: seq<T>, v: T, k: nat)
    requires 2 <= k < |s| && s[0] != v && s[k] == v && v !in s[2..k]
    ensures RemoveDefined(s, v)
    ensures RemoveAsWritten(s, v) == s[..k] + s[k + 1..]
  {
    var u := s[2..];
    assert u[k - 2] == v && u[..k - 2] == s[2..k];
    RemoveFirstAt(u, v, k - 2);
    assert u[k - 1..] == s[k + 1..];
    assert RemoveAsWritten(s, v) == s[..2] + (s[2..k] + s[k + 1..]);
    assert s[..2] + s[2..k] == s[..k];
  }

  /** With no `v` from index 2 on and none at the head, `remove` as written changes nothing. */
  lemma RemoveAsWrittenNone<T>(s: seq<T>, v: T)
    requires |s| >= 2 && s[0] != v && v !in s[2..]
    ensures RemoveDefined(s, v)
    ensures RemoveAsWritten(s, v) == s
  {
    RemoveFirstAbsent(s[2..], v);
    assert s == s[..2] + s[2..];
  }

  /**
   * When the second value is the only `v` in the list, `remove(v)` as written leaves the
   * list unchanged, whereas the documented behaviour deletes it.
   */
  lemma RemoveAsWrittenMissesSecond<T>(s: seq<T>, v: T)
    requires |s| >= 2 && s[0] != v && s[1] == v && v !in s[2..]
    ensures RemoveDefined(s, v)
    ensures RemoveAsWritten(s, v) == s
    ensures RemoveFirst(s, v) == [s[0]] + s[2..] != s
  {
    RemoveAsWrittenNone(s, v);
    RemoveFirstAt(s, v, 1);
    assert s[..1] == [s[0]];
  }

  /** The list [1, 2, 3] keeps its 2 under `remove(2)` as written. */
  lemma RemoveMiddleOfThree()
    ensures RemoveAsWritten([1, 2, 3], 2) == [1, 2, 3]
    ensures RemoveFirst([1, 2, 3], 2) == [1, 3]
  {
    RemoveAsWrittenMissesSecond([1, 2, 3], 2);
  }

  /** `remove` as written reads a missing node on an empty list and on a one-node list without `v` at its head. */
  lemma RemoveUndefinedOnShortLists<T>(x: T, v: T)
    requires x != v
    ensures !RemoveDefined([], v) && !RemoveDefined([x], v)
  {
  }

  // ---------------------------------------------------------------------------
  // The list
  // ---------------------------------------------------------------------------

  /** `LinkedList`: the chain of nodes from `head` to `tail`. */
  class LinkedList<T(==)> {
    var head: LinkedNode?<T>
    var tail: LinkedNode?<T>

    /** The values met when following `next` from `head`. */
    ghost var Contents: seq<T>
    /** The nodes met when following `next` from `head`. */
    ghost var Nodes: seq<LinkedNode<T>>
    ghost var Repr: set<object>

    /**
     * The chain is made of distinct nodes, node i holds value i and points to node i + 1,
     * the last node points nowhere, `head` is the first node and `tail` the last one, and
     * both are null exactly when the list is empty.
     */
    ghost predicate Valid()
      reads this, Repr
      ensures Valid() ==> this in Repr
    {
      && this in Repr
      && (forall i | 0 <= i < |Nodes| :: Nodes[i] in Repr)
      && |Nodes| == |Contents|
      && (forall i | 0 <= i < |Nodes| :: Nodes[i].value == Contents[i])
      && (forall i | 0 <= i < |Nodes| - 1 :: Nodes[i].next == Nodes[i + 1])
      && (Nodes != [] ==> Nodes[|Nodes| - 1].next == null)
      && (forall i, j | 0 <= i < j < |Nodes| :: Nodes[i] != Nodes[j])
      && head == (if Nodes == [] then null else Nodes[0])
      && tail == (if Nodes == [] then null else Nodes[|Nodes| - 1])
    }

    /** The successor of node `i` is node `i + 1`, or null for the last node. */
    lemma NextOf(i: nat)
      requires Valid() && i < |Nodes|
      ensures Nodes[i].next == if i + 1 < |Nodes| then Nodes[i + 1] else null
    {
    }

    /** Creates a list and appends every element of `it`, in order. */
    constructor (it: seq<T>)
      ensures Valid() && fresh(Repr)
      ensures Contents == it
    {
      head, tail := null, null;
      Contents, Nodes, Repr := [], [], {this};
      new;
      var k := 0;
      while k < |it|
        invariant 0 <= k <= |it|
        invariant Valid() && fresh(Repr)
        invariant Contents == it[..k]
      {
        Append(it[k]);
        k := k + 1;
      }
    }

    /** Adds a node in front of `head`; on an empty list it is also the new `tail`. */
    method Prepend(value: T)
      requires Valid()
      modifies this
      ensures Valid() && fresh(Repr - old(Repr))
      ensures Contents == [value] + old(Contents)
      ensures fresh(head) && head.next == old(head)
      ensures tail == if old(head) == null then head else old(tail)
      ensures Nodes == [head] + old(Nodes)
    {
      var node := new LinkedNode(value, head);
      if head == null {
        head := node;
        tail := head;
      } else {
        head := node;
      }
      Contents, Nodes := [value] + Contents, [node] + Nodes;
      Repr := Repr + {node};
    }

    /** Adds a node after `tail`; on an empty list it is also the new `head`. */
    method Append(value: T)
      requires Valid()
      modifies Repr
      ensures Valid() && fresh(Repr - old(Repr))
      ensures Contents == old(Contents) + [value]
      ensures fresh(tail) && tail.next == null
      ensures old(tail) == null ==> head == tail
      ensures old(tail) != null ==> head == old(head) && old(tail).next == tail
      ensures Nodes == old(Nodes) + [tail]
    {
      var node := new LinkedNode(value, null);
      if tail == null {
        tail := node;
        head := tail;
      } else {
        tail.next := node;
        tail := node;
      }
      Contents, Nodes := Contents + [value], Nodes + [node];
      Repr := Repr + {node};
    }

    /**
     * Unlinks the node at position `i + 1`, whose predecessor is `prev`, and moves `tail`
     * back to `prev` when the unlinked node was the last one.
     */
    method UnlinkAfter(prev: LinkedNode<T>, ghost i: nat)
      requires Valid() && i + 1 < |Nodes| && prev == Nodes[i]
      modifies this, prev
      ensures Valid() && Repr == old(Repr)
      ensures Contents == old(Contents)[..i + 1] + old(Contents)[i + 2..]
      ensures Nodes == old(Nodes)[..i + 1] + old(Nodes)[i + 2..]
    {
      assert prev.next == Nodes[i + 1];
      if i + 2 < |Nodes| {
        assert Nodes[i + 1].next == Nodes[i + 2];
      }
      prev.next := prev.next.next;
      if prev.next == null {
        tail := prev;
      }
      Contents, Nodes := Contents[..i + 1] + Contents[i + 2..], Nodes[..i + 1] + Nodes[i + 2..];
    }

    /** Moves `head` to its successor and clears `tail` when nothing is left. */
    method UnlinkHead()
      requires Valid() && Nodes != []
      modifies this
      ensures Valid() && Repr == old(Repr)
      ensures Contents == old(Contents)[1..] && Nodes == old(Nodes)[1..]
    {
      NextOf(0);
      head := head.next;
      if head == null {
        tail := null;
      }
      Contents, Nodes := Contents[1..], Nodes[1..];
    }

    /**
     * `remove(value)` as written. The head case drops the first node and clears `tail`
     * when nothing is left. The general case starts at `head.next` and only compares
     * the successors of the current node, so the node at index 1 is never removed.
     */
    method Remove(value: T)
      requires Valid() && RemoveDefined(Contents, value)
      modifies Repr
      ensures Valid() && Repr == old(Repr)
      ensures Contents == RemoveAsWritten(old(Contents), value)
      ensures old(Contents)[0] == value ==> Nodes == old(Nodes)[1..]
      ensures old(Contents)[0] != value && value in old(Contents)[2..] ==>
        var k := FirstIndex(old(Contents)[2..], value) + 2; Nodes == old(Nodes)[..k] + old(Nodes)[k + 1..]
      ensures old(Contents)[0] != value && value !in old(Contents)[2..] ==> Nodes == old(Nodes)
    {
      if head != null && head.value == value {
        UnlinkHead();
        return;
      }
      ghost var s := Contents;
      NextOf(0);
      var currentNode := head.next;
      ghost var i := 1;
      while currentNode.next != null
        invariant Valid() && Contents == s && Nodes == old(Nodes) && Repr == old(Repr)
        invariant 1 <= i < |Nodes| && currentNode == Nodes[i]
        invariant value !in s[2..i + 1]
        decreases |Nodes| - i
      {
        NextOf(i);
        var inspectedNode := currentNode.next;
        if inspectedNode.value == value {
          RemoveAsWrittenAt(s, value, i + 1);
          assert s[2..][..i - 1] == s[2..i + 1];
          FirstIndexUnique(s[2..], value, i - 1);
          UnlinkAfter(currentNode, i);
          return;
        }
        assert s[2..i + 2] == s[2..i + 1] + [s[i + 1]];
        currentNode := currentNode.next;
        i := i + 1;
      }
      NextOf(i);
      assert s[2..i + 1] == s[2..];
      RemoveAsWrittenNone(s, value);
    }

    /**
     * The corrected `remove(value)`: nothing happens on an empty list, and the scan
     * starts at `head`, so the first node holding `value` is the one removed.
     */
    method RemoveFirstOccurrence(value: T)
      requires Valid()
      modifies Repr
      ensures Valid() && Repr == old(Repr)
      ensures Contents == RemoveFirst(old(Contents), value)
      ensures value in old(Contents) ==>
        var k := FirstIndex(old(Contents), value); Nodes == old(Nodes)[..k] + old(Nodes)[k + 1..]
      ensures value !in old(Contents) ==> Nodes == old(Nodes)
    {
      if head == null {
        return;
      }
      if head.value == value {
        FirstIndexUnique(Contents, value, 0);
        Remove(value);
        return;
      }
      ghost var s := Contents;
      var currentNode := head;
      ghost var i := 0;
      while currentNode.next != null
        invariant Valid() && Contents == s && Nodes == old(Nodes) && Repr == old(Repr)
        invariant 0 <= i < |Nodes| && currentNode == Nodes[i]
        invariant value !in s[..i + 1]
        decreases |Nodes| - i
      {
        NextOf(i);
        var inspectedNode := currentNode.next;
        if inspectedNode.value == value {
          assert s[..i + 1] + [s[i + 1]] == s[..i + 2];
          RemoveFirstAt(s, value, i + 1);
          FirstIndexUnique(s, value, i + 1);
          UnlinkAfter(currentNode, i);
          return;
        }
        assert s[..i + 1] + [s[i + 1]] == s[..i + 2];
        currentNode := currentNode.next;
        i := i + 1;
      }
      NextOf(i);
      assert s[..i + 1] == s;
      RemoveFirstAbsent(s, value);
    }

    /** `removeHead`: drops the first node, through `remove(head.value)`; a no-op on an empty list. */
    method RemoveHead()
      requires Valid()
      modifies Repr
      ensures Valid() && Repr == old(Repr)
      ensures Contents == if old(Contents) == [] then [] else old(Contents)[1..]
      ensures Nodes == if old(Nodes) == [] then [] else old(Nodes)[1..]
    {
      if head != null {
        Remove(head.value);
      }
    }

    /**
     * `removeTail`: on a list of at most one node both ends become null; otherwise the
     * walk cuts the link into the last node and `tail` becomes the former second-to-last node.
     */
    method RemoveTail()
      requires Valid()
      modifies Repr
      ensures Valid() && Repr == old(Repr)
      ensures Contents == if |old(Contents)| <= 1 then [] else old(Contents)[..|old(Contents)| - 1]
      ensures |old(Contents)| >= 2 ==> tail == old(Nodes)[|old(Nodes)| - 2] && tail.next == null
      ensures Nodes == if |old(Nodes)| <= 1 then [] else old(Nodes)[..|old(Nodes)| - 1]
    {
      if head == tail {
        head := null;
        tail := null;
        Contents, Nodes := [], [];
        return;
      }
      ghost var n := |Nodes|;
      var currentNode := head;
      ghost var i := 0;
      NextOf(0);
      while currentNode != null && currentNode.next != null
        invariant Valid() && Repr == old(Repr) && n == |old(Nodes)| >= 2
        invariant currentNode != null ==>
          && i <= n - 2 && Nodes == old(Nodes) && Contents == old(Contents)
          && currentNode == Nodes[i] && currentNode.next == Nodes[i + 1]
        invariant currentNode == null ==>
          && Contents == old(Contents)[..n - 1] && Nodes == old(Nodes)[..n - 1] && tail == old(Nodes)[n - 2]
        decreases if currentNode == null then 0 else n - i
      {
        var inspectedNode := currentNode.next;
        NextOf(i + 1);
        if inspectedNode.next == null {
          UnlinkAfter(currentNode, i);
          NextOf(i);
          assert old(Contents)[i + 2..] == [] && old(Nodes)[i + 2..] == [];
        }
        currentNode := currentNode.next;
        i := i + 1;
      }
    }

    /** `find(value)`: the first node from `head` holding `value`, or null; the list is not changed. */
    method Find(value: T) returns (r: LinkedNode?<T>)
      requires Valid()
      ensures value in Contents ==> r == Nodes[FirstIndex(Contents, value)]
      ensures value !in Contents ==> r == null
    {
      var currentNode := head;
      ghost var i := 0;
      while currentNode != null
        invariant 0 <= i <= |Nodes|
        invariant currentNode == if i < |Nodes| then Nodes[i] else null
        invariant value !in Contents[..i]
        decreases |Nodes| - i
      {
        if currentNode.value == value {
          FirstIndexUnique(Contents, value, i);
          return currentNode;
        }
        currentNode := currentNode.next;
        i := i + 1;
      }
      assert Contents[..i] == Contents;
      return null;
    }

    /** Forward iteration: the values from `head` to `tail`, in order. */
    method Values() returns (s: seq<T>)
      requires Valid()
      ensures s == Contents
    {
      s := [];
      var currentNode := head;
      ghost var i := 0;
      while currentNode != null
        invariant 0 <= i <= |Nodes|
        invariant currentNode == if i < |Nodes| then Nodes[i] else null
        invariant s == Contents[..i]
        decreases |Nodes| - i
      {
        s := s + [currentNode.value];
        currentNode := currentNode.next;
        i := i + 1;
      }
    }
  }

  /** Appending 1, 2, 3 and iterating gives [1, 2, 3]; prepending them gives [3, 2, 1]. */
  method AppendPrependOrder()
  {
    var a := new LinkedList<int>([]);
    a.Append(1);
    a.Append(2);
    a.Append(3);
    var s := a.Values();
    assert s == [1, 2, 3];
    var p := new LinkedList<int>([]);
    p.Prepend(1);
    p.Prepend(2);
    p.Prepend(3);
    var t := p.Values();
    assert t == [3, 2, 1];
  }
}
