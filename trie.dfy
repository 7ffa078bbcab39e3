/**
 * `Trie`: a root `TrieNode` keyed `''` holding `null`, under which every added word is a path
 * of one node per character. The ghost `Nodes` maps each reachable prefix to its node, and
 * `Model` is the abstract state those nodes hold.
 */
module Tries {
  import opened Wrappers
  import opened TrieNodes
  import opened TrieModels

  /**
   * What the node of prefix `q` holds: it is a valid node keyed by `q`'s last character (the
   * root by `''`), `model` records its value and child order, and each child is the node of
   * the one-character extension of `q` by the child's key.
   */
  ghost predicate Holds<V>(nodes: map<string, TrieNode<V>>, model: View<V>, q: string)
    requires q in nodes
    reads nodes[q]
  {
    && nodes[q].Valid()
    && q in model && model[q] == Entry(nodes[q].value, nodes[q].order)
    && nodes[q].key == (if q == "" then "" else [q[|q| - 1]])
    && (forall k {:trigger k in nodes[q].children} | k in nodes[q].children ::
          q + k in nodes && nodes[q].children[k] == nodes[q + k])
  }

  class Trie<V> {
    var root: TrieNode<V>
    ghost var Nodes: map<string, TrieNode<V>>
    ghost var Model: View<V>
    ghost var Repr: set<object>
    /** The inverse of `Nodes`: the prefix each node stands for. */
    ghost var Prefix: map<TrieNode<V>, string>

    /** `Nodes` and `Model` cover the same prefixes, the root's included, and `Model` is well formed. */
    ghost predicate Shape()
      reads this
    {
      && this in Repr
      && "" in Nodes && root == Nodes[""]
      && Nodes.Keys == Model.Keys
      && (forall q | q in Nodes :: Nodes[q] in Repr && Nodes[q] in Prefix && Prefix[Nodes[q]] == q)
      && WellFormed(Model)
    }

    /** Every reachable prefix has its own node, and each node holds what `Model` records. */
    ghost predicate Valid()
      reads this, Repr
    {
      && Shape()
      && (forall q {:trigger Holds(Nodes, Model, q)} | q in Nodes :: Holds(Nodes, Model, q))
    }

    /** `new Trie()`: only the root, keyed `''` and holding `null`. */
    constructor ()
      ensures Valid() && fresh(Repr) && Model == Empty()
    {
      var r := new TrieNode("", None);
      root := r;
      Nodes := map["" := r];
      Model := Empty();
      Repr := {this, r};
      Prefix := map[r := ""];
      EmptyWellFormed<V>();
    }

    /**
     * `getLastNode(word)`: follow `word` character by character from the root; the node
     * reached, or `None` (the source's `null`) at the first character that is not a child.
     */
    method GetLastNode(word: string) returns (r: Option<TrieNode<V>>)
      requires Valid()
      ensures r.Some? <==> word in Model
      ensures r.Some? ==> word in Nodes && r.value == Nodes[word]
    {
      var node := root;
      var i := 0;
      assert word[..0] == "";
      while i < |word|
        invariant 0 <= i <= |word| && word[..i] in Nodes && node == Nodes[word[..i]]
      {
        var c := [word[i]];
        ChildStep(word, i);
        if !node.Has(c) {
          return None;
        }
        node := node.GetChild(c).value;
        i := i + 1;
      }
      assert word[..i] == word;
      return Some(node);
    }

    /**
     * The walk's step from `word[..i]`: the next character is a child key exactly when
     * `word[..i + 1]` is reachable, the child is that prefix's node, and when it is not a
     * child key `word` is not reachable.
     */
    lemma ChildStep(word: string, i: nat)
      requires Valid() && i < |word| && word[..i] in Nodes
      ensures [word[i]] in Nodes[word[..i]].children <==> word[..i + 1] in Nodes
      ensures word[..i + 1] in Nodes ==> Nodes[word[..i]].children[[word[i]]] == Nodes[word[..i + 1]]
      ensures word[..i + 1] !in Nodes ==> word !in Model
    {
      assert word[..i] + [word[i]] == word[..i + 1];
      assert Holds(Nodes, Model, word[..i]);
      ChildKey(Model, word[..i], word[i]);
      if word[..i + 1] !in Nodes {
        NotReachedBeyond(Model, word, i);
        assert word[..|word|] == word;
      }
    }

    /**
     * One step of `add`'s second loop: `node.insert(char)` on the node of `p`, which has no
     * child `char`, then `node.getChild(char)`.
     */
    method InsertChild(node: TrieNode<V>, ghost p: string, ch: char) returns (child: TrieNode<V>)
      requires Valid() && p in Nodes && node == Nodes[p] && p + [ch] !in Model
      modifies this, node
      ensures Valid() && fresh(child) && Repr == old(Repr) + {child}
      ensures Nodes == old(Nodes)[p + [ch] := child] && Model == Link(old(Model), p, ch)
      ensures p + [ch] in Nodes && Nodes[p + [ch]] == child
    {
      var c := [ch];
      assert Holds(Nodes, Model, p);
      ChildKey(Model, p, ch);
      var o := node.Insert(c, None);
      child := node.GetChild(c).value;
      Adopt(node, p, ch, child);
    }

    /**
     * The ghost half of `InsertChild`: the node of `p` has gained the new node `child` under
     * `ch`, and every other node is as before; record `child` as the node of `p + [ch]`.
     */
    ghost method Adopt(node: TrieNode<V>, p: string, ch: char, child: TrieNode<V>)
      requires Shape() && p in Nodes && node == Nodes[p] && p + [ch] !in Nodes && child !in Repr
      requires forall q | q in Nodes && q != p :: Holds(Nodes, Model, q)
      requires node.Valid() && node.key == (if p == "" then "" else [p[|p| - 1]])
      requires node.value == Model[p].value && node.order == Model[p].order + [[ch]]
      requires forall k | k in node.children ::
        if k == [ch] then node.children[k] == child else p + k in Nodes && node.children[k] == Nodes[p + k]
      requires child.Valid() && child.key == [ch] && child.value == None && child.children == map[] && child.order == []
      modifies this
      ensures Valid() && Repr == old(Repr) + {child}
      ensures Nodes == old(Nodes)[p + [ch] := child] && Model == Link(old(Model), p, ch)
    {
      LinkHolds(Nodes, Model, p, ch, child, Nodes[p + [ch] := child], Link(Model, p, ch));
      Relink(p, ch, child);
    }

    /**
     * The ghost half of `InsertChild`: once the node of `p` has gained the child `child` under
     * `ch`, record `child` as the node of `p + [ch]`.
     */
    ghost method Relink(p: string, ch: char, child: TrieNode<V>)
      requires Shape() && p in Nodes && p + [ch] !in Nodes && child !in Repr
      modifies this
      ensures Shape() && Repr == old(Repr) + {child}
      ensures Nodes == old(Nodes)[p + [ch] := child] && Model == Link(old(Model), p, ch)
    {
      LinkWellFormed(Model, p, ch);
      Nodes, Model, Repr, Prefix := Nodes[p + [ch] := child], Link(Model, p, ch), Repr + {child}, Prefix[child := p + [ch]];
    }

    /** The end of `add`: `node.value = value` on the node of `w`. */
    method SetValue(node: TrieNode<V>, ghost w: string, value: Option<V>)
      requires Valid() && w in Nodes && node == Nodes[w]
      modifies this, node
      ensures Valid() && Repr == old(Repr) && Nodes == old(Nodes)
      ensures Model == old(Model)[w := old(Model)[w].(value := value)]
    {
      assert Holds(Nodes, Model, w);
      node.value := value;
      ghost var l := Model[w := Model[w].(value := value)];
      ValueHolds(Nodes, Model, w, l);
      Revalue(w, value);
    }

    /** The ghost half of `SetValue`: record the value of `w` in `Model`. */
    ghost method Revalue(w: string, value: Option<V>)
      requires Shape() && w in Nodes
      modifies this
      ensures Shape() && Repr == old(Repr) && Nodes == old(Nodes)
      ensures Model == old(Model)[w := old(Model)[w].(value := value)]
    {
      SetValueWellFormed(Model, w, value);
      Model := Model[w := Model[w].(value := value)];
    }

    /**
     * `add(word, value)`: the first loop follows the longest prefix of `word` already in the
     * trie, the second creates a node for each remaining character, and the node reached gets
     * `value` (the source's default is `null`).
     */
    method Add(word: string, value: Option<V>)
      requires Valid()
      modifies Repr
      ensures Valid() && fresh(Repr - old(Repr)) && old(Repr) <= Repr
      ensures Model == AddSpec(old(Model), word, value)
    {
      AddUnfold(Model, word, value);
      var node, i := Descend(word);
      node := Extend(node, word, i);
      SetValue(node, word, value);
    }

    /**
     * `add`'s first loop: from the root, follow the characters of `word` while they are child
     * keys; the node reached and the length of the prefix it stands for.
     */
    method Descend(word: string) returns (node: TrieNode<V>, i: nat)
      requires Valid()
      ensures Valid() && Repr == old(Repr) && Model == old(Model)
      ensures i == Reach(Model, word, 0) && word[..i] in Nodes && node == Nodes[word[..i]]
    {
      node := root;
      i := 0;
      AddStart(Model, word);
      ghost var r := Reach(Model, word, 0);
      while i < |word|
        invariant i <= |word| && word[..i] in Nodes && node == Nodes[word[..i]]
        invariant Reach(Model, word, i) == r
      {
        var c := [word[i]];
        ChildStep(word, i);
        if !node.Has(c) {
          assert Holds(Nodes, Model, word[..i]);
          break;
        }
        node := node.GetChild(c).value;
        i := i + 1;
      }
    }

    /**
     * `add`'s second loop: from the node of `word[..i]`, which has no child `word[i]`, a new
     * node for each remaining character, each the child of the previous one; the last is returned.
     */
    method Extend(node: TrieNode<V>, word: string, i: nat) returns (last: TrieNode<V>)
      requires Valid() && i <= |word| && word[..i] in Nodes && node == Nodes[word[..i]]
      requires i < |word| ==> word[..i + 1] !in Model
      modifies Repr
      ensures Valid() && fresh(Repr - old(Repr)) && old(Repr) <= Repr
      ensures word[..i] in old(Model) && Model == Grow(old(Model), word, i)
      ensures word in Nodes && last == Nodes[word]
    {
      last := node;
      var j := i;
      ghost var g := Grow(Model, word, i);
      while j < |word|
        invariant i <= j <= |word| && word[..j] in Nodes && last == Nodes[word[..j]]
        invariant Valid() && fresh(Repr - old(Repr)) && old(Repr) <= Repr
        invariant j < |word| ==> word[..j + 1] !in Model
        invariant Grow(Model, word, j) == g
      {
        last, j := ExtendStep(last, word, j);
      }
      assert word[..j] == word;
    }

    /**
     * One turn of `add`'s second loop, at character `word[j]`: the node of `word[..j]` gets a
     * child for it, which is returned with the index of the next character.
     */
    method ExtendStep(node: TrieNode<V>, word: string, j: nat) returns (child: TrieNode<V>, next: nat)
      requires Valid() && j < |word| && word[..j] in Nodes && node == Nodes[word[..j]]
      requires word[..j + 1] !in Model
      modifies this, node
      ensures Valid() && fresh(child) && Repr == old(Repr) + {child}
      ensures next == j + 1 && word[..next] in Nodes && child == Nodes[word[..next]]
      ensures next < |word| ==> word[..next + 1] !in Model
      ensures word[..j] in old(Model) && Grow(Model, word, next) == Grow(old(Model), word, j)
    {
      NextPrefix(word, j);
      NotReachedBeyond(Model, word, j);
      child := InsertChild(node, word[..j], word[j]);
      next := j + 1;
    }

    /** `suggestChars(prefix)`: the child keys of `prefix`'s node, or `None` when it is unreachable. */
    method SuggestChars(prefix: string) returns (r: Option<seq<string>>)
      requires Valid()
      ensures r == Suggest(Model, prefix)
    {
      var node := GetLastNode(prefix);
      if node.Some? {
        assert Holds(Nodes, Model, prefix);
        r := Some(node.value.AllChildrenChars());
      } else {
        r := None;
      }
    }

    /** `isWordIncluded(word)`: whether `word` leads to a node, that is, is a prefix of an added word. */
    method IsWordIncluded(word: string) returns (b: bool)
      requires Valid()
      ensures b <==> word in Model
    {
      var node := GetLastNode(word);
      b := node.Some?;
    }

    /** `find(word)`: the value at `word`'s node, or `None` when `word` is unreachable. */
    method Find(word: string) returns (r: Option<V>)
      requires Valid()
      ensures r == FindSpec(Model, word)
    {
      var node := GetLastNode(word);
      if node.Some? {
        assert Holds(Nodes, Model, word);
        r := node.value.value;
      } else {
        r := None;
      }
    }
  }

  /**
   * The nodes after the node of `p` gains the child `child` under `ch`: every node, the new
   * one included, holds what `Link` records.
   */
  lemma LinkHolds<V>(
    nodes: map<string, TrieNode<V>>, model: View<V>, p: string, ch: char, child: TrieNode<V>,
    n: map<string, TrieNode<V>>, l: View<V>)
    requires p in nodes && p + [ch] !in nodes && p in model
    requires n == nodes[p + [ch] := child] && l == Link(model, p, ch)
    requires forall q | q in nodes && q != p :: Holds(nodes, model, q)
    requires nodes[p].Valid() && nodes[p].key == (if p == "" then "" else [p[|p| - 1]])
    requires nodes[p].value == model[p].value && nodes[p].order == model[p].order + [[ch]]
    requires forall k | k in nodes[p].children ::
      if k == [ch] then nodes[p].children[k] == child else p + k in nodes && nodes[p].children[k] == nodes[p + k]
    requires child.Valid() && child.key == [ch] && child.value == None && child.children == map[] && child.order == []
    ensures forall r | r in n :: Holds(n, l, r)
  {
    var q := p + [ch];
    assert q[|q| - 1] == ch;
    forall r | r in n
      ensures Holds(n, l, r)
    {
      if r != p && r != q {
        assert Holds(nodes, model, r);
        forall k | k in n[r].children
          ensures r + k != q
        {
          assert r + k in nodes;
        }
      }
    }
  }

  /** The nodes after the node of `w` takes the value `l` records for it: every node holds what `l` records. */
  lemma ValueHolds<V>(nodes: map<string, TrieNode<V>>, model: View<V>, w: string, l: View<V>)
    requires w in nodes && w in model
    requires forall q | q in nodes && q != w :: Holds(nodes, model, q)
    requires nodes[w].Valid() && nodes[w].key == (if w == "" then "" else [w[|w| - 1]])
    requires nodes[w].order == model[w].order
    requires forall k | k in nodes[w].children :: w + k in nodes && nodes[w].children[k] == nodes[w + k]
    requires l == model[w := model[w].(value := nodes[w].value)]
    ensures forall r | r in nodes :: Holds(nodes, l, r)
  {
    forall r | r in nodes
      ensures Holds(nodes, l, r)
    {
      if r != w {
        assert Holds(nodes, model, r);
      }
    }
  }
}
