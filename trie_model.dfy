/**
 * The abstract state of a `Trie`: the map from each reachable prefix to what its node
 * holds, namely its value and the keys of its children in the order they were added.
 * `add` and the queries are specified on this map.
 */
module TrieModels {
  import opened Wrappers
  import opened TrieNodes

  /** What the node reached by a prefix holds. */
  datatype Entry<V> = Entry(value: Option<V>, order: seq<string>)

  type View<V> = map<string, Entry<V>>

  /** A new trie: only the root, holding `null`, with no children. */
  function Empty<V>(): View<V>
  {
    map["" := Entry(None, [])]
  }

  /**
   * The shape every trie has: the root is reachable; each child key is one character, listed
   * once, and leads to a reachable prefix; and every reachable non-empty prefix hangs under
   * the prefix one character shorter.
   */
  ghost predicate WellFormed<V>(m: View<V>)
  {
    && "" in m
    && (forall p | p in m :: Distinct(m[p].order))
    && (forall p, k {:trigger k in m[p].order} | p in m && k in m[p].order :: |k| == 1 && p + k in m)
    && (forall p {:trigger Init(p)} | p in m && p != "" :: Init(p) in m && [p[|p| - 1]] in m[Init(p)].order)
  }

  /** The prefix one character shorter. */
  function Init(p: string): string
    requires p != ""
  {
    p[..|p| - 1]
  }

  /**
   * The walk of `add`'s first loop and of `getLastNode`: from `w[..i]`, follow `w`'s characters
   * while each is a child key; the length of the longest prefix of `w` so reached.
   */
  function Reach<V>(m: View<V>, w: string, i: nat): (r: nat)
    requires WellFormed(m) && i <= |w| && w[..i] in m
    ensures i <= r <= |w| && w[..r] in m
    decreases |w| - i
  {
    if i == |w| || [w[i]] !in m[w[..i]].order then i
    else
      assert w[..i] + [w[i]] == w[..i + 1];
      Reach(m, w, i + 1)
  }

  /** One step of `add`'s second loop: `p`'s node gets a new child keyed `c`, holding `null`. */
  function Link<V>(m: View<V>, p: string, c: char): View<V>
    requires p in m
  {
    m[p := m[p].(order := m[p].order + [[c]])][p + [c] := Entry(None, [])]
  }

  /** `add`'s second loop: a new node for each of `w[i..]`, each under the previous one. */
  function Grow<V>(m: View<V>, w: string, i: nat): (g: View<V>)
    requires i <= |w| && w[..i] in m
    ensures m.Keys <= g.Keys && w in g
    decreases |w| - i
  {
    if i == |w| then
      assert w[..i] == w;
      m
    else
      assert w[..i] + [w[i]] == w[..i + 1];
      Grow(Link(m, w[..i], w[i]), w, i + 1)
  }

  /**
   * `add(w, v)`: follow the longest existing prefix of `w`, create the nodes for the rest, and
   * store `v` at `w`'s node.
   */
  function AddSpec<V>(m: View<V>, w: string, v: Option<V>): View<V>
    requires WellFormed(m)
  {
    assert w[..0] == "";
    var g := Grow(m, w, Reach(m, w, 0));
    g[w := g[w].(value := v)]
  }

  /** `suggestChars(p)`: `Object.keys` of `p`'s children, or `null` when `p` is not reachable. */
  function Suggest<V>(m: View<V>, p: string): Option<seq<string>>
  {
    if p in m then Some(KeysOrder(m[p].order)) else None
  }

  /** `find(w)`: the value at `w`'s node, or `null` when `w` is not reachable. */
  function FindSpec<V>(m: View<V>, w: string): Option<V>
  {
    if w in m then m[w].value else None
  }

  // ---------------------------------------------------------------------------
  // Prefixes and the walk
  // ---------------------------------------------------------------------------

  /** The prefix of `w` one character longer than `w[..i]`. */
  lemma NextPrefix(w: string, i: nat)
    requires i < |w|
    ensures w[..i] + [w[i]] == w[..i + 1]
  {
  }

  /** Every prefix of a reachable word is reachable. */
  lemma {:induction false} PrefixClosed<V>(m: View<V>, w: string, j: nat)
    requires WellFormed(m) && w in m && j <= |w|
    ensures w[..j] in m
    decreases |w| - j
  {
    if j < |w| {
      var u := w[..|w| - 1];
      assert Init(w) == u;
      PrefixClosed(m, u, j);
      assert u[..j] == w[..j];
    } else {
      assert w[..j] == w;
    }
  }

  /** Every shorter prefix of a reachable prefix of `w` is reachable. */
  lemma PrefixReached<V>(m: View<V>, w: string, j: nat, k: nat)
    requires WellFormed(m) && k <= j <= |w| && w[..j] in m
    ensures w[..k] in m
  {
    PrefixClosed(m, w[..j], k);
    assert w[..j][..k] == w[..k];
  }

  /** In a well-formed trie, `c` is a child key of `p`'s node exactly when `p + c` is reachable. */
  lemma ChildKey<V>(m: View<V>, p: string, c: char)
    requires WellFormed(m) && p in m
    ensures [c] in m[p].order <==> p + [c] in m
  {
    assert Init(p + [c]) == p;
  }

  /** The walk stops at the first character that is not a child key: one more is not reachable. */
  lemma {:induction false} ReachStops<V>(m: View<V>, w: string, i: nat)
    requires WellFormed(m) && i <= |w| && w[..i] in m
    ensures Reach(m, w, i) < |w| ==> w[..Reach(m, w, i) + 1] !in m
    decreases |w| - i
  {
    if i < |w| {
      assert w[..i] + [w[i]] == w[..i + 1];
      ChildKey(m, w[..i], w[i]);
      if [w[i]] in m[w[..i]].order {
        ReachStops(m, w, i + 1);
      }
    }
  }

  /**
   * The walk reaches the end of `w` exactly when `w` is reachable; it always stops at the
   * longest reachable prefix of `w`.
   */
  lemma ReachIncluded<V>(m: View<V>, w: string)
    requires WellFormed(m)
    ensures w[..0] in m
    ensures Reach(m, w, 0) == |w| <==> w in m
    ensures forall j | 0 <= j <= |w| :: w[..j] in m <==> j <= Reach(m, w, 0)
  {
    assert w[..0] == "";
    var r := Reach(m, w, 0);
    ReachStops(m, w, 0);
    assert w[..r] in m;
    assert w[..|w|] == w;
    forall j | 0 <= j <= |w|
      ensures w[..j] in m <==> j <= r
    {
      if j <= r {
        PrefixReached(m, w, r, j);
      } else if w[..j] in m {
        PrefixReached(m, w, j, r + 1);
      }
    }
  }

  // ---------------------------------------------------------------------------
  // Growing
  // ---------------------------------------------------------------------------

  /** Hanging a new node under a reachable prefix keeps the trie well formed. */
  lemma LinkWellFormed<V>(m: View<V>, p: string, c: char)
    requires WellFormed(m) && p in m && p + [c] !in m
    ensures WellFormed(Link(m, p, c))
  {
    LinkDistinct(m, p, c);
    LinkChildren(m, p, c);
    LinkParents(m, p, c);
  }

  /** Hanging a new node keeps each child list free of repeats. */
  lemma LinkDistinct<V>(m: View<V>, p: string, c: char)
    requires WellFormed(m) && p in m && p + [c] !in m
    ensures forall q | q in Link(m, p, c) :: Distinct(Link(m, p, c)[q].order)
  {
    var l := Link(m, p, c);
    ChildKey(m, p, c);
    forall q | q in l
      ensures Distinct(l[q].order)
    {
      if q == p {
        assert l[q].order == m[p].order + [[c]];
        DistinctSnoc(m[p].order, [c]);
      }
    }
  }

  /** Hanging a new node keeps every child key one character long and leading to a reachable prefix. */
  lemma LinkChildren<V>(m: View<V>, p: string, c: char)
    requires WellFormed(m) && p in m && p + [c] !in m
    ensures forall q, k {:trigger k in Link(m, p, c)[q].order} | q in Link(m, p, c) && k in Link(m, p, c)[q].order ::
      |k| == 1 && q + k in Link(m, p, c)
  {
    var l := Link(m, p, c);
    ChildKey(m, p, c);
    forall q, k {:trigger k in l[q].order} | q in l && k in l[q].order
      ensures |k| == 1 && q + k in l
    {
      if q == p && k !in m[p].order {
        assert k == [c];
      }
    }
  }

  /** Hanging a new node keeps every reachable prefix under its parent. */
  lemma LinkParents<V>(m: View<V>, p: string, c: char)
    requires WellFormed(m) && p in m && p + [c] !in m
    ensures forall q {:trigger Init(q)} | q in Link(m, p, c) && q != "" ::
      Init(q) in Link(m, p, c) && [q[|q| - 1]] in Link(m, p, c)[Init(q)].order
  {
    var l := Link(m, p, c);
    forall q | q in l && q != ""
      ensures Init(q) in l && [q[|q| - 1]] in l[Init(q)].order
    {
      if q == p + [c] {
        assert Init(q) == p && q[|q| - 1] == c;
      } else {
        assert Init(q) in m;
      }
    }
  }

  /** `add`'s second loop keeps the trie well formed. */
  lemma {:induction false} GrowWellFormed<V>(m: View<V>, w: string, i: nat)
    requires WellFormed(m) && i <= |w| && w[..i] in m && (i < |w| ==> w[..i + 1] !in m)
    ensures WellFormed(Grow(m, w, i))
    decreases |w| - i
  {
    if i < |w| {
      var l := Link(m, w[..i], w[i]);
      assert w[..i] + [w[i]] == w[..i + 1];
      LinkWellFormed(m, w[..i], w[i]);
      NotReachedBeyond(m, w, i);
      assert l.Keys == m.Keys + {w[..i + 1]};
      GrowWellFormed(l, w, i + 1);
    }
  }

  /**
   * The nodes `add`'s second loop creates from `w[..i]` onwards: every prefix of `w` from
   * `w[..i]` on is reachable afterwards, and nothing else is new.
   */
  lemma {:induction false} GrowKeys<V>(m: View<V>, w: string, i: nat)
    requires WellFormed(m) && i <= |w| && w[..i] in m && (i < |w| ==> w[..i + 1] !in m)
    ensures forall j | i <= j <= |w| :: w[..j] in Grow(m, w, i)
    ensures forall p {:trigger p in Grow(m, w, i)} | p in Grow(m, w, i) && p !in m :: i < |p| <= |w| && p == w[..|p|]
    decreases |w| - i
  {
    if i < |w| {
      var l := Link(m, w[..i], w[i]);
      assert w[..i] + [w[i]] == w[..i + 1];
      LinkWellFormed(m, w[..i], w[i]);
      NotReachedBeyond(m, w, i);
      assert l.Keys == m.Keys + {w[..i + 1]};
      GrowKeys(l, w, i + 1);
    }
  }

  /** Once a prefix of `w` is not reachable, no longer one is. */
  lemma NotReachedBeyond<V>(m: View<V>, w: string, i: nat)
    requires WellFormed(m) && i < |w| && w[..i + 1] !in m
    ensures forall j | i < j <= |w| :: w[..j] !in m
  {
    forall j | i < j <= |w|
      ensures w[..j] !in m
    {
      if w[..j] in m {
        PrefixReached(m, w, j, i + 1);
      }
    }
  }

  /** After `add`'s second loop old nodes keep their values and new nodes hold `null`. */
  lemma {:induction false} GrowValues<V>(m: View<V>, w: string, i: nat)
    requires WellFormed(m) && i <= |w| && w[..i] in m && (i < |w| ==> w[..i + 1] !in m)
    ensures forall p | p in Grow(m, w, i) :: Grow(m, w, i)[p].value == (if p in m then m[p].value else None)
    decreases |w| - i
  {
    if i < |w| {
      var l := Link(m, w[..i], w[i]);
      assert w[..i] + [w[i]] == w[..i + 1];
      LinkWellFormed(m, w[..i], w[i]);
      NotReachedBeyond(m, w, i);
      assert l.Keys == m.Keys + {w[..i + 1]};
      GrowValues(l, w, i + 1);
    }
  }

  /**
   * The children after `add`'s second loop from `w[..i]`: `w[..i]` gains the child `w[i]`,
   * every other old node keeps its children, and each new node has the next character of `w`
   * as its only child, the last one none.
   */
  lemma {:induction false} GrowOrders<V>(m: View<V>, w: string, i: nat)
    requires WellFormed(m) && i <= |w| && w[..i] in m && (i < |w| ==> w[..i + 1] !in m)
    ensures forall p | p in m && p != w[..i] :: Grow(m, w, i)[p].order == m[p].order
    ensures i < |w| ==> Grow(m, w, i)[w[..i]].order == m[w[..i]].order + [[w[i]]]
    ensures forall p {:trigger Grow(m, w, i)[p]} | p in Grow(m, w, i) && p !in m ::
      Grow(m, w, i)[p].order == (if |p| < |w| then [[w[|p|]]] else [])
    decreases |w| - i
  {
    if i < |w| {
      var l := Link(m, w[..i], w[i]);
      assert w[..i] + [w[i]] == w[..i + 1];
      LinkWellFormed(m, w[..i], w[i]);
      NotReachedBeyond(m, w, i);
      assert l.Keys == m.Keys + {w[..i + 1]};
      GrowOrders(l, w, i + 1);
      GrowKeys(l, w, i + 1);
      var g := Grow(m, w, i);
      assert g == Grow(l, w, i + 1);
      assert w[..i] != w[..i + 1];
      forall p {:trigger g[p]} | p in g && p !in m
        ensures g[p].order == (if |p| < |w| then [[w[|p|]]] else [])
      {
        if p == w[..i + 1] {
          assert l[p].order == [];
        }
      }
    }
  }

  // ---------------------------------------------------------------------------
  // `add`
  // ---------------------------------------------------------------------------

  /** The walk of `add` stops short exactly when a new node is needed. */
  lemma AddStart<V>(m: View<V>, w: string)
    requires WellFormed(m)
    ensures w[..0] in m
    ensures var r := Reach(m, w, 0); w[..r] in m && (r < |w| ==> w[..r + 1] !in m)
  {
    ReachIncluded(m, w);
    ReachStops(m, w, 0);
  }

  /** `add(w, v)` is the second loop from where the walk stopped, then `v` stored at `w`. */
  lemma AddUnfold<V>(m: View<V>, w: string, v: Option<V>)
    requires WellFormed(m)
    ensures w[..0] in m
    ensures var r := Reach(m, w, 0);
      && w[..r] in m && (r < |w| ==> w[..r + 1] !in m)
      && w in Grow(m, w, r)
      && AddSpec(m, w, v) == Grow(m, w, r)[w := Grow(m, w, r)[w].(value := v)]
  {
    AddStart(m, w);
  }

  /** After `add(w, v)` the trie is well formed, and `w` is reachable and holds `v`. */
  lemma AddWellFormed<V>(m: View<V>, w: string, v: Option<V>)
    requires WellFormed(m)
    ensures WellFormed(AddSpec(m, w, v))
    ensures w in AddSpec(m, w, v) && AddSpec(m, w, v)[w].value == v
  {
    AddUnfold(m, w, v);
    var r := Reach(m, w, 0);
    GrowWellFormed(m, w, r);
    GrowKeys(m, w, r);
    var g := Grow(m, w, r);
    var a := AddSpec(m, w, v);
    assert a.Keys == g.Keys;
    forall p | p in a
      ensures a[p].order == g[p].order
    {
    }
  }

  /** Setting the value of a reachable prefix keeps the view well formed. */
  lemma SetValueWellFormed<V>(m: View<V>, w: string, v: Option<V>)
    requires WellFormed(m) && w in m
    ensures WellFormed(m[w := m[w].(value := v)])
  {
    var a := m[w := m[w].(value := v)];
    assert forall p | p in a :: a[p].order == m[p].order;
  }

  /**
   * `add(w, v)` keeps every reachable prefix and makes every prefix of `w` reachable; the new
   * ones are exactly the prefixes of `w` longer than the walk reached.
   */
  lemma AddKeys<V>(m: View<V>, w: string, v: Option<V>)
    requires WellFormed(m)
    ensures forall j | 0 <= j <= |w| :: w[..j] in AddSpec(m, w, v)
    ensures forall j | 0 <= j <= |w| :: w[..j] in m <==> j <= Reach(m, w, 0)
    ensures forall p | p in m :: p in AddSpec(m, w, v)
    ensures forall p {:trigger p in AddSpec(m, w, v)} | p in AddSpec(m, w, v) && p !in m ::
      Reach(m, w, 0) < |p| <= |w| && p == w[..|p|]
  {
    AddUnfold(m, w, v);
    ReachIncluded(m, w);
    var r := Reach(m, w, 0);
    GrowKeys(m, w, r);
    var g := Grow(m, w, r);
    assert AddSpec(m, w, v).Keys == g.Keys;
  }

  /** `add(w, v)` changes no value except `w`'s, and new nodes hold `null`. */
  lemma AddValues<V>(m: View<V>, w: string, v: Option<V>)
    requires WellFormed(m)
    ensures forall p | p in AddSpec(m, w, v) && p != w ::
      AddSpec(m, w, v)[p].value == (if p in m then m[p].value else None)
  {
    AddUnfold(m, w, v);
    GrowValues(m, w, Reach(m, w, 0));
  }

  /**
   * `add(w, v)` changes no node's children except that the node where the walk stopped gains
   * the next character of `w`; each new node other than `w`'s has the following character as
   * its one child.
   */
  lemma AddOrders<V>(m: View<V>, w: string, v: Option<V>)
    requires WellFormed(m)
    ensures w[..0] in m
    ensures forall p | p in m && p != w[..Reach(m, w, 0)] :: AddSpec(m, w, v)[p].order == m[p].order
    ensures Reach(m, w, 0) < |w| ==>
      AddSpec(m, w, v)[w[..Reach(m, w, 0)]].order == m[w[..Reach(m, w, 0)]].order + [[w[Reach(m, w, 0)]]]
    ensures forall p {:trigger AddSpec(m, w, v)[p]} | p in AddSpec(m, w, v) && p !in m ::
      AddSpec(m, w, v)[p].order == (if |p| < |w| then [[w[|p|]]] else [])
  {
    AddUnfold(m, w, v);
    var r := Reach(m, w, 0);
    GrowKeys(m, w, r);
    GrowOrders(m, w, r);
  }

  /**
   * Adding a word that is already reachable creates no node and only overwrites its value; in
   * particular adding the empty word sets the root's value.
   */
  lemma AddAgain<V>(m: View<V>, w: string, v: Option<V>)
    requires WellFormed(m) && w in m
    ensures AddSpec(m, w, v) == m[w := m[w].(value := v)]
  {
    ReachIncluded(m, w);
    assert w[..|w|] == w;
  }

  /** `add` leaves every other word's `find` result as it was. */
  lemma AddFindOthers<V>(m: View<V>, w: string, v: Option<V>, u: string)
    requires WellFormed(m)
    ensures FindSpec(AddSpec(m, w, v), w) == v
    ensures u != w ==> FindSpec(AddSpec(m, w, v), u) == FindSpec(m, u)
  {
    AddWellFormed(m, w, v);
    AddKeys(m, w, v);
    AddValues(m, w, v);
  }

  // ---------------------------------------------------------------------------
  // Queries
  // ---------------------------------------------------------------------------

  /**
   * `suggestChars(p)` of a reachable `p` lists each one-character extension of `p` that is
   * reachable, once, and nothing else; when none is a digit, in the order they were added.
   */
  lemma SuggestChildren<V>(m: View<V>, p: string)
    requires WellFormed(m) && p in m
    ensures Suggest(m, p).Some?
    ensures forall k :: k in Suggest(m, p).value <==> |k| == 1 && p + k in m
    ensures Distinct(Suggest(m, p).value)
    ensures (forall i | 0 <= i < |m[p].order| :: !IsDigitKey(m[p].order[i])) ==>
      Suggest(m, p).value == m[p].order
  {
    KeysOrderCorrect(m[p].order);
    forall k | |k| == 1 && p + k in m
      ensures k in m[p].order
    {
      ChildKey(m, p, k[0]);
      assert [k[0]] == k;
    }
    if forall i | 0 <= i < |m[p].order| :: !IsDigitKey(m[p].order[i]) {
      KeysOrderNoDigits(m[p].order);
    }
  }

  /** A new trie is well formed; only the empty word is reachable, and it suggests nothing. */
  lemma EmptyWellFormed<V>()
    ensures WellFormed(Empty<V>())
    ensures forall w :: w in Empty<V>() <==> w == ""
    ensures Suggest(Empty<V>(), "") == Some([])
  {
    KeysOrderNoDigits([]);
  }
}
