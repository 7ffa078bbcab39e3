/**
 * `TrieNode`: a node of a character trie. It holds its own one-character key (`char`; the
 * root's is empty), an optional value, and a dictionary of children keyed by character.
 * The dictionary is a plain JavaScript object, which the model renders as a map plus the
 * order in which its keys were added; `Object.keys` and the `in` operator are modelled
 * as JavaScript defines them for such an object.
 */
module TrieNodes {
  import opened Wrappers

  /** Why `insert` throws. */
  datatype InsertError = ChildExists | NotOneChar

  /**
   * `s` lists no element twice. The positions are compared only where a proof names them
   * through `Twice`.
   */
  predicate Distinct<T(==)>(s: seq<T>)
  {
    forall i, j {:trigger Twice(s, i, j)} | 0 <= i < j < |s| :: !Twice(s, i, j)
  }

  /** Positions `i` and `j` of `s` hold the same element. */
  predicate Twice<T(==)>(s: seq<T>, i: int, j: int)
    requires 0 <= i < |s| && 0 <= j < |s|
  {
    s[i] == s[j]
  }

  /** A one-character key that is an array index: `"0"` to `"9"`. */
  predicate IsDigitKey(k: string)
  {
    |k| == 1 && '0' <= k[0] <= '9'
  }

  function DigitKey(d: nat): string
    requires d < 10
  {
    [('0' as int + d) as char]
  }

  /** The digit keys `DigitKey(d)` to `"9"` that occur in `order`, ascending. */
  function DigitKeysFrom(order: seq<string>, d: nat): seq<string>
    requires d <= 10
    decreases 10 - d
  {
    if d == 10 then []
    else (if DigitKey(d) in order then [DigitKey(d)] else []) + DigitKeysFrom(order, d + 1)
  }

  /** The keys of `order` that are not array indices, in their order. */
  function NonDigitKeys(order: seq<string>): seq<string>
  {
    if order == [] then []
    else (if IsDigitKey(order[0]) then [] else [order[0]]) + NonDigitKeys(order[1..])
  }

  /**
   * `Object.keys` of an object whose keys were added in the order `order` (keys of at most
   * one character): the array-index keys first, in ascending order, then the others in the
   * order they were added.
   */
  function KeysOrder(order: seq<string>): seq<string>
  {
    DigitKeysFrom(order, 0) + NonDigitKeys(order)
  }

  class TrieNode<V> {
    /** The source's `char`: this node's character. */
    var key: string
    var value: Option<V>
    /** The child dictionary's own properties. */
    var children: map<string, TrieNode<V>>
    /** The keys of `children`, in the order they were added. */
    var order: seq<string>

    /** The key has at most one character and `order` lists each key of `children` once. */
    ghost predicate Valid()
      reads this
    {
      && |key| <= 1
      && Distinct(order)
      && (forall k :: k in children <==> k in order)
      && (forall k {:trigger k in children} | k in children :: |k| <= 1)
    }

    /** A node keyed `c` holding `v`, with no children. The source throws when `c` is longer. */
    constructor (c: string, v: Option<V>)
      requires |c| <= 1
      ensures Valid() && key == c && value == v && children == map[] && order == []
    {
      key := c;
      value := v;
      children := map[];
      order := [];
    }

    /** `new TrieNode(c, v)`: throws (here: `None`) when `c` has more than one character. */
    static method Create(c: string, v: Option<V>) returns (r: Option<TrieNode<V>>)
      ensures r.None? <==> |c| > 1
      ensures r.Some? ==> fresh(r.value) && r.value.Valid()
      ensures r.Some? ==> r.value.key == c && r.value.value == v && r.value.children == map[] && r.value.order == []
    {
      if |c| > 1 {
        return None;
      }
      var n := new TrieNode(c, v);
      return Some(n);
    }

    /** `getChild(c)`: the child stored under `c`, or `None` (JavaScript's `undefined`). */
    function GetChild(c: string): (r: Option<TrieNode<V>>)
      reads this
      ensures r.Some? <==> c in children
      ensures r.Some? ==> r.value == children[c]
    {
      if c in children then Some(children[c]) else None
    }

    /**
     * `has(c)`: `c in this.children`, which also holds for the names the dictionary inherits
     * from `Object.prototype`, all longer than one character.
     */
    predicate Has(c: string)
      reads this
      ensures c in children ==> Has(c)
      ensures |c| <= 1 ==> (Has(c) <==> c in children)
    {
      || c in children
      || (|c| > 1 && c in [
          "constructor", "hasOwnProperty", "isPrototypeOf", "propertyIsEnumerable", "toLocaleString",
          "toString", "valueOf", "__proto__", "__defineGetter__", "__defineSetter__",
          "__lookupGetter__", "__lookupSetter__"])
    }

    /**
     * `insert(c, v)`: throws when `has(c)` holds, or when `c` is longer than one character
     * (from the constructor), and changes nothing then; otherwise adds a new child keyed
     * `c`, holding `v`, with no children, after the existing ones.
     */
    method Insert(c: string, v: Option<V>) returns (o: Outcome<InsertError>)
      requires Valid()
      modifies this
      ensures Valid() && key == old(key) && value == old(value)
      ensures old(Has(c)) ==> o == Fail(ChildExists) && unchanged(this)
      ensures !old(Has(c)) && |c| > 1 ==> o == Fail(NotOneChar) && unchanged(this)
      ensures !old(Has(c)) && |c| <= 1 ==>
        && o == Pass
        && c in children && fresh(children[c])
        && children == old(children)[c := children[c]]
        && order == old(order) + [c]
        && children[c].Valid() && children[c].key == c && children[c].value == v
        && children[c].children == map[] && children[c].order == []
    {
      if Has(c) {
        return Fail(ChildExists);
      }
      o := AddChild(c, v);
    }

    /**
     * The rest of `insert` once `has(c)` is false: `new TrieNode(c, v)`, which throws when `c`
     * is longer than one character, stored under `c`.
     */
    method AddChild(c: string, v: Option<V>) returns (o: Outcome<InsertError>)
      requires Valid() && c !in children
      modifies this
      ensures Valid() && key == old(key) && value == old(value)
      ensures |c| > 1 ==> o == Fail(NotOneChar) && unchanged(this)
      ensures |c| <= 1 ==>
        && o == Pass
        && c in children && fresh(children[c])
        && children == old(children)[c := children[c]]
        && order == old(order) + [c]
        && children[c].Valid() && children[c].key == c && children[c].value == v
        && children[c].children == map[] && children[c].order == []
    {
      var created := Create(c, v);
      if created.None? {
        return Fail(NotOneChar);
      }
      DistinctSnoc(order, c);
      children := children[c := created.value];
      order := order + [c];
      o := Pass;
    }

    /** `allChildrenChars()`: `Object.keys(this.children)`. */
    function AllChildrenChars(): (r: seq<string>)
      reads this
      ensures forall k :: k in r <==> k in order
      ensures Valid() ==> (forall k :: k in r <==> k in children) && Distinct(r)
    {
      KeysOrderCorrect(order);
      KeysOrder(order)
    }
  }

  // ---------------------------------------------------------------------------
  // Lemmas
  // ---------------------------------------------------------------------------

  /** Appending an element not yet listed keeps a list distinct. */
  lemma DistinctSnoc<T>(s: seq<T>, x: T)
    requires Distinct(s) && x !in s
    ensures Distinct(s + [x])
  {
    var t := s + [x];
    forall i, j | 0 <= i < j < |t|
      ensures !Twice(t, i, j)
    {
      if j < |s| {
        assert !Twice(s, i, j);
      } else {
        assert t[i] == s[i] && s[i] in s;
      }
    }
  }

  /** Putting an element not yet listed in front keeps a list distinct. */
  lemma DistinctCons<T>(x: T, s: seq<T>)
    requires Distinct(s) && x !in s
    ensures Distinct([x] + s)
  {
    var t := [x] + s;
    forall i, j | 0 <= i < j < |t|
      ensures !Twice(t, i, j)
    {
      if i > 0 {
        assert !Twice(s, i - 1, j - 1);
      } else {
        assert t[j] == s[j - 1] && s[j - 1] in s;
      }
    }
  }

  /** A distinct list's first element does not recur, and its tail is distinct. */
  lemma DistinctTail<T>(s: seq<T>)
    requires Distinct(s) && s != []
    ensures s[0] !in s[1..] && Distinct(s[1..])
  {
    var t := s[1..];
    forall i, j | 0 <= i < j < |t|
      ensures !Twice(t, i, j)
    {
      assert !Twice(s, i + 1, j + 1);
    }
    forall j | 0 <= j < |t|
      ensures t[j] != s[0]
    {
      assert !Twice(s, 0, j + 1);
    }
  }

  /** Two distinct lists with no element in common make a distinct list. */
  lemma DistinctAppend<T>(a: seq<T>, b: seq<T>)
    requires Distinct(a) && Distinct(b) && forall x | x in a :: x !in b
    ensures Distinct(a + b)
  {
    var t := a + b;
    forall i, j | 0 <= i < j < |t|
      ensures !Twice(t, i, j)
    {
      if j < |a| {
        assert !Twice(a, i, j);
      } else if i >= |a| {
        assert !Twice(b, i - |a|, j - |a|);
      } else {
        assert t[i] == a[i] && a[i] in a && t[j] == b[j - |a|] && b[j - |a|] in b;
      }
    }
  }

  lemma {:induction false} DigitKeysFromContents(order: seq<string>, d: nat, k: string)
    requires d <= 10
    ensures k in DigitKeysFrom(order, d) <==> k in order && IsDigitKey(k) && d <= DigitOf(k)
    decreases 10 - d
  {
    if d < 10 {
      DigitKeysFromContents(order, d + 1, k);
      if IsDigitKey(k) && DigitOf(k) == d {
        assert k == DigitKey(d);
      }
    }
  }

  /** The number a digit key stands for. */
  function DigitOf(k: string): int
  {
    if |k| == 1 then k[0] as int - '0' as int else -1
  }

  lemma DigitKeyValue(d: nat)
    requires d < 10
    ensures IsDigitKey(DigitKey(d)) && DigitOf(DigitKey(d)) == d
  {
  }

  lemma {:induction false} DigitKeysFromBounds(order: seq<string>, d: nat)
    requires d <= 10
    ensures forall k | k in DigitKeysFrom(order, d) :: IsDigitKey(k) && d <= DigitOf(k)
    decreases 10 - d
  {
    if d < 10 {
      DigitKeysFromBounds(order, d + 1);
      DigitKeyValue(d);
    }
  }

  lemma {:induction false} DigitKeysFromAscending(order: seq<string>, d: nat)
    requires d <= 10
    ensures forall i, j | 0 <= i < j < |DigitKeysFrom(order, d)| ::
      DigitOf(DigitKeysFrom(order, d)[i]) < DigitOf(DigitKeysFrom(order, d)[j])
    decreases 10 - d
  {
    if d < 10 {
      DigitKeysFromAscending(order, d + 1);
      DigitKeysFromBounds(order, d + 1);
      var rest := DigitKeysFrom(order, d + 1);
      if DigitKey(d) in order {
        DigitKeyValue(d);
        var r := [DigitKey(d)] + rest;
        assert DigitKeysFrom(order, d) == r;
        forall i, j | 0 <= i < j < |r|
          ensures DigitOf(r[i]) < DigitOf(r[j])
        {
          assert r[j] == rest[j - 1] && r[j] in rest;
          if i > 0 {
            assert r[i] == rest[i - 1];
          }
        }
      }
    }
  }

  lemma {:induction false} NonDigitKeysContents(order: seq<string>)
    ensures forall k :: k in NonDigitKeys(order) <==> k in order && !IsDigitKey(k)
    ensures Distinct(order) ==> Distinct(NonDigitKeys(order))
  {
    if order != [] {
      var rest := NonDigitKeys(order[1..]);
      NonDigitKeysContents(order[1..]);
      assert forall k :: k in order <==> k == order[0] || k in order[1..];
      if Distinct(order) {
        DistinctTail(order);
        if IsDigitKey(order[0]) {
          assert NonDigitKeys(order) == rest;
        } else {
          DistinctCons(order[0], rest);
        }
      }
    }
  }

  /**
   * `Object.keys` lists every key once and nothing else, the digit keys first and in
   * ascending order.
   */
  lemma KeysOrderCorrect(order: seq<string>)
    ensures forall k :: k in KeysOrder(order) <==> k in order
    ensures Distinct(order) ==> Distinct(KeysOrder(order))
    ensures forall i, j | 0 <= i < j < |KeysOrder(order)| && IsDigitKey(KeysOrder(order)[j]) ::
      IsDigitKey(KeysOrder(order)[i]) && DigitOf(KeysOrder(order)[i]) < DigitOf(KeysOrder(order)[j])
  {
    var ds, ns := DigitKeysFrom(order, 0), NonDigitKeys(order);
    NonDigitKeysContents(order);
    DigitKeysFromBounds(order, 0);
    DigitKeysFromAscending(order, 0);
    forall k
      ensures k in KeysOrder(order) <==> k in order
    {
      DigitKeysFromContents(order, 0, k);
    }
    forall i, j | 0 <= i < j < |KeysOrder(order)| && IsDigitKey(KeysOrder(order)[j])
      ensures IsDigitKey(KeysOrder(order)[i]) && DigitOf(KeysOrder(order)[i]) < DigitOf(KeysOrder(order)[j])
    {
    }
    if Distinct(order) {
      KeysOrderDistinct(order);
    }
  }

  /** The digit keys, ascending, and the other keys, distinct, together list no key twice. */
  lemma KeysOrderDistinct(order: seq<string>)
    requires Distinct(order)
    ensures Distinct(KeysOrder(order))
  {
    var ds, ns := DigitKeysFrom(order, 0), NonDigitKeys(order);
    NonDigitKeysContents(order);
    DigitKeysFromBounds(order, 0);
    DigitKeysFromAscending(order, 0);
    forall i, j | 0 <= i < j < |ds|
      ensures !Twice(ds, i, j)
    {
      assert DigitOf(ds[i]) < DigitOf(ds[j]);
    }
    DistinctAppend(ds, ns);
  }

  /** With no digit keys, `Object.keys` is the order in which the keys were added. */
  lemma {:induction false} KeysOrderNoDigits(order: seq<string>)
    requires forall i | 0 <= i < |order| :: !IsDigitKey(order[i])
    ensures KeysOrder(order) == order
  {
    NoDigitKeysFrom(order, 0);
    NonDigitKeysAll(order);
  }

  lemma {:induction false} NoDigitKeysFrom(order: seq<string>, d: nat)
    requires d <= 10 && forall i | 0 <= i < |order| :: !IsDigitKey(order[i])
    ensures DigitKeysFrom(order, d) == []
    decreases 10 - d
  {
    if d < 10 {
      NoDigitKeysFrom(order, d + 1);
    }
  }

  lemma {:induction false} NonDigitKeysAll(order: seq<string>)
    requires forall i | 0 <= i < |order| :: !IsDigitKey(order[i])
    ensures NonDigitKeys(order) == order
  {
    if order != [] {
      NonDigitKeysAll(order[1..]);
    }
  }

  /**
   * Inserting `"l"` then `"b"` into a new node: both are children, in that order, which is
   * also what `allChildrenChars` lists (`KeysOrderNoDigits`).
   */
  method InsertTwoChildren() returns (n: TrieNode<int>)
    ensures n.Has("l") && n.Has("b")
    ensures n.order == ["l", "b"]
  {
    n := new TrieNode("a", Some(0));
    var o1 := n.Insert("l", None);
    assert "b" !in n.children;
    var o2 := n.Insert("b", None);
    assert o2 == Pass;
    assert "l" in n.children;
  }

  /** A second insert under an existing key throws and keeps the first child and its value. */
  method InsertTwice() returns (n: TrieNode<int>, o: Outcome<InsertError>)
    ensures o == Fail(ChildExists)
    ensures "l" in n.children && n.children["l"].value == Some(1)
  {
    n := new TrieNode("a", None);
    o := n.Insert("l", Some(1));
    o := n.Insert("l", Some(2));
  }
}
