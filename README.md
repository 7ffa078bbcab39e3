# typescript-data-structures, modelled in Dafny

This project models four data structures from the `typescript-data-structures` library and
proves what their operations do.

- **`LinkedList`** (`src/lib/linkedLists.ts`) is a singly linked list of `{ value, next }`
  nodes with `head` and `tail` entry points. It supports `prepend`, `append`, `remove`,
  `removeHead`, `removeTail`, `find` and forward iteration. Module `LinkedLists`:
  - the class keeps the real `head`, `tail` and `next` fields;
  - two ghost views, the sequence of values and the sequence of nodes from `head`, state
    what each method does.
- **`BinarySearchTree`** (`src/lib/binarySearchTree.ts`) is an unbalanced search tree. It is
  built from `BinaryTreeNode`s (`src/lib/binaryTreeNode.ts`), whose `left`/`right` setters
  also keep the `parent` back-links. Smaller values go left and all others go right, so
  duplicates are allowed. Three modules cover it:
  - `BinaryTreeNodes` models the node and its setters.
  - `BinaryTrees` and `SearchTrees` give the tree as a value, with insertion, search, the
    splice that `replaceNodeInParent` performs, and removal by the in-order successor.
  - `BinarySearchTrees` holds the class with its `insert`, `find`, `findMin`,
    `replaceNodeInParent`, `remove` and in-order iteration. It is proved to keep a ghost tree
    of node objects that agrees with every `left`, `right`, `value` and `parent` field. That
    agreement needs the root's `parent` to be null. The source breaks it when it removes a
    root with one child (see "Findings"), so the class's `replaceNodeInParent` clears the
    promoted root's `parent`, and the class models the corrected code on that path.
- **`Trie`** (`src/lib/trie.ts` over `src/lib/trieNode.ts`) is a character trie whose nodes
  keep their children in a plain JavaScript object.
  - `TrieNodes` models that object as a map plus the order in which its keys were added.
    It models `Object.keys` and the `in` operator as JavaScript defines them for such an
    object: array-index keys come first, and names inherited from `Object.prototype` count.
  - `TrieModels` gives the abstract trie: a map from every reachable prefix to its node's
    value and child order. `add`, `suggestChars`, `isWordIncluded` and `find` are specified on
    it.
  - `Tries` is the class. It walks and extends real `TrieNode` objects and is proved to
    refine that map.
- **`BinaryTree`** (`src/lib/binaryTree.ts`) is a toy tree of `{ value, left, right }` records.
  Its public `insert` only ever touches the root's two child slots; its private `insertRec`
  descends like a search tree. Module `PlainBinaryTrees`.

The structures are generic in the source. The model fixes the element type where an order
is needed (`int` for the search trees) and keeps it generic elsewhere. JavaScript's `null` and
`undefined` become `Option.None`, and thrown errors become `Fail` outcomes or preconditions,
as listed under "Left out".

## Model

| member | source | states |
|---|---|---|
| LinkedLists.FirstIndex | src/lib/linkedLists.ts:151-160 | the index returned holds `v` and no earlier index does |
| LinkedLists.FirstIndexUnique | src/lib/linkedLists.ts:151-160 | a position holding `v` with no `v` before it is the first occurrence |
| LinkedLists.RemoveFirstMultiset | src/lib/linkedLists.ts:71-79 | removing the first node with a value takes exactly one copy of it out of the list, and shortens the list by one exactly when it occurs |
| LinkedLists.RemoveFirstAbsent | src/lib/linkedLists.ts:71-79 | removing a value that does not occur changes nothing |
| LinkedLists.RemoveFirstAt | src/lib/linkedLists.ts:71-79 | removing the first occurrence at index k keeps everything before and after it, in order |
| LinkedLists.RemoveFirstAfterPrefix | src/lib/linkedLists.ts:89-100 | a prefix without the value is kept in front while the rest is searched |
| LinkedLists.RemoveAsWrittenAgrees | src/lib/linkedLists.ts:79-102 | `remove` as written deletes the first occurrence unless that occurrence is at index 1 |
| LinkedLists.RemoveAsWrittenAt | src/lib/linkedLists.ts:89-100 | past the head, `remove` as written deletes the first occurrence found from index 2 on |
| LinkedLists.RemoveAsWrittenNone | src/lib/linkedLists.ts:89-101 | with no match at the head or from index 2 on, `remove` as written changes nothing |
| LinkedLists.RemoveAsWrittenMissesSecond | src/lib/linkedLists.ts:89-100 | when the only match is at index 1, `remove` as written leaves the list unchanged, while the documented behaviour deletes it |
| LinkedLists.RemoveMiddleOfThree | src/lib/linkedLists.ts:89-100 | `remove(2)` on [1, 2, 3] gives [1, 2, 3] as written and [1, 3] as documented |
| LinkedLists.RemoveUndefinedOnShortLists | src/lib/linkedLists.ts:89-90 | the general case of `remove` reads a missing node on an empty list and on one node without the value |
| LinkedLists.LinkedNode.constructor | src/lib/linkedLists.ts:42-46 | a node literal `{ value, next }` holds the given value and successor |
| LinkedLists.LinkedList.constructor | src/lib/linkedLists.ts:14-29 | a new list holds the iterable's elements in order |
| LinkedLists.LinkedList.Prepend | src/lib/linkedLists.ts:39-48 | the value is put in front; a fresh head points to the old head; tail is the new node only when the list was empty; the old nodes follow the new one unchanged |
| LinkedLists.LinkedList.Append | src/lib/linkedLists.ts:58-69 | the value is put at the end; the old tail points to the fresh tail, or head and tail are the new node on an empty list; the old nodes precede the new one unchanged |
| LinkedLists.LinkedList.UnlinkAfter | src/lib/linkedLists.ts:93-96 | bypassing the successor of node i deletes exactly value i + 1 and moves tail back when it was the last node |
| LinkedLists.LinkedList.UnlinkHead | src/lib/linkedLists.ts:81-86 | dropping the head deletes exactly the first value and clears tail when nothing is left |
| LinkedLists.LinkedList.Remove | src/lib/linkedLists.ts:79-102 | the values after `remove(v)` are `RemoveAsWritten` of the values before; the node removed is the head when it holds `v`, else the first node from index 2 on holding `v`, else none, and every other node stays, in order |
| LinkedLists.LinkedList.RemoveFirstOccurrence | src/lib/linkedLists.ts:71-79 | the corrected `remove(v)`: the values after are the values before with the first `v` deleted, and exactly the node at that first occurrence leaves the chain; nothing happens on an empty list |
| LinkedLists.LinkedList.RemoveHead | src/lib/linkedLists.ts:111-116 | the first value and the first node are dropped and the other nodes stay, in order; an empty list stays empty |
| LinkedLists.LinkedList.RemoveTail | src/lib/linkedLists.ts:125-141 | the last value is dropped and tail becomes the former second-to-last node, which points nowhere; the remaining nodes are the same objects in the same order; a list of at most one node becomes empty |
| LinkedLists.LinkedList.Find | src/lib/linkedLists.ts:151-160 | the node returned is the node of the first occurrence, or null exactly when the value does not occur |
| LinkedLists.LinkedList.Values | src/lib/linkedLists.ts:162-174 | iteration yields the values from head to tail, in order |
| LinkedLists.AppendPrependOrder | src/lib/linkedLists.ts:39-69 | appending 1, 2, 3 iterates as [1, 2, 3]; prepending them iterates as [3, 2, 1] |
| BinaryTreeNodes.BinaryTreeNode.constructor | src/lib/binaryTreeNode.ts:8-13 | a new node holds the value and has no children and no parent |
| BinaryTreeNodes.BinaryTreeNode.SetLeft | src/lib/binaryTreeNode.ts:19-27 | the left slot takes the node, which gets this node as parent; the replaced child loses its parent; nothing else changes |
| BinaryTreeNodes.BinaryTreeNode.SetRight | src/lib/binaryTreeNode.ts:33-41 | as `SetLeft`, on the right slot |
| BinaryTreeNodes.SetterScenario | src/lib/binaryTreeNode.ts:15-41 | setting a child, replacing it, moving it to the other side and clearing a slot keep the parent links consistent |
| BinaryTrees.InsertElems | src/lib/binarySearchTree.ts:29-51 | inserting adds exactly one occurrence of the value |
| BinaryTrees.InsertOrdered | src/lib/binarySearchTree.ts:29-51 | inserting keeps the search-tree order |
| BinaryTrees.InsertBounded | src/lib/binarySearchTree.ts:29-51 | inserting a value that respects a bound into a subtree whose values all respect it leaves every value respecting it |
| BinaryTrees.InsertKeys | src/lib/binarySearchTree.ts:29-51 | inserting adds exactly the new node and keeps nodes distinct |
| BinaryTrees.EraseInsert | src/lib/binarySearchTree.ts:29-51 | the shape and values after inserting do not depend on which node objects the tree holds |
| BinaryTrees.InsertAllCorrect | src/lib/binarySearchTree.ts:10-19 | inserting a sequence keeps the order and adds exactly its values |
| BinaryTrees.InsertAllOrdered | src/lib/binarySearchTree.ts:10-19 | inserting a sequence into an ordered tree keeps it ordered |
| BinaryTrees.InsertAllElems | src/lib/binarySearchTree.ts:10-19 | inserting a sequence adds exactly its values, with their multiplicities |
| BinaryTrees.BuiltTreeInOrder | src/lib/binarySearchTree.ts:10-19 | a tree built from a sequence iterates as that sequence's values, sorted |
| BinaryTrees.InOrderElems | src/lib/binarySearchTree.ts:132-139 | the in-order walk lists every value as often as the tree holds it |
| BinaryTrees.InOrderSorted | src/lib/binarySearchTree.ts:132-139 | on an ordered tree the in-order walk is sorted |
| BinaryTrees.InOrderSide | src/lib/binarySearchTree.ts:132-139 | when every value of a subtree lies on one side of a bound, so does every entry of its in-order walk |
| BinaryTrees.MinValueLeast | src/lib/binarySearchTree.ts:112-118 | the leftmost value is in the tree and, when it is ordered, no value is smaller |
| BinaryTrees.LeftSpineEnds | src/lib/binarySearchTree.ts:112-118 | following left links ends at a node without a left child, holding the leftmost value |
| BinaryTrees.SearchOnTree | src/lib/binarySearchTree.ts:61-70 | a search stops inside the tree, at a node holding the value or at an empty slot |
| BinaryTrees.SearchFinds | src/lib/binarySearchTree.ts:61-70 | on an ordered tree a search ends at a node exactly when the tree holds the value |
| BinaryTrees.SearchSide | src/lib/binarySearchTree.ts:61-70 | in an ordered tree a value other than the root's is held exactly when it is held by the side the search turns to |
| BinaryTrees.SearchDescends | src/lib/binarySearchTree.ts:61-68 | a search follows the route an insertion of the same value takes |
| BinaryTrees.InsertAlong | src/lib/binarySearchTree.ts:34-49 | inserting is inserting into the subtree at the end of the insertion route |
| BinaryTrees.DescendsSnoc | src/lib/binarySearchTree.ts:36-48 | one more step of the route goes left exactly when the value is smaller |
| BinaryTrees.ReplaceElems | src/lib/binarySearchTree.ts:120-130 | replacing a subtree exchanges its values for the replacement's |
| BinaryTrees.ReplaceKeys | src/lib/binarySearchTree.ts:120-130 | replacing a subtree exchanges its nodes for the replacement's and keeps nodes distinct |
| BinaryTrees.ReplaceOrdered | src/lib/binarySearchTree.ts:120-130 | replacing an ordered subtree by an ordered tree of some of its values keeps the tree ordered |
| BinaryTrees.ReplaceSubset | src/lib/binarySearchTree.ts:120-130 | replacing a subtree by a tree whose values are among the subtree's leaves the whole tree's values among the old ones |
| SearchTrees.MinSearch | src/lib/binarySearchTree.ts:112-118 | on an ordered tree the search for the least value walks down the left spine |
| SearchTrees.SuccessorPath | src/lib/binarySearchTree.ts:86-88 | the search for the successor of the node found takes the same route, turns right, then follows the left spine |
| SearchTrees.SuccessorPathBelow | src/lib/binarySearchTree.ts:86-88 | the same, when the node found lies below the root |
| SearchTrees.SuccessorBounds | src/lib/binarySearchTree.ts:86-88 | the successor value is larger than the removed value and is held by the tree |
| SearchTrees.SuccessorSearch | src/lib/binarySearchTree.ts:86-88 | the recursive `remove(successor)` finds the successor node, which has no left child |
| SearchTrees.RemoveAbsent | src/lib/binarySearchTree.ts:81-84 | removing a value the tree does not hold leaves it unchanged |
| SearchTrees.PromotedElems | src/lib/binarySearchTree.ts:91-92 | the child that takes the place of a node with at most one child holds all other values of that node's subtree |
| SearchTrees.SpliceElems | src/lib/binarySearchTree.ts:90-94 | splicing out a node with at most one child removes exactly its value |
| SearchTrees.SpliceOrdered | src/lib/binarySearchTree.ts:90-94 | splicing keeps the search-tree order |
| SearchTrees.SpliceKeys | src/lib/binarySearchTree.ts:90-94 | splicing drops exactly the spliced node and keeps nodes distinct |
| SearchTrees.RemoveMinSplice | src/lib/binarySearchTree.ts:86-88 | removing the leftmost node is splicing it out at the end of the left spine |
| SearchTrees.RemoveMinElems | src/lib/binarySearchTree.ts:86-88 | removing the leftmost node removes exactly the least value and keeps the order |
| SearchTrees.RemoveTwoChildrenLocal | src/lib/binarySearchTree.ts:86-89 | removing from a node with two children changes only its subtree, which gets the successor's value and loses the successor |
| SearchTrees.SuccessorCopiedCorrect | src/lib/binarySearchTree.ts:86-89 | copying the successor into a node and removing it keeps the order and removes exactly the node's own value |
| SearchTrees.SuccessorStep | src/lib/binarySearchTree.ts:86-89 | after the recursive removal of the successor, the node found is still at the same place and writing the successor's value into it completes `remove` |
| SearchTrees.RemoveCorrect | src/lib/binarySearchTree.ts:80-95 | `remove(v)` keeps the order, takes out exactly one `v` when there is one, and changes nothing otherwise |
| SearchTrees.RemoveInOrder | src/lib/binarySearchTree.ts:80-95 | iterating the tree after `remove(v)` yields what it yielded before with the first `v` deleted, and the same sequence when `v` is absent |
| SearchTrees.SortedRemoveFirst | src/lib/binarySearchTree.ts:80-95 | a sorted sequence holding the values of a sorted `s` less one `v` is `s` with its first `v` deleted |
| BinaryTrees.SortedUnique | src/lib/binarySearchTree.ts:132-139 | two sorted sequences with the same values, counted with multiplicity, are equal, so the in-order walk is determined by the tree's values |
| BinaryTrees.SortedDelete | src/lib/binarySearchTree.ts:132-139 | deleting one position of a sorted sequence leaves it sorted |
| SearchTrees.RemoveTwoChildrenCorrect | src/lib/binarySearchTree.ts:86-89 | the two-child case of `RemoveCorrect` |
| SearchTrees.RemoveKeys | src/lib/binarySearchTree.ts:80-95 | `remove` adds no node and keeps nodes distinct |
| BinarySearchTrees.ParentSlot | src/lib/binarySearchTree.ts:121-126 | the parent of a node other than the root is a tree node whose slot on the node's side holds it |
| BinarySearchTrees.TraverseInOrder | src/lib/binarySearchTree.ts:132-139 | the recursive walk over the node objects yields the in-order values of the tree |
| BinarySearchTrees.FoundStep | src/lib/binarySearchTree.ts:64-67 | a search that has not stopped continues in the child on the value's side |
| BinarySearchTrees.BinarySearchTree.constructor | src/lib/binarySearchTree.ts:10-19 | a new tree is the result of inserting the iterable's values in order |
| BinarySearchTrees.BinarySearchTree.Insert | src/lib/binarySearchTree.ts:29-51 | the tree after `insert` is the tree before with a fresh node inserted by the search-tree rule; all fields stay consistent |
| BinarySearchTrees.BinarySearchTree.FindSlot | src/lib/binarySearchTree.ts:34-49 | `insert`'s loop stops at the node whose empty slot lies on the insertion route |
| BinarySearchTrees.BinarySearchTree.Attach | src/lib/binarySearchTree.ts:37-46 | hanging a fresh leaf in that slot through the setter yields the inserted tree |
| BinarySearchTrees.BinarySearchTree.Find | src/lib/binarySearchTree.ts:61-70 | the node returned is the one the search stops at, so it holds the value, or null when the search runs out |
| BinarySearchTrees.BinarySearchTree.FindMin | src/lib/binarySearchTree.ts:112-118 | the node returned is the leftmost node of the subtree and holds its least value |
| BinarySearchTrees.BinarySearchTree.ReplaceNodeInParent | src/lib/binarySearchTree.ts:120-130 | the parent's slot, or the root, takes the node's only child, so the tree becomes the splice; unlike the source, the promoted root's parent is cleared (see "Left out") |
| BinarySearchTrees.BinarySearchTree.Remove | src/lib/binarySearchTree.ts:80-95 | the tree after `remove(v)` is `RemoveTree` of the tree before, with every field consistent |
| BinarySearchTrees.BinarySearchTree.RemoveBySuccessor | src/lib/binarySearchTree.ts:86-89 | the two-child branch of `remove` yields `RemoveTree` of the tree before |
| BinarySearchTrees.BinarySearchTree.WriteValue | src/lib/binarySearchTree.ts:89 | writing the successor's value into the node changes exactly that node's value in the tree |
| BinarySearchTrees.BinarySearchTree.Values | src/lib/binarySearchTree.ts:97-99 | iteration yields the in-order values of the tree |
| BinarySearchTrees.ReplaceNodeInParentAsWritten | src/lib/binarySearchTree.ts:120-130 | as written, a new root keeps its `parent` link; otherwise the parent's slot on the node's side (left or right) takes the new node, the new node's parent becomes that parent and the removed node's parent is cleared, while the parent's value, other slot and own parent stay as they were; on the root path no link changes |
| BinarySearchTrees.StaleParentKeepsRemovedValue | src/lib/binarySearchTree.ts:120-130 | as written, inserting 2 and 1 and removing 2 then 1 leaves a root holding 1 |
| BinarySearchTrees.RootRemovalEmptiesTree | src/lib/binarySearchTree.ts:80-95 | with the corrected root case the same steps leave an empty tree |
| PlainBinaryTrees.BTNode.constructor | src/lib/binaryTree.ts:16 | a new record holds the value and no children |
| PlainBinaryTrees.BinaryTree.constructor | src/lib/binaryTree.ts:10-12 | a new tree is empty |
| PlainBinaryTrees.BinaryTree.Insert | src/lib/binaryTree.ts:14-26 | the tree after `insert` is `ShallowInsert` of the tree before: a new root, or a new leaf overwriting the root's slot on the value's side |
| PlainBinaryTrees.BinaryTree.InsertRec | src/lib/binaryTree.ts:28-38 | the subtree after `insertRec` is the subtree before with a fresh node inserted by the search-tree rule, rooted at the node returned |
| PlainBinaryTrees.ShallowInsertShape | src/lib/binaryTree.ts:14-26 | `insert` keeps the root and never grows a tree of at most two levels beyond two levels |
| PlainBinaryTrees.ShallowInsertElems | src/lib/binaryTree.ts:19-24 | `insert` loses exactly the values of the slot it overwrites and adds the new value |
| PlainBinaryTrees.ShallowAgreesWhileSlotEmpty | src/lib/binaryTree.ts:19-24 | while the root's slot on the value's side is empty, `insert` and `insertRec` agree |
| PlainBinaryTrees.ShallowInsertAllHeight | src/lib/binaryTree.ts:14-26 | starting from an empty tree, `insert` never builds more than two levels |
| PlainBinaryTrees.ShallowInsertLosesValue | src/lib/binaryTree.ts:19-24 | inserting 1, 2, 3 with `insert` loses 2, while the descending insertion keeps all three |
| PlainBinaryTrees.ShallowInsertTwo | src/lib/binaryTree.ts:14-26 | inserting 1 and 2 with `insert` agrees with the descending insertion |
| PlainBinaryTrees.InsertOneTwoThree | src/lib/binaryTree.ts:14-26 | inserting 1, 2, 3 through the class leaves a tree without 2 |
| TrieNodes.TrieNode.constructor | src/lib/trieNode.ts:6-13 | a new node has the key and value given and no children |
| TrieNodes.TrieNode.Create | src/lib/trieNode.ts:6-13 | construction fails exactly when the key is longer than one character |
| TrieNodes.TrieNode.GetChild | src/lib/trieNode.ts:15-17 | the child under a key is found exactly when the key is in the dictionary |
| TrieNodes.TrieNode.Insert | src/lib/trieNode.ts:19-24 | `insert` throws, changing nothing, when `has` holds or the key is too long; otherwise it adds one fresh empty child under the key, after the others |
| TrieNodes.TrieNode.AddChild | src/lib/trieNode.ts:23 | storing a new node under an absent key adds exactly that key, last in order |
| TrieNodes.TrieNode.Has | src/lib/trieNode.ts:26-28 | `has` holds for every own key, and for a key of at most one character it is exactly membership in the dictionary; the names inherited from `Object.prototype` are all longer |
| TrieNodes.TrieNode.AllChildrenChars | src/lib/trieNode.ts:30-32 | `allChildrenChars` lists exactly the child keys, each once, in the `Object.keys` order that `KeysOrderCorrect` characterises |
| TrieNodes.DigitKeysFromContents | src/lib/trieNode.ts:30-32 | the leading part of `Object.keys` holds exactly the digit keys of the dictionary |
| TrieNodes.DigitKeysFromBounds | src/lib/trieNode.ts:30-32 | that part holds only digit keys |
| TrieNodes.DigitKeysFromAscending | src/lib/trieNode.ts:30-32 | that part is in ascending numeric order |
| TrieNodes.NonDigitKeysContents | src/lib/trieNode.ts:30-32 | the rest holds exactly the other keys, each once |
| TrieNodes.KeysOrderCorrect | src/lib/trieNode.ts:30-32 | `allChildrenChars` lists exactly the child keys, each once, the digit keys first and ascending |
| TrieNodes.KeysOrderDistinct | src/lib/trieNode.ts:30-32 | `allChildrenChars` lists no key twice |
| TrieNodes.KeysOrderNoDigits | src/lib/trieNode.ts:30-32 | without digit keys, `allChildrenChars` is the insertion order |
| TrieNodes.InsertTwoChildren | src/lib/trieNode.ts:19-32 | inserting "l" then "b" gives both children, in that order |
| TrieNodes.InsertTwice | src/lib/trieNode.ts:19-24 | a second insert under an existing key throws and keeps the first child |
| TrieModels.Reach | src/lib/trie.ts:16-24 | the walk stops within the word, at a reachable prefix |
| TrieModels.Grow | src/lib/trie.ts:26-31 | the second loop keeps every node and makes the whole word reachable |
| TrieModels.PrefixClosed | src/lib/trie.ts:15-34 | every prefix of a reachable word is reachable |
| TrieModels.ChildKey | src/lib/trie.ts:20-23 | a character is a child key of a prefix's node exactly when the longer prefix is reachable |
| TrieModels.ReachStops | src/lib/trie.ts:16-24 | the walk stops only where the next prefix is not reachable |
| TrieModels.ReachIncluded | src/lib/trie.ts:86-95 | the walk reaches the whole word exactly when it is reachable, and stops at its longest reachable prefix |
| TrieModels.NotReachedBeyond | src/lib/trie.ts:16-31 | once a prefix of the word is not reachable, no longer prefix is |
| TrieModels.LinkWellFormed | src/lib/trie.ts:27-28 | hanging a new node under a reachable prefix keeps the trie well formed |
| TrieModels.LinkDistinct | src/lib/trie.ts:27-28 | hanging a new node keeps each child list free of repeats |
| TrieModels.LinkChildren | src/lib/trie.ts:27-28 | hanging a new node keeps every child key one character long and leading to a reachable prefix |
| TrieModels.LinkParents | src/lib/trie.ts:27-28 | hanging a new node keeps every reachable prefix under its parent |
| TrieModels.GrowWellFormed | src/lib/trie.ts:26-31 | the second loop keeps the trie well formed |
| TrieModels.GrowKeys | src/lib/trie.ts:26-31 | the second loop makes every remaining prefix of the word reachable, and nothing else |
| TrieModels.GrowValues | src/lib/trie.ts:26-31 | after the second loop old nodes keep their values and new nodes hold `null` |
| TrieModels.GrowOrders | src/lib/trie.ts:26-31 | the node where the walk stopped gains the next character; each new node has the following character as its only child |
| TrieModels.AddStart | src/lib/trie.ts:15-34 | the walk of `add` stops short exactly where a new node is needed |
| TrieModels.AddUnfold | src/lib/trie.ts:15-34 | `add` is the second loop from where the walk stopped, then the value stored at the word's node |
| TrieModels.AddWellFormed | src/lib/trie.ts:15-34 | after `add` the trie is well formed and the word is reachable and holds the value |
| TrieModels.SetValueWellFormed | src/lib/trie.ts:32 | storing a value keeps the trie well formed |
| TrieModels.AddKeys | src/lib/trie.ts:15-34 | `add` keeps every reachable prefix, makes every prefix of the word reachable, and creates exactly those the walk did not reach |
| TrieModels.AddValues | src/lib/trie.ts:15-34 | `add` changes no value except the word's, and new nodes hold `null` |
| TrieModels.AddOrders | src/lib/trie.ts:15-34 | `add` changes no node's children except that the node where the walk stopped gains the next character |
| TrieModels.AddAgain | src/lib/trie.ts:15-34 | adding a word that is already reachable only overwrites its value |
| TrieModels.AddFindOthers | src/lib/trie.ts:15-34 | after `add(w, v)`, `find(w)` is `v` and `find` of every other word is unchanged |
| TrieModels.SuggestChildren | src/lib/trie.ts:45-48 | `suggestChars` of a reachable prefix lists each reachable one-character extension once and nothing else, in insertion order when none is a digit |
| TrieModels.EmptyWellFormed | src/lib/trie.ts:4 | a new trie is well formed, only the empty word is reachable, and it suggests nothing |
| Tries.LinkHolds | src/lib/trie.ts:27-28 | after a node gains a new child, every node holds what the abstract trie records |
| Tries.ValueHolds | src/lib/trie.ts:32 | after a node's value is written, every node holds what the abstract trie records |
| Tries.Trie.constructor | src/lib/trie.ts:4 | a new trie is the root alone, keyed `''`, holding `null` |
| Tries.Trie.GetLastNode | src/lib/trie.ts:86-95 | the node returned is the word's node, or null exactly when the word is not reachable |
| Tries.Trie.ChildStep | src/lib/trie.ts:89-92 | the next character is a child exactly when the longer prefix is reachable; otherwise the word is not reachable |
| Tries.Trie.InsertChild | src/lib/trie.ts:27-28 | `node.insert(char)` then `getChild(char)` adds exactly one fresh node under the prefix, as `Link` records |
| Tries.Trie.SetValue | src/lib/trie.ts:32 | writing the value changes exactly the word's value in the abstract trie |
| Tries.Trie.Add | src/lib/trie.ts:15-34 | the abstract trie after `add(w, v)` is `AddSpec` of the trie before, and every node still holds what it records |
| Tries.Trie.Descend | src/lib/trie.ts:16-24 | the first loop stops at the node of the longest reachable prefix of the word |
| Tries.Trie.Extend | src/lib/trie.ts:26-31 | the second loop yields `Grow` of the trie before and ends at the word's node |
| Tries.Trie.ExtendStep | src/lib/trie.ts:27-28 | one turn of the second loop creates the node of the next prefix |
| Tries.Trie.SuggestChars | src/lib/trie.ts:45-48 | the result is `Suggest` of the abstract trie |
| Tries.Trie.IsWordIncluded | src/lib/trie.ts:58-60 | the result holds exactly when the word is reachable, that is, a prefix of an added word |
| Tries.Trie.Find | src/lib/trie.ts:70-73 | the result is the value at the word's node, or null when it is not reachable |

## Left out

- `toString` of every structure and `toArrayString` of the tree node only format text, so they are not modelled.
- The list's `prepend`, `append`, `remove`, `removeHead` and `removeTail`, the search tree's and the toy tree's `insert`, and the trie's `add` return `this` for chaining; the model's methods return nothing there.
- Iterators (`[Symbol.iterator]`, the generator `traverseInOrder`) are modelled as the sequence they yield: `Values`, `TraverseInOrder`. Laziness is not modelled.
- The constructors' optional iterable is a sequence; `undefined` is the empty sequence.
- The search trees hold `int` values, compared with `<` and `===`; the source's generic `T` with JavaScript's comparison of mixed types is not modelled.
- LinkedLists.LinkedList.RemoveHead, LinkedLists.LinkedList.Find and LinkedLists.LinkedList.Remove: the source compares list values with JavaScript's `===`, which is false for `NaN`. The model compares with Dafny's `==`, which is reflexive, so `NaN` is not modelled. In the source, `find(NaN)` returns `null`, `removeHead` leaves a list headed by `NaN` unchanged (or throws when that is the only node), and `remove(NaN)` removes nothing (or throws on a one-node list).
- LinkedLists.LinkedList.Remove: requires a head holding the value or at least two nodes, because the source otherwise reads `next` of `null` and throws a `TypeError` (`RemoveUndefinedOnShortLists`).
- BinarySearchTrees.BinarySearchTree.Find: requires a non-empty tree, because the source reads `value` of a `null` root and throws a `TypeError`.
- BinarySearchTrees.BinarySearchTree.Remove: requires `Removable`, meaning a non-empty tree (for `find`) and, for a node with two children, a successor value different from the removed one. When they are equal, the recursive `remove` runs before anything is changed (`find` and `findMin` only read), finds the same node again, and recurses until the JavaScript stack overflows: the source throws a `RangeError` and leaves the tree unchanged. The model excludes this case through `Removable` rather than modelling the exception.
- BinarySearchTrees.BinarySearchTree.ReplaceNodeInParent: when the node is the root, the method also sets the promoted child's `parent` to null, which the source does not do (src/lib/binarySearchTree.ts:127-128). The class models the corrected root case; the code as written is `ReplaceNodeInParentAsWritten`.
- BinarySearchTrees.BinarySearchTree.Remove: `Valid()` requires the root's `parent` to be null, so the states the source reaches after removing a root with one child are not modelled. In such a state the source's later removals can take the stale `parent` branch and leave the value in the tree (`StaleParentKeepsRemovedValue`). The contract `RemoveTree` describes the corrected code.
- TrieNodes.TrieNode.GetChild: for a name inherited from `Object.prototype` the source returns the inherited property, while the model returns `None`. The trie only looks up keys of one character, for which the two agree (the contract of `Has`).
- TrieNodes.TrieNode.Insert: the thrown `Error`s are the outcomes `Fail(ChildExists)` and `Fail(NotOneChar)`; their messages are not modelled.
- A `string` is a sequence of characters, each one element. The source indexes UTF-16 code units with `word[i]` in `add`'s first loop and iterates code points with `for…of` elsewhere; characters outside the Basic Multilingual Plane are not modelled.
- `Object.keys` order is modelled for keys of at most one character. Array-index keys (`"0"` to `"9"`) come first in ascending order, the others in insertion order.
- Loops of the source that were split into helper methods in the model: `add` (`Descend`, `Extend`, `ExtendStep`, `InsertChild`, `SetValue`), `insert` (`FindSlot`, `Attach`) and `remove` (`RemoveBySuccessor`). Their ghost bookkeeping lives in ghost methods (`Adopt`, `Relink`, `Revalue`, `Graft`).

## Findings

| source | as written | input that shows it | evidently intended | confidence | as-written member | corrected member |
|---|---|---|---|---|---|---|
| src/lib/linkedLists.ts:89-100 | the general case of `remove` starts at `head.next` and compares only that node's successors, so the node at index 1 is never removed | `remove(2)` on the list [1, 2, 3] leaves [1, 2, 3] | remove the first node holding the value, as the documentation says | not executed | LinkedLists.RemoveAsWrittenMissesSecond | LinkedLists.LinkedList.RemoveFirstOccurrence |
| src/lib/binarySearchTree.ts:127-128 | when the removed node is the root, its child becomes `root` but keeps `parent` pointing at the removed node | insert 2, insert 1, remove 2, remove 1: the second removal unlinks the node from the detached old root and the tree still holds 1 | the promoted root has no parent, so the tree ends empty (`RootRemovalEmptiesTree`) | not executed | BinarySearchTrees.StaleParentKeepsRemovedValue | BinarySearchTrees.BinarySearchTree.ReplaceNodeInParent |
| src/lib/binaryTree.ts:19-24 | `insert` writes a new leaf into the root's left or right slot, discarding the subtree that was there | insert 1, 2, 3: the value 2 is lost | descend to an empty slot, as the private `insertRec` does | not executed | PlainBinaryTrees.ShallowInsertLosesValue | PlainBinaryTrees.BinaryTree.InsertRec |
