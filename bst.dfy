/** The binary search tree with subtree sizes of binary-search-tree.js.

    A subtree is a `Tree` value: `Node` carries the source's `key`,
    `value`, `left`, `right` and cached `size`, and `Nil` is `null`.  The
    recursive helpers (`_updateSize`, `_put`, `_deleteMin`, `_delete`)
    are functions that rebuild the path they walk instead of relinking
    it; the searches written as loops (`_find`, `_min`, `_max`, `floor`,
    `ceiling`, the iterator) are methods with loops. */
module BinarySearchTrees {
  import opened Wrappers

  datatype Tree<V> = Nil | Node(key: int, value: V, left: Tree<V>, right: Tree<V>, size: int)

  /** `new Node(key, value)`: no children and size 1. */
  function Leaf<V>(key: int, value: V): (t: Tree<V>)
    ensures t.Node? && t.key == key && t.value == value && t.left == Nil && t.right == Nil
    ensures t.size == 1
  {
    Node(key, value, Nil, Nil, 1)
  }

  /** The cached size of a subtree, 0 for `null`. */
  function SizeOf<V>(t: Tree<V>): int {
    if t.Nil? then 0 else t.size
  }

  /** The keys of a subtree. */
  ghost function Keys<V>(t: Tree<V>): set<int> {
    if t.Nil? then {} else Keys(t.left) + {t.key} + Keys(t.right)
  }

  /** The key-value pairs of a subtree. */
  ghost function Contents<V>(t: Tree<V>): map<int, V> {
    if t.Nil? then map[] else Contents(t.left) + Contents(t.right) + map[t.key := t.value]
  }

  /** Search-tree order: every key on the left is smaller than the key of
      the node and every key on the right larger, all the way down. */
  ghost predicate Ordered<V>(t: Tree<V>) {
    t.Node? ==>
      Ordered(t.left) && Ordered(t.right) &&
      (forall k :: k in Keys(t.left) ==> k < t.key) &&
      (forall k :: k in Keys(t.right) ==> t.key < k)
  }

  /** Every cached size is one more than the sizes of the children. */
  ghost predicate SizesValid<V>(t: Tree<V>) {
    t.Node? ==>
      t.size == 1 + (if t.left.Nil? then 0 else t.left.size) + (if t.right.Nil? then 0 else t.right.size) &&
      SizesValid(t.left) && SizesValid(t.right)
  }

  /** A tree as the source keeps it. */
  ghost predicate SearchTree<V>(t: Tree<V>) {
    Ordered(t) && SizesValid(t)
  }

  lemma {:induction false} KeysOfContents<V>(t: Tree<V>)
    ensures Contents(t).Keys == Keys(t)
  {
    if t.Node? {
      KeysOfContents(t.left);
      KeysOfContents(t.right);
    }
  }

  /** `Contents` at the root's key is the root's value, and on either
      side it is what the child holds. */
  lemma ContentsSplit<V>(t: Tree<V>, k: int)
    requires Ordered(t) && t.Node?
    ensures k == t.key ==> k in Contents(t) && Contents(t)[k] == t.value
    ensures k < t.key ==> (k in Contents(t) <==> k in Contents(t.left))
    ensures k < t.key && k in Contents(t.left) ==> Contents(t)[k] == Contents(t.left)[k]
    ensures t.key < k ==> (k in Contents(t) <==> k in Contents(t.right))
    ensures t.key < k && k in Contents(t.right) ==> Contents(t)[k] == Contents(t.right)[k]
  {
    KeysOfContents(t.left);
    KeysOfContents(t.right);
  }

  /** In a valid tree the cached size counts the keys. */
  lemma {:induction false} SizeCountsKeys<V>(t: Tree<V>)
    requires SearchTree(t)
    ensures SizeOf(t) == |Keys(t)|
  {
    if t.Node? {
      SizeCountsKeys(t.left);
      SizeCountsKeys(t.right);
      assert Keys(t.left) !! Keys(t.right) by {
        forall k | k in Keys(t.left) ensures k !in Keys(t.right) {
          assert k < t.key;
        }
      }
      assert t.key !in Keys(t.left) + Keys(t.right);
    }
  }

  /** `_updateSize(node)`: recompute the node's size from its children's;
      `null` is returned as it is. */
  function UpdateSize<V>(t: Tree<V>): (r: Tree<V>)
    ensures t.Nil? ==> r == Nil
    ensures t.Node? ==> r == t.(size := 1 + SizeOf(t.left) + SizeOf(t.right))
  {
    if t.Nil? then t else t.(size := 1 + SizeOf(t.left) + SizeOf(t.right))
  }

  /** Updating a node whose children are valid makes it valid. */
  lemma UpdateSizeValid<V>(t: Tree<V>)
    requires t.Node? ==> SizesValid(t.left) && SizesValid(t.right)
    ensures SizesValid(UpdateSize(t)) && Keys(UpdateSize(t)) == Keys(t)
    ensures Contents(UpdateSize(t)) == Contents(t)
    ensures Ordered(t) ==> Ordered(UpdateSize(t))
  {
  }

  /** `_put(node, key, value)`: descend by key; a new leaf where the
      search falls off, or the value replaced where the key is found;
      sizes recomputed on the way back. */
  function PutNode<V>(t: Tree<V>, key: int, value: V): (r: Tree<V>)
    ensures r.Node?
  {
    if t.Nil? then Leaf(key, value)
    else if key < t.key then UpdateSize(t.(left := PutNode(t.left, key, value)))
    else if key > t.key then UpdateSize(t.(right := PutNode(t.right, key, value)))
    else UpdateSize(t.(value := value))
  }

  /** `put` keeps the sizes valid. */
  lemma {:induction false} PutSizes<V>(t: Tree<V>, key: int, value: V)
    requires SizesValid(t)
    ensures SizesValid(PutNode(t, key, value))
  {
    if t.Node? {
      if key < t.key {
        PutSizes(t.left, key, value);
      } else if key > t.key {
        PutSizes(t.right, key, value);
      }
    }
  }

  /** `put` adds the key and keeps the search-tree order. */
  lemma {:induction false} PutKeys<V>(t: Tree<V>, key: int, value: V)
    requires Ordered(t)
    ensures Ordered(PutNode(t, key, value))
    ensures Keys(PutNode(t, key, value)) == Keys(t) + {key}
  {
    if t.Node? {
      if key < t.key {
        PutKeys(t.left, key, value);
      } else if key > t.key {
        PutKeys(t.right, key, value);
      }
    }
  }

  /** Updating one map of a union at a key the others lack updates the
      union. */
  lemma UpdateInUnion<V>(a: map<int, V>, b: map<int, V>, c: map<int, V>, k: int, v: V)
    requires k !in b && k !in c
    ensures a[k := v] + b + c == (a + b + c)[k := v]
  {
  }

  /** The same for the middle map of a union. */
  lemma UpdateInUnionMiddle<V>(a: map<int, V>, b: map<int, V>, c: map<int, V>, k: int, v: V)
    requires k !in c
    ensures a + b[k := v] + c == (a + b + c)[k := v]
  {
  }

  /** Removing a key from one map of a union, where the others lack it,
      removes it from the union. */
  lemma RemoveInUnion<V>(a: map<int, V>, b: map<int, V>, c: map<int, V>, k: int)
    requires k !in b && k !in c
    ensures (a - {k}) + b + c == (a + b + c) - {k}
  {
  }

  /** `put` maps the key to the new value and every other key keeps its
      own. */
  lemma {:induction false} PutContents<V>(t: Tree<V>, key: int, value: V)
    requires Ordered(t)
    ensures Contents(PutNode(t, key, value)) == Contents(t)[key := value]
  {
    if t.Node? {
      var root := map[t.key := t.value];
      if key < t.key {
        PutContents(t.left, key, value);
        NotInContents(t.right, key);
        UpdateInUnion(Contents(t.left), Contents(t.right), root, key, value);
      } else if key > t.key {
        PutContents(t.right, key, value);
        NotInContents(t.left, key);
        UpdateInUnionMiddle(Contents(t.left), Contents(t.right), root, key, value);
      }
    }
  }

  /** `put` as a whole on a valid tree. */
  lemma PutSpec<V>(t: Tree<V>, key: int, value: V)
    requires SearchTree(t)
    ensures SearchTree(PutNode(t, key, value))
    ensures Keys(PutNode(t, key, value)) == Keys(t) + {key}
    ensures Contents(PutNode(t, key, value)) == Contents(t)[key := value]
  {
    PutSizes(t, key, value);
    PutKeys(t, key, value);
    PutContents(t, key, value);
  }

  /** A key outside the subtree's keys has no entry. */
  lemma NotInContents<V>(t: Tree<V>, k: int)
    requires k !in Keys(t)
    ensures k !in Contents(t)
  {
    KeysOfContents(t);
  }

  /** `put` grows the tree by one exactly when the key is new. */
  lemma PutSize<V>(t: Tree<V>, key: int, value: V)
    requires SearchTree(t)
    ensures SizeOf(PutNode(t, key, value)) == SizeOf(t) + (if key in Keys(t) then 0 else 1)
  {
    PutSizes(t, key, value);
    PutKeys(t, key, value);
    SizeCountsKeys(t);
    SizeCountsKeys(PutNode(t, key, value));
    if key in Keys(t) {
      assert Keys(t) + {key} == Keys(t);
    } else {
      assert |Keys(t) + {key}| == |Keys(t)| + 1;
    }
  }

  /** The node at the end of the left spine: what `_min` returns. */
  function Leftmost<V>(t: Tree<V>): (m: Tree<V>)
    requires t.Node?
    ensures m.Node? && m.left.Nil? && m.key in Keys(t)
  {
    if t.left.Nil? then t else Leftmost(t.left)
  }

  /** The node at the end of the right spine: what `_max` returns. */
  function Rightmost<V>(t: Tree<V>): (m: Tree<V>)
    requires t.Node?
    ensures m.Node? && m.right.Nil? && m.key in Keys(t)
  {
    if t.right.Nil? then t else Rightmost(t.right)
  }

  /** In a search tree the left spine ends at the smallest key, and its
      subtrees stay inside the tree. */
  lemma {:induction false} LeftmostIsMin<V>(t: Tree<V>)
    requires Ordered(t) && t.Node?
    ensures Leftmost(t).key in Keys(t)
    ensures forall k :: k in Keys(t) ==> Leftmost(t).key <= k
    ensures Ordered(Leftmost(t)) && Keys(Leftmost(t)) <= Keys(t)
  {
    if t.left.Node? {
      LeftmostIsMin(t.left);
    }
  }

  /** The value at the end of the left spine is the one stored at its key. */
  lemma {:induction false} LeftmostValue<V>(t: Tree<V>)
    requires Ordered(t) && t.Node?
    ensures Leftmost(t).key in Contents(t)
    ensures Contents(t)[Leftmost(t).key] == Leftmost(t).value
  {
    if t.left.Node? {
      LeftmostValue(t.left);
      LeftmostIsMin(t.left);
      ContentsSplit(t, Leftmost(t.left).key);
    } else {
      ContentsSplit(t, t.key);
    }
  }

  /** In a search tree the right spine ends at the largest key. */
  lemma {:induction false} RightmostIsMax<V>(t: Tree<V>)
    requires Ordered(t) && t.Node?
    ensures Rightmost(t).key in Keys(t)
    ensures forall k :: k in Keys(t) ==> k <= Rightmost(t).key
  {
    if t.right.Node? {
      RightmostIsMax(t.right);
    }
  }

  /** The value at the end of the right spine is the one stored at its key. */
  lemma {:induction false} RightmostValue<V>(t: Tree<V>)
    requires Ordered(t) && t.Node?
    ensures Rightmost(t).key in Contents(t)
    ensures Contents(t)[Rightmost(t).key] == Rightmost(t).value
  {
    if t.right.Node? {
      RightmostValue(t.right);
      RightmostIsMax(t.right);
      ContentsSplit(t, Rightmost(t.right).key);
    } else {
      ContentsSplit(t, t.key);
    }
  }

  /** `_deleteMin(node)` as the source writes it: without a left child the
      right child is returned; otherwise the result of the recursive call
      on the left child is returned and the node itself is not reattached
      above it.  `DeleteMinNode` below is the intended version. */
  function DeleteMinAsWritten<V>(t: Tree<V>): (r: Tree<V>)
    requires t.Node?
    ensures Keys(r) <= Keys(t)
  {
    if t.left.Nil? then t.right else UpdateSize(DeleteMinAsWritten(t.left))
  }

  /** In a tree with valid sizes, `_deleteMin` returns just the right
      subtree of the minimum node: everything else is cut off. */
  lemma {:induction false} DeleteMinAsWrittenCuts<V>(t: Tree<V>)
    requires t.Node? && SizesValid(t)
    ensures DeleteMinAsWritten(t) == Leftmost(t).right
  {
    if t.left.Node? {
      DeleteMinAsWrittenCuts(t.left);
      LeftmostSizes(t.left);
    }
  }

  /** The subtrees along the left spine keep valid sizes. */
  lemma {:induction false} LeftmostSizes<V>(t: Tree<V>)
    requires t.Node? && SizesValid(t)
    ensures SizesValid(Leftmost(t))
  {
    if t.left.Node? {
      LeftmostSizes(t.left);
    }
  }

  /** `_delete(node, key)` as the source writes it: descend by key; at the
      key, a node with at most one child is replaced by that child, and
      otherwise the minimum node of the right subtree takes the node's
      place, with the node's left subtree and `_deleteMin` (as written) of
      its right subtree. */
  function DeleteAsWritten<V>(t: Tree<V>, key: int): (r: Tree<V>)
    ensures Keys(r) <= Keys(t)
  {
    if t.Nil? then Nil
    else if key < t.key then UpdateSize(t.(left := DeleteAsWritten(t.left, key)))
    else if key > t.key then UpdateSize(t.(right := DeleteAsWritten(t.right, key)))
    else if t.right.Nil? then t.left
    else if t.left.Nil? then t.right
    else
      var successor := Leftmost(t.right);
      UpdateSize(successor.(right := DeleteMinAsWritten(t.right), left := t.left))
  }

  /** `delete` keeps the order and the sizes, removes the key, and adds
      no key; it can lose others (see `DeleteAsWrittenExactly`). */
  lemma {:induction false} DeleteAsWrittenSpec<V>(t: Tree<V>, key: int)
    requires SearchTree(t)
    ensures SearchTree(DeleteAsWritten(t, key))
    ensures Keys(DeleteAsWritten(t, key)) <= Keys(t) - {key}
  {
    if t.Node? {
      if key < t.key {
        DeleteAsWrittenSpec(t.left, key);
      } else if key > t.key {
        DeleteAsWrittenSpec(t.right, key);
      } else if t.right.Node? && t.left.Node? {
        var s := Leftmost(t.right);
        LeftmostIsMin(t.right);
        LeftmostSizes(t.right);
        DeleteMinAsWrittenCuts(t.right);
        assert Keys(s.right) <= Keys(s) - {s.key};
      }
    }
  }

  /** The keys `_delete` removes exactly: along the search path, the
      node holding the key has at most one child, or its successor is
      its right child. */
  ghost predicate DeletesExactly<V>(t: Tree<V>, key: int) {
    t.Node? ==>
      if key < t.key then DeletesExactly(t.left, key)
      else if key > t.key then DeletesExactly(t.right, key)
      else t.left.Nil? || t.right.Nil? || t.right.left.Nil?
  }

  /** The same for the middle map of a union. */
  lemma RemoveInUnionMiddle<V>(a: map<int, V>, b: map<int, V>, c: map<int, V>, k: int)
    requires k !in a && k !in c
    ensures a + (b - {k}) + c == (a + b + c) - {k}
  {
  }

  /** Removing the key of the last map of a union, from which the others
      are free, leaves the others. */
  lemma RemoveLast<V>(a: map<int, V>, b: map<int, V>, k: int, v: V)
    requires k !in a && k !in b
    ensures (a + b + map[k := v]) - {k} == a + b
  {
  }

  /** Map union regrouped. */
  lemma UnionRegroup<V>(a: map<int, V>, b: map<int, V>, c: map<int, V>)
    ensures a + (map[] + b + c) == a + b + c
  {
  }

  /** Where the successor is the right child (and in the simpler cases),
      `delete` removes just the key. */
  lemma {:induction false} DeleteAsWrittenExactly<V>(t: Tree<V>, key: int)
    requires SearchTree(t) && DeletesExactly(t, key)
    ensures Contents(DeleteAsWritten(t, key)) == Contents(t) - {key}
    ensures Keys(DeleteAsWritten(t, key)) == Keys(t) - {key}
  {
    DeleteAsWrittenContents(t, key);
    KeysOfContents(t);
    KeysOfContents(DeleteAsWritten(t, key));
  }

  lemma {:induction false} DeleteAsWrittenContents<V>(t: Tree<V>, key: int)
    requires SearchTree(t) && DeletesExactly(t, key)
    ensures Contents(DeleteAsWritten(t, key)) == Contents(t) - {key}
  {
    if t.Node? {
      var root := map[t.key := t.value];
      var l, r := Contents(t.left), Contents(t.right);
      if key < t.key {
        DeleteAsWrittenContents(t.left, key);
        NotInContents(t.right, key);
        RemoveInUnion(l, r, root, key);
      } else if key > t.key {
        DeleteAsWrittenContents(t.right, key);
        NotInContents(t.left, key);
        RemoveInUnionMiddle(l, r, root, key);
      } else {
        NotInContents(t.left, key);
        NotInContents(t.right, key);
        RemoveLast(l, r, key, t.value);
        if t.right.Node? && t.left.Node? {
          var s := t.right;
          UnionRegroup(l, Contents(s.right), map[s.key := s.value]);
        }
      }
    }
  }

  /** A valid tree whose root's successor, 3, is not the root's right
      child, 4. */
  lemma LossyExampleValid()
    ensures Ordered(Node(2, 2, Leaf(1, 1), Node(4, 4, Leaf(3, 3), Nil, 2), 4))
    ensures SizesValid(Node(2, 2, Leaf(1, 1), Node(4, 4, Leaf(3, 3), Nil, 2), 4))
  {
    assert SizesValid(Node(4, 4, Leaf(3, 3), Nil, 2));
  }

  /** Deleting the root of that tree also loses the key 4. */
  lemma DeleteAsWrittenLosesKeys()
    ensures 4 in Keys(Node(2, 2, Leaf(1, 1), Node(4, 4, Leaf(3, 3), Nil, 2), 4))
    ensures 4 !in Keys(DeleteAsWritten(Node(2, 2, Leaf(1, 1), Node(4, 4, Leaf(3, 3), Nil, 2), 4), 2))
  {
    assert DeleteAsWritten(Node(2, 2, Leaf(1, 1), Node(4, 4, Leaf(3, 3), Nil, 2), 4), 2) == Node(3, 3, Leaf(1, 1), Nil, 2);
  }

  /** `_deleteMin(node)` as intended: without a left child the right child
      takes the node's place; otherwise the node's left child becomes
      `_deleteMin` of it, and the node's size is recomputed. */
  function DeleteMinNode<V>(t: Tree<V>): (r: Tree<V>)
    requires t.Node?
    ensures Keys(r) <= Keys(t)
  {
    if t.left.Nil? then t.right else UpdateSize(t.(left := DeleteMinNode(t.left)))
  }

  /** The intended `_deleteMin` removes the smallest key and nothing else. */
  lemma {:induction false} DeleteMinSpec<V>(t: Tree<V>)
    requires SearchTree(t) && t.Node?
    ensures SearchTree(DeleteMinNode(t))
    ensures Keys(DeleteMinNode(t)) == Keys(t) - {Leftmost(t).key}
    ensures Contents(DeleteMinNode(t)) == Contents(t) - {Leftmost(t).key}
  {
    var root := map[t.key := t.value];
    if t.left.Nil? {
      NotInContents(t.right, t.key);
      RemoveLast(map[], Contents(t.right), t.key, t.value);
    } else {
      var m := Leftmost(t.left).key;
      DeleteMinSpec(t.left);
      LeftmostIsMin(t.left);
      NotInContents(t.right, m);
      RemoveInUnion(Contents(t.left), Contents(t.right), root, m);
    }
  }

  /** A key's own entry put back after removing it restores the map. */
  lemma Reinsert<V>(a: map<int, V>, b: map<int, V>, k: int, v: V)
    requires k in b && b[k] == v
    ensures a + (b - {k}) + map[k := v] == a + b
  {
  }

  /** `_delete(node, key)` with the intended `_deleteMin`: the same walk,
      but the successor's new right subtree is the right subtree with
      only the successor removed. */
  function DeleteNode<V>(t: Tree<V>, key: int): (r: Tree<V>)
    ensures Keys(r) <= Keys(t)
  {
    if t.Nil? then Nil
    else if key < t.key then UpdateSize(t.(left := DeleteNode(t.left, key)))
    else if key > t.key then UpdateSize(t.(right := DeleteNode(t.right, key)))
    else if t.right.Nil? then t.left
    else if t.left.Nil? then t.right
    else
      var successor := Leftmost(t.right);
      UpdateSize(successor.(right := DeleteMinNode(t.right), left := t.left))
  }

  /** The intended `delete` keeps a search tree a search tree and removes
      exactly the key from its keys. */
  lemma {:induction false} DeleteSpec<V>(t: Tree<V>, key: int)
    requires SearchTree(t)
    ensures SearchTree(DeleteNode(t, key))
    ensures Keys(DeleteNode(t, key)) == Keys(t) - {key}
  {
    if t.Node? {
      if key < t.key {
        DeleteSpec(t.left, key);
      } else if key > t.key {
        DeleteSpec(t.right, key);
      } else if t.right.Node? && t.left.Node? {
        LeftmostIsMin(t.right);
        DeleteMinSpec(t.right);
      }
    }
  }

  /** The intended `delete` removes the key's entry and every other key
      keeps its value. */
  lemma {:induction false} DeleteContents<V>(t: Tree<V>, key: int)
    requires SearchTree(t)
    ensures Contents(DeleteNode(t, key)) == Contents(t) - {key}
  {
    if t.Node? {
      var root := map[t.key := t.value];
      var l, r := Contents(t.left), Contents(t.right);
      if key < t.key {
        DeleteContents(t.left, key);
        NotInContents(t.right, key);
        RemoveInUnion(l, r, root, key);
      } else if key > t.key {
        DeleteContents(t.right, key);
        NotInContents(t.left, key);
        RemoveInUnionMiddle(l, r, root, key);
      } else {
        NotInContents(t.left, key);
        NotInContents(t.right, key);
        RemoveLast(l, r, key, t.value);
        if t.right.Node? && t.left.Node? {
          var s := Leftmost(t.right);
          LeftmostValue(t.right);
          DeleteMinSpec(t.right);
          Reinsert(l, r, s.key, s.value);
        }
      }
    }
  }

  /** The subtree whose root holds `key`, found by the source's search,
      or `Nil`. */
  function Subtree<V>(t: Tree<V>, key: int): (s: Tree<V>)
    ensures s.Node? ==> s.key == key
  {
    if t.Nil? then Nil
    else if key < t.key then Subtree(t.left, key)
    else if key > t.key then Subtree(t.right, key)
    else t
  }

  /** In a search tree the search finds exactly the keys present, with
      their values, and what it finds is a valid part of the tree. */
  lemma {:induction false} SubtreeSpec<V>(t: Tree<V>, key: int)
    requires SearchTree(t)
    ensures Subtree(t, key).Node? <==> key in Keys(t)
    ensures Subtree(t, key).Node? <==> key in Contents(t)
    ensures Subtree(t, key).Node? ==> Contents(t)[key] == Subtree(t, key).value
    ensures SearchTree(Subtree(t, key))
  {
    KeysOfContents(t);
    if t.Node? {
      ContentsSplit(t, key);
      if key < t.key {
        SubtreeSpec(t.left, key);
        KeysOfContents(t.left);
      } else if key > t.key {
        SubtreeSpec(t.right, key);
        KeysOfContents(t.right);
      }
    }
  }

  /** The values in in-order, the order the iterator yields them. */
  function InOrder<V>(t: Tree<V>): (s: seq<V>)
  {
    if t.Nil? then [] else InOrder(t.left) + [t.value] + InOrder(t.right)
  }

  /** The keys in in-order. */
  ghost function InOrderKeys<V>(t: Tree<V>): (s: seq<int>) {
    if t.Nil? then [] else InOrderKeys(t.left) + [t.key] + InOrderKeys(t.right)
  }

  lemma {:induction false} InOrderLength<V>(t: Tree<V>)
    ensures |InOrder(t)| == |InOrderKeys(t)|
  {
    if t.Node? {
      InOrderLength(t.left);
      InOrderLength(t.right);
    }
  }

  /** The in-order keys are exactly the tree's keys. */
  lemma {:induction false} InOrderKeysAreKeys<V>(t: Tree<V>)
    ensures forall k :: k in Keys(t) <==> k in InOrderKeys(t)
  {
    if t.Node? {
      InOrderKeysAreKeys(t.left);
      InOrderKeysAreKeys(t.right);
    }
  }

  /** In a search tree the in-order keys strictly increase. */
  lemma {:induction false} InOrderIncreasing<V>(t: Tree<V>)
    requires Ordered(t)
    ensures forall i, j :: 0 <= i < j < |InOrderKeys(t)| ==> InOrderKeys(t)[i] < InOrderKeys(t)[j]
  {
    if t.Node? {
      InOrderIncreasing(t.left);
      InOrderIncreasing(t.right);
      InOrderKeysAreKeys(t.left);
      InOrderKeysAreKeys(t.right);
      var l, r := InOrderKeys(t.left), InOrderKeys(t.right);
      var ks := InOrderKeys(t);
      forall i, j | 0 <= i < j < |ks| ensures ks[i] < ks[j] {
        if j < |l| {
          assert ks[i] == l[i] && ks[j] == l[j];
        } else if i < |l| {
          assert ks[i] == l[i] && l[i] in Keys(t.left);
          if j > |l| {
            assert ks[j] == r[j - |l| - 1] && r[j - |l| - 1] in Keys(t.right);
          }
        } else if i == |l| {
          assert ks[j] == r[j - |l| - 1] && r[j - |l| - 1] in Keys(t.right);
        } else {
          assert ks[i] == r[i - |l| - 1] && ks[j] == r[j - |l| - 1];
        }
      }
    }
  }

  /** Each in-order value is the one stored at the in-order key beside it. */
  lemma {:induction false} InOrderValues<V>(t: Tree<V>)
    requires Ordered(t)
    ensures |InOrder(t)| == |InOrderKeys(t)|
    ensures forall i :: 0 <= i < |InOrder(t)| ==>
      InOrderKeys(t)[i] in Contents(t) && Contents(t)[InOrderKeys(t)[i]] == InOrder(t)[i]
  {
    InOrderLength(t);
    if t.Node? {
      InOrderValues(t.left);
      InOrderValues(t.right);
      InOrderKeysAreKeys(t.left);
      InOrderKeysAreKeys(t.right);
      var l, r := InOrderKeys(t.left), InOrderKeys(t.right);
      var ks, vs := InOrderKeys(t), InOrder(t);
      forall i | 0 <= i < |vs| ensures ks[i] in Contents(t) && Contents(t)[ks[i]] == vs[i] {
        if i < |l| {
          assert ks[i] == l[i] && vs[i] == InOrder(t.left)[i] && l[i] in Keys(t.left);
          ContentsSplit(t, l[i]);
        } else if i == |l| {
          ContentsSplit(t, t.key);
        } else {
          var j := i - |l| - 1;
          assert ks[i] == r[j] && vs[i] == InOrder(t.right)[j] && r[j] in Keys(t.right);
          ContentsSplit(t, r[j]);
        }
      }
    }
  }

  /** `p` is part of `t`: each of its keys maps in `t` to what it maps to
      in `p`. */
  ghost predicate Within<V>(p: Tree<V>, t: Tree<V>) {
    forall j :: j in Keys(p) ==> j in Contents(p) && j in Contents(t) && Contents(t)[j] == Contents(p)[j]
  }

  lemma WithinSelf<V>(t: Tree<V>)
    ensures Within(t, t)
  {
    KeysOfContents(t);
  }

  /** Stepping down from a part of `t` stays within `t`, and the node's own
      pair is one of `t`'s. */
  lemma WithinChildren<V>(p: Tree<V>, t: Tree<V>)
    requires Within(p, t) && Ordered(p) && p.Node?
    ensures Within(p.left, t) && Within(p.right, t)
    ensures p.key in Contents(t) && Contents(t)[p.key] == p.value
  {
    KeysOfContents(p.left);
    KeysOfContents(p.right);
    forall j | j in Keys(p.left) ensures j in Contents(p) && Contents(p)[j] == Contents(p.left)[j] {
      ContentsSplit(p, j);
    }
    forall j | j in Keys(p.right) ensures j in Contents(p) && Contents(p)[j] == Contents(p.right)[j] {
      ContentsSplit(p, j);
    }
    ContentsSplit(p, p.key);
  }

  /** The values the in-order walk has still to yield from a stack of
      nodes whose left subtrees are done: the top node, its right
      subtree, then the rest of the stack. */
  function Pending<V>(stack: seq<Tree<V>>): seq<V> {
    if stack == [] then []
    else
      var top := stack[|stack| - 1];
      (if top.Node? then [top.value] + InOrder(top.right) else []) + Pending(stack[..|stack| - 1])
  }

  /** `k` is the smallest key of `m` and `v` its value. */
  ghost predicate MinEntry<V>(m: map<int, V>, k: int, v: V) {
    k in m && m[k] == v && forall j :: j in m ==> k <= j
  }

  /** `k` is the largest key of `m` and `v` its value. */
  ghost predicate MaxEntry<V>(m: map<int, V>, k: int, v: V) {
    k in m && m[k] == v && forall j :: j in m ==> j <= k
  }

  /** `k` is the largest key of `m` not above `key`, and `v` its value. */
  ghost predicate FloorEntry<V>(m: map<int, V>, key: int, k: int, v: V) {
    k in m && m[k] == v && k <= key && forall j :: j in m && j <= key ==> j <= k
  }

  /** `k` is the smallest key of `m` not below `key`, and `v` its value. */
  ghost predicate CeilingEntry<V>(m: map<int, V>, key: int, k: int, v: V) {
    k in m && m[k] == v && key <= k && forall j :: j in m && key <= j ==> k <= j
  }

  /** Pushing a node and turning to its left subtree leaves the values
      still to come unchanged. */
  lemma PushStep<V>(out: seq<V>, p: Tree<V>, stack: seq<Tree<V>>)
    requires p.Node?
    ensures out + InOrder(p) + Pending(stack) == out + InOrder(p.left) + Pending(stack + [p])
  {
    assert (stack + [p])[..|stack|] == stack;
  }

  /** Popping the top node, yielding its value and turning to its right
      subtree leaves the values still to come unchanged. */
  lemma PopStep<V>(out: seq<V>, stack: seq<Tree<V>>)
    requires stack != [] && stack[|stack| - 1].Node?
    ensures out + InOrder(Nil) + Pending(stack) ==
      (out + [stack[|stack| - 1].value]) + InOrder(stack[|stack| - 1].right) + Pending(stack[..|stack| - 1])
  {
  }

  /** The tree object: `root` is reassigned by `put` and `delete` and read
      by everything else. */
  class BST<V> {
    var root: Tree<V>

    ghost predicate Valid()
      reads this
    {
      SearchTree(root)
    }

    /** `constructor()`: the empty tree. */
    constructor()
      ensures Valid() && root == Nil
    {
      root := Nil;
    }

    /** `put(key, value)`: the root becomes `_put(root, key, value)`. */
    method Put(key: int, value: V)
      requires Valid()
      modifies this
      ensures Valid() && root == PutNode(old(root), key, value)
      ensures Keys(root) == old(Keys(root)) + {key}
      ensures Contents(root) == old(Contents(root))[key := value]
      ensures SizeOf(root) == old(SizeOf(root)) + (if key in old(Keys(root)) then 0 else 1)
    {
      PutSpec(root, key, value);
      PutSize(root, key, value);
      root := PutNode(root, key, value);
    }

    /** `_find(key)`: walk down from the root to the key's node, or off
        the tree. */
    method Find(key: int) returns (p: Tree<V>)
      requires Valid()
      ensures p == Subtree(root, key)
      ensures p.Node? <==> key in Keys(root)
      ensures p.Node? <==> key in Contents(root)
      ensures p.Node? ==> p.key == key && p.value == Contents(root)[key]
    {
      SubtreeSpec(root, key);
      p := root;
      while p.Node?
        invariant Subtree(p, key) == Subtree(root, key)
        decreases p
      {
        if key < p.key {
          p := p.left;
        } else if key > p.key {
          p := p.right;
        } else {
          return;
        }
      }
    }

    /** `get(key)`: the stored value, or `null` (`None`) for a missing key. */
    method Get(key: int) returns (r: Option<V>)
      requires Valid()
      ensures key in Contents(root) ==> r == Some(Contents(root)[key])
      ensures key !in Contents(root) ==> r == None
    {
      var p := Find(key);
      KeysOfContents(root);
      r := if p.Node? then Some(p.value) else None;
    }

    /** `delete(key)`: refused on an empty tree; otherwise the root becomes
        `_delete(root, key)` as written.  The key is gone and no key is
        added; exactly the key is removed where `DeletesExactly` holds,
        and other keys can be lost elsewhere (see `DeleteAsWrittenLosesKeys`). */
    method Delete(key: int) returns (o: Outcome)
      requires Valid()
      modifies this
      ensures Valid()
      ensures old(root).Nil? ==> o == Fail(NoSuchElement) && root == Nil
      ensures old(root).Node? ==> o == Pass && root == DeleteAsWritten(old(root), key)
      ensures Keys(root) <= old(Keys(root)) - {key}
      ensures DeletesExactly(old(root), key) ==>
        Keys(root) == old(Keys(root)) - {key} && Contents(root) == old(Contents(root)) - {key}
    {
      if root.Nil? {
        return Fail(NoSuchElement);
      }
      DeleteAsWrittenSpec(root, key);
      if DeletesExactly(root, key) {
        DeleteAsWrittenExactly(root, key);
      }
      root := DeleteAsWritten(root, key);
      return Pass;
    }

    /** `_min(node)`: follow `left` to its end. */
    method MinNode(node: Tree<V>) returns (p: Tree<V>)
      requires node.Node?
      ensures p == Leftmost(node)
    {
      p := node;
      while p.left.Node?
        invariant p.Node? && Leftmost(p) == Leftmost(node)
        decreases p
      {
        p := p.left;
      }
    }

    /** `_max(node)`: follow `right` to its end. */
    method MaxNode(node: Tree<V>) returns (p: Tree<V>)
      requires node.Node?
      ensures p == Rightmost(node)
    {
      p := node;
      while p.right.Node?
        invariant p.Node? && Rightmost(p) == Rightmost(node)
        decreases p
      {
        p := p.right;
      }
    }

    /** `min()`: refused on an empty tree; otherwise the value at the
        smallest key. */
    method Min() returns (r: Result<V>)
      requires Valid()
      ensures root.Nil? ==> r == Failure(NoSuchElement)
      ensures root.Node? ==> r.Success? && exists k :: MinEntry(Contents(root), k, r.value)
    {
      if root.Nil? {
        return Failure(NoSuchElement);
      }
      var p := MinNode(root);
      LeftmostIsMin(root);
      LeftmostValue(root);
      KeysOfContents(root);
      assert MinEntry(Contents(root), p.key, p.value);
      return Success(p.value);
    }

    /** `max()`: refused on an empty tree; otherwise the value at the
        largest key. */
    method Max() returns (r: Result<V>)
      requires Valid()
      ensures root.Nil? ==> r == Failure(NoSuchElement)
      ensures root.Node? ==> r.Success? && exists k :: MaxEntry(Contents(root), k, r.value)
    {
      if root.Nil? {
        return Failure(NoSuchElement);
      }
      var p := MaxNode(root);
      RightmostIsMax(root);
      RightmostValue(root);
      KeysOfContents(root);
      assert MaxEntry(Contents(root), p.key, p.value);
      return Success(p.value);
    }

    /** `floor(key)`: the value at the largest key not above `key`, or
        `null` (`None`) when every key is above it. */
    method Floor(key: int) returns (r: Option<V>)
      requires Valid()
      ensures r.None? <==> forall j :: j in Keys(root) ==> key < j
      ensures r.Some? ==> exists k :: FloorEntry(Contents(root), key, k, r.value)
    {
      var p := root;
      var res: Tree<V> := Nil;
      WithinSelf(root);
      KeysOfContents(root);
      while p.Node?
        invariant Ordered(p) && Within(p, root)
        invariant res.Node? ==> res.key in Contents(root) && Contents(root)[res.key] == res.value && res.key < key
        invariant res.Node? ==> forall j :: j in Keys(p) ==> res.key < j
        invariant forall j :: j in Keys(root) && j <= key ==> j in Keys(p) || (res.Node? && j <= res.key)
        decreases p
      {
        WithinChildren(p, root);
        if p.key == key {
          assert FloorEntry(Contents(root), key, p.key, p.value);
          return Some(p.value);
        }
        if key < p.key {
          p := p.left;
        } else {
          res := p;
          p := p.right;
        }
      }
      if res.Node? {
        assert FloorEntry(Contents(root), key, res.key, res.value);
        return Some(res.value);
      }
      return None;
    }

    /** `ceiling(key)`: the value at the smallest key not below `key`, or
        `null` (`None`) when every key is below it. */
    method Ceiling(key: int) returns (r: Option<V>)
      requires Valid()
      ensures r.None? <==> forall j :: j in Keys(root) ==> j < key
      ensures r.Some? ==> exists k :: CeilingEntry(Contents(root), key, k, r.value)
    {
      var p := root;
      var res: Tree<V> := Nil;
      WithinSelf(root);
      KeysOfContents(root);
      while p.Node?
        invariant Ordered(p) && Within(p, root)
        invariant res.Node? ==> res.key in Contents(root) && Contents(root)[res.key] == res.value && key < res.key
        invariant res.Node? ==> forall j :: j in Keys(p) ==> j < res.key
        invariant forall j :: j in Keys(root) && key <= j ==> j in Keys(p) || (res.Node? && res.key <= j)
        decreases p
      {
        WithinChildren(p, root);
        if p.key == key {
          assert CeilingEntry(Contents(root), key, p.key, p.value);
          return Some(p.value);
        }
        if key < p.key {
          res := p;
          p := p.left;
        } else {
          p := p.right;
        }
      }
      if res.Node? {
        assert CeilingEntry(Contents(root), key, res.key, res.value);
        return Some(res.value);
      }
      return None;
    }

    /** `size(key)`: without a key, the number of keys (0 for an empty
        tree); with a key, the number of keys in that key's subtree,
        refused when the tree is empty or the key is missing. */
    method Size(key: Option<int>) returns (r: Result<int>)
      requires Valid()
      ensures key.None? ==> r == Success(|Keys(root)|)
      ensures key.Some? && key.value !in Keys(root) ==> r == Failure(NoSuchElement)
      ensures key.Some? && key.value in Keys(root) ==> r == Success(|Keys(Subtree(root, key.value))|)
    {
      SizeCountsKeys(root);
      if root.Nil? {
        if key.None? {
          return Success(0);
        }
        return Failure(NoSuchElement);
      }
      if key.None? {
        return Success(root.size);
      }
      var node := Find(key.value);
      if node.Nil? {
        return Failure(NoSuchElement);
      }
      SubtreeSpec(root, key.value);
      SizeCountsKeys(node);
      return Success(node.size);
    }

    /** `[Symbol.iterator]()`, run to the end: an explicit stack walks the
        tree in order, pushing down left spines and popping a node to
        yield its value before turning to its right subtree. */
    method Iterate() returns (out: seq<V>)
      ensures out == InOrder(root)
    {
      var stack: seq<Tree<V>> := [];
      var p := root;
      out := [];
      while p.Node? || |stack| > 0
        invariant forall i :: 0 <= i < |stack| ==> stack[i].Node?
        invariant out + InOrder(p) + Pending(stack) == InOrder(root)
        decreases |InOrder(root)| - |out|, p
      {
        if p.Node? {
          PushStep(out, p, stack);
          stack := stack + [p];
          p := p.left;
        } else {
          PopStep(out, stack);
          p := stack[|stack| - 1];
          stack := stack[..|stack| - 1];
          out := out + [p.value];
          p := p.right;
        }
      }
    }
  }

  /** The tree the walk-through's ten `put` calls build: 5 at the root, 3
      (over 1 and 4) on the left, 12 (over 8, itself over 6 and 10, and
      42) on the right; the second `put(6, 66)` replaced the value at 6. */
  const TestTree: Tree<int> :=
    Node(5, 5, Node(3, 3, Leaf(1, 1), Leaf(4, 4), 3),
      Node(12, 12, Node(8, 8, Leaf(6, 66), Leaf(10, 10), 3), Leaf(42, 42), 5), 9)

  /** The tree after the first five `put` calls. */
  const HalfTree: Tree<int> := Node(5, 5, Node(3, 3, Leaf(1, 1), Leaf(4, 4), 3), Leaf(12, 12), 5)

  lemma HalfTreeBuilt()
    ensures PutNode(PutNode(PutNode(PutNode(PutNode(Nil, 5, 5), 3, 3), 12, 12), 1, 1), 4, 4) == HalfTree
  {
  }

  lemma TestTreeBuilt()
    ensures PutNode(PutNode(PutNode(PutNode(PutNode(HalfTree, 8, 8), 10, 10), 6, 6), 6, 66), 42, 42) == TestTree
  {
  }

  /** The ten `put` calls of the walk-through. */
  method BuildTestTree() returns (t: BST<int>)
    ensures fresh(t) && t.Valid() && t.root == TestTree
  {
    t := new BST<int>();
    PutFirstFive(t);
    PutLastFive(t);
  }

  method PutFirstFive(t: BST<int>)
    requires t.Valid() && t.root == Nil
    modifies t
    ensures t.Valid() && t.root == HalfTree
  {
    t.Put(5, 5);
    t.Put(3, 3);
    t.Put(12, 12);
    t.Put(1, 1);
    t.Put(4, 4);
    HalfTreeBuilt();
  }

  method PutLastFive(t: BST<int>)
    requires t.Valid() && t.root == HalfTree
    modifies t
    ensures t.Valid() && t.root == TestTree
  {
    t.Put(8, 8);
    t.Put(10, 10);
    t.Put(6, 6);
    t.Put(6, 66);
    t.Put(42, 42);
    TestTreeBuilt();
  }

  /** The keys of `TestTree`. */
  const TestKeys: set<int> := {1, 3, 4, 5, 6, 8, 10, 12, 42}

  lemma TestTreeKeys()
    ensures Keys(TestTree) == TestKeys
  {
  }

  /** The bounds on `TestKeys` that settle the walk-through's `min`,
      `max`, `floor` and `ceiling` answers. */
  lemma TestKeysBounds()
    ensures forall j :: j in TestKeys ==> 1 <= j && j <= 42
    ensures forall j :: j in TestKeys && j <= 9 ==> j <= 8
    ensures forall j :: j in TestKeys && j <= 2 ==> j <= 1
    ensures forall j :: j in TestKeys && 9 <= j ==> 10 <= j
    ensures forall j :: j in TestKeys && 2 <= j ==> 3 <= j
  {
  }

  /** The walk-through's `size` queries: 9 keys, 3 under key 3, 5 under
      key 12 and 1 under key 42. */
  method SizeQueries(t: BST<int>) returns (total: Result<int>, three: Result<int>, twelve: Result<int>, fortyTwo: Result<int>)
    requires t.Valid() && t.root == TestTree
    ensures total == Success(9) && three == Success(3) && twelve == Success(5) && fortyTwo == Success(1)
  {
    total := t.Size(None);
    three := t.Size(Some(3));
    twelve := t.Size(Some(12));
    fortyTwo := t.Size(Some(42));
    SubtreeSpec(TestTree, 42);
    SizeCountsKeys(Subtree(TestTree, 42));
    SizeCountsKeys(TestTree);
    SubtreeSpec(TestTree, 3);
    SizeCountsKeys(Subtree(TestTree, 3));
    SubtreeSpec(TestTree, 12);
    SizeCountsKeys(Subtree(TestTree, 12));
  }

  /** The walk-through's `get` queries: 8, then 66 for the overwritten
      key 6, and `null` for the missing key 66. */
  method GetQueries(t: BST<int>) returns (eight: Option<int>, six: Option<int>, missing: Option<int>)
    requires t.Valid() && t.root == TestTree
    ensures eight == Some(8) && six == Some(66) && missing == None
  {
    eight := t.Get(8);
    six := t.Get(6);
    missing := t.Get(66);
    SubtreeSpec(TestTree, 8);
    SubtreeSpec(TestTree, 6);
    SubtreeSpec(TestTree, 66);
  }

  /** A key that bounds all keys from above is the one `MaxEntry` names. */
  lemma MaxEntryIs<V>(t: Tree<V>, ks: set<int>, hi: int, v: V, top: int)
    requires MaxEntry(Contents(t), hi, v) && Keys(t) == ks
    requires top in ks && forall j :: j in ks ==> j <= top
    ensures hi == top && v == Contents(t)[top]
  {
    KeysOfContents(t);
  }

  /** A key that bounds all keys from below is the one `MinEntry` names. */
  lemma MinEntryIs<V>(t: Tree<V>, ks: set<int>, lo: int, v: V, bottom: int)
    requires MinEntry(Contents(t), lo, v) && Keys(t) == ks
    requires bottom in ks && forall j :: j in ks ==> bottom <= j
    ensures lo == bottom && v == Contents(t)[bottom]
  {
    KeysOfContents(t);
  }

  /** The largest key not above `key` is the one `FloorEntry` names. */
  lemma FloorEntryIs<V>(t: Tree<V>, ks: set<int>, key: int, k: int, v: V, f: int)
    requires FloorEntry(Contents(t), key, k, v) && Keys(t) == ks
    requires f in ks && f <= key && forall j :: j in ks && j <= key ==> j <= f
    ensures k == f && v == Contents(t)[f]
  {
    KeysOfContents(t);
  }

  /** The smallest key not below `key` is the one `CeilingEntry` names. */
  lemma CeilingEntryIs<V>(t: Tree<V>, ks: set<int>, key: int, k: int, v: V, c: int)
    requires CeilingEntry(Contents(t), key, k, v) && Keys(t) == ks
    requires c in ks && key <= c && forall j :: j in ks && key <= j ==> c <= j
    ensures k == c && v == Contents(t)[c]
  {
    KeysOfContents(t);
  }

  /** The walk-through's `max` and `min`: 42 and 1. */
  method ExtremeQueries(t: BST<int>) returns (max: Result<int>, min: Result<int>)
    requires t.Valid() && t.root == TestTree
    ensures max == Success(42) && min == Success(1)
  {
    max := t.Max();
    min := t.Min();
    TestTreeKeys();
    TestKeysBounds();
    SubtreeSpec(t.root, 42);
    SubtreeSpec(t.root, 1);
    ghost var hi :| MaxEntry(Contents(t.root), hi, max.value);
    ghost var lo :| MinEntry(Contents(t.root), lo, min.value);
    MaxEntryIs(t.root, TestKeys, hi, max.value, 42);
    MinEntryIs(t.root, TestKeys, lo, min.value, 1);
  }

  /** The walk-through's `floor` queries: 8 for 9, 1 for 2, `null` for 0
      and 4 for 4. */
  method FloorQueries(t: BST<int>) returns (nine: Option<int>, two: Option<int>, zero: Option<int>, four: Option<int>)
    requires t.Valid() && t.root == TestTree
    ensures nine == Some(8) && two == Some(1) && zero == None && four == Some(4)
  {
    nine := t.Floor(9);
    two := t.Floor(2);
    zero := t.Floor(0);
    four := t.Floor(4);
    TestTreeKeys();
    TestKeysBounds();
    SubtreeSpec(t.root, 8);
    SubtreeSpec(t.root, 1);
    SubtreeSpec(t.root, 4);
    ghost var k9 :| FloorEntry(Contents(t.root), 9, k9, nine.value);
    ghost var k2 :| FloorEntry(Contents(t.root), 2, k2, two.value);
    ghost var k4 :| FloorEntry(Contents(t.root), 4, k4, four.value);
    FloorEntryIs(t.root, TestKeys, 9, k9, nine.value, 8);
    FloorEntryIs(t.root, TestKeys, 2, k2, two.value, 1);
    FloorEntryIs(t.root, TestKeys, 4, k4, four.value, 4);
  }

  /** The walk-through's `ceiling` queries: 10 for 9, 3 for 2, `null` for
      142 and 4 for 4. */
  method CeilingQueries(t: BST<int>) returns (nine: Option<int>, two: Option<int>, big: Option<int>, four: Option<int>)
    requires t.Valid() && t.root == TestTree
    ensures nine == Some(10) && two == Some(3) && big == None && four == Some(4)
  {
    nine := t.Ceiling(9);
    two := t.Ceiling(2);
    big := t.Ceiling(142);
    four := t.Ceiling(4);
    TestTreeKeys();
    TestKeysBounds();
    SubtreeSpec(t.root, 10);
    SubtreeSpec(t.root, 3);
    SubtreeSpec(t.root, 4);
    ghost var k9 :| CeilingEntry(Contents(t.root), 9, k9, nine.value);
    ghost var k2 :| CeilingEntry(Contents(t.root), 2, k2, two.value);
    ghost var k4 :| CeilingEntry(Contents(t.root), 4, k4, four.value);
    CeilingEntryIs(t.root, TestKeys, 9, k9, nine.value, 10);
    CeilingEntryIs(t.root, TestKeys, 2, k2, two.value, 3);
    CeilingEntryIs(t.root, TestKeys, 4, k4, four.value, 4);
  }

  /** The walk-through's spread of the tree: the values by ascending key. */
  method SortedQuery(t: BST<int>) returns (sorted: seq<int>)
    requires t.Valid() && t.root == TestTree
    ensures sorted == [1, 3, 4, 5, 66, 8, 10, 12, 42]
  {
    sorted := t.Iterate();
  }

  /** `TestTree` after `delete(12)`: 42, the minimum of 12's right
      subtree, takes 12's place over 8's subtree. */
  const Deleted12: Tree<int> :=
    Node(5, 5, Node(3, 3, Leaf(1, 1), Leaf(4, 4), 3),
      Node(42, 42, Node(8, 8, Leaf(6, 66), Leaf(10, 10), 3), Nil, 4), 8)

  /** Then after `delete(1)` and `delete(3)`. */
  const Deleted3: Tree<int> :=
    Node(5, 5, Leaf(4, 4), Node(42, 42, Node(8, 8, Leaf(6, 66), Leaf(10, 10), 3), Nil, 4), 6)

  /** Then after `delete(42)`. */
  const Deleted42: Tree<int> := Node(5, 5, Leaf(4, 4), Node(8, 8, Leaf(6, 66), Leaf(10, 10), 3), 5)

  const Deleted3Keys: set<int> := {4, 5, 6, 8, 10, 42}
  const Deleted42Keys: set<int> := {4, 5, 6, 8, 10}

  /** The walk-through's deletions, as written, give the trees above;
      none of them reaches the lost-keys defect, so the corrected
      `_delete` gives the same trees. */
  lemma DeletionsDone()
    ensures DeleteAsWritten(TestTree, 12) == Deleted12
    ensures DeleteAsWritten(DeleteAsWritten(Deleted12, 1), 3) == Deleted3
    ensures DeleteAsWritten(Deleted3, 42) == Deleted42
    ensures DeleteNode(TestTree, 12) == Deleted12
    ensures DeleteNode(DeleteNode(Deleted12, 1), 3) == Deleted3
    ensures DeleteNode(Deleted3, 42) == Deleted42
  {
  }

  lemma DeletedKeys()
    ensures Keys(Deleted3) == Deleted3Keys && Keys(Deleted42) == Deleted42Keys
  {
  }

  /** The bounds that settle the `min` after the second and third
      deletions and the `max` after the fourth. */
  lemma DeletedKeysBounds()
    ensures forall j :: j in Deleted3Keys ==> 4 <= j
    ensures forall j :: j in Deleted42Keys ==> j <= 10
  {
  }

  /** `delete(12)`. */
  method DeleteTwelve(t: BST<int>)
    requires t.Valid() && t.root == TestTree
    modifies t
    ensures t.Valid() && t.root == Deleted12
  {
    DeletionsDone();
    var o := t.Delete(12);
  }

  /** After `delete(12)` the spread drops 12's value. */
  method Deleted12Sorted(t: BST<int>) returns (sorted: seq<int>)
    requires t.Valid() && t.root == Deleted12
    ensures sorted == [1, 3, 4, 5, 66, 8, 10, 42]
  {
    sorted := t.Iterate();
  }

  /** After `delete(12)` the tree has 8 keys and 42's subtree has 4. */
  method Deleted12Queries(t: BST<int>) returns (total: Result<int>, fortyTwo: Result<int>)
    requires t.Valid() && t.root == Deleted12
    ensures total == Success(8) && fortyTwo == Success(4)
  {
    total := t.Size(None);
    fortyTwo := t.Size(Some(42));
    SizeCountsKeys(Deleted12);
    SubtreeSpec(Deleted12, 42);
    SizeCountsKeys(Subtree(Deleted12, 42));
  }

  /** `delete(1)` and `delete(3)`. */
  method DeleteOneAndThree(t: BST<int>)
    requires t.Valid() && t.root == Deleted12
    modifies t
    ensures t.Valid() && t.root == Deleted3
  {
    DeletionsDone();
    var o := t.Delete(1);
    o := t.Delete(3);
  }

  /** After `delete(1)` and `delete(3)`: 6 keys, the smallest now 4. */
  method Deleted3Queries(t: BST<int>) returns (total: Result<int>, min: Result<int>)
    requires t.Valid() && t.root == Deleted3
    ensures total == Success(6) && min == Success(4)
  {
    total := t.Size(None);
    SizeCountsKeys(Deleted3);
    min := t.Min();
    DeletedKeys();
    DeletedKeysBounds();
    SubtreeSpec(t.root, 4);
    ghost var lo :| MinEntry(Contents(t.root), lo, min.value);
    MinEntryIs(t.root, Deleted3Keys, lo, min.value, 4);
  }

  /** `delete(42)`. */
  method DeleteFortyTwo(t: BST<int>)
    requires t.Valid() && t.root == Deleted3
    modifies t
    ensures t.Valid() && t.root == Deleted42
  {
    DeletionsDone();
    var o := t.Delete(42);
  }

  /** After `delete(42)` the spread is the five values left, by key. */
  method Deleted42Sorted(t: BST<int>) returns (sorted: seq<int>)
    requires t.Valid() && t.root == Deleted42
    ensures sorted == [4, 5, 66, 8, 10]
  {
    sorted := t.Iterate();
  }

  /** After `delete(42)`: 5 keys, the largest now 10. */
  method Deleted42Queries(t: BST<int>) returns (max: Result<int>, total: Result<int>)
    requires t.Valid() && t.root == Deleted42
    ensures max == Success(10) && total == Success(5)
  {
    max := t.Max();
    DeletedKeys();
    DeletedKeysBounds();
    SubtreeSpec(t.root, 10);
    ghost var hi :| MaxEntry(Contents(t.root), hi, max.value);
    MaxEntryIs(t.root, Deleted42Keys, hi, max.value, 10);
    total := t.Size(None);
    SizeCountsKeys(Deleted42);
  }

  /** The whole walk-through, in the source's order. */
  method WalkThrough() returns (sizes: seq<Result<int>>, gets: seq<Option<int>>, floors: seq<Option<int>>, ceilings: seq<Option<int>>)
    ensures sizes == [Success(9), Success(3), Success(5), Success(1), Success(8), Success(4), Success(6), Success(5)]
    ensures gets == [Some(8), Some(66), None]
    ensures floors == [Some(8), Some(1), None, Some(4)]
    ensures ceilings == [Some(10), Some(3), None, Some(4)]
  {
    var t := BuildTestTree();
    var total, three, twelve, fortyTwo := SizeQueries(t);
    var eight, six, missing := GetQueries(t);
    gets := [eight, six, missing];
    var max, min := ExtremeQueries(t);
    var f9, f2, f0, f4 := FloorQueries(t);
    floors := [f9, f2, f0, f4];
    var c9, c2, c142, c4 := CeilingQueries(t);
    ceilings := [c9, c2, c142, c4];
    var sorted := SortedQuery(t);
    DeleteTwelve(t);
    var total8, after := Deleted12Queries(t);
    var sorted8 := Deleted12Sorted(t);
    DeleteOneAndThree(t);
    var total6, min4 := Deleted3Queries(t);
    DeleteFortyTwo(t);
    var max10, total5 := Deleted42Queries(t);
    var sorted5 := Deleted42Sorted(t);
    sizes := [total, three, twelve, fortyTwo, total8, after, total6, total5];
  }
}
