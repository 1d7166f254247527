/**
 * The `SplayBST` object: one `root` field that every public operation,
 * `get` and `contains` included, reassigns.
 */
module Engine {
  import opened Wrappers
  import opened Trees
  import opened Splaying
  import opened Operations

  class SplayBST<V> {
    /** The root of the search tree; `Leaf` when the table is empty. */
    var root: Tree<V>

    /** The tree is a binary search tree. */
    ghost predicate Valid()
      reads this
    {
      IsBst(root)
    }

    /** A new, empty table. */
    constructor ()
      ensures Valid() && root == Leaf
    {
      root := Leaf;
    }

    /** `get(key)`: splay on `key`, then read the root. Throws on an empty
        table; otherwise returns the value stored under `key` or `null`.
        The map is unchanged and the new root is the last node on the
        search path for `key`. */
    method Get(key: int) returns (r: Outcome<Option<V>>)
      requires Valid()
      modifies this
      ensures Valid()
      ensures root == Splay(old(root), key)
      ensures Contents(root) == old(Contents(root))
      ensures r.NullPointerException? <==> old(root).Leaf?
      ensures old(root).Node? ==>
        r == Ok(if key in old(Contents(root)) then Some(old(Contents(root))[key]) else None)
    {
      root := Splay(root, key);
      r := RootLookup(root, key);
      GetSpec(old(root), key);
      SplayPreservesViews(old(root), key);
    }

    /** `contains(key)`: `get(key) != null`, with the same splay and the
        same exception on an empty table. */
    method Contains(key: int) returns (r: Outcome<bool>)
      requires Valid()
      modifies this
      ensures Valid()
      ensures root == Splay(old(root), key)
      ensures r.NullPointerException? <==> old(root).Leaf?
      ensures old(root).Node? ==> r == Ok(key in old(KeySet(root)))
    {
      var g := Get(key);
      match g
      case NullPointerException =>
        r := NullPointerException;
      case Ok(o) =>
        r := Ok(o.Some?);
        ContentsKeys(old(root));
    }

    /** `put(key, value)`: afterwards `key` is at the root and mapped to
        `value`, every other key keeps its value, and the table grows by one
        node exactly when `key` was new. */
    method Put(key: int, value: V)
      requires Valid()
      modifies this
      ensures Valid()
      ensures root == Operations.Put(old(root), key, value)
      ensures root.Node? && root.key == key
      ensures Contents(root) == old(Contents(root))[key := value]
      ensures KeySet(root) == old(KeySet(root)) + {key}
      ensures Trees.Size(root) == old(Trees.Size(root)) + (if key in old(KeySet(root)) then 0 else 1)
    {
      root := Operations.Put(root, key, value);
      PutSpec(old(root), key, value);
      PutSize(old(root), key, value);
    }

    /** `remove(key)`: search-tree order is kept and no entry is invented;
        an absent key leaves the map as it was; a present key is deleted,
        exactly when the splayed root has no left child or that child has no
        right child, and together with more keys otherwise. */
    method Remove(key: int)
      requires Valid()
      modifies this
      ensures Valid()
      ensures root == Operations.Remove(old(root), key)
      ensures key !in KeySet(root)
      ensures SubMap(Contents(root), old(Contents(root)))
      ensures key !in old(KeySet(root)) ==> Contents(root) == old(Contents(root))
      ensures key in old(KeySet(root)) ==>
        (KeySet(root) == old(KeySet(root)) - {key} <==>
          Splay(old(root), key).left.Leaf? || Splay(old(root), key).left.right.Leaf?)
    {
      root := Operations.Remove(root, key);
      RemoveSound(old(root), key);
      if key in old(KeySet(root)) {
        RemoveExactly(old(root), key);
      } else {
        RemoveAbsent(old(root), key);
      }
    }

    /** `size()`: the number of keys stored, each counted once. */
    function Size(): (n: nat)
      reads this
      ensures n == |Keys(root)|
      ensures Valid() ==> n == |KeySet(root)|
    {
      SizeIsKeyCount(root);
      KeyCount(root);
      Trees.Size(root)
    }

    /** `height()`: -1 exactly for the empty table, and less than the
        number of keys. */
    function Height(): (h: int)
      reads this
      ensures h >= -1
      ensures h == -1 <==> root.Leaf?
      ensures h < |Keys(root)|
    {
      SizeHeight(root);
      SizeIsKeyCount(root);
      Trees.Height(root)
    }
  }

  /** The tree after inserting keys 5, 3, 8, 1, 4 (with values 0 to 4) into
      an empty table. */
  function ScenarioInserts(): Tree<int>
  {
    Operations.Put(Operations.Put(Operations.Put(Operations.Put(Operations.Put(
      Leaf, 5, 0), 3, 1), 8, 2), 1, 3), 4, 4)
  }

  /** A worked example on a fresh table: after the five puts the
      size is 5; `get(4)` returns 4 and leaves 4 at the root; after
      `remove(3)`, `contains(3)` is false and the size is 4; `remove(99)`
      leaves the size at 4. */
  lemma ScenarioOutcome()
    ensures var t := ScenarioInserts();
      IsBst(t) && Trees.Size(t) == 5 &&
      RootLookup(Splay(t, 4), 4) == Ok(Some(4)) && Splay(t, 4).key == 4 &&
      var u := Operations.Remove(Splay(t, 4), 3);
      RootLookup(Splay(u, 3), 3) == Ok(None) && Trees.Size(u) == 4 &&
      Trees.Size(Operations.Remove(Splay(u, 3), 99)) == 4
  {
    var t1 := Operations.Put(Leaf, 5, 0);
    assert t1 == Node(5, 0, Leaf, Leaf);
    var t2 := Operations.Put(t1, 3, 1);
    assert t2 == Node(3, 1, Leaf, Node(5, 0, Leaf, Leaf));
    var t3 := Operations.Put(t2, 8, 2);
    assert t3 == Node(8, 2, Node(5, 0, Node(3, 1, Leaf, Leaf), Leaf), Leaf);
    var t4 := Operations.Put(t3, 1, 3);
    assert t4 == Node(1, 3, Leaf, Node(3, 1, Leaf, Node(5, 0, Leaf, Node(8, 2, Leaf, Leaf))));
    var t5 := Operations.Put(t4, 4, 4);
    assert t5 == Node(4, 4, Node(3, 1, Node(1, 3, Leaf, Leaf), Leaf), Node(5, 0, Leaf, Node(8, 2, Leaf, Leaf)));
    assert Splay(t5, 4) == t5;
    assert IsBst(t5);
    var u := Operations.Remove(t5, 3);
    assert u == Node(1, 3, Leaf, Node(4, 4, Leaf, Node(5, 0, Leaf, Node(8, 2, Leaf, Leaf))));
    var w := Splay(u, 3);
    assert w == Node(4, 4, Node(1, 3, Leaf, Leaf), Node(5, 0, Leaf, Node(8, 2, Leaf, Leaf)));
    assert IsBst(w);
    assert Operations.Remove(w, 99) == Node(8, 2, Node(5, 0, Node(4, 4, Node(1, 3, Leaf, Leaf), Leaf), Leaf), Leaf);
  }
}
