/**
 * The tree surgery of `get`, `put` and `remove`, each as a function from the
 * old root to the new root (or, for `get`, to the answer read off the
 * splayed root).
 */
module Operations {
  import opened Wrappers
  import opened Trees
  import opened Splaying

  // ---------------------------------------------------------------------
  // get
  // ---------------------------------------------------------------------

  /** What `get` answers once the tree has been splayed on `k`: the root's
      value if the root holds `k`, else `null`; on an empty tree reading
      `root.key` dereferences null. */
  function RootLookup<V>(s: Tree<V>, k: int): Outcome<Option<V>>
  {
    match s
    case Leaf => NullPointerException
    case Node(sk, sv, _, _) => if k == sk then Ok(Some(sv)) else Ok(None)
  }

  /** `get(k)` throws exactly on the empty tree; on any other search tree it
      returns the value stored under `k`, or `null` when `k` is absent. */
  lemma GetSpec<V>(t: Tree<V>, k: int)
    requires IsBst(t)
    ensures RootLookup(Splay(t, k), k).NullPointerException? <==> t.Leaf?
    ensures t.Node? ==>
      RootLookup(Splay(t, k), k) == Ok(if k in Contents(t) then Some(Contents(t)[k]) else None)
  {
    if t.Node? {
      var s := Splay(t, k);
      SplayRoot(t, k);
      SplayPreservesViews(t, k);
      BstContents(s);
      ContentsKeys(t);
    }
  }

  /** `get` as the comment at line 44 describes it: `null` when there is no
      value for the key, the empty table included. */
  function GetIntended<V>(t: Tree<V>, k: int): Option<V>
  {
    match RootLookup(Splay(t, k), k)
    case Ok(r) => r
    case NullPointerException => None
  }

  /** The intended `get` returns the value stored under `k` on every search
      tree, and `null` exactly when `k` is absent. */
  lemma GetIntendedSpec<V>(t: Tree<V>, k: int)
    requires IsBst(t)
    ensures GetIntended(t, k) == if k in Contents(t) then Some(Contents(t)[k]) else None
    ensures GetIntended(t, k).None? <==> k !in KeySet(t)
  {
    GetSpec(t, k);
    ContentsKeys(t);
  }

  // ---------------------------------------------------------------------
  // put
  // ---------------------------------------------------------------------

  /** `put(k, v)`: a single node on an empty tree; otherwise splay on `k`
      and either put a new node holding `k` above the splayed root (taking
      the root's left, resp. right, subtree with it) or overwrite the root's
      value when the root already holds `k`. */
  function Put<V>(t: Tree<V>, k: int, v: V): Tree<V>
  {
    if t.Leaf? then Node(k, v, Leaf, Leaf)
    else
      var s := Splay(t, k);
      if k < s.key then Node(k, v, s.left, s.(left := Leaf))
      else if s.key < k then Node(k, v, s.(right := Leaf), s.right)
      else s.(value := v)
  }

  /** Moving `(a, va)` in front of the node entry `(b, vb)`: the map is the
      old one updated at `a`, provided `a` is new to the right part. */
  lemma MapInsertBefore<V>(l: map<int, V>, r: map<int, V>, a: int, va: V, b: int, vb: V)
    requires a !in r && a != b
    ensures l[a := va] + (map[b := vb] + r) == (l[b := vb] + r)[a := va]
  {
  }

  /** The mirror image of `MapInsertBefore`. */
  lemma MapInsertAfter<V>(l: map<int, V>, r: map<int, V>, a: int, va: V, b: int, vb: V)
    requires a !in r && a != b
    ensures l[b := vb][a := va] + r == (l[b := vb] + r)[a := va]
  {
  }

  /** A new node for `k` placed above the splayed root `s` when `k` is smaller
      (lines 67-73). */
  lemma PutBelowRoot<V>(s: Tree<V>, k: int, v: V)
    requires s.Node? && IsBst(s) && k < s.key && k !in KeySet(s)
    requires forall j :: j in KeySet(s) && k < j ==> s.key <= j
    ensures IsBst(Node(k, v, s.left, s.(left := Leaf)))
    ensures Contents(Node(k, v, s.left, s.(left := Leaf))) == Contents(s)[k := v]
  {
    forall j | j in Keys(s.left) ensures j < k {
      assert j in KeySet(s);
    }
    ContentsNode(k, v, s.left, s.(left := Leaf));
    ContentsNode(s.key, s.value, Leaf, s.right);
    ContentsNode(s.key, s.value, s.left, s.right);
    ContentsKeys(s.right);
    assert Contents(s.(left := Leaf).left) == map[];
    MapInsertBefore(Contents(s.left), Contents(s.right), k, v, s.key, s.value);
  }

  /** A new node for `k` placed above the splayed root `s` when `k` is larger
      (lines 76-82). */
  lemma PutAboveRoot<V>(s: Tree<V>, k: int, v: V)
    requires s.Node? && IsBst(s) && s.key < k && k !in KeySet(s)
    requires forall j :: j in KeySet(s) && j < k ==> j <= s.key
    ensures IsBst(Node(k, v, s.(right := Leaf), s.right))
    ensures Contents(Node(k, v, s.(right := Leaf), s.right)) == Contents(s)[k := v]
  {
    forall j | j in Keys(s.right) ensures k < j {
      assert j in KeySet(s);
    }
    ContentsNode(k, v, s.(right := Leaf), s.right);
    ContentsNode(s.key, s.value, s.left, Leaf);
    ContentsNode(s.key, s.value, s.left, s.right);
    ContentsKeys(s.right);
    assert Contents(s.(right := Leaf).right) == map[];
    assert Contents(s.(right := Leaf)) == Contents(s.left)[s.key := s.value];
    MapInsertAfter(Contents(s.left), Contents(s.right), k, v, s.key, s.value);
  }

  /** `put` keeps search-tree order, leaves `k` at the root, maps `k` to `v`
      and leaves every other key's value alone. */
  lemma PutSpec<V>(t: Tree<V>, k: int, v: V)
    requires IsBst(t)
    ensures IsBst(Put(t, k, v))
    ensures Put(t, k, v).Node? && Put(t, k, v).key == k && Put(t, k, v).value == v
    ensures Contents(Put(t, k, v)) == Contents(t)[k := v]
    ensures KeySet(Put(t, k, v)) == KeySet(t) + {k}
  {
    var p := Put(t, k, v);
    if t.Leaf? {
      ContentsNode(k, v, Leaf, Leaf);
    } else {
      var s := Splay(t, k);
      SplayRoot(t, k);
      SplayPreservesViews(t, k);
      if k < s.key {
        assert p == Node(k, v, s.left, s.(left := Leaf));
        PutBelowRoot(s, k, v);
      } else if s.key < k {
        assert p == Node(k, v, s.(right := Leaf), s.right);
        PutAboveRoot(s, k, v);
      } else {
        assert p == Node(k, v, s.left, s.right);
        PutOnRoot(s, v);
      }
      assert Contents(p) == Contents(s)[k := v];
    }
    ContentsKeys(t);
    ContentsKeys(p);
  }

  /** Overwriting the value of the root (line 86). */
  lemma PutOnRoot<V>(s: Tree<V>, v: V)
    requires s.Node? && IsBst(s)
    ensures Contents(s.(value := v)) == Contents(s)[s.key := v]
  {
    ContentsNode(s.key, v, s.left, s.right);
    ContentsNode(s.key, s.value, s.left, s.right);
    ContentsKeys(s.right);
  }

  /** The number of nodes grows by one exactly when `k` was absent; for a
      present key no node is created and the key sequence is the splayed
      tree's. */
  lemma PutSize<V>(t: Tree<V>, k: int, v: V)
    requires IsBst(t)
    ensures Size(Put(t, k, v)) == if k in KeySet(t) then Size(t) else Size(t) + 1
    ensures k in KeySet(t) ==> Keys(Put(t, k, v)) == Keys(t)
  {
    if t.Node? {
      var p := Put(t, k, v);
      var s := Splay(t, k);
      SplayRoot(t, k);
      SplayPreservesViews(t, k);
      if k < s.key {
        assert p == Node(k, v, s.left, s.(left := Leaf));
        assert Size(s.(left := Leaf)) == 1 + Size(s.right);
      } else if s.key < k {
        assert p == Node(k, v, s.(right := Leaf), s.right);
        assert Size(s.(right := Leaf)) == 1 + Size(s.left);
      } else {
        assert p == s.(value := v);
      }
    }
  }

  /** A `get(k)` right after `put(k, v)` returns `v`. */
  lemma PutThenGet<V>(t: Tree<V>, k: int, v: V)
    requires IsBst(t)
    ensures RootLookup(Splay(Put(t, k, v), k), k) == Ok(Some(v))
  {
    PutSpec(t, k, v);
    GetSpec(Put(t, k, v), k);
  }

  /** A second `put` on the same key replaces the value without adding a node. */
  lemma PutOverwrite<V>(t: Tree<V>, k: int, v1: V, v2: V)
    requires IsBst(t)
    ensures Size(Put(Put(t, k, v1), k, v2)) == Size(Put(t, k, v1))
    ensures RootLookup(Splay(Put(Put(t, k, v1), k, v2), k), k) == Ok(Some(v2))
  {
    PutSpec(t, k, v1);
    PutSize(Put(t, k, v1), k, v2);
    PutThenGet(Put(t, k, v1), k, v2);
  }

  // ---------------------------------------------------------------------
  // remove
  // ---------------------------------------------------------------------

  /** The subtree of `t` rooted at the node holding `j`, reached by an
      ordinary descent; `Leaf` when there is none. In a search tree keys
      identify nodes, so this names a node independently of where a splay
      has moved it. */
  function SubtreeAt<V>(t: Tree<V>, j: int): Tree<V>
  {
    match t
    case Leaf => Leaf
    case Node(k, _, l, r) =>
      if j < k then SubtreeAt(l, j) else if k < j then SubtreeAt(r, j) else t
  }

  lemma {:induction false} SubtreeAtSpec<V>(t: Tree<V>, j: int)
    requires IsBst(t)
    ensures IsBst(SubtreeAt(t, j))
    ensures SubMap(Contents(SubtreeAt(t, j)), Contents(t))
    ensures KeySet(SubtreeAt(t, j)) <= KeySet(t)
    ensures j in KeySet(t) ==> SubtreeAt(t, j).Node? && SubtreeAt(t, j).key == j
    ensures t.Node? && j != t.key ==> t.key !in KeySet(SubtreeAt(t, j))
  {
    match t
    case Leaf =>
    case Node(k, _, l, r) =>
      BstContents(t);
      if j < k {
        SubtreeAtSpec(l, j);
        if j in KeySet(t) {
          assert j !in Keys(r);
          assert j in KeySet(l);
        }
      } else if k < j {
        SubtreeAtSpec(r, j);
        if j in KeySet(t) {
          assert j !in Keys(l);
          assert j in KeySet(r);
        }
      }
  }

  /** `remove(k)` as written: nothing on an empty tree; splay on `k`; if the
      root holds `k`, either replace the root by its right subtree (no left
      child) or splay the left subtree `L` again on `k` and give `L`'s
      former root the old right subtree as right child. The result of that
      second splay is not kept: the tree from then on is whatever hangs
      below `L`'s former root after the splay moved it. */
  function Remove<V>(t: Tree<V>, k: int): Tree<V>
    requires IsBst(t)
  {
    if t.Leaf? then Leaf
    else
      var s := Splay(t, k);
      if k != s.key then s
      else if s.left.Leaf? then s.right
      else
        var x := s.right;
        var l := s.left;
        var n := SubtreeAt(Splay(l, k), l.key);
        SplayPreservesViews(t, k);
        SplayPreservesViews(l, k);
        SubtreeAtSpec(Splay(l, k), l.key);
        n.(right := x)
  }

  /** Removing from an empty tree does nothing; removing an absent key only
      splays, so it leaves the map unchanged. */
  lemma RemoveAbsent<V>(t: Tree<V>, k: int)
    requires IsBst(t) && k !in KeySet(t)
    ensures Remove(t, k) == Splay(t, k)
    ensures Contents(Remove(t, k)) == Contents(t)
  {
    if t.Node? {
      SplayRoot(t, k);
    }
    SplayPreservesViews(t, k);
  }

  /** The key `k` that the second splay of `remove` uses is larger than every
      key of the left subtree `l`: the splay then stops at once when the
      root of `l` has no right child, and otherwise lifts a larger key above
      that root. */
  lemma SecondSplay<V>(l: Tree<V>, k: int)
    requires l.Node? && IsBst(l) && forall j :: j in Keys(l) ==> j < k
    ensures l.right.Leaf? ==> Splay(l, k) == l
    ensures l.right.Node? ==> l.key < Splay(l, k).key
    ensures Splay(l, k).right.Leaf?
  {
    var m := Splay(l, k);
    assert l.key in Keys(l);
    SplayRoot(l, k);
    SplayPreservesViews(l, k);
    if l.right.Node? {
      LastOnPathInTree(l.right, k);
      assert LastOnPath(l.right, k) in Keys(l.right);
    }
    assert m.key in Keys(l);
    assert m.key < k;
    // m.key is the largest key, hence the last of the in-order keys of m
    var ks := Keys(m);
    BstIffIncreasing(m);
    SizeIsKeyCount(m.right);
    assert ks[|ks| - 1] in KeySet(l);
    assert ks[|Keys(m.left)|] == m.key;
    assert |Keys(m.right)| == 0;
  }

  /** `remove` keeps search-tree order and never invents entries: the result
      holds a part of the old map without `k`. */
  lemma RemoveSound<V>(t: Tree<V>, k: int)
    requires IsBst(t)
    ensures IsBst(Remove(t, k))
    ensures k !in KeySet(Remove(t, k))
    ensures SubMap(Contents(Remove(t, k)), Contents(t))
    ensures KeySet(Remove(t, k)) <= KeySet(t) - {k}
  {
    var r := Remove(t, k);
    if t.Leaf? {
    } else {
      var s := Splay(t, k);
      SplayRoot(t, k);
      SplayPreservesViews(t, k);
      BstContents(s);
      if k != s.key {
      } else if s.left.Leaf? {
        ContentsKeys(s.right);
        ContentsKeys(s);
      } else {
        var x := s.right;
        var l := s.left;
        var m := Splay(l, k);
        var n := SubtreeAt(m, l.key);
        SplayPreservesViews(l, k);
        SubtreeAtSpec(m, l.key);
        BstContents(n);
        assert r == Node(n.key, n.value, n.left, x);
        forall j | j in Keys(n) ensures j < k {
          assert j in KeySet(m);
          assert j in Keys(l);
        }
        assert n.key in Keys(n);
        assert IsBst(r);
        ContentsNode(n.key, n.value, n.left, x);
        ContentsNode(n.key, n.value, n.left, n.right);
        ContentsKeys(n.left);
        ContentsKeys(x);
        ContentsKeys(l);
        ContentsKeys(r);
        forall j | j in Contents(r) ensures j in Contents(t) && Contents(r)[j] == Contents(t)[j] {
          if j in Contents(x) {
          } else if j == n.key {
          } else {
            assert j in Contents(n.left);
            assert j in Contents(n);
          }
        }
        ContentsKeys(t);
      }
    }
  }

  /** Removing a middle entry from a map built left to right. */
  lemma MapRemoveMiddle<V>(a: map<int, V>, x: map<int, V>, k: int, v: V)
    requires k !in a && k !in x
    ensures (a[k := v] + x) - {k} == a + x
  {
  }

  /** `remove` as its deletion comment describes it: the result of the
      second splay, which holds the predecessor of `k` at its root, becomes
      the new root, and the old right subtree is made its right child. */
  function RemoveIntended<V>(t: Tree<V>, k: int): Tree<V>
  {
    if t.Leaf? then Leaf
    else
      var s := Splay(t, k);
      if k != s.key then s
      else if s.left.Leaf? then s.right
      else
        var m := Splay(s.left, k);
        Node(m.key, m.value, m.left, s.right)
  }

  /** The intended deletion removes exactly `k`: search-tree order holds and
      the map loses the entry for `k` and nothing else. */
  lemma RemoveIntendedSpec<V>(t: Tree<V>, k: int)
    requires IsBst(t)
    ensures IsBst(RemoveIntended(t, k))
    ensures Contents(RemoveIntended(t, k)) == Contents(t) - {k}
    ensures KeySet(RemoveIntended(t, k)) == KeySet(t) - {k}
    ensures Size(RemoveIntended(t, k)) == if k in KeySet(t) then Size(t) - 1 else Size(t)
  {
    var ri := RemoveIntended(t, k);
    ContentsKeys(t);
    ContentsKeys(ri);
    if t.Node? {
      var s := Splay(t, k);
      SplayRoot(t, k);
      SplayPreservesViews(t, k);
      if k != s.key {
        assert ri == s;
      } else if s.left.Leaf? {
        assert ri == s.right;
        ContentsNode(s.key, s.value, s.left, s.right);
        ContentsKeys(s.right);
        assert Contents(s.left) == map[];
        MapRemoveMiddle(Contents(s.left), Contents(s.right), k, s.value);
      } else {
        var m := Splay(s.left, k);
        assert ri == Node(m.key, m.value, m.left, s.right);
        forall j | j in Keys(s.left) ensures j < k {
        }
        SecondSplay(s.left, k);
        JoinWithPredecessor(k, s.value, s.left, s.right, m);
      }
    }
  }

  /** The two-child case of the intended deletion: in the search tree
      `Node(k, v, l, x)`, replacing the root by a rearrangement `m` of `l`
      whose root has no right child, and hanging `x` there, deletes `k`. */
  lemma JoinWithPredecessor<V>(k: int, v: V, l: Tree<V>, x: Tree<V>, m: Tree<V>)
    requires IsBst(Node(k, v, l, x))
    requires m.Node? && m.right.Leaf? && Entries(m) == Entries(l)
    ensures IsBst(Node(m.key, m.value, m.left, x))
    ensures Contents(Node(m.key, m.value, m.left, x)) == Contents(Node(k, v, l, x)) - {k}
    ensures Size(Node(m.key, m.value, m.left, x)) == Size(Node(k, v, l, x)) - 1
  {
    var ri := Node(m.key, m.value, m.left, x);
    SameEntries(m, l);
    assert m.key in Keys(m) && m.key in KeySet(l);
    assert IsBst(ri);
    ContentsKeys(l);
    ContentsKeys(x);
    assert k !in KeySet(l) && k !in KeySet(x);
    SameContentsJoin(k, v, l, x, m);
  }

  lemma SameContentsJoin<V>(k: int, v: V, l: Tree<V>, x: Tree<V>, m: Tree<V>)
    requires k !in Contents(l) && k !in Contents(x)
    requires m.Node? && m.right.Leaf? && Contents(m) == Contents(l)
    ensures Contents(Node(m.key, m.value, m.left, x)) == Contents(Node(k, v, l, x)) - {k}
  {
    calc {
      Contents(Node(m.key, m.value, m.left, x));
    ==  { ContentsNode(m.key, m.value, m.left, x); }
      Contents(m.left)[m.key := m.value] + Contents(x);
    ==  { ContentsNode(m.key, m.value, m.left, m.right); assert Contents(m.right) == map[]; }
      Contents(m) + Contents(x);
    ==
      Contents(l) + Contents(x);
    ==  { MapRemoveMiddle(Contents(l), Contents(x), k, v); }
      (Contents(l)[k := v] + Contents(x)) - {k};
    ==  { ContentsNode(k, v, l, x); }
      Contents(Node(k, v, l, x)) - {k};
    }
  }

  /** When the left child of the splayed root has a right child, the second
      splay lifts the predecessor of `k`: a key of the tree below `k` that
      every other key below `k` is at most. */
  lemma LiftedPredecessor<V>(t: Tree<V>, k: int)
    requires IsBst(t) && k in KeySet(t)
    requires Splay(t, k).left.Node? && Splay(t, k).left.right.Node?
    ensures Splay(Splay(t, k).left, k).key in KeySet(t) - {k}
    ensures Splay(Splay(t, k).left, k).key < k
    ensures forall j :: j in KeySet(t) && j < k ==> j <= Splay(Splay(t, k).left, k).key
  {
    var s := Splay(t, k);
    SplayRoot(t, k);
    SplayPreservesViews(t, k);
    var l, x := s.left, s.right;
    forall j | j in Keys(l) ensures j < k {
      assert j in Keys(s);
    }
    var m := Splay(l, k);
    SecondSplay(l, k);
    SplayPreservesViews(l, k);
    assert m.key in Keys(m);
    assert m.key in Keys(l) && m.key < k;
    assert m.key in Keys(s);
    forall j | j in KeySet(t) && j < k ensures j <= m.key {
      assert j in Keys(s);
      assert j !in Keys(x);
      assert j in Keys(l);
      assert Keys(m) == Keys(m.left) + [m.key];
      assert j in Keys(m);
    }
  }

  /** In that case `remove` as written drops the predecessor of `k` together
      with the rest of what the second splay lifted. */
  lemma RemoveLosesPredecessor<V>(t: Tree<V>, k: int)
    requires IsBst(t) && k in KeySet(t)
    requires Splay(t, k).left.Node? && Splay(t, k).left.right.Node?
    ensures Splay(Splay(t, k).left, k).key in KeySet(t) - {k}
    ensures Splay(Splay(t, k).left, k).key < k
    ensures forall j :: j in KeySet(t) && j < k ==> j <= Splay(Splay(t, k).left, k).key
    ensures Splay(Splay(t, k).left, k).key !in KeySet(Remove(t, k))
  {
    LiftedPredecessor(t, k);
    var s := Splay(t, k);
    SplayRoot(t, k);
    SplayPreservesViews(t, k);
    var l, x := s.left, s.right;
    forall j | j in Keys(l) ensures j < k {
      assert j in Keys(s);
    }
    var m := Splay(l, k);
    SecondSplay(l, k);
    SplayPreservesViews(l, k);
    var n := SubtreeAt(m, l.key);
    assert l.key in Keys(l);
    SubtreeAtSpec(m, l.key);
    var r := Remove(t, k);
    assert r == Node(n.key, n.value, n.left, x);
    assert m.key in Keys(m);
    assert m.key !in Keys(x);
    assert m.key !in Keys(n.left) by {
      assert Keys(n) == Keys(n.left) + [n.key] + Keys(n.right);
      assert m.key !in KeySet(n);
    }
  }

  /** `remove` agrees with the intended deletion exactly when it does not
      reach the case `RemoveLosesPredecessor` describes. */
  lemma RemoveMatchesIntended<V>(t: Tree<V>, k: int)
    requires IsBst(t)
    ensures Remove(t, k) == RemoveIntended(t, k) <==>
      !(k in KeySet(t) && Splay(t, k).left.Node? && Splay(t, k).left.right.Node?)
  {
    if t.Node? {
      var s := Splay(t, k);
      SplayRoot(t, k);
      SplayPreservesViews(t, k);
      if k == s.key && s.left.Node? {
        var l := s.left;
        forall j | j in Keys(l) ensures j < k {
          assert j in Keys(s);
        }
        SecondSplay(l, k);
        if l.right.Leaf? {
          assert SubtreeAt(l, l.key) == l;
        } else {
          RemoveLosesPredecessor(t, k);
          RemoveIntendedSpec(t, k);
        }
      }
    }
  }

  /** `remove(k)` of a present key deletes exactly `k` if and only if the
      splayed root has no left child or that left child has no right child;
      otherwise it deletes more. */
  lemma RemoveExactly<V>(t: Tree<V>, k: int)
    requires IsBst(t) && k in KeySet(t)
    ensures KeySet(Remove(t, k)) == KeySet(t) - {k} <==>
      (Splay(t, k).left.Leaf? || Splay(t, k).left.right.Leaf?)
  {
    RemoveMatchesIntended(t, k);
    RemoveIntendedSpec(t, k);
    var s := Splay(t, k);
    if s.left.Node? && s.left.right.Node? {
      RemoveLosesPredecessor(t, k);
    }
  }

  /** In the exact case, the map loses the entry for `k` and nothing else,
      and the size drops by one. */
  lemma RemoveExactContents<V>(t: Tree<V>, k: int)
    requires IsBst(t) && k in KeySet(t)
    requires Splay(t, k).left.Leaf? || Splay(t, k).left.right.Leaf?
    ensures Contents(Remove(t, k)) == Contents(t) - {k}
    ensures Size(Remove(t, k)) == Size(t) - 1
  {
    RemoveMatchesIntended(t, k);
    RemoveIntendedSpec(t, k);
  }

  /** Removing 3 from the tree 3(1(-, 2), -): `remove` as written leaves only
      the node 1 and loses 2, where the intended deletion keeps 2(1, -). */
  lemma RemoveDropsNode()
    ensures IsBst(Node(3, 30, Node(1, 10, Leaf, Node(2, 20, Leaf, Leaf)), Leaf))
    ensures Remove(Node(3, 30, Node(1, 10, Leaf, Node(2, 20, Leaf, Leaf)), Leaf), 3)
      == Node(1, 10, Leaf, Leaf)
    ensures RemoveIntended(Node(3, 30, Node(1, 10, Leaf, Node(2, 20, Leaf, Leaf)), Leaf), 3)
      == Node(2, 20, Node(1, 10, Leaf, Leaf), Leaf)
  {
    var t := Node(3, 30, Node(1, 10, Leaf, Node(2, 20, Leaf, Leaf)), Leaf);
    assert IsBst(t);
    var s := Splay(t, 3);
    assert s == t;
  }

  /** `put(2)` on the search tree 0(-, 5(1(-, 3), -)) gives 2(0(-, 1), 3(-, 5));
      `remove(2)` as written then leaves 0(-, 3(-, 5)), so key 1 is lost and a
      fresh `put` followed by `remove` of the same key does not restore the
      size. The intended deletion restores four nodes. */
  lemma PutRemoveLosesKey()
    ensures var t := Node(0, 0, Leaf, Node(5, 5, Node(1, 1, Leaf, Node(3, 3, Leaf, Leaf)), Leaf));
      IsBst(t) && 2 !in KeySet(t) && 1 in KeySet(t) && Size(t) == 4 &&
      var p := Put(t, 2, 2);
      IsBst(p) && 1 !in KeySet(Remove(p, 2)) && Size(Remove(p, 2)) == 3 &&
      Size(RemoveIntended(p, 2)) == 4
  {
    var t := Node(0, 0, Leaf, Node(5, 5, Node(1, 1, Leaf, Node(3, 3, Leaf, Leaf)), Leaf));
    assert IsBst(t);
    var p := ExamplePut();
    ExampleRemove();
    assert Keys(Remove(p, 2)) == [0, 3, 5];
  }

  /** The insertion step of `PutRemoveLosesKey`. */
  function ExamplePut(): (p: Tree<int>)
    ensures p == Put(Node(0, 0, Leaf, Node(5, 5, Node(1, 1, Leaf, Node(3, 3, Leaf, Leaf)), Leaf)), 2, 2)
    ensures IsBst(p) && Keys(p) == [0, 1, 2, 3, 5]
  {
    var t := Node(0, 0, Leaf, Node(5, 5, Node(1, 1, Leaf, Node(3, 3, Leaf, Leaf)), Leaf));
    var a := Node(1, 1, Leaf, Node(3, 3, Leaf, Leaf));
    assert Splay(a, 2) == Node(3, 3, Node(1, 1, Leaf, Leaf), Leaf);
    assert Splay(t, 2) == Node(3, 3, Node(0, 0, Leaf, Node(1, 1, Leaf, Leaf)), Node(5, 5, Leaf, Leaf));
    Node(2, 2, Node(0, 0, Leaf, Node(1, 1, Leaf, Leaf)), Node(3, 3, Leaf, Node(5, 5, Leaf, Leaf)))
  }

  /** The deletion step of `PutRemoveLosesKey`. */
  lemma ExampleRemove()
    ensures Remove(ExamplePut(), 2) == Node(0, 0, Leaf, Node(3, 3, Leaf, Node(5, 5, Leaf, Leaf)))
    ensures RemoveIntended(ExamplePut(), 2)
      == Node(1, 1, Node(0, 0, Leaf, Leaf), Node(3, 3, Leaf, Node(5, 5, Leaf, Leaf)))
  {
    var p := ExamplePut();
    assert p == Node(2, 2, Node(0, 0, Leaf, Node(1, 1, Leaf, Leaf)), Node(3, 3, Leaf, Node(5, 5, Leaf, Leaf)));
    assert Splay(p, 2) == p;
    var l := Node(0, 0, Leaf, Node(1, 1, Leaf, Leaf));
    assert Splay(l, 2) == Node(1, 1, Node(0, 0, Leaf, Leaf), Leaf);
    assert SubtreeAt(Splay(l, 2), 0) == Node(0, 0, Leaf, Leaf);
  }

  /** With the intended deletion, `remove(k)` right after `put(k, v)` leaves
      the map without `k`; for a key that was new it restores the old map
      and the old size. */
  lemma PutThenRemoveIntended<V>(t: Tree<V>, k: int, v: V)
    requires IsBst(t)
    ensures Contents(RemoveIntended(Put(t, k, v), k)) == Contents(t) - {k}
    ensures k !in KeySet(t) ==> Contents(RemoveIntended(Put(t, k, v), k)) == Contents(t)
    ensures k !in KeySet(t) ==> Size(RemoveIntended(Put(t, k, v), k)) == Size(t)
  {
    PutSpec(t, k, v);
    PutSize(t, k, v);
    RemoveIntendedSpec(Put(t, k, v), k);
    ContentsKeys(t);
    assert Contents(t)[k := v] - {k} == Contents(t) - {k};
    if k !in KeySet(t) {
      assert Contents(t) - {k} == Contents(t);
    }
  }
}
