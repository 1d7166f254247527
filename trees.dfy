/**
 * The node structure of the splay tree and the views the rest of the model
 * is specified against: the in-order entry and key sequences, the key set,
 * the key/value map, binary-search-tree order, size and height.
 */
module Trees {

  /** A node `Node(key, value, left, right)`; a null child link is `Leaf`. */
  datatype Tree<V> = Leaf | Node(key: int, value: V, left: Tree<V>, right: Tree<V>)

  /** The (key, value) pairs of `t` in in-order (left, node, right). */
  function Entries<V>(t: Tree<V>): seq<(int, V)>
  {
    match t
    case Leaf => []
    case Node(k, v, l, r) => Entries(l) + [(k, v)] + Entries(r)
  }

  /** The keys of `t` in in-order. */
  function Keys<V>(t: Tree<V>): seq<int>
  {
    match t
    case Leaf => []
    case Node(k, _, l, r) => Keys(l) + [k] + Keys(r)
  }

  /** The keys of a sequence of entries, in order. */
  function KeysOf<V>(s: seq<(int, V)>): (ks: seq<int>)
    ensures |ks| == |s|
    ensures forall i :: 0 <= i < |s| ==> ks[i] == s[i].0
  {
    if s == [] then [] else KeysOf(s[..|s| - 1]) + [s[|s| - 1].0]
  }

  /** The set of keys stored in `t`. */
  function KeySet<V>(t: Tree<V>): set<int>
  {
    set j | j in Keys(t)
  }

  /** The map a sequence of entries denotes, later entries overriding earlier ones. */
  function MapOf<V>(s: seq<(int, V)>): map<int, V>
  {
    if s == [] then map[] else MapOf(s[..|s| - 1])[s[|s| - 1].0 := s[|s| - 1].1]
  }

  /** The key/value map stored in `t` (for a search tree, every key once). */
  function Contents<V>(t: Tree<V>): map<int, V>
  {
    MapOf(Entries(t))
  }

  /** Strictly increasing integer sequence. */
  predicate Increasing(s: seq<int>)
  {
    forall i, j :: 0 <= i < j < |s| ==> s[i] < s[j]
  }

  /** Binary-search-tree order: every key in a left subtree is smaller, and
      every key in a right subtree larger, than the key of its node. */
  predicate IsBst<V>(t: Tree<V>)
  {
    match t
    case Leaf => true
    case Node(k, _, l, r) =>
      IsBst(l) && IsBst(r) &&
      (forall j :: j in Keys(l) ==> j < k) &&
      (forall j :: j in Keys(r) ==> k < j)
  }

  /** `size(Node x)`: the number of nodes reachable from `t`. */
  function Size<V>(t: Tree<V>): nat
  {
    match t
    case Leaf => 0
    case Node(_, _, l, r) => 1 + Size(l) + Size(r)
  }

  function Max(a: int, b: int): int
  {
    if a < b then b else a
  }

  /** `height(Node x)`: edges on a longest root-to-leaf path; -1 when empty. */
  function Height<V>(t: Tree<V>): int
  {
    match t
    case Leaf => -1
    case Node(_, _, l, r) => 1 + Max(Height(l), Height(r))
  }

  // ---------------------------------------------------------------------
  // How the views relate to one another
  // ---------------------------------------------------------------------

  lemma KeysOfConcat<V>(a: seq<(int, V)>, b: seq<(int, V)>)
    ensures KeysOf(a + b) == KeysOf(a) + KeysOf(b)
  {
  }

  /** The key sequence is the key projection of the entry sequence. */
  lemma {:induction false} KeysAreEntryKeys<V>(t: Tree<V>)
    ensures Keys(t) == KeysOf(Entries(t))
  {
    match t
    case Leaf =>
    case Node(k, v, l, r) =>
      KeysAreEntryKeys(l);
      KeysAreEntryKeys(r);
      KeysOfConcat(Entries(l), [(k, v)]);
      KeysOfConcat(Entries(l) + [(k, v)], Entries(r));
  }

  /** Two trees with the same in-order entries have the same key sequence,
      key set, map, size and search-tree order. */
  lemma SameEntries<V>(a: Tree<V>, b: Tree<V>)
    requires Entries(a) == Entries(b)
    ensures Keys(a) == Keys(b) && KeySet(a) == KeySet(b)
    ensures Contents(a) == Contents(b)
    ensures Size(a) == Size(b)
    ensures IsBst(a) <==> IsBst(b)
  {
    KeysAreEntryKeys(a);
    KeysAreEntryKeys(b);
    SizeIsKeyCount(a);
    SizeIsKeyCount(b);
    BstIffIncreasing(a);
    BstIffIncreasing(b);
  }

  /** `size` counts exactly the stored keys. */
  lemma {:induction false} SizeIsKeyCount<V>(t: Tree<V>)
    ensures Size(t) == |Keys(t)|
  {
    match t
    case Leaf =>
    case Node(_, _, l, r) =>
      SizeIsKeyCount(l);
      SizeIsKeyCount(r);
  }

  lemma {:induction false} MapOfConcat<V>(a: seq<(int, V)>, b: seq<(int, V)>)
    ensures MapOf(a + b) == MapOf(a) + MapOf(b)
    decreases |b|
  {
    if b == [] {
      assert a + b == a;
    } else {
      var b' := b[..|b| - 1];
      var e := b[|b| - 1];
      assert (a + b)[..|a + b| - 1] == a + b';
      MapOfConcat(a, b');
      assert MapOf(a + b) == (MapOf(a) + MapOf(b'))[e.0 := e.1];
    }
  }

  /** The map of a node: the left subtree, then the node, then the right
      subtree, each later one overriding. */
  lemma ContentsNode<V>(k: int, v: V, l: Tree<V>, r: Tree<V>)
    ensures Contents(Node(k, v, l, r)) == Contents(l)[k := v] + Contents(r)
  {
    MapOfConcat(Entries(l) + [(k, v)], Entries(r));
    MapOfConcat(Entries(l), [(k, v)]);
    assert MapOf([(k, v)]) == map[k := v] by {
      assert [(k, v)][..0] == [];
    }
  }

  /** The keys of the map are exactly the stored keys. */
  lemma {:induction false} ContentsKeys<V>(t: Tree<V>)
    ensures Contents(t).Keys == KeySet(t)
  {
    match t
    case Leaf =>
    case Node(k, v, l, r) =>
      ContentsNode(k, v, l, r);
      ContentsKeys(l);
      ContentsKeys(r);
  }

  /** In a search tree, the node's own entry and those of either subtree are
      entries of the whole map. */
  lemma BstContents<V>(t: Tree<V>)
    requires t.Node? && IsBst(t)
    ensures t.key in Contents(t) && Contents(t)[t.key] == t.value
    ensures t.key !in Contents(t.left) && t.key !in Contents(t.right)
    ensures SubMap(Contents(t.left), Contents(t)) && SubMap(Contents(t.right), Contents(t))
  {
    ContentsNode(t.key, t.value, t.left, t.right);
    ContentsKeys(t.left);
    ContentsKeys(t.right);
    var m := Contents(t);
    forall j | j in Contents(t.left) ensures j in m && Contents(t.left)[j] == m[j] {
      assert j in KeySet(t.left) && j in Keys(t.left);
      assert j !in Keys(t.right);
    }
  }

  /** `a` is contained in `b`: every key of `a` is in `b` with the same value. */
  ghost predicate SubMap<V>(a: map<int, V>, b: map<int, V>)
  {
    forall j :: j in a ==> j in b && a[j] == b[j]
  }

  lemma IncreasingSplit(a: seq<int>, k: int, b: seq<int>)
    ensures Increasing(a + [k] + b) <==>
      Increasing(a) && Increasing(b) &&
      (forall j :: j in a ==> j < k) && (forall j :: j in b ==> k < j)
  {
    var s := a + [k] + b;
    assert forall i :: 0 <= i < |a| ==> s[i] == a[i];
    assert s[|a|] == k;
    assert forall i :: 0 <= i < |b| ==> s[|a| + 1 + i] == b[i];
    if Increasing(s) {
      forall i, j | 0 <= i < j < |b| ensures b[i] < b[j] {
        assert s[|a| + 1 + i] < s[|a| + 1 + j];
      }
      forall j | j in b ensures k < j {
        var i :| 0 <= i < |b| && b[i] == j;
        assert s[|a|] < s[|a| + 1 + i];
      }
    }
    if Increasing(a) && Increasing(b) &&
      (forall j :: j in a ==> j < k) && (forall j :: j in b ==> k < j)
    {
      forall i, j | 0 <= i < j < |s| ensures s[i] < s[j] {
        if j < |a| {
          assert s[i] == a[i] && s[j] == a[j];
        } else if j == |a| {
          assert s[i] == a[i] && a[i] in a;
        } else if i < |a| {
          assert s[i] == a[i] && a[i] in a;
          assert s[j] == b[j - |a| - 1] && b[j - |a| - 1] in b;
        } else if i == |a| {
          assert s[j] == b[j - |a| - 1] && b[j - |a| - 1] in b;
        } else {
          assert s[i] == b[i - |a| - 1] && s[j] == b[j - |a| - 1];
        }
      }
    }
  }

  /** Search-tree order is exactly a strictly increasing in-order key sequence. */
  lemma {:induction false} BstIffIncreasing<V>(t: Tree<V>)
    ensures IsBst(t) <==> Increasing(Keys(t))
  {
    match t
    case Leaf =>
    case Node(k, _, l, r) =>
      BstIffIncreasing(l);
      BstIffIncreasing(r);
      IncreasingSplit(Keys(l), k, Keys(r));
  }

  /** In a search tree every node holds a different key, so the number of
      nodes is the number of distinct keys. */
  lemma {:induction false} KeyCount<V>(t: Tree<V>)
    ensures IsBst(t) ==> |KeySet(t)| == Size(t)
  {
    match t
    case Leaf =>
    case Node(k, v, l, r) =>
      KeyCount(l);
      KeyCount(r);
      if IsBst(t) {
        KeySetNode(k, v, l, r);
        SeparatedCard(KeySet(l), k, KeySet(r));
      }
  }

  lemma KeySetNode<V>(k: int, v: V, l: Tree<V>, r: Tree<V>)
    ensures KeySet(Node(k, v, l, r)) == KeySet(l) + {k} + KeySet(r)
    ensures IsBst(Node(k, v, l, r)) ==>
      (forall j :: j in KeySet(l) ==> j < k) && (forall j :: j in KeySet(r) ==> k < j)
  {
  }

  /** Keys below `k`, `k`, and keys above `k` are counted separately. */
  lemma SeparatedCard(a: set<int>, k: int, b: set<int>)
    requires forall j :: j in a ==> j < k
    requires forall j :: j in b ==> k < j
    ensures |a + {k} + b| == |a| + 1 + |b|
  {
    assert k !in a;
    forall j | j in b ensures j !in a + {k} {
      assert k < j;
    }
    assert (a + {k}) !! b;
  }

  /** An empty tree is the only one of height -1 and of size 0; a tree of
      height 0 is a single node; a tree has more nodes than its height. */
  lemma {:induction false} SizeHeight<V>(t: Tree<V>)
    ensures Height(t) >= -1
    ensures Height(t) == -1 <==> Size(t) == 0
    ensures Height(t) == 0 <==> Size(t) == 1
    ensures Size(t) >= Height(t) + 1
  {
    match t
    case Leaf =>
    case Node(_, _, l, r) =>
      SizeHeight(l);
      SizeHeight(r);
  }
}
