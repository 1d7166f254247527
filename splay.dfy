/**
 * The splay primitive of `SplayBST` and its two rotations, as functions from
 * a subtree root to the new subtree root.
 */
module Splaying {
  import opened Trees

  /** `rotateRight(h)`: the left child `x` takes `h`'s place, `x`'s right
      subtree becomes `h`'s left subtree and `h` becomes `x`'s right child. */
  function RotateRight<V>(h: Tree<V>): (x: Tree<V>)
    requires h.Node? && h.left.Node?
    ensures x.Node? && x.key == h.left.key
    ensures Entries(x) == Entries(h)
  {
    Node(h.left.key, h.left.value, h.left.left, Node(h.key, h.value, h.left.right, h.right))
  }

  /** `rotateLeft(h)`: the mirror image of `RotateRight`. */
  function RotateLeft<V>(h: Tree<V>): (x: Tree<V>)
    requires h.Node? && h.right.Node?
    ensures x.Node? && x.key == h.right.key
    ensures Entries(x) == Entries(h)
  {
    Node(h.right.key, h.right.value, Node(h.key, h.value, h.left, h.right.left), h.right.right)
  }

  /** The key of the last node an ordinary binary-search descent for `k`
      visits in the non-empty tree `t`. */
  function LastOnPath<V>(t: Tree<V>, k: int): int
    requires t.Node?
  {
    if k < t.key && t.left.Node? then LastOnPath(t.left, k)
    else if t.key < k && t.right.Node? then LastOnPath(t.right, k)
    else t.key
  }

  /** `splay(h, key)`: recursive top-down splaying. The in-order entries are
      unchanged, an empty tree stays empty, and the new root is the last node
      on the search path for `k` in the old tree. */
  function Splay<V>(h: Tree<V>, k: int): (r: Tree<V>)
    ensures Entries(r) == Entries(h)
    ensures h.Leaf? ==> r.Leaf?
    ensures h.Node? ==> r.Node? && r.key == LastOnPath(h, k)
  {
    match h
    case Leaf => Leaf
    case Node(hk, hv, hl, hr) =>
      if k < hk then
        if hl.Leaf? then h
        else
          var h' :=
            if k < hl.key then
              // zig-zig: splay the left-left grandchild, then rotate h right
              var s := Splay(hl.left, k);
              assert Entries(hl.(left := s)) == Entries(hl);
              RotateRight(Node(hk, hv, hl.(left := s), hr))
            else if hl.key < k then
              // zig-zag: splay the left-right grandchild, then rotate h.left left
              var s := Splay(hl.right, k);
              var l' := hl.(right := s);
              Node(hk, hv, if s.Node? then RotateLeft(l') else l', hr)
            else h;
          if h'.left.Leaf? then h' else RotateRight(h')
      else if hk < k then
        if hr.Leaf? then h
        else
          var h' :=
            if k < hr.key then
              // zag-zig: splay the right-left grandchild, then rotate h.right right
              var s := Splay(hr.left, k);
              var r' := hr.(left := s);
              Node(hk, hv, hl, if s.Node? then RotateRight(r') else r')
            else if hr.key < k then
              // zag-zag: splay the right-right grandchild, then rotate h left
              var s := Splay(hr.right, k);
              assert Entries(hr.(right := s)) == Entries(hr);
              RotateLeft(Node(hk, hv, hl, hr.(right := s)))
            else h;
          if h'.right.Leaf? then h' else RotateLeft(h')
      else h
  }

  /** Splaying preserves the key sequence, the key set, the map, the size and
      search-tree order (in both directions). */
  lemma SplayPreservesViews<V>(t: Tree<V>, k: int)
    ensures Keys(Splay(t, k)) == Keys(t) && KeySet(Splay(t, k)) == KeySet(t)
    ensures Contents(Splay(t, k)) == Contents(t)
    ensures Size(Splay(t, k)) == Size(t)
    ensures IsBst(Splay(t, k)) <==> IsBst(t)
  {
    SameEntries(Splay(t, k), t);
  }

  /** The last node on a search path is a node of the tree. */
  lemma {:induction false} LastOnPathInTree<V>(t: Tree<V>, k: int)
    requires t.Node?
    ensures LastOnPath(t, k) in Keys(t)
  {
    if k < t.key && t.left.Node? {
      LastOnPathInTree(t.left, k);
    } else if t.key < k && t.right.Node? {
      LastOnPathInTree(t.right, k);
    }
  }

  /** In a search tree, the search path for `k` ends at `k` itself when it is
      present, and otherwise at its predecessor (the largest smaller key) or
      its successor (the smallest larger key). */
  lemma {:induction false} LastOnPathIsClosest<V>(t: Tree<V>, k: int)
    requires t.Node? && IsBst(t)
    ensures LastOnPath(t, k) in KeySet(t)
    ensures k in KeySet(t) ==> LastOnPath(t, k) == k
    ensures LastOnPath(t, k) < k ==> forall j :: j in KeySet(t) && j < k ==> j <= LastOnPath(t, k)
    ensures k < LastOnPath(t, k) ==> forall j :: j in KeySet(t) && k < j ==> LastOnPath(t, k) <= j
  {
    LastOnPathInTree(t, k);
    var p := LastOnPath(t, k);
    if k < t.key && t.left.Node? {
      LastOnPathIsClosest(t.left, k);
      LastOnPathInTree(t.left, k);
      assert p in Keys(t.left);
      forall j | j in KeySet(t) && k < j && k < p ensures p <= j {
        if j in Keys(t.left) {
          assert j in KeySet(t.left);
        }
      }
      forall j | j in KeySet(t) && j < k && p < k ensures j <= p {
        assert j in Keys(t.left);
        assert j in KeySet(t.left);
      }
    } else if t.key < k && t.right.Node? {
      LastOnPathIsClosest(t.right, k);
      LastOnPathInTree(t.right, k);
      assert p in Keys(t.right);
      forall j | j in KeySet(t) && j < k && p < k ensures j <= p {
        if j in Keys(t.right) {
          assert j in KeySet(t.right);
        }
      }
      forall j | j in KeySet(t) && k < j && k < p ensures p <= j {
        assert j in Keys(t.right);
        assert j in KeySet(t.right);
      }
    }
  }

  /** After `splay(h, k)` on a non-empty search tree the root holds `k`
      exactly when `k` is present; otherwise it holds `k`'s predecessor or
      successor. */
  lemma SplayRoot<V>(t: Tree<V>, k: int)
    requires t.Node? && IsBst(t)
    ensures Splay(t, k).key == k <==> k in KeySet(t)
    ensures Splay(t, k).key in KeySet(t)
    ensures Splay(t, k).key < k ==> forall j :: j in KeySet(t) && j < k ==> j <= Splay(t, k).key
    ensures k < Splay(t, k).key ==> forall j :: j in KeySet(t) && k < j ==> Splay(t, k).key <= j
  {
    LastOnPathIsClosest(t, k);
  }
}
