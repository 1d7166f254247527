# Splay tree engine

This project models the splay tree `SplayBST<Key, Value>` of
`src/algo_assignment/SplayBST.java`. The table has one `root` field. The
tree below it is made of `Node{key, value, left, right}`. One recursive
top-down primitive, `splay(h, key)`, built from `rotateLeft` and
`rotateRight`, brings the node holding `key` to the root, or the last node
on the search path when `key` is absent. `get` and `contains` always
splay once. `put` and `remove` return early on an empty tree and otherwise
splay once. Only `remove` of a present key whose node has a left child
splays a second time (line 115). After that comes a constant amount of link
surgery. `size` and `height` walk the whole tree.

Files and modules:

- `wrappers.dfy` (`Wrappers`): `Option` (a lookup's `null`) and `Outcome`
  (normal return, or the `NullPointerException` the code can throw).
- `trees.dfy` (`Trees`): the node datatype `Tree` and the views everything
  is specified against. These are the in-order `Entries` and `Keys`,
  `KeySet`, the key/value map `Contents`, search-tree order `IsBst`, and
  `Size` and `Height`. It also proves how these views relate.
- `splay.dfy` (`Splaying`): `RotateRight`, `RotateLeft` and `Splay`,
  written branch by branch after the Java code. `LastOnPath` is an
  independent reference: the last node a plain binary-search descent
  visits.
- `operations.dfy` (`Operations`): the surgery of `get`, `put` and
  `remove` as functions from the old root to the new one, with their
  lemmas. It also holds the corrected deletion described under Findings.
- `engine.dfy` (`Engine`): the class `SplayBST` with its `root` field. Its
  methods reassign `root` just as the Java methods do, `get` and
  `contains` included. There is also a worked example on a fresh table.

Where the code and its own comments disagree, the model follows the code:

- The comment at line 44 promises `null` when there is no value for the
  key. On an empty table, though, line 47 reads `root.key` after
  `splay(null)` has returned `null`, so `get` and `contains` throw. The
  model returns `Outcome.NullPointerException` in that case.
- Lines 99-100 say that the old root's right child becomes the right child
  of the new root, the node the second splay brings up. In the two-child
  case, `remove` instead discards the result of that splay (line 115). It
  therefore does not always delete exactly one key (see Findings).
- The comment at lines 94-101 talks about a successor in the right
  subtree. The code in fact splays the left subtree, i.e. it brings up the
  predecessor.

## Model

| member | source | states |
|---|---|---|
| `Splaying.RotateRight` | src/algo_assignment/SplayBST.java:199-204 | the left child ends up as the new root; the in-order entry sequence is unchanged; needs a node with a left child, which `Splay` always supplies (its calls are checked against this precondition) |
| `Splaying.RotateLeft` | src/algo_assignment/SplayBST.java:207-212 | the right child ends up as the new root; the in-order entry sequence is unchanged; needs a node with a right child, which `Splay` always supplies (its calls are checked against this precondition) |
| `Splaying.Splay` | src/algo_assignment/SplayBST.java:130-171 | in-order entries are preserved; an empty tree stays empty and a non-empty one stays non-empty; the new root is the last node of the plain search path for the key (`LastOnPath`) |
| `Splaying.SplayPreservesViews` | src/algo_assignment/SplayBST.java:130-171 | splaying keeps the key sequence, key set, key/value map and size; it keeps search-tree order, in both directions |
| `Splaying.LastOnPathIsClosest` | src/algo_assignment/SplayBST.java:127-129 | in a search tree the last node on the search path for `k` is a node of the tree; it holds `k` when `k` is present, and otherwise holds the predecessor (largest smaller key) or the successor (smallest larger key) of `k` |
| `Splaying.SplayRoot` | src/algo_assignment/SplayBST.java:127-171 | after splaying a non-empty search tree on `k`, the root holds `k` exactly when `k` is present; otherwise the root holds `k`'s predecessor or successor |
| `Operations.GetSpec` | src/algo_assignment/SplayBST.java:45-50 | `get` throws exactly on an empty tree; otherwise it returns the value mapped to `k`, or `null` when `k` is absent |
| `Engine.SplayBST.Get` | src/algo_assignment/SplayBST.java:45-50 | `root` becomes the splayed tree with the same map; the result is the exception exactly on an empty table, otherwise the stored value or `null` |
| `Engine.SplayBST.Contains` | src/algo_assignment/SplayBST.java:39-41 | same splay as `get`; throws exactly on an empty table, otherwise returns true exactly when the key is present |
| `Operations.GetIntendedSpec` | src/algo_assignment/SplayBST.java:43-50 | `get` as line 44 describes it (`GetIntended`) returns the value stored under `k` on every search tree, the empty one included, and `null` exactly when `k` is absent |
| `Operations.PutSpec` | src/algo_assignment/SplayBST.java:55-89 | `put` keeps search-tree order and leaves the key at the root; the map becomes the old map updated at `k` with `v`; the key set becomes the old set plus `k` |
| `Operations.PutSize` | src/algo_assignment/SplayBST.java:55-89 | the size grows by exactly 1 when the key was absent and is unchanged when it was present; for a present key the key sequence is unchanged, so no node is created |
| `Operations.PutThenGet` | src/algo_assignment/SplayBST.java:45-89 | a `get(k)` right after `put(k, v)` returns `v` |
| `Operations.PutOverwrite` | src/algo_assignment/SplayBST.java:84-87 | a second `put` on the same key leaves the size unchanged, and a following `get` returns the second value |
| `Engine.SplayBST.Put` | src/algo_assignment/SplayBST.java:55-89 | `root` is reassigned to the tree after `put`: it is a search tree with `key` at the root, the map is updated at `key`, the key set gains `key`, and the size grows by one exactly when `key` was new |
| `Operations.RemoveAbsent` | src/algo_assignment/SplayBST.java:102-121 | removing an absent key (in particular on an empty tree) only splays, so the map is unchanged |
| `Operations.SecondSplay` | src/algo_assignment/SplayBST.java:115 | splaying the left subtree on the deleted key, which is larger than all its keys, stops at once when its root has no right child; otherwise it lifts a larger key above that root; the new root never has a right child |
| `Operations.SubtreeAtSpec` | src/algo_assignment/SplayBST.java:114-116 | the subtree addressed by a key is a search tree whose map is contained in the whole map; it is rooted at that key when the key is present, and it does not contain the root when the key differs from the root's key |
| `Operations.RemoveSound` | src/algo_assignment/SplayBST.java:102-121 | `remove` keeps search-tree order; `k` is absent afterwards; the result's map is contained in the old map, so its key set is a subset of the old keys minus `k` |
| `Operations.RemoveExactly` | src/algo_assignment/SplayBST.java:109-117 | for a present key, exactly `k` is deleted (key set = old minus `k`) if and only if the splayed root has no left child or that left child has no right child |
| `Operations.RemoveExactContents` | src/algo_assignment/SplayBST.java:109-117 | in that exact case the map loses the entry for `k` and nothing else, and the size drops by 1 |
| `Operations.LiftedPredecessor` | src/algo_assignment/SplayBST.java:113-115 | when the left child of the splayed root has a right child, the second splay lifts a key of the tree below `k` that every key below `k` is at most: `k`'s predecessor |
| `Operations.RemoveLosesPredecessor` | src/algo_assignment/SplayBST.java:113-116 | when that left child does have a right child, the key the second splay lifts is a key of the tree below `k`, and every key below `k` is at most it, so it is `k`'s predecessor; it is missing from the result |
| `Operations.RemoveIntendedSpec` | src/algo_assignment/SplayBST.java:94-101 | the intended deletion keeps search-tree order; the map loses exactly the entry for `k`; the size drops by one exactly when `k` was present |
| `Operations.RemoveMatchesIntended` | src/algo_assignment/SplayBST.java:102-121 | `remove` as written equals the intended deletion if and only if it is not in the predecessor-losing case |
| `Operations.RemoveDropsNode` | src/algo_assignment/SplayBST.java:113-116 | on the tree 3(1(-, 2), -), `remove(3)` leaves the single node 1, while the intended deletion leaves 2(1, -) |
| `Operations.PutRemoveLosesKey` | src/algo_assignment/SplayBST.java:55-121 | on the search tree 0(-, 5(1(-, 3), -)), `put(2)` followed by `remove(2)` leaves 3 nodes instead of the original 4 and loses key 1, while the intended deletion restores 4 nodes |
| `Operations.ExamplePut` | src/algo_assignment/SplayBST.java:55-89 | `put(2)` on 0(-, 5(1(-, 3), -)) yields a search tree with keys 0, 1, 2, 3, 5 |
| `Operations.ExampleRemove` | src/algo_assignment/SplayBST.java:102-121 | `remove(2)` on that tree leaves 0(-, 3(-, 5)); the intended deletion leaves 1(0, 3(-, 5)) |
| `Operations.PutThenRemoveIntended` | src/algo_assignment/SplayBST.java:55-101 | with the intended deletion, `remove(k)` right after `put(k, v)` leaves the old map without `k`; for a new key it restores the old map and the old size |
| `Engine.SplayBST.Remove` | src/algo_assignment/SplayBST.java:102-121 | `root` is reassigned to the tree after `remove`: it is a search tree without `key` whose map is contained in the old one; the map is unchanged when the key was absent; for a present key exactly it is deleted if and only if the condition of `RemoveExactly` holds |
| `Trees.SizeIsKeyCount` | src/algo_assignment/SplayBST.java:193-196 | the recursive node count equals the number of stored keys |
| `Trees.KeyCount` | src/algo_assignment/SplayBST.java:193-196 | in a search tree the node count equals the number of distinct keys |
| `Trees.SizeHeight` | src/algo_assignment/SplayBST.java:183-196 | the height is at least -1; the height is -1 iff the size is 0; the height is 0 iff the size is 1; size >= height + 1 |
| `Engine.SplayBST.Size` | src/algo_assignment/SplayBST.java:189-191 | `size()` is the number of keys stored; on a valid table that is the number of distinct keys |
| `Engine.SplayBST.Height` | src/algo_assignment/SplayBST.java:179-181 | `height()` is at least -1, is -1 exactly for the empty table, and is below the number of keys |
| `Engine.SplayBST.constructor` | src/algo_assignment/SplayBST.java:23-25 | a new table is empty (a `null` root, which is a search tree) |
| `Engine.ScenarioOutcome` | src/algo_assignment/SplayBST.java:39-121 | inserting 5, 3, 8, 1, 4 gives size 5; `get(4)` returns its value and leaves 4 at the root; after `remove(3)`, `contains(3)` is false and the size is 4; `remove(99)` leaves the size at 4 |

## Findings

| source | as written | input that shows it | evidently intended | confidence | as-written member | corrected member |
|---|---|---|---|---|---|---|
| src/algo_assignment/SplayBST.java:113-116 | `splay(root, key);` discards the new root of the left subtree; `root` keeps pointing at the old left child, and line 116 overwrites that node's right link | `remove(3)` on the tree 3(1(-, 2), -): the result is the single node 1, and key 2 is lost | `root = splay(root, key); root.right = x;`, which makes the old right subtree the right child of the new root, as lines 99-100 describe | not executed | `Operations.Remove` (exhibited by `Operations.RemoveDropsNode` and `Operations.RemoveLosesPredecessor`) | `Operations.RemoveIntended` (proved by `Operations.RemoveIntendedSpec`) |
| src/algo_assignment/SplayBST.java:113-116 | the same discarded splay result, reached through `put`: `put` leaves its key at the root, and the root's left child can still have a right child | `put(2)` then `remove(2)` on the search tree 0(-, 5(1(-, 3), -)): `put` gives 2(0(-, 1), 3(-, 5)), `remove` gives 0(-, 3(-, 5)), 3 nodes instead of 4, and key 1 is lost | lines 94-96 describe a Hibbard deletion of the root node alone, so `remove(k)` right after `put(k, v)` of a new key restores the old map and size | not executed | `Operations.Remove` (exhibited by `Operations.PutRemoveLosesKey`) | `Operations.RemoveIntended` (proved by `Operations.PutThenRemoveIntended`) |
| src/algo_assignment/SplayBST.java:44-47 | line 47 reads `root.key` right after `splay(root, key)`, which returns `null` on an empty tree | `get(1)` or `contains(1)` on a new, empty table throws `NullPointerException` | `null` (and `false` for `contains`), as the comment at line 44 promises when there is no value | not executed | `Operations.RootLookup` after `Splaying.Splay` (exhibited by `Operations.GetSpec`: the exception occurs exactly on an empty tree) | `Operations.GetIntended` (proved by `Operations.GetIntendedSpec`) |

The class `Engine.SplayBST` keeps the behaviour of the code: its `Get` can
throw, and its `Remove` uses `Operations.Remove`. `Operations.RemoveMatchesIntended` states exactly
when the two definitions agree.

## Left out

- `main` (lines 215-284): reading files, parsing, timing and printing. It
  is a driver that only calls `put`, `contains` and `remove`.
- Keys are `int` rather than any `Comparable` type; `compareTo` is the
  integer order. Values are an arbitrary type `V`. Null values are not
  modelled: in the code, a key stored with a `null` value makes `contains`
  report false (line 40).
- In-place mutation and aliasing: nodes are values, and each Java
  assignment to a link is a new node value. `remove`'s reference to the
  old left child after the second splay is modelled by finding that node
  by its key (`Operations.SubtreeAt`). In a search tree keys identify
  nodes, so this is exact.
- Operations.Remove: requires a search tree. That is the class invariant,
  and it is what lets the model recognise the old left child by its key.
- `size()` and `height()` return Java `int`. The model uses unbounded
  integers and does not model overflow beyond 2^31 - 1 nodes.
- The amortized logarithmic cost of splaying and the depth of recursion
  are not modelled. Only termination is proved.
- Concurrent use is not modelled.
