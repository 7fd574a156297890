# Binomial heap (pointer-based) in Dafny

This project models the binomial min-heap of `main.cpp`. Nodes are
records with a key, a degree and three links: the leftmost child, the
right sibling and the parent. A heap is the head of its root list, which
is a sibling chain of binomial trees.

The model has four layers:

- `Nodes` (nodes.dfy) holds the node record as a class, its allocator, and
  the 32-bit `int` key type with `INT_MAX`.
- `BinomialTrees` (trees.dfy) holds trees as values (`Tree(root, key,
  children)`). It defines binomial shape, heap order, keys, sizes, the
  level-order key sequence, and linking (`Link`, `Combine`) with its
  lemmas.
- `RootLists` (rootlists.dfy) holds root lists as values. It has the
  minimum scan (`MinIndex`) and merge by degree (`MergeByDegree`). It also
  has the union loop (`Scan`, `UnionRoots`), written step for step as the
  source's loop, with its correctness lemmas: keys and nodes kept, and the
  result a binomial heap.
- `Representation` (representation.dfy) holds `ChainRep`. This predicate
  says that the node graph starting at a pointer represents a sequence of
  trees: keys, degrees, parent, sibling and child links.
- `BinomialHeap` (heap.dfy) holds the heap operations as imperative
  methods on the nodes. Each method is proved to leave a node graph that
  represents the value-level result.

Union's loop is proved one step at a time. Each iteration takes one of
three paths:

- the window moves on (cases 1 and 2);
- next is linked under x (case 3);
- x is linked under next, and either the head or `prev_x` is redirected
  (case 4).

Each path preserves "the value-level `Scan` from here equals the `Scan`
of the merged list".

`binomial_heap_minimum` starts from `INT_MAX` and takes a root only when
its key is strictly smaller. It therefore returns the first root with the
least key. It returns null for an empty heap, and also for a nonempty heap
whose every key is `INT_MAX` (see `MinIndex` and `MinimumIsLeast`).

`binomial_heap_merge` has an empty body in the source. Its result is
undefined, and `binomial_heap_union` depends on it. The model gives it the
behaviour the union loop requires: the two root lists are spliced in
nondecreasing degree order, and on equal degrees the root from the first
heap goes first. Only `sibling` links are changed.

## Model

| member | source | states |
|---|---|---|
| Nodes.Node.constructor | main.cpp:16-23 | a new node holds the given key, has degree 0 and null child, sibling and parent |
| BinomialHeap.Heap.constructor | main.cpp:42-46 | a new heap has an empty root list (null head) |
| BinomialHeap.Minimum | main.cpp:49-61 | returns the root chosen by `MinIndex` over the root list: the first root with the least key, or null when there is none with a key below INT_MAX |
| RootLists.MinIndex | main.cpp:49-61 | the scan's choice after k roots: -1 exactly when all those keys are INT_MAX; otherwise a root whose key is at most every key and strictly below every earlier key |
| RootLists.MinimumIsLeast | main.cpp:48-61 | when every tree is heap-ordered, the chosen root holds the least key in the whole heap; nothing is chosen exactly when every key in the heap is INT_MAX |
| BinomialTrees.LeastRootIsLeastKey | main.cpp:48-61 | a root whose key is least among the roots holds the least key of the forest |
| BinomialHeap.BinomialLink | main.cpp:66-71 | y's parent becomes z, y's sibling becomes z's old child, z's child becomes y and z's degree grows by one; the other fields of y and z are unchanged |
| BinomialTrees.LinkContents | main.cpp:63-71 | linking keeps the keys and nodes of both trees and adds their sizes |
| BinomialTrees.Link | main.cpp:66-71 | `binomial_link(y, z)` on values: the result is z's root and key, one degree higher, with y as its leftmost child in front of z's old children |
| BinomialTrees.LinkTree | main.cpp:63-71 | linking two heap-ordered binomial trees of degree k under the smaller key gives a heap-ordered binomial tree of degree k+1 with 2^(k+1) nodes |
| BinomialTrees.CombineTree | main.cpp:95-107 | the collision rule gives a heap-ordered binomial tree one degree higher; its root is x's on a tie or when x's key is smaller, otherwise next's |
| BinomialTrees.CombineContents | main.cpp:95-107 | the collision rule keeps the keys and nodes of both trees |
| BinomialTrees.Combine | main.cpp:95-107 | the collision rule on values: the result keeps the smaller of the two keys (x's on a tie) and is one degree above the tree it is rooted at |
| BinomialTrees.BinomialSize | main.cpp:63-71 | a binomial tree of degree k has 2^k nodes |
| BinomialTrees.PreorderKeys | main.cpp:26-34 | the traversal order on values: a node's key, then its children's keys, then its siblings'; a nonempty forest starts with the first root's key |
| BinomialHeap.Merge | main.cpp:73-76 | the head of a root list that represents the degree-ordered merge of the two lists; it holds the roots of both and uses no node twice |
| BinomialHeap.MergeChains | main.cpp:73-76 | splicing two root chains represents `MergeByDegree` of their tree lists |
| BinomialHeap.TakeFromFirst | main.cpp:73-76 | taking the first heap's root when its degree is not larger: that root followed by the merge of the rest |
| BinomialHeap.TakeFromSecond | main.cpp:73-76 | taking the second heap's root when its degree is smaller: that root followed by the merge of the rest |
| BinomialHeap.Relink | main.cpp:73-76 | the sibling write of the merge: a root followed by the merged rest represents that root's tree in front of the rest |
| RootLists.MergeByDegree | main.cpp:73-76 | the merge on values, standing in for the empty source body: as many trees as both lists, starting with the first list's root unless the second's has smaller degree |
| RootLists.MergeTrees | main.cpp:73-76 | the merge is a permutation of the two lists' trees |
| RootLists.MergeKeys | main.cpp:73-76 | the merge keeps the keys of both lists |
| RootLists.MergeSorted | main.cpp:73-76 | merging two lists of strictly increasing degrees (the root lists of binomial heaps) gives a list of nondecreasing degrees |
| RootLists.MergeShape | main.cpp:73-76 | merging two binomial heaps gives nondecreasing degrees, with no degree three times, which is what the union loop relies on |
| BinomialHeap.Union | main.cpp:79-113 | returns a new heap whose root list represents `UnionRoots` of the two lists; its head is null exactly when both heaps are empty |
| BinomialHeap.MergedHeap | main.cpp:80-81 | a fresh heap whose root list is the merge of the two, holding the roots of both with no node twice |
| RootLists.UnionEmpty | main.cpp:81-83 | the union is empty exactly when both heaps are |
| RootLists.UnionRoots | main.cpp:79-113 | the union on values: the loop run over the merged list; it has at most as many roots as the two lists together |
| BinomialHeap.ResolvePass | main.cpp:84-112 | the loop leaves a root list that represents `Scan` of the merged list |
| RootLists.Scan | main.cpp:84-112 | the loop on values, one iteration per call: the roots before the window are never changed, and the list never grows nor becomes empty |
| BinomialHeap.UnionStep | main.cpp:88-110 | one iteration keeps the loop invariant and the pending `Scan`, and the window moves on or the list gets shorter |
| BinomialHeap.WindowMoves | main.cpp:89-90 | the source's test for cases 1 and 2 is exactly `Advances`: the degrees differ, or the root after next has x's degree |
| RootLists.Advances | main.cpp:89-90 | the window test on values; when it fails, x and next have the same degree, so only equal degrees are linked |
| BinomialHeap.LinkStep | main.cpp:94-109 | the list now represents the one with x and next replaced by their combination; the returned node is the combination's root, which is the new x |
| RootLists.Collapse | main.cpp:94-109 | one linking step on values: the trees at positions i and i+1 are replaced by their combination, and everything before and after is unchanged |
| BinomialHeap.LinkNextUnderX | main.cpp:95-98 | case 3 on the two trees: x skips next, and next becomes x's child |
| BinomialHeap.Case3 | main.cpp:95-98 | case 3 on the whole list: the list represents the collapsed list, rooted at x |
| BinomialHeap.LinkXUnderNext | main.cpp:99-107 | case 4 on the two trees: x becomes next's child |
| BinomialHeap.Case4AtHead | main.cpp:99-102 | case 4 when x is the head: the head moves to next, and the list represents the collapsed list |
| BinomialHeap.Case4After | main.cpp:99-107 | case 4 otherwise: prev_x points to next, and the list represents the collapsed list |
| BinomialHeap.BypassAtHead | main.cpp:100-102 | moving the head to next leaves every tree of the list as it was |
| BinomialHeap.BypassAfter | main.cpp:103-105 | pointing prev_x at next leaves the segment before x and the chain from x on as they were |
| BinomialHeap.Repoint | main.cpp:104 | the segment before x now ends in a link to next |
| BinomialHeap.SetSibling | main.cpp:104 | the last root before x now hangs before next, and its tree is unchanged |
| BinomialHeap.CollapseUnderNext | main.cpp:106-107 | once x is bypassed, linking x under next leaves a list that represents the collapsed list |
| RootLists.ScanContents | main.cpp:84-112 | the loop keeps every key and every node |
| RootLists.ScanShape | main.cpp:84-112 | from any window meeting the loop's degree invariant (which the merged list does at the start), the loop leaves strictly increasing degrees and heap-ordered binomial trees |
| RootLists.UnionContents | main.cpp:79-113 | the union holds exactly the keys and the nodes of both heaps, and their total size |
| RootLists.UnionShape | main.cpp:79-113 | the union of two binomial heaps is a binomial heap |
| BinomialHeap.Insert | main.cpp:116-124 | the result represents the union with the one-node heap of x; it holds the old keys plus x's key and the old nodes plus x, uses no node twice, and is a binomial heap when the input was |
| BinomialHeap.UniteSingleton | main.cpp:117-123 | a fresh heap whose root list represents the union of the old list with the one-node list of x |
| BinomialHeap.Singleton | main.cpp:117-122 | x is reset to a lone root of degree 0 with null links, and is the only root of a new heap |
| RootLists.InsertCorrect | main.cpp:116-124 | inserting into a binomial heap gives a binomial heap |
| RootLists.InsertContents | main.cpp:116-124 | insertion adds exactly the new key and one node |
| RootLists.InsertDistinct | main.cpp:116-124 | inserting a node not yet in the heap uses no node twice |
| BinomialHeap.LevelOrder | main.cpp:26-34 | returns the keys in the order the traversal prints them: a node, then its children's subtree, then its siblings |
| BinomialTrees.PreorderListsKeys | main.cpp:26-34 | the traversal lists every key of the heap once and as many keys as there are nodes |

## Left out

- `main` and the printing are left out. `level_order` returns its key
  sequence instead of calling `printf`.
- `malloc` is modelled by `new`. The source never frees the merged-away
  heap records, and the model does not track them.
- `binomial_heap_merge` has an empty body, so its result is undefined. It
  is modelled by the splice the union loop needs, as described above.
- Extract-min, decrease-key, delete and find are not in the source and
  are not modelled.
- The node's `degree` is an unbounded integer. A root of degree k holds
  2^k nodes, so degree is at most log2 of the node count. A 32-bit degree
  would overflow only on a tree of 2^(2^31) nodes, so it never does.
- BinomialLink: requires y != z. The source does not check this, but the
  union loop only links two different roots.
- Union: its `ensures` states only that the result represents
  `UnionRoots`. Keys, nodes and shape of that list are stated in the
  lemmas `UnionContents` and `UnionShape`.
- Union, Merge and Insert: they require the inputs to be node-disjoint,
  well-formed root lists, which is how the source uses them.
