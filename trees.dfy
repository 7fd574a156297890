/** The abstract view of a binomial heap: binomial trees as values, the
    shape and heap-order invariants, and what tree-linking does to them. */
module BinomialTrees {
  import opened Nodes

  /** A tree as the heap holds it: the node at its root, that node's key, and
      its subtrees in child-list order (the leftmost child first). */
  datatype Tree = Tree(root: Node, key: Int32, children: seq<Tree>)

  /** The degree of a tree: the number of children of its root. */
  function Deg(t: Tree): nat
  {
    |t.children|
  }

  function Pow2(k: nat): nat
  {
    if k == 0 then 1 else 2 * Pow2(k - 1)
  }

  /** Number of nodes of a tree and of a forest. */
  function Size(t: Tree): nat
    decreases t
  {
    1 + SizeF(t.children)
  }

  function SizeF(ts: seq<Tree>): nat
    decreases ts
  {
    if ts == [] then 0 else Size(ts[0]) + SizeF(ts[1..])
  }

  /** The keys held by a tree and by a forest. */
  function Keys(t: Tree): multiset<Int32>
    decreases t
  {
    multiset{t.key} + KeysF(t.children)
  }

  function KeysF(ts: seq<Tree>): multiset<Int32>
    decreases ts
  {
    if ts == [] then multiset{} else Keys(ts[0]) + KeysF(ts[1..])
  }

  /** The nodes making up a tree and a forest, with multiplicity, so that
      "no node is used twice" reads as "every multiplicity is at most one". */
  ghost function Members(t: Tree): multiset<Node>
    decreases t
  {
    multiset{t.root} + MembersF(t.children)
  }

  ghost function MembersF(ts: seq<Tree>): multiset<Node>
    decreases ts
  {
    if ts == [] then multiset{} else Members(ts[0]) + MembersF(ts[1..])
  }

  /** Keys in the order `level_order` visits them: a node, then its child
      list, then its siblings. */
  function PreorderKeys(ts: seq<Tree>): (r: seq<Int32>)
    ensures ts != [] ==> r != [] && r[0] == ts[0].key
    decreases ts
  {
    if ts == [] then [] else [ts[0].key] + PreorderKeys(ts[0].children) + PreorderKeys(ts[1..])
  }

  /** Binomial shape: a root of degree k has k children whose degrees, along
      the child list, are k-1, k-2, ..., 0, each itself binomial. */
  ghost predicate Binomial(t: Tree)
    decreases t
  {
    forall j | 0 <= j < |t.children| ::
      Deg(t.children[j]) == Deg(t) - 1 - j && Binomial(t.children[j])
  }

  /** Min-heap order: a node's key is at most each child's key, recursively. */
  ghost predicate HeapOrdered(t: Tree)
    decreases t
  {
    forall j | 0 <= j < |t.children| ::
      t.key <= t.children[j].key && HeapOrdered(t.children[j])
  }

  // ---------------------------------------------------------------------
  // Size and contents

  lemma {:induction false} BinomialSize(t: Tree)
    requires Binomial(t)
    ensures Size(t) == Pow2(Deg(t))
    decreases t
  {
    ChildrenSize(t.children);
  }

  /** A child list of degrees n-1, ..., 0 holds 2^n - 1 nodes. */
  lemma {:induction false} ChildrenSize(cs: seq<Tree>)
    requires forall j | 0 <= j < |cs| :: Deg(cs[j]) == |cs| - 1 - j && Binomial(cs[j])
    ensures SizeF(cs) + 1 == Pow2(|cs|)
    decreases cs
  {
    if cs != [] {
      BinomialSize(cs[0]);
      ChildrenSize(cs[1..]);
    }
  }

  lemma {:induction false} SizeCountsKeys(t: Tree)
    ensures Size(t) == |Keys(t)|
    decreases t
  {
    SizeFCountsKeys(t.children);
  }

  lemma {:induction false} SizeFCountsKeys(ts: seq<Tree>)
    ensures SizeF(ts) == |KeysF(ts)|
    decreases ts
  {
    if ts != [] {
      SizeCountsKeys(ts[0]);
      SizeFCountsKeys(ts[1..]);
    }
  }

  lemma {:induction false} KeysAppend(a: seq<Tree>, b: seq<Tree>)
    ensures KeysF(a + b) == KeysF(a) + KeysF(b)
  {
    if a == [] {
      assert a + b == b;
    } else {
      assert (a + b)[0] == a[0];
      assert (a + b)[1..] == a[1..] + b;
      KeysAppend(a[1..], b);
    }
  }

  lemma {:induction false} MembersAppend(a: seq<Tree>, b: seq<Tree>)
    ensures MembersF(a + b) == MembersF(a) + MembersF(b)
  {
    if a == [] {
      assert a + b == b;
    } else {
      assert (a + b)[0] == a[0];
      assert (a + b)[1..] == a[1..] + b;
      MembersAppend(a[1..], b);
    }
  }

  /** The level-order walk lists every key of the forest exactly once. */
  lemma {:induction false} PreorderListsKeys(ts: seq<Tree>)
    ensures multiset(PreorderKeys(ts)) == KeysF(ts)
    ensures |PreorderKeys(ts)| == SizeF(ts)
    decreases ts
  {
    if ts != [] {
      PreorderListsKeys(ts[0].children);
      PreorderListsKeys(ts[1..]);
    }
  }

  lemma {:induction false} RootKeyIn(ts: seq<Tree>, m: nat)
    requires m < |ts|
    ensures ts[m].key in KeysF(ts)
  {
    if m > 0 {
      RootKeyIn(ts[1..], m - 1);
    }
  }

  // ---------------------------------------------------------------------
  // Heap order

  /** In a heap-ordered tree the root holds the least key. */
  lemma {:induction false} RootIsMinimum(t: Tree)
    requires HeapOrdered(t)
    ensures forall k | k in Keys(t) :: t.key <= k
    decreases t
  {
    ForestBounded(t.children, t.key);
  }

  lemma {:induction false} ForestBounded(ts: seq<Tree>, b: Int32)
    requires forall j | 0 <= j < |ts| :: b <= ts[j].key && HeapOrdered(ts[j])
    ensures forall k | k in KeysF(ts) :: b <= k
    decreases ts
  {
    if ts != [] {
      RootIsMinimum(ts[0]);
      ForestBounded(ts[1..], b);
    }
  }

  /** A root whose key is least among the roots holds the least key of the
      whole forest: the minimum scan need not look below the root list. */
  lemma {:induction false} LeastRootIsLeastKey(ts: seq<Tree>, m: nat)
    requires m < |ts|
    requires forall j | 0 <= j < |ts| :: HeapOrdered(ts[j]) && ts[m].key <= ts[j].key
    ensures ts[m].key in KeysF(ts)
    ensures forall k | k in KeysF(ts) :: ts[m].key <= k
  {
    RootKeyIn(ts, m);
    ForestBounded(ts, ts[m].key);
  }

  // ---------------------------------------------------------------------
  // Linking two trees

  /** `binomial_link(y, z)` on values: y becomes the leftmost child of z. */
  function Link(y: Tree, z: Tree): (r: Tree)
    ensures r.root == z.root && r.key == z.key
    ensures Deg(r) == Deg(z) + 1 && r.children[0] == y && r.children[1..] == z.children
  {
    Tree(z.root, z.key, [y] + z.children)
  }

  lemma {:induction false} LinkContents(y: Tree, z: Tree)
    ensures Keys(Link(y, z)) == Keys(y) + Keys(z)
    ensures Members(Link(y, z)) == Members(y) + Members(z)
    ensures Size(Link(y, z)) == Size(y) + Size(z)
  {
    var cs := [y] + z.children;
    assert cs[0] == y && cs[1..] == z.children;
  }

  /** Linking two binomial trees of degree k under the smaller key yields a
      heap-ordered binomial tree of degree k+1 with 2^(k+1) nodes. */
  lemma {:induction false} LinkTree(y: Tree, z: Tree)
    requires Binomial(y) && Binomial(z) && Deg(y) == Deg(z)
    requires HeapOrdered(y) && HeapOrdered(z) && z.key <= y.key
    ensures Deg(Link(y, z)) == Deg(z) + 1
    ensures Binomial(Link(y, z)) && HeapOrdered(Link(y, z))
    ensures Size(Link(y, z)) == Pow2(Deg(z) + 1)
  {
    var r := Link(y, z);
    forall j | 0 <= j < |r.children|
      ensures Deg(r.children[j]) == Deg(r) - 1 - j && Binomial(r.children[j])
      ensures r.key <= r.children[j].key && HeapOrdered(r.children[j])
    {
      if j > 0 {
        assert r.children[j] == z.children[j - 1];
      }
    }
    BinomialSize(r);
  }

  /** The collision rule of the union pass: the root with the smaller key
      becomes the parent, and on equal keys the first one stays the parent. */
  function Combine(x: Tree, y: Tree): (r: Tree)
    ensures r.key <= x.key && r.key <= y.key && (r.key == x.key || r.key == y.key)
    ensures Deg(r) == 1 + (if x.key <= y.key then Deg(x) else Deg(y))
  {
    if x.key <= y.key then Link(y, x) else Link(x, y)
  }

  lemma {:induction false} CombineTree(x: Tree, y: Tree)
    requires Binomial(x) && Binomial(y) && Deg(x) == Deg(y)
    requires HeapOrdered(x) && HeapOrdered(y)
    ensures Binomial(Combine(x, y)) && HeapOrdered(Combine(x, y))
    ensures Deg(Combine(x, y)) == Deg(x) + 1
    ensures Combine(x, y).key <= x.key && Combine(x, y).key <= y.key
    ensures Combine(x, y).root == (if x.key <= y.key then x.root else y.root)
  {
    if x.key <= y.key {
      LinkTree(y, x);
    } else {
      LinkTree(x, y);
    }
  }

  lemma {:induction false} CombineContents(x: Tree, y: Tree)
    ensures Keys(Combine(x, y)) == Keys(x) + Keys(y)
    ensures Members(Combine(x, y)) == Members(x) + Members(y)
  {
    if x.key <= y.key {
      LinkContents(y, x);
    } else {
      LinkContents(x, y);
    }
  }
}
