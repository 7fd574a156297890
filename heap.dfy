/** The binomial heap operations on the pointer structure: the heap record,
    the minimum scan, tree linking, merge, union and insert. Each operation
    is proved against the value-level functions of RootLists through the
    representation predicate ChainRep. */
module BinomialHeap {
  import opened Nodes
  import opened BinomialTrees
  import opened RootLists
  import opened Representation

  /** `struct heap`: the head of the root list. */
  class Heap {
    var head: Node?

    /** `make_binomial_heap`: an empty heap. */
    constructor ()
      ensures head == null
    {
      head := null;
    }
  }

  /** `binomial_heap_minimum`: scans the root list keeping the first root
      whose key is strictly below every key seen so far, starting from
      INT_MAX. It returns the root MinIndex chooses: the first root with the
      least key, and null for an empty list and also when every root key is
      INT_MAX. */
  method Minimum(h: Heap, ghost ts: seq<Tree>) returns (y: Node?)
    requires ChainRep(h.head, ts, null)
    ensures y == if MinIndex(ts, |ts|) == -1 then null else ts[MinIndex(ts, |ts|)].root
  {
    y := null;
    var x := h.head;
    var minimum := INT_MAX;
    ghost var k := 0;
    ChainRootsLinked(h.head, ts);
    while x != null
      invariant RootsLinked(ts)
      invariant 0 <= k <= |ts| && x == First(ts[k..])
      invariant minimum == Bound(ts, MinIndex(ts, k))
      invariant y == if MinIndex(ts, k) == -1 then null else ts[MinIndex(ts, k)].root
      decreases |ts| - k
    {
      FirstAt(ts, k);
      if x.key < minimum {
        minimum := x.key;
        y := x;
      }
      x := x.sibling;
      k := k + 1;
    }
    FirstAt(ts, k);
  }

  /** `binomial_link(y, z)`: y becomes the leftmost child of z. Exactly four
      fields change. */
  method BinomialLink(y: Node, z: Node)
    requires y != z
    modifies y, z
    ensures y.parent == z && y.sibling == old(z.child)
    ensures z.child == y && z.degree == old(z.degree) + 1
    ensures y.key == old(y.key) && y.degree == old(y.degree) && y.child == old(y.child)
    ensures z.key == old(z.key) && z.sibling == old(z.sibling) && z.parent == old(z.parent)
  {
    y.parent := z;
    y.sibling := z.child;
    z.child := y;
    z.degree := z.degree + 1;
  }

  /** `binomial_heap_merge`. Its body in the source is empty, so its result
      is undefined; this method supplies what the union relies on: the two
      root lists spliced into one in nondecreasing degree order. */
  method Merge(h1: Heap, h2: Heap, ghost A: seq<Tree>, ghost B: seq<Tree>) returns (head: Node?)
    requires ChainRep(h1.head, A, null) && ChainRep(h2.head, B, null)
    requires Distinct(A) && Distinct(B) && MembersF(A) !! MembersF(B)
    modifies Roots(A) + Roots(B)
    ensures ChainRep(head, MergeByDegree(A, B), null)
    ensures Distinct(MergeByDegree(A, B)) && Roots(MergeByDegree(A, B)) == Roots(A) + Roots(B)
  {
    head := MergeChains(h1.head, h2.head, A, B);
    MergeRoots(A, B);
    MergeDistinct(A, B);
  }

  /** Splices the root chains at `a` and `b`, relinking only `sibling`
      fields of their roots. On equal degrees the root from `a` goes first. */
  method MergeChains(a: Node?, b: Node?, ghost A: seq<Tree>, ghost B: seq<Tree>) returns (r: Node?)
    requires ChainRep(a, A, null) && ChainRep(b, B, null)
    requires Distinct(A) && Distinct(B) && MembersF(A) !! MembersF(B)
    modifies Roots(A) + Roots(B)
    ensures ChainRep(r, MergeByDegree(A, B), null)
    decreases |A| + |B|, 1
  {
    if a == null {
      r := b;
    } else if b == null {
      r := a;
    } else if a.degree <= b.degree {
      r := TakeFromFirst(a, b, A, B);
    } else {
      r := TakeFromSecond(a, b, A, B);
    }
  }

  /** The merge step taking the root `a`: the rest is merged, then hung
      after `a`. */
  method TakeFromFirst(a: Node, b: Node, ghost A: seq<Tree>, ghost B: seq<Tree>) returns (r: Node?)
    requires ChainRep(a, A, null) && ChainRep(b, B, null)
    requires Distinct(A) && Distinct(B) && MembersF(A) !! MembersF(B)
    requires a.degree <= b.degree
    modifies Roots(A) + Roots(B)
    ensures A != [] && B != [] && Deg(A[0]) <= Deg(B[0])
    ensures ChainRep(r, [A[0]] + MergeByDegree(A[1..], B), null)
    decreases |A| + |B|, 0
  {
    ChainHead(a, A, null);
    ChainHead(b, B, null);
    SplitHead(A, B);
    MergeMembers(A[1..], B);
    Allocated(A[0].children);
    var rest := MergeChains(a.sibling, b, A[1..], B);
    Relink(a, rest, A[0], MergeByDegree(A[1..], B));
    r := a;
  }

  /** The merge step taking the root `b`. */
  method TakeFromSecond(a: Node, b: Node, ghost A: seq<Tree>, ghost B: seq<Tree>) returns (r: Node?)
    requires ChainRep(a, A, null) && ChainRep(b, B, null)
    requires Distinct(A) && Distinct(B) && MembersF(A) !! MembersF(B)
    requires a.degree > b.degree
    modifies Roots(A) + Roots(B)
    ensures A != [] && B != [] && Deg(A[0]) > Deg(B[0])
    ensures ChainRep(r, [B[0]] + MergeByDegree(A, B[1..]), null)
    decreases |A| + |B|, 0
  {
    ChainHead(a, A, null);
    ChainHead(b, B, null);
    SplitHead(B, A);
    MergeMembers(A, B[1..]);
    Allocated(B[0].children);
    var rest := MergeChains(a, b.sibling, A, B[1..]);
    Relink(b, rest, B[0], MergeByDegree(A, B[1..]));
    r := b;
  }

  /** `binomial_heap_union`: merges the two root lists into a new heap, then
      runs the collision-resolving pass over them. The result represents the
      value-level UnionRoots, which keeps every key (UnionContents) and, for
      binomial heaps, is a binomial heap (UnionShape). */
  method Union(h1: Heap, h2: Heap, ghost A: seq<Tree>, ghost B: seq<Tree>) returns (h: Heap)
    requires ChainRep(h1.head, A, null) && ChainRep(h2.head, B, null)
    requires Distinct(A) && Distinct(B) && MembersF(A) !! MembersF(B)
    modifies Roots(A) + Roots(B)
    ensures fresh(h)
    ensures ChainRep(h.head, UnionRoots(A, B), null)
    ensures h.head == null <==> A == [] && B == []
  {
    UnionEmpty(A, B);
    h := MergedHeap(h1, h2, A, B);
    if h.head != null {
      ResolvePass(h, MergeByDegree(A, B));
    }
  }

  /** The first two steps of `binomial_heap_union`: a new heap whose root
      list is the merge of the two. */
  method MergedHeap(h1: Heap, h2: Heap, ghost A: seq<Tree>, ghost B: seq<Tree>) returns (h: Heap)
    requires ChainRep(h1.head, A, null) && ChainRep(h2.head, B, null)
    requires Distinct(A) && Distinct(B) && MembersF(A) !! MembersF(B)
    modifies Roots(A) + Roots(B)
    ensures fresh(h)
    ensures ChainRep(h.head, MergeByDegree(A, B), null)
    ensures Distinct(MergeByDegree(A, B)) && Roots(MergeByDegree(A, B)) == Roots(A) + Roots(B)
  {
    Allocated(A);
    Allocated(B);
    h := new Heap();
    var head := Merge(h1, h2, A, B);
    Allocated(MergeByDegree(A, B));
    h.head := head;
  }

  /** The loop of `binomial_heap_union` over a nonempty root list, with the
      window prev, x, next. The window moves on when x and next differ in
      degree or three roots of x's degree are in a row (cases 1 and 2);
      otherwise the two roots are linked (cases 3 and 4). It computes the
      value-level Scan of the list. */
  method ResolvePass(h: Heap, ghost ts0: seq<Tree>)
    requires ts0 != [] && ChainRep(h.head, ts0, null) && Distinct(ts0)
    modifies h, Roots(ts0)
    ensures ChainRep(h.head, Scan(ts0, 0), null)
  {
    ghost var ts := ts0;
    var prevX: Node? := null;
    var x := h.head;
    ghost var i: nat := 0;
    ChainAt(h.head, ts, null, 0);
    var nextX := x.sibling;
    while nextX != null
      invariant i < |ts| && ChainRep(h.head, ts, null) && Distinct(ts)
      invariant Roots(ts) <= Roots(ts0)
      invariant x == ts[i].root && nextX == First(ts[i + 1..])
      invariant prevX == if i == 0 then null else ts[i - 1].root
      invariant Scan(ts, i) == Scan(ts0, 0)
      decreases |ts| - i
    {
      FirstAt(ts, i + 1);
      prevX, x, nextX, ts, i := UnionStep(h, prevX, x, nextX, ts, i, Roots(ts0));
    }
    FirstAt(ts, i + 1);
  }

  /** One pass of the union loop's body: either the window moves on (cases 1
      and 2) or x and next are linked (cases 3 and 4); then next is x's new
      sibling. The value-level Scan from the new window is the one from the
      old, and the window moved on or the list got shorter.

      Where each line of the source's loop body lives:
        - the test of cases 1 and 2: WindowMoves;
        - cases 1 and 2 (prev_x and x move on): the first branch below;
        - case 3 (x skips next_x, then `binomial_link(next_x, x)`):
          LinkStep, Case3, LinkNextUnderX;
        - case 4, head moves to next_x: LinkStep, Case4AtHead, BypassAtHead;
        - case 4, prev_x's sibling becomes next_x: LinkStep, Case4After,
          BypassAfter, Repoint, SetSibling;
        - case 4, `binomial_link(x, next_x)` and x becomes next_x:
          CollapseUnderNext, LinkXUnderNext, and LinkStep's result;
        - `next_x = x->sibling`: the last line below. */
  method UnionStep(h: Heap, prevX: Node?, x: Node, nextX: Node, ghost ts: seq<Tree>, ghost i: nat,
                   ghost R: set<Node>)
    returns (prevX': Node?, x': Node, nextX': Node?, ghost ts': seq<Tree>, ghost i': nat)
    requires ChainRep(h.head, ts, null) && Distinct(ts) && Roots(ts) <= R
    requires i + 1 < |ts| && x == ts[i].root && nextX == ts[i + 1].root
    requires prevX == if i == 0 then null else ts[i - 1].root
    modifies h, R
    ensures i' < |ts'| && ChainRep(h.head, ts', null) && Distinct(ts') && Roots(ts') <= R
    ensures x' == ts'[i'].root && nextX' == First(ts'[i' + 1..])
    ensures prevX' == if i' == 0 then null else ts'[i' - 1].root
    ensures Scan(ts', i') == Scan(ts, i)
    ensures |ts'| - i' < |ts| - i
  {
    Allocated(ts);
    var moveOn := WindowMoves(x, nextX, h.head, ts, i);
    if moveOn {
      prevX', x', ts', i' := x, nextX, ts, i + 1;
    } else {
      assert ts[i] in ts && ts[i + 1] in ts;
      if i > 0 {
        assert ts[i - 1] in ts;
      }
      x' := LinkStep(h, prevX, x, nextX, ts, i);
      prevX', ts', i' := prevX, Collapse(ts, i), i;
    }
    ChainAt(h.head, ts', null, i');
    nextX' := x'.sibling;
  }

  /** The window test of the union loop, read off the nodes: x and next
      differ in degree, or the root after next has x's degree too. It is
      exactly the value-level Advances. */
  method WindowMoves(x: Node, nextX: Node, ghost head: Node?, ghost ts: seq<Tree>, ghost i: nat)
    returns (moveOn: bool)
    requires ChainRep(head, ts, null)
    requires i + 1 < |ts| && x == ts[i].root && nextX == ts[i + 1].root
    ensures moveOn == Advances(ts, i)
  {
    ChainAt(head, ts, null, i);
    ChainAt(head, ts, null, i + 1);
    FirstAt(ts, i + 2);
    if i + 2 < |ts| {
      ChainAt(head, ts, null, i + 2);
    }
    moveOn := x.degree != nextX.degree || (nextX.sibling != null && nextX.sibling.degree == x.degree);
  }

  /** One linking step of the union loop (cases 3 and 4): the trees of x and
      next become one, under the root with the smaller key (x on a tie);
      returns that root, the new x. The list keeps its nodes once each and
      gains no root. */
  method LinkStep(h: Heap, prevX: Node?, x: Node, nextX: Node, ghost ts: seq<Tree>, ghost i: nat)
    returns (y: Node)
    requires ChainRep(h.head, ts, null) && Distinct(ts)
    requires i + 1 < |ts| && x == ts[i].root && nextX == ts[i + 1].root
    requires prevX == if i == 0 then null else ts[i - 1].root
    modifies h, prevX, x, nextX
    ensures ChainRep(h.head, Collapse(ts, i), null)
    ensures y == Combine(ts[i], ts[i + 1]).root
    ensures Distinct(Collapse(ts, i)) && Roots(Collapse(ts, i)) <= Roots(ts)
  {
    CollapseRoots(ts, i);
    CollapseDistinct(ts, i);
    ChainAt(h.head, ts, null, i);
    ChainAt(h.head, ts, null, i + 1);
    if x.key <= nextX.key {
      Case3(x, nextX, h.head, ts, i);
      y := x;
    } else {
      if prevX == null {
        Case4AtHead(h, x, nextX, ts);
      } else {
        Case4After(prevX, x, nextX, h.head, ts, i);
      }
      y := nextX;
    }
  }

  /** Hangs the chain `rest` after the root `x` of tree `t`. */
  method Relink(x: Node, rest: Node?, ghost t: Tree, ghost M: seq<Tree>)
    requires x == t.root && x.key == t.key && x.degree == Deg(t) && x.parent == null
    requires ChainRep(x.child, t.children, x) && ChainRep(rest, M, null)
    requires x !in MembersF(t.children) && x !in MembersF(M)
    modifies x
    ensures ChainRep(x, [t] + M, null)
  {
    x.sibling := rest;
    ChainCons(t, M, null);
  }

  /** Case 3 of the union pass on the two trees it touches: x's key is at
      most next's, so x skips next in the root list and next becomes x's
      leftmost child. */
  method LinkNextUnderX(x: Node, next: Node, ghost tx: Tree, ghost tn: Tree, ghost s: Node?)
    requires x == tx.root && next == tn.root && x != next && tx.key <= tn.key
    requires Hung(tx, next, null) && Hung(tn, s, null)
    requires x !in MembersF(tx.children) && x !in MembersF(tn.children)
    requires next !in MembersF(tx.children) && next !in MembersF(tn.children)
    modifies x, next
    ensures Hung(Combine(tx, tn), s, null)
  {
    Allocated(tx.children);
    Allocated(tn.children);
    x.sibling := next.sibling;
    BinomialLink(next, x);
    ChainCons(tn, tx.children, x);
  }

  /** Case 4 of the union pass on the two trees it touches: next's key is
      smaller, so x becomes next's leftmost child. */
  method LinkXUnderNext(x: Node, next: Node, ghost tx: Tree, ghost tn: Tree, ghost s: Node?)
    requires x == tx.root && next == tn.root && x != next && tx.key > tn.key
    requires Hung(tx, next, null) && Hung(tn, s, null)
    requires x !in MembersF(tx.children) && x !in MembersF(tn.children)
    requires next !in MembersF(tx.children) && next !in MembersF(tn.children)
    modifies x, next
    ensures Hung(Combine(tx, tn), s, null)
  {
    Allocated(tx.children);
    Allocated(tn.children);
    BinomialLink(x, next);
    ChainCons(tx, tn.children, next);
  }

  /** Case 3 of the union pass on the whole root list: the trees at window
      positions i and i+1 are replaced by their combination, rooted at x. */
  method Case3(x: Node, next: Node, ghost head: Node?, ghost ts: seq<Tree>, ghost i: nat)
    requires ChainRep(head, ts, null) && Distinct(ts)
    requires i + 1 < |ts| && x == ts[i].root && next == ts[i + 1].root
    requires ts[i].key <= ts[i + 1].key
    modifies x, next
    ensures ChainRep(head, Collapse(ts, i), null)
  {
    ghost var pre, post := ts[..i], ts[i + 2..];
    SplitAround(head, ts, i);
    Allocated(pre);
    Allocated(post);
    LinkNextUnderX(x, next, ts[i], ts[i + 1], First(post));
    CollapseRep(ts, i);
  }

  /** Case 4 of the union pass on the whole root list when x is its first
      root: the head moves to next, and the first two trees are replaced by
      their combination, rooted at next. */
  method Case4AtHead(h: Heap, x: Node, next: Node, ghost ts: seq<Tree>)
    requires ChainRep(h.head, ts, null) && Distinct(ts)
    requires 1 < |ts| && x == ts[0].root && next == ts[1].root
    requires ts[0].key > ts[1].key
    modifies h, x, next
    ensures ChainRep(h.head, Collapse(ts, 0), null)
  {
    SplitAround(h.head, ts, 0);
    BypassAtHead(h, next, ts[0], ts[1], ts[2..]);
    CollapseUnderNext(x, next, ts, 0);
    assert Collapse(ts, 0)[0].root == next;
  }

  /** Case 4 of the union pass on the whole root list when x is not its
      first root: prev, the root before x, is pointed at next, and the trees
      at window positions i and i+1 are replaced by their combination, rooted
      at next. */
  method Case4After(prev: Node, x: Node, next: Node, ghost head: Node?, ghost ts: seq<Tree>, ghost i: nat)
    requires ChainRep(head, ts, null) && Distinct(ts)
    requires 0 < i && i + 1 < |ts| && prev == ts[i - 1].root && x == ts[i].root && next == ts[i + 1].root
    requires ts[i].key > ts[i + 1].key
    modifies prev, x, next
    ensures ChainRep(head, Collapse(ts, i), null)
  {
    ghost var pre, rest := ts[..i], ts[i..];
    SplitAround(head, ts, i);
    RootOutside(ts, i - 1);
    assert pre[..i - 1] == ts[..i - 1];
    ChainSeg(head, ts, null);
    SegSplit(ts, null, null, i - 1);
    BypassAfter(prev, next, pre, x, rest);
    SegPair(rest);
    assert rest[2..] == ts[i + 2..];
    CollapseUnderNext(x, next, ts, i);
    assert Collapse(ts, i)[0] == ts[0];
  }

  /** The second step of case 4, once the root list bypasses x: x is linked
      under next, and the list is the collapsed one. */
  method CollapseUnderNext(x: Node, next: Node, ghost ts: seq<Tree>, ghost i: nat)
    requires i + 1 < |ts| && x == ts[i].root && next == ts[i + 1].root && x != next
    requires ts[i].key > ts[i + 1].key
    requires Seg(ts[..i], next, null) && Seg(ts[i + 2..], null, null)
    requires Hung(ts[i], next, null) && Hung(ts[i + 1], First(ts[i + 2..]), null)
    requires Apart(x, ts, i) && Apart(next, ts, i)
    modifies x, next
    ensures ChainRep(First(Collapse(ts, i)), Collapse(ts, i), null)
  {
    Allocated(ts[..i]);
    Allocated(ts[i + 2..]);
    LinkXUnderNext(x, next, ts[i], ts[i + 1], First(ts[i + 2..]));
    CollapseRep(ts, i);
  }

  /** The first step of case 4 when x is the first root: the head of the
      list moves to next. The trees tx and tn at x and next, and the segment
      `post` after them, are left as they were. */
  method BypassAtHead(h: Heap, next: Node, ghost tx: Tree, ghost tn: Tree, ghost post: seq<Tree>)
    requires Hung(tx, next, null) && Hung(tn, First(post), null) && Seg(post, null, null)
    modifies h
    ensures h.head == next
    ensures Hung(tx, next, null) && Hung(tn, First(post), null) && Seg(post, null, null)
  {
    AllocatedTree(tx);
    AllocatedTree(tn);
    Allocated(post);
    h.head := next;
  }

  /** The first step of case 4 when x is not the first root: prev, the last
      root of the segment `pre` before x, is pointed at next. The chain
      `rest` from x on is left as it was. */
  method BypassAfter(prev: Node, next: Node, ghost pre: seq<Tree>, ghost x: Node, ghost rest: seq<Tree>)
    requires pre != [] && prev == pre[|pre| - 1].root && Seg(pre, x, null)
    requires prev !in MembersF(pre[..|pre| - 1]) && prev !in MembersF(pre[|pre| - 1].children)
    requires Seg(rest, null, null) && prev !in MembersF(rest)
    modifies prev
    ensures Seg(pre, next, null) && Seg(rest, null, null)
  {
    Allocated(rest);
    Repoint(prev, next, pre, x);
  }

  /** Points the last root of the segment `pre` at `next` instead of `x`. */
  method Repoint(prev: Node, next: Node, ghost pre: seq<Tree>, ghost x: Node)
    requires pre != [] && prev == pre[|pre| - 1].root && Seg(pre, x, null)
    requires prev !in MembersF(pre[..|pre| - 1]) && prev !in MembersF(pre[|pre| - 1].children)
    modifies prev
    ensures Seg(pre, next, null)
  {
    ghost var k := |pre| - 1;
    assert pre[..k] + [pre[k]] == pre;
    SegSplit(pre, x, null, k);
    Allocated(pre[..k]);
    SetSibling(prev, next, pre[k], x);
    SegOne(pre[k], next, null);
    SegJoin(pre[..k], [pre[k]], next, null);
  }

  /** The single write of the bypass: the root of tree t points on to next
      instead of x. */
  method SetSibling(prev: Node, next: Node, ghost t: Tree, ghost x: Node)
    requires prev == t.root && Hung(t, x, null) && prev !in MembersF(t.children)
    modifies prev
    ensures Hung(t, next, null)
  {
    Allocated(t.children);
    prev.sibling := next;
  }

  /** `binomial_heap_insert`: resets x to a lone degree-0 root, makes it a
      one-node heap and returns the union of `h` with it (the source rebinds
      its by-reference heap argument to that union). */
  method Insert(h: Heap, x: Node, ghost ts: seq<Tree>) returns (r: Heap)
    requires ChainRep(h.head, ts, null) && Distinct(ts) && x !in MembersF(ts)
    modifies Roots(ts), x
    ensures fresh(r)
    ensures ChainRep(r.head, UnionRoots(ts, [Tree(x, old(x.key), [])]), null)
    ensures IsBinomialHeap(ts) ==> IsBinomialHeap(UnionRoots(ts, [Tree(x, old(x.key), [])]))
    ensures KeysF(UnionRoots(ts, [Tree(x, old(x.key), [])])) == KeysF(ts) + multiset{old(x.key)}
    ensures MembersF(UnionRoots(ts, [Tree(x, old(x.key), [])])) == MembersF(ts) + multiset{x}
    ensures Distinct(UnionRoots(ts, [Tree(x, old(x.key), [])]))
  {
    ghost var k := x.key;
    r := UniteSingleton(h, x, ts);
    if IsBinomialHeap(ts) {
      InsertCorrect(ts, x, k);
    }
    InsertContents(ts, x, k);
    InsertDistinct(ts, x, k);
  }

  /** The body of `binomial_heap_insert`: x as a one-node heap, united with
      `h`. */
  method UniteSingleton(h: Heap, x: Node, ghost ts: seq<Tree>) returns (r: Heap)
    requires ChainRep(h.head, ts, null) && Distinct(ts) && x !in MembersF(ts)
    modifies Roots(ts), x
    ensures fresh(r)
    ensures ChainRep(r.head, UnionRoots(ts, [Tree(x, old(x.key), [])]), null)
  {
    ghost var one := [Tree(x, x.key, [])];
    Allocated(ts);
    var hp := Singleton(x);
    assert MembersF(one) == multiset{x} by {
      assert one[1..] == [];
    }
    r := Union(h, hp, ts, one);
  }

  /** The first half of `binomial_heap_insert`: a new heap whose only root is
      x, with x's links and degree reset. */
  method Singleton(x: Node) returns (hp: Heap)
    modifies x
    ensures fresh(hp)
    ensures ChainRep(hp.head, [Tree(x, old(x.key), [])], null)
    ensures x.key == old(x.key)
  {
    hp := new Heap();
    x.parent := null;
    x.child := null;
    x.sibling := null;
    x.degree := 0;
    hp.head := x;
  }

  /** `level_order`: visits a node, then its child chain, then its siblings;
      returns the keys in the order the source prints them. */
  method LevelOrder(root: Node?, ghost ts: seq<Tree>, ghost par: Node?) returns (keys: seq<Int32>)
    requires ChainRep(root, ts, par)
    ensures keys == PreorderKeys(ts)
    decreases ts
  {
    keys := [];
    if root != null {
      ChainHead(root, ts, par);
      Allocated(ts[1..]);
      var below := LevelOrder(root.child, ts[0].children, root);
      var after := LevelOrder(root.sibling, ts[1..], par);
      keys := [root.key] + below + after;
    }
  }
}
