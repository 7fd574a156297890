/** How the pointer structure of the nodes represents a forest of trees:
    a sibling chain starting at `first` whose nodes carry the keys and
    degrees of the trees, point back to `par`, and whose child chains
    represent the subtrees in turn. */
module Representation {
  import opened Nodes
  import opened BinomialTrees
  import opened RootLists

  /** The node a chain of these trees starts at (null for no trees). */
  function First(cs: seq<Tree>): Node?
  {
    if cs == [] then null else cs[0].root
  }

  /** The root nodes of a forest. */
  ghost function Roots(ts: seq<Tree>): set<Node>
  {
    set t | t in ts :: t.root
  }

  /** No node occurs twice anywhere in the forest. */
  ghost predicate Distinct(ts: seq<Tree>)
  {
    forall n | n in MembersF(ts) :: MembersF(ts)[n] == 1
  }

  lemma {:induction false} MemberOf(ts: seq<Tree>, j: nat)
    requires j < |ts|
    ensures Members(ts[j]) <= MembersF(ts)
  {
    if j > 0 {
      MemberOf(ts[1..], j - 1);
    }
  }

  /** The pointer structure below `first` represents the trees `cs`: each
      root carries its tree's key and degree, has parent `par`, points to
      the next root, and its child chain represents its subtrees. */
  ghost predicate ChainRep(first: Node?, cs: seq<Tree>, par: Node?)
    reads MembersF(cs)
    decreases cs
  {
    && first == First(cs)
    && forall j | 0 <= j < |cs| ::
         MemberOf(cs, j);
         && cs[j].root.key == cs[j].key
         && cs[j].root.degree == Deg(cs[j])
         && cs[j].root.parent == par
         && cs[j].root.sibling == First(cs[j + 1..])
         && ChainRep(cs[j].root.child, cs[j].children, cs[j].root)
  }

  /** Every node of a forest is allocated. */
  lemma {:induction false} Allocated(cs: seq<Tree>)
    ensures forall n | n in MembersF(cs) :: allocated(n)
    decreases cs
  {
    if cs != [] {
      var t := cs[0];
      Allocated(t.children);
      Allocated(cs[1..]);
      assert MembersF(cs) == multiset{t.root} + MembersF(t.children) + MembersF(cs[1..]);
    }
  }

  /** Every node of a tree is allocated. */
  lemma AllocatedTree(t: Tree)
    ensures forall n | n in Members(t) :: allocated(n)
  {
    Allocated(t.children);
  }

  /** What the chain says about its first node and the rest of it. */
  lemma ChainHead(first: Node?, cs: seq<Tree>, par: Node?)
    requires cs != [] && ChainRep(first, cs, par)
    ensures first == cs[0].root && first.key == cs[0].key && first.degree == Deg(cs[0])
    ensures first.parent == par && first.sibling == First(cs[1..])
    ensures ChainRep(first.child, cs[0].children, first)
    ensures ChainRep(first.sibling, cs[1..], par)
  {
    var tl := cs[1..];
    forall j | 0 <= j < |tl|
      ensures tl[j] == cs[j + 1] && tl[j + 1..] == cs[j + 2..]
    {
    }
  }

  lemma ChainCons(t: Tree, cs: seq<Tree>, par: Node?)
    requires t.root.key == t.key && t.root.degree == Deg(t)
    requires t.root.parent == par && t.root.sibling == First(cs)
    requires ChainRep(t.root.child, t.children, t.root)
    requires ChainRep(First(cs), cs, par)
    ensures ChainRep(t.root, [t] + cs, par)
  {
    var l := [t] + cs;
    assert l[0] == t && l[1..] == cs;
    forall j | 1 <= j < |l|
      ensures l[j] == cs[j - 1] && l[j + 1..] == cs[j..]
    {
    }
  }

  /** Taking the first tree off one of two node-disjoint forests: the rest
      is still distinct and disjoint from the other forest, and neither
      holds the first tree's nodes. */
  lemma SplitHead(A: seq<Tree>, B: seq<Tree>)
    requires A != [] && Distinct(A) && Distinct(B) && MembersF(A) !! MembersF(B)
    ensures Distinct(A[1..]) && MembersF(A[1..]) !! MembersF(B)
    ensures Members(A[0]) !! MembersF(A[1..]) && Members(A[0]) !! MembersF(B)
    ensures Roots(A[1..]) <= Roots(A)
    ensures forall n | n in Roots(A[1..]) :: n in MembersF(A[1..])
    ensures forall n | n in Roots(B) :: n in MembersF(B)
    ensures forall n | n in MembersF(A[0].children) ::
      n !in Roots(A[1..]) && n !in Roots(B) && n != A[0].root
  {
    SplitMembers(A, B);
    RootsInMembers(A[1..]);
    RootsInMembers(B);
    var n := A[0].root;
    assert MembersF(A) == Members(A[0]) + MembersF(A[1..]);
    assert MembersF(A)[n] == 1 + MembersF(A[0].children)[n] + MembersF(A[1..])[n];
  }

  lemma SplitMembers(A: seq<Tree>, B: seq<Tree>)
    requires A != [] && Distinct(A) && MembersF(A) !! MembersF(B)
    ensures Distinct(A[1..]) && MembersF(A[1..]) !! MembersF(B)
    ensures Members(A[0]) !! MembersF(A[1..]) && Members(A[0]) !! MembersF(B)
  {
    var H, T := Members(A[0]), MembersF(A[1..]);
    assert MembersF(A) == H + T;
    forall n | n in T ensures T[n] == 1 && n !in H && n !in MembersF(B) {
      assert MembersF(A)[n] == H[n] + T[n];
    }
    forall n | n in H ensures n !in MembersF(B) {
      assert n in MembersF(A);
    }
  }

  lemma RootsInMembers(ts: seq<Tree>)
    ensures forall n | n in Roots(ts) :: n in MembersF(ts)
  {
    forall n | n in Roots(ts) ensures n in MembersF(ts) {
      var j :| 0 <= j < |ts| && ts[j].root == n;
      MemberOf(ts, j);
    }
  }

  /** The first node of a suffix of the chain. */
  lemma FirstAt(cs: seq<Tree>, j: nat)
    requires j <= |cs|
    ensures First(cs[j..]) == if j < |cs| then cs[j].root else null
  {
    if j < |cs| {
      assert cs[j..][0] == cs[j];
    }
  }

  /** Tree `t` hangs in a chain: its root carries its key and degree, points
      to `par` and to the next root `next`, and its child chain represents
      its subtrees. These are the conjuncts ChainRep states at each position
      j, with `next` for the following root; stated for one tree alone so
      that a write to one root can be reasoned about without the rest. */
  ghost predicate Hung(t: Tree, next: Node?, par: Node?)
    reads Members(t)
  {
    && t.root.key == t.key
    && t.root.degree == Deg(t)
    && t.root.parent == par
    && t.root.sibling == next
    && ChainRep(t.root.child, t.children, t.root)
  }

  /** The root after position k of a segment that continues at `last`. */
  function After(cs: seq<Tree>, k: nat, last: Node?): Node?
  {
    if k + 1 < |cs| then cs[k + 1].root else last
  }

  /** A segment of a chain: the trees `cs` hang one after the other, and the
      last one points on to `last`. */
  ghost predicate Seg(cs: seq<Tree>, last: Node?, par: Node?)
    reads MembersF(cs)
  {
    forall j | 0 <= j < |cs| ::
      MemberOf(cs, j);
      Hung(cs[j], After(cs, j, last), par)
  }

  /** A whole chain is a segment ending in null. */
  lemma ChainSeg(first: Node?, cs: seq<Tree>, par: Node?)
    ensures ChainRep(first, cs, par) <==> first == First(cs) && Seg(cs, null, par)
  {
    forall j | 0 <= j < |cs| ensures First(cs[j + 1..]) == After(cs, j, null) {
      FirstAt(cs, j + 1);
    }
  }

  lemma SegSplit(cs: seq<Tree>, last: Node?, par: Node?, k: nat)
    requires Seg(cs, last, par) && k < |cs|
    ensures Seg(cs[..k], cs[k].root, par)
    ensures Hung(cs[k], After(cs, k, last), par)
    ensures Seg(cs[k + 1..], last, par)
  {
    var pre, post := cs[..k], cs[k + 1..];
    forall j | 0 <= j < |pre| ensures Hung(pre[j], After(pre, j, cs[k].root), par) {
      assert pre[j] == cs[j];
    }
    forall j | 0 <= j < |post| ensures Hung(post[j], After(post, j, last), par) {
      assert post[j] == cs[k + 1 + j];
    }
  }

  lemma SegJoin(a: seq<Tree>, b: seq<Tree>, last: Node?, par: Node?)
    requires Seg(a, if b == [] then last else b[0].root, par) && Seg(b, last, par)
    ensures Seg(a + b, last, par)
  {
    var ab := a + b;
    forall j | 0 <= j < |ab| ensures Hung(ab[j], After(ab, j, last), par) {
      if j < |a| {
        assert ab[j] == a[j];
      } else {
        assert ab[j] == b[j - |a|];
      }
    }
  }

  lemma SegOne(t: Tree, last: Node?, par: Node?)
    requires Hung(t, last, par)
    ensures Seg([t], last, par)
  {
  }

  /** Where the nodes of a forest sit relative to one of its positions. */
  lemma SliceMembers(ts: seq<Tree>, k: nat)
    requires k < |ts|
    ensures MembersF(ts[k..]) == Members(ts[k]) + MembersF(ts[k + 1..])
    ensures MembersF(ts[..k + 1]) == MembersF(ts[..k]) + Members(ts[k])
    ensures MembersF(ts) == MembersF(ts[..k]) + MembersF(ts[k..])
  {
    SuffixMembers(ts, k);
    PrefixMembers(ts, k);
    CutMembers(ts, k);
  }

  lemma SuffixMembers(ts: seq<Tree>, k: nat)
    requires k < |ts|
    ensures MembersF(ts[k..]) == Members(ts[k]) + MembersF(ts[k + 1..])
  {
    assert ts[k..][0] == ts[k] && ts[k..][1..] == ts[k + 1..];
  }

  lemma PrefixMembers(ts: seq<Tree>, k: nat)
    requires k < |ts|
    ensures MembersF(ts[..k + 1]) == MembersF(ts[..k]) + Members(ts[k])
  {
    var one := [ts[k]];
    assert ts[..k + 1] == ts[..k] + one;
    MembersAppend(ts[..k], one);
    assert one[1..] == [];
  }

  lemma CutMembers(ts: seq<Tree>, k: nat)
    requires k <= |ts|
    ensures MembersF(ts) == MembersF(ts[..k]) + MembersF(ts[k..])
  {
    assert ts == ts[..k] + ts[k..];
    MembersAppend(ts[..k], ts[k..]);
  }

  /** In a forest without shared nodes, a root occurs nowhere else. */
  lemma RootOutside(ts: seq<Tree>, k: nat)
    requires Distinct(ts) && k < |ts|
    ensures ts[k].root !in MembersF(ts[..k])
    ensures ts[k].root !in MembersF(ts[k + 1..])
    ensures ts[k].root !in MembersF(ts[k].children)
  {
    var n := ts[k].root;
    SliceMembers(ts, k);
    assert MembersF(ts)[n] == MembersF(ts[..k])[n] + Members(ts[k])[n] + MembersF(ts[k + 1..])[n];
    assert Members(ts[k])[n] == 1 + MembersF(ts[k].children)[n];
  }

  /** Cuts a chain around positions i and i+1 into a segment before, the two
      trees, and the chain after; their two roots occur in no other part. */
  lemma SplitAround(head: Node?, ts: seq<Tree>, i: nat)
    requires ChainRep(head, ts, null) && Distinct(ts) && i + 1 < |ts|
    ensures head == First(ts)
    ensures Seg(ts[..i], ts[i].root, null) && Seg(ts[i + 2..], null, null)
    ensures Hung(ts[i], ts[i + 1].root, null) && Hung(ts[i + 1], First(ts[i + 2..]), null)
    ensures ts[i].root != ts[i + 1].root
    ensures Apart(ts[i].root, ts, i) && Apart(ts[i + 1].root, ts, i)
  {
    ChainSeg(head, ts, null);
    SegSplit(ts, null, null, i);
    var rest := ts[i + 1..];
    SegSplit(rest, null, null, 0);
    assert rest[1..] == ts[i + 2..];
    FirstAt(ts, i + 2);
    PairApart(ts, i);
  }

  /** Node `n` occurs in none of the parts a chain is cut into around
      positions i and i+1 except as one of those two roots. */
  ghost predicate Apart(n: Node, ts: seq<Tree>, i: nat)
    requires i + 1 < |ts|
  {
    && n !in MembersF(ts[..i]) && n !in MembersF(ts[i + 2..])
    && n !in MembersF(ts[i].children) && n !in MembersF(ts[i + 1].children)
  }

  lemma PairApart(ts: seq<Tree>, i: nat)
    requires Distinct(ts) && i + 1 < |ts|
    ensures ts[i].root != ts[i + 1].root
    ensures Apart(ts[i].root, ts, i) && Apart(ts[i + 1].root, ts, i)
  {
    RootOutside(ts, i);
    RootOutside(ts, i + 1);
    SliceMembers(ts, i + 1);
    SliceMembers(ts[i + 1..], 0);
    assert ts[i + 1..][1..] == ts[i + 2..];
    assert ts[..i + 1][..i] == ts[..i];
    SliceMembers(ts[..i + 1], i);
  }

  /** Puts the chain back together around the tree that linking the trees
      at positions i and i+1 produced. */
  lemma CollapseRep(ts: seq<Tree>, i: nat)
    requires i + 1 < |ts|
    requires Seg(ts[..i], Combine(ts[i], ts[i + 1]).root, null)
    requires Hung(Combine(ts[i], ts[i + 1]), First(ts[i + 2..]), null)
    requires Seg(ts[i + 2..], null, null)
    ensures ChainRep(First(Collapse(ts, i)), Collapse(ts, i), null)
  {
    var pre, t, post := ts[..i], Combine(ts[i], ts[i + 1]), ts[i + 2..];
    SegAround(pre, t, post);
    assert Collapse(ts, i) == pre + ([t] + post);
    ChainSeg(First(Collapse(ts, i)), Collapse(ts, i), null);
  }

  /** A segment ending at t, t itself, and a chain after it form a chain. */
  lemma SegAround(pre: seq<Tree>, t: Tree, post: seq<Tree>)
    requires Seg(pre, t.root, null) && Hung(t, First(post), null) && Seg(post, null, null)
    ensures Seg(pre + ([t] + post), null, null)
  {
    SegOne(t, First(post), null);
    SegJoin([t], post, null, null);
    SegJoin(pre, [t] + post, null, null);
  }

  /** What the chain says about the root at position j. */
  lemma ChainAt(first: Node?, cs: seq<Tree>, par: Node?, j: nat)
    requires ChainRep(first, cs, par) && j < |cs|
    ensures cs[j].root.key == cs[j].key && cs[j].root.degree == Deg(cs[j])
    ensures cs[j].root.sibling == First(cs[j + 1..])
  {
  }

  /** Linking two neighbouring trees keeps one of their roots as a root and
      makes no new ones. */
  lemma CollapseRoots(ts: seq<Tree>, i: nat)
    requires i + 1 < |ts|
    ensures Roots(Collapse(ts, i)) <= Roots(ts)
  {
    var c := Collapse(ts, i);
    forall n | n in Roots(c) ensures n in Roots(ts) {
      var t :| t in c && t.root == n;
      if t in ts[..i] || t in ts[i + 2..] {
        assert t in ts;
      } else {
        assert t == Combine(ts[i], ts[i + 1]);
        assert ts[i] in ts && ts[i + 1] in ts;
      }
    }
  }

  /** Merging two forests keeps exactly their roots. */
  lemma MergeRoots(a: seq<Tree>, b: seq<Tree>)
    ensures Roots(MergeByDegree(a, b)) == Roots(a) + Roots(b)
  {
    var m := MergeByDegree(a, b);
    MergeTrees(a, b);
    forall n | n in Roots(m) ensures n in Roots(a) + Roots(b) {
      var t :| t in m && t.root == n;
      assert t in multiset(m);
      assert t in multiset(a) || t in multiset(b);
    }
    forall n | n in Roots(a) + Roots(b) ensures n in Roots(m) {
      var t :| (t in a || t in b) && t.root == n;
      assert t in multiset(a) + multiset(b);
      assert t in multiset(m);
    }
  }

  /** Merging two forests that share no node gives a forest that repeats
      no node. */
  lemma MergeDistinct(a: seq<Tree>, b: seq<Tree>)
    requires Distinct(a) && Distinct(b) && MembersF(a) !! MembersF(b)
    ensures Distinct(MergeByDegree(a, b))
  {
    MergeMembers(a, b);
    var m := MembersF(MergeByDegree(a, b));
    forall n | n in m ensures m[n] == 1 {
      assert m[n] == MembersF(a)[n] + MembersF(b)[n];
    }
  }

  /** Linking two neighbouring trees keeps every node once. */
  lemma CollapseDistinct(ts: seq<Tree>, i: nat)
    requires Distinct(ts) && i + 1 < |ts|
    ensures Distinct(Collapse(ts, i))
  {
    CollapseMembers(ts, i);
  }

  /** The first two trees of a chain and the chain after them. */
  lemma SegPair(cs: seq<Tree>)
    requires 1 < |cs| && Seg(cs, null, null)
    ensures Hung(cs[0], cs[1].root, null) && Hung(cs[1], First(cs[2..]), null)
    ensures Seg(cs[2..], null, null)
  {
    SegSplit(cs, null, null, 0);
    var tl := cs[1..];
    SegSplit(tl, null, null, 0);
    assert tl[1..] == cs[2..];
    FirstAt(cs, 2);
  }

  /** The roots of a chain carry their trees' keys and point to each other
      in order: the key and sibling conjuncts of ChainRep, alone. It reads
      only the roots, so a walk along the root list needs no facts about
      the subtrees below them. */
  ghost predicate RootsLinked(ts: seq<Tree>)
    reads Roots(ts)
  {
    forall j | 0 <= j < |ts| ::
      assert ts[j] in ts;
      ts[j].root.key == ts[j].key && ts[j].root.sibling == First(ts[j + 1..])
  }

  lemma ChainRootsLinked(first: Node?, cs: seq<Tree>)
    requires ChainRep(first, cs, null)
    ensures first == First(cs) && RootsLinked(cs)
  {
  }
}
