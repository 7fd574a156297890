/** Root lists on values: the heap invariant, merge-by-degree, and the
    collision-resolving pass of the union, with their correctness lemmas. */
module RootLists {
  import opened Nodes
  import opened BinomialTrees

  // ---------------------------------------------------------------------
  // The minimum scan

  /** The key bound the minimum scan compares against once it has settled
      on position p (none yet when p is -1): INT_MAX at first. */
  function Bound(ts: seq<Tree>, p: int): Int32
    requires -1 <= p < |ts|
  {
    if p < 0 then INT_MAX else ts[p].key
  }

  /** The position the minimum scan has chosen after the first k roots, -1
      for none: a root is taken only when its key is strictly below the bound,
      so it is the first root with the least key, and no root is chosen when
      every key is INT_MAX. */
  function MinIndex(ts: seq<Tree>, k: nat): (p: int)
    requires k <= |ts|
    ensures -1 <= p < k
    ensures p == -1 <==> forall j | 0 <= j < k :: ts[j].key == INT_MAX
    ensures p != -1 ==> forall j | 0 <= j < k :: ts[p].key <= ts[j].key
    ensures p != -1 ==> forall j | 0 <= j < p :: ts[p].key < ts[j].key
  {
    if k == 0 then -1
    else
      var q := MinIndex(ts, k - 1);
      if ts[k - 1].key < Bound(ts, q) then k - 1 else q
  }

  /** In a list of heap-ordered trees the scan's choice holds the least key
      of the whole heap; it chooses nothing exactly when the list is empty or
      every key in the heap is INT_MAX. */
  lemma MinimumIsLeast(ts: seq<Tree>)
    requires forall t | t in ts :: HeapOrdered(t)
    ensures MinIndex(ts, |ts|) != -1 ==>
      ts[MinIndex(ts, |ts|)].key in KeysF(ts) &&
      forall k | k in KeysF(ts) :: ts[MinIndex(ts, |ts|)].key <= k
    ensures MinIndex(ts, |ts|) == -1 <==> forall k | k in KeysF(ts) :: k == INT_MAX
  {
    var p := MinIndex(ts, |ts|);
    forall j | 0 <= j < |ts| ensures HeapOrdered(ts[j]) {
      assert ts[j] in ts;
    }
    if p != -1 {
      LeastRootIsLeastKey(ts, p);
      RootKeyIn(ts, p);
      assert ts[p].key != INT_MAX;
    } else {
      ForestBounded(ts, INT_MAX);
    }
    if forall k | k in KeysF(ts) :: k == INT_MAX {
      forall j | 0 <= j < |ts| ensures ts[j].key == INT_MAX {
        RootKeyIn(ts, j);
      }
    }
  }

  /** Root degrees strictly increase along the list, so no two roots share
      a degree. */
  ghost predicate StrictlyIncreasing(ts: seq<Tree>)
  {
    forall j, k | 0 <= j < k < |ts| :: Deg(ts[j]) < Deg(ts[k])
  }

  /** Every tree of the list is binomial and heap-ordered. */
  ghost predicate TreesValid(ts: seq<Tree>)
  {
    forall t | t in ts :: Binomial(t) && HeapOrdered(t)
  }

  /** The binomial-heap invariant on a root list. */
  ghost predicate IsBinomialHeap(ts: seq<Tree>)
  {
    StrictlyIncreasing(ts) && TreesValid(ts)
  }

  /** What the union pass needs from the merged list: degrees are
      nondecreasing and no degree occurs three times. */
  ghost predicate MergedShape(ts: seq<Tree>)
  {
    && Sorted(ts)
    && (forall j | 0 <= j && j + 2 < |ts| :: Deg(ts[j]) < Deg(ts[j + 2]))
  }

  function Degrees(ts: seq<Tree>): (r: seq<nat>)
    ensures |r| == |ts|
    ensures forall j | 0 <= j < |ts| :: r[j] == Deg(ts[j])
  {
    if ts == [] then [] else [Deg(ts[0])] + Degrees(ts[1..])
  }

  // ---------------------------------------------------------------------
  // Merge

  /** The merge the union relies on: the roots of both lists in
      nondecreasing degree order, the first list's root first on a tie. */
  function MergeByDegree(a: seq<Tree>, b: seq<Tree>): (r: seq<Tree>)
    ensures |r| == |a| + |b|
    ensures r != [] ==> r[0] == (if a == [] then b[0] else if b == [] || Deg(a[0]) <= Deg(b[0]) then a[0] else b[0])
    decreases |a| + |b|
  {
    if a == [] then b
    else if b == [] then a
    else if Deg(a[0]) <= Deg(b[0]) then [a[0]] + MergeByDegree(a[1..], b)
    else [b[0]] + MergeByDegree(a, b[1..])
  }

  /** Merging loses and adds nothing: it holds the same trees. */
  lemma {:induction false} MergeTrees(a: seq<Tree>, b: seq<Tree>)
    ensures multiset(MergeByDegree(a, b)) == multiset(a) + multiset(b)
    decreases |a| + |b|
  {
    if a == [] || b == [] {
    } else if Deg(a[0]) <= Deg(b[0]) {
      MergeTrees(a[1..], b);
      ConsMultiset(a);
    } else {
      MergeTrees(a, b[1..]);
      ConsMultiset(b);
    }
  }

  lemma ConsMultiset(s: seq<Tree>)
    requires s != []
    ensures multiset(s) == multiset{s[0]} + multiset(s[1..])
  {
    assert s == [s[0]] + s[1..];
  }

  /** ... and so the same root degrees. */
  lemma {:induction false} MergeDegrees(a: seq<Tree>, b: seq<Tree>)
    ensures multiset(Degrees(MergeByDegree(a, b))) == multiset(Degrees(a)) + multiset(Degrees(b))
    decreases |a| + |b|
  {
    var m := MergeByDegree(a, b);
    if a == [] || b == [] {
    } else if Deg(a[0]) <= Deg(b[0]) {
      MergeDegrees(a[1..], b);
      assert m == [a[0]] + MergeByDegree(a[1..], b);
      assert Degrees(m) == [Deg(a[0])] + Degrees(MergeByDegree(a[1..], b));
      assert Degrees(a) == [Deg(a[0])] + Degrees(a[1..]);
    } else {
      MergeDegrees(a, b[1..]);
      assert m == [b[0]] + MergeByDegree(a, b[1..]);
      assert Degrees(m) == [Deg(b[0])] + Degrees(MergeByDegree(a, b[1..]));
      assert Degrees(b) == [Deg(b[0])] + Degrees(b[1..]);
    }
  }

  /** Merging keeps every key. */
  lemma {:induction false} MergeKeys(a: seq<Tree>, b: seq<Tree>)
    ensures KeysF(MergeByDegree(a, b)) == KeysF(a) + KeysF(b)
    decreases |a| + |b|
  {
    var m := MergeByDegree(a, b);
    if a == [] || b == [] {
    } else if Deg(a[0]) <= Deg(b[0]) {
      MergeKeys(a[1..], b);
      assert m[0] == a[0] && m[1..] == MergeByDegree(a[1..], b);
    } else {
      MergeKeys(a, b[1..]);
      assert m[0] == b[0] && m[1..] == MergeByDegree(a, b[1..]);
    }
  }

  /** Merging keeps every node. */
  lemma {:induction false} MergeMembers(a: seq<Tree>, b: seq<Tree>)
    ensures MembersF(MergeByDegree(a, b)) == MembersF(a) + MembersF(b)
    decreases |a| + |b|
  {
    var m := MergeByDegree(a, b);
    if a == [] || b == [] {
    } else if Deg(a[0]) <= Deg(b[0]) {
      MergeMembers(a[1..], b);
      assert m[0] == a[0] && m[1..] == MergeByDegree(a[1..], b);
    } else {
      MergeMembers(a, b[1..]);
      assert m[0] == b[0] && m[1..] == MergeByDegree(a, b[1..]);
    }
  }

  /** Degrees are nondecreasing along the list. */
  ghost predicate Sorted(ts: seq<Tree>)
  {
    forall j, k | 0 <= j < k < |ts| :: Deg(ts[j]) <= Deg(ts[k])
  }

  /** A strictly increasing list's later roots are above its first. */
  lemma AboveHead(a: seq<Tree>, t: Tree)
    requires a != [] && StrictlyIncreasing(a) && t in a[1..]
    ensures Deg(a[0]) < Deg(t)
  {
    var k :| 0 <= k < |a[1..]| && a[1..][k] == t;
    assert a[k + 1] == t;
  }

  lemma ConsSorted(head: Tree, rest: seq<Tree>)
    requires Sorted(rest)
    requires forall t | t in rest :: Deg(head) <= Deg(t)
    ensures Sorted([head] + rest)
  {
    var m := [head] + rest;
    forall j, k | 0 <= j < k < |m| ensures Deg(m[j]) <= Deg(m[k]) {
      assert m[k] == rest[k - 1];
      if j > 0 {
        assert m[j] == rest[j - 1];
      }
    }
  }

  lemma {:induction false} MergeSorted(a: seq<Tree>, b: seq<Tree>)
    requires StrictlyIncreasing(a) && StrictlyIncreasing(b)
    ensures Sorted(MergeByDegree(a, b))
    decreases |a| + |b|
  {
    if a != [] && b != [] {
      if Deg(a[0]) <= Deg(b[0]) {
        var rest := MergeByDegree(a[1..], b);
        MergeSorted(a[1..], b);
        MergeTrees(a[1..], b);
        forall t | t in rest ensures Deg(a[0]) <= Deg(t) {
          assert t in multiset(a[1..]) + multiset(b);
          if t in a[1..] {
            AboveHead(a, t);
          } else if t != b[0] {
            AboveHead(b, t);
          }
        }
        ConsSorted(a[0], rest);
      } else {
        var rest := MergeByDegree(a, b[1..]);
        MergeSorted(a, b[1..]);
        MergeTrees(a, b[1..]);
        forall t | t in rest ensures Deg(b[0]) <= Deg(t) {
          assert t in multiset(a) + multiset(b[1..]);
          if t in b[1..] {
            AboveHead(b, t);
          } else if t != a[0] {
            AboveHead(a, t);
          }
        }
        ConsSorted(b[0], rest);
      }
    }
  }

  /** A strictly increasing list holds each degree at most once. */
  lemma {:induction false} DegreeAtMostOnce(a: seq<Tree>, d: nat)
    requires StrictlyIncreasing(a)
    ensures multiset(Degrees(a))[d] <= 1
  {
    if a != [] {
      DegreeAtMostOnce(a[1..], d);
      assert Degrees(a) == [Deg(a[0])] + Degrees(a[1..]);
      if Deg(a[0]) == d {
        assert d !in Degrees(a[1..]);
      }
    }
  }

  lemma CountThree(s: seq<nat>, j: nat)
    requires j + 2 < |s| && s[j] == s[j + 1] == s[j + 2]
    ensures multiset(s)[s[j]] >= 3
  {
    var d := s[j];
    assert s == s[..j] + s[j..j + 3] + s[j + 3..];
    assert s[j..j + 3] == [d, d, d];
    assert multiset(s) == multiset(s[..j]) + multiset([d, d, d]) + multiset(s[j + 3..]);
  }

  /** Merging two root lists that each satisfy the heap invariant gives the
      shape the union pass relies on. */
  lemma MergeShape(a: seq<Tree>, b: seq<Tree>)
    requires StrictlyIncreasing(a) && StrictlyIncreasing(b)
    ensures MergedShape(MergeByDegree(a, b))
  {
    var m := MergeByDegree(a, b);
    MergeSorted(a, b);
    MergeDegrees(a, b);
    forall j | 0 <= j && j + 2 < |m| ensures Deg(m[j]) < Deg(m[j + 2]) {
      var d := Deg(m[j]);
      DegreeAtMostOnce(a, d);
      DegreeAtMostOnce(b, d);
      if Deg(m[j + 2]) == d {
        CountThree(Degrees(m), j);
      }
    }
  }

  // ---------------------------------------------------------------------
  // The collision-resolving pass

  /** Replaces the roots at positions i and i+1 by the tree linking them. */
  function Collapse(ts: seq<Tree>, i: nat): (r: seq<Tree>)
    requires i + 1 < |ts|
    ensures |r| == |ts| - 1 && r[..i] == ts[..i] && r[i + 1..] == ts[i + 2..]
    ensures r[i] == Combine(ts[i], ts[i + 1])
  {
    ts[..i] + [Combine(ts[i], ts[i + 1])] + ts[i + 2..]
  }

  /** The window test of the union loop: move on when x and next differ in
      degree, or when three roots of x's degree are in a row. */
  predicate Advances(ts: seq<Tree>, i: nat)
    requires i + 1 < |ts|
    ensures !Advances(ts, i) ==> Deg(ts[i]) == Deg(ts[i + 1])
  {
    Deg(ts[i]) != Deg(ts[i + 1]) || (i + 2 < |ts| && Deg(ts[i + 2]) == Deg(ts[i]))
  }

  /** The union loop on values, from window position i (x = ts[i]). */
  function Scan(ts: seq<Tree>, i: nat): (r: seq<Tree>)
    requires i < |ts|
    ensures i < |r| <= |ts| && r[..i] == ts[..i]
    decreases |ts| - i
  {
    if i + 1 == |ts| then ts
    else if Advances(ts, i) then Scan(ts, i + 1)
    else Scan(Collapse(ts, i), i)
  }

  /** The root list a union of two heaps produces. */
  function UnionRoots(a: seq<Tree>, b: seq<Tree>): (r: seq<Tree>)
    ensures |r| <= |a| + |b|
  {
    var m := MergeByDegree(a, b);
    if m == [] then [] else Scan(m, 0)
  }

  /** Degree invariant of the union loop at window position i: the roots
      before x strictly increase and are at most x's degree; if the last of
      them ties with x, then x is the middle of three equal degrees and the
      next step links; from x on, degrees are nondecreasing; after x, no
      degree occurs three times. */
  ghost predicate UnionWindow(ts: seq<Tree>, i: nat)
  {
    && i < |ts|
    && (forall j, k | 0 <= j < k < i :: Deg(ts[j]) < Deg(ts[k]))
    && (forall j | 0 <= j < i :: Deg(ts[j]) <= Deg(ts[i]))
    && (0 < i && Deg(ts[i - 1]) == Deg(ts[i]) ==>
          i + 1 < |ts| && Deg(ts[i + 1]) == Deg(ts[i]) &&
          (i + 2 < |ts| ==> Deg(ts[i + 1]) < Deg(ts[i + 2])))
    && (forall j, k | i <= j < k < |ts| :: Deg(ts[j]) <= Deg(ts[k]))
    && (forall j | i < j && j + 2 < |ts| :: Deg(ts[j]) < Deg(ts[j + 2]))
  }

  lemma WindowStart(ts: seq<Tree>)
    requires ts != [] && MergedShape(ts)
    ensures UnionWindow(ts, 0)
  {
  }

  lemma WindowAdvance(ts: seq<Tree>, i: nat)
    requires UnionWindow(ts, i) && i + 1 < |ts| && Advances(ts, i)
    ensures UnionWindow(ts, i + 1)
  {
    if 0 < i {
      assert Deg(ts[i - 1]) < Deg(ts[i]);
    }
  }

  lemma WindowCollapse(ts: seq<Tree>, i: nat)
    requires UnionWindow(ts, i) && i + 1 < |ts| && !Advances(ts, i)
    requires Deg(Combine(ts[i], ts[i + 1])) == Deg(ts[i]) + 1
    ensures UnionWindow(Collapse(ts, i), i)
  {
    CollapseBefore(ts, i);
    CollapseAfter(ts, i);
  }

  /** The degree facts before the window survive a link at the window. */
  lemma CollapseBefore(ts: seq<Tree>, i: nat)
    requires UnionWindow(ts, i) && i + 1 < |ts|
    requires Deg(Combine(ts[i], ts[i + 1])) == Deg(ts[i]) + 1
    ensures forall j, k | 0 <= j < k < i :: Deg(Collapse(ts, i)[j]) < Deg(Collapse(ts, i)[k])
    ensures forall j | 0 <= j < i :: Deg(Collapse(ts, i)[j]) < Deg(Collapse(ts, i)[i])
  {
    var c := Collapse(ts, i);
    assert forall j | 0 <= j < i :: c[j] == ts[j];
    assert c[i] == Combine(ts[i], ts[i + 1]);
  }

  /** The degree facts from the window on survive a link at the window that
      the window test refused to skip. */
  lemma CollapseAfter(ts: seq<Tree>, i: nat)
    requires UnionWindow(ts, i) && i + 1 < |ts| && !Advances(ts, i)
    requires Deg(Combine(ts[i], ts[i + 1])) == Deg(ts[i]) + 1
    ensures forall j, k | i <= j < k < |Collapse(ts, i)| :: Deg(Collapse(ts, i)[j]) <= Deg(Collapse(ts, i)[k])
    ensures forall j | i < j && j + 2 < |Collapse(ts, i)| :: Deg(Collapse(ts, i)[j]) < Deg(Collapse(ts, i)[j + 2])
  {
    var c := Collapse(ts, i);
    assert c[i] == Combine(ts[i], ts[i + 1]);
    assert forall j | i < j < |c| :: c[j] == ts[j + 1];
    if i + 2 < |ts| {
      assert Deg(ts[i + 1]) <= Deg(ts[i + 2]);
    }
  }

  lemma WindowEnd(ts: seq<Tree>, i: nat)
    requires UnionWindow(ts, i) && i + 1 == |ts|
    ensures StrictlyIncreasing(ts)
  {
  }

  lemma {:induction false} CollapseKeys(ts: seq<Tree>, i: nat)
    requires i + 1 < |ts|
    ensures KeysF(Collapse(ts, i)) == KeysF(ts)
  {
    var x, y := ts[i], ts[i + 1];
    var pre, post := ts[..i], ts[i + 2..];
    assert ts == pre + ([x, y] + post);
    assert Collapse(ts, i) == pre + ([Combine(x, y)] + post);
    KeysAppend(pre, [x, y] + post);
    KeysAppend(pre, [Combine(x, y)] + post);
    KeysAppend([x, y], post);
    KeysAppend([Combine(x, y)], post);
    assert [x, y][1..] == [y];
    CombineContents(x, y);
  }

  lemma {:induction false} CollapseMembers(ts: seq<Tree>, i: nat)
    requires i + 1 < |ts|
    ensures MembersF(Collapse(ts, i)) == MembersF(ts)
  {
    var x, y := ts[i], ts[i + 1];
    var pre, post := ts[..i], ts[i + 2..];
    assert ts == pre + ([x, y] + post);
    assert Collapse(ts, i) == pre + ([Combine(x, y)] + post);
    MembersAppend(pre, [x, y] + post);
    MembersAppend(pre, [Combine(x, y)] + post);
    MembersAppend([x, y], post);
    MembersAppend([Combine(x, y)], post);
    assert [x, y][1..] == [y];
    CombineContents(x, y);
  }

  lemma {:induction false} ScanContents(ts: seq<Tree>, i: nat)
    requires i < |ts|
    ensures KeysF(Scan(ts, i)) == KeysF(ts)
    ensures MembersF(Scan(ts, i)) == MembersF(ts)
    decreases |ts| - i
  {
    if i + 1 == |ts| {
    } else if Advances(ts, i) {
      ScanContents(ts, i + 1);
    } else {
      CollapseKeys(ts, i);
      CollapseMembers(ts, i);
      ScanContents(Collapse(ts, i), i);
    }
  }

  lemma {:induction false} ScanShape(ts: seq<Tree>, i: nat)
    requires UnionWindow(ts, i) && TreesValid(ts)
    ensures IsBinomialHeap(Scan(ts, i))
    decreases |ts| - i
  {
    if i + 1 == |ts| {
      WindowEnd(ts, i);
    } else if Advances(ts, i) {
      WindowAdvance(ts, i);
      ScanShape(ts, i + 1);
    } else {
      assert ts[i] in ts && ts[i + 1] in ts;
      CombineTree(ts[i], ts[i + 1]);
      WindowCollapse(ts, i);
      var c := Collapse(ts, i);
      forall t | t in c ensures Binomial(t) && HeapOrdered(t) {
        assert t in ts[..i] || t == Combine(ts[i], ts[i + 1]) || t in ts[i + 2..];
      }
      ScanShape(c, i);
    }
  }

  /** Union keeps every key and every node, and no more. */
  lemma UnionContents(a: seq<Tree>, b: seq<Tree>)
    ensures KeysF(UnionRoots(a, b)) == KeysF(a) + KeysF(b)
    ensures MembersF(UnionRoots(a, b)) == MembersF(a) + MembersF(b)
    ensures SizeF(UnionRoots(a, b)) == SizeF(a) + SizeF(b)
  {
    var m := MergeByDegree(a, b);
    MergeKeys(a, b);
    MergeMembers(a, b);
    if m != [] {
      ScanContents(m, 0);
    }
    SizeFCountsKeys(a);
    SizeFCountsKeys(b);
    SizeFCountsKeys(UnionRoots(a, b));
  }

  /** The pass never empties a nonempty list. */
  lemma {:induction false} ScanNonEmpty(ts: seq<Tree>, i: nat)
    requires i < |ts|
    ensures Scan(ts, i) != []
    decreases |ts| - i
  {
    if i + 1 == |ts| {
    } else if Advances(ts, i) {
      ScanNonEmpty(ts, i + 1);
    } else {
      ScanNonEmpty(Collapse(ts, i), i);
    }
  }

  /** Union has no roots exactly when neither heap has any. */
  lemma UnionEmpty(a: seq<Tree>, b: seq<Tree>)
    ensures UnionRoots(a, b) == [] <==> a == [] && b == []
  {
    var m := MergeByDegree(a, b);
    MergeTrees(a, b);
    if m != [] {
      ScanNonEmpty(m, 0);
    } else {
      assert multiset(a) + multiset(b) == multiset{};
    }
  }

  /** Union of two binomial heaps is a binomial heap. */
  lemma UnionShape(a: seq<Tree>, b: seq<Tree>)
    requires IsBinomialHeap(a) && IsBinomialHeap(b)
    ensures IsBinomialHeap(UnionRoots(a, b))
  {
    var m := MergeByDegree(a, b);
    if m != [] {
      MergeShape(a, b);
      WindowStart(m);
      MergeTrees(a, b);
      forall t | t in m ensures Binomial(t) && HeapOrdered(t) {
        assert t in multiset(a) + multiset(b);
      }
      ScanShape(m, 0);
    }
  }

  /** Inserting a fresh degree-0 node is a union with a one-node heap: the
      result is a binomial heap holding the old keys plus the new one. */
  lemma InsertCorrect(ts: seq<Tree>, x: Node, k: Int32)
    requires IsBinomialHeap(ts)
    ensures IsBinomialHeap(UnionRoots(ts, [Tree(x, k, [])]))
  {
    var one := [Tree(x, k, [])];
    assert IsBinomialHeap(one);
    UnionShape(ts, one);
  }

  /** Insertion adds exactly the new key and one node. */
  lemma InsertContents(ts: seq<Tree>, x: Node, k: Int32)
    ensures KeysF(UnionRoots(ts, [Tree(x, k, [])])) == KeysF(ts) + multiset{k}
    ensures SizeF(UnionRoots(ts, [Tree(x, k, [])])) == SizeF(ts) + 1
    ensures MembersF(UnionRoots(ts, [Tree(x, k, [])])) == MembersF(ts) + multiset{x}
  {
    var one := [Tree(x, k, [])];
    assert MembersF(one) == multiset{x} by {
      assert one[1..] == [];
    }
    assert KeysF(one) == multiset{k} by {
      assert one[1..] == [];
    }
    assert SizeF(one) == 1 by {
      assert one[1..] == [];
    }
    UnionContents(ts, one);
  }

  /** Inserting a node not yet in the heap uses no node twice. */
  lemma InsertDistinct(ts: seq<Tree>, x: Node, k: Int32)
    requires forall n | n in MembersF(ts) :: MembersF(ts)[n] == 1
    requires x !in MembersF(ts)
    ensures forall n | n in MembersF(UnionRoots(ts, [Tree(x, k, [])])) ::
      MembersF(UnionRoots(ts, [Tree(x, k, [])]))[n] == 1
  {
    InsertContents(ts, x, k);
  }
}
