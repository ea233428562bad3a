/** The block tree of the buddy allocator: one descriptor per node, stored
    breadth-first in a flat sequence (children of node i at 2i+1 and 2i+2),
    the layout the construction loops give it, and the two walks towards
    the root that allocation and free perform on the free flags. */
module BlockTree {
  import opened BuddyMath

  /** One node: a region of `size` bytes covering arena offsets `start`
      through `end` inclusive, and whether it may be handed out. */
  datatype BlockDesc = BlockDesc(isFree: bool, size: nat, start: nat, end: nat)

  datatype Option<T> = None | Some(value: T)

  /** The parent of a non-root node: node i is one of its two children. */
  function Parent(i: nat): (p: nat)
    requires i > 0
    ensures i == 2 * p + 1 || i == 2 * p + 2
  {
    Half(i - 1)
  }

  /** The buddy of a non-root node: i + 1 for an odd index, i - 1 for an
      even one; the other child of the same parent. */
  function Sibling(i: nat): (s: nat)
    requires i > 0
    ensures s > 0 && s != i && Parent(s) == Parent(i)
  {
    if i == 2 * Parent(i) + 1 then i + 1 else i - 1
  }

  /** In a tree of odd size every non-root node has its buddy inside it. */
  lemma SiblingInTree(n: nat, i: nat)
    requires Odd(n) && 0 < i < n
    ensures Sibling(i) < n
  {
  }

  // ---------------------------------------------------------------------
  // Construction

  /** The descriptors the lateral loop pushes for one level: `count` free
      nodes of `size` bytes, the first covering start..end; after each push
      the next start is end + 1 and the end grows by that start. */
  function LateralNodes(size: nat, start: nat, end: nat, count: nat): (r: seq<BlockDesc>)
    ensures |r| == count
    ensures forall k :: 0 <= k < |r| ==> r[k].isFree && r[k].size == size
    decreases count
  {
    if count == 0 then []
    else [BlockDesc(true, size, start, end)] + LateralNodes(size, end + 1, end + (end + 1), count - 1)
  }

  /** All 2^level nodes of one level, whose blocks have `size` bytes. */
  function LevelNodes(size: nat, level: nat): (r: seq<BlockDesc>)
    requires size >= 1
    ensures |r| == Pow2(level)
    ensures forall k :: 0 <= k < |r| ==> r[k].isFree && r[k].size == size
  {
    LateralNodes(size, 0, size - 1, Pow2(level))
  }

  /** The first `levels` levels of the tree of a heap of 2^order bytes, in
      the order the construction loop pushes them; level l has blocks of
      2^(order - l) bytes. */
  function Levels(order: nat, levels: nat): (r: seq<BlockDesc>)
    requires levels <= order + 1
    ensures |r| == TreeSize(levels)
  {
    if levels == 0 then []
    else Levels(order, levels - 1) + LevelNodes(Pow2(order - (levels - 1)), levels - 1)
  }

  /** Where the lateral loop starts the j-th block of a level: 0 for the
      first, 2^(j-1) * size after it. */
  function NodeStart(size: nat, j: nat): nat
  {
    if j == 0 then 0 else Doubled(size, j - 1)
  }

  /** Where the lateral loop ends the j-th block of a level: one byte
      before 2^j * size. */
  function NodeEnd(size: nat, j: nat): int
  {
    Doubled(size, j) - 1
  }

  /** The lateral recurrence seen from its second node on: a level whose
      first region has doubled length is the same level shifted by one. */
  lemma NodeDouble(e: nat, j: nat)
    requires j >= 1
    ensures NodeStart(2 * e, j) == NodeStart(e, j + 1)
    ensures NodeEnd(2 * e, j) == NodeEnd(e, j + 1)
  {
    DoubledShift(e, j - 1);
    DoubledShift(e, j);
  }

  /** The j-th node pushed by the lateral loop: after the first, the
      region of node j ends one byte before 2^j times the first region's
      length and starts at half of that. */
  lemma {:induction false} LateralNodesAt(size: nat, start: nat, end: nat, count: nat, j: nat)
    requires j < count
    ensures j == 0 ==> LateralNodes(size, start, end, count)[j] == BlockDesc(true, size, start, end)
    ensures j > 0 ==> LateralNodes(size, start, end, count)[j] ==
                      BlockDesc(true, size, NodeStart(end + 1, j), NodeEnd(end + 1, j))
    decreases j
  {
    if j > 0 {
      var e := end + 1;
      LateralNodesAt(size, e, end + e, count - 1, j - 1);
      if j > 1 {
        NodeDouble(e, j - 1);
      }
    }
  }

  /** The j-th node of a level of `size`-byte blocks. */
  lemma LevelNodesAt(size: nat, level: nat, j: nat)
    requires size >= 1 && j < Pow2(level)
    ensures LevelNodes(size, level)[j] == BlockDesc(true, size, NodeStart(size, j), NodeEnd(size, j))
  {
    LateralNodesAt(size, 0, size - 1, Pow2(level), j);
  }

  /** Node j of level l sits at index TreeSize(l) + j. */
  lemma {:induction false} LevelsAt(order: nat, levels: nat, l: nat, j: nat)
    requires l < levels <= order + 1 && j < Pow2(l)
    ensures TreeSize(l) + j < TreeSize(levels)
    ensures Levels(order, levels)[TreeSize(l) + j] == LevelNodes(Pow2(order - l), l)[j]
    decreases levels
  {
    var front := Levels(order, levels - 1);
    var last := LevelNodes(Pow2(order - (levels - 1)), levels - 1);
    assert Levels(order, levels) == front + last;
    if l < levels - 1 {
      LevelsAt(order, levels - 1, l, j);
      assert TreeSize(l) + j < |front|;
    } else {
      assert TreeSize(l) == |front|;
    }
  }

  /** The tree as first built for a heap of 2^order bytes: every level down
      to the one of 4-byte blocks, level order - 2. */
  function FreshTree(order: nat): (r: seq<BlockDesc>)
    requires order >= 2
    ensures |r| == Pow2(order - 1) - 1
  {
    TreeSizeClosed(order - 1);
    Levels(order, order - 1)
  }

  /** The layout of the freshly built tree: node j of level l covers a block
      of heap_size / 2^l bytes, from NodeStart to 2^j block lengths minus
      one, and is free. */
  lemma FreshTreeAt(order: nat, l: nat, j: nat)
    requires 2 <= order && l <= order - 2 && j < Pow2(l)
    ensures TreeSize(l) + j < |FreshTree(order)|
    ensures FreshTree(order)[TreeSize(l) + j] ==
            BlockDesc(true, Pow2(order - l), NodeStart(Pow2(order - l), j), NodeEnd(Pow2(order - l), j))
  {
    LevelsAt(order, order - 1, l, j);
    LevelNodesAt(Pow2(order - l), l, j);
  }

  /** Every node the construction pushes is free. */
  lemma {:induction false} LevelsFree(order: nat, levels: nat)
    requires levels <= order + 1
    ensures forall k :: 0 <= k < |Levels(order, levels)| ==> Levels(order, levels)[k].isFree
    decreases levels
  {
    if levels > 0 {
      LevelsFree(order, levels - 1);
    }
  }

  /** The fresh tree has its own layout, and an odd number of nodes, all free. */
  lemma FreshTreeShaped(order: nat)
    requires order >= 2
    ensures Shaped(FreshTree(order), order)
    ensures Odd(|FreshTree(order)|)
    ensures forall k :: 0 <= k < |FreshTree(order)| ==> FreshTree(order)[k].isFree
  {
    TreeOdd(order);
    LevelsFree(order, order - 1);
    assert Layout(FreshTree(order)) == FreshTree(order);
  }

  /** `t` has the layout of the freshly built tree for a heap of 2^order
      bytes; only the free flags may differ. */
  ghost predicate Shaped(t: seq<BlockDesc>, order: nat)
    requires order >= 2
  {
    Layout(t) == FreshTree(order)
  }

  /** The tree with every node marked free: what is left of it once the
      flags are ignored. */
  function Layout(t: seq<BlockDesc>): (r: seq<BlockDesc>)
    ensures |r| == |t|
  {
    seq(|t|, k requires 0 <= k < |t| => t[k].(isFree := true))
  }

  /** A tree with the built layout: node j of level l has the size, start
      and end that the construction loops gave it. */
  lemma ShapedAt(t: seq<BlockDesc>, order: nat, l: nat, j: nat)
    requires 2 <= order && Shaped(t, order) && l <= order - 2 && j < Pow2(l)
    ensures TreeSize(l) + j < |t|
    ensures t[TreeSize(l) + j].size == Pow2(order - l)
    ensures t[TreeSize(l) + j].start == NodeStart(Pow2(order - l), j)
    ensures t[TreeSize(l) + j].end == NodeEnd(Pow2(order - l), j)
  {
    FreshTreeAt(order, l, j);
    assert Layout(t)[TreeSize(l) + j] == FreshTree(order)[TreeSize(l) + j];
  }

  /** A shaped tree has the 2^(order-1) - 1 nodes of its order - 1 levels. */
  lemma ShapedSize(t: seq<BlockDesc>, order: nat)
    requires 2 <= order && Shaped(t, order)
    ensures |t| == Pow2(order - 1) - 1
  {
    assert |t| == |Layout(t)|;
  }

  /** Within one level the starts strictly increase from left to right, so
      no two nodes of a level share a start. */
  lemma NodeStartIncreasing(size: nat, a: nat, b: nat)
    requires size >= 1 && a < b
    ensures NodeStart(size, a) < NodeStart(size, b)
  {
    if a > 0 {
      DoubledIncreasing(size, a - 1, b - 1);
    }
  }

  /** Every start of a level is a multiple of its block size. */
  lemma NodeStartAligned(size: nat, j: nat)
    requires size >= 1
    ensures RoundDown(NodeStart(size, j), size) == NodeStart(size, j)
  {
    if j > 0 {
      DoubledIsProduct(size, j - 1);
      RoundDownMultiple(Pow2(j - 1), size);
    }
  }

  /** Every node of a level spans at least one block of the level. */
  lemma NodeSpan(size: nat, j: nat)
    requires size >= 1
    ensures NodeStart(size, j) + size <= NodeEnd(size, j) + 1
  {
  }

  /** Of the nodes of level l in a heap of 2^order bytes exactly the first
      l + 1 end inside the heap: along a level the ends double. */
  lemma NodeInArena(order: nat, l: nat, j: nat)
    requires l <= order
    ensures NodeEnd(Pow2(order - l), j) < Pow2(order) <==> j <= l
  {
    DoubledPow2(order - l, j);
    Pow2Increasing(order, order - l + j);
  }

  /** The walks change free flags only: the layout is kept. */
  lemma MarkPathLayout(t: seq<BlockDesc>, i: nat)
    requires i < |t|
    ensures Layout(MarkPath(t, i)) == Layout(t)
  {
    forall k | 0 <= k < |t|
      ensures Layout(MarkPath(t, i))[k] == Layout(t)[k]
    {
      MarkPathAt(t, i, k);
    }
    assert Layout(MarkPath(t, i)) == Layout(t);
  }

  /** Setting one free flag keeps the layout. */
  lemma FlagLayout(t: seq<BlockDesc>, i: nat, free: bool)
    requires i < |t|
    ensures Layout(t[i := t[i].(isFree := free)]) == Layout(t)
  {
    var u := t[i := t[i].(isFree := free)];
    assert Layout(u) == Layout(t);
  }

  lemma CoalesceLayout(t: seq<BlockDesc>, i: nat)
    requires i < |t| && Odd(|t|)
    ensures Layout(Coalesce(t, i)) == Layout(t)
  {
    forall k | 0 <= k < |t|
      ensures Layout(Coalesce(t, i))[k] == Layout(t)[k]
    {
      CoalesceAt(t, i, k);
    }
    assert Layout(Coalesce(t, i)) == Layout(t);
  }

  // ---------------------------------------------------------------------
  // Allocation: first fit in one level and marking towards the root

  /** The index the scan of get_block stops at: the lowest index in
      i..stop-1 whose node is free, if any. */
  function FirstFree(t: seq<BlockDesc>, i: nat, stop: nat): (r: Option<nat>)
    requires i <= stop <= |t|
    ensures r.Some? ==> i <= r.value < stop && t[r.value].isFree
    decreases stop - i
  {
    if i == stop then None
    else if t[i].isFree then Some(i)
    else FirstFree(t, i + 1, stop)
  }

  /** FirstFree finds the first free node: every node it passes over is in
      use, and when it finds none, all of i..stop-1 are in use. */
  lemma {:induction false} FirstFreeIsFirst(t: seq<BlockDesc>, i: nat, stop: nat)
    requires i <= stop <= |t|
    ensures FirstFree(t, i, stop).Some? ==>
              forall k :: i <= k < FirstFree(t, i, stop).value ==> !t[k].isFree
    ensures FirstFree(t, i, stop).None? ==> forall k :: i <= k < stop ==> !t[k].isFree
    decreases stop - i
  {
    if i < stop && !t[i].isFree {
      FirstFreeIsFirst(t, i + 1, stop);
    }
  }

  /** a is i or one of its ancestors. */
  predicate AncestorOrSelf(a: nat, i: nat)
    decreases i
  {
    a == i || (i > 0 && AncestorOrSelf(a, Parent(i)))
  }

  lemma {:induction false} AncestorBelow(a: nat, i: nat)
    requires AncestorOrSelf(a, i)
    ensures a <= i
    decreases i
  {
    if a != i {
      AncestorBelow(a, Parent(i));
    }
  }

  /** Allocation's walk: mark node i used, then every ancestor up to the root. */
  function MarkPath(t: seq<BlockDesc>, i: nat): (r: seq<BlockDesc>)
    requires i < |t|
    ensures |r| == |t|
    decreases i
  {
    var marked := t[i := t[i].(isFree := false)];
    if i == 0 then marked else MarkPath(marked, Parent(i))
  }

  /** MarkPath marks exactly i and its ancestors used and changes nothing else. */
  lemma {:induction false} MarkPathAt(t: seq<BlockDesc>, i: nat, k: nat)
    requires i < |t| && k < |t|
    ensures MarkPath(t, i)[k] == if AncestorOrSelf(k, i) then t[k].(isFree := false) else t[k]
    decreases i
  {
    if i > 0 {
      var marked := t[i := t[i].(isFree := false)];
      MarkPathAt(marked, Parent(i), k);
      if k == i && AncestorOrSelf(k, Parent(i)) {
        AncestorBelow(k, Parent(i));
      }
    }
  }

  /** The parent of an ancestor of i is an ancestor of i. */
  lemma {:induction false} AncestorParent(a: nat, i: nat)
    requires a > 0 && AncestorOrSelf(a, i)
    ensures AncestorOrSelf(Parent(a), i)
    decreases i
  {
    if a != i {
      AncestorParent(a, Parent(i));
    }
  }

  /** Every used node has a used parent, as allocation's walk to the root
      leaves it. */
  ghost predicate AncestorsUsed(t: seq<BlockDesc>)
  {
    forall k :: 0 < k < |t| && !t[k].isFree ==> !t[Parent(k)].isFree
  }

  /** Allocation's walk keeps every used node's ancestors used. */
  lemma MarkPathKeepsAncestorsUsed(t: seq<BlockDesc>, i: nat)
    requires i < |t| && AncestorsUsed(t)
    ensures AncestorsUsed(MarkPath(t, i))
  {
    var u := MarkPath(t, i);
    forall k | 0 < k < |t| && !u[k].isFree
      ensures !u[Parent(k)].isFree
    {
      MarkPathAt(t, i, k);
      MarkPathAt(t, i, Parent(k));
      if AncestorOrSelf(k, i) {
        AncestorParent(k, i);
      }
    }
  }

  /** Every node of one level, TreeSize(level) up to TreeSize(level + 1),
      lies in the tree and is in use. */
  ghost predicate LevelUsed(t: seq<BlockDesc>, level: nat)
  {
    forall k :: TreeSize(level) <= k < TreeSize(level + 1) ==> k < |t| && !t[k].isFree
  }

  // ---------------------------------------------------------------------
  // Free: merging with free buddies towards the root

  /** Free's walk from node i: while not at the root, if the buddy of the
      current node is free, mark the parent free and continue from it;
      stop at the first buddy that is not free. */
  function Coalesce(t: seq<BlockDesc>, i: nat): (r: seq<BlockDesc>)
    requires i < |t| && Odd(|t|)
    ensures |r| == |t|
    decreases i
  {
    if i == 0 then t
    else
      SiblingInTree(|t|, i);
      if t[Sibling(i)].isFree then
        var p := Parent(i);
        Coalesce(t[p := t[p].(isFree := true)], p)
      else t
  }

  /** Coalesce only ever frees strict ancestors of i and changes nothing else. */
  lemma {:induction false} CoalesceAt(t: seq<BlockDesc>, i: nat, k: nat)
    requires i < |t| && Odd(|t|) && k < |t|
    ensures Coalesce(t, i)[k] == t[k]
            || (k != i && AncestorOrSelf(k, i) && Coalesce(t, i)[k] == t[k].(isFree := true))
    decreases i
  {
    if i > 0 {
      SiblingInTree(|t|, i);
    }
    if i > 0 && t[Sibling(i)].isFree {
      var p := Parent(i);
      CoalesceAt(t[p := t[p].(isFree := true)], p, k);
      if AncestorOrSelf(k, p) {
        AncestorBelow(k, p);
      }
    }
  }

  /** Every node on the path from i up to (not including) its ancestor a has
      a free buddy: exactly the condition under which the merge walk from i
      climbs as far as a. */
  predicate BuddiesFreeUpTo(t: seq<BlockDesc>, i: nat, a: nat)
    decreases i
  {
    i == a || (i > 0 && Sibling(i) < |t| && t[Sibling(i)].isFree && BuddiesFreeUpTo(t, Parent(i), a))
  }

  /** The buddy of a node on the path from p to the root is never p. */
  lemma SiblingNotBelow(c: nat, p: nat)
    requires c > 0 && AncestorOrSelf(c, p)
    ensures Sibling(c) != p
  {
    if c != p {
      AncestorBelow(c, Parent(p));
    }
  }

  /** Changing node p leaves the buddies on the path above p unchanged. */
  lemma {:induction false} BuddiesFrame(t: seq<BlockDesc>, p: nat, d: BlockDesc, c: nat, a: nat)
    requires p < |t| && AncestorOrSelf(c, p)
    ensures BuddiesFreeUpTo(t[p := d], c, a) == BuddiesFreeUpTo(t, c, a)
    decreases c
  {
    if c != a && c > 0 {
      SiblingNotBelow(c, p);
      AncestorParent(c, p);
      BuddiesFrame(t, p, d, Parent(c), a);
    }
  }

  /** The merge walk exactly: a strict ancestor a of i ends up free if and
      only if it was free already or every buddy on the path from i up to a
      was free, so the walk stops at the first buddy in use. */
  lemma {:induction false} CoalesceExact(t: seq<BlockDesc>, i: nat, a: nat)
    requires a < i < |t| && Odd(|t|) && AncestorOrSelf(a, i)
    ensures Coalesce(t, i)[a].isFree == (t[a].isFree || BuddiesFreeUpTo(t, i, a))
    decreases i
  {
    SiblingInTree(|t|, i);
    if t[Sibling(i)].isFree {
      var p := Parent(i);
      var u := t[p := t[p].(isFree := true)];
      if a == p {
        CoalesceAt(u, p, p);
      } else {
        AncestorBelow(a, p);
        CoalesceExact(u, p, a);
        BuddiesFrame(t, p, t[p].(isFree := true), p, a);
      }
    }
  }

  /** The free flags agree with the buddy rule everywhere: a parent is free
      exactly when both of its children are. A tree in which every node is
      free satisfies it. */
  ghost predicate Consistent(t: seq<BlockDesc>)
  {
    Odd(|t|) &&
    forall k :: 0 < k < |t| && Sibling(k) < |t| ==> t[Parent(k)].isFree == (t[k].isFree && t[Sibling(k)].isFree)
  }

  /** A tree whose nodes are all free obeys the buddy rule and has no used
      node at all. */
  lemma FreshConsistent(order: nat)
    requires order >= 2
    ensures Consistent(FreshTree(order)) && AncestorsUsed(FreshTree(order))
  {
    var f := FreshTree(order);
    FreshTreeShaped(order);
    forall k | 0 < k < |f|
      ensures f[Parent(k)].isFree == (f[k].isFree && f[Sibling(k)].isFree)
    {
      SiblingInTree(|f|, k);
    }
  }

  /** In a consistent tree a used node has only used ancestors. */
  lemma {:induction false} UsedUpward(t: seq<BlockDesc>, p: nat, k: nat)
    requires Consistent(t) && p < |t| && !t[p].isFree && AncestorOrSelf(k, p)
    ensures k <= p && !t[k].isFree
    decreases p
  {
    AncestorBelow(k, p);
    if k != p {
      SiblingInTree(|t|, p);
      UsedUpward(t, Parent(p), k);
    }
  }

  /** The tree with every strict ancestor of j marked used, as allocation
      leaves it once the allocated node j itself is freed again. */
  function MarkAbove(t: seq<BlockDesc>, j: nat): (r: seq<BlockDesc>)
    requires j < |t|
    ensures |r| == |t|
  {
    if j == 0 then t else MarkPath(t, Parent(j))
  }

  /** Freeing node i again after MarkPath leaves exactly its strict
      ancestors marked used. */
  lemma UnmarkSelf(t: seq<BlockDesc>, i: nat)
    requires i < |t| && t[i].isFree
    ensures MarkPath(t, i)[i := t[i]] == MarkAbove(t, i)
  {
    var u := MarkPath(t, i)[i := t[i]];
    forall k | 0 <= k < |t|
      ensures u[k] == MarkAbove(t, i)[k]
    {
      MarkPathAt(t, i, k);
      if i > 0 {
        MarkPathAt(t, Parent(i), k);
        if k == i && AncestorOrSelf(i, Parent(i)) {
          AncestorBelow(i, Parent(i));
        }
      }
    }
  }

  /** Starting from a free node j of a consistent tree whose ancestors have
      all been marked used, the merge walk restores every ancestor's flag. */
  lemma {:induction false} CoalesceRestores(t: seq<BlockDesc>, j: nat)
    requires Consistent(t) && j < |t| && t[j].isFree
    ensures Coalesce(MarkAbove(t, j), j) == t
    decreases j
  {
    if j > 0 {
      var p, s := Parent(j), Sibling(j);
      var g := MarkPath(t, p);
      SiblingInTree(|t|, j);
      MarkPathAt(t, p, s);
      if AncestorOrSelf(s, p) {
        AncestorBelow(s, p);
      }
      assert g[s] == t[s];
      if t[s].isFree {
        assert t[p].isFree;
        UnmarkSelf(t, p);
        MarkPathAt(t, p, p);
        assert g[p].(isFree := true) == t[p];
        CoalesceRestores(t, p);
      } else {
        forall k | 0 <= k < |t|
          ensures g[k] == t[k]
        {
          MarkPathAt(t, p, k);
          if AncestorOrSelf(k, p) {
            UsedUpward(t, p, k);
          }
        }
        assert g == t;
      }
    }
  }

  /** A strict ancestor a of i has a child on the way from i up to it. */
  lemma {:induction false} AncestorChild(a: nat, i: nat) returns (c: nat)
    requires AncestorOrSelf(a, i) && a != i
    ensures c > 0 && Parent(c) == a && AncestorOrSelf(c, i)
    decreases i
  {
    if Parent(i) == a {
      c := i;
    } else {
      c := AncestorChild(a, Parent(i));
    }
  }

  /** Allocation's walk from a leaf keeps the buddy rule: every parent it
      marks used gets a child marked used with it. */
  lemma MarkPathConsistent(t: seq<BlockDesc>, i: nat)
    requires Consistent(t) && i < |t| <= 2 * i + 1
    ensures Consistent(MarkPath(t, i))
  {
    var u := MarkPath(t, i);
    forall k | 0 < k < |u| && Sibling(k) < |u|
      ensures u[Parent(k)].isFree == (u[k].isFree && u[Sibling(k)].isFree)
    {
      var p, s := Parent(k), Sibling(k);
      MarkPathAt(t, i, k);
      MarkPathAt(t, i, s);
      MarkPathAt(t, i, p);
      if AncestorOrSelf(p, i) {
        assert p != i;
        var c := AncestorChild(p, i);
        assert c == k || c == s;
      } else {
        if AncestorOrSelf(k, i) {
          AncestorParent(k, i);
        }
        if AncestorOrSelf(s, i) {
          AncestorParent(s, i);
        }
      }
    }
  }

  /** The buddy rule between node k, its buddy and their parent. */
  ghost predicate RuleAt(t: seq<BlockDesc>, k: nat)
  {
    0 < k < |t| && Sibling(k) < |t| ==> t[Parent(k)].isFree == (t[k].isFree && t[Sibling(k)].isFree)
  }

  /** The buddy rule holds at every parent except possibly c's. */
  ghost predicate RuleBut(t: seq<BlockDesc>, c: nat)
  {
    forall k: nat :: 0 < k && (c == 0 || Parent(k) != Parent(c)) ==> RuleAt(t, k)
  }

  /** With no parent excepted, the rule holds everywhere. */
  lemma RuleEverywhere(t: seq<BlockDesc>)
    requires Odd(|t|) && RuleBut(t, 0)
    ensures Consistent(t)
  {
    forall k | 0 < k < |t| && Sibling(k) < |t|
      ensures t[Parent(k)].isFree == (t[k].isFree && t[Sibling(k)].isFree)
    {
      assert RuleAt(t, k);
    }
  }

  /** One merge step from c, with c and its buddy free: the rule now holds
      at c's parent p, and the exception moves up to p's parent. */
  lemma MergeStep(u: seq<BlockDesc>, c: nat)
    requires Odd(|u|) && 0 < c < |u| && Sibling(c) < |u| && u[c].isFree && u[Sibling(c)].isFree
    requires RuleBut(u, c)
    ensures var p := Parent(c);
            var v := u[p := u[p].(isFree := true)];
            RuleBut(v, p) && (p > 0 ==> Sibling(p) < |v| && (v[Parent(p)].isFree ==> v[Sibling(p)].isFree))
  {
    var p, s := Parent(c), Sibling(c);
    var v := u[p := u[p].(isFree := true)];
    forall k: nat | 0 < k && (p == 0 || Parent(k) != Parent(p))
      ensures RuleAt(v, k)
    {
      if 0 < k < |v| && Sibling(k) < |v| {
        if Parent(k) == p {
          assert k == c || k == s;
        } else {
          assert RuleAt(u, k);
          assert k != p && Sibling(k) != p;
        }
      }
    }
    if p > 0 {
      SiblingInTree(|u|, p);
      assert RuleAt(u, p);
    }
  }

  /** The merge walk stops at a used buddy: the rule then holds at c's
      parent as well. */
  lemma MergeStop(u: seq<BlockDesc>, c: nat)
    requires 0 < c < |u| && Sibling(c) < |u| && !u[Sibling(c)].isFree
    requires u[Parent(c)].isFree ==> u[Sibling(c)].isFree
    requires RuleBut(u, c)
    ensures RuleBut(u, 0)
  {
    forall k: nat | 0 < k
      ensures RuleAt(u, k)
    {
      if 0 < k < |u| && Sibling(k) < |u| && Parent(k) == Parent(c) {
        assert k == c || k == Sibling(c);
      }
    }
  }

  /** The merge walk from a free node c restores the buddy rule when the
      rule holds at every parent but c's, and c's parent is free only if
      c's buddy is. */
  lemma {:induction false} CoalesceConsistent(u: seq<BlockDesc>, c: nat)
    requires Odd(|u|) && c < |u| && u[c].isFree
    requires c > 0 ==> Sibling(c) < |u| && (u[Parent(c)].isFree ==> u[Sibling(c)].isFree)
    requires RuleBut(u, c)
    ensures Consistent(Coalesce(u, c))
    decreases c
  {
    if c > 0 && u[Sibling(c)].isFree {
      var p := Parent(c);
      MergeStep(u, c);
      CoalesceConsistent(u[p := u[p].(isFree := true)], p);
    } else {
      if c > 0 {
        MergeStop(u, c);
      }
      RuleEverywhere(u);
    }
  }

  /** The index the scan of free stops at: the lowest index in i..stop-1
      whose node starts at arena offset x, if any. */
  function FindStart(t: seq<BlockDesc>, i: nat, stop: nat, x: nat): (r: Option<nat>)
    requires i <= stop <= |t|
    ensures r.Some? ==> i <= r.value < stop && t[r.value].start == x
    decreases stop - i
  {
    if i == stop then None
    else if t[i].start == x then Some(i)
    else FindStart(t, i + 1, stop, x)
  }

  /** FindStart finds the first node starting at x, or reports that none
      of i..stop-1 does. */
  lemma {:induction false} FindStartIsFirst(t: seq<BlockDesc>, i: nat, stop: nat, x: nat)
    requires i <= stop <= |t|
    ensures FindStart(t, i, stop, x).Some? ==>
              forall k :: i <= k < FindStart(t, i, stop, x).value ==> t[k].start != x
    ensures FindStart(t, i, stop, x).None? ==> forall k :: i <= k < stop ==> t[k].start != x
    decreases stop - i
  {
    if i < stop && t[i].start != x {
      FindStartIsFirst(t, i + 1, stop, x);
    }
  }

  /** When node `target` starts at x and no node before it from i on does,
      the scan stops at target. */
  lemma {:induction false} FindStartAt(t: seq<BlockDesc>, i: nat, stop: nat, x: nat, target: nat)
    requires i <= target < stop <= |t| && t[target].start == x
    requires forall k :: i <= k < target ==> t[k].start != x
    ensures FindStart(t, i, stop, x) == Some(target)
    decreases target - i
  {
    if i < target {
      FindStartAt(t, i + 1, stop, x, target);
    }
  }

  /** In a tree with the built layout the starts of one level are all
      different, so free's scan for the start of node j of level l finds
      that very node. */
  lemma ShapedFindStart(t: seq<BlockDesc>, order: nat, l: nat, j: nat)
    requires 2 <= order && Shaped(t, order) && l <= order - 2 && j < Pow2(l)
    ensures TreeSize(l) + j < TreeSize(l + 1) <= |t|
    ensures FindStart(t, TreeSize(l), TreeSize(l + 1), t[TreeSize(l) + j].start) == Some(TreeSize(l) + j)
  {
    ShapedSize(t, order);
    LevelFits(order, l);
    ShapedAt(t, order, l, j);
    var size := Pow2(order - l);
    forall k | TreeSize(l) <= k < TreeSize(l) + j
      ensures t[k].start != t[TreeSize(l) + j].start
    {
      ShapedAt(t, order, l, k - TreeSize(l));
      NodeStartIncreasing(size, k - TreeSize(l), j);
    }
    FindStartAt(t, TreeSize(l), TreeSize(l + 1), t[TreeSize(l) + j].start, TreeSize(l) + j);
  }
}
