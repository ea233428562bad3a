/** The allocator on a heap of 16 bytes (order 4), the heap of the
    original's own test suite: the tree it builds, where each allocation
    lands, what free gives back, and the two consequences of the code as
    written that the tests do not exercise. */
module Scenarios {
  import opened BuddyMath
  import opened BlockTree
  import opened Allocator

  /** The seven nodes of the tree built for 16 bytes. Node 6 ends at 31:
      the lateral loop's ranges run past the arena on the last level. */
  function Fresh16(): seq<BlockDesc>
  {
    [BlockDesc(true, 16, 0, 15),
     BlockDesc(true, 8, 0, 7), BlockDesc(true, 8, 8, 15),
     BlockDesc(true, 4, 0, 3), BlockDesc(true, 4, 4, 7), BlockDesc(true, 4, 8, 15), BlockDesc(true, 4, 16, 31)]
  }

  /** `t` with the nodes in `used` marked in use. */
  function Used(t: seq<BlockDesc>, used: set<nat>): (r: seq<BlockDesc>)
    ensures |r| == |t|
    ensures forall k :: 0 <= k < |t| ==> r[k] == t[k].(isFree := t[k].isFree && k !in used)
  {
    seq(|t|, k requires 0 <= k < |t| => t[k].(isFree := t[k].isFree && k !in used))
  }

  lemma Pow2Small()
    ensures Pow2(2) == 4 && Pow2(3) == 8 && Pow2(4) == 16 && Pow2(5) == 32
  {
  }

  /** Node i and its ancestors. */
  function Path(i: nat): set<nat>
    decreases i
  {
    if i == 0 then {0} else {i} + Path(Parent(i))
  }

  /** Marking used in two rounds marks the union. */
  lemma UsedTwice(t: seq<BlockDesc>, a: set<nat>, b: set<nat>)
    ensures Used(Used(t, a), b) == Used(t, a + b)
  {
  }

  /** Setting the free flag of a marked node that was free in t unmarks it. */
  lemma Unmark(t: seq<BlockDesc>, used: set<nat>, i: nat, rest: set<nat>)
    requires i < |t| && t[i].isFree && used == rest + {i} && i !in rest
    ensures Used(t, used)[i := Used(t, used)[i].(isFree := true)] == Used(t, rest)
  {
  }

  /** Allocation's walk marks exactly Path(i). */
  lemma {:induction false} MarkPathUsed(t: seq<BlockDesc>, i: nat)
    requires i < |t|
    ensures MarkPath(t, i) == Used(t, Path(i))
    decreases i
  {
    var m := t[i := t[i].(isFree := false)];
    if i == 0 {
      assert m == Used(t, {0});
    } else {
      MarkPathUsed(m, Parent(i));
      assert m == Used(t, {i});
      UsedTwice(t, {i}, Path(Parent(i)));
    }
  }

  /** The first free node from i on is `target` when it is free and every
      node before it is used. */
  lemma {:induction false} FirstFreeAt(t: seq<BlockDesc>, i: nat, stop: nat, target: nat)
    requires i <= target < stop <= |t| && t[target].isFree
    requires forall k :: i <= k < target ==> !t[k].isFree
    ensures FirstFree(t, i, stop) == Some(target)
    decreases target - i
  {
    if i < target {
      FirstFreeAt(t, i + 1, stop, target);
    }
  }

  /** A request whose order k fits the 16-byte heap takes the first free
      node i of level 4 - k of the built 7-node tree b. */
  lemma AllocTakes(b: seq<BlockDesc>, size: nat, k: nat, i: nat)
    requires |b| == 7 && AdjustedOrder(size) == k && 2 <= k <= 4
    requires TreeSize(4 - k) <= i < TreeSize(5 - k) && b[i].isFree
    requires forall j :: TreeSize(4 - k) <= j < i ==> !b[j].isFree
    ensures AllocSpec(b, 4, size) == (Grant(Some(i), MarkPath(b, i), 16), MarkPath(b, i))
  {
    Pow2Small();
    Pow2Increasing(4, k);
    LevelFits(4, 4 - k);
    FirstFreeAt(b, TreeSize(4 - k), TreeSize(5 - k), i);
  }

  /** get_adjusted_order rounds 19 and 32 up to order 5 and 0 and 1 to
      order 2. */
  lemma AdjustedOrderCases()
    ensures AdjustedOrder(19) == 5 && AdjustedOrder(32) == 5
    ensures AdjustedOrder(1) == 2 && AdjustedOrder(0) == 2
  {
    Pow2Small();
    AdjustedOrderUnique(19, 5);
    AdjustedOrderUnique(32, 5);
    AdjustedOrderUnique(1, 2);
    AdjustedOrderUnique(0, 2);
  }

  /** In a 16-byte heap blocks of 2, 4, 8 and 16 bytes sit at levels 3, 2,
      1 and 0, whose nodes are 7..14, 3..6, 1..2 and 0..0. */
  lemma LevelCases()
    ensures HalvesTo(16, 2) && Level(16, 2) == 3 && BlockRange(3) == (7, 14)
    ensures HalvesTo(16, 4) && Level(16, 4) == 2 && BlockRange(2) == (3, 6)
    ensures HalvesTo(16, 8) && Level(16, 8) == 1 && BlockRange(1) == (1, 2)
    ensures HalvesTo(16, 16) && Level(16, 16) == 0 && BlockRange(0) == (0, 0)
  {
    Pow2Small();
    LevelOfPow2(4, 1);
    assert Pow2(1) == 2;
    LevelOfPow2(4, 2);
    LevelOfPow2(4, 3);
    LevelOfPow2(4, 4);
  }

  /** The tree built for 16 bytes: one level per lateral loop. */
  lemma Fresh16Layout()
    ensures FreshTree(4) == Fresh16()
  {
    Fresh16Levels();
    var f := Fresh16();
    assert Levels(4, 1) == f[..1];
    assert Levels(4, 2) == f[..3] by {
      assert f[..1] + f[1..3] == f[..3];
    }
    assert f[..3] + f[3..] == f;
  }

  /** What the lateral loop pushes for each level of the 16-byte heap. */
  lemma Fresh16Levels()
    ensures LevelNodes(16, 0) == Fresh16()[..1]
    ensures LevelNodes(8, 1) == Fresh16()[1..3]
    ensures LevelNodes(4, 2) == Fresh16()[3..]
  {
    Pow2Small();
    assert Pow2(1) == 2;
  }

  /** The tree built for 32 bytes has 15 nodes. */
  lemma Fresh32Size()
    ensures |FreshTree(5)| == 15
  {
    Pow2Small();
  }

  /** The first allocation of an i32 takes node 3, bytes 0..3, and marks it
      and its ancestors 1 and 0 in use; its buddy 4 stays free. */
  lemma FirstAlloc()
    ensures AllocSpec([], 4, 4) == (Ok((0, 3)), Used(Fresh16(), {0, 1, 3}))
  {
    Pow2Small();
    AdjustedOrderUnique(4, 2);
    Fresh16Layout();
    AllocBuildsFresh(4, 4);
    AllocAfterFree();
  }

  /** The second takes node 4, bytes 4..7. */
  lemma SecondAlloc()
    ensures AllocSpec(Used(Fresh16(), {0, 1, 3}), 4, 4) == (Ok((4, 7)), Used(Fresh16(), {0, 1, 3, 4}))
  {
    AdjustedOrderUnique(4, 2);
    var t := Used(Fresh16(), {0, 1, 3});
    AllocTakes(t, 4, 2, 4);
    MarkPathUsed(t, 4);
    assert Path(4) == {0, 1, 4};
    UsedTwice(Fresh16(), {0, 1, 3}, {0, 1, 4});
    assert {0, 1, 3} + {0, 1, 4} == {0, 1, 3, 4};
  }

  /** free of offset x with a type of 2^k bytes in the 16-byte heap finds
      node i, the first of level 4 - k starting at x, frees it and runs the
      merge walk from it. */
  lemma FreeFinds(t: seq<BlockDesc>, x: nat, k: nat, i: nat)
    requires |t| == 7 && 2 <= k <= 4 && RoundDown(x, Pow2(k)) == x
    requires TreeSize(4 - k) <= i < TreeSize(5 - k) && t[i].start == x
    requires forall j :: TreeSize(4 - k) <= j < i ==> t[j].start != x
    ensures HalvesTo(16, Pow2(k)) && Pow2(k) >= 4 && Odd(|t|)
    ensures FreeSpec(t, 4, x, Pow2(k)) == Coalesce(t[i := t[i].(isFree := true)], i)
  {
    Pow2Small();
    LevelFits(4, 4 - k);
    FreeOfPow2(t, 4, x, k);
    FindStartAt(t, TreeSize(4 - k), TreeSize(5 - k), x, i);
    FreeBlockFound(t, 4, x, 4 - k, i);
  }

  /** Freeing the first i32 walks up to the root: nodes 3, 1 and 0 are free
      again and the tree is the fresh one. */
  lemma FreeFirst()
    ensures HalvesTo(16, 4)
    ensures FreeSpec(Used(Fresh16(), {0, 1, 3}), 4, 0, 4) == Fresh16()
  {
    Pow2Small();
    var t := Used(Fresh16(), {0, 1, 3});
    RoundDownMultiple(0, 4);
    FreeFinds(t, 0, 2, 3);
    Unmark(Fresh16(), {0, 1, 3}, 3, {0, 1});
    MergeToRoot(3);
  }

  /** The merge walk from leaf 3 or 4 with nodes 0 and 1 still marked: the
      buddy is free, so node 1 is freed; buddy 2 is free, so the root is
      freed. */
  lemma MergeToRoot(i: nat)
    requires i == 3 || i == 4
    ensures Odd(7) && Coalesce(Used(Fresh16(), {0, 1}), i) == Fresh16()
  {
    var u := Used(Fresh16(), {0, 1});
    var v := u[1 := u[1].(isFree := true)];
    assert Sibling(i) == 7 - i && Parent(i) == 1;
    assert Coalesce(u, i) == Coalesce(v, 1);
    assert Sibling(1) == 2 && Parent(1) == 0;
    assert Coalesce(v, 1) == Coalesce(v[0 := v[0].(isFree := true)], 0);
    assert v[0 := v[0].(isFree := true)] == Fresh16();
  }

  /** With both i32s of the first two allocations given out, freeing the
      first frees node 3 only: its buddy 4 is in use, so the walk stops. */
  lemma FreeFirstOfTwo()
    ensures HalvesTo(16, 4)
    ensures FreeSpec(Used(Fresh16(), {0, 1, 3, 4}), 4, 0, 4) == Used(Fresh16(), {0, 1, 4})
  {
    Pow2Small();
    var t := Used(Fresh16(), {0, 1, 3, 4});
    RoundDownMultiple(0, 4);
    FreeFinds(t, 0, 2, 3);
    Unmark(Fresh16(), {0, 1, 3, 4}, 3, {0, 1, 4});
    assert Sibling(3) == 4;
  }

  /** Freeing the second one then merges with its free buddy 3 and on up
      to the root: the tree is the fresh one again. */
  lemma FreeSecondOfTwo()
    ensures HalvesTo(16, 4)
    ensures FreeSpec(Used(Fresh16(), {0, 1, 4}), 4, 4, 4) == Fresh16()
  {
    FreeFour(Used(Fresh16(), {0, 1, 4}));
    MergeToRoot(4);
  }

  /** free of offset 4 finds node 4, the second leaf. */
  lemma FreeFour(t: seq<BlockDesc>)
    requires t == Used(Fresh16(), {0, 1, 4})
    ensures HalvesTo(16, 4) && Odd(7)
    ensures FreeSpec(t, 4, 4, 4) == Coalesce(Used(Fresh16(), {0, 1}), 4)
  {
    Pow2Small();
    RoundDownMultiple(1, 4);
    FreeFinds(t, 4, 2, 4);
    Unmark(Fresh16(), {0, 1, 4}, 4, {0, 1});
  }

  /** The third allocation of the level takes node 5, bytes 8..15, still
      inside the arena; node 2 becomes used with it. */
  lemma ThirdAlloc()
    ensures AllocSpec(Used(Fresh16(), {0, 1, 3, 4}), 4, 4) == (Ok((8, 15)), Used(Fresh16(), {0, 1, 2, 3, 4, 5}))
  {
    AdjustedOrderUnique(4, 2);
    var t := Used(Fresh16(), {0, 1, 3, 4});
    AllocTakes(t, 4, 2, 5);
    MarkPathUsed(t, 5);
    assert Path(5) == {0, 2, 5};
    UsedTwice(Fresh16(), {0, 1, 3, 4}, {0, 2, 5});
    assert {0, 1, 3, 4} + {0, 2, 5} == {0, 1, 2, 3, 4, 5};
  }

  /** The fourth takes node 6, whose range 16..31 runs past the 16-byte
      arena: the slice panics, with node 6 already marked used. */
  lemma FourthAllocOverruns()
    ensures AllocSpec(Used(Fresh16(), {0, 1, 2, 3, 4, 5}), 4, 4) ==
            (Err(ArenaOverrun), Used(Fresh16(), {0, 1, 2, 3, 4, 5, 6}))
  {
    AdjustedOrderUnique(4, 2);
    var t := Used(Fresh16(), {0, 1, 2, 3, 4, 5});
    AllocTakes(t, 4, 2, 6);
    MarkPathUsed(t, 6);
    assert Path(6) == {0, 2, 6};
    UsedTwice(Fresh16(), {0, 1, 2, 3, 4, 5}, {0, 2, 6});
    assert {0, 1, 2, 3, 4, 5} + {0, 2, 6} == {0, 1, 2, 3, 4, 5, 6};
  }

  /** Allocation never marks the descendants of the node it takes: after 8
      bytes at 0..7 (node 1), a 4-byte request is handed 0..3 (node 3),
      inside the block already given out. */
  lemma AllocOverlaps()
    ensures AllocSpec([], 4, 8) == (Ok((0, 7)), Used(Fresh16(), {0, 1}))
    ensures AllocSpec(Used(Fresh16(), {0, 1}), 4, 4) == (Ok((0, 3)), Used(Fresh16(), {0, 1, 3}))
  {
    Pow2Small();
    Fresh16Layout();
    AdjustedOrderUnique(8, 3);
    AdjustedOrderUnique(4, 2);
    var b := Fresh16();
    AllocBuildsFresh(4, 8);
    AllocTakes(b, 8, 3, 1);
    MarkPathUsed(b, 1);
    assert Path(1) == {0, 1};
    var t := Used(b, {0, 1});
    AllocTakes(t, 4, 2, 3);
    MarkPathUsed(t, 3);
    assert Path(3) == {0, 1, 3};
    UsedTwice(b, {0, 1}, {0, 1, 3});
    assert {0, 1} + {0, 1, 3} == {0, 1, 3};
  }

  /** Allocating again on the tree FreeFirst gives back (already built,
      so nothing is rebuilt) takes node 3 once more. */
  lemma AllocAfterFree()
    ensures AllocSpec(Fresh16(), 4, 4) == (Ok((0, 3)), Used(Fresh16(), {0, 1, 3}))
  {
    var b := Fresh16();
    AdjustedOrderUnique(4, 2);
    Pow2Small();
    AllocTakes(b, 4, 2, 3);
    MarkPathUsed(b, 3);
    assert Path(3) == {0, 1, 3};
  }

  /** A request of 17 bytes rounds up to 32 and panics with "Out of
      memory!" before anything is built. */
  lemma TooLarge()
    ensures AllocSpec([], 4, 17) == (Err(OutOfMemory), [])
  {
    Pow2Small();
    AdjustedOrderUnique(17, 5);
  }
}
