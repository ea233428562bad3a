/** The buddy allocator itself: an arena of heap_size zero bytes and the
    block tree, built on the first allocation. Allocation takes the first
    free node of the level its rounded size belongs to and marks it and its
    ancestors used; free finds the node of a level by its start offset,
    marks it free and merges upwards while buddies are free. */
module Allocator {
  import opened BuddyMath
  import opened BlockTree

  /** The two panics of allocation: "Out of memory!" / "OOM", and the
      out-of-range arena slice taken for a node that ends past the arena. */
  datatype AllocError = OutOfMemory | ArenaOverrun

  datatype Result<T> = Ok(value: T) | Err(error: AllocError)

  /** The tree get_block works on: the existing one, or the fresh one when
      none has been built yet. */
  function Built(t: seq<BlockDesc>, order: nat): (r: seq<BlockDesc>)
    requires 2 <= order
    requires t == [] || |t| == Pow2(order - 1) - 1
    ensures |r| == Pow2(order - 1) - 1
  {
    if t == [] then FreshTree(order) else t
  }

  /** The tree get_block works on has the layout of the heap's order. */
  lemma BuiltShaped(t: seq<BlockDesc>, order: nat)
    requires 2 <= order && (t == [] || (|t| == Pow2(order - 1) - 1 && Shaped(t, order)))
    ensures Shaped(Built(t, order), order)
  {
    if t == [] {
      FreshTreeShaped(order);
    }
  }

  /** The scan of get_block over indices i..stop-1: the first free node,
      and the tree with it and all its ancestors marked used; (None, t)
      when every node there is in use. */
  function TakeFirst(t: seq<BlockDesc>, i: nat, stop: nat): (r: (Option<nat>, seq<BlockDesc>))
    requires i <= stop <= |t|
    ensures r.0.Some? ==> r.0.value < |t| && r.1 == MarkPath(t, r.0.value)
    ensures r.0.None? ==> r.1 == t
  {
    match FirstFree(t, i, stop)
    case None => (None, t)
    case Some(k) => (Some(k), MarkPath(t, k))
  }

  /** The allocating half of get_block on the built tree b of a heap of
      2^order bytes, for blocks at `level` (get_level of the requested
      size): take the first free node of that level and mark it and every
      ancestor used. `None` stands for the "OOM" panic, which leaves the
      flags untouched. */
  function GetBlockSpec(b: seq<BlockDesc>, order: nat, level: nat): (r: (Option<nat>, seq<BlockDesc>))
    requires 2 <= order && Pow2(order) <= 0x1_0000_0000 && level <= order - 2 && |b| == Pow2(order - 1) - 1
    ensures |r.1| == |b|
    ensures r.0.Some? ==> r.0.value < |b|
  {
    LevelFits(order, level);
    var range := BlockRange(level);
    TakeFirst(b, range.0, range.1 + 1)
  }

  /** get_block only changes free flags, so the layout is kept. */
  lemma GetBlockLayout(b: seq<BlockDesc>, order: nat, level: nat)
    requires 2 <= order && Pow2(order) <= 0x1_0000_0000 && level <= order - 2 && |b| == Pow2(order - 1) - 1
    ensures Layout(GetBlockSpec(b, order, level).1) == Layout(b)
  {
    var r := GetBlockSpec(b, order, level);
    if r.0.Some? {
      MarkPathLayout(b, r.0.value);
    }
  }

  /** get_block takes the lowest-index free node of the level; it answers
      "OOM" only when every node of the level is in use. */
  lemma GetBlockFirstFit(b: seq<BlockDesc>, order: nat, level: nat)
    requires 2 <= order && Pow2(order) <= 0x1_0000_0000 && level <= order - 2 && |b| == Pow2(order - 1) - 1
    ensures TreeSize(level + 1) <= |b|
    ensures GetBlockSpec(b, order, level).0.Some? ==>
              var i := GetBlockSpec(b, order, level).0.value;
              TreeSize(level) <= i < TreeSize(level + 1) && b[i].isFree &&
              forall k :: TreeSize(level) <= k < i ==> !b[k].isFree
    ensures GetBlockSpec(b, order, level).0.None? <==> LevelUsed(b, level)
  {
    LevelFits(order, level);
    var range := BlockRange(level);
    FirstFreeIsFirst(b, range.0, range.1 + 1);
  }

  /** get_block marks the node it takes and that node's ancestors used and
      keeps every other node as it was; after "OOM" nothing is marked. */
  lemma GetBlockMarks(b: seq<BlockDesc>, order: nat, level: nat, k: nat)
    requires 2 <= order && Pow2(order) <= 0x1_0000_0000 && level <= order - 2 && |b| == Pow2(order - 1) - 1
    requires k < |b|
    ensures GetBlockSpec(b, order, level).0.Some? ==>
              GetBlockSpec(b, order, level).1[k] ==
                if AncestorOrSelf(k, GetBlockSpec(b, order, level).0.value)
                then b[k].(isFree := false)
                else b[k]
    ensures GetBlockSpec(b, order, level).0.None? ==> GetBlockSpec(b, order, level).1 == b
  {
    var g := GetBlockSpec(b, order, level);
    if g.0.Some? {
      MarkPathAt(b, g.0.value, k);
    }
  }

  /** The node get_block takes is the node at position j of its level: its
      start and end are those the construction gave it. */
  lemma TakenNode(b: seq<BlockDesc>, order: nat, l: nat)
    requires 2 <= order && Pow2(order) <= 0x1_0000_0000 && l <= order - 2 && |b| == Pow2(order - 1) - 1
    requires Shaped(b, order) && GetBlockSpec(b, order, l).0.Some?
    ensures TreeSize(l) <= GetBlockSpec(b, order, l).0.value < TreeSize(l + 1)
    ensures var i := GetBlockSpec(b, order, l).0.value;
            GetBlockSpec(b, order, l).1[i].start == NodeStart(Pow2(order - l), i - TreeSize(l)) &&
            GetBlockSpec(b, order, l).1[i].end == NodeEnd(Pow2(order - l), i - TreeSize(l))
  {
    var g := GetBlockSpec(b, order, l);
    var i := g.0.value;
    GetBlockFirstFit(b, order, l);
    GetBlockLayout(b, order, l);
    assert Layout(g.1)[i] == Layout(b)[i];
    ShapedAt(b, order, l, i - TreeSize(l));
  }

  /** What alloc makes of get_block's answer: "OOM" for no node, the
      node's offsets when its slice lies in an arena of `heap` bytes, and
      the slice panic otherwise. */
  function Grant(found: Option<nat>, tree: seq<BlockDesc>, heap: nat): (r: Result<(nat, nat)>)
    requires found.Some? ==> found.value < |tree|
    ensures r.Ok? <==> found.Some? && tree[found.value].end < heap
    ensures r.Ok? ==> r.value == (tree[found.value].start, tree[found.value].end)
    ensures r == Err(OutOfMemory) <==> found.None?
  {
    match found
    case None => Err(OutOfMemory)
    case Some(i) =>
      var desc := tree[i];
      if desc.end + 1 <= heap then Ok((desc.start, desc.end))
      else Err(ArenaOverrun)
  }

  /** Allocation of a block of 2^k bytes from the built tree b: get_block at
      the level of 2^k-byte blocks, then the slice of the arena. */
  function AllocFrom(b: seq<BlockDesc>, order: nat, k: nat): (r: (Result<(nat, nat)>, seq<BlockDesc>))
    requires 2 <= k <= order && Pow2(order) <= 0x1_0000_0000 && |b| == Pow2(order - 1) - 1
    ensures |r.1| == |b|
  {
    var g := GetBlockSpec(b, order, order - k);
    (Grant(g.0, g.1, Pow2(order)), g.1)
  }

  /** alloc_with_size / alloc for a request of `size` bytes on tree `t`:
      the result and the tree afterwards. A request is rounded up to 2^k
      bytes; one larger than the heap panics before the tree is built. */
  function AllocSpec(t: seq<BlockDesc>, order: nat, size: nat): (r: (Result<(nat, nat)>, seq<BlockDesc>))
    requires 2 <= order && Pow2(order) <= 0x1_0000_0000
    requires t == [] || |t| == Pow2(order - 1) - 1
    ensures AdjustedOrder(size) > order ==> r == (Err(OutOfMemory), t)
    ensures r.1 == t || |r.1| == Pow2(order - 1) - 1
  {
    var k := AdjustedOrder(size);
    Pow2Increasing(order, k);
    if Pow2(k) > Pow2(order) then (Err(OutOfMemory), t)
    else AllocFrom(Built(t, order), order, k)
  }

  /** The lazy construction is invisible to a request that fits: on the
      unbuilt tree allocation behaves as on the fresh one. */
  lemma AllocBuildsFresh(order: nat, size: nat)
    requires 2 <= order && Pow2(order) <= 0x1_0000_0000 && AdjustedOrder(size) <= order
    ensures AllocSpec([], order, size) == AllocSpec(FreshTree(order), order, size)
  {
    Pow2Increasing(order, AdjustedOrder(size));
  }

  /** Allocation keeps the layout of the tree (or leaves it unbuilt). */
  lemma AllocShaped(t: seq<BlockDesc>, order: nat, size: nat)
    requires 2 <= order && Pow2(order) <= 0x1_0000_0000
    requires t == [] || (|t| == Pow2(order - 1) - 1 && Shaped(t, order))
    ensures AllocSpec(t, order, size).1 == [] || Shaped(AllocSpec(t, order, size).1, order)
  {
    var k := AdjustedOrder(size);
    Pow2Increasing(order, k);
    if k <= order {
      BuiltShaped(t, order);
      GetBlockLayout(Built(t, order), order, order - k);
    }
  }

  /** Allocation from a built tree fails with "OOM" exactly when the level
      of 2^k-byte blocks has no free node, and then marks nothing. */
  lemma AllocOutOfMemory(b: seq<BlockDesc>, order: nat, k: nat)
    requires 2 <= k <= order && Pow2(order) <= 0x1_0000_0000 && |b| == Pow2(order - 1) - 1
    ensures AllocFrom(b, order, k).0 == Err(OutOfMemory) <==> LevelUsed(b, order - k)
    ensures AllocFrom(b, order, k).0 == Err(OutOfMemory) ==> AllocFrom(b, order, k).1 == b
  {
    GetBlockFirstFit(b, order, order - k);
  }

  /** A successful allocation hands out offsets start..end inside the arena
      that hold at least 2^k bytes, and start is a multiple of 2^k. */
  lemma AllocGrantsBlock(b: seq<BlockDesc>, order: nat, k: nat)
    requires 2 <= k <= order && Pow2(order) <= 0x1_0000_0000 && |b| == Pow2(order - 1) - 1 && Shaped(b, order)
    requires AllocFrom(b, order, k).0.Ok?
    ensures AllocFrom(b, order, k).0.value.1 < Pow2(order)
    ensures AllocFrom(b, order, k).0.value.0 + Pow2(k) <= AllocFrom(b, order, k).0.value.1 + 1
    ensures RoundDown(AllocFrom(b, order, k).0.value.0, Pow2(k)) == AllocFrom(b, order, k).0.value.0
  {
    var l := order - k;
    var i := GetBlockSpec(b, order, l).0.value;
    TakenNode(b, order, l);
    NodeSpan(Pow2(k), i - TreeSize(l));
    NodeStartAligned(Pow2(k), i - TreeSize(l));
  }

  /** Because of the lateral loop's ranges only the first l + 1 nodes of
      level l lie inside the arena: an allocation that is given one of the
      others fails with the slice panic. */
  lemma AllocInArena(b: seq<BlockDesc>, order: nat, k: nat)
    requires 2 <= k <= order && Pow2(order) <= 0x1_0000_0000 && |b| == Pow2(order - 1) - 1 && Shaped(b, order)
    ensures var g := GetBlockSpec(b, order, order - k);
            g.0.Some? ==>
              (AllocFrom(b, order, k).0.Ok? <==> g.0.value - TreeSize(order - k) <= order - k) &&
              (AllocFrom(b, order, k).0 == Err(ArenaOverrun) <==> g.0.value - TreeSize(order - k) > order - k)
  {
    var l := order - k;
    var g := GetBlockSpec(b, order, l);
    if g.0.Some? {
      TakenNode(b, order, l);
      NodeInArena(order, l, g.0.value - TreeSize(l));
    }
  }

  /** Allocation keeps every used node's ancestors used. */
  lemma AllocKeepsAncestorsUsed(b: seq<BlockDesc>, order: nat, k: nat)
    requires 2 <= k <= order && Pow2(order) <= 0x1_0000_0000 && |b| == Pow2(order - 1) - 1 && AncestorsUsed(b)
    ensures AncestorsUsed(AllocFrom(b, order, k).1)
  {
    var g := GetBlockSpec(b, order, order - k);
    if g.0.Some? {
      MarkPathKeepsAncestorsUsed(b, g.0.value);
    }
  }

  /** A successful allocation took a free node i of its level, marked it
      and its ancestors used and handed out its start. */
  lemma AllocTaken(b: seq<BlockDesc>, order: nat, k: nat) returns (i: nat)
    requires 2 <= k <= order && Pow2(order) <= 0x1_0000_0000 && |b| == Pow2(order - 1) - 1
    requires AllocFrom(b, order, k).0.Ok?
    ensures TreeSize(order - k) <= i < TreeSize(order - k + 1) && i < |b| && b[i].isFree
    ensures AllocFrom(b, order, k).1 == MarkPath(b, i)
    ensures AllocFrom(b, order, k).0.value.0 == b[i].start
  {
    var l := order - k;
    i := GetBlockSpec(b, order, l).0.value;
    GetBlockFirstFit(b, order, l);
    MarkPathAt(b, i, i);
  }

  /** The scan of free over indices i..stop-1: the index of the first node
      starting at arena offset x and the tree with that node marked free;
      (0, t) when there is none, so that the merge walk does nothing. */
  function FreeTarget(t: seq<BlockDesc>, i: nat, stop: nat, x: nat): (r: (nat, seq<BlockDesc>))
    requires i <= stop <= |t| && 0 < |t|
    ensures r.0 < |t|
    ensures r.1 == t || r.1 == t[r.0 := t[r.0].(isFree := true)]
  {
    match FindStart(t, i, stop, x)
    case None => (0, t)
    case Some(k) => (k, t[k := t[k].(isFree := true)])
  }

  /** free of the block at arena offset `offset` for a type of `pSize`
      bytes: the offset is rounded down to a multiple of pSize and the block
      of pSize's level starting there is freed. */
  function FreeSpec(t: seq<BlockDesc>, order: nat, offset: nat, pSize: nat): (r: seq<BlockDesc>)
    requires 2 <= order && Pow2(order) <= 0x1_0000_0000 && |t| == Pow2(order - 1) - 1
    requires HalvesTo(Pow2(order), pSize) && pSize >= 4
    ensures |r| == |t|
  {
    LevelOfBlockSize(order, pSize);
    FreeBlock(t, order, RoundDown(offset, pSize), Level(Pow2(order), pSize))
  }

  /** Freeing the block at arena index x among the nodes of `level`: the
      first node there starting at x is marked free and the merge walk runs
      from it; without such a node nothing changes. */
  function FreeBlock(t: seq<BlockDesc>, order: nat, x: nat, level: nat): (r: seq<BlockDesc>)
    requires 2 <= order && Pow2(order) <= 0x1_0000_0000 && level <= order - 2 && |t| == Pow2(order - 1) - 1
    ensures |r| == |t|
  {
    LevelFits(order, level);
    TreeOdd(order);
    var range := BlockRange(level);
    FreeInRange(t, range.0, range.1 + 1, x)
  }

  /** The scan and merge walk of free over the indices i..stop-1. */
  function FreeInRange(t: seq<BlockDesc>, i: nat, stop: nat, x: nat): (r: seq<BlockDesc>)
    requires i <= stop <= |t| && Odd(|t|)
    ensures |r| == |t|
  {
    var scan := FreeTarget(t, i, stop, x);
    Coalesce(scan.1, scan.0)
  }

  /** The range free scans is that of the level's nodes. */
  lemma FreeBlockRange(t: seq<BlockDesc>, order: nat, x: nat, level: nat)
    requires 2 <= order && Pow2(order) <= 0x1_0000_0000 && level <= order - 2 && |t| == Pow2(order - 1) - 1
    ensures TreeSize(level + 1) <= |t| && Odd(|t|)
    ensures FreeBlock(t, order, x, level) == FreeInRange(t, TreeSize(level), TreeSize(level + 1), x)
  {
    LevelFits(order, level);
    TreeOdd(order);
  }

  /** Freeing keeps the tree's layout: only free flags change. */
  lemma FreeBlockLayout(t: seq<BlockDesc>, order: nat, x: nat, level: nat)
    requires 2 <= order && Pow2(order) <= 0x1_0000_0000 && level <= order - 2 && |t| == Pow2(order - 1) - 1
    ensures Layout(FreeBlock(t, order, x, level)) == Layout(t)
  {
    FreeBlockRange(t, order, x, level);
    var scan := FreeTarget(t, TreeSize(level), TreeSize(level + 1), x);
    FlagLayout(t, scan.0, true);
    CoalesceLayout(scan.1, scan.0);
  }

  lemma FreeShaped(t: seq<BlockDesc>, order: nat, offset: nat, pSize: nat)
    requires 2 <= order && Pow2(order) <= 0x1_0000_0000 && |t| == Pow2(order - 1) - 1 && Shaped(t, order)
    requires HalvesTo(Pow2(order), pSize) && pSize >= 4
    ensures Shaped(FreeSpec(t, order, offset, pSize), order)
  {
    LevelOfBlockSize(order, pSize);
    FreeBlockLayout(t, order, RoundDown(offset, pSize), Level(Pow2(order), pSize));
  }

  /** free marks the first node of the level that starts at x free and then
      frees ancestors while their other child is free: no node other than
      that one and its ancestors changes, and those only become free. A
      strict ancestor ends up free exactly when it was free or every buddy on
      the path up to it was free. With no node starting at x nothing
      changes. */
  lemma FreeEffect(t: seq<BlockDesc>, order: nat, x: nat, level: nat, k: nat)
    requires 2 <= order && Pow2(order) <= 0x1_0000_0000 && level <= order - 2 && |t| == Pow2(order - 1) - 1 && k < |t|
    ensures TreeSize(level + 1) <= |t|
    ensures FindStart(t, TreeSize(level), TreeSize(level + 1), x).None? ==> FreeBlock(t, order, x, level) == t
    ensures FindStart(t, TreeSize(level), TreeSize(level + 1), x).Some? ==>
              var i := FindStart(t, TreeSize(level), TreeSize(level + 1), x).value;
              FreeBlock(t, order, x, level)[i].isFree &&
              (FreeBlock(t, order, x, level)[k] == t[k] ||
               (AncestorOrSelf(k, i) && FreeBlock(t, order, x, level)[k] == t[k].(isFree := true)))
    ensures FindStart(t, TreeSize(level), TreeSize(level + 1), x).Some? ==>
              var i := FindStart(t, TreeSize(level), TreeSize(level + 1), x).value;
              k < i && AncestorOrSelf(k, i) ==>
                FreeBlock(t, order, x, level)[k].isFree == (t[k].isFree || BuddiesFreeUpTo(t, i, k))
  {
    FreeBlockRange(t, order, x, level);
    var scan := FreeTarget(t, TreeSize(level), TreeSize(level + 1), x);
    if FindStart(t, TreeSize(level), TreeSize(level + 1), x).Some? {
      var i := scan.0;
      CoalesceAt(scan.1, i, k);
      CoalesceAt(scan.1, i, i);
      if k < i && AncestorOrSelf(k, i) {
        CoalesceExact(scan.1, i, k);
        BuddiesFrame(t, i, t[i].(isFree := true), i, k);
      }
    }
  }

  /** When node i is the first of the level starting at x, free marks it
      free and runs the merge walk from it. */
  lemma FreeBlockFound(t: seq<BlockDesc>, order: nat, x: nat, level: nat, i: nat)
    requires 2 <= order && Pow2(order) <= 0x1_0000_0000 && level <= order - 2 && |t| == Pow2(order - 1) - 1
    requires TreeSize(level + 1) <= |t|
    requires FindStart(t, TreeSize(level), TreeSize(level + 1), x) == Some(i)
    ensures i < |t| && Odd(|t|)
    ensures FreeBlock(t, order, x, level) == Coalesce(t[i := t[i].(isFree := true)], i)
  {
    FreeBlockRange(t, order, x, level);
  }

  /** Freeing node i of level l, right after allocation took it from the
      consistent tree b, gives b back: the merge walk undoes the marking. */
  lemma FreeTaken(b: seq<BlockDesc>, order: nat, l: nat, i: nat, u: seq<BlockDesc>, x: nat)
    requires 2 <= order && Pow2(order) <= 0x1_0000_0000 && l <= order - 2
    requires Shaped(b, order) && Consistent(b)
    requires TreeSize(l) <= i < TreeSize(l + 1) && i < |b| && b[i].isFree
    requires u == MarkPath(b, i) && x == b[i].start
    ensures |u| == |b| == Pow2(order - 1) - 1
    ensures FreeBlock(u, order, x, l) == b
  {
    ShapedSize(b, order);
    MarkPathLayout(b, i);
    MarkPathAt(b, i, i);
    assert Layout(u)[i] == Layout(b)[i];
    ShapedFindStart(u, order, l, i - TreeSize(l));
    FreeBlockFound(u, order, b[i].start, l, i);
    assert u[i := u[i].(isFree := true)] == u[i := b[i]];
    UnmarkSelf(b, i);
    CoalesceRestores(b, i);
  }

  /** free, given the start an allocation of 2^k bytes returned and 2^k as
      the type size, restores the tree the allocation started from, when
      that tree obeys the buddy rule. */
  lemma AllocFreeRoundTrip(b: seq<BlockDesc>, order: nat, k: nat)
    requires 2 <= k <= order && Pow2(order) <= 0x1_0000_0000 && |b| == Pow2(order - 1) - 1
    requires Shaped(b, order) && Consistent(b)
    requires AllocFrom(b, order, k).0.Ok?
    ensures HalvesTo(Pow2(order), Pow2(k)) && Pow2(k) >= 4
    ensures FreeSpec(AllocFrom(b, order, k).1, order, AllocFrom(b, order, k).0.value.0, Pow2(k)) == b
  {
    var i := AllocTaken(b, order, k);
    AllocGrantsBlock(b, order, k);
    var r := AllocFrom(b, order, k);
    FreeUndoesTake(b, order, k, i, r.1, r.0.value.0);
  }

  /** Freeing, with type size 2^k, the aligned start of node i of the level
      of 2^k-byte blocks once MarkPath has taken it gives b back. */
  lemma FreeUndoesTake(b: seq<BlockDesc>, order: nat, k: nat, i: nat, u: seq<BlockDesc>, x: nat)
    requires 2 <= k <= order && Pow2(order) <= 0x1_0000_0000
    requires Shaped(b, order) && Consistent(b)
    requires TreeSize(order - k) <= i < TreeSize(order - k + 1) && i < |b| && b[i].isFree
    requires u == MarkPath(b, i) && x == b[i].start && RoundDown(x, Pow2(k)) == x
    ensures |u| == Pow2(order - 1) - 1
    ensures HalvesTo(Pow2(order), Pow2(k)) && Pow2(k) >= 4
    ensures FreeSpec(u, order, x, Pow2(k)) == b
  {
    FreeTaken(b, order, order - k, i, u, x);
    FreeOfPow2(u, order, x, k);
  }

  /** free with a type size of 2^k frees at the level of 2^k-byte blocks,
      at the offset itself when it is a multiple of 2^k. */
  lemma FreeOfPow2(t: seq<BlockDesc>, order: nat, x: nat, k: nat)
    requires 2 <= k <= order && Pow2(order) <= 0x1_0000_0000 && |t| == Pow2(order - 1) - 1
    requires RoundDown(x, Pow2(k)) == x
    ensures HalvesTo(Pow2(order), Pow2(k)) && Pow2(k) >= 4
    ensures FreeSpec(t, order, x, Pow2(k)) == FreeBlock(t, order, x, order - k)
  {
    Pow2Monotone(2, k);
    LevelOfPow2(order, k);
  }

  /** In particular the first allocation on a fresh heap is undone by
      freeing its start with the request's rounded size. */
  lemma AllocFreeFresh(order: nat, size: nat)
    requires 2 <= order && Pow2(order) <= 0x1_0000_0000
    requires AllocSpec([], order, size).0.Ok?
    ensures |AllocSpec([], order, size).1| == Pow2(order - 1) - 1
    ensures HalvesTo(Pow2(order), Pow2(AdjustedOrder(size))) && Pow2(AdjustedOrder(size)) >= 4
    ensures FreeSpec(AllocSpec([], order, size).1, order, AllocSpec([], order, size).0.value.0,
                     Pow2(AdjustedOrder(size))) == FreshTree(order)
  {
    var k := AdjustedOrder(size);
    FreshTreeShaped(order);
    FreshConsistent(order);
    AllocFreeRoundTrip(FreshTree(order), order, k);
  }

  /** Freeing among leaves keeps the buddy rule: the scan frees a leaf,
      which has no children, and the merge walk then restores the rule
      above it. */
  lemma FreeRangeConsistent(t: seq<BlockDesc>, i: nat, stop: nat, x: nat)
    requires i <= stop <= |t| <= 2 * i + 1 && Consistent(t)
    ensures Consistent(FreeInRange(t, i, stop, x))
  {
    var scan := FreeTarget(t, i, stop, x);
    var j, u := scan.0, scan.1;
    if FindStart(t, i, stop, x).Some? {
      forall k: nat | 0 < k && (j == 0 || Parent(k) != Parent(j))
        ensures RuleAt(u, k)
      {
        if 0 < k < |u| && Sibling(k) < |u| {
          assert k != j && Sibling(k) != j && Parent(k) != j;
        }
      }
      if j > 0 {
        SiblingInTree(|t|, j);
      }
      CoalesceConsistent(u, j);
    }
  }

  /** Allocating a 4-byte block keeps the buddy rule: it takes a leaf. */
  lemma AllocLeafConsistent(b: seq<BlockDesc>, order: nat)
    requires 2 <= order && Pow2(order) <= 0x1_0000_0000 && |b| == Pow2(order - 1) - 1 && Consistent(b)
    ensures Consistent(AllocFrom(b, order, 2).1)
  {
    var g := GetBlockSpec(b, order, order - 2);
    if g.0.Some? {
      GetBlockFirstFit(b, order, order - 2);
      TreeSizeClosed(order - 2);
      MarkPathConsistent(b, g.0.value);
    }
  }

  /** Freeing with a 4-byte type keeps the buddy rule: it frees a leaf. */
  lemma FreeLeafConsistent(t: seq<BlockDesc>, order: nat, x: nat)
    requires 2 <= order && Pow2(order) <= 0x1_0000_0000 && |t| == Pow2(order - 1) - 1 && Consistent(t)
    ensures HalvesTo(Pow2(order), 4)
    ensures Consistent(FreeSpec(t, order, x, 4))
  {
    FreeAtLeaves(t, order, x);
    FreeRangeConsistent(t, TreeSize(order - 2), TreeSize(order - 1), RoundDown(x, 4));
  }

  /** free with a 4-byte type scans the leaves, the last level of the tree. */
  lemma FreeAtLeaves(t: seq<BlockDesc>, order: nat, x: nat)
    requires 2 <= order && Pow2(order) <= 0x1_0000_0000 && |t| == Pow2(order - 1) - 1
    ensures HalvesTo(Pow2(order), 4)
    ensures TreeSize(order - 2) <= TreeSize(order - 1) == |t| <= 2 * TreeSize(order - 2) + 1
    ensures FreeSpec(t, order, x, 4) == FreeInRange(t, TreeSize(order - 2), TreeSize(order - 1), RoundDown(x, 4))
  {
    assert Pow2(2) == 4;
    LevelOfPow2(order, 2);
    FreeBlockRange(t, order, RoundDown(x, 4), order - 2);
    TreeSizeClosed(order - 2);
    TreeSizeClosed(order - 1);
  }

  /** Requests of at most 4 bytes keep the buddy rule from the unbuilt tree
      on, so AllocFreeRoundTrip applies after any sequence of them and of
      frees with a 4-byte type. */
  lemma SmallAllocConsistent(t: seq<BlockDesc>, order: nat, size: nat)
    requires 2 <= order && Pow2(order) <= 0x1_0000_0000 && size <= 4
    requires t == [] || (|t| == Pow2(order - 1) - 1 && Consistent(t))
    ensures Consistent(AllocSpec(t, order, size).1)
  {
    AdjustedOrderTight(size);
    Pow2Increasing(order, 2);
    if t == [] {
      FreshConsistent(order);
    }
    AllocLeafConsistent(Built(t, order), order);
  }

  class BuddyAllocator {
    var arena: seq<bv8>
    const heapSize: nat
    const minBlockSize: nat
    var blocksTree: seq<BlockDesc>
    /** heapSize is 2^heapOrder. */
    ghost const heapOrder: nat

    ghost predicate Valid()
      reads this
    {
      2 <= heapOrder && heapSize == Pow2(heapOrder) <= 0x1_0000_0000 && minBlockSize == 4
      && |arena| == heapSize
      && (blocksTree == [] || (|blocksTree| == Pow2(heapOrder - 1) - 1 && Shaped(blocksTree, heapOrder)))
    }

    /** A zeroed arena of heapSize bytes, 4-byte minimum blocks and no tree yet. */
    constructor (heapSize: nat)
      requires IsPow2(heapSize) && 4 <= heapSize <= 0x1_0000_0000
      ensures Valid()
      ensures this.heapSize == heapSize && minBlockSize == 4 && blocksTree == []
      ensures forall k :: 0 <= k < |arena| ==> arena[k] == 0
    {
      var v: seq<bv8> := [];
      var i := 0;
      while i < heapSize
        invariant i <= heapSize && |v| == i
        invariant forall k :: 0 <= k < i ==> v[k] == 0
      {
        v := v + [0];
        i := i + 1;
      }
      var order := Log2(heapSize);
      assert Pow2(2) == 4;
      Pow2Increasing(order, 2);
      arena := v;
      minBlockSize := 4;
      this.heapSize := heapSize;
      blocksTree := [];
      heapOrder := order;
    }

    /** get_adjusted_order: counts exponents up from 2 until 2^i holds the
        request. Requests above 2^30 would overflow the signed 32-bit power. */
    static method GetAdjustedOrder(size: nat) returns (order: nat)
      requires size <= 0x4000_0000
      ensures order == AdjustedOrder(size)
    {
      var i := 2;
      while Pow2(i) < size
        invariant 2 <= i <= 30
        invariant forall j :: 2 <= j < i ==> Pow2(j) < size
        decreases 30 - i
      {
        Pow2Within30(i);
        i := i + 1;
      }
      order := i;
      AdjustedOrderUnique(size, order);
    }

    /** get_level: halves heapSize until it equals blockSize, counting the
        halvings; it terminates exactly when HalvesTo holds. */
    method GetLevel(blockSize: nat) returns (level: nat)
      requires HalvesTo(heapSize, blockSize)
      ensures level == Level(heapSize, blockSize)
    {
      var a := heapSize;
      level := 0;
      while a != blockSize
        invariant HalvesTo(a, blockSize)
        invariant Level(heapSize, blockSize) == level + Level(a, blockSize)
        decreases a
      {
        HalfDiv(a);
        a := a / 2;
        level := level + 1;
      }
    }

    /** The lazy construction at the head of get_block: only an empty tree
        is built, level by level from the root, halving the block size. */
    method BuildTree()
      requires 2 <= heapOrder && heapSize == Pow2(heapOrder) && minBlockSize == 4
      requires blocksTree == [] || |blocksTree| == Pow2(heapOrder - 1) - 1
      modifies this`blocksTree
      ensures blocksTree == Built(old(blocksTree), heapOrder)
    {
      if blocksTree == [] {
        BuildLevels();
      }
    }

    /** The level loop of the construction: one level per halving of the
        block size, from the whole heap down to minBlockSize. */
    method BuildLevels()
      requires 2 <= heapOrder && heapSize == Pow2(heapOrder) && minBlockSize == 4
      requires blocksTree == []
      modifies this`blocksTree
      ensures blocksTree == FreshTree(heapOrder)
    {
      var size := heapSize;
      LevelOfPow2(heapOrder, 2);
      assert Pow2(2) == minBlockSize;
      var height := GetLevel(minBlockSize);
      for i := 0 to height + 1
        invariant size == Pow2(heapOrder - i)
        invariant blocksTree == Levels(heapOrder, i)
      {
        PushLevel(size, i);
        assert Levels(heapOrder, i + 1) == Levels(heapOrder, i) + LevelNodes(size, i);
        assert size == 2 * Pow2(heapOrder - i - 1);
        size := size / 2;
      }
    }

    /** The lateral loop of the construction: pushes the 2^level nodes of
        one level of `size`-byte blocks, each starting one past the previous
        end, with the end then grown by that start. */
    method PushLevel(size: nat, level: nat)
      requires size >= 1
      modifies this`blocksTree
      ensures blocksTree == old(blocksTree) + LevelNodes(size, level)
    {
      var start, end := 0, size - 1;
      for j := 0 to Pow2(level)
        invariant blocksTree + LateralNodes(size, start, end, Pow2(level) - j)
                  == old(blocksTree) + LevelNodes(size, level)
      {
        blocksTree := blocksTree + [BlockDesc(true, size, start, end)];
        start := end + 1;
        end := end + start;
      }
    }

    /** get_block: the index of the node handed out (the original returns a
        reference to it), or None for the "OOM" panic. */
    method GetBlock(requestedSize: nat) returns (found: Option<nat>)
      requires 2 <= heapOrder && heapSize == Pow2(heapOrder) <= 0x1_0000_0000 && minBlockSize == 4
      requires blocksTree == [] || |blocksTree| == Pow2(heapOrder - 1) - 1
      requires HalvesTo(heapSize, requestedSize) && requestedSize >= minBlockSize
      modifies this`blocksTree
      ensures Level(heapSize, requestedSize) <= heapOrder - 2
      ensures (found, blocksTree) == GetBlockSpec(Built(old(blocksTree), heapOrder), heapOrder, Level(heapSize, requestedSize))
    {
      BuildTree();
      var level := GetLevel(requestedSize);
      LevelOfBlockSize(heapOrder, requestedSize);
      found := GetBlockAt(level);
    }

    /** The part of get_block after the construction, for a level. */
    method GetBlockAt(level: nat) returns (found: Option<nat>)
      requires 2 <= heapOrder && Pow2(heapOrder) <= 0x1_0000_0000 && level <= heapOrder - 2
      requires |blocksTree| == Pow2(heapOrder - 1) - 1
      modifies this`blocksTree
      ensures (found, blocksTree) == GetBlockSpec(old(blocksTree), heapOrder, level)
    {
      LevelFits(heapOrder, level);
      var range := BlockRange(level);
      found := TakeFirstFree(range.0, range.1);
    }

    /** The scan of get_block: the first free node of indices start..end is
        marked used together with its ancestors and its index returned. */
    method TakeFirstFree(start: nat, end: nat) returns (found: Option<nat>)
      requires start <= end + 1 <= |blocksTree|
      modifies this`blocksTree
      ensures (found, blocksTree) == TakeFirst(old(blocksTree), start, end + 1)
    {
      var i := start;
      while i < end + 1
        invariant start <= i <= end + 1
        invariant blocksTree == old(blocksTree)
        invariant FirstFree(blocksTree, start, end + 1) == FirstFree(blocksTree, i, end + 1)
      {
        if blocksTree[i].isFree {
          MarkUsedToRoot(i);
          return Some(i);
        }
        i := i + 1;
      }
      return None;
    }

    /** The marking of get_block: node i, then each parent up to the root,
        becomes not free. */
    method MarkUsedToRoot(i: nat)
      requires i < |blocksTree|
      modifies this`blocksTree
      ensures blocksTree == MarkPath(old(blocksTree), i)
    {
      blocksTree := blocksTree[i := blocksTree[i].(isFree := false)];
      var j := i;
      while j != 0
        invariant j < |blocksTree| == |old(blocksTree)|
        invariant (if j == 0 then blocksTree else MarkPath(blocksTree, Parent(j))) == MarkPath(old(blocksTree), i)
        decreases j
      {
        HalfDiv(j - 1);
        j := (j - 1) / 2;
        blocksTree := blocksTree[j := blocksTree[j].(isFree := false)];
      }
    }

    /** alloc_with_size (and alloc, its copy for size_of::<T>()): the arena
        offsets start..end of the block handed out. */
    method AllocWithSize(size: nat) returns (r: Result<(nat, nat)>)
      requires Valid() && size <= 0x4000_0000
      modifies this`blocksTree
      ensures (r, blocksTree) == AllocSpec(old(blocksTree), heapOrder, size)
      ensures Valid()
    {
      AllocShaped(blocksTree, heapOrder, size);
      var adjustedOrder := GetAdjustedOrder(size);
      if Pow2(adjustedOrder) > heapSize {
        return Err(OutOfMemory);
      }
      var requiredSize := Pow2(adjustedOrder);
      Pow2Increasing(heapOrder, adjustedOrder);
      LevelOfPow2(heapOrder, adjustedOrder);
      Pow2Monotone(2, adjustedOrder);
      var found := GetBlock(requiredSize);
      r := Grant(found, blocksTree, |arena|);
    }

    /** free of the block at arena offset `offset` for a type of `pSize`
        bytes (the original takes a pointer and size_of::<T>()). */
    method Free(offset: nat, pSize: nat)
      requires Valid() && blocksTree != []
      requires HalvesTo(heapSize, pSize) && pSize >= minBlockSize
      modifies this`blocksTree
      ensures blocksTree == FreeSpec(old(blocksTree), heapOrder, offset, pSize)
      ensures Valid()
    {
      FreeShaped(blocksTree, heapOrder, offset, pSize);
      var arenaIndex := ScaledIndex(offset, pSize);
      var level := GetLevel(pSize);
      LevelOfBlockSize(heapOrder, pSize);
      FreeAt(arenaIndex, level);
    }

    /** The part of free after the level is known. */
    method FreeAt(arenaIndex: nat, level: nat)
      requires 2 <= heapOrder && Pow2(heapOrder) <= 0x1_0000_0000 && level <= heapOrder - 2
      requires |blocksTree| == Pow2(heapOrder - 1) - 1
      modifies this`blocksTree
      ensures blocksTree == FreeBlock(old(blocksTree), heapOrder, arenaIndex, level)
    {
      LevelFits(heapOrder, level);
      TreeOdd(heapOrder);
      var range := BlockRange(level);
      var targetIndex := FreeStartingAt(arenaIndex, range.0, range.1);
      CoalesceFrom(targetIndex);
    }

    /** The arena index free computes: the offset divided by the type's
        size and multiplied back. */
    static method ScaledIndex(offset: nat, pSize: nat) returns (arenaIndex: nat)
      requires pSize >= 1
      ensures arenaIndex == RoundDown(offset, pSize)
    {
      var i := offset / pSize;
      arenaIndex := i * pSize;
      RoundDownDiv(offset, pSize);
    }

    /** The scan of free: the first node of indices start..end whose block
        starts at arenaIndex is marked free and its index returned; 0 when
        there is none. */
    method FreeStartingAt(arenaIndex: nat, start: nat, end: nat) returns (targetIndex: nat)
      requires start <= end + 1 <= |blocksTree| && 0 < |blocksTree|
      modifies this`blocksTree
      ensures (targetIndex, blocksTree) == FreeTarget(old(blocksTree), start, end + 1, arenaIndex)
    {
      targetIndex := 0;
      var i := start;
      while i < end + 1
        invariant start <= i <= end + 1
        invariant blocksTree == old(blocksTree)
        invariant FindStart(blocksTree, start, end + 1, arenaIndex) == FindStart(blocksTree, i, end + 1, arenaIndex)
      {
        if arenaIndex == blocksTree[i].start {
          blocksTree := blocksTree[i := blocksTree[i].(isFree := true)];
          targetIndex := i;
          return;
        }
        i := i + 1;
      }
    }

    /** The merge walk of free: from node targetIndex towards the root, mark
        the parent free while the buddy is free. */
    method CoalesceFrom(targetIndex: nat)
      requires targetIndex < |blocksTree| && Odd(|blocksTree|)
      modifies this`blocksTree
      ensures blocksTree == Coalesce(old(blocksTree), targetIndex)
    {
      var target: nat := targetIndex;
      while target != 0
        invariant target < |blocksTree| == |old(blocksTree)|
        invariant Coalesce(blocksTree, target) == Coalesce(old(blocksTree), targetIndex)
        decreases target
      {
        SiblingInTree(|blocksTree|, target);
        HalfDiv(target);
        HalfDiv(target - 1);
        var sibIndex := if target % 2 == 1 then target + 1 else target - 1;
        assert sibIndex == Sibling(target);
        if blocksTree[sibIndex].isFree {
          ghost var merged := blocksTree[Parent(target) := blocksTree[Parent(target)].(isFree := true)];
          assert Coalesce(blocksTree, target) == Coalesce(merged, Parent(target));
          target := (target - 1) / 2;
          blocksTree := blocksTree[target := blocksTree[target].(isFree := true)];
          assert blocksTree == merged;
        } else {
          assert Coalesce(blocksTree, target) == blocksTree;
          break;
        }
      }
    }
  }
}
