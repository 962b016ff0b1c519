/** Where the allocator can place a block: inside a free node, above the frontier, or over the free
    node that follows a block. */
module Placement {
  import opened Words
  import opened Sizes
  import opened FreeList

  /** The alignment the allocator works with. */
  function Effective(align: int): (r: int)
    ensures r >= GRANULE
  {
    Max(align, GRANULE)
  }

  /** Where a block of the given alignment would start inside a free node at `cur`: the prefix left
      below it is empty or large enough to be a node itself. */
  function Place(cur: nat, align: int): (r: Option<nat>)
    requires align > 0
  {
    var first := AlignUp(cur, align);
    if first.None? || first.value == cur || first.value - cur >= FREE_NODE_SIZE then first
    else AlignUp(cur + FREE_NODE_SIZE, align)
  }

  lemma PlaceFacts(cur: nat, align: int)
    requires align > 0 && align % 8 == 0 && cur % 8 == 0 && Place(cur, align).Some?
    ensures var s := Place(cur, align).value;
            s % 8 == 0 && s % align == 0 && (s == cur || s - cur >= FREE_NODE_SIZE)
  {
    MultipleOfGranule(Place(cur, align).value, align);
  }

  predicate Fits(b: Block, align: int, needed: int)
    requires align > 0
  {
    b.start >= 0 && Place(b.start, align).Some? && Place(b.start, align).value + needed <= b.End()
  }

  /** A suffix too small to be a node goes with the block. */
  function TakenEnd(b: Block, start: int, needed: int): int {
    if b.End() - (start + needed) >= FREE_NODE_SIZE then start + needed else b.End()
  }

  lemma TakenSlack(b: Block, p: int, needed: int)
    requires Granular(b) && p % 8 == 0 && needed % 8 == 0 && p + needed <= b.End()
    ensures p + needed <= TakenEnd(b, p, needed) <= p + needed + GRANULE
  {
    Granules(b.start, b.size);
    Granules(p, needed);
    Granules(b.End(), p + needed);
  }

  /** Some node of the list can hold the block. */
  ghost predicate ListServes(f: seq<Block>, align: int, needed: int)
    requires align > 0
  {
    exists k :: 0 <= k < |f| && Fits(f[k], align, needed)
  }

  /** The aligned block above the frontier ends by `end`. */
  predicate TopServes(ctr: int, align: int, needed: int, end: int)
    requires align > 0
  {
    ctr >= 0 && var start := AlignUp(DATA + ctr, align); start.Some? && start.value + needed <= end
  }

  /** A request can be met without committing beyond `end`. */
  ghost predicate Serves(ctr: int, free: seq<Block>, align: int, needed: int, end: int) {
    ListServes(free, Effective(align), needed) || TopServes(ctr, Effective(align), needed, end)
  }

  /** A run of `need` bytes is available in one free block or above the frontier. */
  ghost predicate Reusable(ctr: int, free: seq<Block>, end: int, need: int) {
    (exists k :: 0 <= k < |free| && free[k].size >= need) || DATA + ctr + need <= end
  }

  /** Without an alignment to meet, a node holds a block exactly when it is large enough. */
  lemma FitsGranule(f: seq<Block>, top: int, needed: int)
    requires InOrder(f, top) && top <= HEAP_BASE + HEAP_SIZE
    ensures forall k :: 0 <= k < |f| ==> (Fits(f[k], GRANULE, needed) <==> f[k].size >= needed)
  {
    forall k | 0 <= k < |f|
      ensures Fits(f[k], GRANULE, needed) <==> f[k].size >= needed
    {
      assert Granular(f[k]);
      if AlignUp(f[k].start, GRANULE).Some? {
        AlignUpGap(f[k].start, GRANULE);
      }
    }
  }

  /** So a request at the granule or less is served exactly when a long enough run is reusable. */
  lemma ServesGranule(ctr: int, free: seq<Block>, align: int, needed: int, end: int)
    requires InOrder(free, DATA + ctr) && 0 <= ctr && ctr % 8 == 0 && DATA + ctr <= HEAP_BASE + HEAP_SIZE
    requires align <= GRANULE
    ensures Serves(ctr, free, align, needed, end) <==> Reusable(ctr, free, end, needed)
  {
    FitsGranule(free, DATA + ctr, needed);
    Granules(ctr, 0);
    AlignUpGap(DATA + ctr, GRANULE);
    if ListServes(free, GRANULE, needed) {
      var k :| 0 <= k < |free| && Fits(free[k], GRANULE, needed);
      assert free[k].size >= needed;
    }
    if k :| 0 <= k < |free| && free[k].size >= needed {
      assert Fits(free[k], GRANULE, needed);
    }
  }

  /** Nothing larger than the heap is served. */
  lemma ServesBounded(ctr: int, free: seq<Block>, align: int, needed: int, end: int)
    requires InOrder(free, DATA + ctr) && 0 <= ctr && DATA + ctr <= HEAP_BASE + HEAP_SIZE
             && end <= HEAP_BASE + HEAP_SIZE
    requires Serves(ctr, free, align, needed, end)
    ensures needed <= HEAP_SIZE
  {
    if ListServes(free, Effective(align), needed) {
      var k :| 0 <= k < |free| && Fits(free[k], Effective(align), needed);
      assert IsNode(free[k], DATA + ctr);
    }
  }

  predicate Adjoins(b: Block, start: int, need: int) {
    b.start == start && b.size >= need
  }

  /** A free node starts at `start` and has `need` bytes. */
  ghost predicate Adjoined(f: seq<Block>, start: int, need: int) {
    exists k :: 0 <= k < |f| && Adjoins(f[k], start, need)
  }

  /** The block `[ptr, ptr + was)` can grow to `want` bytes where it is, committing no further than `end`. */
  ghost predicate CanGrow(ctr: int, free: seq<Block>, end: int, ptr: int, was: int, want: int) {
    if ptr + was == DATA + ctr then ptr + want <= end else Adjoined(free, ptr + was, want - was)
  }

  lemma NoneAboveTop(f: seq<Block>, top: int, need: int)
    requires InOrder(f, top)
    ensures !Adjoined(f, top, need)
  {
  }

  /** It can grow where it is, or a new block for the request can be had. */
  ghost predicate CanEnlarge(ctr: int, free: seq<Block>, end: int, ptr: int, was: int, want: int, size: nat,
                             align: int) {
    CanGrow(ctr, free, end, ptr, was, want) || (IsLayout(size, align) && Serves(ctr, free, align, want, end))
  }

  /** A held block of `was` bytes can be given `size` bytes: its block is large enough, or can be enlarged. */
  ghost predicate CanResize(ctr: int, free: seq<Block>, end: int, ptr: int, was: int, size: nat, align: int) {
    && BlockSize(size).Some?
    && (BlockBytes(size) <= was || CanEnlarge(ctr, free, end, ptr, was, BlockBytes(size), size, align))
  }

  ghost predicate IsStartAtTop(ctr: int, align: int, start: int) {
    && DATA + ctr <= start && start - (DATA + ctr) <= Effective(align) - GRANULE
    && Aligned(start, align) && start % 8 == 0
  }
}
