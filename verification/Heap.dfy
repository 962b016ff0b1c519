/** The executive's global allocator: a heap whose free-list nodes live in the freed blocks. */
module ExecutiveHeap {
  import opened Words
  import opened Sizes
  import opened FreeList
  import opened FreeListMemory
  import opened FreeListWalk
  import opened Placement
  import opened Arena
  import opened Commitment
  import opened TransientLane
  import opened KeptBytes

  datatype HeapUsage = HeapUsage(bump: int, inUse: int, reusable: int, largestReusable: int, topReusable: int,
                                 durableCapacity: int, transientUsed: nat, transientHighWater: nat,
                                 transientCapacity: nat)

  class Heap {
    /** Heap bytes, including the `FREE_HEAD` word. */
    var mem: Memory
    /** The remaining metadata words at the bottom of the heap. */
    var ctr: int
    var limit: nat
    var committed: nat
    /** The allocator lock has been poisoned by the corruption path. */
    var poisoned: bool

    var transientUsed: nat
    var transientDepth: nat
    var highWater: nat
    /** What callers hold: durable blocks, transient blocks in allocation order, and the scope guards
        that are open, outermost first. The allocator itself never reads these. */
    var live: Ledger
    var lane: seq<LaneBlock>
    var guards: seq<Guard>

    /** The list the memory encodes, the bytes lost to slack so far, and how often the root has
        committed more frames since boot. */
    ghost var free: seq<Block>
    ghost var lost: int
    ghost var growths: nat

    // ----- the invariant -----

    function HeapSize(): int
      reads `limit
    {
      if limit == 0 then HEAP_SIZE else Min(limit, HEAP_SIZE)
    }

    function DurableEnd(): int
      reads `limit, `committed
    {
      if limit == 0 then HEAP_BASE + committed else HEAP_BASE + HeapSize()
    }

    /** The root commits whole windows; a component has a fixed limit. */
    ghost predicate ConfigOk()
      reads `limit, `committed, `growths
    {
      Configured(limit, committed, growths)
    }

    ghost predicate ListOk()
      reads `mem, `ctr, `free
    {
      ListHeld(mem, ctr, free)
    }

    ghost predicate ArenaOk()
      reads `mem, `ctr, `free, `poisoned, `live, `lost
    {
      ListOk() && !poisoned && TopInUse(ctr, free) && Books(ctr, free, live, lost)
    }

    ghost predicate DurableOk()
      reads `mem, `ctr, `free, `poisoned, `live, `lost, `limit, `committed, `growths
    {
      ArenaOk() && ConfigOk() && DATA + ctr <= DurableEnd()
    }

    ghost predicate LaneOk()
      reads `lane, `guards, `limit, `transientUsed, `transientDepth, `highWater
    {
      LaneHeld(lane, guards, limit == 0, transientUsed, transientDepth, highWater)
    }

    /** The invariant every public operation keeps. */
    ghost predicate Valid()
      reads this
    {
      DurableOk() && LaneOk()
    }

    /** Nothing is held: no blocks, no open scopes. */
    ghost predicate Idle()
      reads this
    {
      ArenaOk() && LaneOk() && |live| == 0 && lane == [] && guards == [] && lost == 0 && ctr == 0
    }

    /** The commitment never shrinks, and grows exactly when a growth is counted. */
    ghost predicate Grown(k: nat, g: nat)
      reads `committed, `growths
    {
      committed >= k && growths >= g && (committed == k <==> growths == g)
    }

    /** The arena is as it was. */
    ghost predicate Unchanged(m: Memory, c: int, f: seq<Block>, l: Ledger, n: int, k: nat)
      reads `mem, `ctr, `free, `live, `lost, `committed
    {
      mem == m && ctr == c && free == f && live == l && lost == n && committed == k
    }

    // ----- coming up -----

    /** Zeroed pages: neither a component nor yet the root. */
    constructor ()
      ensures Idle() && limit == 0 && committed == 0 && growths == 0
    {
      ghost var none;
      var nobody;
      nobody, none := EmptyArena();
      EmptyLane(true);
      mem, ctr, limit, committed, poisoned := Zeroed, 0, 0, 0, false;
      transientUsed, transientDepth, highWater := 0, 0, 0;
      live, lane, guards, free, lost, growths := nobody, [], [], none, 0, 0;
    }

    /** A spawned component's limit, its first operation. Asking again for the same is harmless; a heap in
        use or another limit is refused. An accepted limit makes a heap of exactly that many pages. */
    method InitializeHeapLimit(frames: nat) returns (ok: bool)
      modifies `limit
      ensures ok <==>
                frames == 0 || (frames <= HEAP_FRAMES && ctr == 0 && At(mem, FREE_HEAD) == 0
                                && old(limit) in {0, frames * PAGE})
      ensures !ok || frames == 0 ==> limit == old(limit)
      ensures ok && frames != 0 && old(Idle()) && growths == 0 ==> Valid() && DurableEnd() == HEAP_BASE + frames * PAGE
    {
      if frames == 0 {
        return true;
      }
      if frames > HEAP_FRAMES || ctr != 0 || At(mem, FREE_HEAD) != 0 {
        return false;
      }
      var bytes := frames * PAGE;
      if limit != 0 && limit != bytes {
        return false;
      }
      limit := bytes;
      return true;
    }

    /** Publishing mapped frames; the assertions of the source are the preconditions. Whole windows keep the
        heap valid or make it so, its end never retreats, and an increase counts as one growth. */
    method PublishRootHeapCommit(frames: nat)
      requires limit == 0 && INITIAL_FRAMES <= frames <= DURABLE_FRAMES && frames >= committed / PAGE
      modifies `committed, `growths
      ensures DurableEnd() == HEAP_BASE + frames * PAGE
      ensures old(ConfigOk()) && IsCommitment(frames) ==>
                && ConfigOk() && DurableEnd() >= old(DurableEnd())
                && growths == old(growths) + if DurableEnd() > old(DurableEnd()) then 1 else 0
      ensures old(Idle()) && committed != 0 && old(committed == 0 && growths == 0) && IsCommitment(frames) ==> Valid()
    {
      ghost var before := committed;
      committed := frames * PAGE;
      if IsCommitment(frames) {
        FramesCommitted(frames);
        if Configured(0, before, growths) {
          CommittedFrames(before);
          if committed > before {
            PublishedGrowth(before, growths, frames);
            growths := growths + 1;
          }
        }
      }
    }

    // ----- the free list -----

    /** Insert a block into the address-ordered list, merging it with both neighbours. */
    method InsertFreeBlock(start: nat, size: nat)
      requires ListOk() && Granular(Block(start, size)) && start < USIZE_LIMIT && size < USIZE_LIMIT
      modifies `mem, `free, `poisoned
      ensures ListOk()
      ensures var b := Block(start, size);
              var refused := size < FREE_NODE_SIZE || start < DATA || start + size > DATA + ctr
                             || (!HasNodeAt(old(free), start) && Clashes(old(free), b));
              && poisoned == (old(poisoned) || refused)
              && (refused || HasNodeAt(old(free), start) ==> mem == old(mem) && free == old(free))
              && (!refused && !HasNodeAt(old(free), start) ==>
                    Adds(old(free), free, start, start + size) && OnlyListCells(old(mem), mem, free))
    {
      var end := CheckedAdd(start, size);
      if size < FREE_NODE_SIZE || start < DATA || end.None? || end.value > DATA + ctr {
        poisoned := true;
        return;
      }
      ghost var i;
      var prev, prevLink, cur;
      prev, prevLink, cur, i := FindSlot(start);
      if cur == start {
        return;
      }
      NoNodeAt(free, start, i, DATA + ctr);
      FitsBetween(free, DATA + ctr, i, Block(start, size));
      assert 0 < i ==> NodeWords(mem, free, i - 1);
      var prevEnd := if prev == 0 then Some(0) else CheckedAdd(prev, At(mem, prev));
      if prevEnd.None? || prevEnd.value > start || (cur != 0 && start + size > cur) {
        poisoned := true;
        return;
      }
      InsertAndMerge(start, size, prev, prevLink, cur, i);
    }

    /** The first node at or above `start`, and the word that links to it. */
    method FindSlot(start: nat) returns (prev: int, prevLink: int, cur: int, ghost i: nat)
      requires ListOk()
      ensures Splits(free, i, start) && AtNode(free, i, prev, prevLink, cur)
    {
      prev, prevLink, cur, i := 0, FREE_HEAD, At(mem, FREE_HEAD), 0;
      while cur != 0 && cur < start
        invariant i <= |free| && AtNode(free, i, prev, prevLink, cur)
        invariant forall k :: 0 <= k < i ==> free[k].start < start
        decreases |free| - i
      {
        assert NodeWords(mem, free, i);
        prev, prevLink, cur := cur, cur + 8, At(mem, cur + 8);
        i := i + 1;
      }
    }

    /** The writing half of the insertion: link the new node in, then merge forward and backward. */
    method InsertAndMerge(start: nat, size: nat, prev: int, prevLink: int, cur: int, ghost i: nat)
      requires ListOk() && i <= |free| && FitsAt(free, i, Block(start, size), DATA + ctr)
               && Granular(Block(start, size))
      requires AtNode(free, i, prev, prevLink, cur)
      modifies `mem, `free
      ensures ListOk() && Adds(old(free), free, start, start + size) && OnlyListCells(old(mem), mem, free)
    {
      ghost var f0, m0 := free, mem;
      LinkNode(start, size, prevLink, cur, i);
      ghost var f2, m2 := free, mem;
      MergeBackward(start, prev, i);
      AddsSame(f0, f2, free, start, start + size);
      OnlyChain(m0, m2, mem, f2, free);
      BackwardGaps(f2, i, free, DATA + ctr);
    }

    /** Link the new node in and merge it with the node after it. */
    method LinkNode(start: nat, size: nat, prevLink: int, cur: int, ghost i: nat)
      requires ListOk() && i <= |free| && FitsAt(free, i, Block(start, size), DATA + ctr)
               && Granular(Block(start, size))
      requires cur == Next(free, i) && prevLink == Link(free, i)
      modifies `mem, `free
      ensures Holds(mem, free, DATA + ctr) && GapsBut(free, i) && free[i].start == start
      ensures i > 0 ==> free[i - 1] == old(free)[i - 1]
      ensures Adds(old(free), free, start, start + size) && OnlyListCells(old(mem), mem, free)
    {
      ghost var b, f0, m0 := Block(start, size), free, mem;
      WriteLinked(start, size, prevLink, cur, i);
      ghost var f1, m1 := free, mem;
      MergeForward(start, size, cur, i);
      AddsSame(f0, f1, free, start, start + size);
      OnlyChain(m0, m1, mem, f1, free);
      ForwardGaps(f0, i, b, f1, free);
    }

    method WriteLinked(start: nat, size: nat, prevLink: int, cur: int, ghost i: nat)
      requires Holds(mem, free, DATA + ctr) && i <= |free| && FitsAt(free, i, Block(start, size), DATA + ctr)
      requires Granular(Block(start, size)) && cur == Next(free, i) && prevLink == Link(free, i)
      modifies `mem, `free
      ensures Holds(mem, free, DATA + ctr) && Inserted(old(free), i, Block(start, size), free)
      ensures Adds(old(free), free, start, start + size) && OnlyListCells(old(mem), mem, free)
    {
      ghost var g := InsertWrite(mem, free, i, Block(start, size), DATA + ctr);
      mem := WriteNode(mem, start, size, cur);
      mem := Put(mem, prevLink, start);
      free := g;
    }

    method MergeForward(start: nat, size: nat, cur: int, ghost i: nat)
      requires Holds(mem, free, DATA + ctr) && i < |free| && free[i] == Block(start, size) && cur == Next(free, i + 1)
      modifies `mem, `free
      ensures Holds(mem, free, DATA + ctr) && Joined(old(free), i, free)
      ensures SameCover(old(free), free) && OnlyListCells(old(mem), mem, free)
    {
      NextInHeap(free, i, DATA + ctr);
      if cur != 0 && CheckedAdd(start, size) == Some(cur) {
        Absorb(start, size, cur, i);
      }
    }

    /** Rewrite the lower of two touching nodes to span both. */
    method Absorb(lower: nat, size: nat, upper: nat, ghost i: nat)
      requires Holds(mem, free, DATA + ctr) && i + 1 < |free| && free[i] == Block(lower, size)
      requires free[i + 1].start == upper == lower + size
      modifies `mem, `free
      ensures Holds(mem, free, DATA + ctr) && Merged(old(free), i, free)
      ensures SameCover(old(free), free) && OnlyListCells(old(mem), mem, free)
    {
      assert NodeWords(mem, free, i + 1);
      ghost var g := MergeWrite(mem, free, i, DATA + ctr);
      var mergedSize := Min(size + At(mem, upper), USIZE_LIMIT - 1);
      mem := WriteNode(mem, lower, mergedSize, At(mem, upper + 8));
      free := g;
    }

    method MergeBackward(start: nat, prev: int, ghost i: nat)
      requires Holds(mem, free, DATA + ctr) && i < |free| && free[i].start == start
      requires prev == if i == 0 then 0 else free[i - 1].start
      modifies `mem, `free
      ensures Holds(mem, free, DATA + ctr) && if i > 0 then Joined(old(free), i - 1, free) else free == old(free)
      ensures SameCover(old(free), free) && OnlyListCells(old(mem), mem, free)
    {
      if prev != 0 {
        assert NodeWords(mem, free, i - 1);
        NextInHeap(free, i - 1, DATA + ctr);
        var prevSize := At(mem, prev);
        if CheckedAdd(prev, prevSize) == Some(start) {
          Absorb(prev, prevSize, start, i - 1);
        }
      }
    }

    /** Retreat the frontier over free blocks that end at it. The source retries until no block was
        released; with a coalesced list that happens after at most one release. */
    method ReleaseTopFreeBlocks()
      requires ListOk()
      modifies `mem, `ctr, `free
      ensures ListOk() && TopInUse(ctr, free) && ctr <= old(ctr)
      ensures SameRoom(old(ctr), old(free), ctr, free) && OnlyListCells(old(mem), mem, old(free))
      ensures if old(TopInUse(ctr, free)) then free == old(free) && ctr == old(ctr) else |free| == |old(free)| - 1
    {
      while true
        invariant ListOk() && ctr <= old(ctr)
        invariant SameRoom(old(ctr), old(free), ctr, free) && OnlyListCells(old(mem), mem, old(free))
        invariant (free == old(free) && ctr == old(ctr))
                  || (TopInUse(ctr, free) && |free| == |old(free)| - 1 && !old(TopInUse(ctr, free)))
        decreases |free|
      {
        var released := ReleaseOne();
        if !released {
          break;
        }
      }
    }

    /** One pass of the loop above. */
    method ReleaseOne() returns (released: bool)
      requires ListOk()
      modifies `mem, `ctr, `free
      ensures ListOk() && TopInUse(ctr, free) && ctr <= old(ctr)
      ensures released <==> !old(TopInUse(ctr, free))
      ensures if released then |free| == |old(free)| - 1 else free == old(free) && ctr == old(ctr) && mem == old(mem)
      ensures SameRoom(old(ctr), old(free), ctr, free) && OnlyListCells(old(mem), mem, old(free))
    {
      var top := DATA + ctr;
      var prevLink, cur: int := FREE_HEAD, At(mem, FREE_HEAD);
      ghost var i := 0;
      released := false;
      while cur != 0
        invariant 0 <= i <= |free| && cur == Next(free, i) && prevLink == Link(free, i)
        invariant forall k :: 0 <= k < i ==> free[k].End() != top
        decreases |free| - i
      {
        assert NodeWords(mem, free, i);
        var size, next: int := At(mem, cur), At(mem, cur + 8);
        if CheckedAdd(cur, size) == Some(top) {
          ReleaseNode(prevLink, cur, next, i);
          return true;
        }
        prevLink, cur := cur + 8, next;
        i := i + 1;
      }
      NoneAtTop(ctr, free);
    }

    method ReleaseNode(prevLink: int, cur: int, next: int, ghost i: nat)
      requires ListOk() && i < |free| && free[i].End() == DATA + ctr
      requires cur == free[i].start && prevLink == Link(free, i) && next == Next(free, i + 1)
      modifies `mem, `ctr, `free
      ensures ListOk() && TopInUse(ctr, free) && ctr <= old(ctr)
      ensures !old(TopInUse(ctr, free)) && |free| == |old(free)| - 1
      ensures SameRoom(old(ctr), old(free), ctr, free) && OnlyListCells(old(mem), mem, old(free))
    {
      ghost var f0, m0 := free, mem;
      ghost var g := UnlinkWrite(mem, free, i, DATA + ctr);
      LastFreed(ctr, free, i, g);
      DroppedClear(free, g, free[i].start, free[i].End());
      mem := Put(mem, prevLink, next);
      OnlyWiden(m0, mem, g, f0);
      ctr := cur - DATA;
      free := g;
    }

    /** First fit: the lowest node that can hold `needed` bytes at the alignment, split into the
        block and whatever prefix and suffix are large enough to stay on the list. `at` is the node
        used and `[p, hi)` the bytes taken from the list. */
    method AllocFromFreeList(align: int, needed: nat) returns (p: int, ghost at: nat, ghost hi: int)
      requires ListOk() && !poisoned && align > 0 && align % 8 == 0
      requires needed % 8 == 0 && needed >= FREE_NODE_SIZE && needed < USIZE_LIMIT
      modifies `mem, `free, `poisoned
      ensures ListOk() && !poisoned
      ensures align <= USIZE_LIMIT / 2 ==> (p != 0 <==> ListServes(old(free), align, needed))
      ensures p == 0 ==> mem == old(mem) && free == old(free)
      ensures p != 0 ==>
                && at < |old(free)| && Fits(old(free)[at], align, needed)
                && (forall k :: 0 <= k < at ==> !Fits(old(free)[k], align, needed))
                && Place(old(free)[at].start, align) == Some(p) && p % align == 0
                && hi == TakenEnd(old(free)[at], p, needed) && p + needed <= hi <= p + needed + GRANULE
                && Drops(old(free), free, p, hi)
      ensures OnlyListCells(old(mem), mem, old(free))
    {
      var prevLink, cur: int := FREE_HEAD, At(mem, FREE_HEAD);
      at, hi := 0, 0;
      while cur != 0
        invariant 0 <= at <= |free| && cur == Next(free, at) && prevLink == Link(free, at)
        invariant forall k :: 0 <= k < at ==> !Fits(free[k], align, needed)
        invariant mem == old(mem) && free == old(free) && !poisoned
        decreases |free| - at
      {
        assert NodeWords(mem, free, at);
        var size, next: int := At(mem, cur), At(mem, cur + 8);
        var rounded := PlaceIn(cur, align);
        if rounded.None? {
          PlacedInHeap(free, at, DATA + ctr, align);
          return 0, at, hi;
        }
        var start := rounded.value;
        var prefix := start - cur;
        if prefix + needed < USIZE_LIMIT && prefix + needed <= size {
          assert Fits(free[at], align, needed);
          PlaceFacts(cur, align);
          hi := TakeFrom(prevLink, cur, size, next, start, needed, at);
          return start, at, hi;
        }
        prevLink, cur := cur + 8, next;
        at := at + 1;
      }
      return 0, at, hi;
    }

    static method PlaceIn(cur: nat, align: int) returns (r: Option<nat>)
      requires align > 0
      ensures r == Place(cur, align)
    {
      r := AlignUp(cur, align);
      if r.Some? {
        var prefix := r.value - cur;
        if prefix != 0 && prefix < FREE_NODE_SIZE {
          r := AlignUp(cur + FREE_NODE_SIZE, align);
        }
      }
    }

    method TakeFrom(prevLink: int, cur: nat, size: nat, next: int, start: nat, needed: nat,
                    ghost at: nat) returns (ghost hi: int)
      requires ListOk() && !poisoned && at < |free| && free[at] == Block(cur, size)
      requires prevLink == Link(free, at) && next == Next(free, at + 1)
      requires (start == cur || start - cur >= FREE_NODE_SIZE) && start + needed <= cur + size
      requires start % 8 == 0 && needed % 8 == 0 && needed >= FREE_NODE_SIZE
      modifies `mem, `free, `poisoned
      ensures ListOk() && !poisoned
      ensures hi == TakenEnd(Block(cur, size), start, needed) && start + needed <= hi <= start + needed + GRANULE
      ensures Drops(old(free), free, start, hi) && OnlyListCells(old(mem), mem, old(free))
    {
      ghost var f0, m0, end := free, mem, cur + size;
      NodeGranules(free, at, DATA + ctr, start, needed);
      hi := TakenEnd(free[at], start, needed);
      Unlink(prevLink, next, at);
      ghost var f1, m1 := free, mem;
      DroppedClear(f0, f1, cur, end);
      ghost var f2 := ReturnEnds(cur, start, start + needed, cur + size, hi);
      Refilled(f0, f1, f2, free, cur, start, hi, end);
      OnlyChain(m0, m1, mem, f1, free);
      OnlyWiden(m0, mem, free, f0);
    }

    /** Put back what lies before and after `[start, stop)` of a block taken off the list. */
    method ReturnEnds(cur: nat, start: nat, stop: nat, end: nat, ghost hi: int) returns (ghost mid: seq<Block>)
      requires ListOk() && !poisoned && DATA <= cur <= start <= stop <= end <= DATA + ctr && Clear(free, cur, end)
      requires Granular(Block(cur, start - cur)) && Granular(Block(stop, end - stop))
      requires start == cur || start - cur >= FREE_NODE_SIZE
      requires hi == if end - stop >= FREE_NODE_SIZE then stop else end
      modifies `mem, `free, `poisoned
      ensures ListOk() && !poisoned
      ensures Adds(old(free), mid, cur, start) && Adds(mid, free, hi, end)
      ensures Within(old(free), free) && OnlyListCells(old(mem), mem, free)
    {
      ghost var f0, m0 := free, mem;
      ReturnPiece(cur, start - cur);
      ghost var m1 := mem;
      mid := free;
      AddedClear(f0, mid, cur, start, end);
      ReturnPiece(stop, end - stop);
      if hi != stop {
        AddsNothing(mid, end);
      }
      AddsWithin(f0, mid, free, cur, start, hi, end);
      OnlyChain(m0, m1, mem, mid, free);
    }

    /** Take a node off the list whole. */
    method Unlink(prevLink: int, next: int, ghost i: nat)
      requires ListOk() && i < |free| && prevLink == Link(free, i) && next == Next(free, i + 1)
      modifies `mem, `free
      ensures ListOk() && Drops(old(free), free, old(free)[i].start, old(free)[i].End())
      ensures OnlyListCells(old(mem), mem, free)
    {
      ghost var g := UnlinkWrite(mem, free, i, DATA + ctr);
      mem := Put(mem, prevLink, next);
      free := g;
    }

    /** Put a piece of a block back on the list unless it is too small to be a node. */
    method ReturnPiece(start: nat, size: nat)
      requires ListOk() && !poisoned && Granular(Block(start, size))
      requires DATA <= start && start + size <= DATA + ctr && Clear(free, start, start + size)
      modifies `mem, `free, `poisoned
      ensures ListOk() && !poisoned
      ensures size >= FREE_NODE_SIZE || size == 0 ==> Adds(old(free), free, start, start + size)
      ensures size < FREE_NODE_SIZE ==> mem == old(mem) && free == old(free)
      ensures OnlyListCells(old(mem), mem, free)
    {
      if size >= FREE_NODE_SIZE {
        NoClash(free, DATA + ctr, Block(start, size));
        InsertFreeBlock(start, size);
      } else {
        AddsNothing(free, start);
      }
    }

    /** Grow a block over the free node that starts where it ends. `[start + oldSize, hi)` is taken. */
    method GrowInPlace(start: nat, oldSize: nat, newSize: nat) returns (ok: bool, ghost hi: int)
      requires ListOk() && start % 8 == 0 && oldSize % 8 == 0 && newSize % 8 == 0 && oldSize < newSize
      modifies `mem, `free
      ensures ListOk()
      ensures ok <==> Adjoined(old(free), start + oldSize, newSize - oldSize)
      ensures !ok ==> mem == old(mem) && free == old(free)
      ensures ok ==> start + newSize <= hi <= start + newSize + GRANULE && Drops(old(free), free, start + oldSize, hi)
      ensures OnlyListCells(old(mem), mem, old(free))
    {
      hi := 0;
      if start + oldSize >= USIZE_LIMIT {
        return false, hi;
      }
      var adjacent, need := start + oldSize, newSize - oldSize;
      var prevLink, cur: int := FREE_HEAD, At(mem, FREE_HEAD);
      ghost var i := 0;
      while cur != 0
        invariant 0 <= i <= |free| && cur == Next(free, i) && prevLink == Link(free, i)
        invariant forall k :: 0 <= k < i ==> !Adjoins(free[k], adjacent, need)
        invariant mem == old(mem) && free == old(free)
        decreases |free| - i
      {
        assert NodeWords(mem, free, i);
        var size, next: int := At(mem, cur), At(mem, cur + 8);
        if cur == adjacent && size >= need {
          assert Adjoins(free[i], adjacent, need);
          Granules(newSize, oldSize);
          hi := TakeAdjacent(prevLink, cur, size, next, need, i);
          return true, hi;
        }
        prevLink, cur := cur + 8, next;
        i := i + 1;
      }
      return false, hi;
    }

    method TakeAdjacent(prevLink: int, cur: nat, size: nat, next: int, need: nat, ghost i: nat) returns (ghost hi: int)
      requires ListOk() && i < |free| && free[i] == Block(cur, size) && prevLink == Link(free, i)
      requires next == Next(free, i + 1)
      requires 0 < need <= size && need % 8 == 0
      modifies `mem, `free
      ensures ListOk() && cur + need <= hi <= cur + need + GRANULE
      ensures Drops(old(free), free, cur, hi) && OnlyListCells(old(mem), mem, old(free))
    {
      ghost var f0, m0 := free, mem;
      NodeGranules(free, i, DATA + ctr, cur, need);
      hi := TakenEnd(free[i], cur, need);
      if size - need >= FREE_NODE_SIZE {
        Trim(prevLink, cur, size, next, need, i);
      } else {
        Unlink(prevLink, next, i);
      }
      DroppedClear(f0, free, cur, hi);
      OnlyWiden(m0, mem, free, f0);
    }

    /** Move a node up by `need` bytes. */
    method Trim(prevLink: int, cur: nat, size: nat, next: int, need: nat, ghost i: nat)
      requires ListOk() && i < |free| && free[i] == Block(cur, size) && prevLink == Link(free, i)
      requires next == Next(free, i + 1)
      requires size - need >= FREE_NODE_SIZE && Granular(Block(cur + need, size - need))
      modifies `mem, `free
      ensures ListOk() && Drops(old(free), free, cur, cur + need) && OnlyListCells(old(mem), mem, free)
    {
      ghost var g := TrimWrite(mem, free, i, Block(cur + need, size - need), DATA + ctr);
      mem := WriteNode(mem, cur + need, size - need, next);
      mem := Put(mem, prevLink, cur + need);
      free := g;
    }

    /** Walk the list the way a damaged heap forces one to: check a node before following it. */
    method ValidateFreeList(capacity: nat) returns (ok: bool)
      requires 0 <= ctr <= capacity <= HEAP_SIZE
      ensures ok <==> HasList(mem, DATA + ctr)
    {
      var top, previousEnd, node, guard: int := DATA + ctr, DATA, At(mem, FREE_HEAD), 0;
      var maxNodes := capacity / FREE_NODE_SIZE;
      ghost var seen: seq<Block> := [];
      while node != 0
        invariant guard == |seen| && Walked(mem, seen, node, top) && Forced(mem, seen, node, top)
        invariant previousEnd == (if seen == [] then DATA else seen[|seen| - 1].End()) && previousEnd <= top
        decreases top - previousEnd
      {
        var good, size, next := CheckNode(node, previousEnd, guard, maxNodes, capacity, seen);
        if !good {
          Refuted(mem, seen, node, ctr, capacity);
          return false;
        }
        WalkStep(mem, seen, node, top);
        ForcedStep(mem, seen, node, top);
        seen := seen + [Block(node, size)];
        previousEnd, node, guard := node + size, next, guard + 1;
      }
      WalkedAll(mem, seen, top);
      return true;
    }

    /** The checks on one node, in the order that keeps every read inside the heap. */
    method CheckNode(node: int, previousEnd: int, guard: int, maxNodes: int, ghost capacity: nat,
                     ghost seen: seq<Block>)
      returns (good: bool, size: nat, next: nat)
      requires guard == |seen| && maxNodes == capacity / FREE_NODE_SIZE
      requires previousEnd == if seen == [] then DATA else seen[|seen| - 1].End()
      ensures good <==> !BadNode(mem, seen, node, DATA + ctr, capacity)
      ensures good ==> size == At(mem, node) && next == At(mem, node + 8)
    {
      var top := DATA + ctr;
      size, next := 0, 0;
      if node < DATA || node >= top || node % GRANULE != 0 || guard >= maxNodes {
        return false, size, next;
      }
      size, next := At(mem, node), At(mem, node + 8);
      var end := CheckedAdd(node, size);
      if end.None? || node < previousEnd || size < FREE_NODE_SIZE || size % GRANULE != 0 || end.value > top
         || (next != 0 && (next <= node || next < end.value || next >= top || next % GRANULE != 0)) {
        return false, size, next;
      }
      return true, size, next;
    }

    // ----- commitment -----

    /** Map more durable frames; the kernel may refuse. */
    method GrowOwnHeap(requestedEnd: nat) returns (ok: bool)
      requires ConfigOk() && limit == 0 && requestedEnd >= HEAP_BASE
      modifies `committed, `growths
      ensures ConfigOk() && Grown(old(committed), old(growths))
      ensures ok ==> requestedEnd <= DurableEnd()
      ensures !ok ==> committed == old(committed)
      ensures requestedEnd > HEAP_BASE + DURABLE_FRAMES * PAGE ==> !ok
    {
      CommittedFrames(committed);
      var current := committed / PAGE;
      CommitTarget(current, requestedEnd);
      var target := RootCommitTarget(current, requestedEnd);
      if target.None? {
        return false;
      }
      if target.value == current {
        return true;
      }
      var mapped: bool := *;
      if !mapped {
        return false;
      }
      PublishRootHeapCommit(target.value);
      return true;
    }

    method EnsureDurableEnd(end: nat) returns (ok: bool)
      requires ConfigOk() && end >= HEAP_BASE
      modifies `committed, `growths
      ensures ConfigOk() && Grown(old(committed), old(growths))
      ensures ok ==> end <= DurableEnd()
      ensures end <= old(DurableEnd()) ==> ok && committed == old(committed)
      ensures !ok || limit != 0 ==> committed == old(committed)
    {
      if end <= DurableEnd() {
        return true;
      }
      if limit != 0 {
        return false;
      }
      ok := GrowOwnHeap(end);
    }

    // ----- the durable arena -----

    /** Allocate from the free list or above the frontier. `[lo, hi)` is what stops being available:
        the block and the slack lost around it. A request that fits is never refused, and a refusal
        changes nothing. */
    method AllocDurable(size: nat, align: int) returns (p: int, ghost lo: int, ghost hi: int)
      requires DurableOk() && 0 < size < USIZE_LIMIT && IsPow2(align) && align <= USIZE_LIMIT / 2
      modifies `mem, `ctr, `committed, `growths, `poisoned, `free, `live, `lost
      ensures DurableOk() && Grown(old(committed), old(growths))
      ensures p == 0 ==> Unchanged(old(mem), old(ctr), old(free), old(live), old(lost), old(committed))
      ensures p != 0 ==>
                && p !in old(live) && live == old(live)[p := Owned(size, align, BlockBytes(size))]
                && DATA <= lo <= p && p + BlockBytes(size) <= hi && Takes(old(ctr), old(free), ctr, free, lo, hi)
                && lost == old(lost) + (hi - lo - BlockBytes(size)) <= old(lost) + Slack(align)
      ensures OnlyListCells(old(mem), mem, old(free))
      ensures BlockSize(size).Some? && Serves(old(ctr), old(free), align, BlockBytes(size), old(DurableEnd())) ==>
                p != 0
      ensures p != 0 ==> BlockSize(size).Some? && Serves(old(ctr), old(free), align, BlockBytes(size), DurableEnd())
      ensures limit != 0 ==> committed == old(committed)
    {
      lo, hi := 0, 0;
      var blockSize := BlockSize(size);
      if blockSize.None? {
        return 0, lo, hi;
      }
      p, hi := AllocFromList(size, align, blockSize.value);
      if p != 0 {
        return p, p, hi;
      }
      p, lo, hi := AllocAtTop(size, align, blockSize.value);
    }

    method AllocFromList(size: nat, align: int, needed: nat) returns (p: int, ghost hi: int)
      requires DurableOk() && size > 0 && IsPow2(align) && align <= USIZE_LIMIT / 2
      requires needed == BlockBytes(size) < USIZE_LIMIT
      modifies `mem, `poisoned, `free, `live, `lost
      ensures DurableOk()
      ensures p == 0 ==> Unchanged(old(mem), old(ctr), old(free), old(live), old(lost), old(committed))
      ensures p != 0 ==>
                && p !in old(live) && live == old(live)[p := Owned(size, align, needed)]
                && DATA <= p && p + needed <= hi && Takes(old(ctr), old(free), ctr, free, p, hi)
                && lost == old(lost) + (hi - p - needed) <= old(lost) + Slack(align)
      ensures OnlyListCells(old(mem), mem, old(free))
      ensures p != 0 <==> ListServes(old(free), Effective(align), needed)
    {
      ghost var f0 := free;
      ghost var at;
      EffectiveAlign(align);
      p, at, hi := AllocFromFreeList(Max(align, GRANULE), needed);
      if p != 0 {
        var o := Owned(size, align, needed);
        FoundBlock(p, o);
        ListAllocBooks(ctr, f0, free, live, lost, lost + (hi - p - needed), p, hi, o);
        Record(p, o, hi - p - needed);
      }
    }

    /** Enter a block in the ledger together with the bytes lost around it. */
    method Record(p: int, o: Owned, ghost slack: int)
      requires ListOk() && !poisoned && ConfigOk() && DATA + ctr <= DurableEnd() && TopInUse(ctr, free)
      requires Books(ctr, free, live[p := o], lost + slack)
      modifies `live, `lost
      ensures DurableOk() && live == old(live)[p := o] && lost == old(lost) + slack
    {
      live := live[p := o];
      lost := lost + slack;
    }

    method AllocAtTop(size: nat, align: int, needed: nat) returns (p: int, ghost lo: int, ghost hi: int)
      requires DurableOk() && size > 0 && IsPow2(align) && align <= USIZE_LIMIT / 2
      requires needed == BlockBytes(size) < USIZE_LIMIT
      modifies `ctr, `committed, `growths, `live, `lost
      ensures DurableOk() && Grown(old(committed), old(growths))
      ensures p == 0 ==> Unchanged(old(mem), old(ctr), old(free), old(live), old(lost), old(committed))
      ensures p != 0 ==>
                && p !in old(live) && live == old(live)[p := Owned(size, align, needed)]
                && DATA <= lo <= p && p + needed <= hi && Takes(old(ctr), old(free), ctr, free, lo, hi)
                && lost == old(lost) + (hi - lo - needed) <= old(lost) + Slack(align)
      ensures TopServes(old(ctr), Effective(align), needed, old(DurableEnd())) ==> p != 0
      ensures p != 0 ==> TopServes(old(ctr), Effective(align), needed, DurableEnd())
      ensures limit != 0 ==> committed == old(committed)
    {
      lo, hi := DATA + ctr, 0;
      var start := StartAtTop(align);
      if start.None? {
        return 0, lo, hi;
      }
      p, hi := PlaceAtTop(start.value, size, align, needed);
    }

    /** A block at `start`, if the heap reaches or can be made to reach its end. */
    method PlaceAtTop(start: nat, size: nat, align: int, needed: nat) returns (p: int, ghost hi: int)
      requires DurableOk() && size > 0 && needed == BlockBytes(size) < USIZE_LIMIT && IsStartAtTop(ctr, align, start)
      modifies `ctr, `committed, `growths, `live, `lost
      ensures DurableOk() && Grown(old(committed), old(growths))
      ensures p == 0 ==> Unchanged(old(mem), old(ctr), old(free), old(live), old(lost), old(committed))
      ensures p != 0 ==>
                && p == start && hi == p + needed && Takes(old(ctr), old(free), ctr, free, DATA + old(ctr), hi)
                && p !in old(live) && live == old(live)[p := Owned(size, align, needed)]
                && lost == old(lost) + (p - (DATA + old(ctr)))
      ensures start + needed <= old(DurableEnd()) ==> p != 0
      ensures p != 0 ==> start + needed <= DurableEnd()
      ensures limit != 0 ==> committed == old(committed)
    {
      hi := 0;
      EndInHeap(limit, committed, growths);
      var end := CheckedAdd(start, needed);
      if end.None? {
        return 0, hi;
      }
      var ok := EnsureDurableEnd(end.value);
      if !ok {
        return 0, hi;
      }
      p, hi := start, end.value;
      TakeTop(p, size, align, needed, hi);
    }

    /** Move the frontier past a new block at `p`. */
    method TakeTop(p: nat, size: nat, align: int, needed: nat, ghost hi: int)
      requires ArenaOk() && ConfigOk() && size > 0 && needed == BlockBytes(size) < USIZE_LIMIT
      requires IsStartAtTop(ctr, align, p) && hi == p + needed <= DurableEnd()
      modifies `ctr, `live, `lost
      ensures DurableOk() && ctr == hi - DATA
      ensures p !in old(live) && live == old(live)[p := Owned(size, align, needed)]
      ensures Takes(old(ctr), old(free), ctr, free, DATA + old(ctr), hi)
      ensures lost == old(lost) + (p - (DATA + old(ctr)))
    {
      var o := Owned(size, align, needed);
      EndInHeap(limit, committed, growths);
      TopAllocBooks(ctr, free, live, lost, p + needed - DATA, lost + (p - (DATA + ctr)), p, hi, o);
      live := live[p := o];
      lost := lost + (p - (DATA + ctr));
      ctr := p + needed - DATA;
    }

    /** The lowest suitably aligned address at or above the frontier. */
    method StartAtTop(align: int) returns (start: Option<nat>)
      requires 0 <= ctr && ctr % 8 == 0 && DATA + ctr <= HEAP_BASE + HEAP_SIZE && IsPow2(align)
      ensures start.Some? ==> IsStartAtTop(ctr, align, start.value)
      ensures forall n, e :: TopServes(ctr, Effective(align), n, e) <==> start.Some? && start.value + n <= e
    {
      EffectiveAlign(align);
      Granules(ctr, 0);
      start := AlignUp(DATA + ctr, Max(align, GRANULE));
      if start.Some? {
        AlignUpGap(DATA + ctr, Max(align, GRANULE));
        AlignedAsAsked(align, start.value);
      }
    }

    /** Put a block back on the list and let the frontier retreat. */
    method GiveBack(start: nat, size: nat)
      requires ListOk() && !poisoned && Granular(Block(start, size)) && size >= FREE_NODE_SIZE
      requires DATA <= start && start + size <= DATA + ctr && Clear(free, start, start + size)
      modifies `mem, `ctr, `poisoned, `free
      ensures ListOk() && !poisoned && TopInUse(ctr, free) && ctr <= old(ctr)
      ensures Gives(old(ctr), old(free), ctr, free, start, start + size)
      ensures OnlyFreed(old(mem), mem, old(free), start, size)
    {
      ghost var f0, c0, m0 := free, ctr, mem;
      ReturnPiece(start, size);
      ghost var f1, m1 := free, mem;
      ListGives(c0, f0, f1, start, start + size);
      ReleaseTopFreeBlocks();
      GivesSame(c0, f0, c0, f1, ctr, free, start, start + size);
      OnlyReturned(m0, m1, mem, f0, f1, start, size);
    }

    /** Freeing: null, zero-sized and transient blocks are left alone. */
    method DeallocUnlocked(ptr: nat, size: nat, align: int)
      requires DurableOk() && (ptr == 0 || size == 0 || IsTransient(ptr) || HoldsDurable(ptr, size, align))
      modifies `mem, `ctr, `poisoned, `free, `live
      ensures DurableOk()
      ensures ptr == 0 || size == 0 || IsTransient(ptr) ==>
                Unchanged(old(mem), old(ctr), old(free), old(live), old(lost), old(committed))
      ensures ptr != 0 && size != 0 && !IsTransient(ptr) ==>
                && live == old(live) - {ptr} && ctr <= old(ctr)
                && Gives(old(ctr), old(free), ctr, free, ptr, ptr + BlockBytes(size))
                && OnlyFreed(old(mem), mem, old(free), ptr, BlockBytes(size))
    {
      if ptr == 0 || size == 0 {
        return;
      }
      if IsTransient(ptr) {
        return;
      }
      ghost var c0, f0 := ctr, free;
      HeldBlock(ctr, free, live, lost, ptr);
      var blockSize := BlockSize(size);
      if blockSize.None? {
        return;
      }
      GiveBack(ptr, blockSize.value);
      BooksFree(c0, f0, live, lost, ctr, free, ptr);
      live := live - {ptr};
    }

    /** Shrink in place: a tail large enough to be a node is freed, a smaller one is lost. */
    method ReallocShrink(ptr: nat, align: int, oldBlock: nat, newSize: nat, newBlock: nat)
      requires DurableOk() && HeldAs(live, ptr, align, oldBlock)
      requires newSize > 0 && newBlock == BlockBytes(newSize) < USIZE_LIMIT && newBlock <= oldBlock
      modifies `mem, `ctr, `poisoned, `free, `live, `lost
      ensures DurableOk() && live == old(live)[ptr := Owned(newSize, align, newBlock)]
      ensures old(lost) <= lost <= old(lost) + GRANULE
      ensures SameBytes(old(mem), ptr, mem, ptr, newSize)
      ensures KeepsBlocks(old(mem), mem, old(live) - {ptr}) && KeepsAbove(old(mem), mem, DurableEnd())
    {
      var o := Owned(newSize, align, newBlock);
      ghost var c0, f0, m0, end := ctr, free, mem, ptr + oldBlock;
      HeldBlock(ctr, free, live, lost, ptr);
      ShrinkFacts(ptr, live[ptr], o);
      ghost var cut := CutTail(ptr, oldBlock, newBlock);
      FreedKeeps(m0, mem, c0, f0, live, lost, ptr, ptr + newBlock, oldBlock - newBlock, DurableEnd());
      KeepsBytes(m0, mem, ptr, newBlock, newSize);
      BooksShrink(c0, f0, live, lost, ctr, free, lost + (cut - ptr - newBlock), cut, end, ptr, o);
      Record(ptr, o, cut - ptr - newBlock);
    }

    /** Give back the tail of a block if it is large enough to be a node; `[cut, end)` became available. */
    method CutTail(ptr: nat, oldBlock: nat, newBlock: nat) returns (ghost cut: int)
      requires ListOk() && !poisoned && TopInUse(ctr, free)
      requires DATA <= ptr && ptr + oldBlock <= DATA + ctr && newBlock <= oldBlock && Clear(free, ptr, ptr + oldBlock)
      requires Granular(Block(ptr + newBlock, oldBlock - newBlock))
      modifies `mem, `ctr, `poisoned, `free
      ensures ListOk() && !poisoned && TopInUse(ctr, free) && ctr <= old(ctr)
      ensures cut == if oldBlock - newBlock >= FREE_NODE_SIZE then ptr + newBlock else ptr + oldBlock
      ensures Gives(old(ctr), old(free), ctr, free, cut, ptr + oldBlock)
      ensures OnlyFreed(old(mem), mem, old(free), ptr + newBlock, oldBlock - newBlock)
    {
      var tail := oldBlock - newBlock;
      cut := ptr + oldBlock;
      if tail >= FREE_NODE_SIZE {
        cut := ptr + newBlock;
        GiveBack(ptr + newBlock, tail);
      }
    }

    /** Grow the block that ends at the frontier by moving the frontier. */
    method GrowTop(ptr: nat, align: int, oldBlock: nat, newSize: nat, newBlock: nat) returns (ok: bool)
      requires DurableOk() && HeldAs(live, ptr, align, oldBlock) && ptr + oldBlock == DATA + ctr
      requires newSize > 0 && newBlock == BlockBytes(newSize) < USIZE_LIMIT && oldBlock < newBlock
      modifies `ctr, `committed, `growths, `live
      ensures DurableOk() && Grown(old(committed), old(growths))
      ensures !ok ==> Unchanged(old(mem), old(ctr), old(free), old(live), old(lost), old(committed))
      ensures ok ==> live == old(live)[ptr := Owned(newSize, align, newBlock)]
      ensures ptr + newBlock <= old(DurableEnd()) ==> ok
      ensures ok ==> ptr + newBlock <= DurableEnd()
      ensures limit != 0 ==> committed == old(committed)
    {
      HeldBlock(ctr, free, live, lost, ptr);
      var newEnd := ptr + newBlock;
      ok := EnsureDurableEnd(newEnd);
      if ok {
        ExtendTop(ptr, Owned(newSize, align, newBlock));
      }
    }

    method ExtendTop(ptr: nat, o: Owned)
      requires ArenaOk() && ConfigOk() && ptr in live && ptr + live[ptr].span == DATA + ctr
               && ptr + o.span <= DurableEnd()
      requires o.size > 0 && o.align == live[ptr].align && o.span == BlockBytes(o.size) > live[ptr].span
      modifies `ctr, `live
      ensures DurableOk() && ctr == ptr + o.span - DATA && live == old(live)[ptr := o]
    {
      HeldBlock(ctr, free, live, lost, ptr);
      Resized(ptr, live[ptr], o);
      EndInHeap(limit, committed, growths);
      ExtendTopBooks(ctr, free, live, lost, ptr + o.span - DATA, DATA + ctr, ptr + o.span, ptr, o);
      live := live[ptr := o];
      ctr := ptr + o.span - DATA;
    }

    /** Grow over the free block that follows. */
    method GrowAdjacent(ptr: nat, align: int, oldBlock: nat, newSize: nat, newBlock: nat) returns (ok: bool)
      requires DurableOk() && HeldAs(live, ptr, align, oldBlock)
      requires newSize > 0 && newBlock == BlockBytes(newSize) < USIZE_LIMIT && oldBlock < newBlock
      modifies `mem, `free, `live, `lost
      ensures DurableOk()
      ensures !ok ==> Unchanged(old(mem), old(ctr), old(free), old(live), old(lost), old(committed))
      ensures ok ==> live == old(live)[ptr := Owned(newSize, align, newBlock)]
      ensures ok ==> old(lost) <= lost <= old(lost) + GRANULE
      ensures KeepsBlocks(old(mem), mem, old(live)) && KeepsAbove(old(mem), mem, DurableEnd())
      ensures ok <==> Adjoined(old(free), ptr + oldBlock, newBlock - oldBlock)
    {
      var o := Owned(newSize, align, newBlock);
      ghost var f0, m0 := free, mem;
      HeldBlock(ctr, free, live, lost, ptr);
      Resized(ptr, live[ptr], o);
      ghost var hi;
      ok, hi := GrowInPlace(ptr, oldBlock, newBlock);
      KeptByList(m0, mem, ctr, f0, live, lost, DurableEnd());
      if ok {
        ExtendListBooks(ctr, f0, free, live, lost, lost + (hi - ptr - newBlock), ptr, o, ptr + oldBlock, hi);
        Record(ptr, o, hi - ptr - newBlock);
      }
    }

    /** Grow without moving: at the frontier if the block ends there, else over the next free block. */
    method GrowHere(ptr: nat, align: int, oldBlock: nat, newSize: nat, newBlock: nat) returns (ok: bool)
      requires DurableOk() && HeldAs(live, ptr, align, oldBlock) && ptr + oldBlock <= DATA + ctr
      requires newSize > 0 && newBlock == BlockBytes(newSize) < USIZE_LIMIT && oldBlock < newBlock
      modifies `mem, `ctr, `committed, `growths, `free, `live, `lost
      ensures DurableOk() && Grown(old(committed), old(growths))
      ensures !ok ==> Unchanged(old(mem), old(ctr), old(free), old(live), old(lost), old(committed))
      ensures ok ==> live == old(live)[ptr := Owned(newSize, align, newBlock)]
      ensures old(lost) <= lost <= old(lost) + GRANULE
      ensures KeepsBlocks(old(mem), mem, old(live)) && KeepsAbove(old(mem), mem, DurableEnd())
      ensures CanGrow(old(ctr), old(free), old(DurableEnd()), ptr, oldBlock, newBlock) ==> ok
      ensures ok ==> CanGrow(old(ctr), old(free), DurableEnd(), ptr, oldBlock, newBlock)
      ensures limit != 0 ==> committed == old(committed)
    {
      NoneAboveTop(free, DATA + ctr, newBlock - oldBlock);
      if ptr + oldBlock <= DurableEnd() && ptr + oldBlock == DATA + ctr {
        ok := GrowTop(ptr, align, oldBlock, newSize, newBlock);
        if ok {
          return;
        }
      }
      ok := GrowAdjacent(ptr, align, oldBlock, newSize, newBlock);
    }

    /** Allocate, copy, free. A refused allocation leaves the old block as it was. */
    method ReallocMove(ptr: nat, oldSize: nat, align: int, newSize: nat) returns (r: int)
      requires DurableOk() && HoldsDurable(ptr, oldSize, align) && !IsTransient(ptr) && ptr != 0
      requires 0 < oldSize < newSize < USIZE_LIMIT && IsPow2(align) && align <= USIZE_LIMIT / 2
      modifies `mem, `ctr, `committed, `growths, `poisoned, `free, `live, `lost
      ensures DurableOk() && Grown(old(committed), old(growths))
      ensures r == 0 ==> Unchanged(old(mem), old(ctr), old(free), old(live), old(lost), old(committed))
      ensures r != 0 ==>
                && r !in old(live) && live == (old(live) - {ptr})[r := Owned(newSize, align, BlockBytes(newSize))]
                && SameBytes(old(mem), ptr, mem, r, oldSize)
      ensures old(lost) <= lost <= old(lost) + Slack(align)
      ensures KeepsBlocks(old(mem), mem, old(live) - {ptr}) && KeepsAbove(old(mem), mem, DurableEnd())
      ensures BlockSize(newSize).Some? && Serves(old(ctr), old(free), align, BlockBytes(newSize), old(DurableEnd())) ==>
                r != 0
      ensures r != 0 ==>
                BlockSize(newSize).Some? && Serves(old(ctr), old(free), align, BlockBytes(newSize), DurableEnd())
      ensures limit != 0 ==> committed == old(committed)
    {
      ghost var m0, f0, c0, l0, n0 := mem, free, ctr, live, lost;
      HeldBlock(ctr, free, live, lost, ptr);
      ghost var lo, hi;
      r, lo, hi := AllocDurable(newSize, align);
      KeptByList(m0, mem, c0, f0, l0, n0, DurableEnd());
      if r != 0 {
        ghost var m1 := mem;
        MoveBlock(ptr, r, oldSize, align);
        MovedLedger(l0, ptr, r, Owned(newSize, align, BlockBytes(newSize)));
        MoveKeeps(m0, m1, mem, l0, ptr, r, oldSize, DurableEnd());
      } else {
        KeepsFewer(m0, mem, l0, ptr);
      }
    }

    /** Copy a held block into a larger one and free it. */
    method MoveBlock(ptr: nat, r: nat, oldSize: nat, align: int)
      requires DurableOk() && HoldsDurable(ptr, oldSize, align) && !IsTransient(ptr) && ptr != 0 && oldSize > 0
      requires r in live && r != ptr && live[ptr].size < live[r].size
      modifies `mem, `ctr, `poisoned, `free, `live
      ensures DurableOk() && live == old(live) - {ptr}
      ensures SameBytes(old(mem), ptr, mem, r, oldSize)
      ensures KeepsBlocks(old(mem), mem, old(live) - {ptr, r}) && KeepsAbove(old(mem), mem, DurableEnd())
    {
      ghost var m1, f1, c1, l1 := mem, free, ctr, live;
      HeldBlock(ctr, free, live, lost, ptr);
      HeldBlock(ctr, free, live, lost, r);
      CopyInto(ptr, r, oldSize);
      ghost var m2 := mem;
      CopyKeeps(m1, m2, c1, f1, l1, lost, r, oldSize, DurableEnd());
      DeallocUnlocked(ptr, oldSize, align);
      FreedKeeps(m2, mem, c1, f1, l1, lost, ptr, ptr, BlockBytes(oldSize), DurableEnd());
      CopyFreeKeeps(m1, m2, mem, l1, ptr, r, oldSize, DurableEnd());
    }

    /** Copy a held block's bytes into another held block. */
    method CopyInto(src: nat, dst: nat, n: nat)
      requires DurableOk() && src in live && dst in live && src != dst && n <= live[src].span && n <= live[dst].span
      modifies `mem
      ensures DurableOk() && WritesOnly(old(mem), mem, dst, dst + n)
      ensures SameBytes(old(mem), src, mem, dst, n)
    {
      HeldBlock(ctr, free, live, lost, src);
      HeldBlock(ctr, free, live, lost, dst);
      HeldApart(ctr, free, live, lost, src, dst);
      ghost var m0 := mem;
      mem := CopyBytes(mem, src, dst, n);
      CopiedSame(m0, mem, src, dst, n);
      WritesKeepList(m0, mem, ctr, free, dst, dst + n);
    }

    /** `realloc` of a durable block: shrink in place, grow at the frontier, grow over the next free
        block, or move. It stays durable even inside a transient scope. It is refused only when none of
        these can be done, and then nothing changes. */
    method ReallocDurable(ptr: nat, oldSize: nat, align: int, newSize: nat) returns (r: int)
      requires DurableOk() && HoldsDurable(ptr, oldSize, align) && !IsTransient(ptr) && ptr != 0
      requires 0 < newSize < USIZE_LIMIT && IsPow2(align) && align <= USIZE_LIMIT / 2
      modifies `mem, `ctr, `committed, `growths, `poisoned, `free, `live, `lost
      ensures DurableOk() && Grown(old(committed), old(growths))
      ensures r == 0 ==> Unchanged(old(mem), old(ctr), old(free), old(live), old(lost), old(committed))
      ensures newSize <= oldSize ==> r == ptr
      ensures r != 0 ==>
                && (r == ptr || r !in old(live))
                && live == (old(live) - {ptr})[r := Owned(newSize, align, BlockBytes(newSize))]
                && SameBytes(old(mem), ptr, mem, r, Min(oldSize, newSize))
      ensures old(lost) <= lost <= old(lost) + Slack(align)
      ensures KeepsBlocks(old(mem), mem, old(live) - {ptr}) && KeepsAbove(old(mem), mem, DurableEnd())
      ensures StaysInPlace(old(ctr), old(free), old(DurableEnd()), ptr, oldSize, newSize) ==> r == ptr
      ensures CanResize(old(ctr), old(free), old(DurableEnd()), ptr, BlockBytes(oldSize), newSize, align) ==> r != 0
      ensures r != 0 ==> CanResize(old(ctr), old(free), DurableEnd(), ptr, BlockBytes(oldSize), newSize, align)
      ensures limit != 0 ==> committed == old(committed)
    {
      HeldBlock(ctr, free, live, lost, ptr);
      var oldBlock, newBlock := BlockSize(oldSize), BlockSize(newSize);
      if oldBlock.None? {
        return 0;
      }
      if newBlock.None? {
        BlockBytesMonotone(newSize, oldSize);
        KeepsSame(mem, live - {ptr}, DurableEnd());
        return 0;
      }
      BlockBytesMonotone(newSize, oldSize);
      ghost var l0 := live;
      if newBlock.value <= oldBlock.value {
        InPlace(l0, ptr, Owned(newSize, align, newBlock.value));
        ReallocShrink(ptr, align, oldBlock.value, newSize, newBlock.value);
        return ptr;
      }
      if ptr + oldBlock.value == DATA + ctr && ptr + newBlock.value >= USIZE_LIMIT {
        EndInHeap(limit, committed, growths);
        TooLarge(ctr, free, DurableEnd(), ptr, oldBlock.value, newBlock.value, newSize, align);
        KeepsSame(mem, live - {ptr}, DurableEnd());
        return 0;
      }
      r := ReallocGrow(ptr, oldSize, align, oldBlock.value, newSize, newBlock.value);
    }

    /** Grow where it is, or move. */
    method ReallocGrow(ptr: nat, oldSize: nat, align: int, oldBlock: nat, newSize: nat, newBlock: nat) returns (r: int)
      requires DurableOk() && HoldsDurable(ptr, oldSize, align) && live[ptr].span == oldBlock && !IsTransient(ptr)
      requires ptr != 0
      requires 0 < oldSize < newSize < USIZE_LIMIT && IsPow2(align) && align <= USIZE_LIMIT / 2
      requires newBlock == BlockBytes(newSize) && BlockSize(newSize).Some? && oldBlock < newBlock
      requires ptr + oldBlock <= DATA + ctr
      modifies `mem, `ctr, `committed, `growths, `poisoned, `free, `live, `lost
      ensures DurableOk() && Grown(old(committed), old(growths))
      ensures r == 0 ==> Unchanged(old(mem), old(ctr), old(free), old(live), old(lost), old(committed))
      ensures r != 0 ==>
                && (r == ptr || r !in old(live))
                && live == (old(live) - {ptr})[r := Owned(newSize, align, newBlock)]
                && SameBytes(old(mem), ptr, mem, r, oldSize)
      ensures old(lost) <= lost <= old(lost) + Slack(align)
      ensures KeepsBlocks(old(mem), mem, old(live) - {ptr}) && KeepsAbove(old(mem), mem, DurableEnd())
      ensures CanGrow(old(ctr), old(free), old(DurableEnd()), ptr, oldBlock, newBlock) ==> r == ptr
      ensures CanEnlarge(old(ctr), old(free), old(DurableEnd()), ptr, oldBlock, newBlock, newSize, align) ==> r != 0
      ensures r != 0 ==> CanEnlarge(old(ctr), old(free), DurableEnd(), ptr, oldBlock, newBlock, newSize, align)
      ensures limit != 0 ==> committed == old(committed)
    {
      ghost var l0, m0 := live, mem;
      HeldBlock(ctr, free, live, lost, ptr);
      var ok := GrowHere(ptr, align, oldBlock, newSize, newBlock);
      KeepsFewer(m0, mem, l0, ptr);
      if ok {
        InPlace(l0, ptr, Owned(newSize, align, newBlock));
        HeldBytes(m0, mem, l0, ptr, oldSize);
        r := ptr;
      } else if IsLayout(newSize, align) {
        r := ReallocMove(ptr, oldSize, align, newSize);
      } else {
        r := 0;
      }
    }

    predicate IsTransient(ptr: int)
      reads `limit
    {
      limit == 0 && LANE_START <= ptr < LANE_END
    }

    predicate HoldsDurable(ptr: int, size: nat, align: int)
      reads `live
    {
      ptr in live && live[ptr].size == size && live[ptr].align == align
    }

    // ----- the transient lane and its scopes -----

    method EnterTransient()
      requires Valid()
      modifies `transientDepth, `guards
      ensures Valid()
      ensures var mark := if limit == 0 then transientUsed else 0;
              guards == old(guards) + [TransientScope(mark, old(transientDepth), limit == 0, |lane|)]
      ensures transientDepth == if limit == 0 then old(transientDepth) + 1 else 0
    {
      var active := limit == 0;
      var previousMark := if active then transientUsed else 0;
      var previousDepth := if active then transientDepth else 0;
      ghost var depth := transientDepth;
      if active {
        transientDepth := previousDepth + 1;
      }
      var g := TransientScope(previousMark, previousDepth, active, |lane|);
      LanePush(lane, guards, active, transientUsed, depth, highWater, g, transientDepth);
      guards := guards + [g];
    }

    method EnterDurable()
      requires Valid()
      modifies `transientDepth, `guards
      ensures Valid() && transientDepth == 0
      ensures guards == old(guards) + [DurableScope(old(transientDepth), limit == 0, |lane|)]
    {
      var active := limit == 0;
      var previousDepth := if active then transientDepth else 0;
      ghost var depth := transientDepth;
      if active {
        transientDepth := 0;
      }
      var g := DurableScope(previousDepth, active, |lane|);
      LanePush(lane, guards, active, transientUsed, depth, highWater, g, transientDepth);
      guards := guards + [g];
    }

    /** Drop the innermost guard. For a transient scope the depth checked by the source's debug
        assertion holds, and the lane and its mark are back to what they were at entry. */
    method DropGuard()
      requires Valid() && guards != []
      modifies `transientDepth, `transientUsed, `guards, `lane
      ensures Valid() && guards == old(guards)[..|old(guards)| - 1]
      ensures var g := old(guards)[|old(guards)| - 1];
              && g.entry <= |old(lane)|
              && (g.TransientScope? ==> lane == old(lane)[..g.entry])
              && (g.DurableScope? ==> lane == old(lane))
              && (g.active ==> transientDepth == g.previousDepth)
              && (g.active && g.TransientScope? ==>
                    transientUsed == g.previousMark && old(transientDepth) == g.previousDepth + 1)
    {
      if guards[|guards| - 1].TransientScope? {
        DropTransient();
      } else {
        DropDurable();
      }
    }

    method DropTransient()
      requires LaneOk() && guards != [] && guards[|guards| - 1].TransientScope?
      modifies `transientDepth, `transientUsed, `guards, `lane
      ensures LaneOk() && guards == old(guards)[..|old(guards)| - 1]
      ensures var g := old(guards)[|old(guards)| - 1];
              && g.entry <= |old(lane)| && lane == old(lane)[..g.entry]
              && (g.active ==>
                    transientUsed == g.previousMark && transientDepth == g.previousDepth == old(transientDepth) - 1)
    {
      var g := guards[|guards| - 1];
      EntryInLane(lane, guards, limit == 0);
      LanePop(lane, guards, limit == 0, transientUsed, transientDepth, highWater, g, guards[..|guards| - 1],
              lane[..g.entry]);
      guards := guards[..|guards| - 1];
      lane := lane[..g.entry];
      if g.active {
        transientUsed := g.previousMark;
        transientDepth := g.previousDepth;
      }
    }

    method DropDurable()
      requires LaneOk() && guards != [] && guards[|guards| - 1].DurableScope?
      modifies `transientDepth, `guards
      ensures LaneOk() && guards == old(guards)[..|old(guards)| - 1]
      ensures var g := old(guards)[|old(guards)| - 1];
              g.entry <= |lane| && (g.active ==> transientDepth == g.previousDepth)
    {
      var g := guards[|guards| - 1];
      EntryInLane(lane, guards, limit == 0);
      LanePop(lane, guards, limit == 0, transientUsed, transientDepth, highWater, g, guards[..|guards| - 1], lane);
      guards := guards[..|guards| - 1];
      if g.active {
        transientDepth := g.previousDepth;
      }
    }

    /** Carve a block off the bottom of the used part of the lane; refused exactly when it does not fit. */
    method AllocTransient(size: nat, align: int) returns (p: int)
      requires LaneOk() && limit == 0 && HasTransient(guards)
      requires 0 < size < USIZE_LIMIT && IsPow2(align)
      modifies `transientUsed, `highWater, `lane
      ensures LaneOk()
      ensures p != 0 <==> LaneFits(old(transientUsed), size, align)
      ensures p == 0 ==> lane == old(lane) && transientUsed == old(transientUsed) && highWater == old(highWater)
      ensures p != 0 ==>
                && lane == old(lane) + [LaneBlock(p, align, BlockBytes(size))]
                && LANE_START <= p && p + BlockBytes(size) <= LANE_END - old(transientUsed)
                && transientUsed == LANE_END - p && highWater == Max(old(highWater), transientUsed)
    {
      var blockSize := BlockSize(size);
      if blockSize.None? {
        return 0;
      }
      UsedByBound(lane);
      var top := LANE_END - transientUsed;
      if top < blockSize.value {
        return 0;
      }
      var start := LaneStart(top - blockSize.value, align);
      if start < LANE_START {
        return 0;
      }
      var consumed := LANE_END - start;
      var b := LaneBlock(start, align, blockSize.value);
      LaneExtend(lane, guards, transientUsed, transientDepth, highWater, b, consumed, Max(highWater, consumed));
      lane := lane + [b];
      transientUsed := consumed;
      if consumed > highWater {
        highWater := consumed;
      }
      return start;
    }

    static method LaneStart(unrounded: nat, align: int) returns (start: nat)
      requires IsPow2(align)
      ensures start == AlignDown(unrounded, Max(align, GRANULE)) && start % 8 == 0 && Aligned(start, align)
    {
      EffectiveAlign(align);
      start := AlignDown(unrounded, Max(align, GRANULE));
      AlignedAsAsked(align, start);
    }

    /** The caller holds a transient block that was allocated with at least this size. */
    predicate HoldsTransient(ptr: int, size: nat, align: int)
      reads `lane
    {
      exists i :: 0 <= i < |lane| && lane[i].start == ptr && lane[i].align == align && BlockBytes(size) <= lane[i].span
    }

    /** Transient blocks never move down in size; growing allocates a fresh one in the lane. */
    method ReallocTransient(ptr: nat, oldSize: nat, align: int, newSize: nat) returns (r: int)
      requires ArenaOk() && LaneOk() && limit == 0 && DATA + ctr <= LANE_START && HoldsTransient(ptr, oldSize, align)
      requires 0 < oldSize < USIZE_LIMIT && 0 < newSize < USIZE_LIMIT && IsPow2(align)
      modifies `mem, `transientUsed, `highWater, `lane
      ensures ArenaOk() && LaneOk()
      ensures newSize <= oldSize ==> r == ptr
      ensures newSize > oldSize ==>
                (r != 0 <==> IsLayout(newSize, align) && LaneFits(old(transientUsed), newSize, align))
      ensures r == 0 || newSize <= oldSize ==> mem == old(mem) && lane == old(lane)
      ensures r != 0 && newSize > oldSize ==> r != ptr && lane == old(lane) + [LaneBlock(r, align, BlockBytes(newSize))]
      ensures r != 0 ==> SameBytes(old(mem), ptr, mem, r, Min(oldSize, newSize)) && IsTransient(r)
      ensures KeepsBelow(old(mem), mem, LANE_START) && KeepsLane(old(mem), mem, old(lane))
    {
      ghost var i :|
        0 <= i < |lane| && lane[i].start == ptr && lane[i].align == align && BlockBytes(oldSize) <= lane[i].span;
      InLane(lane, i);
      if newSize <= oldSize {
        return ptr;
      }
      if !IsLayout(newSize, align) {
        return 0;
      }
      ghost var l0 := lane;
      LaneOpen(lane, guards, true);
      r := AllocTransient(newSize, align);
      if r != 0 {
        LaneApart(l0, LaneBlock(r, align, BlockBytes(newSize)), i);
        CopyInLane(ptr, r, oldSize, l0, i, LaneBlock(r, align, BlockBytes(newSize)));
      }
    }

    /** Copy into the block just appended to the lane. */
    method CopyInLane(src: nat, dst: nat, n: nat, ghost before: seq<LaneBlock>, ghost i: nat, ghost b: LaneBlock)
      requires ArenaOk() && DATA + ctr <= LANE_START && Descending(before + [b]) && i < |before|
      requires before[i].start == src && n <= before[i].span && b.start == dst && n <= b.span
      modifies `mem
      ensures ArenaOk() && SameBytes(old(mem), src, mem, dst, n)
      ensures KeepsBelow(old(mem), mem, LANE_START) && KeepsLane(old(mem), mem, before)
    {
      ghost var m0 := mem;
      LaneApart(before, b, i);
      mem := CopyBytes(mem, src, dst, n);
      CopiedSame(m0, mem, src, dst, n);
      LaneCopyKeeps(m0, mem, before, b, n);
      AboveClear(ctr, free, dst, dst + n);
      WritesKeepList(m0, mem, ctr, free, dst, dst + n);
    }

    // ----- the global allocator interface -----

    /** What a caller may pass back: a block it holds, with the layout it was allocated with. */
    predicate Owns(ptr: int, size: nat, align: int)
      reads `limit, `lane, `live
    {
      if IsTransient(ptr) then HoldsTransient(ptr, size, align) else HoldsDurable(ptr, size, align)
    }

    /** What a successful allocation leaves: an aligned block in the arena the open scopes ask for. */
    ghost predicate AllocOutcome(l: Ledger, before: seq<LaneBlock>, size: nat, align: int, p: int)
      reads `limit, `transientDepth, `live, `lane
    {
      p != 0 ==>
        && Aligned(p, align) && IsTransient(p) == (limit == 0 && transientDepth != 0)
        && (if IsTransient(p) then live == l && lane == before + [LaneBlock(p, align, BlockBytes(size))]
            else p !in l && live == l[p := Owned(size, align, BlockBytes(size))] && lane == before)
    }

    /** A new block goes to the lane exactly inside a transient scope of the root executive. There it is
        refused exactly when it does not fit; elsewhere only when it neither fits nor can be committed. */
    method Alloc(size: nat, align: int) returns (p: int)
      requires Valid() && 0 < size < USIZE_LIMIT && IsPow2(align) && align <= USIZE_LIMIT / 2
      modifies `mem, `ctr, `committed, `growths, `poisoned, `free, `live, `lost, `transientUsed, `highWater, `lane
      ensures Valid() && Grown(old(committed), old(growths))
      ensures p == 0 ==>
                Unchanged(old(mem), old(ctr), old(free), old(live), old(lost), old(committed)) && lane == old(lane)
      ensures AllocOutcome(old(live), old(lane), size, align, p)
      ensures old(lost) <= lost <= old(lost) + Slack(align)
      ensures KeepsBlocks(old(mem), mem, old(live)) && KeepsLane(old(mem), mem, old(lane))
      ensures limit == 0 && transientDepth != 0 ==>
                (p != 0 <==> LaneFits(old(transientUsed), size, align)) && lost == old(lost)
      ensures limit != 0 || transientDepth == 0 ==>
                && (BlockSize(size).Some? && Serves(old(ctr), old(free), align, BlockBytes(size), old(DurableEnd())) ==>
                      p != 0)
                && (p != 0 ==>
                      BlockSize(size).Some? && Serves(old(ctr), old(free), align, BlockBytes(size), DurableEnd()))
      ensures limit != 0 ==> committed == old(committed)
    {
      if limit == 0 && transientDepth != 0 {
        InnermostOpen(guards);
        p := AllocTransient(size, align);
        if p != 0 {
          InLane(lane, |lane| - 1);
        }
      } else {
        p := AllocHeld(size, align);
      }
    }

    /** The durable case, seen from outside: the lane is untouched and the block lies below it. */
    method AllocHeld(size: nat, align: int) returns (p: int)
      requires Valid() && 0 < size < USIZE_LIMIT && IsPow2(align) && align <= USIZE_LIMIT / 2
      modifies `mem, `ctr, `committed, `growths, `poisoned, `free, `live, `lost
      ensures Valid() && Grown(old(committed), old(growths))
      ensures p == 0 ==> Unchanged(old(mem), old(ctr), old(free), old(live), old(lost), old(committed))
      ensures p != 0 ==>
                && !IsTransient(p) && Aligned(p, align)
                && p !in old(live) && live == old(live)[p := Owned(size, align, BlockBytes(size))]
      ensures old(lost) <= lost <= old(lost) + Slack(align)
      ensures KeepsBlocks(old(mem), mem, old(live)) && KeepsLane(old(mem), mem, lane)
      ensures BlockSize(size).Some? && Serves(old(ctr), old(free), align, BlockBytes(size), old(DurableEnd())) ==>
                p != 0
      ensures p != 0 ==> BlockSize(size).Some? && Serves(old(ctr), old(free), align, BlockBytes(size), DurableEnd())
      ensures limit != 0 ==> committed == old(committed)
    {
      ghost var m0, f0, c0, l0, n0 := mem, free, ctr, live, lost;
      ghost var lo, hi;
      p, lo, hi := AllocDurable(size, align);
      EndInHeap(limit, committed, growths);
      KeptByList(m0, mem, c0, f0, l0, n0, DurableEnd());
      LaneAbove(m0, mem, lane, limit == 0, DurableEnd());
      if p != 0 {
        HeldBlock(ctr, free, live, lost, p);
      }
    }

    method Dealloc(ptr: nat, size: nat, align: int)
      requires Valid() && (ptr == 0 || size == 0 || Owns(ptr, size, align))
      modifies `mem, `ctr, `poisoned, `free, `live
      ensures Valid()
      ensures ptr == 0 || size == 0 || IsTransient(ptr) ==>
                Unchanged(old(mem), old(ctr), old(free), old(live), old(lost), old(committed))
      ensures ptr != 0 && size != 0 && !IsTransient(ptr) ==>
                live == old(live) - {ptr} && Gives(old(ctr), old(free), ctr, free, ptr, ptr + BlockBytes(size))
      ensures KeepsBlocks(old(mem), mem, live) && KeepsLane(old(mem), mem, lane)
    {
      ghost var m0, f0, c0, l0 := mem, free, ctr, live;
      DeallocUnlocked(ptr, size, align);
      if ptr != 0 && size != 0 && !IsTransient(ptr) {
        HeldBlock(c0, f0, l0, lost, ptr);
        EndInHeap(limit, committed, growths);
        FreedKeeps(m0, mem, c0, f0, l0, lost, ptr, ptr, BlockBytes(size), DurableEnd());
        LaneAbove(m0, mem, lane, limit == 0, DurableEnd());
      }
    }

    /** Grow or shrink a block. The first `min(old, new)` bytes survive, the block stays in its arena,
        everything else held is undisturbed, and a refusal, which comes only when there is no room, leaves
        the block as it was. */
    method Realloc(ptr: nat, oldSize: nat, align: int, newSize: nat) returns (r: int)
      requires Valid() && newSize < USIZE_LIMIT && oldSize < USIZE_LIMIT && IsPow2(align) && align <= USIZE_LIMIT / 2
      requires if ptr == 0 then newSize > 0 else oldSize > 0 && Owns(ptr, oldSize, align)
      modifies `mem, `ctr, `committed, `growths, `poisoned, `free, `live, `lost, `transientUsed, `highWater, `lane
      ensures Valid() && Grown(old(committed), old(growths))
      ensures ptr != 0 && newSize == 0 ==>
                r == 0 && live == (if IsTransient(ptr) then old(live) else old(live) - {ptr}) && lane == old(lane)
      ensures newSize != 0 && r == 0 ==>
                Unchanged(old(mem), old(ctr), old(free), old(live), old(lost), old(committed)) && lane == old(lane)
      ensures old(lane) <= lane
      ensures ptr == 0 ==> AllocOutcome(old(live), old(lane), newSize, align, r)
      ensures ptr != 0 && 0 < newSize <= oldSize ==> r == ptr
      ensures ptr != 0 && newSize != 0 ==>
                ResizeOutcome(old(mem), old(live), old(lane), ptr, oldSize, align, newSize, r)
      ensures old(lost) <= lost <= old(lost) + Slack(align)
      ensures KeepsBlocks(old(mem), mem, old(live) - {ptr}) && KeepsLane(old(mem), mem, old(lane))
      ensures ptr != 0 && newSize != 0 && !IsTransient(ptr) ==>
                StaysInPlace(old(ctr), old(free), old(DurableEnd()), ptr, oldSize, newSize) ==> r == ptr
      ensures ptr != 0 && newSize != 0 ==>
                ResizeFits(old(ctr), old(free), old(DurableEnd()), old(transientUsed), IsTransient(ptr), ptr, oldSize,
                           align, newSize)
                ==> r != 0
      ensures ptr != 0 && newSize != 0 && r != 0 ==>
                ResizeFits(old(ctr), old(free), DurableEnd(), old(transientUsed), IsTransient(ptr), ptr, oldSize,
                           align, newSize)
    {
      if ptr == 0 {
        r := ReallocNull(align, newSize);
      } else if newSize == 0 {
        r := ReallocZero(ptr, oldSize, align);
      } else {
        r := Resize(ptr, oldSize, align, newSize);
      }
    }

    /** A held block is resized in the arena it lives in. */
    method Resize(ptr: nat, oldSize: nat, align: int, newSize: nat) returns (r: int)
      requires Valid() && ptr != 0 && Owns(ptr, oldSize, align) && IsPow2(align) && align <= USIZE_LIMIT / 2
      requires 0 < newSize < USIZE_LIMIT && 0 < oldSize < USIZE_LIMIT
      modifies `mem, `ctr, `committed, `growths, `poisoned, `free, `live, `lost, `transientUsed, `highWater, `lane
      ensures Valid() && Grown(old(committed), old(growths)) && old(lane) <= lane
      ensures r == 0 ==>
                Unchanged(old(mem), old(ctr), old(free), old(live), old(lost), old(committed)) && lane == old(lane)
      ensures newSize <= oldSize ==> r == ptr
      ensures ResizeOutcome(old(mem), old(live), old(lane), ptr, oldSize, align, newSize, r)
      ensures old(lost) <= lost <= old(lost) + Slack(align)
      ensures KeepsBlocks(old(mem), mem, old(live) - {ptr}) && KeepsLane(old(mem), mem, old(lane))
      ensures !IsTransient(ptr) && StaysInPlace(old(ctr), old(free), old(DurableEnd()), ptr, oldSize, newSize) ==>
                r == ptr
      ensures ResizeFits(old(ctr), old(free), old(DurableEnd()), old(transientUsed), IsTransient(ptr), ptr, oldSize,
                         align, newSize)
              ==> r != 0
      ensures r != 0 ==>
                ResizeFits(old(ctr), old(free), DurableEnd(), old(transientUsed), IsTransient(ptr), ptr, oldSize,
                           align, newSize)
    {
      if IsTransient(ptr) {
        r := ReallocInLane(ptr, oldSize, align, newSize);
      } else {
        r := ReallocHeld(ptr, oldSize, align, newSize);
      }
    }

    /** `realloc` to nothing frees. */
    method ReallocZero(ptr: nat, oldSize: nat, align: int) returns (r: int)
      requires Valid() && ptr != 0 && oldSize > 0 && Owns(ptr, oldSize, align)
      modifies `mem, `ctr, `poisoned, `free, `live
      ensures Valid() && r == 0 && live == if IsTransient(ptr) then old(live) else old(live) - {ptr}
      ensures KeepsBlocks(old(mem), mem, old(live) - {ptr}) && KeepsLane(old(mem), mem, lane)
    {
      ghost var m0 := mem;
      Dealloc(ptr, oldSize, align);
      KeepsFewer(m0, mem, live, ptr);
      r := 0;
    }

    /** `realloc` of the null pointer allocates. */
    method ReallocNull(align: int, newSize: nat) returns (r: int)
      requires Valid() && 0 < newSize < USIZE_LIMIT && IsPow2(align) && align <= USIZE_LIMIT / 2
      modifies `mem, `ctr, `committed, `growths, `poisoned, `free, `live, `lost, `transientUsed, `highWater, `lane
      ensures Valid() && Grown(old(committed), old(growths)) && AllocOutcome(old(live), old(lane), newSize, align, r)
      ensures old(lane) <= lane
      ensures r == 0 ==>
                Unchanged(old(mem), old(ctr), old(free), old(live), old(lost), old(committed)) && lane == old(lane)
      ensures old(lost) <= lost <= old(lost) + Slack(align)
      ensures KeepsBlocks(old(mem), mem, old(live) - {0}) && KeepsLane(old(mem), mem, old(lane))
    {
      ghost var m0, l0 := mem, live;
      if IsLayout(newSize, align) {
        r := Alloc(newSize, align);
      } else {
        KeepsSame(mem, live, 0);
        r := 0;
      }
      KeepsFewer(m0, mem, l0, 0);
    }

    /** The transient case, seen from outside: no durable block is touched. */
    method ReallocInLane(ptr: nat, oldSize: nat, align: int, newSize: nat) returns (r: int)
      requires Valid() && IsTransient(ptr) && HoldsTransient(ptr, oldSize, align)
      requires 0 < oldSize < USIZE_LIMIT && 0 < newSize < USIZE_LIMIT && IsPow2(align)
      modifies `mem, `transientUsed, `highWater, `lane
      ensures Valid() && old(lane) <= lane
      ensures newSize <= oldSize ==> r == ptr
      ensures r != 0 <==> ResizeFits(ctr, free, DurableEnd(), old(transientUsed), true, ptr, oldSize, align, newSize)
      ensures r == 0 ==> mem == old(mem) && lane == old(lane)
      ensures ResizeOutcome(old(mem), live, old(lane), ptr, oldSize, align, newSize, r)
      ensures KeepsBlocks(old(mem), mem, live - {ptr}) && KeepsLane(old(mem), mem, old(lane))
    {
      ghost var m0 := mem;
      EndInHeap(limit, committed, growths);
      r := ReallocTransient(ptr, oldSize, align, newSize);
      BlocksBelow(m0, mem, ctr, free, live, lost, LANE_START);
      KeepsFewer(m0, mem, live, ptr);
    }

    /** What a successful resize leaves: the bytes, and the block in its own arena. */
    ghost predicate ResizeOutcome(m: Memory, l: Ledger, before: seq<LaneBlock>, ptr: int, oldSize: nat, align: int,
                                  newSize: nat, r: int)
      reads `limit, `mem, `live, `lane
    {
      r != 0 ==>
        && IsTransient(r) == IsTransient(ptr)
        && SameBytes(m, ptr, mem, r, Min(oldSize, newSize))
        && (if IsTransient(ptr) then live == l
            else (r == ptr || r !in l) && live == (l - {ptr})[r := Owned(newSize, align, BlockBytes(newSize))])
        && lane == (if IsTransient(ptr) && r != ptr then before + [LaneBlock(r, align, BlockBytes(newSize))]
            else before)
    }

    /** The durable case, seen from outside: the lane is untouched and the block stays below it. */
    method ReallocHeld(ptr: nat, oldSize: nat, align: int, newSize: nat) returns (r: int)
      requires Valid() && HoldsDurable(ptr, oldSize, align) && !IsTransient(ptr) && ptr != 0
      requires 0 < newSize < USIZE_LIMIT && IsPow2(align) && align <= USIZE_LIMIT / 2
      modifies `mem, `ctr, `committed, `growths, `poisoned, `free, `live, `lost
      ensures Valid() && Grown(old(committed), old(growths))
      ensures r == 0 ==> Unchanged(old(mem), old(ctr), old(free), old(live), old(lost), old(committed))
      ensures newSize <= oldSize ==> r == ptr
      ensures ResizeOutcome(old(mem), old(live), lane, ptr, oldSize, align, newSize, r)
      ensures old(lost) <= lost <= old(lost) + Slack(align)
      ensures KeepsBlocks(old(mem), mem, old(live) - {ptr}) && KeepsLane(old(mem), mem, lane)
      ensures StaysInPlace(old(ctr), old(free), old(DurableEnd()), ptr, oldSize, newSize) ==> r == ptr
      ensures ResizeFits(old(ctr), old(free), old(DurableEnd()), transientUsed, false, ptr, oldSize, align, newSize) ==>
                r != 0
      ensures r != 0 ==>
                ResizeFits(old(ctr), old(free), DurableEnd(), transientUsed, false, ptr, oldSize, align, newSize)
    {
      ghost var m0 := mem;
      r := ReallocDurable(ptr, oldSize, align, newSize);
      EndInHeap(limit, committed, growths);
      LaneAbove(m0, mem, lane, limit == 0, DurableEnd());
      if r != 0 {
        HeldBlock(ctr, free, live, lost, r);
      }
    }

    predicate MayWrite(start: int, offset: nat)
      reads `limit, `lane, `live
    {
      if IsTransient(start) then exists i :: 0 <= i < |lane| && lane[i].start == start && offset < lane[i].span
      else start in live && offset < live[start].size
    }

    /** A caller writing byte `offset` of a block it holds. */
    method StoreByteAt(start: int, offset: nat, v: byte)
      requires Valid()
      requires MayWrite(start, offset)
      modifies `mem
      ensures Valid() && ByteAt(mem, start + offset) == v
      ensures forall b {:trigger ByteAt(mem, b)} :: b != start + offset ==> ByteAt(mem, b) == ByteAt(old(mem), b)
    {
      ghost var m0 := mem;
      ghost var c;
      mem, c := StoreByte(mem, start + offset, v);
      WritableCell(start, offset, c);
      WritesKeepList(m0, mem, ctr, free, c, c + 1);
    }

    /** The word written lies outside the list and its head. */
    lemma WritableCell(start: int, offset: nat, c: int)
      requires Shape(ctr, free) && Books(ctr, free, live, lost) && ConfigOk() && DATA + ctr <= DurableEnd() && LaneOk()
      requires MayWrite(start, offset) && c % 8 == 0 && c <= start + offset < c + 8
      ensures FREE_HEAD < c && Clear(free, c, c + 1)
    {
      EndInHeap(limit, committed, growths);
      if IsTransient(start) {
        var i :| 0 <= i < |lane| && lane[i].start == start && offset < lane[i].span;
        LaneCell(ctr, free, lane, i, start + offset, c);
      } else {
        HeldCell(ctr, free, live, lost, start, start + offset, c);
      }
    }

    /** Walk a validated list, adding up its blocks. */
    method SumFreeList(capacity: nat, ghost f: seq<Block>) returns (freeBytes: int, largestFree: int)
      requires IsList(mem, f, DATA + ctr) && 0 <= ctr <= capacity <= HEAP_SIZE
      ensures freeBytes == Total(f) <= ctr && IsLargest(f, largestFree)
    {
      assert f[..0] == [];
      var node, guard: int := At(mem, FREE_HEAD), 0;
      freeBytes, largestFree := 0, 0;
      var maxNodes := capacity / FREE_NODE_SIZE;
      while node != 0 && guard < maxNodes
        invariant 0 <= guard <= |f| && node == Next(f, guard)
        invariant freeBytes == Total(f[..guard]) && 0 <= freeBytes <= ctr
        invariant IsLargest(f[..guard], largestFree)
        decreases |f| - guard
      {
        assert NodeWords(mem, f, guard);
        UsageStep(f, guard, DATA + ctr);
        var size := At(mem, node);
        freeBytes := Min(freeBytes + size, USIZE_LIMIT - 1);
        largestFree := Max(largestFree, size);
        node := At(mem, node + 8);
        guard := guard + 1;
      }
      WalkComplete(f, guard, ctr, capacity);
    }

    /** Occupancy snapshot. The list is validated before it is followed; a damaged one poisons the
        allocator. */
    method Usage() returns (u: HeapUsage)
      requires ConfigOk() && 0 <= ctr && DATA + ctr <= DurableEnd()
      modifies `poisoned
      ensures poisoned == (old(poisoned) || !HasList(mem, DATA + ctr))
      ensures forall f :: IsList(mem, f, DATA + ctr) ==> Reports(u, ctr, f, DurableEnd())
      ensures u.transientUsed == transientUsed && u.transientHighWater == highWater
              && u.transientCapacity == (if limit == 0 then TRANSIENT_SIZE else 0)
    {
      EndInHeap(limit, committed, growths);
      var capacity := DurableEnd() - DATA;
      var ok := ValidateFreeList(capacity);
      if !ok {
        ghost var top := DATA + ctr;
        assert forall f :: !IsList(mem, f, top);
        poisoned := true;
        return HeapUsage(0, 0, 0, 0, 0, 0, transientUsed, highWater, if limit == 0 then TRANSIENT_SIZE else 0);
      }
      ghost var f :| IsList(mem, f, DATA + ctr);
      var topReusable := capacity - ctr;
      var freeBytes, largestFree := SumFreeList(capacity, f);
      u := HeapUsage(ctr, SaturatingSub(ctr, freeBytes), Min(topReusable + freeBytes, USIZE_LIMIT - 1),
                     Max(topReusable, largestFree),
                     topReusable, capacity, transientUsed, highWater, if limit == 0 then TRANSIENT_SIZE else 0);
      ReportExact(u, ctr, f, DurableEnd(), freeBytes, largestFree);
      forall g | IsList(mem, g, DATA + ctr) ensures Reports(u, ctr, g, DurableEnd()) {
        ListUnique(mem, f, g, DATA + ctr);
      }
    }
  }

  /** The most a single operation can lose: a granule too small for a node, or an alignment gap. */
  function Slack(align: int): int {
    Max(GRANULE, align - GRANULE)
  }

  /** A durable block is large enough already or can grow where it is. */
  ghost predicate StaysInPlace(ctr: int, free: seq<Block>, end: int, ptr: int, oldSize: nat, newSize: nat) {
    && BlockSize(newSize).Some?
    && (BlockBytes(newSize) <= BlockBytes(oldSize)
        || CanGrow(ctr, free, end, ptr, BlockBytes(oldSize), BlockBytes(newSize)))
  }

  /** There is room for a resize: in the lane if the block is transient, else without committing beyond
      `end`. */
  ghost predicate ResizeFits(ctr: int, free: seq<Block>, end: int, used: nat, transient: bool,
                             ptr: int, oldSize: nat, align: int, newSize: nat) {
    if transient then newSize <= oldSize || (IsLayout(newSize, align) && LaneFits(used, newSize, align))
    else CanResize(ctr, free, end, ptr, BlockBytes(oldSize), newSize, align)
  }

  /** The walk stands at node `i`. */
  ghost predicate AtNode(f: seq<Block>, i: nat, prev: int, prevLink: int, cur: int)
    requires i <= |f|
  {
    cur == Next(f, i) && prevLink == Link(f, i) && prev == if i == 0 then 0 else f[i - 1].start
  }

  predicate HeldAs(live: Ledger, ptr: int, align: int, span: int) {
    ptr in live && live[ptr].align == align && live[ptr].span == span
  }

  /** The durable end lies in the heap, for the root below the lane. */
  lemma EndInHeap(limit: nat, committed: nat, growths: nat)
    requires Configured(limit, committed, growths)
    ensures limit == 0 ==> HEAP_BASE + committed <= LANE_START < HEAP_BASE + HEAP_SIZE
    ensures limit != 0 ==> limit <= HEAP_SIZE
  {
  }

  /** A node does not reach past the heap, so its end never overflows. */
  lemma NextInHeap(f: seq<Block>, i: nat, top: int)
    requires InOrder(f, top) && top <= HEAP_BASE + HEAP_SIZE && i < |f|
    ensures DATA <= f[i].start && f[i].End() <= top < USIZE_LIMIT
  {
  }

  /** An alignment up to half the address space can be met at a node's start. */
  lemma PlacedInHeap(f: seq<Block>, i: nat, top: int, align: int)
    requires InOrder(f, top) && top <= HEAP_BASE + HEAP_SIZE && i < |f| && align > 0 && Place(f[i].start, align).None?
    ensures align > USIZE_LIMIT / 2
  {
    NextInHeap(f, i, top);
  }

  lemma NodeGranules(f: seq<Block>, i: nat, top: int, start: int, needed: int)
    requires InOrder(f, top) && i < |f| && start % 8 == 0 && needed % 8 == 0
    requires f[i].start <= start && start + needed <= f[i].End()
    ensures DATA <= f[i].start && f[i].End() <= top
    ensures Granular(Block(f[i].start, start - f[i].start))
    ensures Granular(Block(start + needed, f[i].End() - (start + needed)))
    ensures start + needed <= TakenEnd(f[i], start, needed) <= start + needed + GRANULE
  {
    var b := f[i];
    assert Granular(b);
    Granules(start, b.start);
    Granules(start, needed);
    Granules(b.start, b.size);
    Granules(b.End(), start + needed);
    TakenSlack(b, start, needed);
  }

  /** A place at the effective alignment suits the request. */
  lemma FoundBlock(p: int, o: Owned)
    requires o.size > 0 && o.span == BlockBytes(o.size) && IsPow2(o.align) && p % Max(o.align, GRANULE) == 0
    ensures Suited(p, o)
  {
    AlignedAsAsked(o.align, p);
  }

  /** A held block may be re-entered with another size. */
  lemma Resized(ptr: int, was: Owned, o: Owned)
    requires Suited(ptr, was) && o.size > 0 && o.align == was.align && o.span == BlockBytes(o.size)
    ensures Suited(ptr, o)
  {
  }

  lemma ShrinkFacts(ptr: int, was: Owned, o: Owned)
    requires Suited(ptr, was) && o.size > 0 && o.align == was.align && o.span == BlockBytes(o.size) <= was.span
    ensures Suited(ptr, o) && Granular(Block(ptr + o.span, was.span - o.span))
    ensures was.span - o.span < FREE_NODE_SIZE ==> was.span - o.span <= GRANULE
  {
    Granules(was.span, o.span);
    Granules(ptr, o.span);
  }

  lemma MovedLedger(live: Ledger, ptr: int, r: int, o: Owned)
    requires ptr in live && r !in live
    ensures live[r := o] - {ptr, r} == live - {ptr} && live[r := o] - {ptr} == (live - {ptr})[r := o]
  {
  }

  lemma KeepsSame(m: Memory, live: Ledger, end: int)
    ensures KeepsBlocks(m, m, live) && KeepsAbove(m, m, end)
  {
  }

  /** A block whose end would overflow can neither grow nor be found elsewhere. */
  lemma TooLarge(ctr: int, free: seq<Block>, end: int, ptr: int, was: int, want: int, size: nat, align: int)
    requires Shape(ctr, free) && DATA + ctr <= end <= HEAP_BASE + HEAP_SIZE
    requires ptr + was == DATA + ctr && 0 <= was && ptr + want >= USIZE_LIMIT
    ensures !CanEnlarge(ctr, free, end, ptr, was, want, size, align)
  {
    if Serves(ctr, free, align, want, end) {
      ServesBounded(ctr, free, align, want, end);
    }
  }

  lemma InLane(lane: seq<LaneBlock>, i: nat)
    requires Descending(lane) && i < |lane|
    ensures IsLaneBlock(lane[i])
  {
  }

  lemma LaneApart(lane: seq<LaneBlock>, b: LaneBlock, i: nat)
    requires Descending(lane + [b]) && i < |lane|
    ensures b.End() <= lane[i].start && lane[i].start % 8 == 0 && b.start % 8 == 0 && LANE_START <= b.start
  {
    var l := lane + [b];
    assert l[|lane|].Under(l[i]) && IsLaneBlock(l[i]) && IsLaneBlock(l[|lane|]);
  }

  /** A nonempty lane belongs to the root inside a transient scope. */
  lemma LaneOpen(lane: seq<LaneBlock>, guards: seq<Guard>, root: bool)
    requires GuardsOk(guards, lane, root) && lane != []
    ensures HasTransient(guards)
  {
  }

  /** A nonzero routing depth means a transient scope is open. */
  lemma InnermostOpen(guards: seq<Guard>)
    requires DepthOf(guards) != 0
    ensures HasTransient(guards)
  {
    assert guards[|guards| - 1].TransientScope?;
  }

  /** `usage()` of a heap whose free list is `f`. */
  ghost predicate Reports(u: HeapUsage, ctr: int, f: seq<Block>, end: int) {
    && u.bump == ctr && u.durableCapacity == end - DATA && u.topReusable == end - DATA - ctr
    && u.inUse == Used(ctr, f) >= 0
    && u.inUse + u.reusable == u.durableCapacity
    && forall need :: need > 0 ==> (need <= u.largestReusable <==> Reusable(ctr, f, end, need))
  }

  lemma ReportExact(u: HeapUsage, ctr: int, f: seq<Block>, end: int, freeBytes: int, largestFree: int)
    requires freeBytes == Total(f) <= ctr && IsLargest(f, largestFree) && DATA + ctr <= end
    requires u.bump == ctr && u.durableCapacity == end - DATA && u.topReusable == end - DATA - ctr
    requires u.inUse == ctr - freeBytes && u.reusable == u.topReusable + freeBytes
    requires u.largestReusable == Max(u.topReusable, largestFree)
    ensures Reports(u, ctr, f, end)
  {
    forall need | need > 0 ensures need <= u.largestReusable <==> Reusable(ctr, f, end, need) {
      if need <= largestFree {
        var k :| 0 <= k < |f| && f[k].size == largestFree;
      }
    }
  }

  lemma EmptyBooks(f: seq<Block>, live: Ledger)
    requires f == [] && live == map[]
    ensures ListHeld(Zeroed, 0, f) && TopInUse(0, f) && Books(0, f, live, 0)
  {
  }

  /** A zeroed heap holds the empty list and no blocks. */
  method EmptyArena() returns (live: Ledger, ghost free: seq<Block>)
    ensures |live| == 0 && ListHeld(Zeroed, 0, free) && TopInUse(0, free) && Books(0, free, live, 0)
  {
    live, free := map[], [];
    EmptyBooks(free, live);
  }
}
