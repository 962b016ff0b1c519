/** What the operations leave alone: the list, and the contents of the blocks callers hold. */
module KeptBytes {
  import opened Words
  import opened Sizes
  import opened FreeList
  import opened FreeListMemory
  import opened Arena
  import opened TransientLane

  /** Only the list head, cells that were free and cells of the freed block may differ. */
  ghost predicate OnlyFreed(m: Memory, m': Memory, f: seq<Block>, start: int, size: int) {
    forall x {:trigger At(m', x)} ::
      x != FREE_HEAD && !Covers(f, x) && !(start <= x < start + size) ==> At(m', x) == At(m, x)
  }

  /** Only cells in `[lo, hi)` may differ. */
  ghost predicate WritesOnly(m: Memory, m': Memory, lo: int, hi: int) {
    forall x {:trigger At(m', x)} :: !(lo <= x < hi) ==> At(m', x) == At(m, x)
  }

  ghost predicate KeepsBlocks(m: Memory, m': Memory, live: Ledger) {
    forall k :: k in live ==> KeepsCells(m, m', k, live[k].span)
  }

  ghost predicate KeepsAbove(m: Memory, m': Memory, end: int) {
    forall x {:trigger At(m', x)} :: x >= end ==> At(m', x) == At(m, x)
  }

  ghost predicate KeepsBelow(m: Memory, m': Memory, end: int) {
    forall x {:trigger At(m', x)} :: x < end ==> At(m', x) == At(m, x)
  }

  ghost predicate KeepsLane(m: Memory, m': Memory, lane: seq<LaneBlock>) {
    forall i :: 0 <= i < |lane| ==> KeepsCells(m, m', lane[i].start, lane[i].span)
  }

  // ----- the list -----

  /** Putting `[start, start + size)` on the list and releasing from it wrote only those cells. */
  lemma OnlyReturned(m0: Memory, m1: Memory, m2: Memory, f0: seq<Block>, f1: seq<Block>, start: int, size: int)
    requires OnlyListCells(m0, m1, f1) && OnlyListCells(m1, m2, f1) && Adds(f0, f1, start, start + size)
    ensures OnlyFreed(m0, m2, f0, start, size)
  {
    forall x | x != FREE_HEAD && !Covers(f0, x) && !(start <= x < start + size) ensures At(m2, x) == At(m0, x) {
      assert !Covers(f1, x);
      assert At(m1, x) == At(m0, x);
    }
  }

  /** Writing cells outside the list leaves the encoded list as it was. */
  lemma WritesKeepList(m: Memory, m': Memory, ctr: int, free: seq<Block>, lo: int, hi: int)
    requires ListHeld(m, ctr, free) && WritesOnly(m, m', lo, hi) && Clear(free, lo, hi) && FREE_HEAD < lo
    ensures ListHeld(m', ctr, free)
  {
    HoldsFrame(m, m', free, DATA + ctr);
  }

  lemma AboveClear(ctr: int, free: seq<Block>, lo: int, hi: int)
    requires Shape(ctr, free) && DATA + ctr <= lo
    ensures Clear(free, lo, hi)
  {
    forall a | lo <= a < hi ensures !Covers(free, a) {
      if Covers(free, a) {
        CoveredInside(ctr, free, a);
      }
    }
  }

  // ----- blocks -----

  /** List writes touch neither live blocks nor anything above the frontier. */
  lemma KeptByList(m: Memory, m': Memory, ctr: int, f: seq<Block>, live: Ledger, lost: int, end: int)
    requires OnlyListCells(m, m', f) && Shape(ctr, f) && Books(ctr, f, live, lost) && DATA + ctr <= end
    ensures KeepsBlocks(m, m', live) && KeepsAbove(m, m', end)
  {
    forall x | x >= end ensures At(m', x) == At(m, x) {
      AboveClear(ctr, f, x, x + 1);
    }
    forall k | k in live ensures KeepsCells(m, m', k, live[k].span) {
      HeldBlock(ctr, f, live, lost, k);
    }
  }

  /** Returning the upper part of a held block disturbs nothing below it and no other block. */
  lemma FreedKeeps(m: Memory, m': Memory, ctr: int, f: seq<Block>, live: Ledger, lost: int, ptr: int, cut: int,
                   size: int, end: int)
    requires Shape(ctr, f) && Books(ctr, f, live, lost) && ptr in live && DATA + ctr <= end
    requires ptr <= cut && 0 <= size && cut + size <= ptr + live[ptr].span
    requires OnlyFreed(m, m', f, cut, size)
    ensures KeepsBlocks(m, m', live - {ptr}) && KeepsAbove(m, m', end) && KeepsCells(m, m', ptr, cut - ptr)
  {
    HeldBlock(ctr, f, live, lost, ptr);
    forall x | x >= end ensures At(m', x) == At(m, x) {
      AboveClear(ctr, f, x, x + 1);
    }
    forall k | k in live && k != ptr ensures KeepsCells(m, m', k, live[k].span) {
      HeldBlock(ctr, f, live, lost, k);
      HeldApart(ctr, f, live, lost, k, ptr);
    }
  }

  lemma InPlace(live: Ledger, ptr: int, o: Owned)
    requires ptr in live
    ensures live[ptr := o] == (live - {ptr})[ptr := o]
  {
  }

  lemma HeldBytes(m: Memory, m': Memory, live: Ledger, ptr: int, n: nat)
    requires ptr in live && Suited(ptr, live[ptr]) && n == live[ptr].size && KeepsBlocks(m, m', live)
    ensures SameBytes(m, ptr, m', ptr, n)
  {
    assert KeepsCells(m, m', ptr, live[ptr].span);
    KeepsBytes(m, m', ptr, live[ptr].span, n);
  }

  lemma KeepsFewer(m: Memory, m': Memory, live: Ledger, ptr: int)
    requires KeepsBlocks(m, m', live)
    ensures KeepsBlocks(m, m', live - {ptr})
  {
  }

  lemma BlocksBelow(m: Memory, m': Memory, ctr: int, f: seq<Block>, live: Ledger, lost: int, end: int)
    requires Books(ctr, f, live, lost) && DATA + ctr <= end && KeepsBelow(m, m', end)
    ensures KeepsBlocks(m, m', live)
  {
    forall k | k in live ensures KeepsCells(m, m', k, live[k].span) {
      HeldBlock(ctr, f, live, lost, k);
    }
  }

  lemma KeepsChain(m0: Memory, m1: Memory, m2: Memory, a: int, n: int)
    requires KeepsCells(m0, m1, a, n) && KeepsCells(m1, m2, a, n)
    ensures KeepsCells(m0, m2, a, n)
  {
    forall x | a <= x < a + n ensures At(m2, x) == At(m0, x) {
      assert At(m1, x) == At(m0, x);
    }
  }

  lemma AboveChain(m0: Memory, m1: Memory, m2: Memory, end: int)
    requires KeepsAbove(m0, m1, end) && KeepsAbove(m1, m2, end)
    ensures KeepsAbove(m0, m2, end)
  {
    forall x | x >= end ensures At(m2, x) == At(m0, x) {
      assert At(m1, x) == At(m0, x);
    }
  }

  // ----- moving a block -----

  /** A copy into block `r` disturbs no other block, nor anything above the frontier. */
  lemma CopyKeeps(m: Memory, m': Memory, ctr: int, f: seq<Block>, live: Ledger, lost: int, r: int, n: int, end: int)
    requires Books(ctr, f, live, lost) && r in live && n <= live[r].span && DATA + ctr <= end
    requires WritesOnly(m, m', r, r + n)
    ensures KeepsBlocks(m, m', live - {r}) && KeepsAbove(m, m', end)
  {
    HeldBlock(ctr, f, live, lost, r);
    forall k | k in live && k != r ensures KeepsCells(m, m', k, live[k].span) {
      HeldApart(ctr, f, live, lost, k, r);
    }
  }

  /** The copy writes the new block; the free writes list cells and the old block. */
  lemma CopyFreeKeeps(m1: Memory, m2: Memory, m3: Memory, live: Ledger, ptr: int, r: int, n: int, end: int)
    requires ptr in live && r in live && ptr != r && Suited(r, live[r]) && n <= live[r].span
    requires KeepsBlocks(m1, m2, live - {r}) && KeepsAbove(m1, m2, end) && SameBytes(m1, ptr, m2, r, n)
    requires KeepsBlocks(m2, m3, live - {ptr}) && KeepsAbove(m2, m3, end)
    ensures KeepsBlocks(m1, m3, live - {ptr, r}) && KeepsAbove(m1, m3, end)
    ensures SameBytes(m1, ptr, m3, r, n)
  {
    AboveChain(m1, m2, m3, end);
    forall k | k in live && k != ptr && k != r ensures KeepsCells(m1, m3, k, live[k].span) {
      assert k in live - {r} && k in live - {ptr};
      KeepsChain(m1, m2, m3, k, live[k].span);
    }
    assert r in live - {ptr};
    KeepsBytes(m2, m3, r, live[r].span, n);
    SameBytesChain(m1, m2, m3, ptr, r, n);
  }

  /** The allocation before the copy disturbed nothing. */
  lemma MoveKeeps(m0: Memory, m1: Memory, m3: Memory, live: Ledger, ptr: int, r: int, n: int, end: int)
    requires ptr in live && r !in live && Suited(ptr, live[ptr]) && n == live[ptr].size
    requires KeepsBlocks(m0, m1, live) && KeepsAbove(m0, m1, end)
    requires KeepsBlocks(m1, m3, live - {ptr}) && KeepsAbove(m1, m3, end) && SameBytes(m1, ptr, m3, r, n)
    ensures KeepsBlocks(m0, m3, live - {ptr}) && KeepsAbove(m0, m3, end) && SameBytes(m0, ptr, m3, r, n)
  {
    var rest := live - {ptr};
    AboveChain(m0, m1, m3, end);
    forall k | k in rest ensures KeepsCells(m0, m3, k, rest[k].span) {
      assert KeepsCells(m0, m1, k, live[k].span);
      KeepsChain(m0, m1, m3, k, rest[k].span);
    }
    HeldBytes(m0, m1, live, ptr, n);
    forall j | 0 <= j < n ensures SameByte(m0, ptr, m3, r, j) {
      assert SameByte(m0, ptr, m1, ptr, j) && SameByte(m1, ptr, m3, r, j);
    }
  }

  lemma SameBytesChain(m1: Memory, m2: Memory, m3: Memory, a: int, b: int, n: int)
    requires SameBytes(m1, a, m2, b, n) && SameBytes(m2, b, m3, b, n)
    ensures SameBytes(m1, a, m3, b, n)
  {
    forall j | 0 <= j < n ensures SameByte(m1, a, m3, b, j) {
      assert SameByte(m1, a, m2, b, j) && SameByte(m2, b, m3, b, j);
    }
  }

  lemma CopiedSame(m: Memory, r: Memory, src: int, dst: int, n: nat)
    requires Copied(m, r, src, dst, n)
    ensures SameBytes(m, src, r, dst, n)
  {
    forall j | 0 <= j < n ensures SameByte(m, src, r, dst, j) {
      assert CopiedAt(m, r, src, dst, n, dst + j);
    }
  }

  // ----- the lane -----

  /** A block appended to the lane lies below every earlier one, so writing it disturbs none of them. */
  lemma LaneCopyKeeps(m: Memory, m': Memory, lane: seq<LaneBlock>, b: LaneBlock, n: int)
    requires Descending(lane + [b]) && n <= b.span && WritesOnly(m, m', b.start, b.start + n)
    ensures KeepsBelow(m, m', LANE_START) && KeepsLane(m, m', lane)
  {
    var lane' := lane + [b];
    assert lane'[|lane|] == b && IsLaneBlock(b);
    forall i | 0 <= i < |lane| ensures KeepsCells(m, m', lane[i].start, lane[i].span) {
      assert b.Under(lane[i]) by { assert lane'[|lane|].Under(lane'[i]); }
    }
  }

  lemma LaneAbove(m: Memory, m': Memory, lane: seq<LaneBlock>, root: bool, end: int)
    requires KeepsAbove(m, m', end) && Descending(lane) && (root ==> end <= LANE_START) && (lane != [] ==> root)
    ensures KeepsLane(m, m', lane)
  {
    forall i | 0 <= i < |lane| ensures KeepsCells(m, m', lane[i].start, lane[i].span) {
      assert IsLaneBlock(lane[i]);
    }
  }

  // ----- single bytes -----

  /** A cell a caller may write is neither the list head nor on the free list. */
  lemma HeldCell(ctr: int, free: seq<Block>, live: Ledger, lost: int, k: int, a: int, c: int)
    requires Books(ctr, free, live, lost) && k in live
    requires k <= a < k + live[k].size && c % 8 == 0 && c <= a < c + 8
    ensures FREE_HEAD < c && Clear(free, c, c + 1)
  {
    HeldBlock(ctr, free, live, lost, k);
    CellIn(k, live[k].span, a, c);
  }

  lemma LaneCell(ctr: int, free: seq<Block>, lane: seq<LaneBlock>, i: nat, a: int, c: int)
    requires Shape(ctr, free) && Descending(lane) && DATA + ctr <= LANE_START && i < |lane|
    requires c % 8 == 0 && lane[i].start <= a < c + 8 && c <= a
    ensures FREE_HEAD < c && Clear(free, c, c + 1)
  {
    assert IsLaneBlock(lane[i]);
    CellIn(lane[i].start, a + 1 - lane[i].start, a, c);
    AboveClear(ctr, free, c, c + 1);
  }

  lemma CellIn(start: int, n: int, a: int, c: int)
    requires start % 8 == 0 && c % 8 == 0 && start <= a < start + n && c <= a < c + 8
    ensures start <= c < start + n
  {
    Granules(start, c);
  }
}
