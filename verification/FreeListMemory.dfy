/** The free-list edits as the allocator performs them on memory: each sequence of word writes, the
    list it leaves behind, the bytes that list covers and the cells the writes may have touched. */
module FreeListMemory {
  import opened Words
  import opened Sizes
  import opened FreeList

  // ----- what an edit does to the covered bytes -----

  /** Every byte `f` covers, `g` covers. */
  ghost predicate Within(f: seq<Block>, g: seq<Block>) {
    forall a :: Covers(f, a) ==> Covers(g, a)
  }

  /** Both lists cover the same bytes. */
  ghost predicate SameCover(f: seq<Block>, g: seq<Block>) {
    Total(g) == Total(f) && forall a :: Covers(g, a) <==> Covers(f, a)
  }

  /** `g` covers exactly the bytes `[lo, hi)` more than `f`. */
  ghost predicate Adds(f: seq<Block>, g: seq<Block>, lo: int, hi: int) {
    Total(g) == Total(f) + (hi - lo) && forall a :: Covers(g, a) <==> Covers(f, a) || lo <= a < hi
  }

  /** `f` covers the bytes `[lo, hi)`, and `g` exactly the others. */
  ghost predicate Drops(f: seq<Block>, g: seq<Block>, lo: int, hi: int) {
    && Total(g) == Total(f) - (hi - lo)
    && (forall a :: lo <= a < hi ==> Covers(f, a))
    && (forall a :: Covers(g, a) <==> Covers(f, a) && !(lo <= a < hi))
  }

  /** No byte of `[lo, hi)` is covered. */
  ghost predicate Clear(f: seq<Block>, lo: int, hi: int) {
    forall a :: lo <= a < hi ==> !Covers(f, a)
  }

  lemma AddsSame(f: seq<Block>, g: seq<Block>, h: seq<Block>, lo: int, hi: int)
    requires Adds(f, g, lo, hi) && SameCover(g, h)
    ensures Adds(f, h, lo, hi) && Within(g, h)
  {
  }

  lemma AddsNothing(f: seq<Block>, x: int)
    ensures Adds(f, f, x, x)
  {
  }

  lemma AddsWithin(f: seq<Block>, g: seq<Block>, h: seq<Block>, lo: int, hi: int, lo': int, hi': int)
    requires Adds(f, g, lo, hi) && Adds(g, h, lo', hi')
    ensures Within(f, h) && Within(g, h)
  {
  }

  /** A node taken off whole, with its two ends put back, leaves only its middle taken. */
  lemma Refilled(f: seq<Block>, g: seq<Block>, g1: seq<Block>, g2: seq<Block>, lo: int, mid: int, hi: int, end: int)
    requires lo <= mid <= hi <= end && Drops(f, g, lo, end) && Adds(g, g1, lo, mid) && Adds(g1, g2, hi, end)
    ensures Drops(f, g2, mid, hi) && Within(g, g1) && Within(g1, g2) && Within(g2, f)
  {
  }

  lemma DroppedClear(f: seq<Block>, g: seq<Block>, lo: int, hi: int)
    requires Drops(f, g, lo, hi)
    ensures Clear(g, lo, hi) && Within(g, f)
  {
  }

  lemma AddedClear(f: seq<Block>, g: seq<Block>, lo: int, mid: int, hi: int)
    requires Clear(f, lo, hi) && Adds(f, g, lo, mid) && lo <= mid
    ensures Clear(g, mid, hi)
  {
  }

  lemma Inside(f: seq<Block>, i: nat, a: int)
    requires i < |f| && f[i].Has(a)
    ensures Covers(f, a)
  {
  }

  // ----- the cells an edit may touch -----

  /** Only the list head and cells covered by `f` may differ. */
  ghost predicate OnlyListCells(m: Memory, m': Memory, f: seq<Block>) {
    forall x {:trigger At(m', x)} :: x != FREE_HEAD && !Covers(f, x) ==> At(m', x) == At(m, x)
  }

  lemma OnlyWiden(m: Memory, m': Memory, f: seq<Block>, g: seq<Block>)
    requires OnlyListCells(m, m', f) && Within(f, g)
    ensures OnlyListCells(m, m', g)
  {
  }

  lemma OnlyChain(m0: Memory, m1: Memory, m2: Memory, f1: seq<Block>, f2: seq<Block>)
    requires OnlyListCells(m0, m1, f1) && OnlyListCells(m1, m2, f2) && Within(f1, f2)
    ensures OnlyListCells(m0, m2, f2)
  {
    forall x | x != FREE_HEAD && !Covers(f2, x) ensures At(m2, x) == At(m0, x) {
      assert At(m1, x) == At(m0, x);
    }
  }

  function WriteNode(m: Memory, node: int, size: word, next: word): (r: Memory)
    ensures At(r, node) == size && At(r, node + 8) == next
    ensures forall x {:trigger At(r, x)} :: x != node && x != node + 8 ==> At(r, x) == At(m, x)
  {
    Put(Put(m, node, size), node + 8, next)
  }

  /** The link to node `i` is the head or a cell of the node before. */
  lemma LinkCovered(f: seq<Block>, i: nat, g: seq<Block>, top: int)
    requires Spaced(f, top) && i <= |f| && (i > 0 ==> i <= |g| && g[i - 1] == f[i - 1])
    ensures Link(f, i) == FREE_HEAD || Covers(g, Link(f, i))
  {
    if 0 < i {
      Inside(g, i - 1, Link(f, i));
    }
  }

  lemma NodeCovered(g: seq<Block>, i: nat)
    requires i < |g| && g[i].size >= FREE_NODE_SIZE
    ensures Covers(g, g[i].start) && Covers(g, g[i].start + 8)
  {
    Inside(g, i, g[i].start);
    Inside(g, i, g[i].start + 8);
  }

  // ----- the edits -----

  /** Memory holds the ordered list `f` below `top`. */
  ghost predicate Holds(m: Memory, f: seq<Block>, top: int) {
    Encodes(m, f) && InOrder(f, top) && top <= HEAP_BASE + HEAP_SIZE
  }

  lemma UnlinkWrite(m: Memory, f: seq<Block>, i: nat, top: int) returns (g: seq<Block>)
    requires Holds(m, f, top) && i < |f|
    ensures 0 <= Next(f, i + 1) < USIZE_LIMIT && Removed(f, i, g)
    ensures var m' := Put(m, Link(f, i), Next(f, i + 1));
            Holds(m', g, top) && OnlyListCells(m, m', g)
    ensures Drops(f, g, f[i].start, f[i].End())
    ensures Coalesced(f) ==> Coalesced(g)
  {
    g := RemoveAt(f, i);
    UnlinkEncodes(m, Put(m, Link(f, i), Next(f, i + 1)), f, i, g, top);
    RemoveInOrder(f, i, g, top);
    RemoveDrops(f, i, g, top);
    LinkCovered(f, i, g, top);
  }

  lemma RemoveDrops(f: seq<Block>, i: nat, g: seq<Block>, top: int)
    requires Spaced(f, top) && i < |f| && g == RemoveAt(f, i)
    ensures Drops(f, g, f[i].start, f[i].End())
  {
    RemoveCovers(f, i, g);
    RemoveTotal(f, i);
    RemovedApart(f, i, g, top);
  }

  lemma RemovedApart(f: seq<Block>, i: nat, g: seq<Block>, top: int)
    requires Spaced(f, top) && Removed(f, i, g)
    ensures forall a :: Covers(g, a) ==> !f[i].Has(a)
  {
    forall a | Covers(g, a) ensures !f[i].Has(a) {
      var k :| 0 <= k < |g| && g[k].Has(a);
      assert k < i ==> g[k] == f[k] && f[k].Before(f[i]);
      assert k >= i ==> g[k] == f[k + 1] && f[i].Before(f[k + 1]);
    }
  }

  lemma InsertWrite(m: Memory, f: seq<Block>, i: nat, b: Block, top: int) returns (g: seq<Block>)
    requires Holds(m, f, top) && i <= |f| && FitsAt(f, i, b, top) && Granular(b)
    ensures 0 <= Next(f, i) < USIZE_LIMIT && Inserted(f, i, b, g)
    ensures var m' := Put(WriteNode(m, b.start, b.size, Next(f, i)), Link(f, i), b.start);
            Holds(m', g, top) && OnlyListCells(m, m', g)
    ensures Adds(f, g, b.start, b.End())
  {
    g := InsertAt(f, i, b);
    var m' := Put(WriteNode(m, b.start, b.size, Next(f, i)), Link(f, i), b.start);
    LinkOutside(f, i, b, top);
    InsertEncodes(m, m', f, i, b, g, top);
    InsertInOrder(f, i, b, g, top);
    InsertAdds(f, i, b);
    LinkCovered(f, i, g, top);
    NodeCovered(g, i);
  }

  lemma InsertAdds(f: seq<Block>, i: nat, b: Block)
    requires i <= |f|
    ensures Adds(f, InsertAt(f, i, b), b.start, b.End())
  {
    InsertCovers(f, i, b, InsertAt(f, i, b));
    InsertTotal(f, i, b);
  }

  lemma MergeWrite(m: Memory, f: seq<Block>, i: nat, top: int) returns (g: seq<Block>)
    requires Holds(m, f, top) && i + 1 < |f| && f[i].End() == f[i + 1].start
    ensures 0 <= f[i].size + f[i + 1].size < USIZE_LIMIT && 0 <= Next(f, i + 2) < USIZE_LIMIT && Merged(f, i, g)
    ensures var m' := WriteNode(m, f[i].start, f[i].size + f[i + 1].size, Next(f, i + 2));
            Holds(m', g, top) && OnlyListCells(m, m', g)
    ensures SameCover(f, g)
  {
    g := MergeAt(f, i);
    assert f[i + 1].End() <= top;
    MergeEncodes(m, WriteNode(m, f[i].start, f[i].size + f[i + 1].size, Next(f, i + 2)), f, i, g, top);
    MergeInOrder(f, i, g, top);
    MergeCovers(f, i, g);
    MergeTotal(f, i);
    NodeCovered(g, i);
  }

  lemma TrimWrite(m: Memory, f: seq<Block>, i: nat, b: Block, top: int) returns (g: seq<Block>)
    requires Holds(m, f, top) && i < |f| && Granular(b)
    requires f[i].start <= b.start && b.size >= FREE_NODE_SIZE && b.End() == f[i].End()
    ensures 0 <= Next(f, i + 1) < USIZE_LIMIT && g == f[i := b]
    ensures var m' := Put(WriteNode(m, b.start, b.size, Next(f, i + 1)), Link(f, i), b.start);
            Holds(m', g, top) && OnlyListCells(m, m', g)
    ensures Drops(f, g, f[i].start, b.start)
    ensures Coalesced(f) ==> Coalesced(g)
  {
    g := f[i := b];
    LinkApart(f, i, top, i);
    TrimEncodes(m, Put(WriteNode(m, b.start, b.size, Next(f, i + 1)), Link(f, i), b.start), f, i, b, top);
    TrimDrops(f, i, b, top);
    TrimInOrder(f, i, b, top);
    LinkCovered(f, i, g, top);
    NodeCovered(g, i);
  }

  lemma TrimDrops(f: seq<Block>, i: nat, b: Block, top: int)
    requires Spaced(f, top) && i < |f| && f[i].start <= b.start <= b.End() == f[i].End()
    ensures Drops(f, f[i := b], f[i].start, b.start)
  {
    var g, r := f[i := b], RemoveAt(f, i);
    assert Removed(g, i, r);
    RemoveCovers(f, i, r);
    RemoveCovers(g, i, r);
    RemovedApart(f, i, r, top);
    RemoveTotal(f, i);
    RemoveTotal(g, i);
    assert RemoveAt(g, i) == r;
  }

  lemma TrimInOrder(f: seq<Block>, i: nat, b: Block, top: int)
    requires InOrder(f, top) && i < |f| && Granular(b)
    requires f[i].start <= b.start && b.size >= FREE_NODE_SIZE && b.End() == f[i].End()
    ensures InOrder(f[i := b], top)
    ensures Coalesced(f) ==> Coalesced(f[i := b])
  {
    var g := f[i := b];
    forall j, k | 0 <= j < k < |g|
      ensures g[j].Before(g[k])
      ensures Coalesced(f) ==> g[j].Below(g[k])
    {
      assert f[j].Before(f[k]);
      assert Coalesced(f) ==> f[j].Below(f[k]);
    }
  }

  /** Changing cells outside the list leaves the encoded list as it was. */
  lemma HoldsFrame(m: Memory, m': Memory, f: seq<Block>, top: int)
    requires Holds(m, f, top)
    requires forall x :: x == FREE_HEAD || Covers(f, x) ==> At(m', x) == At(m, x)
    ensures Holds(m', f, top)
  {
    forall i | 0 <= i < |f|
      ensures NodeWords(m', f, i)
    {
      assert NodeWords(m, f, i);
      assert f[i].Has(f[i].start) && f[i].Has(f[i].start + 8);
    }
  }

  // ----- merging leaves no two blocks touching -----

  ghost predicate Gap(f: seq<Block>, k: nat)
    requires k + 1 < |f|
  {
    f[k].Below(f[k + 1])
  }

  /** Every neighbouring pair has a gap, except perhaps the pair before node `i`. */
  ghost predicate GapsBut(f: seq<Block>, i: nat) {
    i < |f| && forall k :: 0 <= k < |f| - 1 && k != i - 1 ==> Gap(f, k)
  }

  /** `f` with block `b` put in at `i` and merged with the node after it, if they touch. */
  ghost predicate Joined(f: seq<Block>, i: nat, f1: seq<Block>) {
    i < |f| && if i + 1 < |f| && f[i].End() == f[i + 1].start then Merged(f, i, f1) else f1 == f
  }

  /** Inserting into a coalesced list and merging forward leaves at most the pair before untouched. */
  lemma ForwardGaps(f: seq<Block>, i: nat, b: Block, f1: seq<Block>, f2: seq<Block>)
    requires Coalesced(f) && Inserted(f, i, b, f1) && Joined(f1, i, f2)
    requires i < |f| ==> b.End() <= f[i].start
    ensures GapsBut(f2, i) && f2[i].start == b.start
    ensures i > 0 ==> f2[i - 1] == f[i - 1]
  {
    forall k | 0 <= k < |f2| - 1 && k != i - 1
      ensures Gap(f2, k)
    {
      if k < i - 1 {
        assert f2[k] == f[k] && f2[k + 1] == f[k + 1] && f[k].Below(f[k + 1]);
      } else if f2 == f1 {
        assert k == i || (f2[k] == f[k - 1] && f2[k + 1] == f[k] && f[k - 1].Below(f[k]));
      } else {
        assert f2[k + 1] == f1[k + 2] == f[k + 1] && f[k].Below(f[k + 1]);
        assert f2[k].End() == f1[k + 1].End() && f1[k + 1] == f[k];
      }
    }
  }

  lemma BackwardGaps(f2: seq<Block>, i: nat, f3: seq<Block>, top: int)
    requires GapsBut(f2, i) && InOrder(f2, top) && InOrder(f3, top)
    requires if i > 0 then Joined(f2, i - 1, f3) else f3 == f2
    ensures Coalesced(f3)
  {
    forall k | 0 <= k < |f3| - 1
      ensures Gap(f3, k)
    {
      if f3 == f2 {
        assert if k != i - 1 then Gap(f2, k) else f2[k].Before(f2[k + 1]);
      } else if k < i - 1 {
        assert Gap(f2, k);
        assert f3[k] == f2[k] && f3[k + 1].start == f2[k + 1].start;
      } else {
        assert Gap(f2, k + 1);
        assert f3[k].End() == f2[k + 1].End() && f3[k + 1] == f2[k + 2];
      }
    }
    GapsCoalesced(f3, top);
  }

  lemma GapsCoalesced(f: seq<Block>, top: int)
    requires InOrder(f, top)
    requires forall k :: 0 <= k < |f| - 1 ==> Gap(f, k)
    ensures Coalesced(f)
  {
    forall i, j | 0 <= i < j < |f|
      ensures f[i].Below(f[j])
    {
      assert Gap(f, i);
      assert i + 1 < j ==> f[i + 1].Before(f[j]);
    }
  }

  // ----- where a block fits -----

  /** The two blocks share a byte. */
  predicate Overlap(a: Block, b: Block) {
    a.start < b.End() && b.start < a.End()
  }

  ghost predicate Clashes(f: seq<Block>, b: Block) {
    exists i :: 0 <= i < |f| && Overlap(f[i], b)
  }

  ghost predicate HasNodeAt(f: seq<Block>, start: int) {
    exists i :: 0 <= i < |f| && f[i].start == start
  }

  /** The nodes before `i` start below `start` and the others do not. */
  ghost predicate Splits(f: seq<Block>, i: nat, start: int) {
    && i <= |f| && (forall k :: 0 <= k < i ==> f[k].start < start)
    && (i < |f| ==> start <= f[i].start)
  }

  lemma NoNodeAt(f: seq<Block>, start: int, i: nat, top: int)
    requires Spaced(f, top) && Splits(f, i, start) && (i < |f| ==> f[i].start != start)
    ensures !HasNodeAt(f, start)
  {
    assert forall k :: i < k < |f| ==> f[i].Before(f[k]);
  }

  /** A block fits between its neighbours exactly when it overlaps no node. */
  lemma FitsBetween(f: seq<Block>, top: int, i: nat, b: Block)
    requires InOrder(f, top) && Splits(f, i, b.start) && (i < |f| ==> f[i].start != b.start)
    requires DATA <= b.start && b.size >= FREE_NODE_SIZE && b.End() <= top
    ensures var fits := (i > 0 ==> f[i - 1].End() <= b.start) && (i < |f| ==> b.End() <= f[i].start);
            && (fits ==> FitsAt(f, i, b, top))
            && (fits <==> !Clashes(f, b))
  {
    if i > 0 && f[i - 1].End() > b.start {
      assert Overlap(f[i - 1], b);
    } else if i < |f| && b.End() > f[i].start {
      assert Overlap(f[i], b);
    } else {
      forall k | 0 <= k < |f|
        ensures k < i ==> f[k].End() <= b.start
        ensures i <= k ==> b.End() <= f[k].start
      {
        assert k < i - 1 ==> f[k].Before(f[i - 1]);
        assert i < k ==> f[i].Before(f[k]);
      }
    }
  }

  /** A block of uncovered bytes clashes with no node. */
  lemma NoClash(f: seq<Block>, top: int, b: Block)
    requires InOrder(f, top) && b.size > 0 && Clear(f, b.start, b.End())
    ensures !Clashes(f, b) && !HasNodeAt(f, b.start)
  {
    UncoveredApart(f, top, b.start, b.size);
  }
}
