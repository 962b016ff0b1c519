/** Whole runs of the allocator: every well-nested script of caller operations. */
module HeapRuns {
  import opened Words
  import opened Sizes
  import opened FreeList
  import opened FreeListWalk
  import opened Placement
  import opened Arena
  import opened Commitment
  import opened TransientLane
  import opened KeptBytes
  import opened HeapScripts
  import opened ExecutiveHeap

  /** A request the `Layout` type admits. */
  predicate LayoutOk(size: nat, align: int) {
    0 < size && IsLayout(size, align)
  }

  function OpSlack(op: Op): int {
    match op
    case Allocate(_, align) => Slack(align)
    case Resize(_, _, align, _) => Slack(align)
    case Release(_, _, _) => 0
    case Write(_, _, _) => 0
  }

  function ScriptSlack(s: Script): int {
    match s
    case Done => 0
    case Then(op, rest) => OpSlack(op) + ScriptSlack(rest)
    case InTransient(body, rest) => ScriptSlack(body) + ScriptSlack(rest)
    case InDurable(body, rest) => ScriptSlack(body) + ScriptSlack(rest)
  }

  /** Perform an operation if it meets the allocator's contract; a caller makes no other. */
  method Apply(h: Heap, op: Op)
    requires h.Valid()
    modifies h
    ensures h.Valid() && h.limit == old(h.limit) && h.guards == old(h.guards)
    ensures old(h.lane) <= h.lane && h.Grown(old(h.committed), old(h.growths))
    ensures old(h.lost) <= h.lost <= old(h.lost) + OpSlack(op)
    ensures Contents(old(h.mem), old(h.live), old(h.lane), h.mem, h.live, Only(op))
  {
    match op
    case Allocate(size, align) => ApplyAllocate(h, size, align);
    case Release(ptr, size, align) => ApplyRelease(h, ptr, size, align);
    case Resize(ptr, size, align, newSize) => ApplyResize(h, ptr, size, align, newSize);
    case Write(start, offset, value) => ApplyWrite(h, start, offset, value);
  }

  method ApplyAllocate(h: Heap, size: nat, align: int)
    requires h.Valid()
    modifies h
    ensures h.Valid() && h.limit == old(h.limit) && h.guards == old(h.guards)
    ensures old(h.lane) <= h.lane && h.Grown(old(h.committed), old(h.growths))
    ensures old(h.lost) <= h.lost <= old(h.lost) + Slack(align)
    ensures Contents(old(h.mem), old(h.live), old(h.lane), h.mem, h.live, Only(Allocate(size, align)))
  {
    ghost var m, c, f, l, n, lane := h.mem, h.ctr, h.free, h.live, h.lost, h.lane;
    if LayoutOk(size, align) {
      var p := h.Alloc(size, align);
    } else {
      KeepsAll(m, l, lane);
    }
    CellsContents(m, c, f, l, n, lane, h.mem, h.live, Allocate(size, align));
  }

  lemma KeepsAll(m: Memory, live: Ledger, lane: seq<LaneBlock>)
    ensures KeepsBlocks(m, m, live) && KeepsLane(m, m, lane)
  {
  }

  lemma KeepsRest(m: Memory, m': Memory, live: Ledger, live': Ledger, ptr: int)
    requires KeepsBlocks(m, m', live') && (live' == live || live' == live - {ptr})
    ensures KeepsBlocks(m, m', live - {ptr}) && OthersStay(live, ptr, live')
  {
    forall k | k in live - {ptr} ensures KeepsCells(m, m', k, (live - {ptr})[k].span) {
      assert k in live' && live'[k] == live[k];
    }
  }

  method ApplyRelease(h: Heap, ptr: nat, size: nat, align: int)
    requires h.Valid()
    modifies h`mem, h`ctr, h`poisoned, h`free, h`live
    ensures h.Valid()
    ensures Contents(old(h.mem), old(h.live), h.lane, h.mem, h.live, Only(Release(ptr, size, align)))
  {
    ghost var m, c, f, l := h.mem, h.ctr, h.free, h.live;
    if ptr == 0 || size == 0 || h.Owns(ptr, size, align) {
      h.Dealloc(ptr, size, align);
    } else {
      KeepsAll(m, l, h.lane);
    }
    KeepsRest(m, h.mem, l, h.live, ptr);
    OthersContents(m, c, f, l, h.lost, h.lane, h.mem, h.live, Release(ptr, size, align), ptr);
  }

  method ApplyResize(h: Heap, ptr: nat, size: nat, align: int, newSize: nat)
    requires h.Valid()
    modifies h
    ensures h.Valid() && h.limit == old(h.limit) && h.guards == old(h.guards)
    ensures old(h.lane) <= h.lane && h.Grown(old(h.committed), old(h.growths))
    ensures old(h.lost) <= h.lost <= old(h.lost) + Slack(align)
    ensures Contents(old(h.mem), old(h.live), old(h.lane), h.mem, h.live, Only(Resize(ptr, size, align, newSize)))
  {
    ghost var m, c, f, l, n, lane := h.mem, h.ctr, h.free, h.live, h.lost, h.lane;
    if LayoutOk(size, align) && newSize < USIZE_LIMIT && (if ptr == 0 then newSize > 0 else h.Owns(ptr, size, align)) {
      var r := h.Realloc(ptr, size, align, newSize);
    } else {
      KeepsAll(m, l - {ptr}, lane);
    }
    OthersContents(m, c, f, l, n, lane, h.mem, h.live, Resize(ptr, size, align, newSize), ptr);
  }

  method ApplyWrite(h: Heap, start: int, offset: nat, value: byte)
    requires h.Valid()
    modifies h`mem
    ensures h.Valid() && Contents(old(h.mem), h.live, h.lane, h.mem, h.live, Only(Write(start, offset, value)))
  {
    ghost var m := h.mem;
    if h.MayWrite(start, offset) {
      h.StoreByteAt(start, offset, value);
      WriteContents(h, m, Write(start, offset, value));
    } else {
      RefusedContents(h, Write(start, offset, value));
    }
  }

  /** A write lands in the block it names and in no other. */
  lemma WriteContents(h: Heap, m: Memory, op: Op)
    requires h.Valid() && op.Write? && h.MayWrite(op.start, op.offset)
             && OneByte(m, h.mem, op.start + op.offset, op.value)
    ensures Contents(m, h.live, h.lane, h.mem, h.live, Only(op))
  {
    forall k | k in h.live ensures BlockCarried(m, h.live, h.mem, h.live, Only(op), k) {
      WriteMisses(h, op, k);
      WriteCarried(m, h.mem, op, k, h.live[k].size);
    }
    forall i | 0 <= i < |h.lane| ensures LaneCarried(m, h.mem, Only(op), h.lane[i]) {
      LaneWriteMisses(h, op, i);
      WriteCarried(m, h.mem, op, h.lane[i].start, h.lane[i].span);
    }
  }

  lemma WriteMisses(h: Heap, op: Op, k: int)
    requires h.Valid() && op.Write? && h.MayWrite(op.start, op.offset) && k in h.live
    ensures op.start == k || !(k <= op.start + op.offset < k + h.live[k].size)
  {
    EndInHeap(h.limit, h.committed, h.growths);
    HeldBlock(h.ctr, h.free, h.live, h.lost, k);
    SuitedPlaced(k, h.live[k]);
    if !h.IsTransient(op.start) && op.start != k {
      HeldBlock(h.ctr, h.free, h.live, h.lost, op.start);
      SuitedPlaced(op.start, h.live[op.start]);
      HeldApart(h.ctr, h.free, h.live, h.lost, op.start, k);
    }
  }

  lemma LaneWriteMisses(h: Heap, op: Op, i: nat)
    requires h.Valid() && op.Write? && h.MayWrite(op.start, op.offset) && i < |h.lane|
    ensures op.start == h.lane[i].start || !(h.lane[i].start <= op.start + op.offset < h.lane[i].End())
  {
    TransientBlocksDisjoint(h, i);
    if h.IsTransient(op.start) {
      var n :| 0 <= n < |h.lane| && h.lane[n].start == op.start && op.offset < h.lane[n].span;
      assert n < i ==> h.lane[i].Under(h.lane[n]);
      assert i < n ==> h.lane[n].Under(h.lane[i]);
    } else {
      ArenasDisjoint(h, i, op.start);
      HeldBlock(h.ctr, h.free, h.live, h.lost, op.start);
      SuitedPlaced(op.start, h.live[op.start]);
    }
  }

  /** A write a caller may not make names no byte of what is held. */
  lemma RefusedContents(h: Heap, op: Op)
    requires h.Valid() && op.Write? && !h.MayWrite(op.start, op.offset)
    ensures Contents(h.mem, h.live, h.lane, h.mem, h.live, Only(op))
  {
    EndInHeap(h.limit, h.committed, h.growths);
    forall k | k in h.live ensures BlockCarried(h.mem, h.live, h.mem, h.live, Only(op), k) {
      HeldBlock(h.ctr, h.free, h.live, h.lost, k);
      RefusedCarried(h.mem, op, k, h.live[k].size);
    }
    forall i | 0 <= i < |h.lane| ensures LaneCarried(h.mem, h.mem, Only(op), h.lane[i]) {
      TransientBlocksDisjoint(h, i);
      InLane(h.lane, i);
      RefusedCarried(h.mem, op, h.lane[i].start, h.lane[i].span);
    }
  }

  /** Every well-nested run keeps the invariant, leaves the open scopes and the transient blocks of the
      callers around it alone, loses no more than its operations' slack, and commits more frames at most
      14 times in the heap's lifetime. A block it does not release or resize holds at the end what the run
      itself last wrote to each of its bytes, and otherwise what it held before. */
  method Run(h: Heap, s: Script)
    requires h.Valid()
    modifies h
    ensures h.Valid() && h.limit == old(h.limit) && h.guards == old(h.guards)
    ensures old(h.lane) <= h.lane && h.Grown(old(h.committed), old(h.growths)) && h.growths <= 14
    ensures old(h.lost) <= h.lost <= old(h.lost) + ScriptSlack(s)
    ensures Contents(old(h.mem), old(h.live), old(h.lane), h.mem, h.live, s)
    decreases s, 1
  {
    if s == Done {
      NothingDone(h.mem, h.live, h.lane);
    } else {
      ghost var m, l, lane := h.mem, h.live, h.lane;
      ghost var first := RunFirst(h, s);
      ghost var m1, l1, lane1 := h.mem, h.live, h.lane;
      Run(h, s.rest);
      ContentsOn(m, l, lane, m1, l1, lane1, h.mem, h.live, first, s.rest, s);
    }
    GrowthsBounded(h.limit, h.committed, h.growths);
  }

  /** The first operation or scope of a script. */
  method RunFirst(h: Heap, s: Script) returns (ghost first: Script)
    requires h.Valid() && s != Done
    modifies h
    ensures h.Valid() && h.limit == old(h.limit) && h.guards == old(h.guards)
    ensures old(h.lane) <= h.lane && h.Grown(old(h.committed), old(h.growths))
    ensures Sequence(first, s.rest, s) && Contents(old(h.mem), old(h.live), old(h.lane), h.mem, h.live, first)
    ensures old(h.lost) <= h.lost && h.lost + ScriptSlack(s.rest) <= old(h.lost) + ScriptSlack(s)
    decreases s, 0
  {
    match s
    case Then(op, _) =>
      first := Only(op);
      Apply(h, op);
    case InTransient(body, _) =>
      first := body;
      RunInTransient(h, body);
    case InDurable(body, _) =>
      first := body;
      RunInDurable(h, body);
  }

  /** A transient scope leaves the lane, its mark and its depth exactly as it found them, whatever ran
      inside it. */
  method RunInTransient(h: Heap, body: Script)
    requires h.Valid()
    modifies h
    ensures h.Valid() && h.limit == old(h.limit) && h.guards == old(h.guards)
    ensures h.lane == old(h.lane) && h.transientUsed == old(h.transientUsed)
            && h.transientDepth == old(h.transientDepth)
    ensures old(h.lost) <= h.lost <= old(h.lost) + ScriptSlack(body) && h.Grown(old(h.committed), old(h.growths))
    ensures Contents(old(h.mem), old(h.live), old(h.lane), h.mem, h.live, body)
    decreases body, 2
  {
    ghost var lane, used, depth, high := h.lane, h.transientUsed, h.transientDepth, h.highWater;
    h.EnterTransient();
    Run(h, body);
    LeaveTransient(h, old(h.guards), lane);
    LaneDetermined(lane, h.guards, h.limit == 0, used, depth, high, h.transientUsed, h.transientDepth, h.highWater);
  }

  /** Dropping the guard gives back exactly the blocks carved since it was created. */
  method LeaveTransient(h: Heap, ghost outer: seq<Guard>, ghost lane: seq<LaneBlock>)
    requires h.Valid() && |h.guards| == |outer| + 1 && outer == h.guards[..|outer|] && lane <= h.lane
    requires h.guards[|outer|].TransientScope? && h.guards[|outer|].entry == |lane|
    modifies h`transientDepth, h`transientUsed, h`guards, h`lane
    ensures h.Valid() && h.guards == outer && h.lane == lane
  {
    h.DropGuard();
  }

  /** A durable scope restores the routing of the transient scope around it. */
  method RunInDurable(h: Heap, body: Script)
    requires h.Valid()
    modifies h
    ensures h.Valid() && h.limit == old(h.limit) && h.guards == old(h.guards)
    ensures old(h.lane) <= h.lane && h.transientDepth == old(h.transientDepth)
    ensures old(h.lost) <= h.lost <= old(h.lost) + ScriptSlack(body) && h.Grown(old(h.committed), old(h.growths))
    ensures Contents(old(h.mem), old(h.live), old(h.lane), h.mem, h.live, body)
    decreases body, 2
  {
    ghost var guards := h.guards;
    h.EnterDurable();
    Run(h, body);
    h.DropGuard();
    assert h.guards == guards;
  }

  // ----- what the invariant means -----

  /** Live blocks hold their request at its alignment, inside `[DATA, DATA + ctr)`, and share no byte
      with each other or with a free block. */
  lemma DurableBlocksDisjoint(h: Heap, j: int, k: int)
    requires h.Valid() && j in h.live && k in h.live
    ensures DATA <= k && k + h.live[k].span <= DATA + h.ctr
    ensures h.live[k].size <= h.live[k].span && k % 8 == 0 && h.live[k].align > 0 && k % h.live[k].align == 0
    ensures j != k ==> j + h.live[j].span <= k || k + h.live[k].span <= j
    ensures forall i :: 0 <= i < |h.free| ==> h.free[i].End() <= k || k + h.live[k].span <= h.free[i].start
  {
    LiveInside(h.ctr, h.free, h.live, h.lost, k);
    HeldBlock(h.ctr, h.free, h.live, h.lost, k);
    AlignedMeans(k, h.live[k].align);
    if j != k {
      HeldApart(h.ctr, h.free, h.live, h.lost, j, k);
    }
  }

  /** The free list is strictly ordered with a gap after every block and before the frontier, and the
      validator accepts it. */
  lemma FreeListCanonical(h: Heap)
    requires h.Valid()
    ensures forall i, j :: 0 <= i < j < |h.free| ==> h.free[i].End() < h.free[j].start
    ensures forall i :: 0 <= i < |h.free| ==> DATA <= h.free[i].start && h.free[i].End() < DATA + h.ctr
    ensures HasList(h.mem, DATA + h.ctr)
  {
    forall i, j | 0 <= i < j < |h.free| ensures h.free[i].End() < h.free[j].start {
      assert h.free[i].Below(h.free[j]);
    }
    LastBelowTop(h.ctr, h.free);
    assert IsList(h.mem, h.free, DATA + h.ctr);
  }

  /** Every transient block lies in the lane, aligned as asked, below all the earlier ones. */
  lemma TransientBlocksDisjoint(h: Heap, j: nat)
    requires h.Valid() && j < |h.lane|
    ensures h.limit == 0 && LANE_START <= h.lane[j].start && h.lane[j].End() <= LANE_END
    ensures h.lane[j].start % 8 == 0 && h.lane[j].align > 0 && h.lane[j].start % h.lane[j].align == 0
    ensures forall i :: 0 <= i < j ==> h.lane[j].End() <= h.lane[i].start
  {
    InLane(h.lane, j);
    AlignedMeans(h.lane[j].start, h.lane[j].align);
    forall i | 0 <= i < j ensures h.lane[j].End() <= h.lane[i].start {
      assert h.lane[j].Under(h.lane[i]);
    }
  }

  /** Every transient block is apart from every durable one. */
  lemma ArenasDisjoint(h: Heap, j: nat, k: int)
    requires h.Valid() && j < |h.lane| && k in h.live
    ensures k + h.live[k].span <= DATA + h.ctr <= LANE_START <= h.lane[j].start
  {
    TransientBlocksDisjoint(h, j);
    HeldBlock(h.ctr, h.free, h.live, h.lost, k);
    EndInHeap(h.limit, h.committed, h.growths);
  }

  /** The blocks allocated since an open scope was entered are apart from those it found. */
  lemma ScopesDisjoint(h: Heap, g: nat, i: nat, j: nat)
    requires h.Valid() && g < |h.guards| && i < h.guards[g].entry <= j < |h.lane|
    ensures h.lane[j].End() <= h.lane[i].start
    ensures forall g' :: g < g' < |h.guards| ==> h.guards[g].entry <= h.guards[g'].entry <= |h.lane|
  {
    TransientBlocksDisjoint(h, j);
    forall g' | g < g' < |h.guards| ensures h.guards[g].entry <= h.guards[g'].entry <= |h.lane| {
      EntriesAscend(h.guards, h.lane, h.limit == 0, g, g');
      assert GuardOk(h.guards, h.lane, h.limit == 0, g');
    }
  }

  /** Exact accounting. */
  lemma Accounting(h: Heap)
    requires h.Valid()
    ensures h.ctr == LiveTotal(h.live) + Total(h.free) + h.lost
    ensures |h.live| == 0 && h.lost == 0 ==> h.ctr == 0 && h.free == []
  {
    if |h.live| == 0 && h.lost == 0 {
      assert h.live == map[];
      AllFreed(h.ctr, h.free, h.live, h.lost);
    }
  }

  // ----- laws across operations -----

  /** Freeing what was just allocated restores frontier and free list exactly, unless the allocation
      lost slack. */
  method AllocThenFree(h: Heap, size: nat, align: int) returns (p: int)
    requires h.Valid() && LayoutOk(size, align)
    modifies h
    ensures h.DurableOk()
    ensures p != 0 && h.lost == old(h.lost) ==> h.ctr == old(h.ctr) && h.free == old(h.free) && h.live == old(h.live)
  {
    ghost var c0, f0, l0 := h.ctr, h.free, h.live;
    ghost var lo, hi;
    p, lo, hi := h.AllocDurable(size, align);
    if p != 0 {
      ghost var c1, f1 := h.ctr, h.free;
      HeldBlock(h.ctr, h.free, h.live, h.lost, p);
      EndInHeap(h.limit, h.committed, h.growths);
      h.DeallocUnlocked(p, size, align);
      assert l0[p := Owned(size, align, BlockBytes(size))] - {p} == l0;
      if hi - lo == BlockBytes(size) {
        TakenBack(c0, f0, c1, f1, h.ctr, h.free, lo, hi);
        CanonicalArena(h.ctr, h.free, c0, f0);
      }
    }
  }

  predicate Distinct(s: seq<int>) {
    forall i, j :: 0 <= i < j < |s| ==> s[i] != s[j]
  }

  function Keys(s: seq<int>): set<int> {
    set k | k in s
  }

  /** Byte `x` lies in one of the listed blocks. */
  ghost predicate InBlocks(live: Ledger, blocks: set<int>, x: int) {
    exists k :: k in blocks && k in live && k <= x < k + live[k].span
  }

  /** Exactly the bytes of the listed blocks became available. */
  ghost predicate FreedBlocks(ctr: int, free: seq<Block>, live: Ledger, blocks: set<int>, ctr': int,
                              free': seq<Block>) {
    forall x :: x >= DATA ==> (Avail(ctr', free', x) <==> Avail(ctr, free, x) || InBlocks(live, blocks, x))
  }

  lemma FreedOneMore(c0: int, f0: seq<Block>, live: Ledger, blocks: set<int>, c1: int, f1: seq<Block>, c2: int,
                     f2: seq<Block>, k: int, end: int)
    requires FreedBlocks(c0, f0, live, blocks, c1, f1) && k in live && end == k + live[k].span
    requires Gives(c1, f1, c2, f2, k, end)
    ensures FreedBlocks(c0, f0, live, blocks + {k}, c2, f2)
  {
    forall x | x >= DATA ensures Avail(c2, f2, x) <==> Avail(c0, f0, x) || InBlocks(live, blocks + {k}, x) {
      if InBlocks(live, blocks, x) {
        var j :| j in blocks && j in live && j <= x < j + live[j].span;
        assert j in blocks + {k};
      }
      if k <= x < end {
        assert k in blocks + {k};
      }
    }
  }

  /** Free the listed blocks one after the other. Freeing all there are, with nothing lost, empties the
      arena. */
  method FreeAll(h: Heap, order: seq<int>)
    requires h.Valid() && Distinct(order) && forall k :: k in order ==> k in h.live
    modifies h
    ensures h.Valid() && h.live == old(h.live) - Keys(order) && h.lost == old(h.lost)
    ensures FreedBlocks(old(h.ctr), old(h.free), old(h.live), Keys(order), h.ctr, h.free)
    ensures Keys(order) == old(h.live).Keys && h.lost == 0 ==> h.ctr == 0 && h.free == []
  {
    ghost var c0, f0, l0 := h.ctr, h.free, h.live;
    var i := 0;
    while i < |order|
      invariant 0 <= i <= |order| && h.Valid() && h.lost == old(h.lost)
      invariant h.live == l0 - Keys(order[..i]) && FreedBlocks(c0, f0, l0, Keys(order[..i]), h.ctr, h.free)
    {
      ghost var c1, f1, k := h.ctr, h.free, order[i];
      KeysStep(order, i, l0);
      FreeOne(h, order[i]);
      FreedOneMore(c0, f0, l0, Keys(order[..i]), c1, f1, h.ctr, h.free, k, k + l0[k].span);
      i := i + 1;
    }
    assert order[..i] == order;
    if Keys(order) == l0.Keys && h.lost == 0 {
      assert h.live.Keys == {};
      assert |h.live| == 0;
      Accounting(h);
    }
  }

  lemma KeysStep(order: seq<int>, i: nat, live: Ledger)
    requires Distinct(order) && i < |order| && order[i] in live
    ensures Keys(order[..i + 1]) == Keys(order[..i]) + {order[i]} && order[i] in live - Keys(order[..i])
    ensures live - Keys(order[..i + 1]) == live - Keys(order[..i]) - {order[i]}
  {
    assert order[..i + 1] == order[..i] + [order[i]];
  }

  lemma SameKeys(p: seq<int>, q: seq<int>)
    requires forall k :: k in p <==> k in q
    ensures Keys(p) == Keys(q)
  {
    forall k ensures k in Keys(p) <==> k in Keys(q) {
      assert k in Keys(p) <==> k in p;
      assert k in Keys(q) <==> k in q;
    }
  }

  method FreeOne(h: Heap, k: int)
    requires h.Valid() && k in h.live
    modifies h
    ensures h.Valid() && h.live == old(h.live) - {k} && h.lost == old(h.lost)
    ensures Gives(old(h.ctr), old(h.free), h.ctr, h.free, k, k + old(h.live)[k].span)
  {
    HeldBlock(h.ctr, h.free, h.live, h.lost, k);
    EndInHeap(h.limit, h.committed, h.growths);
    h.Dealloc(k, h.live[k].size, h.live[k].align);
  }

  /** The order of frees does not show: two heaps in the same state, freed of the same blocks in any two
      orders, end in the same state. */
  method FreeInAnyOrder(h: Heap, g: Heap, p: seq<int>, q: seq<int>)
    requires h != g && h.Valid() && g.Valid() && h.ctr == g.ctr && h.free == g.free && h.live == g.live
    requires Distinct(p) && Distinct(q) && (forall k :: k in p ==> k in h.live) && (forall k :: k in p <==> k in q)
    modifies h, g
    ensures h.Valid() && g.Valid()
    ensures h.ctr == g.ctr && h.free == g.free && h.live == g.live
  {
    SameKeys(p, q);
    FreeAll(h, p);
    FreeAll(g, q);
    CanonicalArena(h.ctr, h.free, g.ctr, g.free);
  }

  /** In a component heap the usage report predicts the next unaligned allocation exactly. */
  method ReportThenAlloc(h: Heap, size: nat, align: int) returns (u: HeapUsage, p: int)
    requires h.Valid() && LayoutOk(size, align) && align <= GRANULE && h.limit != 0
    modifies h
    ensures h.Valid()
    ensures u.inUse == LiveTotal(old(h.live)) + old(h.lost) && u.inUse + u.reusable == u.durableCapacity
    ensures p != 0 <==> BlockBytes(size) <= u.largestReusable
  {
    assert IsList(h.mem, h.free, DATA + h.ctr);
    u := h.Usage();
    assert Reports(u, h.ctr, h.free, h.DurableEnd());
    ServesGranule(h.ctr, h.free, align, BlockBytes(size), h.DurableEnd());
    p := h.Alloc(size, align);
  }
}
