/** The durable arena as sets of bytes: which addresses are available, which are owned, and how many
    bytes have been lost to slack. Every allocator operation is one of the transitions proved here. */
module Arena {
  import opened Words
  import opened Sizes
  import opened FreeList
  import opened FreeListMemory

  /** A live durable block: requested size and alignment, and the bytes it occupies. */
  datatype Owned = Owned(size: nat, align: int, span: int)

  type Ledger = map<int, Owned>

  /** Bytes an allocation may still be carved from: free blocks and everything above the frontier. */
  ghost predicate Avail(ctr: int, free: seq<Block>, a: int) {
    Covers(free, a) || a >= DATA + ctr
  }

  /** Bytes below the frontier that are not on the free list. */
  function Used(ctr: int, free: seq<Block>): int {
    ctr - Total(free)
  }

  /** A frontier and an address-ordered, fully coalesced free list below it. */
  ghost predicate Shape(ctr: int, free: seq<Block>) {
    0 <= ctr && ctr % 8 == 0 && InOrder(free, DATA + ctr) && Coalesced(free)
  }

  /** No free block ends at the frontier. */
  ghost predicate TopInUse(ctr: int, free: seq<Block>) {
    !Covers(free, DATA + ctr - 1)
  }

  /** Memory holds the free list of the arena. */
  ghost predicate ListHeld(m: Memory, ctr: int, free: seq<Block>) {
    Shape(ctr, free) && Encodes(m, free) && DATA + ctr <= HEAP_BASE + HEAP_SIZE
  }

  /** The block serves the request: aligned as asked and as large as its block size. */
  predicate Suited(k: int, o: Owned) {
    k % 8 == 0 && o.size > 0 && Aligned(k, o.align) && o.span == BlockBytes(o.size)
  }

  predicate Placed(k: int, o: Owned) {
    DATA <= k && o.span >= FREE_NODE_SIZE
  }

  predicate Clears(j: int, span: int, k: int, other: int) {
    j + span <= k || k + other <= j
  }

  ghost predicate Apart(live: Ledger) {
    forall j, k {:trigger Clears(j, live[j].span, k, live[k].span)} ::
      j in live && k in live && j != k ==> Clears(j, live[j].span, k, live[k].span)
  }

  ghost predicate AllSuited(live: Ledger) {
    forall k {:trigger Suited(k, live[k])} :: k in live ==> Suited(k, live[k])
  }

  ghost function LiveTotal(live: Ledger): int {
    if exists k :: k in live then
      var k :| k in live;
      live[k].span + LiveTotal(live - {k})
    else 0
  }

  /** No byte of a live block is available. */
  ghost predicate LiveTaken(ctr: int, free: seq<Block>, live: Ledger) {
    forall k {:trigger Taken(ctr, free, k, live[k].span)} :: k in live ==> Taken(ctr, free, k, live[k].span)
  }

  ghost predicate Taken(ctr: int, free: seq<Block>, start: int, span: int) {
    forall a :: start <= a < start + span ==> !Avail(ctr, free, a)
  }

  /** Live blocks are disjoint from each other and from every available byte. */
  ghost predicate Separate(ctr: int, free: seq<Block>, live: Ledger) {
    && (forall k {:trigger Placed(k, live[k])} :: k in live ==> Placed(k, live[k]))
    && Apart(live)
    && LiveTaken(ctr, free, live)
  }

  /** The invariant of every run: disjoint, aligned live blocks outside the available bytes, and exact
      accounting `ctr = live + free + lost`. */
  ghost predicate Books(ctr: int, free: seq<Block>, live: Ledger, lost: int) {
    && AllSuited(live)
    && Separate(ctr, free, live)
    && lost >= 0
    && ctr == LiveTotal(live) + Total(free) + lost
  }

  // ----- summing a ledger -----

  lemma LedgerShrinks(live: Ledger, k: int)
    requires k in live
    ensures |live - {k}| == |live| - 1
  {
    assert live.Keys == (live - {k}).Keys + {k};
  }

  lemma {:induction false} LiveTotalRemove(live: Ledger, k: int)
    requires k in live
    ensures LiveTotal(live) == live[k].span + LiveTotal(live - {k})
    decreases |live|
  {
    LedgerShrinks(live, k);
    var j :| j in live && LiveTotal(live) == live[j].span + LiveTotal(live - {j});
    if j != k {
      LedgerShrinks(live, j);
      LiveTotalRemove(live - {j}, k);
      LiveTotalRemove(live - {k}, j);
      assert live - {j} - {k} == live - {k} - {j};
    }
  }

  lemma LiveTotalAdd(live: Ledger, k: int, o: Owned)
    requires k !in live
    ensures LiveTotal(live[k := o]) == LiveTotal(live) + o.span
  {
    LiveTotalRemove(live[k := o], k);
    assert live[k := o] - {k} == live;
  }

  lemma LiveTotalUpdate(live: Ledger, k: int, o: Owned)
    requires k in live
    ensures LiveTotal(live[k := o]) == LiveTotal(live) - live[k].span + o.span
  {
    LiveTotalRemove(live, k);
    LiveTotalRemove(live[k := o], k);
    assert live[k := o] - {k} == live - {k};
  }

  // ----- how the available bytes change -----

  /** Exactly the available bytes `[lo, hi)` were taken. */
  ghost predicate Takes(ctr: int, free: seq<Block>, ctr': int, free': seq<Block>, lo: int, hi: int) {
    && Used(ctr', free') == Used(ctr, free) + (hi - lo)
    && (forall a :: lo <= a < hi ==> Avail(ctr, free, a))
    && (forall a :: a >= DATA ==> (Avail(ctr', free', a) <==> Avail(ctr, free, a) && !(lo <= a < hi)))
  }

  /** Exactly the bytes `[lo, hi)` became available. */
  ghost predicate Gives(ctr: int, free: seq<Block>, ctr': int, free': seq<Block>, lo: int, hi: int) {
    && Used(ctr', free') == Used(ctr, free) - (hi - lo)
    && (forall a :: a >= DATA ==> (Avail(ctr', free', a) <==> Avail(ctr, free, a) || lo <= a < hi))
  }

  ghost predicate SameRoom(ctr: int, free: seq<Block>, ctr': int, free': seq<Block>) {
    && Used(ctr', free') == Used(ctr, free)
    && (forall a :: a >= DATA ==> (Avail(ctr', free', a) <==> Avail(ctr, free, a)))
  }

  lemma GivesSame(c0: int, f0: seq<Block>, c1: int, f1: seq<Block>, c2: int, f2: seq<Block>, lo: int, hi: int)
    requires Gives(c0, f0, c1, f1, lo, hi) && SameRoom(c1, f1, c2, f2)
    ensures Gives(c0, f0, c2, f2, lo, hi)
  {
  }

  lemma TakenBack(c0: int, f0: seq<Block>, c1: int, f1: seq<Block>, c2: int, f2: seq<Block>, lo: int, hi: int)
    requires Takes(c0, f0, c1, f1, lo, hi) && Gives(c1, f1, c2, f2, lo, hi)
    ensures SameRoom(c0, f0, c2, f2)
  {
  }

  lemma ListGives(ctr: int, free: seq<Block>, free': seq<Block>, lo: int, hi: int)
    requires Adds(free, free', lo, hi)
    ensures Gives(ctr, free, ctr, free', lo, hi)
  {
  }

  lemma CoveredInside(ctr: int, free: seq<Block>, a: int)
    requires Shape(ctr, free) && Covers(free, a)
    ensures DATA <= a < DATA + ctr
  {
  }

  lemma ListTakes(ctr: int, free: seq<Block>, free': seq<Block>, lo: int, hi: int)
    requires Shape(ctr, free) && TopInUse(ctr, free) && Drops(free, free', lo, hi) && lo < hi
    ensures Takes(ctr, free, ctr, free', lo, hi) && TopInUse(ctr, free')
    ensures DATA <= lo && hi <= DATA + ctr
  {
    CoveredInside(ctr, free, lo);
    CoveredInside(ctr, free, hi - 1);
  }

  /** Raising the frontier takes exactly the bytes it passes. */
  lemma RaiseTop(ctr: int, free: seq<Block>, ctr': int, lo: int, hi: int)
    requires Shape(ctr, free) && ctr < ctr' && ctr' % 8 == 0 && lo == DATA + ctr && hi == DATA + ctr'
    ensures Shape(ctr', free) && TopInUse(ctr', free)
    ensures Takes(ctr, free, ctr', free, lo, hi)
  {
    forall a | Covers(free, a) ensures DATA <= a < DATA + ctr {
      CoveredInside(ctr, free, a);
    }
  }

  /** A list none of whose blocks ends at the frontier leaves the byte below the frontier in use. */
  lemma NoneAtTop(ctr: int, free: seq<Block>)
    requires Shape(ctr, free)
    requires forall k :: 0 <= k < |free| ==> free[k].End() != DATA + ctr
    ensures TopInUse(ctr, free)
  {
  }

  /** Dropping the block that ends at the frontier lowers the frontier to its start. */
  lemma LastFreed(ctr: int, free: seq<Block>, i: nat, g: seq<Block>)
    requires Shape(ctr, free) && Removed(free, i, g) && free[i].End() == DATA + ctr
    requires Drops(free, g, free[i].start, free[i].End())
    ensures var ctr' := free[i].start - DATA;
            Shape(ctr', g) && TopInUse(ctr', g) && ctr' <= ctr && SameRoom(ctr, free, ctr', g)
    ensures !TopInUse(ctr, free)
  {
    assert Granular(free[i]) && free[i].Has(DATA + ctr - 1);
    Granules(free[i].start, 0);
    BelowLast(ctr, free, i, g);
    RemoveInOrder(free, i, g, DATA + ctr);
    LowerTop(g, DATA + ctr, free[i].start);
  }

  lemma BelowLast(ctr: int, free: seq<Block>, i: nat, g: seq<Block>)
    requires Shape(ctr, free) && Removed(free, i, g) && free[i].End() == DATA + ctr
    ensures forall k :: 0 <= k < |g| ==> g[k].End() < free[i].start
  {
    assert i + 1 < |free| ==> free[i].Before(free[i + 1]);
    forall k | 0 <= k < |g|
      ensures g[k].End() < free[i].start
    {
      assert g[k] == free[k] && free[k].Below(free[i]);
    }
  }

  lemma LowerTop(g: seq<Block>, top: int, top': int)
    requires InOrder(g, top) && forall k :: 0 <= k < |g| ==> g[k].End() < top'
    ensures InOrder(g, top') && forall a :: Covers(g, a) ==> a < top' - 1
  {
  }

  // ----- transitions of the books -----

  /** Giving a block back. */
  lemma BooksFree(ctr: int, free: seq<Block>, live: Ledger, lost: int, ctr': int, free': seq<Block>, k: int)
    requires Books(ctr, free, live, lost) && k in live
    requires Gives(ctr, free, ctr', free', k, k + live[k].span)
    ensures Books(ctr', free', live - {k}, lost)
  {
    LiveTotalRemove(live, k);
    var live' := live - {k};
    forall j | j in live'
      ensures Taken(ctr', free', j, live'[j].span)
    {
      assert Taken(ctr, free, j, live[j].span) && Placed(j, live[j]) && Clears(j, live[j].span, k, live[k].span);
    }
    forall j | j in live' ensures Placed(j, live'[j]) && Suited(j, live'[j]) {
      assert Placed(j, live[j]) && Suited(j, live[j]);
    }
    forall i, j | i in live' && j in live' && i != j ensures Clears(i, live'[i].span, j, live'[j].span) {
      assert Clears(i, live[i].span, j, live[j].span);
    }
  }

  /** A range of available bytes lies apart from every live block. */
  lemma LiveAvoids(ctr: int, free: seq<Block>, live: Ledger, lo: int, hi: int)
    requires Separate(ctr, free, live) && lo < hi
    requires forall a :: lo <= a < hi ==> Avail(ctr, free, a)
    ensures forall j :: j in live ==> j + live[j].span <= lo || hi <= j
  {
    forall j | j in live
      ensures j + live[j].span <= lo || hi <= j
    {
      assert Placed(j, live[j]);
      var a := Max(lo, j);
      assert Taken(ctr, free, j, live[j].span);
      assert lo <= a < hi ==> Avail(ctr, free, a);
    }
  }

  /** Block `p` takes or extends over the available bytes `[lo, hi)`. */
  lemma SeparateTake(ctr: int, free: seq<Block>, live: Ledger, ctr': int, free': seq<Block>, lo: int, hi: int, p: int,
                     o: Owned)
    requires Separate(ctr, free, live) && Placed(p, o) && lo < hi && p + o.span <= hi
    requires if p in live then lo == p + live[p].span else lo <= p
    requires Takes(ctr, free, ctr', free', lo, hi)
    ensures Separate(ctr', free', live[p := o])
  {
    LiveAvoids(ctr, free, live, lo, hi);
    var live' := live[p := o];
    forall j | j in live && j != p
      ensures Clears(j, live[j].span, p, o.span)
    {
      assert Placed(j, live[j]);
      assert p in live ==> Placed(p, live[p]) && Clears(j, live[j].span, p, live[p].span);
    }
    forall i, j | i in live' && j in live' && i != j ensures Clears(i, live'[i].span, j, live'[j].span) {
      assert i != p && j != p ==> Clears(i, live[i].span, j, live[j].span);
      assert i == p ==> Clears(j, live[j].span, p, o.span);
    }
    forall j | j in live'
      ensures Placed(j, live'[j]) && Taken(ctr', free', j, live'[j].span)
    {
      if j in live {
        assert Placed(j, live[j]) && Taken(ctr, free, j, live[j].span);
      }
    }
  }

  lemma SuitedSet(live: Ledger, p: int, o: Owned)
    requires AllSuited(live) && Suited(p, o)
    ensures AllSuited(live[p := o])
  {
    var live' := live[p := o];
    forall k | k in live' ensures Suited(k, live'[k]) {
      assert k != p ==> Suited(k, live[k]);
    }
  }

  /** Taking the available bytes `[lo, hi)` for a new block at `p`. */
  lemma BooksTake(ctr: int, free: seq<Block>, live: Ledger, lost: int,
                  ctr': int, free': seq<Block>, lost': int, lo: int, hi: int, p: int, o: Owned)
    requires Books(ctr, free, live, lost) && Suited(p, o) && lost' == lost + (hi - lo - o.span)
    requires DATA <= lo <= p && p + o.span <= hi && Takes(ctr, free, ctr', free', lo, hi)
    ensures p !in live
    ensures Books(ctr', free', live[p := o], lost')
  {
    LiveAvoids(ctr, free, live, lo, hi);
    assert p in live ==> Placed(p, live[p]);
    LiveTotalAdd(live, p, o);
    SuitedSet(live, p, o);
    SeparateTake(ctr, free, live, ctr', free', lo, hi, p, o);
  }

  /** Extending the live block at `k` over the available bytes up to `hi` that follow it. */
  lemma BooksExtend(ctr: int, free: seq<Block>, live: Ledger, lost: int,
                    ctr': int, free': seq<Block>, lost': int, lo: int, hi: int, k: int, o: Owned)
    requires Books(ctr, free, live, lost) && k in live && Suited(k, o) && lost' == lost + (hi - k - o.span)
    requires lo == k + live[k].span < k + o.span <= hi && Takes(ctr, free, ctr', free', lo, hi)
    ensures Books(ctr', free', live[k := o], lost')
  {
    LiveTotalUpdate(live, k, o);
    SuitedSet(live, k, o);
    assert Placed(k, live[k]);
    SeparateTake(ctr, free, live, ctr', free', lo, hi, k, o);
  }

  /** Cutting the live block at `k` down to `o`, returning its tail from `cut` on; bytes between the
      new span and `cut` are lost. */
  lemma BooksShrink(ctr: int, free: seq<Block>, live: Ledger, lost: int,
                    ctr': int, free': seq<Block>, lost': int, cut: int, end: int, k: int, o: Owned)
    requires Books(ctr, free, live, lost) && k in live && Suited(k, o) && lost' == lost + (cut - k - o.span)
    requires k + o.span <= cut <= end == k + live[k].span && Gives(ctr, free, ctr', free', cut, end)
    ensures Books(ctr', free', live[k := o], lost')
  {
    LiveTotalUpdate(live, k, o);
    SuitedSet(live, k, o);
    assert Placed(k, live[k]);
    SeparateShrink(ctr, free, live, ctr', free', cut, end, k, o);
  }

  lemma SeparateShrink(ctr: int, free: seq<Block>, live: Ledger, ctr': int, free': seq<Block>, cut: int, end: int,
                       k: int, o: Owned)
    requires Separate(ctr, free, live) && k in live && Placed(k, o)
    requires k + o.span <= cut <= end == k + live[k].span && Gives(ctr, free, ctr', free', cut, end)
    ensures Separate(ctr', free', live[k := o])
  {
    var live' := live[k := o];
    forall j | j in live' ensures Placed(j, live'[j]) && Taken(ctr', free', j, live'[j].span) {
      ShrinkTaken(ctr, free, live, ctr', free', cut, end, k, o, j);
    }
    forall i, j | i in live' && j in live' && i != j ensures Clears(i, live'[i].span, j, live'[j].span) {
      assert Clears(i, live[i].span, j, live[j].span);
    }
  }

  lemma ShrinkTaken(ctr: int, free: seq<Block>, live: Ledger, ctr': int, free': seq<Block>, cut: int, end: int, k: int,
                    o: Owned, j: int)
    requires Separate(ctr, free, live) && k in live && j in live && Placed(k, o)
    requires k + o.span <= cut <= end == k + live[k].span && Gives(ctr, free, ctr', free', cut, end)
    ensures Placed(j, live[k := o][j]) && Taken(ctr', free', j, live[k := o][j].span)
  {
    assert Placed(j, live[j]) && Placed(k, live[k]) && Taken(ctr, free, j, live[j].span);
    assert j != k ==> Clears(j, live[j].span, k, live[k].span);
  }

  // ----- the allocator's own transitions -----

  lemma SuitedPlaced(k: int, o: Owned)
    requires Suited(k, o)
    ensures o.span >= FREE_NODE_SIZE && o.size <= o.span && Granular(Block(k, o.span)) && (k + o.span - DATA) % 8 == 0
  {
    Granules(k, o.span);
    Granules(k + o.span, 0);
  }

  /** A block cut from the free list. */
  lemma ListAllocBooks(ctr: int, free: seq<Block>, free': seq<Block>, live: Ledger, lost: int, lost': int, p: int,
                       hi: int, o: Owned)
    requires Shape(ctr, free) && TopInUse(ctr, free) && Books(ctr, free, live, lost)
    requires Suited(p, o) && p + o.span <= hi && Drops(free, free', p, hi) && lost' == lost + (hi - p - o.span)
    ensures TopInUse(ctr, free') && Takes(ctr, free, ctr, free', p, hi) && DATA <= p
    ensures p !in live && Books(ctr, free', live[p := o], lost')
  {
    SuitedPlaced(p, o);
    ListTakes(ctr, free, free', p, hi);
    BooksTake(ctr, free, live, lost, ctr, free', lost', p, hi, p, o);
  }

  /** A block at or above the frontier. */
  lemma TopAllocBooks(ctr: int, free: seq<Block>, live: Ledger, lost: int, ctr': int, lost': int, p: int, hi: int,
                      o: Owned)
    requires Shape(ctr, free) && Books(ctr, free, live, lost) && Suited(p, o) && DATA + ctr <= p
    requires hi == p + o.span && ctr' == hi - DATA && lost' == lost + (p - (DATA + ctr))
    ensures Shape(ctr', free) && TopInUse(ctr', free) && Takes(ctr, free, ctr', free, DATA + ctr, hi)
    ensures p !in live && Books(ctr', free, live[p := o], lost')
  {
    SuitedPlaced(p, o);
    RaiseTop(ctr, free, ctr', DATA + ctr, hi);
    BooksTake(ctr, free, live, lost, ctr', free, lost', DATA + ctr, hi, p, o);
  }

  /** The block that ends at the frontier grows. */
  lemma ExtendTopBooks(ctr: int, free: seq<Block>, live: Ledger, lost: int, ctr': int, lo: int, hi: int, k: int,
                       o: Owned)
    requires Shape(ctr, free) && Books(ctr, free, live, lost) && k in live && lo == k + live[k].span == DATA + ctr
    requires Suited(k, o) && o.span > live[k].span && hi == k + o.span && ctr' == hi - DATA
    ensures Shape(ctr', free) && TopInUse(ctr', free) && Books(ctr', free, live[k := o], lost)
  {
    SuitedPlaced(k, o);
    RaiseTop(ctr, free, ctr', lo, hi);
    BooksExtend(ctr, free, live, lost, ctr', free, lost, lo, hi, k, o);
  }

  /** A block grows over the free bytes that follow it. */
  lemma ExtendListBooks(ctr: int, free: seq<Block>, free': seq<Block>, live: Ledger, lost: int, lost': int, k: int,
                        o: Owned, lo: int, hi: int)
    requires Shape(ctr, free) && TopInUse(ctr, free) && Books(ctr, free, live, lost) && k in live
    requires Suited(k, o) && lo == k + live[k].span < k + o.span <= hi && Drops(free, free', lo, hi)
    requires lost' == lost + (hi - k - o.span)
    ensures TopInUse(ctr, free') && Books(ctr, free', live[k := o], lost')
  {
    ListTakes(ctr, free, free', lo, hi);
    BooksExtend(ctr, free, live, lost, ctr, free', lost', lo, hi, k, o);
  }

  // ----- consequences -----

  /** Every live block lies inside `[DATA, DATA + ctr)` and apart from every free block. */
  lemma LiveInside(ctr: int, free: seq<Block>, live: Ledger, lost: int, k: int)
    requires Shape(ctr, free) && Books(ctr, free, live, lost) && k in live
    ensures DATA <= k && k + live[k].span <= DATA + ctr
    ensures forall i :: 0 <= i < |free| ==> free[i].End() <= k || k + live[k].span <= free[i].start
  {
    HeldBlock(ctr, free, live, lost, k);
    UncoveredApart(free, DATA + ctr, k, live[k].span);
  }

  lemma HeldBlock(ctr: int, free: seq<Block>, live: Ledger, lost: int, k: int)
    requires Books(ctr, free, live, lost) && k in live
    ensures DATA <= k && k + live[k].span <= DATA + ctr && Granular(Block(k, live[k].span))
    ensures live[k].span >= FREE_NODE_SIZE && Suited(k, live[k])
    ensures Clear(free, k, k + live[k].span)
  {
    assert Suited(k, live[k]) && Placed(k, live[k]);
    TakenClear(ctr, free, k, live[k].span);
  }

  lemma TakenClear(ctr: int, free: seq<Block>, start: int, span: int)
    requires Taken(ctr, free, start, span) && span > 0
    ensures Clear(free, start, start + span) && start + span <= DATA + ctr
  {
    assert !Avail(ctr, free, start + span - 1);
    forall a | start <= a < start + span ensures !Covers(free, a) {
      assert !Avail(ctr, free, a);
    }
  }

  lemma HeldApart(ctr: int, free: seq<Block>, live: Ledger, lost: int, j: int, k: int)
    requires Books(ctr, free, live, lost) && j in live && k in live && j != k
    ensures j + live[j].span <= k || k + live[k].span <= j
  {
    assert Clears(j, live[j].span, k, live[k].span);
  }

  /** Canonical form: frontier and free list are determined by the available bytes alone. */
  lemma CanonicalArena(ctr: int, free: seq<Block>, ctr': int, free': seq<Block>)
    requires Shape(ctr, free) && Shape(ctr', free') && TopInUse(ctr, free) && TopInUse(ctr', free')
    requires forall a :: a >= DATA ==> (Avail(ctr, free, a) <==> Avail(ctr', free', a))
    ensures ctr == ctr' && free == free'
  {
    FrontierLeast(ctr, free, ctr', free');
    FrontierLeast(ctr', free', ctr, free);
    forall a ensures Covers(free, a) <==> Covers(free', a) {
      if Covers(free, a) {
        CoveredInside(ctr, free, a);
        assert Avail(ctr, free, a);
      }
      if Covers(free', a) {
        CoveredInside(ctr', free', a);
        assert Avail(ctr', free', a);
      }
    }
    CanonicalList(free, free', DATA + ctr);
  }

  lemma FrontierLeast(ctr: int, free: seq<Block>, ctr': int, free': seq<Block>)
    requires Shape(ctr, free) && Shape(ctr', free') && TopInUse(ctr', free')
    requires forall a :: a >= DATA ==> (Avail(ctr, free, a) <==> Avail(ctr', free', a))
    ensures ctr' <= ctr
  {
    assert ctr < ctr' ==> Avail(ctr, free, DATA + ctr' - 1);
  }

  /** With every block freed and nothing lost, the arena is back in its initial state. */
  lemma AllFreed(ctr: int, free: seq<Block>, live: Ledger, lost: int)
    requires Shape(ctr, free) && TopInUse(ctr, free) && Books(ctr, free, live, lost)
    requires live == map[] && lost == 0
    ensures ctr == 0 && free == []
  {
    if free != [] {
      LastBelowTop(ctr, free);
      TotalFits(free, DATA + ctr);
    }
  }

  lemma LastBelowTop(ctr: int, free: seq<Block>)
    requires Shape(ctr, free) && TopInUse(ctr, free)
    ensures forall i :: 0 <= i < |free| ==> free[i].End() < DATA + ctr
  {
    forall i | 0 <= i < |free| ensures free[i].End() < DATA + ctr {
      assert free[i].Has(free[i].End() - 1);
    }
  }
}
