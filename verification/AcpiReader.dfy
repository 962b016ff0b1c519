/** The physical reader of `acpi_platform.rs`: it claims device regions on demand and reads physical memory
    through their validation windows. */
module AcpiReader {
  import opened Words
  import opened Sizes
  import opened SlotLedger
  import opened AcpiAuthority
  import opened PhysicalRanges

  // ----- device untypeds -----

  /** An untyped capability as the boot information describes it. */
  datatype Untyped = Untyped(paddr: nat, sizeBits: nat, device: bool)

  function Pow2(n: nat): (p: nat)
    ensures p > 0
  {
    if n == 0 then 1 else 2 * Pow2(n - 1)
  }

  lemma {:induction false} Pow2Pages(n: nat)
    ensures Pow2(n + 12) == PAGE * Pow2(n)
  {
    if n == 0 {
      assert Pow2(12) == 2 * Pow2(11) == 4 * Pow2(10) == 8 * Pow2(9) == 16 * Pow2(8);
      assert Pow2(8) == 2 * Pow2(7) == 4 * Pow2(6) == 8 * Pow2(5) == 16 * Pow2(4);
      assert Pow2(4) == 2 * Pow2(3) == 4 * Pow2(2) == 8 * Pow2(1) == 16 * Pow2(0);
    } else {
      Pow2Pages(n - 1);
    }
  }

  /** A device untyped of at least a page that holds all of `[paddr, paddr + length)`. */
  predicate Covers(u: Untyped, paddr: nat, length: nat) {
    && u.device && 12 <= u.sizeBits < 64
    && u.paddr + Pow2(u.sizeBits) < USIZE_LIMIT
    && u.paddr <= paddr && paddr + length <= u.paddr + Pow2(u.sizeBits)
  }

  function PagesOf(u: Untyped): nat {
    Pow2(u.sizeBits) / PAGE
  }

  /** As a region, a covering untyped is whole pages and contains the page. */
  lemma CoverHolds(u: Untyped, page: nat)
    requires Covers(u, page, PAGE)
    ensures PagesOf(u) > 0 && u.paddr + PagesOf(u) * PAGE < USIZE_LIMIT
    ensures u.paddr <= page < u.paddr + PagesOf(u) * PAGE
  {
    Pow2Pages(u.sizeBits - 12);
  }

  ghost predicate OnlyCover(us: seq<Untyped>, k: nat, paddr: nat, length: nat) {
    && k < |us| && Covers(us[k], paddr, length)
    && forall j :: 0 <= j < |us| && j != k ==> !Covers(us[j], paddr, length)
  }

  /** The index of the one device untyped that covers a page-aligned range. */
  method UniqueDeviceUntyped(us: seq<Untyped>, paddr: nat, length: nat) returns (k: Option<nat>)
    ensures k.Some? ==> length > 0 && paddr % PAGE == 0 && OnlyCover(us, k.value, paddr, length)
    ensures k.None? && length > 0 && paddr % PAGE == 0 && paddr + length < USIZE_LIMIT ==>
              forall j :: 0 <= j < |us| ==> !OnlyCover(us, j, paddr, length)
  {
    if paddr + length >= USIZE_LIMIT || length == 0 || paddr % PAGE != 0 {
      return None;
    }
    k := None;
    var i := 0;
    while i < |us|
      invariant 0 <= i <= |us|
      invariant k.None? ==> forall j :: 0 <= j < i ==> !Covers(us[j], paddr, length)
      invariant k.Some? ==> k.value < i && Covers(us[k.value], paddr, length)
      invariant k.Some? ==> forall j :: 0 <= j < i && j != k.value ==> !Covers(us[j], paddr, length)
    {
      if Covers(us[i], paddr, length) {
        if k.Some? {
          return None;
        }
        k := Some(i);
      }
      i := i + 1;
    }
  }

  // ----- the region table -----

  /** A claimed region: page-aligned, nonempty, every page held and mapped in its window. */
  ghost predicate RegionHeld(w: World, r: Region) {
    && r.pages > 0 && r.paddr % PAGE == 0 && r.End().Some? && r.validationVa % PAGE == 0
    && forall k :: 0 <= k < r.pages ==> PageHeld(w, r, k)
  }

  function TotalPages(rs: seq<Region>): nat {
    if rs == [] then 0 else TotalPages(rs[..|rs| - 1]) + rs[|rs| - 1].pages
  }

  /** The windows of the regions are disjoint, in order, and fill `pages` pages from `base`. */
  ghost predicate Tiled(rs: seq<Region>, base: nat, pages: nat) {
    && TotalPages(rs) == pages
    && (forall k :: 0 <= k < |rs| ==> base <= rs[k].validationVa && WindowEnd(rs[k]) <= base + pages * PAGE)
    && (forall j, k :: 0 <= j < k < |rs| ==> WindowEnd(rs[j]) <= rs[k].validationVa)
  }

  lemma TiledPush(rs: seq<Region>, base: nat, pages: nat, r: Region)
    requires Tiled(rs, base, pages) && r.validationVa == base + pages * PAGE
    ensures Tiled(rs + [r], base, pages + r.pages)
  {
    assert (rs + [r])[..|rs|] == rs;
  }

  lemma HeldKept(w: World, w': World, r: Region, lo: nat, hi: nat)
    requires RegionHeld(w, r) && Kept(w, w', lo, hi) && (WindowEnd(r) <= lo || hi <= r.validationVa)
    ensures RegionHeld(w', r)
  {
    forall k | 0 <= k < r.pages ensures PageHeld(w', r, k) {
      assert PageHeld(w, r, k) && FrameKept(w, w', r.frameBase + k);
    }
  }

  // ----- reading through the windows -----

  /** What the executive sees at `va`. */
  function VaByte(window: map<nat, nat>, phys: nat -> byte, va: nat): byte
    requires AlignDown(va, PAGE) in window
  {
    phys(window[AlignDown(va, PAGE)] + va % PAGE)
  }

  lemma PageSplit(base: nat, d: nat)
    requires base % PAGE == 0
    ensures AlignDown(base + d, PAGE) == base + d / PAGE * PAGE && (base + d) % PAGE == d % PAGE
  {
  }

  /** Inside a claimed region the window shows exactly the physical byte. */
  lemma WindowShows(w: World, r: Region, phys: nat -> byte, a: nat)
    requires RegionHeld(w, r) && r.Contains(a)
    ensures AlignDown(r.validationVa + (a - r.paddr), PAGE) in w.window
    ensures VaByte(w.window, phys, r.validationVa + (a - r.paddr)) == phys(a)
  {
    var d := a - r.paddr;
    PageSplit(r.validationVa, d);
    assert PageHeld(w, r, d / PAGE);
  }

  // ----- the reader -----

  /** All regions are held and their windows are the first pages of the reserved span. */
  ghost predicate TableOk(w: World, rs: seq<Region>, base: nat, pages: nat) {
    && WorldOk(w) && base % PAGE == 0 && pages <= MAX_CANONICAL_PAGES && Tiled(rs, base, pages)
    && forall k :: 0 <= k < |rs| ==> RegionHeld(w, rs[k])
  }

  lemma TableKept(w: World, w': World, rs: seq<Region>, base: nat, pages: nat, lo: nat, hi: nat)
    requires TableOk(w, rs, base, pages) && WorldOk(w') && Kept(w, w', lo, hi) && base + pages * PAGE <= lo
    ensures TableOk(w', rs, base, pages) && w.aliases <= w'.aliases && w.rootFrames <= w'.rootFrames
  {
    forall k | 0 <= k < |rs| ensures RegionHeld(w', rs[k]) {
      HeldKept(w, w', rs[k], lo, hi);
    }
  }

  lemma TablePush(w: World, rs: seq<Region>, base: nat, pages: nat, r: Region)
    requires TableOk(w, rs, base, pages) && RegionHeld(w, r) && r.validationVa == base + pages * PAGE
    requires pages + r.pages <= MAX_CANONICAL_PAGES
    ensures TableOk(w, rs + [r], base, pages + r.pages)
  {
    TiledPush(rs, base, pages, r);
  }

  /** The span reserved for every window a reader may need. */
  function WindowSpan(base: nat): Span {
    Span(RootSeed, base, MAX_CANONICAL_PAGES * PAGE)
  }

  class PhysicalReader {
    const owner: Owner
    const untypeds: seq<Untyped>
    const validationBase: nat
    var regions: seq<Region>
    var validationPages: nat
    var failure: Option<Status>

    ghost predicate Valid()
      reads this, owner
    {
      && owner.Valid() && TableOk(owner.Now(), regions, validationBase, validationPages)
      && WindowSpan(validationBase) in owner.spans
    }

    /** A reader over a reserved span of window addresses, with nothing claimed yet. */
    constructor (o: Owner, us: seq<Untyped>, base: nat)
      requires o.Valid() && base % PAGE == 0 && WindowSpan(base) in o.spans
      ensures Valid() && owner == o && untypeds == us && validationBase == base
      ensures regions == [] && validationPages == 0 && failure == None
    {
      owner, untypeds, validationBase := o, us, base;
      regions, validationPages, failure := [], 0, None;
    }

    /** The first failure is the one reported. */
    method Fail(status: Status)
      modifies this`failure
      ensures failure == if old(failure).Some? then old(failure) else Some(status)
    {
      if failure.None? {
        failure := Some(status);
      }
    }

    method FindRegion(page: nat) returns (r: Option<Region>)
      ensures r.Some? ==> r.value in regions && r.value.Contains(page)
      ensures r.None? ==> forall k :: 0 <= k < |regions| ==> !regions[k].Contains(page)
    {
      var i := 0;
      while i < |regions|
        invariant 0 <= i <= |regions|
        invariant forall k :: 0 <= k < i ==> !regions[k].Contains(page)
      {
        if regions[i].Contains(page) {
          return Some(regions[i]);
        }
        i := i + 1;
      }
      return None;
    }

    /** The region holding a page, claimed now if it is not yet. Whatever the kernel answers, no root slot is
        leaked or released twice, and a failed claim leaves the table and the window count as they were. */
    method ClaimPage(page: nat) returns (r: Result<Region>)
      requires Valid()
      modifies this, owner
      ensures Valid() && SameLoose(old(owner.place), owner.place)
      ensures r.Ok? ==> r.value in regions && r.value.Contains(page) && failure == old(failure)
      ensures r.Err? ==> regions == old(regions) && validationPages == old(validationPages)
      ensures r.Err? ==> failure == if old(failure).Some? then old(failure) else Some(r.status)
      ensures old(owner.aliases) <= owner.aliases && old(owner.rootFrames) <= owner.rootFrames
      ensures owner.spans == old(owner.spans)
      ensures old(regions) <= regions
      ensures old(Claimed(regions, page)) ==> r.Ok? && regions == old(regions)
      ensures !old(Claimed(regions, page))
              && (forall j :: 0 <= j < |untypeds| ==> !OnlyCover(untypeds, j, page, PAGE)) ==>
                r == Err(ConflictingAddresses)
      ensures r != Err(InvalidParameter)
    {
      var known := FindRegion(page);
      if known.Some? {
        return Ok(known.value);
      }
      var u := UniqueDeviceUntyped(untypeds, page, PAGE);
      if u.None? {
        Fail(ConflictingAddresses);
        return Err(ConflictingAddresses);
      }
      var d := untypeds[u.value];
      var pages := PagesOf(d);
      CoverHolds(d, page);
      if validationPages + pages > MAX_CANONICAL_PAGES {
        Fail(InsufficientResources);
        return Err(InsufficientResources);
      }
      r := ClaimRegion(d.paddr, pages);
      if r.Err? {
        Fail(r.status);
      }
    }

    /** Reserve room, take a run of slots and claim every page of the region into the next window. */
    method ClaimRegion(paddr: nat, pages: nat) returns (r: Result<Region>)
      requires Valid() && pages > 0 && validationPages + pages <= MAX_CANONICAL_PAGES
      requires paddr + pages * PAGE < USIZE_LIMIT
      modifies this`regions, this`validationPages, owner
      ensures Valid() && SameLoose(old(owner.place), owner.place)
      ensures r.Ok? ==> regions == old(regions) + [r.value] && validationPages == old(validationPages) + pages
      ensures r.Ok? ==> r.value.paddr == paddr && r.value.pages == pages
      ensures r.Err? ==> regions == old(regions) && validationPages == old(validationPages)
      ensures old(owner.aliases) <= owner.aliases && old(owner.rootFrames) <= owner.rootFrames
      ensures owner.spans == old(owner.spans)
      ensures r != Err(InvalidParameter)
    {
      ghost var w0 := owner.Now();
      var base := owner.TakeRun(pages, pages, pages);
      if base.None? {
        assert owner.Now() == w0;
        return Err(InsufficientResources);
      }
      assert owner.Now() == w0.(place := WithRun(w0.place, base.value, pages));
      var claimed := Region(paddr, pages, base.value, validationBase + validationPages * PAGE);
      var err := FillRegion(claimed, w0);
      if err.Some? {
        return Err(err.value);
      }
      regions, validationPages := regions + [claimed], validationPages + pages;
      return Ok(claimed);
    }

    /** Claim the pages of a region whose run of slots was just taken. */
    method FillRegion(r: Region, ghost w0: World) returns (err: Option<Status>)
      requires owner.Valid() && TableOk(w0, regions, validationBase, validationPages)
      requires r.pages > 0 && validationPages + r.pages <= MAX_CANONICAL_PAGES && r.paddr + r.pages * PAGE < USIZE_LIMIT
      requires r.validationVa == validationBase + validationPages * PAGE
      requires forall s :: r.frameBase <= s < r.frameBase + r.pages ==> s !in w0.place
      requires owner.Now() == w0.(place := WithRun(w0.place, r.frameBase, r.pages))
      requires |owner.rootFrames| + r.pages <= owner.frameRoom && |owner.aliases| + r.pages <= owner.aliasRoom
      modifies owner
      ensures owner.Valid() && SameLoose(w0.place, owner.place) && err != Some(InvalidParameter)
      ensures w0.aliases <= owner.aliases && w0.rootFrames <= owner.rootFrames && owner.spans == old(owner.spans)
      ensures err.None? ==> TableOk(owner.Now(), regions + [r], validationBase, validationPages + r.pages)
      ensures err.Some? ==> TableOk(owner.Now(), regions, validationBase, validationPages)
    {
      var cp := owner.Here();
      StartsClaiming(w0, owner.Now(), r);
      err := ClaimFrames(owner, r, cp, w0);
      if err.Some? {
        TableKept(w0, owner.Now(), regions, validationBase, validationPages, r.validationVa, WindowEnd(r));
      } else {
        ClaimCompletes(w0, owner.Now(), regions, validationBase, validationPages, r);
      }
    }

    /** Claim every page a range touches. A malformed range is refused before anything is claimed, and so is
        one the normaliser has no memory for; neither records a status. */
    method RetainRange(range: Range) returns (err: Option<AcpiError>)
      requires Valid()
      modifies this, owner
      ensures Valid() && SameLoose(old(owner.place), owner.place) && old(regions) <= regions
      ensures err.None? ==> forall a: nat :: SharesPage(range, a) ==> Claimed(regions, a)
      ensures err == Some(InvalidLength) ==> Malformed(range)
      ensures Malformed(range) ==> err.Some? && err.value in {InvalidLength, Allocation}
      ensures err.Some? && err.value in {InvalidLength, Allocation} ==>
                failure == old(failure) && regions == old(regions) && owner.Now() == old(owner.Now())
      ensures err == Some(PhysicalRead) ==> failure.Some?
    {
      var normalized := Normalize([range]);
      assert [range][0] == range;
      if normalized.Failed? {
        return Some(normalized.error);
      }
      var pages := normalized.value[0];
      err := RetainPages(pages.start, pages.End());
      if err.None? {
        OneRange(range, normalized.value, regions);
      }
    }

    /** Claim the whole pages from `start` to `end`. */
    method RetainPages(start: nat, end: nat) returns (err: Option<AcpiError>)
      requires Valid() && start <= end
      modifies this, owner
      ensures Valid() && SameLoose(old(owner.place), owner.place) && old(regions) <= regions
      ensures err.None? ==> AllClaimed(regions, start, end)
      ensures err.Some? ==> err == Some(PhysicalRead) && failure.Some?
    {
      var page := start;
      while page < end
        invariant Valid() && SameLoose(old(owner.place), owner.place) && old(regions) <= regions
        invariant start <= page <= end && AllClaimed(regions, start, page)
      {
        ghost var before := regions;
        var r := ClaimPage(page);
        if r.Err? {
          return Some(PhysicalRead);
        }
        CoverageGrows(before, regions, start, page, r.value, Min(r.value.End().value, end));
        page := Min(r.value.End().value, end);
      }
      return None;
    }

    /** The physical bytes of a range, however it is split over regions. */
    method Read(address: nat, length: nat, phys: nat -> byte) returns (bytes: Option<Bytes>)
      requires Valid()
      modifies this, owner
      ensures Valid() && SameLoose(old(owner.place), owner.place) && old(regions) <= regions
      ensures bytes.Some? ==> |bytes.value| == length && Shows(bytes.value, address, phys)
      ensures bytes.None? ==> failure.Some? || address + length >= USIZE_LIMIT
    {
      if length == 0 {
        return Some([]);
      }
      if address + length >= USIZE_LIMIT {
        return None;
      }
      var reserved: bool := *;
      if !reserved {
        Fail(InsufficientResources);
        return None;
      }
      var end, current, data := address + length, address, [];
      while current < end
        invariant Valid() && SameLoose(old(owner.place), owner.place) && old(regions) <= regions
        invariant address <= current <= end && |data| == current - address && Shows(data, address, phys)
      {
        var chunk := ReadChunk(current, end, phys);
        if chunk.None? {
          return None;
        }
        ShowsMore(data, chunk.value, address, phys);
        data := data + chunk.value;
        current := current + |chunk.value|;
      }
      return Some(data);
    }

    /** The bytes of the range that lie in one region. */
    method ReadChunk(current: nat, end: nat, phys: nat -> byte) returns (chunk: Option<Bytes>)
      requires Valid() && current < end
      modifies this, owner
      ensures Valid() && SameLoose(old(owner.place), owner.place) && old(regions) <= regions
      ensures chunk.Some? ==> 0 < |chunk.value| <= end - current && Shows(chunk.value, current, phys)
      ensures chunk.None? ==> failure.Some?
    {
      var r := ClaimPage(AlignDown(current, PAGE));
      if r.Err? {
        return None;
      }
      HoldsWholePage(owner.Now(), regions, validationBase, validationPages, r.value, current);
      var data := CopyOut(r.value, current, Min(r.value.End().value, end), phys);
      return Some(data);
    }

    /** The bytes of one region's window. */
    method CopyOut(r: Region, from: nat, to: nat, phys: nat -> byte) returns (data: Bytes)
      requires RegionHeld(owner.Now(), r) && from <= to && forall a :: from <= a < to ==> r.Contains(a)
      ensures |data| == to - from && Shows(data, from, phys)
    {
      data := [];
      var source := r.validationVa + from - r.paddr;
      var i := 0;
      while i < to - from
        invariant 0 <= i <= to - from && |data| == i && Shows(data, from, phys)
      {
        assert r.Contains(from + i);
        WindowShows(owner.Now(), r, phys, from + i);
        data := data + [VaByte(owner.window, phys, source + i)];
        i := i + 1;
      }
    }
  }

  /** A reader with a span for all its windows reserved in the ledger. */
  method OpenReader(o: Owner, us: seq<Untyped>) returns (reader: Option<PhysicalReader>)
    requires o.Valid()
    modifies o`spans
    ensures o.Valid() && (reader.None? ==> o.spans == old(o.spans))
    ensures reader.Some? ==>
              fresh(reader.value) && reader.value.Valid() && reader.value.owner == o && reader.value.untypeds == us
    ensures reader.Some? ==> reader.value.regions == [] && reader.value.failure == None
    ensures reader.Some? ==> o.spans == old(o.spans) + [WindowSpan(reader.value.validationBase)]
  {
    var base := o.ReserveSpan(RootSeed, MAX_CANONICAL_PAGES * PAGE);
    if base.None? {
      return None;
    }
    assert o.spans[|o.spans| - 1] == WindowSpan(base.value);
    var r := new PhysicalReader(o, us, base.value);
    return Some(r);
  }

  /** `data` is physical memory from `address` on. */
  ghost predicate Shows(data: Bytes, address: nat, phys: nat -> byte) {
    forall i :: 0 <= i < |data| ==> data[i] == phys(address + i)
  }

  lemma ShowsMore(data: Bytes, more: Bytes, address: nat, phys: nat -> byte)
    requires Shows(data, address, phys) && Shows(more, address + |data|, phys)
    ensures Shows(data + more, address, phys)
  {
    forall i | |data| <= i < |data + more| ensures (data + more)[i] == phys(address + i) {
      assert more[i - |data|] == phys(address + |data| + (i - |data|));
    }
  }

  /** A region that contains a page contains every address of it. */
  lemma HoldsWholePage(w: World, rs: seq<Region>, base: nat, pages: nat, r: Region, a: nat)
    requires TableOk(w, rs, base, pages) && r in rs && r.Contains(AlignDown(a, PAGE))
    ensures RegionHeld(w, r) && r.Contains(a)
  {
    var k :| 0 <= k < |rs| && rs[k] == r;
    assert RegionHeld(w, rs[k]);
  }

  /** Some region contains `a`. */
  ghost predicate Claimed(rs: seq<Region>, a: nat) {
    exists k :: 0 <= k < |rs| && rs[k].Contains(a)
  }

  ghost predicate AllClaimed(rs: seq<Region>, start: nat, end: nat) {
    forall a :: start <= a < end ==> Claimed(rs, a)
  }

  lemma OneRange(range: Range, pages: seq<Range>, rs: seq<Region>)
    requires |pages| == 1 && AllClaimed(rs, pages[0].start, pages[0].End())
    requires forall a: nat :: Covered(pages, a) <==> Touched([range], a)
    ensures forall a: nat :: SharesPage(range, a) ==> Claimed(rs, a)
  {
    forall a: nat | SharesPage(range, a) ensures Claimed(rs, a) {
      assert SharesPage([range][0], a) && Touched([range], a);
    }
  }

  lemma CoverageGrows(rs: seq<Region>, rs': seq<Region>, start: nat, page: nat, r: Region, next: nat)
    requires rs <= rs' && r in rs' && r.Contains(page) && next <= r.End().value
    requires AllClaimed(rs, start, page)
    ensures AllClaimed(rs', start, next)
  {
    var n :| 0 <= n < |rs'| && rs'[n] == r;
    forall a | start <= a < next ensures Claimed(rs', a) {
      if a < page {
        assert Claimed(rs, a);
        var k :| 0 <= k < |rs| && rs[k].Contains(a);
        assert rs'[k] == rs[k];
      } else {
        assert rs'[n].Contains(a);
      }
    }
  }

  /** Once the ledger is back where it was, so are the slots: everything taken in between was released. */
  lemma LedgerDeterminesSlots(w: World, w': World)
    requires WorldOk(w) && WorldOk(w') && SameLoose(w.place, w'.place)
    requires w.aliases == w'.aliases && w.rootFrames == w'.rootFrames
    ensures w.place == w'.place
  {
    forall s ensures s in w.place <==> s in w'.place {
      SlotInBoth(w, w', s);
      SlotInBoth(w', w, s);
    }
    forall s | s in w.place ensures s in w'.place && w.place[s] == w'.place[s] {
      SlotInBoth(w, w', s);
    }
  }

  lemma SlotInBoth(w: World, w': World, s: nat)
    requires WorldOk(w) && WorldOk(w') && SameLoose(w.place, w'.place)
    requires w.aliases == w'.aliases && w.rootFrames == w'.rootFrames
    ensures s in w.place ==> s in w'.place && w'.place[s] == w.place[s]
  {
    if s in w.place {
      assert Holder(w.place[s], s, w.aliases, w.rootFrames);
      match w.place[s]
      case Loose => assert LooseIn(w.place, s) <==> LooseIn(w'.place, s);
      case InAlias(i) => assert AliasHeld(w'.aliases, w'.place, w'.mappedAt, i);
      case InFrame(j) => assert FrameHeld(w'.rootFrames, w'.place, j);
    }
  }

  lemma StartsClaiming(w0: World, w: World, r: Region)
    requires WorldOk(w0) && w == w0.(place := WithRun(w0.place, r.frameBase, r.pages))
    requires forall s :: r.frameBase <= s < r.frameBase + r.pages ==> s !in w0.place
    ensures Claiming(w0, w, r, 0)
  {
    forall s | s in w0.place && w0.place[s] != Loose ensures FrameKept(w0, w, s) {
    }
    forall s ensures LooseIn(w.place, s) <==> LooseIn(w0.place, s) || r.frameBase <= s < r.frameBase + r.pages {
    }
    assert r.frameBase + 0 == r.frameBase;
  }

  /** A finished claim extends the table by its region and leaves no slot of its run loose. */
  lemma ClaimCompletes(w0: World, w: World, rs: seq<Region>, base: nat, pages: nat, r: Region)
    requires TableOk(w0, rs, base, pages) && WorldOk(w) && Claiming(w0, w, r, r.pages)
    requires r.pages > 0 && r.paddr % PAGE == 0 && r.paddr + r.pages * PAGE < USIZE_LIMIT
    requires r.validationVa == base + pages * PAGE && pages + r.pages <= MAX_CANONICAL_PAGES
    ensures TableOk(w, rs + [r], base, pages + r.pages) && SameLoose(w0.place, w.place)
    ensures w0.aliases <= w.aliases && w0.rootFrames <= w.rootFrames
  {
    TableKept(w0, w, rs, base, pages, r.validationVa, WindowEnd(r));
    TablePush(w, rs, base, pages, r);
    LooseNone(w0.place, w.place, r.frameBase + r.pages);
  }

  lemma LooseNone(p: Places, q: Places, first: nat)
    requires LooseBeside(p, q, first, 0)
    ensures SameLoose(p, q)
  {
  }
}
