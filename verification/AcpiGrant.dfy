/** Memory authority handed to the ACPI component: copies of the canonical frames in a run of root slots, and
    a broker mapping of the same pages. */
module AcpiGrant {
  import opened Words
  import opened Sizes
  import opened SlotLedger
  import opened AcpiAuthority
  import opened AcpiReader
  import opened PhysicalRanges

  /** Region `k` is the only one that contains `a`. */
  ghost predicate OnlyContains(rs: seq<Region>, k: nat, a: nat) {
    k < |rs| && rs[k].Contains(a) && forall j :: 0 <= j < |rs| && j != k ==> !rs[j].Contains(a)
  }

  /** The frame of a physical address, if exactly one region contains it. */
  method CanonicalFrameFor(rs: seq<Region>, paddr: nat) returns (frame: Option<nat>, ghost k: nat)
    ensures frame.Some? ==> OnlyContains(rs, k, paddr) && frame == rs[k].FrameFor(paddr)
    ensures frame.None? ==> forall j :: 0 <= j < |rs| ==> !OnlyContains(rs, j, paddr)
  {
    frame, k := None, 0;
    var i := 0;
    while i < |rs|
      invariant 0 <= i <= |rs|
      invariant frame.None? ==> forall j :: 0 <= j < i ==> !rs[j].Contains(paddr)
      invariant frame.Some? ==> k < i && rs[k].Contains(paddr) && frame == rs[k].FrameFor(paddr)
      invariant frame.Some? ==> forall j :: 0 <= j < i && j != k ==> !rs[j].Contains(paddr)
    {
      var found := rs[i].FrameFor(paddr);
      if found.Some? {
        if frame.Some? {
          return None, 0;
        }
        frame, k := found, i;
      }
      i := i + 1;
    }
  }

  /** The frame found for a page is a capability for that page, held by the ledger. */
  lemma CanonicalIsPage(w: World, r: Region, paddr: nat)
    requires RegionHeld(w, r) && r.Contains(paddr) && paddr % PAGE == 0
    ensures var frame := r.FrameFor(paddr).value;
            frame in w.place && w.place[frame].InFrame? && frame in w.frames && w.frames[frame] == paddr
  {
    assert PageHeld(w, r, (paddr - r.paddr) / PAGE);
  }

  /** A grant in the making: `pages` pages from `start`, copied into slots from `frameBase` and mapped from
      `brokerVa`. */
  datatype Grant = Grant(start: nat, pages: nat, frameBase: nat, brokerVa: nat)

  function BrokerEnd(g: Grant): nat {
    g.brokerVa + g.pages * PAGE
  }

  function BrokerSpan(g: Grant): Span {
    Span(RootSeed, g.brokerVa, g.pages * PAGE)
  }

  /** Nothing but the grant's own broker addresses changed since `w0`. */
  ghost predicate KeptBeside(w0: World, w: World, g: Grant) {
    Kept(w0, w, g.brokerVa, BrokerEnd(g))
  }

  ghost predicate GrantHeld(w: World, g: Grant, k: nat) {
    var slot, va, page := g.frameBase + k, g.brokerVa + k * PAGE, g.start + k * PAGE;
    && slot in w.place && w.place[slot].InAlias?
    && slot in w.frames && w.frames[slot] == page
    && va in w.window && w.window[va] == page
  }

  /** The first `n` pages are granted since `w0` and the rest of the run is still loose. */
  ghost predicate Granting(w0: World, w: World, g: Grant, n: nat) {
    && n <= g.pages && KeptBeside(w0, w, g)
    && |w.aliases| == |w0.aliases| + 2 * n
    && MappedWithin(w.aliases, w.mappedAt, |w0.aliases|, g.brokerVa, BrokerEnd(g))
    && LooseBeside(w0.place, w.place, g.frameBase + n, g.pages - n)
    && forall k :: 0 <= k < n ==> GrantHeld(w, g, k)
  }

  /** `source` now holds a copy of the frame's capability, owned as an unmapped alias. */
  ghost predicate Sourced(w: World, w': World, frame: nat, source: nat, va: nat) {
    && OneAlias(w, w', va) && |w'.aliases| == |w.aliases| + 1 && w'.rootFrames == w.rootFrames
    && SlotsKept(w, w', {source}) && w'.window == w.window
    && (forall s :: LooseIn(w'.place, s) <==> LooseIn(w.place, s) && s != source)
    && source in w'.place && w'.place[source].InAlias?
    && frame in w.frames && source in w'.frames && w'.frames[source] == w.frames[frame]
  }

  method CopySource(owner: Owner, frame: nat, source: nat, ghost va: nat) returns (ok: bool)
    requires owner.Valid() && frame in owner.frames && frame in owner.place && owner.IsLoose(source)
    requires |owner.aliases| < owner.aliasRoom
    modifies owner`aliases, owner`place, owner`frames
    ensures owner.Valid()
    ensures !ok ==> owner.Now() == old(owner.Now())
    ensures ok ==> Sourced(old(owner.Now()), owner.Now(), frame, source, va)
  {
    ghost var w := owner.Now();
    ok := owner.CopyCapInto(frame, source);
    if ok {
      owner.AdoptAlias(source, false);
      SourceMade(w, owner.Now(), frame, source, va);
    }
  }

  lemma SourceMade(w: World, w': World, frame: nat, source: nat, va: nat)
    requires frame in w.frames && LooseIn(w.place, source)
    requires w' == w.(aliases := w.aliases + [Owned(source, false)], frames := w.frames[source := w.frames[frame]],
                      place := w.place[source := InAlias(|w.aliases|)])
    ensures Sourced(w, w', frame, source, va)
  {
    forall s | s in w.place ensures SlotKept(w, w', {source}, s) {
    }
    forall s ensures LooseIn(w'.place, s) <==> LooseIn(w.place, s) && s != source {
    }
  }

  /** What is known after a page failed: nothing kept is disturbed and the unadopted slots are still loose. */
  ghost predicate Failing(w0: World, w: World, g: Grant, done: nat) {
    && done <= g.pages && KeptBeside(w0, w, g)
    && MappedWithin(w.aliases, w.mappedAt, |w0.aliases|, g.brokerVa, BrokerEnd(g))
    && LooseBeside(w0.place, w.place, g.frameBase + done, g.pages - done)
  }

  lemma SourceStep(w0: World, w: World, w': World, g: Grant, n: nat, frame: nat)
    requires WorldOk(w) && Granting(w0, w, g, n) && n < g.pages
    requires Sourced(w, w', frame, g.frameBase + n, g.brokerVa + n * PAGE)
    ensures Failing(w0, w', g, n + 1)
    ensures forall k :: 0 <= k < n ==> GrantHeld(w', g, k)
  {
    var va, source := g.brokerVa + n * PAGE, g.frameBase + n;
    assert LooseIn(w.place, source);
    StepMapped(w0, w, w', {source}, va, g.brokerVa, BrokerEnd(g));
    StepKept(w0, w, w', {source}, va, g.brokerVa, BrokerEnd(g));
    StepLoose(w0.place, w.place, w'.place, source, g.pages - n, true);
    forall k | 0 <= k < n ensures GrantHeld(w', g, k) {
      assert GrantHeld(w, g, k) && SlotKept(w, w', {source}, g.frameBase + k);
    }
  }

  lemma AliasStep(w0: World, w: World, w': World, g: Grant, n: nat, frame: nat, ok: bool)
    requires WorldOk(w) && Failing(w0, w, g, n + 1) && n < g.pages
    requires |w.aliases| == |w0.aliases| + 2 * n + 1
    requires forall k :: 0 <= k < n ==> GrantHeld(w, g, k)
    requires Aliased(w, w', frame, g.brokerVa + n * PAGE, ok)
    requires g.frameBase + n in w.place && w.place[g.frameBase + n].InAlias? && g.frameBase + n in w.frames
    requires w.frames[g.frameBase + n] == g.start + n * PAGE
    requires frame in w.frames && w.frames[frame] == g.start + n * PAGE
    ensures Failing(w0, w', g, n + 1)
    ensures ok ==> Granting(w0, w', g, n + 1)
  {
    var va := g.brokerVa + n * PAGE;
    StepMapped(w0, w, w', {}, va, g.brokerVa, BrokerEnd(g));
    StepKept(w0, w, w', {}, va, g.brokerVa, BrokerEnd(g));
    forall s
      ensures LooseIn(w'.place, s) <==> LooseIn(w0.place, s) || g.frameBase + n + 1 <= s < g.frameBase + g.pages
    {
      assert LooseIn(w'.place, s) <==> LooseIn(w.place, s);
    }
    if ok {
      forall k | 0 <= k < n + 1 ensures GrantHeld(w', g, k) {
        assert SlotKept(w, w', {}, g.frameBase + n);
        assert k < n ==> GrantHeld(w, g, k) && SlotKept(w, w', {}, g.frameBase + k);
      }
    }
  }

  /** Every region is held, with its window in the span `v` of the executive's addresses. */
  ghost predicate AllHeld(w: World, rs: seq<Region>, v: Span) {
    && v.pool == RootSeed
    && forall k :: 0 <= k < |rs| ==>
         RegionHeld(w, rs[k]) && v.base <= rs[k].validationVa && WindowEnd(rs[k]) <= v.base + v.bytes
  }

  /** The regions of a reader are held, with their windows in the span it reserved. */
  lemma TableHeld(w: World, rs: seq<Region>, base: nat, pages: nat)
    requires TableOk(w, rs, base, pages)
    ensures AllHeld(w, rs, WindowSpan(base))
  {
    forall k | 0 <= k < |rs| ensures RegionHeld(w, rs[k]) && WindowEnd(rs[k]) <= base + MAX_CANONICAL_PAGES * PAGE {
      assert RegionHeld(w, rs[k]);
    }
  }

  lemma AllKept(w: World, w': World, rs: seq<Region>, v: Span, g: Grant)
    requires AllHeld(w, rs, v) && KeptBeside(w, w', g) && Apart(v, BrokerSpan(g))
    ensures AllHeld(w', rs, v)
  {
    forall k | 0 <= k < |rs| ensures RegionHeld(w', rs[k]) {
      HeldKept(w, w', rs[k], g.brokerVa, BrokerEnd(g));
    }
  }

  /** Exactly one region contains the address. */
  ghost predicate Canonical(rs: seq<Region>, paddr: nat) {
    exists k :: 0 <= k < |rs| && OnlyContains(rs, k, paddr)
  }

  ghost predicate AllCanonical(rs: seq<Region>, start: nat, pages: nat) {
    forall k :: 0 <= k < pages ==> CanonicalPage(rs, start, k)
  }

  ghost predicate CanonicalPage(rs: seq<Region>, start: nat, k: nat) {
    Canonical(rs, start + k * PAGE)
  }

  /** The capability for a page, if exactly one region contains it. */
  method FrameOfPage(owner: Owner, rs: seq<Region>, paddr: nat, ghost v: Span) returns (frame: Option<nat>)
    requires AllHeld(owner.Now(), rs, v) && paddr % PAGE == 0
    ensures frame.Some? ==>
              frame.value in owner.place && frame.value in owner.frames && owner.frames[frame.value] == paddr
    ensures frame.Some? ==> owner.place[frame.value].InFrame?
    ensures frame.Some? <==> Canonical(rs, paddr)
  {
    ghost var k;
    frame, k := CanonicalFrameFor(rs, paddr);
    if frame.Some? {
      assert OnlyContains(rs, k, paddr);
      CanonicalIsPage(owner.Now(), rs[k], paddr);
    }
  }

  /** Grant page `n`, or fail with `done` slots of the run adopted. */
  method GrantPage(owner: Owner, rs: seq<Region>, g: Grant, n: nat, ghost w0: World, ghost v: Span)
    returns (err: Option<Status>, done: nat)
    requires owner.Valid() && Granting(w0, owner.Now(), g, n) && n < g.pages
    requires AllHeld(w0, rs, v) && Apart(v, BrokerSpan(g)) && g.start % PAGE == 0
    requires |owner.aliases| + 2 <= owner.aliasRoom
    modifies owner`aliases, owner`place, owner`frames, owner`window, owner`mappedAt
    ensures owner.Valid()
    ensures err.None? ==> Granting(w0, owner.Now(), g, n + 1)
    ensures err.Some? ==> Failing(w0, owner.Now(), g, done)
    ensures err == Some(ConflictingAddresses) <==> !CanonicalPage(rs, g.start, n)
    ensures err != Some(InvalidParameter)
  {
    AllKept(w0, owner.Now(), rs, v, g);
    var frame := FrameOfPage(owner, rs, g.start + n * PAGE, v);
    if frame.None? {
      return Some(ConflictingAddresses), n;
    }
    var copied := GrantSource(owner, g, n, frame.value, w0);
    if !copied {
      return Some(Unsuccessful), n;
    }
    err := GrantMapping(owner, g, n, frame.value, w0);
    return err, n + 1;
  }

  /** Copy the capability of page `n` into its slot of the run. */
  method GrantSource(owner: Owner, g: Grant, n: nat, frame: nat, ghost w0: World) returns (ok: bool)
    requires owner.Valid() && Granting(w0, owner.Now(), g, n) && n < g.pages
    requires frame in owner.place && owner.place[frame].InFrame? && frame in owner.frames
    requires |owner.aliases| < owner.aliasRoom
    modifies owner`aliases, owner`place, owner`frames
    ensures owner.Valid()
    ensures !ok ==> owner.Now() == old(owner.Now())
    ensures ok ==>
              && Failing(w0, owner.Now(), g, n + 1) && |owner.aliases| == |w0.aliases| + 2 * n + 1
              && (forall k :: 0 <= k < n ==> GrantHeld(owner.Now(), g, k))
              && g.frameBase + n in owner.place && owner.place[g.frameBase + n].InAlias?
              && g.frameBase + n in owner.frames && owner.frames[g.frameBase + n] == old(owner.frames)[frame]
              && frame in owner.place && frame in owner.frames && owner.frames[frame] == old(owner.frames)[frame]
  {
    ghost var w, source, va := owner.Now(), g.frameBase + n, g.brokerVa + n * PAGE;
    NextLoose(w0.place, owner.place, source, g.pages - n);
    ok := CopySource(owner, frame, g.frameBase + n, va);
    if ok {
      SourceStep(w0, w, owner.Now(), g, n, frame);
      SourcedFrame(w, owner.Now(), frame, source, va);
    }
  }

  lemma SourcedFrame(w: World, w': World, frame: nat, source: nat, va: nat)
    requires Sourced(w, w', frame, source, va) && frame in w.place && !LooseIn(w.place, frame)
             && LooseIn(w.place, source)
    ensures frame in w'.place && frame in w'.frames && w'.frames[frame] == w.frames[frame]
  {
    assert SlotKept(w, w', {source}, frame);
  }

  /** Map the page whose capability was just copied for the broker. */
  method GrantMapping(owner: Owner, g: Grant, n: nat, frame: nat, ghost w0: World) returns (err: Option<Status>)
    requires owner.Valid() && Failing(w0, owner.Now(), g, n + 1) && n < g.pages
    requires |owner.aliases| == |w0.aliases| + 2 * n + 1 < owner.aliasRoom
    requires forall k :: 0 <= k < n ==> GrantHeld(owner.Now(), g, k)
    requires g.frameBase + n in owner.place && owner.place[g.frameBase + n].InAlias?
    requires g.frameBase + n in owner.frames && owner.frames[g.frameBase + n] == g.start + n * PAGE
    requires frame in owner.place && frame in owner.frames && owner.frames[frame] == g.start + n * PAGE
    modifies owner`aliases, owner`place, owner`frames, owner`window, owner`mappedAt
    ensures owner.Valid() && Failing(w0, owner.Now(), g, n + 1)
    ensures err.None? ==> Granting(w0, owner.Now(), g, n + 1)
    ensures err.Some? ==> err.value in {InsufficientResources, Unsuccessful}
  {
    ghost var w := owner.Now();
    err := MapAlias(owner, frame, g.brokerVa + n * PAGE);
    AliasStep(w0, w, owner.Now(), g, n, frame, err.None?);
  }

  /** Grant every page, or give everything back. */
  method GrantPages(owner: Owner, rs: seq<Region>, g: Grant, cp: Checkpoint, ghost w0: World, ghost v: Span)
    returns (err: Option<Status>)
    requires owner.Valid() && WorldOk(w0) && Granting(w0, owner.Now(), g, 0)
    requires AllHeld(w0, rs, v) && Apart(v, BrokerSpan(g)) && g.start % PAGE == 0
    requires cp.aliases == |w0.aliases| && cp.rootFrames == |w0.rootFrames| && cp.spans <= |owner.spans|
    requires |w0.aliases| + 2 * g.pages <= owner.aliasRoom
    modifies owner
    ensures owner.Valid()
    ensures err.None? ==> Granting(w0, owner.Now(), g, g.pages) && AllCanonical(rs, g.start, g.pages)
    ensures err.None? ==> owner.spans == old(owner.spans)
    ensures err.Some? ==> KeptBeside(w0, owner.Now(), g) && SameLoose(w0.place, owner.place)
    ensures err.Some? ==> cp.spans <= |owner.spans| && owner.spans <= old(owner.spans)
    ensures err == Some(ConflictingAddresses) ==> !AllCanonical(rs, g.start, g.pages)
    ensures err != Some(InvalidParameter)
  {
    var page := 0;
    while page < g.pages
      invariant 0 <= page <= g.pages && owner.Valid() && Granting(w0, owner.Now(), g, page)
      invariant |w0.aliases| + 2 * g.pages <= owner.aliasRoom && AllCanonical(rs, g.start, page)
      invariant owner.spans == old(owner.spans)
    {
      err := GrantNext(owner, rs, g, page, cp, w0, v);
      CanonicalStep(rs, g, page);
      if err.Some? {
        return;
      }
      page := page + 1;
    }
    return None;
  }

  lemma CanonicalStep(rs: seq<Region>, g: Grant, n: nat)
    requires n < g.pages && AllCanonical(rs, g.start, n)
    ensures CanonicalPage(rs, g.start, n) ==> AllCanonical(rs, g.start, n + 1)
    ensures !CanonicalPage(rs, g.start, n) ==> !AllCanonical(rs, g.start, g.pages)
  {
  }

  /** Grant page `n`, or give everything back. */
  method GrantNext(owner: Owner, rs: seq<Region>, g: Grant, n: nat, cp: Checkpoint, ghost w0: World, ghost v: Span)
    returns (err: Option<Status>)
    requires owner.Valid() && WorldOk(w0) && Granting(w0, owner.Now(), g, n) && n < g.pages
    requires AllHeld(w0, rs, v) && Apart(v, BrokerSpan(g)) && g.start % PAGE == 0
    requires cp.aliases == |w0.aliases| && cp.rootFrames == |w0.rootFrames| && cp.spans <= |owner.spans|
    requires |w0.aliases| + 2 * g.pages <= owner.aliasRoom
    modifies owner
    ensures owner.Valid()
    ensures err.None? ==> Granting(w0, owner.Now(), g, n + 1)
    ensures err.None? ==> owner.spans == old(owner.spans) && owner.aliasRoom == old(owner.aliasRoom)
    ensures err.Some? ==> KeptBeside(w0, owner.Now(), g) && SameLoose(w0.place, owner.place)
    ensures err.Some? ==> cp.spans <= |owner.spans| && owner.spans <= old(owner.spans)
    ensures err == Some(ConflictingAddresses) <==> !CanonicalPage(rs, g.start, n)
    ensures err != Some(InvalidParameter)
  {
    var done;
    err, done := GrantPage(owner, rs, g, n, w0, v);
    if err.Some? {
      Abandon(owner, g.frameBase + done, g.pages - done, cp, w0, g.brokerVa, BrokerEnd(g));
    }
  }

  // ----- one range -----

  datatype Authority = Authority(paddr: nat, length: nat, grant: Grant, componentVa: nat, brokerVa: nat)

  function ComponentSpan(a: Authority): Span {
    Span(Component, AlignDown(a.componentVa, PAGE), a.grant.pages * PAGE)
  }

  /** The range lies in the granted pages, and the broker address shows its first byte. */
  ghost predicate Authorised(w: World, a: Authority) {
    && a.grant.start <= a.paddr && a.paddr + a.length <= a.grant.start + a.grant.pages * PAGE
    && a.brokerVa - a.grant.brokerVa == a.paddr - a.grant.start < PAGE
    && forall k :: 0 <= k < a.grant.pages ==> GrantHeld(w, a.grant, k)
  }

  /** An authority whose two spans of addresses the ledger still holds. */
  ghost predicate Granted(w: World, spans: seq<Span>, a: Authority) {
    Authorised(w, a) && BrokerSpan(a.grant) in spans && ComponentSpan(a) in spans
  }

  /** Every authority granted before is granted still. */
  ghost predicate GrantsKept(w: World, spans: seq<Span>, w': World, spans': seq<Span>) {
    forall a {:trigger Granted(w', spans', a)} :: Granted(w, spans, a) ==> Granted(w', spans', a)
  }

  lemma StillGranted(w: World, spans: seq<Span>, w': World, spans': seq<Span>, g: Grant, a: Authority)
    requires KeptBeside(w, w', g) && ClearOf(spans, BrokerSpan(g)) && spans <= spans' && Granted(w, spans, a)
    ensures Granted(w', spans', a)
  {
    var i :| 0 <= i < |spans| && spans[i] == BrokerSpan(a.grant);
    assert Apart(spans[i], BrokerSpan(g));
    forall k | 0 <= k < a.grant.pages ensures GrantHeld(w', a.grant, k) {
      assert GrantHeld(w, a.grant, k) && FrameKept(w, w', a.grant.frameBase + k);
    }
    assert spans[i] == spans'[i];
    var j :| 0 <= j < |spans| && spans[j] == ComponentSpan(a);
    assert spans[j] == spans'[j];
  }

  lemma GrantsUndisturbed(w: World, spans: seq<Span>, w': World, spans': seq<Span>, g: Grant)
    requires KeptBeside(w, w', g) && ClearOf(spans, BrokerSpan(g)) && spans <= spans'
    ensures GrantsKept(w, spans, w', spans')
  {
    forall a | Granted(w, spans, a) ensures Granted(w', spans', a) {
      StillGranted(w, spans, w', spans', g, a);
    }
  }

  /** The whole pages a range touches, unless their number overflows. */
  function BackingPages(start: nat, length: nat): Option<nat> {
    if start % PAGE + length >= USIZE_LIMIT then None
    else match AlignUp(start % PAGE + length, PAGE)
      case None => None
      case Some(bytes) => Some(bytes / PAGE)
  }

  /** Regions stay held, the ledger's lists still start as they were, and earlier authorities stay granted. */
  ghost predicate Undisturbed(w: World, spans: seq<Span>, w': World, spans': seq<Span>, rs: seq<Region>, v: Span) {
    && AllHeld(w', rs, v) && w.aliases <= w'.aliases && w.rootFrames <= w'.rootFrames && spans <= spans'
    && GrantsKept(w, spans, w', spans')
  }

  lemma NothingDisturbed(w: World, spans: seq<Span>, w': World, spans': seq<Span>, rs: seq<Region>, v: Span, g: Grant)
    requires AllHeld(w, rs, v) && v in spans && KeptBeside(w, w', g) && ClearOf(spans, BrokerSpan(g)) && spans <= spans'
    ensures Undisturbed(w, spans, w', spans', rs, v)
  {
    var i :| 0 <= i < |spans| && spans[i] == v;
    assert Apart(spans[i], BrokerSpan(g));
    AllKept(w, w', rs, v, g);
    GrantsUndisturbed(w, spans, w', spans', g);
  }

  /** The grant of nothing: it writes no address. */
  const NO_GRANT := Grant(0, 0, 0, 0)

  lemma NothingTaken(w: World, spans: seq<Span>)
    ensures KeptBeside(w, w, NO_GRANT) && ClearOf(spans, BrokerSpan(NO_GRANT)) && LooseBeside(w.place, w.place, 0, 0)
    ensures MappedWithin(w.aliases, w.mappedAt, |w.aliases|, NO_GRANT.brokerVa, BrokerEnd(NO_GRANT))
  {
  }

  lemma StartsGranting(w0: World, w: World, g: Grant)
    requires WorldOk(w0) && w == w0.(place := WithRun(w0.place, g.frameBase, g.pages))
    requires forall s :: g.frameBase <= s < g.frameBase + g.pages ==> s !in w0.place
    ensures Granting(w0, w, g, 0)
  {
    forall s | s in w0.place && w0.place[s] != Loose ensures FrameKept(w0, w, s) {
    }
    forall s ensures LooseIn(w.place, s) <==> LooseIn(w0.place, s) || g.frameBase <= s < g.frameBase + g.pages {
    }
    assert g.frameBase + 0 == g.frameBase;
  }

  /** What a grant needs before its first page: ledger entries, two spans of addresses and a run of slots. */
  datatype Room = Room(componentVa: nat, brokerVa: nat, frameBase: nat)

  /** The two spans a grant reserved since the ledger held `spans`, clear of every span held then. */
  ghost predicate Spanned(spans: seq<Span>, spans': seq<Span>, componentVa: nat, brokerVa: nat, pages: nat) {
    var c, b := Span(Component, componentVa, pages * PAGE), Span(RootSeed, brokerVa, pages * PAGE);
    spans' == spans + [c, b] && ClearOf(spans, c) && ClearOf(spans, b) && componentVa % PAGE == 0
  }

  lemma BothSpanned(spans: seq<Span>, componentVa: nat, brokerVa: nat, pages: nat)
    requires ClearOf(spans, Span(Component, componentVa, pages * PAGE)) && componentVa % PAGE == 0
    requires ClearOf(spans + [Span(Component, componentVa, pages * PAGE)], Span(RootSeed, brokerVa, pages * PAGE))
    ensures var c, b := Span(Component, componentVa, pages * PAGE), Span(RootSeed, brokerVa, pages * PAGE);
            Spanned(spans, spans + [c] + [b], componentVa, brokerVa, pages)
  {
    var c, b := Span(Component, componentVa, pages * PAGE), Span(RootSeed, brokerVa, pages * PAGE);
    assert spans + [c] + [b] == spans + [c, b];
    forall i | 0 <= i < |spans| ensures Apart(spans[i], b) {
      assert Apart((spans + [c])[i], b);
    }
  }

  method TakeRoom(owner: Owner, pages: nat) returns (room: Option<Room>)
    requires owner.Valid()
    modifies owner`aliasRoom, owner`spans, owner`place
    ensures owner.Valid() && old(owner.spans) <= owner.spans
    ensures room.None? ==> owner.place == old(owner.place)
    ensures room.Some? ==> owner.place == WithRun(old(owner.place), room.value.frameBase, pages)
    ensures room.Some? ==>
              forall s :: room.value.frameBase <= s < room.value.frameBase + pages ==> s !in old(owner.place)
    ensures room.Some? ==> |owner.aliases| + 2 * pages <= owner.aliasRoom
    ensures room.Some? ==> Spanned(old(owner.spans), owner.spans, room.value.componentVa, room.value.brokerVa, pages)
  {
    var reserved := owner.ReserveAliases(2 * pages);
    if !reserved {
      return None;
    }
    var component := owner.ReserveSpan(Component, pages * PAGE);
    if component.None? {
      return None;
    }
    var broker := owner.ReserveSpan(RootSeed, pages * PAGE);
    if broker.None? {
      return None;
    }
    BothSpanned(old(owner.spans), component.value, broker.value, pages);
    var base := owner.AllocRun(pages);
    if base.None? {
      return None;
    }
    return Some(Room(component.value, broker.value, base.value));
  }

  method GrantRange(owner: Owner, rs: seq<Region>, pageStart: nat, pages: nat, ghost v: Span)
    returns (a: Result<Authority>)
    requires owner.Valid() && AllHeld(owner.Now(), rs, v) && v in owner.spans && pageStart % PAGE == 0
    modifies owner
    ensures owner.Valid() && SameLoose(old(owner.place), owner.place)
    ensures Undisturbed(old(owner.Now()), old(owner.spans), owner.Now(), owner.spans, rs, v)
    ensures a.Ok? ==> a.value.paddr == a.value.grant.start == pageStart && a.value.grant.pages == pages
    ensures a.Ok? ==> a.value.brokerVa == a.value.grant.brokerVa && AllCanonical(rs, pageStart, pages)
    ensures a.Ok? ==> forall k :: 0 <= k < pages ==> GrantHeld(owner.Now(), a.value.grant, k)
    ensures a.Ok? ==> Spanned(old(owner.spans), owner.spans, a.value.componentVa, a.value.brokerVa, pages)
    ensures a != Err(InvalidParameter)
    ensures a == Err(ConflictingAddresses) ==> !AllCanonical(rs, pageStart, pages)
  {
    ghost var w0, spans0 := owner.Now(), owner.spans;
    var cp := owner.Here();
    var room := TakeRoom(owner, pages);
    if room.None? {
      NothingTaken(w0, spans0);
      Abandon(owner, 0, 0, cp, w0, NO_GRANT.brokerVa, BrokerEnd(NO_GRANT));
      NothingDisturbed(w0, spans0, owner.Now(), owner.spans, rs, v, NO_GRANT);
      return Err(InsufficientResources);
    }
    var g := Grant(pageStart, pages, room.value.frameBase, room.value.brokerVa);
    var err := GrantInto(owner, rs, g, room.value.componentVa, cp, w0, spans0, v);
    if err.Some? {
      return Err(err.value);
    }
    return Ok(Authority(pageStart, pages * PAGE, g, room.value.componentVa, room.value.brokerVa));
  }

  /** Fill a grant whose room was just taken. */
  method GrantInto(owner: Owner, rs: seq<Region>, g: Grant, componentVa: nat, cp: Checkpoint,
                   ghost w0: World, ghost spans0: seq<Span>, ghost v: Span)
    returns (err: Option<Status>)
    requires owner.Valid() && WorldOk(w0) && AllHeld(w0, rs, v) && v in spans0 && g.start % PAGE == 0
    requires owner.Now() == w0.(place := WithRun(w0.place, g.frameBase, g.pages))
    requires forall s :: g.frameBase <= s < g.frameBase + g.pages ==> s !in w0.place
    requires Spanned(spans0, owner.spans, componentVa, g.brokerVa, g.pages)
    requires cp == Checkpoint(|w0.aliases|, |w0.rootFrames|, |spans0|)
    requires |w0.aliases| + 2 * g.pages <= owner.aliasRoom
    modifies owner
    ensures owner.Valid() && SameLoose(w0.place, owner.place)
    ensures Undisturbed(w0, spans0, owner.Now(), owner.spans, rs, v)
    ensures err.None? ==> Spanned(spans0, owner.spans, componentVa, g.brokerVa, g.pages)
    ensures err.None? ==>
              AllCanonical(rs, g.start, g.pages) && forall k :: 0 <= k < g.pages ==> GrantHeld(owner.Now(), g, k)
    ensures err == Some(ConflictingAddresses) ==> !AllCanonical(rs, g.start, g.pages)
    ensures err != Some(InvalidParameter)
  {
    StartsGranting(w0, owner.Now(), g);
    ghost var i :| 0 <= i < |spans0| && spans0[i] == v;
    assert Apart(spans0[i], BrokerSpan(g));
    err := GrantPages(owner, rs, g, cp, w0, v);
    NothingDisturbed(w0, spans0, owner.Now(), owner.spans, rs, v, g);
    if err.None? {
      LooseNone(w0.place, owner.place, g.frameBase + g.pages);
    }
  }

  /** Authority over every page a range touches: a copy of each page's capability in the ledger and a broker
      mapping of each page, reached at the range's own offset. Whether it succeeds or fails, no slot is leaked,
      no region is disturbed and every authority granted before is granted still. A malformed range is told
      apart from one with a page that not exactly one region contains, and neither is ever granted. */
  method PrepareMemoryAuthority(owner: Owner, rs: seq<Region>, start: nat, length: nat, ghost v: Span)
    returns (a: Result<Authority>)
    requires owner.Valid() && AllHeld(owner.Now(), rs, v) && v in owner.spans
    modifies owner
    ensures owner.Valid() && SameLoose(old(owner.place), owner.place)
    ensures Undisturbed(old(owner.Now()), old(owner.spans), owner.Now(), owner.spans, rs, v)
    ensures a.Ok? ==> a.value.paddr == start && a.value.length == length
    ensures a.Ok? ==> Granted(owner.Now(), owner.spans, a.value)
    ensures a.Ok? ==> AllCanonical(rs, a.value.grant.start, a.value.grant.pages)
    ensures a.Ok? ==>
              ClearOf(old(owner.spans), BrokerSpan(a.value.grant)) && ClearOf(old(owner.spans), ComponentSpan(a.value))
    ensures a == Err(InvalidParameter) <==> length == 0 || BackingPages(start, length).None?
    ensures a == Err(ConflictingAddresses) ==>
              !AllCanonical(rs, AlignDown(start, PAGE), BackingPages(start, length).value)
  {
    if length == 0 {
      NothingTaken(owner.Now(), owner.spans);
      NothingDisturbed(owner.Now(), owner.spans, owner.Now(), owner.spans, rs, v, NO_GRANT);
      return Err(InvalidParameter);
    }
    var pageStart := AlignDown(start, PAGE);
    var offset := start - pageStart;
    var backing := BackingBytes(offset, length);
    if backing.None? {
      NothingTaken(owner.Now(), owner.spans);
      NothingDisturbed(owner.Now(), owner.spans, owner.Now(), owner.spans, rs, v, NO_GRANT);
      return Err(InvalidParameter);
    }
    var pages := backing.value / PAGE;
    a := GrantRange(owner, rs, pageStart, pages, v);
    if a.Ok? {
      var b := a.value.(paddr := start, length := length,
                        componentVa := a.value.componentVa + offset, brokerVa := a.value.brokerVa + offset);
      AtOffset(owner.Now(), old(owner.spans), owner.spans, a.value, b, offset);
      return Ok(b);
    }
  }

  /** Whole pages behind `length` bytes at an offset into a page. */
  function BackingBytes(offset: nat, length: nat): Option<nat> {
    if offset + length >= USIZE_LIMIT then None else AlignUp(offset + length, PAGE)
  }

  lemma OffsetInPage(base: nat, offset: nat)
    requires base % PAGE == 0 && offset < PAGE
    ensures AlignDown(base + offset, PAGE) == base
  {
    PageSplit(base, offset);
  }

  /** Moving both addresses by the range's offset keeps the authority and its spans. */
  lemma AtOffset(w: World, spans: seq<Span>, spans': seq<Span>, a: Authority, b: Authority, offset: nat)
    requires offset < PAGE && a.brokerVa == a.grant.brokerVa && b.paddr == a.grant.start + offset
    requires b.grant == a.grant && b.componentVa == a.componentVa + offset && b.brokerVa == a.brokerVa + offset
    requires offset + b.length <= a.grant.pages * PAGE
    requires forall k :: 0 <= k < a.grant.pages ==> GrantHeld(w, a.grant, k)
    requires Spanned(spans, spans', a.componentVa, a.brokerVa, a.grant.pages)
    ensures Granted(w, spans', b) && ClearOf(spans, BrokerSpan(b.grant)) && ClearOf(spans, ComponentSpan(b))
  {
    OffsetInPage(a.componentVa, offset);
    assert spans'[|spans|] == ComponentSpan(b) && spans'[|spans| + 1] == BrokerSpan(b.grant);
  }

  // ----- all ranges -----

  /** Not empty, and backed by a number of whole pages that does not overflow. */
  predicate Grantable(r: Range) {
    r.length > 0 && BackingPages(r.start, r.length).Some?
  }

  /** Authorities for the first `n` ranges, all of them granted, no two sharing an address in either pool. */
  ghost predicate Prepared(w: World, spans: seq<Span>, ranges: seq<Range>, n: nat, memory: seq<Authority>) {
    && |memory| == n <= |ranges|
    && (forall i :: 0 <= i < n ==> memory[i].paddr == ranges[i].start && memory[i].length == ranges[i].length)
    && (forall i {:trigger Granted(w, spans, memory[i])} :: 0 <= i < n ==> Granted(w, spans, memory[i]))
    && forall i, j :: 0 <= i < j < n ==> SpansDiffer(memory[i], memory[j])
  }

  predicate SpansDiffer(a: Authority, b: Authority) {
    Apart(BrokerSpan(a.grant), BrokerSpan(b.grant)) && Apart(ComponentSpan(a), ComponentSpan(b))
  }

  lemma PreparedOne(w: World, spans: seq<Span>, w': World, spans': seq<Span>, ranges: seq<Range>, n: nat,
                    memory: seq<Authority>, a: Authority)
    requires Prepared(w, spans, ranges, n, memory) && n < |ranges| && GrantsKept(w, spans, w', spans')
    requires a.paddr == ranges[n].start && a.length == ranges[n].length && Granted(w', spans', a)
    requires ClearOf(spans, BrokerSpan(a.grant)) && ClearOf(spans, ComponentSpan(a))
    ensures Prepared(w', spans', ranges, n + 1, memory + [a])
  {
    var memory' := memory + [a];
    forall i | 0 <= i < n + 1 ensures Granted(w', spans', memory'[i]) {
      assert i < n ==> memory'[i] == memory[i] && Granted(w, spans, memory[i]);
    }
    forall i | 0 <= i < n ensures SpansDiffer(memory[i], a) {
      assert Granted(w, spans, memory[i]);
      ClearOfMember(spans, BrokerSpan(memory[i].grant), BrokerSpan(a.grant));
      ClearOfMember(spans, ComponentSpan(memory[i]), ComponentSpan(a));
    }
  }

  lemma ClearOfMember(spans: seq<Span>, t: Span, s: Span)
    requires ClearOf(spans, s) && t in spans
    ensures Apart(t, s)
  {
    var i :| 0 <= i < |spans| && spans[i] == t;
    assert Apart(spans[i], s);
  }

  lemma UndisturbedTwice(w: World, spans: seq<Span>, w1: World, spans1: seq<Span>, w2: World, spans2: seq<Span>,
                         rs: seq<Region>, v: Span)
    requires Undisturbed(w, spans, w1, spans1, rs, v) && Undisturbed(w1, spans1, w2, spans2, rs, v)
    ensures Undisturbed(w, spans, w2, spans2, rs, v)
  {
    forall a | Granted(w, spans, a) ensures Granted(w2, spans2, a) {
      assert Granted(w1, spans1, a);
    }
  }

  /** Authorities for a list of ranges, in order. Granting one never takes an earlier one away, so on success
      every authority is in force at once; on failure none held before is lost. */
  method PrepareMemory(owner: Owner, rs: seq<Region>, ranges: seq<Range>, ghost v: Span)
    returns (r: Result<seq<Authority>>)
    requires owner.Valid() && AllHeld(owner.Now(), rs, v) && v in owner.spans
    modifies owner
    ensures owner.Valid() && SameLoose(old(owner.place), owner.place)
    ensures Undisturbed(old(owner.Now()), old(owner.spans), owner.Now(), owner.spans, rs, v)
    ensures r.Ok? ==> Prepared(owner.Now(), owner.spans, ranges, |ranges|, r.value)
    ensures r.Ok? ==> forall k :: 0 <= k < |ranges| ==> Grantable(ranges[k])
    ensures r == Err(InvalidParameter) ==> exists k :: 0 <= k < |ranges| && !Grantable(ranges[k])
  {
    ghost var w0, spans0 := owner.Now(), owner.spans;
    NothingTaken(w0, spans0);
    NothingDisturbed(w0, spans0, w0, spans0, rs, v, NO_GRANT);
    var reserved: bool := *;
    if !reserved {
      return Err(InsufficientResources);
    }
    var memory, n := [], 0;
    while n < |ranges|
      invariant 0 <= n <= |ranges| && owner.Valid() && SameLoose(w0.place, owner.place) && v in owner.spans
      invariant Undisturbed(w0, spans0, owner.Now(), owner.spans, rs, v)
      invariant Prepared(owner.Now(), owner.spans, ranges, n, memory)
      invariant forall k :: 0 <= k < n ==> Grantable(ranges[k])
    {
      ghost var w, spans := owner.Now(), owner.spans;
      var a := PrepareMemoryAuthority(owner, rs, ranges[n].start, ranges[n].length, v);
      UndisturbedTwice(w0, spans0, w, spans, owner.Now(), owner.spans, rs, v);
      LooseTwice(w0.place, w.place, owner.place);
      assert a == Err(InvalidParameter) <==> !Grantable(ranges[n]);
      if a.Err? {
        return Err(a.status);
      }
      PreparedOne(w, spans, owner.Now(), owner.spans, ranges, n, memory, a.value);
      memory := memory + [a.value];
      n := n + 1;
    }
    return Ok(memory);
  }

  lemma LooseTwice(p: Places, q: Places, r: Places)
    requires SameLoose(p, q) && SameLoose(q, r)
    ensures SameLoose(p, r)
  {
    forall s ensures LooseIn(p, s) <==> LooseIn(r, s) {
      assert LooseIn(p, s) <==> LooseIn(q, s);
    }
  }
}
