/** Acquiring physical authority for ACPI: device memory is claimed page by page into root slots, mapped into
    validation windows and read through them. Any kernel call may fail at any point. */
module AcpiAuthority {
  import opened Words
  import opened Sizes
  import opened SlotLedger

  const MAX_CANONICAL_PAGES := 4096

  datatype Status = ConflictingAddresses | InsufficientResources | Unsuccessful | InvalidParameter

  datatype Result<T> = Ok(value: T) | Err(status: Status)

  // ----- abandoning an acquisition -----

  /** The slots `[first, first + count)` are loose beside those loose in `p`, and were not live there. */
  ghost predicate LooseBeside(p: Places, q: Places, first: nat, count: nat) {
    && (forall s :: LooseIn(q, s) <==> LooseIn(p, s) || first <= s < first + count)
    && (forall s :: first <= s < first + count ==> s !in p)
  }

  lemma RecycledRun(p: Places, q: Places, first: nat, count: nat)
    requires LooseBeside(p, q, first, count)
    ensures SameLoose(p, q - Run(first, count))
  {
    forall s ensures LooseIn(p, s) <==> LooseIn(q - Run(first, count), s) {
      assert LooseIn(q, s) <==> LooseIn(p, s) || first <= s < first + count;
    }
  }

  lemma RolledKeeps(w: World, v: World, v': World, lo: nat, hi: nat)
    requires WorldOk(w) && Kept(w, v, lo, hi) && KeepsWindow(v.window, v'.window, lo, hi) && v'.frames == v.frames
    requires |w.aliases| <= |v'.aliases| && |w.rootFrames| <= |v'.rootFrames|
    requires v'.aliases[..|w.aliases|] == v.aliases[..|w.aliases|]
    requires v'.rootFrames[..|w.rootFrames|] == v.rootFrames[..|w.rootFrames|]
    requires Rolled(v.place, v'.place, |v'.aliases|, |v'.rootFrames|)
    ensures Kept(w, v', lo, hi)
  {
    forall s | s in w.place && w.place[s] != Loose ensures FrameKept(w, v', s) {
      assert FrameKept(w, v, s) && Holder(w.place[s], s, w.aliases, w.rootFrames);
    }
  }

  /** Give back an acquisition begun in world `w`: the slots of its run that hold nothing are recycled, those
      adopted are rolled back. Every slot taken since `w` is released once or is still owned, and spans are
      released only down to the checkpoint. */
  method Abandon(owner: Owner, first: nat, count: nat, cp: Checkpoint, ghost w: World, ghost lo: nat, ghost hi: nat)
    requires owner.Valid() && WorldOk(w) && Kept(w, owner.Now(), lo, hi)
    requires cp.aliases == |w.aliases| && cp.rootFrames == |w.rootFrames| && cp.spans <= |owner.spans|
    requires LooseBeside(w.place, owner.place, first, count)
    requires MappedWithin(owner.aliases, owner.mappedAt, cp.aliases, lo, hi)
    modifies owner
    ensures owner.Valid() && Kept(w, owner.Now(), lo, hi) && SameLoose(w.place, owner.place)
    ensures cp.spans <= |owner.spans| && owner.spans <= old(owner.spans)
  {
    forall s | first <= s < first + count ensures owner.IsLoose(s) {
      assert LooseIn(owner.place, s);
    }
    RecycledRun(w.place, owner.place, first, count);
    ghost var v := owner.Now();
    owner.RecycleUnoccupiedRun(first, count);
    ghost var u := owner.Now();
    RecycledKeeps(w, v, u, first, count, lo, hi);
    var _ := owner.RollbackTo(cp, lo, hi);
    RolledKeeps(w, u, owner.Now(), lo, hi);
  }

  lemma RecycledKeeps(w: World, v: World, v': World, first: nat, count: nat, lo: nat, hi: nat)
    requires WorldOk(w) && Kept(w, v, lo, hi) && LooseBeside(w.place, v.place, first, count)
    requires v' == v.(place := v.place - Run(first, count))
    ensures Kept(w, v', lo, hi)
  {
    forall s | s in w.place && w.place[s] != Loose ensures FrameKept(w, v', s) {
      assert FrameKept(w, v, s);
    }
  }

  // ----- one page of a claim -----

  /** Mappings other than at `va` are kept. */
  ghost predicate WindowExcept(w: map<nat, nat>, w': map<nat, nat>, va: nat) {
    forall a :: a in w && a != va ==> a in w' && w'[a] == w[a]
  }

  /** Slot `s` is in the same place with the same page, unless it is in `except`, and mapped where it was. */
  ghost predicate SlotKept(w: World, w': World, except: set<nat>, s: nat)
    requires s in w.place
  {
    && (s !in except ==> FrameKept(w, w', s))
    && (s in w.mappedAt ==> s in w'.mappedAt && w'.mappedAt[s] == w.mappedAt[s])
  }

  ghost predicate SlotsKept(w: World, w': World, except: set<nat>) {
    forall s {:trigger SlotKept(w, w', except, s)} :: s in w.place ==> SlotKept(w, w', except, s)
  }

  /** At most one alias is new, and if it is mapped it is mapped at `va`. */
  ghost predicate OneAlias(w: World, w': World, va: nat) {
    && |w.aliases| <= |w'.aliases| <= |w.aliases| + 1 && w'.aliases[..|w.aliases|] == w.aliases
    && (|w'.aliases| > |w.aliases| && w'.aliases[|w.aliases|].mapped ==>
          w'.aliases[|w.aliases|].cap in w'.mappedAt && w'.mappedAt[w'.aliases[|w.aliases|].cap] == va)
  }

  /** The page of `source` is mapped at `va` through a new alias, or at most an unmapped alias is left. */
  ghost predicate Aliased(w: World, w': World, source: nat, va: nat, ok: bool) {
    && OneAlias(w, w', va) && w'.rootFrames == w.rootFrames && SameLoose(w.place, w'.place)
    && SlotsKept(w, w', {}) && WindowExcept(w.window, w'.window, va)
    && (ok ==>
          |w'.aliases| == |w.aliases| + 1 && va in w'.window && source in w.frames && w'.window[va] == w.frames[source])
  }

  /** Paging first, then the copy, then the mapping; a copy that cannot be mapped stays owned. */
  method MapAlias(owner: Owner, source: nat, va: nat) returns (err: Option<Status>)
    requires owner.Valid() && source in owner.place && source in owner.frames && |owner.aliases| < owner.aliasRoom
    modifies owner`aliases, owner`place, owner`frames, owner`window, owner`mappedAt
    ensures owner.Valid() && Aliased(old(owner.Now()), owner.Now(), source, va, err.None?)
    ensures err.Some? ==> err.value in {InsufficientResources, Unsuccessful}
    ensures err == Some(InsufficientResources) ==> owner.Now() == old(owner.Now())
  {
    ghost var w := owner.Now();
    var paging: bool := *;
    if !paging {
      return Some(InsufficientResources);
    }
    var alias := owner.CopyCap(source);
    if alias.None? {
      return Some(Unsuccessful);
    }
    var mapped := owner.PageMap(alias.value, va);
    owner.AdoptAlias(alias.value, mapped);
    AliasMade(w, owner.Now(), source, alias.value, va, mapped);
    return if mapped then None else Some(Unsuccessful);
  }

  lemma AliasMade(w: World, w': World, source: nat, alias: nat, va: nat, ok: bool)
    requires WorldOk(w) && source in w.frames && alias !in w.place
    requires w'.aliases == w.aliases + [Owned(alias, ok)] && w'.rootFrames == w.rootFrames
    requires w'.place == w.place[alias := InAlias(|w.aliases|)] && w'.frames == w.frames[alias := w.frames[source]]
    requires w'.window == if ok then w.window[va := w.frames[source]] else w.window
    requires w'.mappedAt == if ok then w.mappedAt[alias := va] else w.mappedAt
    ensures Aliased(w, w', source, va, ok)
  {
    forall s | s in w.place ensures SlotKept(w, w', {}, s) {
    }
    forall s ensures LooseIn(w.place, s) <==> LooseIn(w'.place, s) {
    }
  }

  /** One page of the claim: `frame` was loose; if adopted the ledger now holds it, and if the page succeeded
      it is the expected one, mapped at `va` through a new alias. */
  ghost predicate Stepped(w: World, w': World, frame: nat, expected: nat, va: nat, ok: bool, adopted: bool) {
    && (ok ==> adopted)
    && OneAlias(w, w', va)
    && w'.rootFrames == (if adopted then w.rootFrames + [Owned(frame, false)] else w.rootFrames)
    && (forall s :: LooseIn(w'.place, s) <==> LooseIn(w.place, s) && !(adopted && s == frame))
    && SlotsKept(w, w', {frame}) && WindowExcept(w.window, w'.window, va)
    && (ok ==>
          && |w'.aliases| == |w.aliases| + 1
          && frame in w'.place && w'.place[frame] == InFrame(|w.rootFrames|)
          && frame in w'.frames && w'.frames[frame] == expected
          && va in w'.window && w'.window[va] == expected)
  }

  method ClaimFrame(owner: Owner, frame: nat, expected: nat, va: nat) returns (err: Option<Status>, adopted: bool)
    requires owner.Valid() && owner.IsLoose(frame)
    requires |owner.rootFrames| < owner.frameRoom && |owner.aliases| < owner.aliasRoom
    modifies owner`aliases, owner`rootFrames, owner`place, owner`frames, owner`window, owner`mappedAt
    ensures owner.Valid() && Stepped(old(owner.Now()), owner.Now(), frame, expected, va, err.None?, adopted)
    ensures err.None? ==> expected % PAGE == 0
    ensures !adopted ==> err == Some(Unsuccessful)
    ensures err == Some(ConflictingAddresses) <==> adopted && frame in owner.frames && owner.frames[frame] != expected
    ensures err != Some(InvalidParameter)
  {
    ghost var w := owner.Now();
    var retyped := owner.Retype(frame);
    ghost var w1 := owner.Now();
    if !retyped {
      FrameTried(w, w1, frame, expected, va);
      return Some(Unsuccessful), false;
    }
    owner.AdoptFrame(frame);
    ghost var w2 := owner.Now();
    if owner.frames[frame] != expected {
      FrameTaken(w, w2, w2, frame, expected, va, false);
      return Some(ConflictingAddresses), true;
    }
    err := MapAlias(owner, frame, va);
    FrameTaken(w, w2, owner.Now(), frame, expected, va, err.None?);
    return err, true;
  }

  lemma FrameTried(w: World, w': World, frame: nat, expected: nat, va: nat)
    requires WorldOk(w) && w' == w.(frames := w'.frames)
    requires forall s :: s in w.frames && s != frame ==> s in w'.frames && w'.frames[s] == w.frames[s]
    ensures Stepped(w, w', frame, expected, va, false, false)
  {
    forall s | s in w.place ensures SlotKept(w, w', {frame}, s) {
    }
  }

  lemma FrameTaken(w: World, v: World, w': World, frame: nat, expected: nat, va: nat, ok: bool)
    requires WorldOk(w) && LooseIn(w.place, frame)
    requires v == w.(frames := v.frames, rootFrames := w.rootFrames + [Owned(frame, false)],
                     place := w.place[frame := InFrame(|w.rootFrames|)])
    requires frame in v.frames
    requires forall s :: s in w.frames && s != frame ==> s in v.frames && v.frames[s] == w.frames[s]
    requires ok ==> v.frames[frame] == expected && Aliased(v, w', frame, va, true)
    requires !ok ==> w' == v || Aliased(v, w', frame, va, false)
    ensures Stepped(w, w', frame, expected, va, ok, true) && frame in w'.frames && w'.frames[frame] == v.frames[frame]
  {
    assert w' != v ==> SlotKept(v, w', {}, frame);
    forall s | s in w.place ensures SlotKept(w, w', {frame}, s) {
      assert w' != v ==> SlotKept(v, w', {}, s);
    }
    forall s ensures LooseIn(w'.place, s) <==> LooseIn(w.place, s) && s != frame {
      assert LooseIn(v.place, s) <==> LooseIn(w.place, s) && s != frame;
      assert w' != v ==> (LooseIn(v.place, s) <==> LooseIn(w'.place, s));
    }
  }

  // ----- claiming a whole region -----

  /** A device region as claimed: consecutive pages, root slots and window addresses. */
  datatype Region = Region(paddr: nat, pages: nat, frameBase: nat, validationVa: nat) {
    function End(): Option<nat> {
      if pages * PAGE >= USIZE_LIMIT then None else CheckedAdd(paddr, pages * PAGE)
    }

    predicate Contains(a: nat) {
      End().Some? && paddr <= a < End().value
    }

    function FrameFor(a: nat): Option<nat> {
      if Contains(a) then Some(frameBase + (a - paddr) / PAGE) else None
    }
  }

  function WindowEnd(r: Region): nat {
    r.validationVa + r.pages * PAGE
  }

  /** Page `k` of the region is held by the ledger and mapped in its window. */
  ghost predicate PageHeld(w: World, r: Region, k: nat) {
    var slot, va, page := r.frameBase + k, r.validationVa + k * PAGE, r.paddr + k * PAGE;
    && slot in w.place && w.place[slot].InFrame?
    && slot in w.frames && w.frames[slot] == page
    && va in w.window && w.window[va] == page
  }

  /** The first `n` pages of `r` are claimed since world `w0`, and the rest of its run is still loose. */
  ghost predicate Claiming(w0: World, w: World, r: Region, n: nat) {
    && n <= r.pages && Kept(w0, w, r.validationVa, WindowEnd(r))
    && |w.aliases| == |w0.aliases| + n && |w.rootFrames| == |w0.rootFrames| + n
    && MappedWithin(w.aliases, w.mappedAt, |w0.aliases|, r.validationVa, WindowEnd(r))
    && LooseBeside(w0.place, w.place, r.frameBase + n, r.pages - n)
    && forall k :: 0 <= k < n ==> PageHeld(w, r, k)
  }

  lemma StepMapped(w0: World, w: World, w': World, e: set<nat>, va: nat, lo: nat, hi: nat)
    requires WorldOk(w) && SlotsKept(w, w', e) && OneAlias(w, w', va) && lo <= va < hi
    requires |w0.aliases| <= |w.aliases| && MappedWithin(w.aliases, w.mappedAt, |w0.aliases|, lo, hi)
    ensures MappedWithin(w'.aliases, w'.mappedAt, |w0.aliases|, lo, hi)
  {
    forall i | |w0.aliases| <= i < |w'.aliases| && w'.aliases[i].mapped && w'.aliases[i].cap in w'.mappedAt
      ensures lo <= w'.mappedAt[w'.aliases[i].cap] < hi
    {
      if i < |w.aliases| {
        assert w'.aliases[i] == w'.aliases[..|w.aliases|][i] == w.aliases[i];
        assert AliasHeld(w.aliases, w.place, w.mappedAt, i) && SlotKept(w, w', e, w.aliases[i].cap);
      }
    }
  }

  lemma StepKept(w0: World, w: World, w': World, e: set<nat>, va: nat, lo: nat, hi: nat)
    requires Kept(w0, w, lo, hi) && OneAlias(w, w', va) && SlotsKept(w, w', e)
    requires |w.rootFrames| <= |w'.rootFrames| && w'.rootFrames[..|w.rootFrames|] == w.rootFrames
    requires WindowExcept(w.window, w'.window, va) && lo <= va < hi
    requires forall s :: s in e ==> LooseIn(w.place, s)
    ensures Kept(w0, w', lo, hi)
  {
    assert w'.aliases[..|w0.aliases|] == w'.aliases[..|w.aliases|][..|w0.aliases|];
    assert w'.rootFrames[..|w0.rootFrames|] == w'.rootFrames[..|w.rootFrames|][..|w0.rootFrames|];
    forall s | s in w0.place && w0.place[s] != Loose ensures FrameKept(w0, w', s) {
      assert FrameKept(w0, w, s) && SlotKept(w, w', e, s);
      assert LooseIn(w.place, s) || s !in e;
    }
  }

  lemma StepLoose(p: Places, q: Places, q': Places, first: nat, count: nat, adopted: bool)
    requires LooseBeside(p, q, first, count) && count > 0
    requires forall s :: LooseIn(q', s) <==> LooseIn(q, s) && !(adopted && s == first)
    ensures adopted ==> LooseBeside(p, q', first + 1, count - 1)
    ensures !adopted ==> LooseBeside(p, q', first, count)
  {
  }

  lemma StepHeld(w: World, w': World, r: Region, n: nat)
    requires n < r.pages && LooseIn(w.place, r.frameBase + n)
    requires Stepped(w, w', r.frameBase + n, r.paddr + n * PAGE, r.validationVa + n * PAGE, true, true)
    requires forall k :: 0 <= k < n ==> PageHeld(w, r, k)
    ensures forall k :: 0 <= k < n + 1 ==> PageHeld(w', r, k)
  {
    forall k | 0 <= k < n + 1 ensures PageHeld(w', r, k) {
      if k < n {
        assert PageHeld(w, r, k) && SlotKept(w, w', {r.frameBase + n}, r.frameBase + k);
      }
    }
  }

  lemma ClaimAdvances(w0: World, w: World, w': World, r: Region, n: nat, ok: bool, adopted: bool)
    requires WorldOk(w) && Claiming(w0, w, r, n) && n < r.pages
    requires Stepped(w, w', r.frameBase + n, r.paddr + n * PAGE, r.validationVa + n * PAGE, ok, adopted)
    ensures Kept(w0, w', r.validationVa, WindowEnd(r))
    ensures MappedWithin(w'.aliases, w'.mappedAt, |w0.aliases|, r.validationVa, WindowEnd(r))
    ensures ok ==> Claiming(w0, w', r, n + 1)
    ensures !ok ==> var done := if adopted then n + 1 else n;
                    LooseBeside(w0.place, w'.place, r.frameBase + done, r.pages - done)
  {
    var va, frame := r.validationVa + n * PAGE, r.frameBase + n;
    assert LooseIn(w.place, frame);
    StepMapped(w0, w, w', {frame}, va, r.validationVa, WindowEnd(r));
    StepKept(w0, w, w', {frame}, va, r.validationVa, WindowEnd(r));
    StepLoose(w0.place, w.place, w'.place, frame, r.pages - n, adopted);
    if ok {
      StepHeld(w, w', r, n);
    }
  }

  lemma NextLoose(p: Places, q: Places, first: nat, count: nat)
    requires LooseBeside(p, q, first, count) && count > 0
    ensures LooseIn(q, first)
  {
  }

  /** Claim every page of a region into its run and window, or give everything back. */
  method ClaimFrames(owner: Owner, r: Region, cp: Checkpoint, ghost w0: World)
    returns (err: Option<Status>)
    requires owner.Valid() && WorldOk(w0) && Claiming(w0, owner.Now(), r, 0)
    requires cp.aliases == |w0.aliases| && cp.rootFrames == |w0.rootFrames| && cp.spans == |owner.spans|
    requires |owner.rootFrames| + r.pages <= owner.frameRoom && |owner.aliases| + r.pages <= owner.aliasRoom
    modifies owner
    ensures owner.Valid() && err != Some(InvalidParameter) && owner.spans == old(owner.spans)
    ensures err.None? ==> Claiming(w0, owner.Now(), r, r.pages) && (r.pages > 0 ==> r.paddr % PAGE == 0)
    ensures err.Some? ==> Kept(w0, owner.Now(), r.validationVa, WindowEnd(r)) && SameLoose(w0.place, owner.place)
  {
    var page := 0;
    while page < r.pages
      invariant 0 <= page <= r.pages && owner.Valid() && Claiming(w0, owner.Now(), r, page)
      invariant |w0.rootFrames| + r.pages <= owner.frameRoom && |w0.aliases| + r.pages <= owner.aliasRoom
      invariant owner.spans == old(owner.spans) && (page > 0 ==> r.paddr % PAGE == 0)
    {
      err := ClaimNext(owner, r, page, cp, w0);
      if err.Some? {
        return;
      }
      page := page + 1;
    }
    return None;
  }

  /** Claim page `n`, or give everything back. */
  method ClaimNext(owner: Owner, r: Region, n: nat, cp: Checkpoint, ghost w0: World)
    returns (err: Option<Status>)
    requires owner.Valid() && WorldOk(w0) && Claiming(w0, owner.Now(), r, n) && n < r.pages
    requires cp.aliases == |w0.aliases| && cp.rootFrames == |w0.rootFrames| && cp.spans == |owner.spans|
    requires |w0.rootFrames| + r.pages <= owner.frameRoom && |w0.aliases| + r.pages <= owner.aliasRoom
    modifies owner
    ensures owner.Valid() && err != Some(InvalidParameter) && owner.spans == old(owner.spans)
    ensures err.None? ==>
              && Claiming(w0, owner.Now(), r, n + 1) && (r.paddr + n * PAGE) % PAGE == 0
              && owner.frameRoom == old(owner.frameRoom) && owner.aliasRoom == old(owner.aliasRoom)
    ensures err.Some? ==> Kept(w0, owner.Now(), r.validationVa, WindowEnd(r)) && SameLoose(w0.place, owner.place)
  {
    ghost var w := owner.Now();
    NextLoose(w0.place, owner.place, r.frameBase + n, r.pages - n);
    var adopted;
    err, adopted := ClaimFrame(owner, r.frameBase + n, r.paddr + n * PAGE, r.validationVa + n * PAGE);
    ClaimAdvances(w0, w, owner.Now(), r, n, err.None?, adopted);
    if err.Some? {
      var done := if adopted then n + 1 else n;
      Abandon(owner, r.frameBase + done, r.pages - done, cp, w0, r.validationVa, WindowEnd(r));
    }
  }
}
