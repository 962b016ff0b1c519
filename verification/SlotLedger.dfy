/** The owner ledger of `hosted_pnp_context.rs` together with the root capability slots it answers for. Any
    kernel call may fail; a slot is either loose, held by the ledger, or free. */
module SlotLedger {
  import opened Words

  /** A capability the ledger owns, and whether it is mapped. */
  datatype Owned = Owned(cap: nat, mapped: bool)

  /** Who holds a live slot: nobody yet, or an entry of the ledger. */
  datatype Place = Loose | InAlias(index: nat) | InFrame(index: nat)

  type Places = map<nat, Place>

  predicate LooseIn(p: Places, s: int) {
    s in p && p[s] == Loose
  }

  ghost predicate AliasHeld(aliases: seq<Owned>, place: Places, mappedAt: map<nat, nat>, i: nat)
    requires i < |aliases|
  {
    && aliases[i].cap in place && place[aliases[i].cap] == InAlias(i)
    && (aliases[i].mapped ==> aliases[i].cap in mappedAt)
  }

  ghost predicate FrameHeld(rootFrames: seq<Owned>, place: Places, j: nat)
    requires j < |rootFrames|
  {
    rootFrames[j].cap in place && place[rootFrames[j].cap] == InFrame(j) && !rootFrames[j].mapped
  }

  predicate Holder(p: Place, s: nat, aliases: seq<Owned>, rootFrames: seq<Owned>) {
    match p
    case Loose => true
    case InAlias(i) => i < |aliases| && aliases[i].cap == s
    case InFrame(j) => j < |rootFrames| && rootFrames[j].cap == s
  }

  ghost predicate AliasesHeld(aliases: seq<Owned>, place: Places, mappedAt: map<nat, nat>) {
    forall i {:trigger AliasHeld(aliases, place, mappedAt, i)} ::
      0 <= i < |aliases| ==> AliasHeld(aliases, place, mappedAt, i)
  }

  ghost predicate FramesHeld(rootFrames: seq<Owned>, place: Places) {
    forall j {:trigger FrameHeld(rootFrames, place, j)} :: 0 <= j < |rootFrames| ==> FrameHeld(rootFrames, place, j)
  }

  ghost predicate SlotsHeld(aliases: seq<Owned>, rootFrames: seq<Owned>, place: Places) {
    forall s {:trigger Holder(place[s], s, aliases, rootFrames)} :: s in place ==>
      Holder(place[s], s, aliases, rootFrames)
  }

  /** Each live slot has one holder and each entry of the ledger holds one live slot. */
  ghost predicate Balanced(aliases: seq<Owned>, rootFrames: seq<Owned>, place: Places, mappedAt: map<nat, nat>) {
    AliasesHeld(aliases, place, mappedAt) && FramesHeld(rootFrames, place) && SlotsHeld(aliases, rootFrames, place)
  }

  // ----- what keeps the ledger balanced -----

  /** Taking fresh loose slots, or giving back loose ones. */
  lemma LooseChanged(aliases: seq<Owned>, rootFrames: seq<Owned>, place: Places, mappedAt: map<nat, nat>,
                     place': Places)
    requires Balanced(aliases, rootFrames, place, mappedAt)
    requires forall s :: s in place && place[s] != Loose ==> s in place' && place'[s] == place[s]
    requires forall s :: s in place' && place'[s] != Loose ==> s in place && place[s] == place'[s]
    ensures Balanced(aliases, rootFrames, place', mappedAt)
  {
    forall i | 0 <= i < |aliases| ensures AliasHeld(aliases, place', mappedAt, i) {
      assert AliasHeld(aliases, place, mappedAt, i);
    }
    forall j | 0 <= j < |rootFrames| ensures FrameHeld(rootFrames, place', j) {
      assert FrameHeld(rootFrames, place, j);
    }
    forall s | s in place' ensures Holder(place'[s], s, aliases, rootFrames) {
      assert place'[s] != Loose ==> Holder(place[s], s, aliases, rootFrames);
    }
  }

  lemma MoreMapped(aliases: seq<Owned>, rootFrames: seq<Owned>, place: Places, mappedAt: map<nat, nat>, alias: nat,
                   va: nat)
    requires Balanced(aliases, rootFrames, place, mappedAt)
    ensures Balanced(aliases, rootFrames, place, mappedAt[alias := va])
  {
    var mappedAt' := mappedAt[alias := va];
    forall i | 0 <= i < |aliases| ensures AliasHeld(aliases, place, mappedAt', i) {
      assert AliasHeld(aliases, place, mappedAt, i);
    }
  }

  lemma AliasAdopted(aliases: seq<Owned>, rootFrames: seq<Owned>, place: Places, mappedAt: map<nat, nat>, o: Owned)
    requires Balanced(aliases, rootFrames, place, mappedAt) && LooseIn(place, o.cap) && (o.mapped ==> o.cap in mappedAt)
    ensures Balanced(aliases + [o], rootFrames, place[o.cap := InAlias(|aliases|)], mappedAt)
  {
    var aliases', place' := aliases + [o], place[o.cap := InAlias(|aliases|)];
    forall i | 0 <= i < |aliases'| ensures AliasHeld(aliases', place', mappedAt, i) {
      assert i < |aliases| ==> AliasHeld(aliases, place, mappedAt, i);
    }
    forall j | 0 <= j < |rootFrames| ensures FrameHeld(rootFrames, place', j) {
      assert FrameHeld(rootFrames, place, j);
    }
    forall s | s in place' ensures Holder(place'[s], s, aliases', rootFrames) {
      assert s != o.cap ==> Holder(place[s], s, aliases, rootFrames);
    }
  }

  lemma FrameAdopted(aliases: seq<Owned>, rootFrames: seq<Owned>, place: Places, mappedAt: map<nat, nat>, cap: nat)
    requires Balanced(aliases, rootFrames, place, mappedAt) && LooseIn(place, cap)
    ensures Balanced(aliases, rootFrames + [Owned(cap, false)], place[cap := InFrame(|rootFrames|)], mappedAt)
  {
    var rootFrames', place' := rootFrames + [Owned(cap, false)], place[cap := InFrame(|rootFrames|)];
    forall i | 0 <= i < |aliases| ensures AliasHeld(aliases, place', mappedAt, i) {
      assert AliasHeld(aliases, place, mappedAt, i);
    }
    forall j | 0 <= j < |rootFrames'| ensures FrameHeld(rootFrames', place', j) {
      assert j < |rootFrames| ==> FrameHeld(rootFrames, place, j);
    }
    forall s | s in place' ensures Holder(place'[s], s, aliases, rootFrames') {
      assert s != cap ==> Holder(place[s], s, aliases, rootFrames);
    }
  }

  lemma AliasUnmapped(aliases: seq<Owned>, rootFrames: seq<Owned>, place: Places, mappedAt: map<nat, nat>, n: nat)
    requires Balanced(aliases, rootFrames, place, mappedAt) && n < |aliases|
    ensures Balanced(aliases[n := aliases[n].(mapped := false)], rootFrames, place, mappedAt)
  {
    var aliases' := aliases[n := aliases[n].(mapped := false)];
    forall i | 0 <= i < |aliases'| ensures AliasHeld(aliases', place, mappedAt, i) {
      assert AliasHeld(aliases, place, mappedAt, i);
    }
    forall s | s in place ensures Holder(place[s], s, aliases', rootFrames) {
      assert Holder(place[s], s, aliases, rootFrames);
    }
  }

  lemma AliasPopped(aliases: seq<Owned>, rootFrames: seq<Owned>, place: Places, mappedAt: map<nat, nat>, n: nat)
    requires Balanced(aliases, rootFrames, place, mappedAt) && |aliases| == n + 1
    ensures Balanced(aliases[..n], rootFrames, place - {aliases[n].cap}, mappedAt)
  {
    var aliases', place' := aliases[..n], place - {aliases[n].cap};
    assert AliasHeld(aliases, place, mappedAt, n);
    forall i | 0 <= i < n ensures AliasHeld(aliases', place', mappedAt, i) {
      assert AliasHeld(aliases, place, mappedAt, i);
    }
    forall j | 0 <= j < |rootFrames| ensures FrameHeld(rootFrames, place', j) {
      assert FrameHeld(rootFrames, place, j);
    }
    forall s | s in place' ensures Holder(place'[s], s, aliases', rootFrames) {
      assert Holder(place[s], s, aliases, rootFrames);
    }
  }

  lemma FramePopped(aliases: seq<Owned>, rootFrames: seq<Owned>, place: Places, mappedAt: map<nat, nat>, n: nat)
    requires Balanced(aliases, rootFrames, place, mappedAt) && |rootFrames| == n + 1
    ensures Balanced(aliases, rootFrames[..n], place - {rootFrames[n].cap}, mappedAt)
  {
    var rootFrames', place' := rootFrames[..n], place - {rootFrames[n].cap};
    assert FrameHeld(rootFrames, place, n);
    forall i | 0 <= i < |aliases| ensures AliasHeld(aliases, place', mappedAt, i) {
      assert AliasHeld(aliases, place, mappedAt, i);
    }
    forall j | 0 <= j < n ensures FrameHeld(rootFrames', place', j) {
      assert FrameHeld(rootFrames, place, j);
    }
    forall s | s in place' ensures Holder(place'[s], s, aliases, rootFrames') {
      assert Holder(place[s], s, aliases, rootFrames);
    }
  }

  /** The same slots are loose in both. */
  ghost predicate SameLoose(p: Places, q: Places) {
    forall s :: LooseIn(p, s) <==> LooseIn(q, s)
  }

  /** The slots `[base, base + n)`. */
  function Run(base: nat, n: nat): (r: set<nat>)
    ensures forall s :: s in r <==> base <= s < base + n
  {
    if n == 0 then {} else Run(base, n - 1) + {base + n - 1}
  }

  function WithRun(p: Places, base: nat, n: nat): (q: Places)
    ensures forall s :: s in q <==> s in p || base <= s < base + n
    ensures forall s :: s in q ==> q[s] == if base <= s < base + n then Loose else p[s]
  {
    if n == 0 then p else WithRun(p, base, n - 1)[base + n - 1 := Loose]
  }

  lemma RunStep(p: Places, base: nat, i: nat)
    ensures p - Run(base, i) - {base + i} == p - Run(base, i + 1)
  {
  }

  datatype Checkpoint = Checkpoint(aliases: nat, rootFrames: nat, spans: nat)

  /** Where a span of addresses comes from: the component's windows or the executive's own. */
  datatype Pool = Component | RootSeed

  datatype Span = Span(pool: Pool, base: nat, bytes: nat)

  predicate Apart(s: Span, t: Span) {
    s.pool != t.pool || s.base + s.bytes <= t.base || t.base + t.bytes <= s.base
  }

  /** `s` overlaps none of the spans. */
  predicate ClearOf(spans: seq<Span>, s: Span) {
    forall i {:trigger Apart(spans[i], s)} :: 0 <= i < |spans| ==> Apart(spans[i], s)
  }

  /** Spans of one pool never overlap. */
  ghost predicate SpansApart(spans: seq<Span>) {
    forall i {:trigger ClearOf(spans[..i], spans[i])} :: 0 <= i < |spans| ==> ClearOf(spans[..i], spans[i])
  }

  lemma SpanReserved(spans: seq<Span>, s: Span)
    requires SpansApart(spans) && ClearOf(spans, s)
    ensures SpansApart(spans + [s])
  {
    forall i | 0 <= i < |spans| + 1 ensures ClearOf((spans + [s])[..i], (spans + [s])[i]) {
      assert i < |spans| ==> (spans + [s])[..i] == spans[..i];
      assert i == |spans| ==> (spans + [s])[..i] == spans;
    }
  }

  lemma SpanReleased(spans: seq<Span>, n: nat)
    requires SpansApart(spans) && n <= |spans|
    ensures SpansApart(spans[..n])
  {
    forall i | 0 <= i < n ensures ClearOf(spans[..n][..i], spans[..n][i]) {
      assert spans[..n][..i] == spans[..i] && ClearOf(spans[..i], spans[i]);
    }
  }

  /** Everything an acquisition can change. */
  datatype World = World(
    aliases: seq<Owned>, rootFrames: seq<Owned>, place: Places,
    frames: map<nat, nat>, window: map<nat, nat>, mappedAt: map<nat, nat>)

  ghost predicate WorldOk(w: World) {
    Balanced(w.aliases, w.rootFrames, w.place, w.mappedAt)
  }

  /** Every slot the ledger held in `w` is held by the same entry for the same page, mappings outside
      `[lo, hi)` are kept, and both lists of the ledger still start as they were. */
  ghost predicate Kept(w: World, w': World, lo: nat, hi: nat) {
    && KeepsWindow(w.window, w'.window, lo, hi)
    && |w.aliases| <= |w'.aliases| && w'.aliases[..|w.aliases|] == w.aliases
    && |w.rootFrames| <= |w'.rootFrames| && w'.rootFrames[..|w.rootFrames|] == w.rootFrames
    && FramesKept(w, w')
  }

  ghost predicate FramesKept(w: World, w': World) {
    forall s {:trigger FrameKept(w, w', s)} :: s in w.place && w.place[s] != Loose ==> FrameKept(w, w', s)
  }

  ghost predicate FrameKept(w: World, w': World, s: nat)
    requires s in w.place
  {
    s in w'.place && w'.place[s] == w.place[s] && (s in w.frames ==> s in w'.frames && w'.frames[s] == w.frames[s])
  }

  class Owner {
    var aliases: seq<Owned>
    var rootFrames: seq<Owned>
    var spans: seq<Span>
    /** Room reserved in the two capability vectors. */
    var aliasRoom: nat
    var frameRoom: nat

    /** Every live slot and its holder. */
    var place: Places
    /** The physical page behind the capability in a slot. */
    var frames: map<nat, nat>
    /** The executive's mappings, by page address, and where an alias is mapped. */
    var window: map<nat, nat>
    var mappedAt: map<nat, nat>

    ghost predicate Valid()
      reads `aliases, `rootFrames, `spans, `place, `mappedAt, `aliasRoom, `frameRoom
    {
      && Balanced(aliases, rootFrames, place, mappedAt) && SpansApart(spans)
      && |aliases| <= aliasRoom && |rootFrames| <= frameRoom
    }

    ghost predicate IsLoose(s: nat)
      reads `place
    {
      LooseIn(place, s)
    }

    constructor ()
      ensures Valid() && aliases == [] && rootFrames == [] && spans == [] && place == map[]
    {
      aliases, rootFrames, spans, aliasRoom, frameRoom := [], [], [], 0, 0;
      place, frames, window, mappedAt := map[], map[], map[], map[];
    }

    // ----- slots -----

    /** A run of fresh slots, none of them live. */
    method AllocRun(count: nat) returns (base: Option<nat>)
      requires Valid()
      modifies this`place
      ensures Valid()
      ensures base.None? ==> place == old(place)
      ensures base.Some? ==> count > 0 && (forall s :: base.value <= s < base.value + count ==> s !in old(place))
      ensures base.Some? ==> place == WithRun(old(place), base.value, count)
    {
      var b: nat := *;
      if count == 0 || exists s | b <= s < b + count :: s in place {
        return None;
      }
      LooseChanged(aliases, rootFrames, place, mappedAt, WithRun(place, b, count));
      place := WithRun(place, b, count);
      return Some(b);
    }

    /** A slot that holds no capability is given back. It must be live and loose: never given back twice. */
    method Recycle(slot: nat)
      requires Valid() && IsLoose(slot)
      modifies this`place
      ensures Valid() && place == old(place) - {slot}
    {
      LooseChanged(aliases, rootFrames, place, mappedAt, place - {slot});
      place := place - {slot};
    }

    method RecycleUnoccupiedRun(base: nat, count: nat)
      requires Valid() && forall s :: base <= s < base + count ==> IsLoose(s)
      modifies this`place
      ensures Valid() && place == old(place) - Run(base, count)
    {
      var i := 0;
      while i < count
        invariant 0 <= i <= count && Valid() && place == old(place) - Run(base, i)
      {
        assert old(IsLoose(base + i));
        RunStep(old(place), base, i);
        Recycle(base + i);
        i := i + 1;
      }
    }

    // ----- the ledger -----

    ghost function Now(): World
      reads `aliases, `rootFrames, `place, `frames, `window, `mappedAt
    {
      World(aliases, rootFrames, place, frames, window, mappedAt)
    }

    function Here(): Checkpoint
      reads `aliases, `rootFrames, `spans
    {
      Checkpoint(|aliases|, |rootFrames|, |spans|)
    }

    method ReserveAliases(count: nat) returns (ok: bool)
      requires Valid()
      modifies this`aliasRoom
      ensures Valid() && (ok ==> |aliases| + count <= aliasRoom)
    {
      ok := *;
      if ok {
        aliasRoom := Max(aliasRoom, |aliases| + count);
      }
    }

    method ReserveFrames(count: nat) returns (ok: bool)
      requires Valid()
      modifies this`frameRoom
      ensures Valid() && (ok ==> |rootFrames| + count <= frameRoom)
    {
      ok := *;
      if ok {
        frameRoom := Max(frameRoom, |rootFrames| + count);
      }
    }

    /** Reserve room for what is about to be adopted, then take a run of slots. */
    method TakeRun(count: nat, newFrames: nat, newAliases: nat) returns (base: Option<nat>)
      requires Valid()
      modifies this`place, this`aliasRoom, this`frameRoom
      ensures Valid()
      ensures base.None? ==> place == old(place)
      ensures base.Some? ==> count > 0 && (forall s :: base.value <= s < base.value + count ==> s !in old(place))
      ensures base.Some? ==> place == WithRun(old(place), base.value, count)
      ensures base.Some? ==> |rootFrames| + newFrames <= frameRoom && |aliases| + newAliases <= aliasRoom
    {
      var room := ReserveFrames(newFrames);
      if !room {
        return None;
      }
      room := ReserveAliases(newAliases);
      if !room {
        return None;
      }
      base := AllocRun(count);
    }

    /** A span of addresses that overlaps no span held from the same pool, or none. */
    method ReserveSpan(pool: Pool, bytes: nat) returns (base: Option<nat>)
      requires Valid()
      modifies this`spans
      ensures Valid()
      ensures base.None? ==> spans == old(spans)
      ensures base.Some? ==>
                spans == old(spans) + [Span(pool, base.value, bytes)] && base.value % 0x1000 == 0 && bytes > 0
      ensures base.Some? ==> ClearOf(old(spans), Span(pool, base.value, bytes))
    {
      var b: nat := *;
      var found: bool := *;
      if bytes == 0 || !found || b % 0x1000 != 0 || !ClearOf(spans, Span(pool, b, bytes)) {
        return None;
      }
      SpanReserved(spans, Span(pool, b, bytes));
      spans := spans + [Span(pool, b, bytes)];
      return Some(b);
    }

    method AdoptAlias(cap: nat, mapped: bool)
      requires Valid() && IsLoose(cap) && |aliases| < aliasRoom && (mapped ==> cap in mappedAt)
      modifies this`aliases, this`place
      ensures Valid() && aliases == old(aliases) + [Owned(cap, mapped)]
      ensures place == old(place)[cap := InAlias(|old(aliases)|)]
    {
      AliasAdopted(aliases, rootFrames, place, mappedAt, Owned(cap, mapped));
      place := place[cap := InAlias(|aliases|)];
      aliases := aliases + [Owned(cap, mapped)];
    }

    method AdoptFrame(cap: nat)
      requires Valid() && IsLoose(cap) && |rootFrames| < frameRoom
      modifies this`rootFrames, this`place
      ensures Valid() && rootFrames == old(rootFrames) + [Owned(cap, false)]
      ensures place == old(place)[cap := InFrame(|old(rootFrames)|)]
    {
      FrameAdopted(aliases, rootFrames, place, mappedAt, cap);
      place := place[cap := InFrame(|rootFrames|)];
      rootFrames := rootFrames + [Owned(cap, false)];
    }

    // ----- kernel calls -----

    /** Retype a frame of a device untyped into a loose slot; the kernel picks the page. */
    method Retype(slot: nat) returns (ok: bool)
      requires IsLoose(slot)
      modifies this`frames
      ensures ok ==> slot in frames && frames[slot] % 0x1000 == 0
      ensures forall s :: s in old(frames) && s != slot ==> s in frames && frames[s] == old(frames)[s]
    {
      var paddr: nat := *;
      ok := *;
      ok := ok && paddr % 0x1000 == 0;
      if ok {
        frames := frames[slot := paddr];
      }
    }

    /** Copy a capability into a new slot; a slot taken for a failed copy is given back. */
    method CopyCap(source: nat) returns (slot: Option<nat>)
      requires Valid() && source in place && source in frames
      modifies this`place, this`frames
      ensures Valid()
      ensures slot.None? ==> place == old(place) && frames == old(frames)
      ensures slot.Some? ==> slot.value !in old(place) && place == old(place)[slot.value := Loose]
      ensures slot.Some? ==> frames == old(frames)[slot.value := old(frames)[source]]
    {
      var taken := AllocRun(1);
      if taken.None? {
        return None;
      }
      var copied: bool := *;
      if !copied {
        Recycle(taken.value);
        assert place == old(place);
        return None;
      }
      frames := frames[taken.value := frames[source]];
      assert place == old(place)[taken.value := Loose];
      return taken;
    }

    /** Copy a capability into a given loose slot. */
    method CopyCapInto(source: nat, slot: nat) returns (ok: bool)
      requires source in frames && IsLoose(slot)
      modifies this`frames
      ensures frames == if ok then old(frames)[slot := old(frames)[source]] else old(frames)
    {
      ok := *;
      if ok {
        frames := frames[slot := frames[source]];
      }
    }

    /** Map the page of a loose alias at `va`. */
    method PageMap(alias: nat, va: nat) returns (ok: bool)
      requires Valid() && IsLoose(alias) && alias in frames
      modifies this`window, this`mappedAt
      ensures Valid()
      ensures !ok ==> window == old(window) && mappedAt == old(mappedAt)
      ensures ok ==> window == old(window)[va := frames[alias]] && mappedAt == old(mappedAt)[alias := va]
    {
      ok := *;
      if ok {
        MoreMapped(aliases, rootFrames, place, mappedAt, alias, va);
        window, mappedAt := window[va := frames[alias]], mappedAt[alias := va];
      }
    }

    // ----- rollback -----

    /** Unmap, delete and recycle the last alias, or leave it owned. */
    method PopAlias() returns (ok: bool)
      requires Valid() && aliases != []
      modifies this`aliases, this`place, this`window
      ensures Valid()
      ensures ok ==> aliases == old(aliases[..|aliases| - 1]) && place == old(place) - {old(aliases[|aliases| - 1].cap)}
      ensures !ok ==> place == old(place) && aliases in {old(aliases), WithoutMapping(old(aliases))}
      ensures WindowLess(old(window), window, old(aliases[|aliases| - 1]), mappedAt)
    {
      var n := |aliases| - 1;
      var alias := aliases[n];
      assert AliasHeld(aliases, place, mappedAt, n);
      if alias.mapped {
        var unmapped: bool := *;
        if !unmapped {
          return false;
        }
        AliasUnmapped(aliases, rootFrames, place, mappedAt, n);
        window := window - {mappedAt[alias.cap]};
        aliases := aliases[n := alias.(mapped := false)];
      }
      var deleted: bool := *;
      if !deleted {
        return false;
      }
      AliasPopped(aliases, rootFrames, place, mappedAt, n);
      aliases, place := aliases[..n], place - {alias.cap};
      return true;
    }

    /** Delete and recycle the last root frame, or leave it owned. */
    method PopFrame() returns (ok: bool)
      requires Valid() && rootFrames != []
      modifies this`rootFrames, this`place
      ensures Valid()
      ensures ok ==> rootFrames == old(rootFrames[..|rootFrames| - 1])
      ensures ok ==> place == old(place) - {old(rootFrames[|rootFrames| - 1].cap)}
      ensures !ok ==> rootFrames == old(rootFrames) && place == old(place)
    {
      var n := |rootFrames| - 1;
      var deleted: bool := *;
      if !deleted {
        return false;
      }
      FramePopped(aliases, rootFrames, place, mappedAt, n);
      place := place - {rootFrames[n].cap};
      rootFrames := rootFrames[..n];
      return true;
    }

    method RollbackAliases(floor: nat, ghost lo: nat, ghost hi: nat) returns (ok: bool)
      requires Valid() && floor <= |aliases| && MappedWithin(aliases, mappedAt, floor, lo, hi)
      modifies this`aliases, this`place, this`window
      ensures Valid() && floor <= |aliases| <= |old(aliases)| && aliases[..floor] == old(aliases)[..floor]
      ensures Rolled(old(place), place, |aliases|, |rootFrames|) && KeepsWindow(old(window), window, lo, hi)
      ensures ok <==> |aliases| == floor
    {
      RolledStart(aliases, rootFrames, place, mappedAt);
      while |aliases| > floor
        invariant Valid() && floor <= |aliases| <= |old(aliases)| && aliases[..floor] == old(aliases)[..floor]
        invariant MappedWithin(aliases, mappedAt, floor, lo, hi)
        invariant Rolled(old(place), place, |aliases|, |rootFrames|) && KeepsWindow(old(window), window, lo, hi)
      {
        ghost var before, held, seen := place, aliases, window;
        var popped := PopAlias();
        WindowStep(old(window), seen, window, held, mappedAt, floor, lo, hi);
        if !popped {
          assert aliases[..floor] == held[..floor];
          return false;
        }
        RolledAlias(old(place), before, held, rootFrames, mappedAt);
        WithinPrefix(held, mappedAt, floor, lo, hi);
        assert aliases[..floor] == held[..floor];
      }
      return true;
    }

    method RollbackFrames(floor: nat) returns (ok: bool)
      requires Valid() && floor <= |rootFrames|
      modifies this`rootFrames, this`place
      ensures Valid() && floor <= |rootFrames| <= |old(rootFrames)| && rootFrames[..floor] == old(rootFrames)[..floor]
      ensures Rolled(old(place), place, |aliases|, |rootFrames|)
      ensures ok <==> |rootFrames| == floor
    {
      RolledStart(aliases, rootFrames, place, mappedAt);
      while |rootFrames| > floor
        invariant Valid() && floor <= |rootFrames| <= |old(rootFrames)|
                  && rootFrames[..floor] == old(rootFrames)[..floor]
        invariant Rolled(old(place), place, |aliases|, |rootFrames|)
      {
        ghost var before, held := place, rootFrames;
        var popped := PopFrame();
        if !popped {
          return false;
        }
        RolledFrame(old(place), before, aliases, held, mappedAt);
      }
      return true;
    }

    /** Give back everything adopted since the checkpoint, as far as the kernel lets it: what is not given
        back is still owned, nothing below the checkpoint changes, and no loose slot is touched. */
    method RollbackTo(cp: Checkpoint, ghost lo: nat, ghost hi: nat) returns (ok: bool)
      requires Valid() && cp.aliases <= |aliases| && cp.rootFrames <= |rootFrames| && cp.spans <= |spans|
      requires MappedWithin(aliases, mappedAt, cp.aliases, lo, hi)
      modifies this`aliases, this`rootFrames, this`spans, this`place, this`window
      ensures Valid() && SameLoose(old(place), place) && KeepsWindow(old(window), window, lo, hi)
      ensures cp.aliases <= |aliases| && aliases[..cp.aliases] == old(aliases)[..cp.aliases]
      ensures cp.rootFrames <= |rootFrames| && rootFrames[..cp.rootFrames] == old(rootFrames)[..cp.rootFrames]
      ensures Rolled(old(place), place, |aliases|, |rootFrames|)
      ensures cp.spans <= |spans| && spans <= old(spans)
      ensures ok ==> Here() == cp
    {
      var one := RollbackAliases(cp.aliases, lo, hi);
      ghost var middle := place;
      var two := RollbackFrames(cp.rootFrames);
      assert Rolled(old(place), place, |aliases|, |rootFrames|) by {
        RolledBoth(old(place), middle, place, |aliases|, |old(rootFrames)|, |rootFrames|);
      }
      ok := one && two;
      while |spans| > cp.spans
        invariant cp.spans <= |spans| && spans <= old(spans) && SpansApart(spans)
        modifies this`spans
      {
        var released: bool := *;
        if !released {
          return false;
        }
        SpanReleased(spans, |spans| - 1);
        spans := spans[..|spans| - 1];
      }
    }
  }

  /** `q` is `p` without the slots of entries past the first `a` aliases and `f` frames. */
  ghost predicate Rolled(p: Places, q: Places, a: nat, f: nat) {
    && (forall s :: s in q ==> s in p && q[s] == p[s])
    && (forall s :: s in p ==> (s in q <==> Below(p[s], a, f)))
  }

  predicate Below(p: Place, a: nat, f: nat) {
    match p
    case Loose => true
    case InAlias(i) => i < a
    case InFrame(j) => j < f
  }

  lemma RolledStart(aliases: seq<Owned>, rootFrames: seq<Owned>, place: Places, mappedAt: map<nat, nat>)
    requires Balanced(aliases, rootFrames, place, mappedAt)
    ensures Rolled(place, place, |aliases|, |rootFrames|)
  {
    forall s | s in place ensures Below(place[s], |aliases|, |rootFrames|) {
      assert Holder(place[s], s, aliases, rootFrames);
    }
  }

  lemma RolledAlias(p: Places, q: Places, aliases: seq<Owned>, rootFrames: seq<Owned>, mappedAt: map<nat, nat>)
    requires Balanced(aliases, rootFrames, q, mappedAt) && aliases != []
    requires Rolled(p, q, |aliases|, |rootFrames|)
    ensures Rolled(p, q - {aliases[|aliases| - 1].cap}, |aliases| - 1, |rootFrames|)
  {
    var n := |aliases| - 1;
    assert AliasHeld(aliases, q, mappedAt, n);
    forall s | s in q && q[s] == InAlias(n) ensures s == aliases[n].cap {
      assert Holder(q[s], s, aliases, rootFrames);
    }
  }

  lemma RolledFrame(p: Places, q: Places, aliases: seq<Owned>, rootFrames: seq<Owned>, mappedAt: map<nat, nat>)
    requires Balanced(aliases, rootFrames, q, mappedAt) && rootFrames != []
    requires Rolled(p, q, |aliases|, |rootFrames|)
    ensures Rolled(p, q - {rootFrames[|rootFrames| - 1].cap}, |aliases|, |rootFrames| - 1)
  {
    var n := |rootFrames| - 1;
    assert FrameHeld(rootFrames, q, n);
    forall s | s in q && q[s] == InFrame(n) ensures s == rootFrames[n].cap {
      assert Holder(q[s], s, aliases, rootFrames);
    }
  }

  lemma RolledBoth(p: Places, q: Places, r: Places, a: nat, f: nat, f': nat)
    requires Rolled(p, q, a, f) && Rolled(q, r, a, f') && f' <= f
    ensures Rolled(p, r, a, f') && SameLoose(p, r)
  {
    forall s ensures LooseIn(p, s) <==> LooseIn(r, s) {
    }
  }

  /** Aliases past the first `floor` are mapped only in `[lo, hi)`. */
  ghost predicate MappedWithin(aliases: seq<Owned>, mappedAt: map<nat, nat>, floor: nat, lo: nat, hi: nat) {
    forall i :: floor <= i < |aliases| && aliases[i].mapped && aliases[i].cap in mappedAt ==>
      lo <= mappedAt[aliases[i].cap] < hi
  }

  /** Mappings outside `[lo, hi)` are kept. */
  ghost predicate KeepsWindow(w: map<nat, nat>, w': map<nat, nat>, lo: nat, hi: nat) {
    forall va :: va in w && !(lo <= va < hi) ==> va in w' && w'[va] == w[va]
  }

  /** The last alias, no longer mapped. */
  function WithoutMapping(aliases: seq<Owned>): seq<Owned>
    requires aliases != []
  {
    aliases[|aliases| - 1 := aliases[|aliases| - 1].(mapped := false)]
  }

  /** Only the mapping of `o` may be gone. */
  ghost predicate WindowLess(w: map<nat, nat>, w': map<nat, nat>, o: Owned, mappedAt: map<nat, nat>) {
    forall va :: va in w && !(o.mapped && o.cap in mappedAt && va == mappedAt[o.cap]) ==> va in w' && w'[va] == w[va]
  }

  lemma WindowStep(w0: map<nat, nat>, w: map<nat, nat>, w': map<nat, nat>, aliases: seq<Owned>, mappedAt: map<nat, nat>,
                   floor: nat, lo: nat, hi: nat)
    requires KeepsWindow(w0, w, lo, hi) && floor < |aliases| && MappedWithin(aliases, mappedAt, floor, lo, hi)
    requires WindowLess(w, w', aliases[|aliases| - 1], mappedAt)
    ensures KeepsWindow(w0, w', lo, hi)
  {
  }

  lemma WithinPrefix(aliases: seq<Owned>, mappedAt: map<nat, nat>, floor: nat, lo: nat, hi: nat)
    requires aliases != [] && MappedWithin(aliases, mappedAt, floor, lo, hi)
    ensures MappedWithin(aliases[..|aliases| - 1], mappedAt, floor, lo, hi)
  {
  }
}
