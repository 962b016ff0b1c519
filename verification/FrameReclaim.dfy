/** Reclaiming one row of the client frame registry: a row names up to three capabilities, possibly the same
    one in several roles, and gives them up through kernel calls any of which may fail. Acknowledged calls
    are remembered in the row, so a failed attempt can be resumed. */
module FrameReclaim {
  import opened Words

  /** A bit for each role a capability can have in a row. */
  datatype Mask = Mask(frame: bool, alias: bool, source: bool) {
    predicate Empty() { !frame && !alias && !source }

    predicate Within(m: Mask) { (frame ==> m.frame) && (alias ==> m.alias) && (source ==> m.source) }

    predicate Apart(m: Mask) { !(frame && m.frame) && !(alias && m.alias) && !(source && m.source) }

    function Or(m: Mask): Mask { Mask(frame || m.frame, alias || m.alias, source || m.source) }

    function AndNot(m: Mask): Mask { Mask(frame && !m.frame, alias && !m.alias, source && !m.source) }
  }

  const NONE := Mask(false, false, false)

  datatype Intent = Release | Pageout(protection: nat)

  /** The calls acknowledged so far, by role. */
  datatype Progress = Progress(intent: Intent, unmapped: Mask, deleted: Mask, revoked: bool, complete: bool)

  datatype Lifetime = Process(identity: nat) | UnpublishedImage(token: nat)

  /** The three capabilities a row names; zero names none. */
  datatype Caps = Caps(frame: nat, alias: nat, source: nat)

  datatype Row = Row(
    id: nat, pi: nat, lifetime: Lifetime, page: nat,
    caps: Caps, aliasAt: nat, ownsFrame: bool, backing: nat, age: nat,
    cleanup: Option<Progress>, transfer: bool)

  /** The roles in which `cap` is named. */
  function Roles(c: Caps, cap: nat): Mask {
    if cap == 0 then NONE else Mask(c.frame == cap, c.alias == cap, c.source == cap)
  }

  function Without(c: Caps, cap: nat): Caps {
    Caps(if c.frame == cap then 0 else c.frame, if c.alias == cap then 0 else c.alias,
         if c.source == cap then 0 else c.source)
  }

  predicate Present(c: Caps, cap: nat) {
    !Roles(c, cap).Empty()
  }

  // ----- the journal of acknowledged kernel calls -----

  datatype Op = Unmap(cap: nat) | Delete(cap: nat) | Recycle(cap: nat) | Revoke(cap: nat) | Publish(cap: nat)

  /** The calls made on one capability, in order. */
  function On(j: seq<Op>, cap: nat): seq<Op> {
    if j == [] then [] else
    var rest, op := On(j[..|j| - 1], cap), j[|j| - 1];
    if op.cap == cap then rest + [op] else rest
  }

  function OnlyFor(op: Op, cap: nat): seq<Op> {
    if op.cap == cap then [op] else []
  }

  lemma OnAppend(j: seq<Op>, op: Op, cap: nat)
    ensures On(j + [op], cap) == On(j, cap) + OnlyFor(op, cap)
  {
    assert (j + [op])[..|j + [op]| - 1] == j;
  }

  /** How far reclamation has come: the capabilities still named, the owned backing, and the progress. */
  datatype Stage = Stage(caps: Caps, backing: nat, unmapped: Mask, deleted: Mask, revoked: bool)

  /** The calls a stage says were made on `cap`, `o` being the capabilities named at the start. */
  function Made(o: Caps, s: Stage, cap: nat): seq<Op> {
    if !Present(o, cap) then []
    else if !Present(s.caps, cap) then [Unmap(cap), Delete(cap), Recycle(cap)]
    else if !Roles(s.caps, cap).Within(s.unmapped) then []
    else if Roles(s.caps, cap).Within(s.deleted) then [Unmap(cap), Delete(cap)]
    else if cap == s.backing && s.revoked then [Unmap(cap), Revoke(cap)]
    else [Unmap(cap)]
  }

  /** The bits of one capability's roles agree. */
  predicate Uniform(c: Caps, m: Mask) {
    && (c.frame == c.alias != 0 ==> m.frame == m.alias)
    && (c.frame == c.source != 0 ==> m.frame == m.source)
    && (c.alias == c.source != 0 ==> m.alias == m.source)
  }

  /** A role's capability is the original one or gone, and equal capabilities go together. */
  predicate Shrunk(o: Caps, c: Caps) {
    && (c.frame == o.frame || c.frame == 0) && (c.alias == o.alias || c.alias == 0)
    && (c.source == o.source || c.source == 0)
    && (o.frame == o.alias ==> c.frame == c.alias) && (o.frame == o.source ==> c.frame == c.source)
    && (o.alias == o.source ==> c.alias == c.source)
  }

  /** Nothing is left to do for `cap`: it is gone, or it is the owned backing and unmapped. */
  predicate CapDone(s: Stage, cap: nat) {
    Present(s.caps, cap) ==> cap == s.backing && Roles(s.caps, cap).Within(s.unmapped)
  }

  predicate AllDone(s: Stage) {
    CapDone(s, s.caps.frame) && CapDone(s, s.caps.alias) && CapDone(s, s.caps.source)
  }

  /** Nothing is deleted before it is unmapped, the owned backing is never deleted and stays named, and it
      is revoked only when the rest is done. */
  predicate Steady(o: Caps, s: Stage) {
    && Shrunk(o, s.caps) && Uniform(s.caps, s.unmapped) && Uniform(s.caps, s.deleted)
    && s.deleted.Within(s.unmapped)
    && (s.backing != 0 ==>
          && Present(o, s.backing) && Roles(s.caps, s.backing) == Roles(o, s.backing)
          && Roles(s.caps, s.backing).Apart(s.deleted))
    && (s.revoked ==> s.backing != 0 && AllDone(s))
  }

  /** The stage accounts exactly for the calls made: each at most once, in order. */
  ghost predicate Tracked(o: Caps, s: Stage, j: seq<Op>) {
    Steady(o, s) && forall cap :: cap != 0 ==> On(j, cap) == Made(o, s, cap)
  }

  // ----- one acknowledged call -----

  function Unmapped(s: Stage, cap: nat): Stage {
    s.(unmapped := s.unmapped.Or(Roles(s.caps, cap)))
  }

  function Deleted(s: Stage, cap: nat): Stage {
    s.(deleted := s.deleted.Or(Roles(s.caps, cap)))
  }

  function Recycled(s: Stage, cap: nat): Stage {
    var m := Roles(s.caps, cap);
    s.(caps := Without(s.caps, cap), unmapped := s.unmapped.AndNot(m), deleted := s.deleted.AndNot(m))
  }

  /** `s'` is `s` with one more call on its books. */
  ghost predicate Advances(o: Caps, s: Stage, s': Stage, op: Op) {
    Steady(o, s') && forall cap :: cap != 0 ==> Made(o, s', cap) == Made(o, s, cap) + OnlyFor(op, cap)
  }

  lemma Journalled(o: Caps, s: Stage, s': Stage, j: seq<Op>, op: Op)
    requires Tracked(o, s, j) && Advances(o, s, s', op)
    ensures Tracked(o, s', j + [op])
  {
    forall cap | cap != 0 ensures On(j + [op], cap) == Made(o, s', cap) {
      OnAppend(j, op, cap);
    }
  }

  lemma UnmapStep(o: Caps, s: Stage, cap: nat)
    requires Steady(o, s) && !s.revoked && Present(s.caps, cap) && !Roles(s.caps, cap).Within(s.unmapped)
    ensures Advances(o, s, Unmapped(s, cap), Unmap(cap))
  {
    var s' := Unmapped(s, cap);
    forall c | c != 0 ensures Made(o, s', c) == Made(o, s, c) + OnlyFor(Unmap(cap), c) {
      UnmapMade(o, s, cap, c);
    }
  }

  lemma UnmapMade(o: Caps, s: Stage, cap: nat, c: nat)
    requires Steady(o, s) && !s.revoked && Present(s.caps, cap) && !Roles(s.caps, cap).Within(s.unmapped)
    ensures Made(o, Unmapped(s, cap), c) == Made(o, s, c) + OnlyFor(Unmap(cap), c)
  {
  }

  lemma DeleteStep(o: Caps, s: Stage, cap: nat)
    requires Steady(o, s) && !s.revoked && Present(s.caps, cap) && cap != s.backing
    requires Roles(s.caps, cap).Within(s.unmapped) && !Roles(s.caps, cap).Within(s.deleted)
    ensures Advances(o, s, Deleted(s, cap), Delete(cap))
  {
    var s' := Deleted(s, cap);
    forall c | c != 0 ensures Made(o, s', c) == Made(o, s, c) + OnlyFor(Delete(cap), c) {
      DeleteMade(o, s, cap, c);
    }
  }

  lemma DeleteMade(o: Caps, s: Stage, cap: nat, c: nat)
    requires Steady(o, s) && !s.revoked && Present(s.caps, cap) && cap != s.backing
    requires Roles(s.caps, cap).Within(s.unmapped) && !Roles(s.caps, cap).Within(s.deleted)
    ensures Made(o, Deleted(s, cap), c) == Made(o, s, c) + OnlyFor(Delete(cap), c)
  {
  }

  lemma RecycleStep(o: Caps, s: Stage, cap: nat)
    requires Steady(o, s) && !s.revoked && Present(s.caps, cap) && cap != s.backing
    requires Roles(s.caps, cap).Within(s.deleted)
    ensures Advances(o, s, Recycled(s, cap), Recycle(cap))
  {
    var s' := Recycled(s, cap);
    RecycleSteady(o, s, cap);
    forall c | c != 0 ensures Made(o, s', c) == Made(o, s, c) + OnlyFor(Recycle(cap), c) {
      RecycleMade(o, s, cap, c);
    }
  }

  lemma RecycleSteady(o: Caps, s: Stage, cap: nat)
    requires Steady(o, s) && !s.revoked && Present(s.caps, cap) && cap != s.backing
    ensures Steady(o, Recycled(s, cap))
  {
  }

  lemma RecycleMade(o: Caps, s: Stage, cap: nat, c: nat)
    requires Steady(o, s) && !s.revoked && Present(s.caps, cap) && cap != s.backing
    requires Roles(s.caps, cap).Within(s.deleted)
    ensures Made(o, Recycled(s, cap), c) == Made(o, s, c) + OnlyFor(Recycle(cap), c)
  {
  }

  lemma RevokeStep(o: Caps, s: Stage)
    requires Steady(o, s) && !s.revoked && AllDone(s) && s.backing != 0
    ensures Advances(o, s, s.(revoked := true), Revoke(s.backing))
  {
  }

  /** When all is done each capability has been unmapped once, and deleted and recycled once each but the
      owned backing, which has been revoked once instead. */
  lemma FinishedCalls(o: Caps, s: Stage, j: seq<Op>, cap: nat)
    requires Tracked(o, s, j) && AllDone(s) && (s.backing != 0 ==> s.revoked) && cap != 0
    ensures On(j, cap) ==
            if !Present(o, cap) then []
            else if cap == s.backing then [Unmap(cap), Revoke(cap)]
            else [Unmap(cap), Delete(cap), Recycle(cap)]
  {
  }
}
