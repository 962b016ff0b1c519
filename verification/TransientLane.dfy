/** The root executive's transient lane: blocks carved downward from the top of the heap, and the
    scope guards whose drop rewinds it. */
module TransientLane {
  import opened Words
  import opened Sizes

  const LANE_END := HEAP_BASE + HEAP_SIZE
  const LANE_START := LANE_END - TRANSIENT_SIZE

  /** A transient block; its space returns only when its scope is dropped. */
  datatype LaneBlock = LaneBlock(start: int, align: int, span: int) {
    function End(): int { start + span }
    /** Ends no later than `b` starts. */
    predicate Under(b: LaneBlock) { End() <= b.start }
  }

  /** The scope guards callers drop in the reverse order of their creation. `entry` is the number of
      transient blocks that existed when the guard was created. */
  datatype Guard =
    | TransientScope(previousMark: nat, previousDepth: nat, active: bool, entry: nat)
    | DurableScope(previousDepth: nat, active: bool, entry: nat)

  /** Lane bytes consumed by the blocks. */
  function UsedBy(lane: seq<LaneBlock>): int {
    if lane == [] then 0 else LANE_END - lane[|lane| - 1].start
  }

  predicate IsLaneBlock(b: LaneBlock) {
    && LANE_START <= b.start && b.End() <= LANE_END && b.span >= FREE_NODE_SIZE
    && b.start % 8 == 0 && Aligned(b.start, b.align)
  }

  /** Each block lies below all earlier ones, inside the lane, aligned as asked. */
  ghost predicate Descending(lane: seq<LaneBlock>) {
    && (forall i {:trigger IsLaneBlock(lane[i])} :: 0 <= i < |lane| ==> IsLaneBlock(lane[i]))
    && (forall i, j {:trigger lane[j].Under(lane[i])} :: 0 <= i < j < |lane| ==> lane[j].Under(lane[i]))
  }

  /** The routing depth the open guards stand for. */
  function DepthOf(guards: seq<Guard>): nat {
    if guards == [] then 0
    else match guards[|guards| - 1]
      case TransientScope(_, depth, active, _) => if active then depth + 1 else 0
      case DurableScope(_, _, _) => 0
  }

  predicate HasTransient(guards: seq<Guard>) {
    exists i :: 0 <= i < |guards| && guards[i].TransientScope?
  }

  /** What guard `i` remembers is what held when it was created. */
  ghost predicate GuardOk(guards: seq<Guard>, lane: seq<LaneBlock>, root: bool, i: nat)
    requires i < |guards|
  {
    var g := guards[i];
    && g.active == root && g.entry <= |lane|
    && (i > 0 ==> guards[i - 1].entry <= g.entry)
    && (root ==> g.previousDepth == DepthOf(guards[..i]))
    && (root && g.TransientScope? ==> g.previousMark == UsedBy(lane[..g.entry]))
    && (g.entry > 0 ==> HasTransient(guards[..i]))
  }

  ghost predicate GuardsOk(guards: seq<Guard>, lane: seq<LaneBlock>, root: bool) {
    && (forall i :: 0 <= i < |guards| ==> GuardOk(guards, lane, root, i))
    && (lane != [] ==> root && HasTransient(guards))
  }

  /** The lane's words agree with the blocks carved from it and the guards that are open. */
  ghost predicate LaneHeld(lane: seq<LaneBlock>, guards: seq<Guard>, root: bool, used: nat, depth: nat, high: nat) {
    && Descending(lane) && GuardsOk(guards, lane, root)
    && used == UsedBy(lane)
    && depth == (if root then DepthOf(guards) else 0)
    && used <= high <= TRANSIENT_SIZE
  }

  lemma EmptyLane(root: bool)
    ensures LaneHeld([], [], root, 0, 0, 0)
  {
  }

  /** The mark and the depth follow from the blocks and the guards. */
  lemma LaneDetermined(lane: seq<LaneBlock>, guards: seq<Guard>, root: bool, used: nat, depth: nat, high: nat,
                       used': nat, depth': nat, high': nat)
    requires LaneHeld(lane, guards, root, used, depth, high) && LaneHeld(lane, guards, root, used', depth', high')
    ensures used' == used && depth' == depth
  {
  }

  /** The lane has room for a block: rounded down to its alignment, its start is still in the lane. */
  predicate LaneFits(used: nat, size: nat, align: int) {
    && BlockSize(size).Some? && BlockBytes(size) + used <= LANE_END
    && AlignDown(LANE_END - used - BlockBytes(size), Max(align, GRANULE)) >= LANE_START
  }

  lemma LaneExtend(lane: seq<LaneBlock>, guards: seq<Guard>, used: nat, depth: nat, high: nat, b: LaneBlock, used': nat,
                   high': nat)
    requires LaneHeld(lane, guards, true, used, depth, high) && HasTransient(guards)
    requires IsLaneBlock(b) && b.End() <= LANE_END - used
    requires used' == LANE_END - b.start && high' == Max(high, used')
    ensures LaneHeld(lane + [b], guards, true, used', depth, high')
  {
    DescendingExtend(lane, b);
    UsedByBound(lane + [b]);
    GuardsExtend(guards, lane, true, b);
  }

  lemma LanePush(lane: seq<LaneBlock>, guards: seq<Guard>, root: bool, used: nat, depth: nat, high: nat, g: Guard,
                 depth': nat)
    requires LaneHeld(lane, guards, root, used, depth, high) && g.active == root && g.entry == |lane|
    requires root ==> g.previousDepth == depth && (g.TransientScope? ==> g.previousMark == used)
    requires depth' == if root && g.TransientScope? then depth + 1 else 0
    ensures LaneHeld(lane, guards + [g], root, used, depth', high)
  {
    GuardsPush(guards, lane, root, g);
    assert (guards + [g])[|guards|] == g;
  }

  /** Dropping the innermost guard: a transient scope gives its blocks back, and the words of the lane are
      what the guard remembers. */
  lemma LanePop(lane: seq<LaneBlock>, guards: seq<Guard>, root: bool, used: nat, depth: nat, high: nat, g: Guard,
                guards': seq<Guard>, lane': seq<LaneBlock>)
    requires LaneHeld(lane, guards, root, used, depth, high) && guards != []
    requires g == guards[|guards| - 1] && guards' == guards[..|guards| - 1] && g.entry <= |lane|
    requires lane' == if g.TransientScope? then lane[..g.entry] else lane
    ensures g.active == root
    ensures LaneHeld(lane', guards', root, if root && g.TransientScope? then g.previousMark else used,
                     if root then g.previousDepth else depth, high)
    ensures root && g.TransientScope? ==> depth == g.previousDepth + 1
  {
    var n := |guards| - 1;
    assert GuardOk(guards, lane, root, n);
    GuardsPop(guards, lane, root);
    if g.TransientScope? {
      DescendingPrefix(lane, g.entry);
      PrefixUses(lane, g.entry);
    }
  }

  lemma PrefixUses(lane: seq<LaneBlock>, n: nat)
    requires Descending(lane) && n <= |lane|
    ensures UsedBy(lane[..n]) <= UsedBy(lane)
  {
    UsedByBound(lane);
    if 0 < n {
      assert IsLaneBlock(lane[|lane| - 1]);
      assert n < |lane| ==> lane[|lane| - 1].Under(lane[n - 1]);
    }
  }

  lemma EntryInLane(lane: seq<LaneBlock>, guards: seq<Guard>, root: bool)
    requires GuardsOk(guards, lane, root) && guards != []
    ensures guards[|guards| - 1].entry <= |lane|
  {
    assert GuardOk(guards, lane, root, |guards| - 1);
  }

  /** Guards stay valid as the lane grows. */
  lemma GuardsExtend(guards: seq<Guard>, lane: seq<LaneBlock>, root: bool, b: LaneBlock)
    requires GuardsOk(guards, lane, root) && root && HasTransient(guards)
    ensures GuardsOk(guards, lane + [b], root)
  {
    forall i | 0 <= i < |guards| ensures GuardOk(guards, lane + [b], root, i) {
      assert GuardOk(guards, lane, root, i);
      assert (lane + [b])[..guards[i].entry] == lane[..guards[i].entry];
    }
  }

  lemma GuardsPush(guards: seq<Guard>, lane: seq<LaneBlock>, root: bool, g: Guard)
    requires GuardsOk(guards, lane, root) && g.active == root && g.entry == |lane|
    requires root ==> g.previousDepth == DepthOf(guards) && (g.TransientScope? ==> g.previousMark == UsedBy(lane))
    ensures GuardsOk(guards + [g], lane, root)
  {
    var gs := guards + [g];
    assert gs[..|guards|] == guards && lane[..g.entry] == lane;
    forall i | 0 <= i < |gs| ensures GuardOk(gs, lane, root, i) {
      if i < |guards| {
        assert GuardOk(guards, lane, root, i);
        assert gs[..i] == guards[..i];
      } else if i > 0 {
        assert GuardOk(guards, lane, root, i - 1);
      }
    }
    if HasTransient(guards) {
      var i :| 0 <= i < |guards| && guards[i].TransientScope?;
      assert gs[i].TransientScope?;
    }
  }

  /** Dropping the last guard rewinds the lane to its entry (transient) or leaves it (durable). */
  lemma GuardsPop(guards: seq<Guard>, lane: seq<LaneBlock>, root: bool)
    requires guards != [] && GuardsOk(guards, lane, root)
    ensures var g := guards[|guards| - 1];
            && g.entry <= |lane|
            && GuardsOk(guards[..|guards| - 1], if g.TransientScope? then lane[..g.entry] else lane, root)
  {
    var n := |guards| - 1;
    var g, gs := guards[n], guards[..n];
    assert GuardOk(guards, lane, root, n);
    var lane' := if g.TransientScope? then lane[..g.entry] else lane;
    forall i | 0 <= i < |gs| ensures GuardOk(gs, lane', root, i) {
      assert GuardOk(guards, lane, root, i);
      EntriesAscend(guards, lane, root, i, n);
      assert gs[..i] == guards[..i] && lane'[..gs[i].entry] == lane[..gs[i].entry];
    }
    if lane' != [] && !g.TransientScope? {
      var i :| 0 <= i < |guards| && guards[i].TransientScope?;
      assert gs[i].TransientScope?;
    }
  }

  lemma {:induction false} EntriesAscend(guards: seq<Guard>, lane: seq<LaneBlock>, root: bool, i: nat, j: nat)
    requires GuardsOk(guards, lane, root) && i <= j < |guards|
    ensures guards[i].entry <= guards[j].entry
    decreases j
  {
    if i < j {
      assert GuardOk(guards, lane, root, j);
      EntriesAscend(guards, lane, root, i, j - 1);
    }
  }

  lemma DescendingPrefix(lane: seq<LaneBlock>, n: nat)
    requires Descending(lane) && n <= |lane|
    ensures Descending(lane[..n])
  {
    var l := lane[..n];
    forall i | 0 <= i < n ensures IsLaneBlock(l[i]) { assert IsLaneBlock(lane[i]); }
    forall i, j | 0 <= i < j < n ensures l[j].Under(l[i]) { assert lane[j].Under(lane[i]); }
  }

  lemma DescendingExtend(lane: seq<LaneBlock>, b: LaneBlock)
    requires Descending(lane) && IsLaneBlock(b) && b.End() <= LANE_END - UsedBy(lane)
    ensures Descending(lane + [b]) && UsedBy(lane + [b]) == LANE_END - b.start
  {
    var l, last := lane + [b], |lane| - 1;
    forall i | 0 <= i < |l| ensures IsLaneBlock(l[i]) {
      assert i < |lane| ==> IsLaneBlock(lane[i]);
    }
    forall i, j | 0 <= i < j < |l| ensures l[j].Under(l[i]) {
      assert j < |lane| ==> lane[j].Under(lane[i]);
      assert i < last ==> lane[last].Under(lane[i]) && IsLaneBlock(lane[last]);
    }
  }

  lemma UsedByBound(lane: seq<LaneBlock>)
    requires Descending(lane)
    ensures 0 <= UsedBy(lane) <= TRANSIENT_SIZE
  {
    assert lane != [] ==> IsLaneBlock(lane[|lane| - 1]);
  }
}
