/** On-demand commitment of the root executive's durable heap in 512-frame windows. */
module Commitment {
  import opened Words
  import opened Sizes

  const WINDOW := 512

  function DivCeil(a: nat, b: nat): (q: nat)
    requires b > 0
    ensures b * (q - 1) < a <= b * q
  {
    assert a == b * (a / b) + a % b;
    if a % b == 0 then a / b else a / b + 1
  }

  /** The commitment, in frames, that a request ending at `requestedEnd` asks for. */
  function RootCommitTarget(current: nat, requestedEnd: nat): (r: Option<nat>) {
    if requestedEnd < HEAP_BASE then None
    else
      var requested := DivCeil(requestedEnd - HEAP_BASE, PAGE);
      if current < INITIAL_FRAMES || current > DURABLE_FRAMES || requested > DURABLE_FRAMES then None
      else if requested <= current then Some(current)
      else Some(Min(Max(DivCeil(requested, WINDOW) * WINDOW, current + WINDOW), DURABLE_FRAMES))
  }

  /** Commitments that the boot and growth paths can reach. */
  predicate IsCommitment(frames: nat) {
    INITIAL_FRAMES <= frames <= DURABLE_FRAMES && frames % WINDOW == 0
  }

  const WINDOW_BYTES := 0x20_0000

  /** The same in bytes. */
  predicate IsCommittedBytes(bytes: nat) {
    INITIAL_FRAMES * PAGE <= bytes <= DURABLE_FRAMES * PAGE && WholeWindows(bytes)
  }

  predicate WholeWindows(bytes: nat) {
    bytes == 0 || (bytes >= WINDOW_BYTES && WholeWindows(bytes - WINDOW_BYTES))
  }

  lemma {:induction false} WholeWindowsMeans(bytes: nat)
    ensures WholeWindows(bytes) <==> bytes % WINDOW_BYTES == 0
    decreases bytes
  {
    if bytes >= WINDOW_BYTES {
      WholeWindowsMeans(bytes - WINDOW_BYTES);
    }
  }

  lemma CommittedFrames(bytes: nat)
    requires IsCommittedBytes(bytes)
    ensures bytes % PAGE == 0 && IsCommitment(bytes / PAGE)
  {
    WholeWindowsMeans(bytes);
    var n := bytes / WINDOW_BYTES;
    assert bytes == n * WINDOW_BYTES;
  }

  lemma FramesCommitted(frames: nat)
    requires IsCommitment(frames)
    ensures IsCommittedBytes(frames * PAGE)
  {
    WholeWindowsMeans(frames * PAGE);
    var n := frames / WINDOW;
    assert frames * PAGE == n * WINDOW_BYTES;
  }

  /** A grant covers the request, stays in whole windows below the transient lane, never shrinks,
      and asking again for the same end changes nothing. Refusal means the end lies beyond it. */
  lemma CommitTarget(current: nat, requestedEnd: nat)
    requires IsCommitment(current) && HEAP_BASE <= requestedEnd
    ensures RootCommitTarget(current, requestedEnd).None? <==> requestedEnd > HEAP_BASE + DURABLE_FRAMES * PAGE
    ensures RootCommitTarget(current, requestedEnd).Some? ==>
              var t := RootCommitTarget(current, requestedEnd).value;
              && IsCommitment(t) && current <= t
              && requestedEnd <= HEAP_BASE + t * PAGE
              && (t == current <==> requestedEnd <= HEAP_BASE + current * PAGE)
              && RootCommitTarget(t, requestedEnd) == Some(t)
              && (t > current ==>
                    t >= current + WINDOW && (t > current + WINDOW ==> HEAP_BASE + (t - WINDOW) * PAGE < requestedEnd))
  {
    var requested := DivCeil(requestedEnd - HEAP_BASE, PAGE);
    if requested <= DURABLE_FRAMES && requested > current {
      var q := DivCeil(requested, WINDOW);
      assert q * WINDOW % WINDOW == 0;
      var k := current / WINDOW;
      assert current == k * WINDOW;
      assert q > k;
      assert q <= 30;
    }
  }

  /** Successive granted commitments of one heap, each answering some request. */
  ghost predicate IsGrowthChain(c: seq<nat>, ends: seq<nat>) {
    && |c| == |ends| + 1 && c[0] == INITIAL_FRAMES
    && (forall i :: 0 <= i < |ends| ==> HEAP_BASE <= ends[i])
    && (forall i :: 0 <= i < |ends| ==> RootCommitTarget(c[i], ends[i]) == Some(c[i + 1]) && c[i + 1] != c[i])
  }

  /** At most 14 growing commitments happen in a heap's lifetime, all of them reachable windows. */
  lemma GrowthChainBound(c: seq<nat>, ends: seq<nat>)
    requires IsGrowthChain(c, ends)
    ensures |ends| <= 14
    ensures forall i :: 0 <= i < |c| ==> IsCommitment(c[i])
  {
    var n := 0;
    while n < |ends|
      invariant 0 <= n <= |ends|
      invariant forall i :: 0 <= i <= n ==> IsCommitment(c[i])
      invariant c[n] >= INITIAL_FRAMES + n * WINDOW
    {
      CommitTarget(c[n], ends[n]);
      n := n + 1;
    }
  }

  // ----- growths of one heap -----

  /** The root has committed whole windows and grown `growths` times since boot; a component has a limit. */
  predicate Configured(limit: nat, committed: nat, growths: nat) {
    if limit == 0 then IsCommittedBytes(committed) && committed >= INITIAL_FRAMES * PAGE + growths * WINDOW_BYTES
    else PAGE <= limit <= HEAP_SIZE && growths == 0
  }

  /** A heap commits more at most 14 times. */
  lemma GrowthsBounded(limit: nat, committed: nat, growths: nat)
    requires Configured(limit, committed, growths)
    ensures growths <= 14
  {
  }

  /** Publishing more whole windows counts as one more growth. */
  lemma PublishedGrowth(committed: nat, growths: nat, frames: nat)
    requires Configured(0, committed, growths) && IsCommitment(frames) && frames * PAGE > committed
    ensures Configured(0, frames * PAGE, growths + 1)
  {
    CommittedFrames(committed);
    FramesCommitted(frames);
    WindowsApart(committed / PAGE, frames);
  }

  lemma WindowsApart(a: nat, b: nat)
    requires a % WINDOW == 0 && b % WINDOW == 0 && a < b
    ensures a + WINDOW <= b
  {
    var i, j := a / WINDOW, b / WINDOW;
    assert a == i * WINDOW && b == j * WINDOW;
  }
}
