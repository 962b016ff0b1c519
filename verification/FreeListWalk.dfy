/** Following a list that may be damaged: what the words can still encode after each step, and what a
    complete walk adds up to. */
module FreeListWalk {
  import opened Words
  import opened Sizes
  import opened FreeList

  /** The words from the head on spell out `seen` and then link to `node`. */
  ghost predicate Walked(m: Memory, seen: seq<Block>, node: int, top: int) {
    && InOrder(seen, top)
    && At(m, FREE_HEAD) == (if seen == [] then node else seen[0].start)
    && forall k :: 0 <= k < |seen| ==> WalkedNode(m, seen, node, k)
  }

  ghost predicate WalkedNode(m: Memory, seen: seq<Block>, node: int, k: nat)
    requires k < |seen|
  {
    && At(m, seen[k].start) == seen[k].size
    && At(m, seen[k].start + 8) == if k + 1 < |seen| then seen[k + 1].start else node
  }

  ghost predicate IsList(m: Memory, f: seq<Block>, top: int) {
    Encodes(m, f) && InOrder(f, top)
  }

  /** Memory encodes some ordered, disjoint, in-range, granule-aligned list below `top`. */
  ghost predicate HasList(m: Memory, top: int) {
    exists f :: IsList(m, f, top)
  }

  /** Every well-formed list the memory could encode continues `seen` at `node`. */
  ghost predicate Forced(m: Memory, seen: seq<Block>, node: int, top: int) {
    forall f :: IsList(m, f, top) ==> Continues(f, seen, node)
  }

  ghost predicate Continues(f: seq<Block>, seen: seq<Block>, node: int) {
    |seen| <= |f| && (forall k :: 0 <= k < |seen| ==> f[k] == seen[k]) && node == Next(f, |seen|)
  }

  lemma WalkStep(m: Memory, seen: seq<Block>, node: int, top: int)
    requires Walked(m, seen, node, top) && node != 0
    requires (if seen == [] then DATA else seen[|seen| - 1].End()) <= node
    requires IsNode(Block(node, At(m, node)), top)
    ensures Walked(m, seen + [Block(node, At(m, node))], At(m, node + 8), top)
  {
    var b := Block(node, At(m, node));
    var g := seen + [b];
    forall i, j | 0 <= i < j < |g|
      ensures g[i].Before(g[j])
    {
      var last := |seen| - 1;
      assert i < last ==> seen[i].Before(seen[last]);
      assert j < |seen| ==> seen[i].Before(seen[j]);
    }
    var next := At(m, node + 8);
    forall k | 0 <= k < |g|
      ensures WalkedNode(m, g, next, k)
    {
      assert k < |seen| ==> WalkedNode(m, seen, node, k);
    }
  }

  /** A walk that reached the null link has seen a whole list. */
  lemma WalkedAll(m: Memory, seen: seq<Block>, top: int)
    requires Walked(m, seen, 0, top)
    ensures HasList(m, top)
  {
    forall k | 0 <= k < |seen| ensures NodeWords(m, seen, k) {
      assert WalkedNode(m, seen, 0, k);
    }
    assert IsList(m, seen, top);
  }

  lemma ForcedStep(m: Memory, seen: seq<Block>, node: int, top: int)
    requires Forced(m, seen, node, top) && node != 0
    ensures Forced(m, seen + [Block(node, At(m, node))], At(m, node + 8), top)
  {
    var b := Block(node, At(m, node));
    forall f | IsList(m, f, top)
      ensures Continues(f, seen + [b], At(m, node + 8))
    {
      assert Continues(f, seen, node);
      assert NodeWords(m, f, |seen|);
    }
  }

  /** A node that fails a check belongs to no well-formed list. */
  lemma Refuted(m: Memory, seen: seq<Block>, node: int, ctr: int, capacity: nat)
    requires 0 <= ctr <= capacity <= HEAP_SIZE && node != 0 && Forced(m, seen, node, DATA + ctr)
    requires BadNode(m, seen, node, DATA + ctr, capacity)
    ensures !HasList(m, DATA + ctr)
  {
    var top := DATA + ctr;
    forall f: seq<Block>
      ensures !IsList(m, f, top)
    {
      if IsList(m, f, top) {
        GoodNode(m, f, seen, node, ctr, capacity);
      }
    }
  }

  lemma GoodNode(m: Memory, f: seq<Block>, seen: seq<Block>, node: int, ctr: int, capacity: nat)
    requires 0 <= ctr <= capacity <= HEAP_SIZE && IsList(m, f, DATA + ctr)
    requires Continues(f, seen, node) && node != 0
    ensures !BadNode(m, seen, node, DATA + ctr, capacity)
  {
    var top, n := DATA + ctr, |seen|;
    assert NodeWords(m, f, n) && Granular(f[n]);
    assert n + 1 < |f| ==> Granular(f[n + 1]) && f[n].Before(f[n + 1]);
    assert n > 0 ==> f[n - 1].Before(f[n]);
    TotalFits(f, top);
    assert |f| <= capacity / FREE_NODE_SIZE;
  }

  /** Some check of the walk fails at `node`. */
  ghost predicate BadNode(m: Memory, seen: seq<Block>, node: int, top: int, capacity: nat) {
    var size, next: int := At(m, node), At(m, node + 8);
    || node < DATA || node >= top || node % GRANULE != 0 || |seen| >= capacity / FREE_NODE_SIZE
    || node + size >= USIZE_LIMIT
    || node < (if seen == [] then DATA else seen[|seen| - 1].End())
    || size < FREE_NODE_SIZE || size % GRANULE != 0 || node + size > top
    || (next != 0 && (next <= node || next < node + size || next >= top || next % GRANULE != 0))
  }

  /** Memory encodes at most one well-formed list. */
  lemma ListUnique(m: Memory, f: seq<Block>, g: seq<Block>, top: int)
    requires IsList(m, f, top) && IsList(m, g, top)
    ensures f == g
  {
    var n := 0;
    while n < |f| && n < |g|
      invariant 0 <= n <= |f| && n <= |g|
      invariant forall k :: 0 <= k < n ==> f[k] == g[k]
      invariant Next(f, n) == Next(g, n)
    {
      assert NodeWords(m, f, n) && NodeWords(m, g, n);
      n := n + 1;
    }
  }

  ghost predicate IsLargest(f: seq<Block>, n: int) {
    && (forall k :: 0 <= k < |f| ==> f[k].size <= n)
    && (if f == [] then n == 0 else exists k :: 0 <= k < |f| && f[k].size == n)
  }

  lemma UsageStep(f: seq<Block>, i: nat, top: int)
    requires InOrder(f, top) && i < |f|
    ensures Total(f[..i + 1]) == Total(f[..i]) + f[i].size
    ensures forall n :: IsLargest(f[..i], n) ==> IsLargest(f[..i + 1], Max(n, f[i].size))
    ensures Total(f[..i + 1]) <= top - DATA
  {
    assert f[..i + 1] == f[..i] + [f[i]] + [];
    TotalAround(f[..i], f[i], []);
    forall n | IsLargest(f[..i], n) ensures IsLargest(f[..i + 1], Max(n, f[i].size)) {
      assert f[..i + 1][i] == f[i];
      assert forall k :: 0 <= k < i ==> f[..i + 1][k] == f[..i][k];
    }
    PrefixInOrder(f, i + 1, top);
    TotalFits(f[..i + 1], top);
  }

  lemma PrefixInOrder(f: seq<Block>, n: nat, top: int)
    requires InOrder(f, top) && n <= |f|
    ensures InOrder(f[..n], top)
  {
    forall i, j | 0 <= i < j < n ensures f[..n][i].Before(f[..n][j]) {
      assert f[i].Before(f[j]);
    }
  }

  /** The node bound of the walk never cuts a valid list short. */
  lemma WalkComplete(f: seq<Block>, guard: nat, ctr: int, capacity: nat)
    requires InOrder(f, DATA + ctr) && 0 <= ctr <= capacity && guard <= |f|
    requires Next(f, guard) == 0 || guard >= capacity / FREE_NODE_SIZE
    ensures guard == |f| && f[..guard] == f && Total(f) <= ctr
  {
    if f != [] {
      TotalFits(f, DATA + ctr);
      assert |f| <= capacity / FREE_NODE_SIZE;
    }
  }
}
