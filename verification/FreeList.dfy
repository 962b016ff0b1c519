/** The intrusive free list: what it means for memory to hold a list of free blocks, how each link
    or node write edits that list, and why a coalesced list is determined by the bytes it covers. */
module FreeList {
  import opened Words
  import opened Sizes

  datatype Block = Block(start: int, size: int) {
    function End(): int { start + size }
    predicate Has(a: int) { start <= a < End() }
    /** Ends no later than `b` starts. */
    predicate Before(b: Block) { End() <= b.start }
    /** Ends before `b` starts, with a gap between. */
    predicate Below(b: Block) { End() < b.start }
  }

  predicate IsNode(b: Block, top: int) {
    DATA <= b.start && b.size >= FREE_NODE_SIZE && b.End() <= top && Granular(b)
  }

  predicate Granular(b: Block) {
    b.start % 8 == 0 && b.size % 8 == 0
  }

  /** Address-ordered, disjoint blocks inside `[DATA, top)`. */
  ghost predicate Spaced(f: seq<Block>, top: int) {
    && (forall i :: 0 <= i < |f| ==> DATA <= f[i].start && f[i].size >= FREE_NODE_SIZE && f[i].End() <= top)
    && (forall i, j {:trigger f[i].Before(f[j])} :: 0 <= i < j < |f| ==> f[i].Before(f[j]))
  }

  /** A well-formed free list: ordered, disjoint, in range and granule-aligned. */
  ghost predicate InOrder(f: seq<Block>, top: int) {
    && Spaced(f, top)
    && (forall i :: 0 <= i < |f| ==> Granular(f[i]))
  }

  /** No two free blocks touch. */
  ghost predicate Coalesced(f: seq<Block>) {
    forall i, j {:trigger f[i].Below(f[j])} :: 0 <= i < j < |f| ==> f[i].Below(f[j])
  }

  ghost predicate Covers(f: seq<Block>, a: int) {
    exists i {:trigger f[i].Has(a)} :: 0 <= i < |f| && f[i].Has(a)
  }

  function Total(f: seq<Block>): int {
    if f == [] then 0 else f[0].size + Total(f[1..])
  }

  /** Address of node `i`, or the null link past the end. */
  function Next(f: seq<Block>, i: nat): int {
    if i < |f| then f[i].start else 0
  }

  /** Address of the word that links to node `i`. */
  function Link(f: seq<Block>, i: nat): int
    requires i <= |f|
  {
    if i == 0 then FREE_HEAD else f[i - 1].start + 8
  }

  /** The words spell out the list `f`: `{ size, next }` inside each block. */
  ghost predicate Encodes(w: Memory, f: seq<Block>) {
    && At(w, FREE_HEAD) == Next(f, 0)
    && forall i :: 0 <= i < |f| ==> NodeWords(w, f, i)
  }

  ghost predicate NodeWords(w: Memory, f: seq<Block>, i: nat)
    requires i < |f|
  {
    At(w, f[i].start) == f[i].size && At(w, f[i].start + 8) == Next(f, i + 1)
  }

  /** `w'` is `w` after storing `v` at `a`. */
  ghost predicate Updates(w: Memory, w': Memory, a: int, v: int) {
    At(w', a) == v && forall b {:trigger At(w', b)} :: b != a ==> At(w', b) == At(w, b)
  }

  // ----- the four edits, element by element -----

  ghost predicate Removed(f: seq<Block>, i: nat, g: seq<Block>) {
    && i < |f| && |g| + 1 == |f|
    && (forall k {:trigger g[k]} :: 0 <= k < i ==> g[k] == f[k])
    && (forall k {:trigger g[k]} :: i <= k < |g| ==> g[k] == f[k + 1])
  }

  ghost predicate Inserted(f: seq<Block>, i: nat, b: Block, g: seq<Block>) {
    && i <= |f| && |g| == |f| + 1 && g[i] == b
    && (forall k {:trigger g[k]} :: 0 <= k < i ==> g[k] == f[k])
    && (forall k {:trigger g[k]} :: i < k < |g| ==> g[k] == f[k - 1])
  }

  /** Node `i` has absorbed node `i + 1`. */
  ghost predicate Merged(f: seq<Block>, i: nat, g: seq<Block>) {
    && i + 1 < |f| && |g| + 1 == |f|
    && g[i] == Block(f[i].start, f[i].size + f[i + 1].size)
    && (forall k {:trigger g[k]} :: 0 <= k < i ==> g[k] == f[k])
    && (forall k {:trigger g[k]} :: i < k < |g| ==> g[k] == f[k + 1])
  }

  function RemoveAt(f: seq<Block>, i: nat): (g: seq<Block>)
    requires i < |f|
    ensures Removed(f, i, g)
  {
    f[..i] + f[i + 1..]
  }

  function InsertAt(f: seq<Block>, i: nat, b: Block): (g: seq<Block>)
    requires i <= |f|
    ensures Inserted(f, i, b, g)
  {
    f[..i] + [b] + f[i..]
  }

  function MergeAt(f: seq<Block>, i: nat): (g: seq<Block>)
    requires i + 1 < |f|
    ensures Merged(f, i, g)
  {
    f[..i] + [Block(f[i].start, f[i].size + f[i + 1].size)] + f[i + 2..]
  }

  // ----- link and node writes edit the encoded list -----

  /** The word linking to node `i` lies apart from every node but the one before. */
  lemma LinkApart(f: seq<Block>, i: nat, top: int, j: nat)
    requires Spaced(f, top) && i <= |f| && j < |f|
    ensures Link(f, i) + 8 <= f[j].start || f[j].start + 8 <= Link(f, i)
    ensures j + 1 != i ==> Link(f, i) + 8 <= f[j].start || f[j].End() <= Link(f, i)
    ensures Link(f, i) == FREE_HEAD || FREE_HEAD + 8 <= Link(f, i)
  {
    if 0 < i {
      assert j < i - 1 ==> f[j].Before(f[i - 1]);
      assert i - 1 < j ==> f[i - 1].Before(f[j]);
    }
  }

  lemma UnlinkEncodes(w: Memory, w': Memory, f: seq<Block>, i: nat, g: seq<Block>, top: int)
    requires Encodes(w, f) && Spaced(f, top) && Removed(f, i, g)
    requires Updates(w, w', Link(f, i), Next(f, i + 1))
    ensures Encodes(w', g)
  {
    LinkApart(f, i, top, i);
    assert Next(g, 0) == if i == 0 then Next(f, 1) else Next(f, 0);
    forall k | 0 <= k < |g|
      ensures NodeWords(w', g, k)
    {
      var j := if k < i then k else k + 1;
      assert g[k] == f[j] && NodeWords(w, f, j);
      assert Next(g, k + 1) == if k + 1 == i then Next(f, i + 1) else Next(f, j + 1);
      LinkApart(f, i, top, j);
    }
  }

  /** Block `b` fits between nodes `i - 1` and `i`. */
  ghost predicate FitsAt(f: seq<Block>, i: nat, b: Block, top: int)
    requires i <= |f|
  {
    && DATA <= b.start && b.size >= FREE_NODE_SIZE && b.End() <= top
    && (forall k :: 0 <= k < i ==> f[k].End() <= b.start)
    && (forall k :: i <= k < |f| ==> b.End() <= f[k].start)
  }

  /** `w'` is `w` with node words `{ size, next }` written at `at`. */
  ghost predicate NodeWritten(w: Memory, w': Memory, at: int, size: int, next: int) {
    && At(w', at) == size && At(w', at + 8) == next
    && forall x {:trigger At(w', x)} :: x != at && x != at + 8 ==> At(w', x) == At(w, x)
  }

  /** `w'` is `w` with a node written and then the link at `link` pointed to it. */
  ghost predicate Linked(w: Memory, w': Memory, b: Block, next: int, link: int) {
    && At(w', b.start) == b.size && At(w', b.start + 8) == next && At(w', link) == b.start
    && forall x {:trigger At(w', x)} :: x != b.start && x != b.start + 8 && x != link ==> At(w', x) == At(w, x)
  }

  /** The link to node `i` lies below a block that fits there. */
  lemma LinkOutside(f: seq<Block>, i: nat, b: Block, top: int)
    requires Spaced(f, top) && i <= |f| && FitsAt(f, i, b, top)
    ensures Link(f, i) + 8 <= b.start && FREE_HEAD + 8 <= b.start
  {
  }

  lemma InsertEncodes(w: Memory, w': Memory, f: seq<Block>, i: nat, b: Block, g: seq<Block>, top: int)
    requires Encodes(w, f) && Spaced(f, top) && Inserted(f, i, b, g) && FitsAt(f, i, b, top)
    requires Linked(w, w', b, Next(f, i), Link(f, i))
    ensures Encodes(w', g)
  {
    LinkOutside(f, i, b, top);
    forall k | 0 <= k < |g|
      ensures NodeWords(w', g, k)
    {
      if k == i {
        assert g[k] == b && Next(g, k + 1) == Next(f, i);
      } else {
        InsertOthers(w, w', f, i, b, g, top, k);
      }
    }
  }

  /** The other nodes keep their words, except that the one before links to the new node. */
  lemma InsertOthers(w: Memory, w': Memory, f: seq<Block>, i: nat, b: Block, g: seq<Block>, top: int, k: nat)
    requires Encodes(w, f) && Spaced(f, top) && Inserted(f, i, b, g) && FitsAt(f, i, b, top)
    requires Linked(w, w', b, Next(f, i), Link(f, i)) && k < |g| && k != i
    ensures NodeWords(w', g, k)
  {
    var j := if k < i then k else k - 1;
    assert g[k] == f[j] && NodeWords(w, f, j);
    assert Next(g, k + 1) == if k + 1 == i then b.start else Next(f, j + 1);
    LinkApart(f, i, top, j);
  }

  lemma MergeEncodes(w: Memory, w': Memory, f: seq<Block>, i: nat, g: seq<Block>, top: int)
    requires Encodes(w, f) && Spaced(f, top) && Merged(f, i, g)
    requires NodeWritten(w, w', f[i].start, f[i].size + f[i + 1].size, Next(f, i + 2))
    ensures Encodes(w', g)
  {
    assert f[i].start >= DATA;
    forall k | 0 <= k < |g|
      ensures NodeWords(w', g, k)
    {
      if k == i {
        assert g[k].start == f[i].start && Next(g, k + 1) == Next(f, i + 2);
      } else {
        var j := if k < i then k else k + 1;
        assert g[k] == f[j] && NodeWords(w, f, j);
        assert Next(g, k + 1) == Next(f, j + 1);
        assert j < i ==> f[j].Before(f[i]);
        assert i < j ==> f[i].Before(f[j]);
      }
    }
  }

  /** Node `i` is replaced by a node cut from its upper part. */
  lemma TrimEncodes(w: Memory, w': Memory, f: seq<Block>, i: nat, b: Block, top: int)
    requires Encodes(w, f) && Spaced(f, top) && i < |f|
    requires f[i].start <= b.start && b.size >= FREE_NODE_SIZE && b.End() == f[i].End()
    requires Linked(w, w', b, Next(f, i + 1), Link(f, i))
    ensures Encodes(w', f[i := b])
  {
    var g := f[i := b];
    LinkApart(f, i, top, i);
    forall k | 0 <= k < |g|
      ensures NodeWords(w', g, k)
    {
      assert NodeWords(w, f, k);
      assert Next(g, k + 1) == if k + 1 == i then b.start else Next(f, k + 1);
      LinkApart(f, i, top, k);
      assert k < i ==> f[k].Before(f[i]);
      assert i < k ==> f[i].Before(f[k]);
    }
  }

  // ----- the edits keep the list in order -----

  lemma RemoveInOrder(f: seq<Block>, i: nat, g: seq<Block>, top: int)
    requires InOrder(f, top) && Removed(f, i, g)
    ensures InOrder(g, top)
    ensures Coalesced(f) ==> Coalesced(g)
  {
  }

  lemma InsertInOrder(f: seq<Block>, i: nat, b: Block, g: seq<Block>, top: int)
    requires InOrder(f, top) && Inserted(f, i, b, g) && FitsAt(f, i, b, top) && Granular(b)
    ensures InOrder(g, top)
  {
    forall j, k | 0 <= j < k < |g| ensures g[j].Before(g[k]) {
      var j' := if j < i then j else j - 1;
      var k' := if k < i then k else k - 1;
      assert j != i && k != i ==> f[j'].Before(f[k']);
    }
    forall k | 0 <= k < |g| ensures IsNode(g[k], top) {
      assert k != i ==> IsNode(f[if k < i then k else k - 1], top);
    }
  }

  lemma MergeInOrder(f: seq<Block>, i: nat, g: seq<Block>, top: int)
    requires InOrder(f, top) && Merged(f, i, g) && f[i].End() == f[i + 1].start
    ensures InOrder(g, top)
  {
    assert Granular(f[i]) && Granular(f[i + 1]);
    forall k | 0 <= k < |g| ensures Granular(g[k]) {
      assert k != i ==> g[k] == f[if k < i then k else k + 1];
    }
    MergeSpaced(f, i, g, top);
  }

  lemma MergeSpaced(f: seq<Block>, i: nat, g: seq<Block>, top: int)
    requires Spaced(f, top) && Merged(f, i, g) && f[i].End() == f[i + 1].start
    ensures Spaced(g, top)
  {
    assert g[i].End() == f[i + 1].End();
    forall j, k | 0 <= j < k < |g|
      ensures g[j].Before(g[k])
    {
      var j' := if j < i then j else j + 1;
      var k' := if k <= i then k else k + 1;
      assert f[j'].Before(f[k']);
    }
  }

  // ----- what the edits do to the covered bytes and to the total -----

  lemma RemoveCovers(f: seq<Block>, i: nat, g: seq<Block>)
    requires Removed(f, i, g)
    ensures forall a :: Covers(f, a) <==> Covers(g, a) || f[i].Has(a)
  {
    forall a
      ensures Covers(f, a) <==> Covers(g, a) || f[i].Has(a)
    {
      if Covers(g, a) {
        var k :| 0 <= k < |g| && g[k].Has(a);
        assert g[k] == f[if k < i then k else k + 1];
      }
      if Covers(f, a) && !f[i].Has(a) {
        var k :| 0 <= k < |f| && f[k].Has(a);
        assert f[k] == g[if k < i then k else k - 1];
      }
    }
  }

  lemma InsertCovers(f: seq<Block>, i: nat, b: Block, g: seq<Block>)
    requires Inserted(f, i, b, g)
    ensures forall a :: Covers(g, a) <==> Covers(f, a) || b.Has(a)
  {
    forall k | 0 <= k < |f|
      ensures f[k] == g[if k < i then k else k + 1]
    {
    }
    RemoveCovers(g, i, f);
  }

  lemma MergeCovers(f: seq<Block>, i: nat, g: seq<Block>)
    requires Merged(f, i, g) && f[i].End() == f[i + 1].start && f[i].size >= 0 && f[i + 1].size >= 0
    ensures forall a :: Covers(g, a) <==> Covers(f, a)
  {
    forall a
      ensures Covers(g, a) <==> Covers(f, a)
    {
      if Covers(g, a) {
        var k :| 0 <= k < |g| && g[k].Has(a);
        assert f[if k < i || (k == i && f[i].Has(a)) then k else k + 1].Has(a);
      }
      if Covers(f, a) {
        var k :| 0 <= k < |f| && f[k].Has(a);
        assert g[if k <= i then k else k - 1].Has(a);
      }
    }
  }

  lemma {:induction false} TotalAppend(f: seq<Block>, g: seq<Block>)
    ensures Total(f + g) == Total(f) + Total(g)
  {
    if f == [] {
      assert f + g == g;
    } else {
      assert (f + g)[1..] == f[1..] + g;
      TotalAppend(f[1..], g);
    }
  }

  lemma TotalAround(f: seq<Block>, b: Block, g: seq<Block>)
    ensures Total(f + [b] + g) == Total(f) + b.size + Total(g)
  {
    TotalAppend(f + [b], g);
    TotalAppend(f, [b]);
    assert [b][1..] == [];
  }

  lemma RemoveTotal(f: seq<Block>, i: nat)
    requires i < |f|
    ensures Total(f) == Total(RemoveAt(f, i)) + f[i].size
  {
    Around(f, i);
    TotalAround(f[..i], f[i], f[i + 1..]);
    TotalAppend(f[..i], f[i + 1..]);
  }

  lemma Around(f: seq<Block>, i: nat)
    requires i < |f|
    ensures f == f[..i] + [f[i]] + f[i + 1..]
  {
  }

  lemma InsertTotal(f: seq<Block>, i: nat, b: Block)
    requires i <= |f|
    ensures Total(InsertAt(f, i, b)) == Total(f) + b.size
  {
    assert f == f[..i] + f[i..];
    TotalAround(f[..i], b, f[i..]);
    TotalAppend(f[..i], f[i..]);
  }

  lemma MergeTotal(f: seq<Block>, i: nat)
    requires i + 1 < |f|
    ensures Total(MergeAt(f, i)) == Total(f)
  {
    TotalAround(f[..i], Block(f[i].start, f[i].size + f[i + 1].size), f[i + 2..]);
    TotalPair(f, i);
  }

  lemma TotalPair(f: seq<Block>, i: nat)
    requires i + 1 < |f|
    ensures Total(f) == Total(f[..i]) + f[i].size + f[i + 1].size + Total(f[i + 2..])
  {
    Around(f, i);
    TotalAround(f[..i], f[i], f[i + 1..]);
    assert f[i + 1..][1..] == f[i + 2..];
  }

  /** A nonempty range with no covered byte lies apart from every block. */
  lemma UncoveredApart(f: seq<Block>, top: int, start: int, size: int)
    requires InOrder(f, top) && size > 0
    requires forall a :: start <= a < start + size ==> !Covers(f, a)
    ensures forall i :: 0 <= i < |f| ==> f[i].End() <= start || start + size <= f[i].start
  {
    forall i | 0 <= i < |f|
      ensures f[i].End() <= start || start + size <= f[i].start
    {
      var a := Max(start, f[i].start);
      assert IsNode(f[i], top);
      assert f[i].Has(a) ==> Covers(f, a);
    }
  }

  // ----- bounds and canonicity -----

  /** The blocks of an ordered list fit between the first start and the last end; a coalesced list
      leaves at least one granule between neighbours. */
  lemma {:induction false} TotalFits(f: seq<Block>, top: int)
    requires InOrder(f, top) && f != []
    ensures Total(f) <= f[|f| - 1].End() - f[0].start
    ensures Coalesced(f) ==> Total(f) + (|f| - 1) <= f[|f| - 1].End() - f[0].start
    ensures 16 * |f| <= Total(f)
    decreases |f|
  {
    if |f| > 1 {
      var g := f[1..];
      assert InOrder(g, top) by {
        forall i | 0 <= i < |g| ensures IsNode(g[i], top) { assert g[i] == f[i + 1]; }
        forall i, j | 0 <= i < j < |g| ensures g[i].Before(g[j]) { assert g[i] == f[i + 1] && g[j] == f[j + 1]; }
      }
      if Coalesced(f) {
        forall i, j | 0 <= i < j < |g| ensures g[i].Below(g[j]) { assert g[i] == f[i + 1] && g[j] == f[j + 1]; }
      }
      TotalFits(g, top);
      assert g[0] == f[1] && g[|g| - 1] == f[|f| - 1];
      assert f[0].Before(f[1]) && (Coalesced(f) ==> f[0].Below(f[1]));
      assert IsNode(f[0], top);
    } else {
      assert f[1..] == [];
      assert Total(f) == f[0].size + Total(f[1..]) == f[0].size;
      assert IsNode(f[0], top);
    }
  }

  /** Canonical form: a coalesced list is determined by the set of bytes it covers, so it does not
      depend on the order in which those bytes were freed. */
  lemma {:induction false} CanonicalList(f: seq<Block>, g: seq<Block>, top: int)
    requires InOrder(f, top) && InOrder(g, top) && Coalesced(f) && Coalesced(g)
    requires forall a :: Covers(f, a) <==> Covers(g, a)
    ensures f == g
    decreases |f|
  {
    if f == [] {
      assert g != [] ==> g[0].Has(g[0].start) && Covers(g, g[0].start);
    } else {
      SameFirst(f, g, top);
      SameRest(f, g, top);
      CanonicalList(f[1..], g[1..], top);
      assert f == [f[0]] + f[1..] && g == [g[0]] + g[1..];
    }
  }

  lemma SameRest(f: seq<Block>, g: seq<Block>, top: int)
    requires InOrder(f, top) && InOrder(g, top) && Coalesced(f) && Coalesced(g)
    requires forall a :: Covers(f, a) <==> Covers(g, a)
    requires f != [] && g != [] && f[0] == g[0]
    ensures InOrder(f[1..], top) && InOrder(g[1..], top) && Coalesced(f[1..]) && Coalesced(g[1..])
    ensures forall a :: Covers(f[1..], a) <==> Covers(g[1..], a)
  {
    TailFacts(f, top);
    TailFacts(g, top);
    assert Removed(f, 0, f[1..]) && Removed(g, 0, g[1..]);
    RemoveCovers(f, 0, f[1..]);
    RemoveCovers(g, 0, g[1..]);
  }

  lemma TailFacts(f: seq<Block>, top: int)
    requires InOrder(f, top) && Coalesced(f) && f != []
    ensures InOrder(f[1..], top) && Coalesced(f[1..])
    ensures forall a :: Covers(f[1..], a) ==> !f[0].Has(a)
  {
    var g := f[1..];
    forall i | 0 <= i < |g| ensures IsNode(g[i], top) { assert g[i] == f[i + 1]; }
    forall i, j | 0 <= i < j < |g| ensures g[i].Below(g[j]) { assert g[i] == f[i + 1] && g[j] == f[j + 1]; }
    forall a | Covers(g, a) ensures !f[0].Has(a) {
      var k :| 0 <= k < |g| && g[k].Has(a);
      assert g[k] == f[k + 1] && f[0].Below(f[k + 1]);
    }
  }

  /** The first block starts at the least covered byte and ends at the first uncovered one. */
  lemma FirstBlock(f: seq<Block>, top: int)
    requires InOrder(f, top) && Coalesced(f) && f != []
    ensures Covers(f, f[0].start) && !Covers(f, f[0].End())
    ensures forall a :: Covers(f, a) ==> f[0].start <= a
    ensures forall a :: f[0].Has(a) ==> Covers(f, a)
  {
    assert IsNode(f[0], top) && f[0].Has(f[0].start);
    forall a | Covers(f, a) ensures f[0].start <= a && a != f[0].End() {
      var k :| 0 <= k < |f| && f[k].Has(a);
      assert k > 0 ==> f[0].Below(f[k]);
    }
  }

  lemma SameFirst(f: seq<Block>, g: seq<Block>, top: int)
    requires InOrder(f, top) && InOrder(g, top) && Coalesced(f) && Coalesced(g)
    requires forall a :: Covers(f, a) <==> Covers(g, a)
    requires f != []
    ensures g != [] && f[0] == g[0]
  {
    FirstBlock(f, top);
    assert Covers(g, f[0].start);
    FirstBlock(g, top);
    assert IsNode(f[0], top) && IsNode(g[0], top);
    assert f[0].start == g[0].start;
    assert !g[0].Has(f[0].End()) && !f[0].Has(g[0].End());
  }
}
