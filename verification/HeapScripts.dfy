/** What callers do with the allocator, and what it leaves in the blocks they keep. */
module HeapScripts {
  import opened Words
  import opened Sizes
  import opened FreeList
  import opened Arena
  import opened TransientLane
  import opened KeptBytes

  /** What a caller can do between scope changes. */
  datatype Op =
    | Allocate(size: nat, align: int)
    | Release(ptr: nat, size: nat, align: int)
    | Resize(ptr: nat, size: nat, align: int, newSize: nat)
    | Write(start: int, offset: nat, value: byte)

  /** Operations with properly nested transient and durable scopes. */
  datatype Script =
    | Done
    | Then(op: Op, rest: Script)
    | InTransient(body: Script, rest: Script)
    | InDurable(body: Script, rest: Script)

  /** A single operation. */
  function Only(op: Op): Script {
    Then(op, Done)
  }

  /** The script neither releases nor resizes the block at `k`. */
  predicate Spares(s: Script, k: int) {
    match s
    case Done => true
    case Then(op, rest) => !(op.Release? && op.ptr == k) && !(op.Resize? && op.ptr == k) && Spares(rest, k)
    case InTransient(body, rest) => Spares(body, k) && Spares(rest, k)
    case InDurable(body, rest) => Spares(body, k) && Spares(rest, k)
  }

  /** Byte `j` of the block at `k` after the script, if it was `v` before: the last value written to it. */
  function After(s: Script, k: int, j: nat, v: byte): byte {
    match s
    case Done => v
    case Then(op, rest) =>
      After(rest, k, j, if op.Write? && op.start == k && op.offset == j then op.value else v)
    case InTransient(body, rest) => After(rest, k, j, After(body, k, j, v))
    case InDurable(body, rest) => After(rest, k, j, After(body, k, j, v))
  }

  ghost predicate ByteCarried(m: Memory, m': Memory, s: Script, k: int, j: nat) {
    ByteAt(m', k + j) == After(s, k, j, ByteAt(m, k + j))
  }

  /** The `n` bytes at `k` hold what the script last wrote to them, or what they held before. */
  ghost predicate Carried(m: Memory, m': Memory, s: Script, k: int, n: int) {
    forall j: nat {:trigger ByteCarried(m, m', s, k, j)} :: j < n ==> ByteCarried(m, m', s, k, j)
  }

  /** The block at `k` is still held as it was and its contents are carried. */
  ghost predicate BlockCarried(m: Memory, live: Ledger, m': Memory, live': Ledger, s: Script, k: int)
    requires k in live
  {
    k in live' && live'[k] == live[k] && Carried(m, m', s, k, live[k].size)
  }

  ghost predicate LaneCarried(m: Memory, m': Memory, s: Script, b: LaneBlock) {
    Carried(m, m', s, b.start, b.span)
  }

  /** Every durable block the script spares, and every transient block there was, keeps its contents but for the
      script's own writes to it. */
  ghost predicate Contents(m: Memory, live: Ledger, lane: seq<LaneBlock>, m': Memory, live': Ledger, s: Script) {
    && (forall k {:trigger BlockCarried(m, live, m', live', s, k)} ::
          k in live && Spares(s, k) ==> BlockCarried(m, live, m', live', s, k))
    && (forall i {:trigger LaneCarried(m, m', s, lane[i])} :: 0 <= i < |lane| ==> LaneCarried(m, m', s, lane[i]))
  }

  /** `s` is `first` and then `rest`. */
  predicate Sequence(first: Script, rest: Script, s: Script) {
    || s == InTransient(first, rest) || s == InDurable(first, rest)
    || (first.Then? && first.rest == Done && s == Then(first.op, rest))
  }

  lemma NothingDone(m: Memory, live: Ledger, lane: seq<LaneBlock>)
    ensures Contents(m, live, lane, m, live, Done)
  {
    forall k | k in live ensures BlockCarried(m, live, m, live, Done, k) {
      assert Carried(m, m, Done, k, live[k].size);
    }
  }

  lemma SequenceSpares(first: Script, rest: Script, s: Script, k: int)
    requires Sequence(first, rest, s) && Spares(s, k)
    ensures Spares(first, k) && Spares(rest, k)
  {
    assert Spares(Done, k);
  }

  lemma SequenceAfter(first: Script, rest: Script, s: Script, k: int, j: nat, v: byte)
    requires Sequence(first, rest, s)
    ensures After(s, k, j, v) == After(rest, k, j, After(first, k, j, v))
  {
    if s.Then? {
      var w := if s.op.Write? && s.op.start == k && s.op.offset == j then s.op.value else v;
      assert After(first, k, j, v) == After(Done, k, j, w) == w;
    }
  }

  lemma CarriedOn(m0: Memory, m1: Memory, m2: Memory, first: Script, rest: Script, s: Script, k: int, n: int)
    requires Sequence(first, rest, s) && Carried(m0, m1, first, k, n) && Carried(m1, m2, rest, k, n)
    ensures Carried(m0, m2, s, k, n)
  {
    forall j: nat | j < n ensures ByteCarried(m0, m2, s, k, j) {
      assert ByteCarried(m0, m1, first, k, j) && ByteCarried(m1, m2, rest, k, j);
      SequenceAfter(first, rest, s, k, j, ByteAt(m0, k + j));
    }
  }

  /** Running one script after another. */
  lemma ContentsOn(m0: Memory, l0: Ledger, lane0: seq<LaneBlock>, m1: Memory, l1: Ledger, lane1: seq<LaneBlock>,
                   m2: Memory, l2: Ledger, first: Script, rest: Script, s: Script)
    requires Sequence(first, rest, s) && lane0 <= lane1
    requires Contents(m0, l0, lane0, m1, l1, first) && Contents(m1, l1, lane1, m2, l2, rest)
    ensures Contents(m0, l0, lane0, m2, l2, s)
  {
    forall k | k in l0 && Spares(s, k) ensures BlockCarried(m0, l0, m2, l2, s, k) {
      SequenceSpares(first, rest, s, k);
      assert BlockCarried(m0, l0, m1, l1, first, k) && BlockCarried(m1, l1, m2, l2, rest, k);
      CarriedOn(m0, m1, m2, first, rest, s, k, l0[k].size);
    }
    forall i | 0 <= i < |lane0| ensures LaneCarried(m0, m2, s, lane0[i]) {
      assert LaneCarried(m0, m1, first, lane0[i]) && lane1[i] == lane0[i] && LaneCarried(m1, m2, rest, lane1[i]);
      CarriedOn(m0, m1, m2, first, rest, s, lane0[i].start, lane0[i].span);
    }
  }

  lemma CellsCarried(m: Memory, m': Memory, op: Op, k: int, n: int, span: int)
    requires KeepsCells(m, m', k, span) && k % 8 == 0 && n <= span && !op.Write?
    ensures Carried(m, m', Only(op), k, n)
  {
    if n >= 0 {
      KeepsBytes(m, m', k, span, n);
    }
    forall j: nat | j < n ensures ByteCarried(m, m', Only(op), k, j) {
      assert SameByte(m, k, m', k, j);
    }
  }

  /** An operation that leaves every spared block in the ledger and the cells of all of them alone. */
  lemma CellsContents(m: Memory, ctr: int, free: seq<Block>, live: Ledger, lost: int, lane: seq<LaneBlock>,
                      m': Memory, live': Ledger, op: Op)
    requires Books(ctr, free, live, lost) && Descending(lane) && !op.Write? && KeepsLane(m, m', lane)
    requires forall k :: k in live && Spares(Only(op), k) ==>
               k in live' && live'[k] == live[k] && KeepsCells(m, m', k, live[k].span)
    ensures Contents(m, live, lane, m', live', Only(op))
  {
    forall k | k in live && Spares(Only(op), k) ensures BlockCarried(m, live, m', live', Only(op), k) {
      HeldBlock(ctr, free, live, lost, k);
      SuitedPlaced(k, live[k]);
      CellsCarried(m, m', op, k, live[k].size, live[k].span);
    }
    forall i | 0 <= i < |lane| ensures LaneCarried(m, m', Only(op), lane[i]) {
      assert IsLaneBlock(lane[i]);
      CellsCarried(m, m', op, lane[i].start, lane[i].span, lane[i].span);
    }
  }

  /** Every block but the one at `ptr` is still held as it was. */
  ghost predicate OthersStay(live: Ledger, ptr: int, live': Ledger) {
    forall k :: k in live && k != ptr ==> k in live' && live'[k] == live[k]
  }

  /** The same of an operation that may take block `ptr` away. */
  lemma OthersContents(m: Memory, ctr: int, free: seq<Block>, live: Ledger, lost: int, lane: seq<LaneBlock>,
                       m': Memory, live': Ledger, op: Op, ptr: int)
    requires Books(ctr, free, live, lost) && Descending(lane) && !op.Write? && KeepsLane(m, m', lane)
    requires !Spares(Only(op), ptr) && OthersStay(live, ptr, live') && KeepsBlocks(m, m', live - {ptr})
    ensures Contents(m, live, lane, m', live', Only(op))
  {
    forall k | k in live && Spares(Only(op), k)
      ensures k in live' && live'[k] == live[k] && KeepsCells(m, m', k, live[k].span)
    {
      assert k in live - {ptr} && (live - {ptr})[k] == live[k];
    }
    CellsContents(m, ctr, free, live, lost, lane, m', live', op);
  }

  /** Only the byte at `a` differs, and it is `v`. */
  ghost predicate OneByte(m: Memory, m': Memory, a: int, v: byte) {
    ByteAt(m', a) == v && forall b {:trigger ByteAt(m', b)} :: b != a ==> ByteAt(m', b) == ByteAt(m, b)
  }

  lemma WriteCarried(m: Memory, m': Memory, op: Op, k: int, n: int)
    requires op.Write? && OneByte(m, m', op.start + op.offset, op.value)
    requires op.start == k || !(k <= op.start + op.offset < k + n)
    ensures Carried(m, m', Only(op), k, n)
  {
    forall j: nat | j < n ensures ByteCarried(m, m', Only(op), k, j) {
    }
  }

  /** A write that was refused named no byte of a held block. */
  lemma RefusedCarried(m: Memory, op: Op, k: int, n: int)
    requires op.Write? && !(op.start == k && op.offset < n)
    ensures Carried(m, m, Only(op), k, n)
  {
    forall j: nat | j < n ensures ByteCarried(m, m, Only(op), k, j) {
    }
  }

  // ----- blocks the script does not name -----

  /** No operation of the script writes to the block at `k`. */
  predicate NeverWrites(s: Script, k: int) {
    match s
    case Done => true
    case Then(op, rest) => !(op.Write? && op.start == k) && NeverWrites(rest, k)
    case InTransient(body, rest) => NeverWrites(body, k) && NeverWrites(rest, k)
    case InDurable(body, rest) => NeverWrites(body, k) && NeverWrites(rest, k)
  }

  lemma {:induction false} UnwrittenStays(s: Script, k: int, j: nat, v: byte)
    requires NeverWrites(s, k)
    ensures After(s, k, j, v) == v
  {
    match s
    case Done =>
    case Then(_, rest) => UnwrittenStays(rest, k, j, v);
    case InTransient(body, rest) =>
      UnwrittenStays(body, k, j, v);
      UnwrittenStays(rest, k, j, v);
    case InDurable(body, rest) =>
      UnwrittenStays(body, k, j, v);
      UnwrittenStays(rest, k, j, v);
  }

  /** A block the script never releases, resizes or writes is still held and keeps every byte. */
  lemma UntouchedKept(m: Memory, live: Ledger, lane: seq<LaneBlock>, m': Memory, live': Ledger, s: Script, k: int)
    requires Contents(m, live, lane, m', live', s) && k in live && Spares(s, k) && NeverWrites(s, k)
    ensures k in live' && live'[k] == live[k] && SameBytes(m, k, m', k, live[k].size)
  {
    assert BlockCarried(m, live, m', live', s, k);
    forall j | 0 <= j < live[k].size ensures SameByte(m, k, m', k, j) {
      assert ByteCarried(m, m', s, k, j);
      UnwrittenStays(s, k, j, ByteAt(m, k + j));
    }
  }
}
