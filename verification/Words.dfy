/** Heap memory as 64-bit cells, and the bytes inside the cells.

    The allocator keeps its free-list links in the memory it hands out. All of its own accesses are
    whole words at granule-aligned addresses, so memory is modelled cell by cell; the byte view is
    what callers see through their pointers and what `realloc` copies. */
module Words {

  /** One past the largest value of a 64-bit `usize`. */
  const USIZE_LIMIT := 0x1_0000_0000_0000_0000

  type word = w: int | 0 <= w < USIZE_LIMIT

  type byte = b: int | 0 <= b < 256

  type Bytes = seq<byte>

  /** Memory as zeroed frames plus the words written since. Any contents of a finite heap, damaged or
      not, have this form. Only multiples of 8 hold data; reads are total: faults are not modelled. */
  datatype Memory = Zeroed | Written(base: Memory, addr: int, value: word)

  function At(m: Memory, a: int): word {
    match m
    case Zeroed => 0
    case Written(base, addr, value) => if a == addr then value else At(base, a)
  }

  function Put(m: Memory, a: int, v: word): (r: Memory)
    ensures At(r, a) == v && forall x {:trigger At(r, x)} :: x != a ==> At(r, x) == At(m, x)
  {
    Written(m, a, v)
  }

  function Max(a: int, b: int): int {
    if a >= b then a else b
  }

  function Min(a: int, b: int): int {
    if a <= b then a else b
  }

  datatype Option<+T> = None | Some(value: T)

  // ----- bytes of a cell -----

  function Pow256(n: nat): (p: nat)
    ensures p > 0
  {
    if n == 0 then 1 else 256 * Pow256(n - 1)
  }

  /** The `k`-th least significant byte of `v`. */
  function ByteOf(v: nat, k: nat): byte
    decreases k
  {
    if k == 0 then v % 256 else ByteOf(v / 256, k - 1)
  }

  /** The word whose low `k` bytes are those of `low` and whose other bytes are those of `high`. */
  function Splice(low: nat, high: nat, k: nat): (r: nat)
    decreases k
  {
    if k == 0 then high else low % 256 + 256 * Splice(low / 256, high / 256, k - 1)
  }

  lemma {:induction false} SpliceBytes(low: nat, high: nat, k: nat, j: nat)
    ensures ByteOf(Splice(low, high, k), j) == if j < k then ByteOf(low, j) else ByteOf(high, j)
    decreases k
  {
    if k > 0 && j > 0 {
      assert Splice(low, high, k) / 256 == Splice(low / 256, high / 256, k - 1);
      SpliceBytes(low / 256, high / 256, k - 1, j - 1);
    }
  }

  lemma {:induction false} SpliceBound(low: nat, high: nat, k: nat, n: nat)
    requires k <= n && low < Pow256(n) && high < Pow256(n)
    ensures Splice(low, high, k) < Pow256(n)
    decreases k
  {
    if k > 0 {
      SpliceBound(low / 256, high / 256, k - 1, n - 1);
    }
  }

  ghost predicate IsSplice(r: nat, low: nat, high: nat, k: nat) {
    forall j: nat {:trigger ByteOf(r, j)} :: ByteOf(r, j) == if j < k then ByteOf(low, j) else ByteOf(high, j)
  }

  function SpliceWord(low: word, high: word, k: nat): (r: word)
    requires k <= 8
    ensures IsSplice(r, low, high, k)
  {
    assert IsSplice(Splice(low, high, k), low, high, k) by {
      forall j: nat
        ensures ByteOf(Splice(low, high, k), j) == if j < k then ByteOf(low, j) else ByteOf(high, j)
      {
        SpliceBytes(low, high, k, j);
      }
    }
    assert Pow256(8) == USIZE_LIMIT;
    SpliceBound(low, high, k, 8);
    Splice(low, high, k)
  }

  /** The byte at address `a`, in its little-endian cell. */
  function ByteAt(m: Memory, a: int): byte {
    ByteOf(At(m, a - a % 8), a % 8)
  }

  /** `copy_nonoverlapping` of `n` bytes between granule-aligned addresses, cell by cell. The caller
      must show that the ranges do not overlap. A partial last cell keeps its upper bytes. */
  method CopyBytes(m: Memory, src: int, dst: int, n: nat) returns (r: Memory)
    requires src + n <= dst || dst + n <= src
    requires src % 8 == 0 && dst % 8 == 0
    ensures forall x {:trigger At(r, x)} :: !(dst <= x < dst + n) ==> At(r, x) == At(m, x)
    ensures Copied(m, r, src, dst, n)
  {
    r := m;
    var k := 0;
    while k < n
      invariant 0 <= k <= n + 7 && k % 8 == 0
      invariant forall x {:trigger At(r, x)} :: !(dst <= x < dst + Min(k, n)) ==> At(r, x) == At(m, x)
      invariant Copied(m, r, src, dst, Min(k, n))
    {
      var c := SpliceWord(At(m, src + k), At(r, dst + k), Min(8, n - k));
      CopyCell(m, r, src, dst, n, k, c);
      r := Put(r, dst + k, c);
      k := k + 8;
    }
  }

  /** `r` is `m` with `n` bytes copied from `src` to `dst`. */
  ghost predicate Copied(m: Memory, r: Memory, src: int, dst: int, n: nat) {
    forall a {:trigger CopiedAt(m, r, src, dst, n, a)} :: CopiedAt(m, r, src, dst, n, a)
  }

  ghost predicate CopiedAt(m: Memory, r: Memory, src: int, dst: int, n: nat, a: int) {
    ByteAt(r, a) == if dst <= a < dst + n then ByteAt(m, src + (a - dst)) else ByteAt(m, a)
  }

  lemma CopyCell(m: Memory, r: Memory, src: int, dst: int, n: nat, k: nat, c: word)
    requires src % 8 == 0 && dst % 8 == 0 && k % 8 == 0 && k < n
    requires Copied(m, r, src, dst, k) && IsSplice(c, At(m, src + k), At(r, dst + k), Min(8, n - k))
    ensures Copied(m, Put(r, dst + k, c), src, dst, Min(k + 8, n))
  {
    CellSum(src, k);
    CellSum(dst, k);
    forall a {:trigger CopiedAt(m, Put(r, dst + k, c), src, dst, Min(k + 8, n), a)}
      ensures CopiedAt(m, Put(r, dst + k, c), src, dst, Min(k + 8, n), a)
    {
      assert CopiedAt(m, r, src, dst, k, a);
      CopyStep(m, r, src, dst, n, k, c, a);
    }
  }

  lemma CellSum(a: int, b: int)
    requires a % 8 == 0 && b % 8 == 0
    ensures (a + b) % 8 == 0
  {
    assert a + b == 8 * (a / 8 + b / 8);
  }

  lemma CopyStep(m: Memory, r: Memory, src: int, dst: int, n: nat, k: nat, c: word, a: int)
    requires (src + k) % 8 == 0 && (dst + k) % 8 == 0 && k < n
    requires CopiedAt(m, r, src, dst, k, a) && IsSplice(c, At(m, src + k), At(r, dst + k), Min(8, n - k))
    ensures CopiedAt(m, Put(r, dst + k, c), src, dst, Min(k + 8, n), a)
  {
    CopyCellByte(m, r, src + k, dst + k, Min(8, n - k), c, a);
    assert src + k + (a - (dst + k)) == src + (a - dst);
  }

  lemma CopyCellByte(m: Memory, r: Memory, src: int, dst: int, k: nat, c: word, a: int)
    requires src % 8 == 0 && dst % 8 == 0 && k <= 8 && IsSplice(c, At(m, src), At(r, dst), k)
    ensures ByteAt(Put(r, dst, c), a) == if dst <= a < dst + k then ByteAt(m, src + (a - dst)) else ByteAt(r, a)
  {
    PutByte(r, dst, c, a);
    if dst <= a < dst + 8 {
      CellByte(m, src, src + (a - dst));
      CellByte(r, dst, a);
    }
  }

  lemma PutByte(r: Memory, c: int, v: word, a: int)
    requires c % 8 == 0
    ensures ByteAt(Put(r, c, v), a) == if c <= a < c + 8 then ByteOf(v, a - c) else ByteAt(r, a)
  {
    CellOf(a, c);
  }

  lemma CellByte(m: Memory, c: int, a: int)
    requires c % 8 == 0 && c <= a < c + 8
    ensures ByteAt(m, a) == ByteOf(At(m, c), a - c)
  {
    CellOf(a, c);
  }

  /** The cells in `[a, a + n)` are the same in both memories. */
  ghost predicate KeepsCells(m: Memory, m': Memory, a: int, n: int) {
    forall x {:trigger At(m', x)} :: a <= x < a + n ==> At(m', x) == At(m, x)
  }

  /** The `n` bytes at `b` in `m'` are those at `a` in `m`. */
  ghost predicate SameBytes(m: Memory, a: int, m': Memory, b: int, n: int) {
    forall j {:trigger SameByte(m, a, m', b, j)} :: 0 <= j < n ==> SameByte(m, a, m', b, j)
  }

  ghost predicate SameByte(m: Memory, a: int, m': Memory, b: int, j: int) {
    ByteAt(m', b + j) == ByteAt(m, a + j)
  }

  lemma KeepsBytes(m: Memory, m': Memory, a: int, n: int, k: int)
    requires KeepsCells(m, m', a, n) && a % 8 == 0 && k <= n
    ensures SameBytes(m, a, m', a, k)
  {
    forall j | 0 <= j < k ensures SameByte(m, a, m', a, j) {
      CellInside(a, a + j);
      KeptByte(m, m', a + j);
    }
  }

  lemma KeptByte(m: Memory, m': Memory, a: int)
    requires At(m', a - a % 8) == At(m, a - a % 8)
    ensures ByteAt(m', a) == ByteAt(m, a)
  {
  }

  lemma CellInside(start: int, a: int)
    requires start % 8 == 0 && start <= a
    ensures start <= a - a % 8 <= a
  {
  }

  /** The bytes of the cell at `c` are exactly the eight addresses from `c` on. */
  lemma CellOf(a: int, c: int)
    requires c % 8 == 0
    ensures a - a % 8 == c <==> c <= a < c + 8
    ensures c <= a < c + 8 ==> a % 8 == a - c
  {
  }

  /** A caller storing one byte through its pointer; only the cell around it changes. */
  method StoreByte(m: Memory, a: int, v: byte) returns (r: Memory, ghost c: int)
    ensures c % 8 == 0 && c <= a < c + 8
    ensures ByteAt(r, a) == v
    ensures forall b {:trigger ByteAt(r, b)} :: b != a ==> ByteAt(r, b) == ByteAt(m, b)
    ensures forall x {:trigger At(r, x)} :: x != c ==> At(r, x) == At(m, x)
  {
    var x, k := a - a % 8, a % 8;
    c := x;
    CellInside(x, a);
    r := Put(m, x, SpliceWord(At(m, x), SpliceWord(ShiftedWord(v, k), At(m, x), k + 1), k));
    forall b | b != a ensures ByteAt(r, b) == ByteAt(m, b) {
      assert b - b % 8 == x ==> b % 8 != k;
    }
  }

  /** The number whose `k`-th byte is `v` and whose lower bytes are zero. */
  function ShiftByte(v: byte, k: nat): (r: nat)
    ensures ByteOf(r, k) == v && r < Pow256(k + 1)
    decreases k
  {
    if k == 0 then v else 256 * ShiftByte(v, k - 1)
  }

  lemma {:induction false} Pow256Grows(a: nat, b: nat)
    requires a <= b
    ensures Pow256(a) <= Pow256(b)
    decreases b
  {
    if a < b {
      Pow256Grows(a, b - 1);
    }
  }

  function ShiftedWord(v: byte, k: nat): (r: word)
    requires k < 8
    ensures ByteOf(r, k) == v
  {
    assert Pow256(8) == USIZE_LIMIT;
    Pow256Grows(k + 1, 8);
    ShiftByte(v, k)
  }
}
