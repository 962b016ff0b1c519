/** Size and alignment arithmetic of the executive's allocator, with the 64-bit overflow checks of
    the code written out. Masks `& !(align - 1)` are modelled by division: `align` is a power of two. */
module Sizes {
  import opened Words

  const HEAP_BASE := 0x0000_0100_1e00_0000
  const HEAP_FRAMES := 16384
  const PAGE := 0x1000
  const HEAP_SIZE := HEAP_FRAMES * PAGE
  const INITIAL_FRAMES := 8192
  const TRANSIENT_FRAMES := 1024
  const TRANSIENT_SIZE := TRANSIENT_FRAMES * PAGE
  const DURABLE_FRAMES := HEAP_FRAMES - TRANSIENT_FRAMES
  /** Address of the word holding the first free node. */
  const FREE_HEAD := HEAP_BASE + 8
  /** First allocatable address, past the allocator's metadata words. */
  const DATA := HEAP_BASE + 152
  const GRANULE := 8
  const FREE_NODE_SIZE := 16

  predicate IsPow2(n: int) {
    n == 1 || (n > 1 && n % 2 == 0 && IsPow2(n / 2))
  }

  /** A request the Rust `Layout` type can describe. */
  predicate IsLayout(size: int, align: int) {
    0 <= size && IsPow2(align) && size + align <= USIZE_LIMIT / 2
  }

  function CheckedAdd(a: nat, b: nat): Option<nat> {
    if a + b < USIZE_LIMIT then Some(a + b) else None
  }

  function SaturatingSub(a: int, b: int): int {
    if a >= b then a - b else 0
  }

  lemma SmallMultiple(d: int, a: int)
    requires a > 0 && -a < d * a < a
    ensures d == 0
  {
    assert d >= 1 ==> d * a >= a;
    assert d <= -1 ==> d * a <= -a;
  }

  lemma DivMulMod(q: int, a: int)
    requires a > 0
    ensures (q * a) % a == 0
  {
    var k := (q * a) / a;
    assert (q - k) * a == (q * a) % a;
    SmallMultiple(q - k, a);
  }

  /** A multiple of a multiple of 8 is a multiple of 8. */
  lemma MultipleOfGranule(r: int, a: int)
    requires a > 0 && a % 8 == 0 && r % a == 0
    ensures r % 8 == 0
  {
    var q, b := r / a, a / 8;
    assert r == q * a == q * (8 * b) == (q * b) * 8;
    DivMulMod(q * b, 8);
  }

  lemma {:induction false} Pow2Granule(a: int)
    requires IsPow2(a)
    ensures a > 0
    ensures a >= 8 ==> a % 8 == 0
    ensures a < 8 ==> a in {1, 2, 4}
  {
    if a > 1 {
      assert a == 2 * (a / 2);
      if a / 2 > 1 {
        assert a / 2 == 2 * (a / 4);
        if a / 4 > 1 {
          assert IsPow2(a / 2 / 2);
          assert a / 2 / 2 == a / 4;
          assert a / 4 % 2 == 0;
        }
      }
    }
  }

  lemma RemainderGone(value: nat, align: int)
    requires align > 0
    ensures 0 <= value % align <= value && (value - value % align) % align == 0
  {
    var q := value / align;
    assert 0 <= q * align && value == q * align + value % align;
    DivMulMod(q, align);
  }

  /** The largest multiple of `align` not above `value`. */
  function AlignDown(value: nat, align: int): (r: nat)
    requires align > 0
    ensures r <= value < r + align && r % align == 0
  {
    RemainderGone(value, align);
    value - value % align
  }

  /** The least multiple of `align` not below `value`, unless the rounding step overflows. */
  function AlignUp(value: nat, align: int): (r: Option<nat>)
    requires align > 0
    ensures r.None? <==> value + align - 1 >= USIZE_LIMIT
    ensures r.Some? ==> value <= r.value < value + align && r.value % align == 0
  {
    if value + (align - 1) >= USIZE_LIMIT then None else Some(AlignDown(value + (align - 1), align))
  }

  /** Bytes a request occupies: at least a free node, in whole granules. */
  function BlockSize(size: nat): (r: Option<nat>)
    ensures r.Some? <==> Max(size, FREE_NODE_SIZE) + 7 < USIZE_LIMIT
    ensures r.Some? ==> r.value == BlockBytes(size) && r.value < USIZE_LIMIT
  {
    var r := AlignUp(Max(size, FREE_NODE_SIZE), GRANULE);
    assert r.Some? ==> r.value == BlockBytes(size) by {
      if r.Some? {
        CloseMultiples(r.value, BlockBytes(size), 8);
      }
    }
    r
  }

  /** The least multiple of the granule that holds the request and a free node. */
  function BlockBytes(size: nat): (r: nat)
    ensures r % 8 == 0 && r >= FREE_NODE_SIZE && size <= r < Max(size, FREE_NODE_SIZE) + 8
  {
    if size <= FREE_NODE_SIZE then FREE_NODE_SIZE else 8 + BlockBytes(size - 8)
  }

  lemma {:induction false} BlockBytesMonotone(a: nat, b: nat)
    ensures a <= b ==> BlockBytes(a) <= BlockBytes(b)
    decreases a
  {
    if a > FREE_NODE_SIZE && b > FREE_NODE_SIZE {
      BlockBytesMonotone(a - 8, b - 8);
    }
  }

  /** The alignment the allocator works with is a multiple of the granule. */
  lemma EffectiveAlign(align: int)
    requires IsPow2(align)
    ensures Max(align, GRANULE) % 8 == 0 && Max(align, GRANULE) > 0 && align > 0
  {
    Pow2Granule(align);
  }

  lemma GranuleFactors(start: int)
    requires start % 8 == 0
    ensures start % 4 == 0 && start % 2 == 0 && start % 1 == 0
  {
    var q := start / 8;
    assert start == 4 * (2 * q) && start == 2 * (4 * q);
  }

  /** An address aligned for the allocator is aligned as the caller asked, and to the granule. */
  lemma AlignedAsAsked(align: int, start: int)
    requires IsPow2(align) && start % Max(align, GRANULE) == 0
    ensures start % align == 0 && start % 8 == 0 && Aligned(start, align)
  {
    AlignedMeans(start, align);
    Pow2Granule(align);
    if align >= 8 {
      assert Max(align, GRANULE) == align;
      MultipleOfGranule(start, align);
    } else {
      assert Max(align, GRANULE) == 8;
      GranuleFactors(start);
      if align == 1 {
      } else if align == 2 {
      } else {
        assert align == 4;
      }
    }
  }

  /** Granule-aligned quantities stay so under sums and differences, and `DATA` is one of them. */
  lemma Granules(a: int, b: int)
    requires a % 8 == 0 && b % 8 == 0
    ensures (a - b) % 8 == 0 && (a + b) % 8 == 0 && (a - DATA) % 8 == 0 && (a + DATA) % 8 == 0
  {
    var p, q, d := a / 8, b / 8, DATA / 8;
    assert a - b == 8 * (p - q) && a + b == 8 * (p + q) && a - DATA == 8 * (p - d) && a + DATA == 8 * (p + d);
  }

  /** The low bits of `k` selected by the power of two `align` are zero. */
  predicate Aligned(k: int, align: int)
    decreases align
  {
    align == 1 || (align > 1 && align % 2 == 0 && k % 2 == 0 && Aligned(k / 2, align / 2))
  }

  /** The bitwise reading of alignment agrees with divisibility. */
  lemma {:induction false} AlignedMeans(k: int, align: int)
    ensures Aligned(k, align) <==> IsPow2(align) && align > 0 && k % align == 0
    decreases align
  {
    if align > 1 && align % 2 == 0 {
      AlignedMeans(k / 2, align / 2);
      if align / 2 > 0 {
        HalfDivides(k, align / 2);
      }
    }
  }

  lemma HalfDivides(k: int, a: int)
    requires a > 0
    ensures k % (2 * a) == 0 <==> k % 2 == 0 && (k / 2) % a == 0
  {
    if k % (2 * a) == 0 {
      var q := k / (2 * a);
      assert k == (q * a) * 2;
      assert k / 2 == q * a;
      DivMulMod(q, a);
    }
    if k % 2 == 0 && (k / 2) % a == 0 {
      var q := (k / 2) / a;
      assert k / 2 == q * a;
      assert k == q * (2 * a);
      DivMulMod(q, 2 * a);
    }
  }

  lemma CloseMultiples(u: int, v: int, a: int)
    requires a > 0 && u % a == 0 && v % a == 0 && -a < u - v < a
    ensures u == v
  {
    assert u - v == (u / a - v / a) * a;
    SmallMultiple(u / a - v / a, a);
  }

  /** Rounding a granule-aligned address up skips at most `align - 8` bytes. */
  lemma AlignUpGap(value: nat, align: int)
    requires align > 0 && align % 8 == 0 && value % 8 == 0 && AlignUp(value, align).Some?
    ensures AlignUp(value, align).value % 8 == 0
    ensures AlignUp(value, align).value - value <= align - 8
    ensures value % align == 0 ==> AlignUp(value, align).value == value
  {
    var r := AlignUp(value, align).value;
    assert value <= r < value + align && r % align == 0;
    GapFacts(value, r, align);
  }

  lemma GapFacts(value: int, r: int, align: int)
    requires align > 0 && align % 8 == 0 && value % 8 == 0 && value <= r < value + align && r % align == 0
    ensures r % 8 == 0 && r - value <= align - 8 && (value % align == 0 ==> r == value)
  {
    MultipleOfGranule(r, align);
    GranuleGap(r - value, align, r, value);
    if value % align == 0 {
      CloseMultiples(r, value, align);
    }
  }

  lemma GranuleGap(d: int, align: int, r: int, value: int)
    requires d == r - value && d < align && align % 8 == 0 && r % 8 == 0 && value % 8 == 0
    ensures d <= align - 8
  {
  }
}
