/** The instruction profiler of `tools/whoruns.c`: an insert-only, linear-probing table from program
    counters to cells, and the counters kept beside it. */
module HotTable {
  import opened Words

  const HOT_N := 16384
  const U64 := 0x1_0000_0000_0000_0000

  // ----- the probe sequence -----

  function Hash(pc: nat): (h: nat) {
    pc * 0x9E37_79B9_7F4A_7C15 % U64 / 0x100_0000_0000
  }

  /** First slot tried for `pc`. */
  function Home(pc: nat): (i: nat)
    ensures i < HOT_N
  {
    Hash(pc) % HOT_N
  }

  /** The `k`-th slot tried for `pc`. */
  function Slot(pc: nat, k: nat): (i: nat)
    requires k < HOT_N
    ensures i < HOT_N
  {
    if Home(pc) + k < HOT_N then Home(pc) + k else Home(pc) + k - HOT_N
  }

  /** How many slots are tried for `pc` before slot `i`. */
  function Offset(pc: nat, i: nat): (k: nat)
    requires i < HOT_N
    ensures k < HOT_N && Slot(pc, k) == i
  {
    if i >= Home(pc) then i - Home(pc) else i - Home(pc) + HOT_N
  }

  lemma ProbeIsSlot(pc: nat, k: nat)
    requires k < HOT_N
    ensures (Hash(pc) + k) % HOT_N == Slot(pc, k)
  {
  }

  // ----- the table -----

  type Table = seq<nat>

  /** Every stored counter is reached by its probe sequence without meeting an empty slot, and is stored
      once. */
  ghost predicate Reachable(t: Table, i: nat)
    requires |t| == HOT_N && i < HOT_N
  {
    forall k {:trigger Slot(t[i], k)} :: 0 <= k < Offset(t[i], i) ==> t[Slot(t[i], k)] != 0
  }

  ghost predicate IsTable(t: Table) {
    && |t| == HOT_N
    && (forall i :: 0 <= i < HOT_N && t[i] != 0 ==> Reachable(t, i))
    && (forall i, j :: 0 <= i < j < HOT_N && t[i] != 0 ==> t[i] != t[j])
  }

  ghost predicate Full(t: Table) {
    0 !in t
  }

  /** Slots only ever go from empty to occupied. */
  ghost predicate Grows(t: Table, u: Table) {
    |t| == |u| && forall i :: 0 <= i < |t| && t[i] != 0 ==> u[i] == t[i]
  }

  /** No slot tried before the `n`-th is empty or holds `pc`. */
  ghost predicate Missed(t: Table, pc: nat, n: nat)
    requires |t| == HOT_N && n <= HOT_N
  {
    forall k {:trigger Slot(pc, k)} :: 0 <= k < n ==> t[Slot(pc, k)] != 0 && t[Slot(pc, k)] != pc
  }

  /** After a whole cycle of misses the table is full and `pc` is absent. */
  lemma CycleMisses(t: Table, pc: nat)
    requires |t| == HOT_N && Missed(t, pc, HOT_N)
    ensures Full(t) && pc !in t
  {
    forall i | 0 <= i < HOT_N ensures t[i] != 0 && t[i] != pc {
      assert Slot(pc, Offset(pc, i)) == i;
    }
  }

  /** Meeting an empty slot after only misses proves `pc` absent. */
  lemma EmptyMeansAbsent(t: Table, pc: nat, k: nat)
    requires IsTable(t) && pc != 0 && k < HOT_N && Missed(t, pc, k) && t[Slot(pc, k)] == 0
    ensures pc !in t
  {
    forall i | 0 <= i < HOT_N ensures t[i] != pc {
      assert Slot(pc, Offset(pc, i)) == i;
      assert t[i] == pc ==> Reachable(t, i);
    }
  }

  lemma InsertKeepsTable(t: Table, pc: nat, k: nat)
    requires IsTable(t) && pc != 0 && k < HOT_N && Missed(t, pc, k) && t[Slot(pc, k)] == 0 && pc !in t
    ensures IsTable(t[Slot(pc, k) := pc]) && Grows(t, t[Slot(pc, k) := pc])
  {
    var s := Slot(pc, k);
    var u := t[s := pc];
    forall i | 0 <= i < HOT_N && u[i] != 0 ensures Reachable(u, i) {
      if i == s {
        assert Offset(pc, s) == k;
      } else {
        assert Reachable(t, i);
      }
    }
  }

  // ----- counting -----

  /** `n` instructions retired by the translation block at `pc`. */
  datatype Exec = Exec(pc: nat, n: nat)

  const B_KERNEL := 0
  const B_EXEC := 1
  const B_HOSTED_HI := 2
  const B_HOSTED_LO := 3
  const B_OTHER := 4
  const B_N := 5

  function Classify(pc: nat): (b: nat)
    ensures b < B_N
  {
    if pc >= 0xFFFF_8000_0000_0000 then B_KERNEL
    else if 0x0000_0100_0040_0000 <= pc < 0x0000_0100_0100_0000 then B_EXEC
    else if 0x0000_0100_0100_0000 <= pc < 0x0000_0102_0000_0000 then B_HOSTED_HI
    else if pc < 0x0000_0001_0000_0000 then B_HOSTED_LO
    else B_OTHER
  }

  /** Instructions retired at one program counter, in one bucket, and altogether. */
  function RetiredAt(log: seq<Exec>, pc: nat): nat {
    if log == [] then 0
    else RetiredAt(log[..|log| - 1], pc) + (var e := log[|log| - 1]; if e.pc == pc then e.n else 0)
  }

  function RetiredIn(log: seq<Exec>, bucket: nat): nat {
    if log == [] then 0
    else RetiredIn(log[..|log| - 1], bucket) + (var e := log[|log| - 1]; if Classify(e.pc) == bucket then e.n else 0)
  }

  function Retired(log: seq<Exec>): nat {
    if log == [] then 0 else Retired(log[..|log| - 1]) + log[|log| - 1].n
  }

  lemma {:induction false} BucketsPartition(log: seq<Exec>)
    ensures Retired(log) ==
              RetiredIn(log, 0) + RetiredIn(log, 1) + RetiredIn(log, 2) + RetiredIn(log, 3) + RetiredIn(log, 4)
  {
    if log != [] {
      BucketsPartition(log[..|log| - 1]);
    }
  }

  /** Kernel instructions of program counters that have no slot in `t`. */
  function Uncelled(log: seq<Exec>, t: Table): nat {
    if log == [] then 0
    else
      var e := log[|log| - 1];
      Uncelled(log[..|log| - 1], t) + if Classify(e.pc) == B_KERNEL && e.pc !in t then e.n else 0
  }

  /** What the cell of a slot holding `pc` should count. */
  function SlotCount(log: seq<Exec>, pc: nat): nat {
    if pc == 0 then 0 else RetiredAt(log, pc)
  }

  function Cells(log: seq<Exec>, t: Table): seq<nat> {
    seq(|t|, i requires 0 <= i < |t| => SlotCount(log, t[i]))
  }

  function Sum(s: seq<nat>): nat {
    if s == [] then 0 else Sum(s[..|s| - 1]) + s[|s| - 1]
  }

  lemma {:induction false} SumUpdate(s: seq<nat>, i: nat, v: nat)
    requires i < |s|
    ensures Sum(s[i := v]) + s[i] == Sum(s) + v
  {
    var n := |s| - 1;
    if i == n {
      assert s[i := v][..n] == s[..n];
    } else {
      assert s[i := v][..n] == s[..n][i := v];
      SumUpdate(s[..n], i, v);
    }
  }

  lemma {:induction false} SumZero(s: seq<nat>)
    requires forall i :: 0 <= i < |s| ==> s[i] == 0
    ensures Sum(s) == 0
  {
    if s != [] {
      SumZero(s[..|s| - 1]);
    }
  }

  /** Only kernel program counters are given slots. */
  ghost predicate KernelOnly(t: Table) {
    forall i :: 0 <= i < |t| && t[i] != 0 ==> Classify(t[i]) == B_KERNEL
  }

  /** The cells and the refused blocks together account for exactly the kernel bucket. */
  lemma {:induction false} KernelConserved(log: seq<Exec>, t: Table)
    requires IsTable(t) && KernelOnly(t)
    ensures Sum(Cells(log, t)) + Uncelled(log, t) == RetiredIn(log, B_KERNEL)
  {
    if log == [] {
      SumZero(Cells(log, t));
    } else {
      var rest, e := log[..|log| - 1], log[|log| - 1];
      KernelConserved(rest, t);
      if Classify(e.pc) == B_KERNEL && e.pc in t {
        var i :| 0 <= i < |t| && t[i] == e.pc;
        var c := Cells(rest, t);
        SumUpdate(c, i, c[i] + e.n);
        assert Cells(log, t) == c[i := c[i] + e.n];
      } else {
        assert Cells(log, t) == Cells(rest, t);
      }
    }
  }

  lemma {:induction false} AllCelled(log: seq<Exec>, t: Table)
    requires forall e :: e in log && Classify(e.pc) == B_KERNEL ==> e.pc in t
    ensures Uncelled(log, t) == 0
  {
    if log != [] {
      assert log[|log| - 1] in log;
      AllCelled(log[..|log| - 1], t);
    }
  }

  lemma {:induction false} NeverRan(log: seq<Exec>, pc: nat)
    requires forall e :: e in log ==> e.pc != pc
    ensures RetiredAt(log, pc) == 0
  {
    if log != [] {
      assert log[|log| - 1] in log;
      NeverRan(log[..|log| - 1], pc);
    }
  }

  lemma {:induction false} BucketBound(log: seq<Exec>, bucket: nat)
    ensures RetiredIn(log, bucket) <= Retired(log)
  {
    if log != [] {
      BucketBound(log[..|log| - 1], bucket);
    }
  }

  lemma {:induction false} PcBound(log: seq<Exec>, pc: nat)
    ensures RetiredAt(log, pc) <= Retired(log)
  {
    if log != [] {
      PcBound(log[..|log| - 1], pc);
    }
  }

  /** The counters: cells, buckets and total. */
  datatype Tally = Tally(insns: seq<nat>, counts: seq<nat>, total: nat)

  /** Every counter is its exact value modulo 2^64. */
  ghost predicate Tallies(log: seq<Exec>, t: Table, tally: Tally) {
    match tally
    case Tally(insns, counts, total) =>
      && |counts| == B_N && |insns| == |t|
      && total == Retired(log) % U64
      && (forall b :: 0 <= b < B_N ==> counts[b] == RetiredIn(log, b) % U64)
      && (forall i :: 0 <= i < |t| ==> insns[i] == SlotCount(log, t[i]) % U64)
  }

  /** Where counter `pc` has its cell in `t`: its slot, or nowhere. */
  ghost predicate CellFor(t: Table, pc: nat, cell: Option<nat>) {
    match cell
    case Some(i) => pc != 0 && i < |t| && t[i] == pc
    case None => pc == 0 || pc !in t
  }

  /** A cell given out stays with its counter, and so does a refusal by a full table. */
  lemma CellStays(t: Table, u: Table, pc: nat, cell: Option<nat>)
    requires Grows(t, u) && CellFor(t, pc, cell) && (cell.None? ==> Full(t))
    ensures CellFor(u, pc, cell) && (cell.None? ==> Full(u))
  {
    if cell.None? {
      assert forall i :: 0 <= i < |t| ==> t[i] in t && u[i] == t[i];
    }
  }

  lemma OneCell(t: Table, pc: nat, c: Option<nat>, d: Option<nat>)
    requires IsTable(t) && pc != 0 && CellFor(t, pc, c) && CellFor(t, pc, d)
    ensures c == d
  {
  }

  function Bump(s: seq<nat>, i: nat, n: nat): seq<nat>
    requires i < |s|
  {
    s[i := (s[i] + n) % U64]
  }

  lemma WrapAdd(x: nat, n: nat)
    ensures (x % U64 + n) % U64 == (x + n) % U64
  {
  }

  function AfterExec(tally: Tally, e: Exec, cell: Option<nat>): Tally
    requires |tally.counts| == B_N && (cell.Some? ==> cell.value < |tally.insns|)
  {
    Tally(if cell.Some? then Bump(tally.insns, cell.value, e.n) else tally.insns,
          Bump(tally.counts, Classify(e.pc), e.n),
          (tally.total + e.n) % U64)
  }

  /** One more block run: its bucket, its cell and the total go up by its instructions. */
  lemma TallyExec(log: seq<Exec>, t: Table, tally: Tally, e: Exec, cell: Option<nat>)
    requires IsTable(t) && Tallies(log, t, tally) && CellFor(t, e.pc, cell)
    ensures Tallies(log + [e], t, AfterExec(tally, e, cell))
  {
    var log' := log + [e];
    assert log'[..|log'| - 1] == log;
    var tally' := AfterExec(tally, e, cell);
    forall b | 0 <= b < B_N ensures tally'.counts[b] == RetiredIn(log', b) % U64 {
      WrapAdd(RetiredIn(log, b), e.n);
    }
    forall i | 0 <= i < |t| ensures tally'.insns[i] == SlotCount(log', t[i]) % U64 {
      WrapAdd(SlotCount(log, t[i]), e.n);
    }
    WrapAdd(Retired(log), e.n);
  }

  lemma Unwrapped(x: nat, exact: nat)
    requires x == exact % U64 && exact < U64
    ensures x == exact
  {
  }

  /** While fewer than 2^64 instructions have retired nothing has wrapped. */
  lemma TalliesExact(log: seq<Exec>, t: Table, tally: Tally)
    requires Tallies(log, t, tally) && Retired(log) < U64
    ensures tally.total == Retired(log) && tally.insns == Cells(log, t) && |tally.counts| == B_N
    ensures forall b :: 0 <= b < B_N ==> tally.counts[b] == RetiredIn(log, b)
  {
    Unwrapped(tally.total, Retired(log));
    forall b | 0 <= b < B_N ensures tally.counts[b] == RetiredIn(log, b) {
      BucketBound(log, b);
      Unwrapped(tally.counts[b], RetiredIn(log, b));
    }
    forall i | 0 <= i < |t| ensures tally.insns[i] == SlotCount(log, t[i]) {
      PcBound(log, t[i]);
      Unwrapped(tally.insns[i], SlotCount(log, t[i]));
    }
  }

  // ----- the report -----

  const RANKS := 12

  /** The order of the report: more instructions first, then the lower slot. */
  predicate Beats(s: seq<nat>, i: nat, j: nat)
    requires i < |s| && j < |s|
  {
    s[i] > s[j] || (s[i] == s[j] && i < j)
  }

  /** `r` holds slots in use, best first. */
  ghost predicate Descends(s: seq<nat>, r: seq<nat>) {
    && (forall k :: 0 <= k < |r| ==> r[k] < |s| && s[r[k]] > 0)
    && (forall k, l :: 0 <= k < l < |r| ==> Beats(s, r[k], r[l]))
  }

  /** Every slot that is not in `r` is beaten by every slot that is. */
  ghost predicate Leads(s: seq<nat>, r: seq<nat>)
    requires Descends(s, r)
  {
    forall k, j :: 0 <= k < |r| && 0 <= j < |s| && j !in r ==> Beats(s, r[k], j)
  }

  /** `r` lists the best slots of `s` in order, leaving out only beaten and zero ones. */
  ghost predicate IsRanking(s: seq<nat>, r: seq<nat>) {
    && |r| <= RANKS && Descends(s, r) && Leads(s, r)
    && (|r| < RANKS ==> forall j :: 0 <= j < |s| && j !in r ==> s[j] == 0)
  }

  /** `snap` is `s` with the slots of `r` struck out. */
  ghost predicate Struck(s: seq<nat>, r: seq<nat>, snap: seq<nat>) {
    |snap| == |s| && forall j :: 0 <= j < |s| ==> snap[j] == if j in r then 0 else s[j]
  }

  /** The best slot left over is the next of the list. */
  lemma NextRank(s: seq<nat>, r: seq<nat>, snap: seq<nat>, b: nat)
    requires Descends(s, r) && Leads(s, r) && Struck(s, r, snap) && b < |s| && snap[b] > 0
    requires forall j :: 0 <= j < |snap| ==> j == b || Beats(snap, b, j)
    ensures Descends(s, r + [b]) && Leads(s, r + [b]) && Struck(s, r + [b], snap[b := 0])
  {
    assert b !in r;
    forall k, l | 0 <= k < l < |r + [b]| ensures Beats(s, (r + [b])[k], (r + [b])[l]) {
      if l == |r| {
        assert Beats(s, r[k], b);
      }
    }
    forall k, j | 0 <= k < |r + [b]| && 0 <= j < |s| && j !in r + [b] ensures Beats(s, (r + [b])[k], j) {
      if k == |r| {
        assert Beats(snap, b, j);
      } else {
        assert j !in r;
        assert Beats(s, r[k], j);
      }
    }
  }

  /** `q` and `r` agree on their first `k` entries. */
  ghost predicate AgreeTo(q: seq<nat>, r: seq<nat>, k: nat) {
    k <= |q| && k <= |r| && forall l :: 0 <= l < k ==> q[l] == r[l]
  }

  /** At most one list is a ranking. */
  lemma RankingUnique(s: seq<nat>, q: seq<nat>, r: seq<nat>)
    requires IsRanking(s, q) && IsRanking(s, r)
    ensures q == r
  {
    var k := 0;
    while k < |q| && k < |r|
      invariant AgreeTo(q, r, k)
    {
      Foremost(s, q, k, r);
      Foremost(s, r, k, q);
      k := k + 1;
    }
    if k == |q| {
      NoneAfter(s, q, r);
    } else {
      NoneAfter(s, r, q);
    }
  }

  /** Entry `k` of one ranking is not beaten by entry `k` of another that agrees with it before. */
  lemma Foremost(s: seq<nat>, q: seq<nat>, k: nat, r: seq<nat>)
    requires IsRanking(s, q) && IsRanking(s, r) && k < |q| && k < |r| && AgreeTo(q, r, k)
    ensures q[k] == r[k] || Beats(s, q[k], r[k])
  {
    assert forall l :: 0 <= l < k ==> Beats(s, r[l], r[k]) && q[l] != r[k];
    if r[k] in q {
      var l :| 0 <= l < |q| && q[l] == r[k];
      assert k <= l;
    }
  }

  lemma RanksDistinct(s: seq<nat>, r: seq<nat>, k: nat)
    requires IsRanking(s, r) && k < |r|
    ensures r[k] !in r[..k]
  {
    assert forall l :: 0 <= l < k ==> Beats(s, r[l], r[k]);
  }

  lemma NoneAfter(s: seq<nat>, q: seq<nat>, r: seq<nat>)
    requires IsRanking(s, q) && IsRanking(s, r) && AgreeTo(q, r, |q|)
    ensures |q| == |r|
  {
    assert q == r[..|q|];
    if |q| < |r| {
      RanksDistinct(s, r, |q|);
    }
  }

  /** The first greatest entry, or none when every entry is zero. */
  method Best(snap: array<nat>) returns (bi: Option<nat>)
    ensures bi.None? ==> forall j :: 0 <= j < snap.Length ==> snap[j] == 0
    ensures bi.Some? ==> bi.value < snap.Length && snap[bi.value] > 0
    ensures bi.Some? ==> forall j :: 0 <= j < snap.Length ==> j == bi.value || Beats(snap[..], bi.value, j)
  {
    var best := 0;
    bi := None;
    var i := 0;
    while i < snap.Length
      invariant 0 <= i <= snap.Length
      invariant bi.None? ==> best == 0 && forall j :: 0 <= j < i ==> snap[j] == 0
      invariant bi.Some? ==> bi.value < i && best == snap[bi.value] > 0
      invariant forall j :: 0 <= j < i ==> snap[j] <= best
      invariant bi.Some? ==> forall j :: 0 <= j < bi.value ==> snap[j] < best
    {
      if snap[i] > best {
        best, bi := snap[i], Some(i);
      }
      i := i + 1;
    }
  }

  // ----- the profiler -----

  /** The payload of a translation block. */
  datatype Site = Site(bucket: nat, n: nat, pc: nat, cell: Option<nat>)

  const DUMP_EVERY := 200_000_000

  /** Kernel code that ran has a cell, unless the table is full. */
  ghost predicate Served(log: seq<Exec>, t: Table) {
    forall e :: e in log && Classify(e.pc) == B_KERNEL ==> e.pc in t || Full(t)
  }

  /** Only translated blocks ran. */
  ghost predicate Ran(log: seq<Exec>, sites: seq<Site>) {
    forall e :: e in log ==> Translated(sites, e.pc)
  }

  ghost predicate Translated(sites: seq<Site>, pc: nat) {
    exists k :: 0 <= k < |sites| && sites[k].pc == pc
  }

  /** A translated block's cell is its counter's slot; it has none only outside the kernel or where the
      table is full without it. */
  ghost predicate SiteOk(t: Table, s: Site) {
    && s.bucket == Classify(s.pc)
    && match s.cell
       case Some(i) => s.bucket == B_KERNEL && i < |t| && t[i] == s.pc
       case None => s.bucket == B_KERNEL ==> Full(t) && s.pc !in t
  }

  ghost predicate SitesOk(t: Table, sites: seq<Site>) {
    forall k :: 0 <= k < |sites| ==> SiteOk(t, sites[k])
  }

  /** Everything the profiler knows, and everything executed so far. */
  datatype Profile = Profile(table: Table, tally: Tally, sites: seq<Site>, log: seq<Exec>)

  /** The invariant of every run. */
  ghost predicate IsProfile(p: Profile) {
    match p
    case Profile(t, tally, sites, log) =>
      && IsTable(t) && KernelOnly(t) && Tallies(log, t, tally)
      && Served(log, t) && Ran(log, sites) && SitesOk(t, sites)
  }

  lemma ServedOn(log: seq<Exec>, t: Table, s: Site)
    requires Served(log, t) && SiteOk(t, s)
    ensures Served(log + [Exec(s.pc, s.n)], t)
  {
  }

  lemma RanOn(log: seq<Exec>, sites: seq<Site>, k: nat)
    requires Ran(log, sites) && k < |sites|
    ensures Ran(log + [Exec(sites[k].pc, sites[k].n)], sites)
  {
    assert Translated(sites, sites[k].pc);
  }

  lemma SiteCell(t: Table, s: Site)
    requires KernelOnly(t) && SiteOk(t, s)
    ensures CellFor(t, s.pc, s.cell)
  {
  }

  /** Executing block `k` once more. */
  lemma ProfileExec(p: Profile, k: nat)
    requires IsProfile(p) && k < |p.sites|
    ensures var s := p.sites[k];
            && |p.tally.counts| == B_N && (s.cell.Some? ==> s.cell.value < |p.tally.insns|)
            && IsProfile(p.(tally := AfterExec(p.tally, Exec(s.pc, s.n), s.cell), log := p.log + [Exec(s.pc, s.n)]))
  {
    var s := p.sites[k];
    assert SiteOk(p.table, s);
    SiteCell(p.table, s);
    TallyExec(p.log, p.table, p.tally, Exec(s.pc, s.n), s.cell);
    ServedOn(p.log, p.table, s);
    RanOn(p.log, p.sites, k);
  }

  /** The table after a lookup of kernel counter `pc` answered `cell`. */
  ghost predicate LookedUp(t: Table, u: Table, pc: nat, cell: Option<nat>) {
    match cell
    case None => u == t && Full(t) && pc !in t
    case Some(i) => i < |t| && if pc in t then u == t && t[i] == pc else t[i] == 0 && u == t[i := pc]
  }

  lemma LookupGrows(t: Table, u: Table, pc: nat, cell: Option<nat>)
    requires LookedUp(t, u, pc, cell)
    ensures Grows(t, u) && (forall x :: x in t && x != 0 ==> x in u) && (Full(t) ==> u == t)
  {
    if u != t {
      assert forall i :: 0 <= i < |t| && t[i] != 0 ==> u[i] == t[i];
    }
  }

  lemma SiteStays(t: Table, u: Table, s: Site)
    requires SiteOk(t, s) && Grows(t, u) && (Full(t) ==> u == t)
    ensures SiteOk(u, s)
  {
  }

  lemma SitesMore(t: Table, u: Table, sites: seq<Site>, s: Site)
    requires SitesOk(t, sites) && Grows(t, u) && (Full(t) ==> u == t) && SiteOk(u, s)
    ensures SitesOk(u, sites + [s])
  {
    forall k | 0 <= k < |sites + [s]| ensures SiteOk(u, (sites + [s])[k]) {
      if k < |sites| {
        SiteStays(t, u, sites[k]);
      }
    }
  }

  lemma RanMore(log: seq<Exec>, sites: seq<Site>, s: Site)
    requires Ran(log, sites)
    ensures Ran(log, sites + [s])
  {
    forall e | e in log ensures Translated(sites + [s], e.pc) {
      assert Translated(sites, e.pc);
      var k :| 0 <= k < |sites| && sites[k].pc == e.pc;
      assert (sites + [s])[k].pc == e.pc;
    }
  }

  /** A counter that gets a slot only now has not run, so its zero cell is right. */
  lemma TalliesMore(log: seq<Exec>, t: Table, u: Table, tally: Tally, pc: nat, cell: Option<nat>)
    requires IsTable(t) && Tallies(log, t, tally) && Served(log, t) && LookedUp(t, u, pc, cell)
             && Classify(pc) == B_KERNEL
    ensures Tallies(log, u, tally) && Served(log, u)
  {
    LookupGrows(t, u, pc, cell);
    if u != t {
      NeverRan(log, pc);
    }
  }

  /** Translating another kernel block. */
  lemma ProfileTrans(p: Profile, u: Table, s: Site)
    requires IsProfile(p) && s.bucket == Classify(s.pc)
    requires if s.bucket == B_KERNEL then IsTable(u) && LookedUp(p.table, u, s.pc, s.cell)
             else u == p.table && s.cell.None?
    ensures IsProfile(p.(table := u, sites := p.sites + [s])) && Grows(p.table, u)
  {
    if s.bucket == B_KERNEL {
      LookupGrows(p.table, u, s.pc, s.cell);
      TalliesMore(p.log, p.table, u, p.tally, s.pc, s.cell);
    }
    SitesMore(p.table, u, p.sites, s);
    RanMore(p.log, p.sites, s);
  }

  /** Before 2^64 instructions: the buckets add up to the total, every cell is exact, and the cells make up
      the kernel bucket exactly when no kernel block that ran lacks a cell. */
  lemma ProfileExact(p: Profile)
    requires IsProfile(p) && Retired(p.log) < U64
    ensures var c := p.tally.counts;
            |c| == B_N && p.tally.total == Retired(p.log) == c[0] + c[1] + c[2] + c[3] + c[4]
    ensures p.tally.insns == Cells(p.log, p.table)
    ensures Sum(p.tally.insns) + Uncelled(p.log, p.table) == p.tally.counts[B_KERNEL]
    ensures NoneRefused(p.sites) ==> Uncelled(p.log, p.table) == 0
  {
    TalliesExact(p.log, p.table, p.tally);
    BucketsPartition(p.log);
    KernelConserved(p.log, p.table);
    if NoneRefused(p.sites) {
      RanHaveCells(p.log, p.table, p.sites);
      AllCelled(p.log, p.table);
    }
  }

  /** No lookup for a translated block was answered NULL. */
  ghost predicate NoneRefused(sites: seq<Site>) {
    forall k :: 0 <= k < |sites| && sites[k].bucket == B_KERNEL ==> sites[k].cell.Some?
  }

  lemma RanHaveCells(log: seq<Exec>, t: Table, sites: seq<Site>)
    requires Ran(log, sites) && SitesOk(t, sites) && NoneRefused(sites)
    ensures forall e :: e in log && Classify(e.pc) == B_KERNEL ==> e.pc in t
  {
    forall e | e in log && Classify(e.pc) == B_KERNEL ensures e.pc in t {
      assert Translated(sites, e.pc);
      var k :| 0 <= k < |sites| && sites[k].pc == e.pc;
      assert SiteOk(t, sites[k]);
    }
  }

  class Profiler {
    const hotPc: array<nat>
    const hotInsns: array<nat>
    const counts: array<nat>
    var total: nat
    var nextDump: nat
    var sites: seq<Site>

    /** Everything executed so far. */
    ghost var log: seq<Exec>

    predicate Shaped() {
      && hotPc.Length == HOT_N && hotInsns.Length == HOT_N && counts.Length == B_N
      && hotPc != hotInsns && hotPc != counts && hotInsns != counts
    }

    ghost function Now(): Profile
      reads `total, `sites, `log, hotPc, hotInsns, counts
    {
      Profile(hotPc[..], Tally(hotInsns[..], counts[..], total), sites, log)
    }

    ghost predicate Valid()
      reads `total, `sites, `log, hotPc, hotInsns, counts
    {
      Shaped() && IsProfile(Now())
    }

    constructor ()
      ensures Valid() && log == [] && sites == []
      ensures fresh(hotPc) && fresh(hotInsns) && fresh(counts)
    {
      hotPc := new nat[HOT_N](i => 0);
      hotInsns := new nat[HOT_N](i => 0);
      counts := new nat[B_N](i => 0);
      total, nextDump, sites, log := 0, DUMP_EVERY, [], [];
    }

    /** The table as a map: a stored counter finds its one cell, a new one takes an empty slot and changes
        nothing else, and refusal means the table is full without it. */
    method HotSlot(pc: nat) returns (cell: Option<nat>)
      requires Shaped() && IsTable(hotPc[..]) && pc != 0
      modifies hotPc
      ensures IsTable(hotPc[..]) && LookedUp(old(hotPc[..]), hotPc[..], pc, cell)
    {
      var h := Hash(pc);
      var i := 0;
      ghost var t := hotPc[..];
      while i < HOT_N
        invariant 0 <= i <= HOT_N && hotPc[..] == t && Missed(t, pc, i)
      {
        ProbeIsSlot(pc, i);
        var idx := (h + i) % HOT_N;
        if hotPc[idx] == pc {
          return Some(idx);
        }
        if hotPc[idx] == 0 {
          EmptyMeansAbsent(t, pc, i);
          InsertKeepsTable(t, pc, i);
          hotPc[idx] := pc;
          assert hotPc[..] == t[idx := pc];
          return Some(idx);
        }
        i := i + 1;
      }
      CycleMisses(t, pc);
      return None;
    }

    /** For any sequence of counters: equal counters get one cell, distinct counters distinct cells, cells
        are never reassigned, and a counter without a cell means the table is full without it. */
    method HotSlots(pcs: seq<nat>) returns (cells: seq<Option<nat>>)
      requires Shaped() && IsTable(hotPc[..]) && forall k :: 0 <= k < |pcs| ==> pcs[k] != 0
      modifies hotPc
      ensures IsTable(hotPc[..]) && Grows(old(hotPc[..]), hotPc[..]) && |cells| == |pcs|
      ensures forall k :: 0 <= k < |pcs| ==>
                CellFor(hotPc[..], pcs[k], cells[k]) && (cells[k].None? ==> Full(hotPc[..]))
      ensures forall k, l :: 0 <= k < l < |pcs| ==> (cells[k] == cells[l] != None ==> pcs[k] == pcs[l])
      ensures forall k, l :: 0 <= k < l < |pcs| ==> (pcs[k] == pcs[l] ==> cells[k] == cells[l])
    {
      cells := [];
      while |cells| < |pcs|
        invariant IsTable(hotPc[..]) && Grows(old(hotPc[..]), hotPc[..]) && |cells| <= |pcs|
        invariant forall k :: 0 <= k < |cells| ==>
                    CellFor(hotPc[..], pcs[k], cells[k]) && (cells[k].None? ==> Full(hotPc[..]))
        decreases |pcs| - |cells|
      {
        ghost var t := hotPc[..];
        var cell := HotSlot(pcs[|cells|]);
        LookupGrows(t, hotPc[..], pcs[|cells|], cell);
        forall k | 0 <= k < |cells| ensures CellFor(hotPc[..], pcs[k], cells[k]) {
          CellStays(t, hotPc[..], pcs[k], cells[k]);
        }
        cells := cells + [cell];
      }
      forall k, l | 0 <= k < l < |pcs| && pcs[k] == pcs[l] ensures cells[k] == cells[l] {
        OneCell(hotPc[..], pcs[k], cells[k], cells[l]);
      }
    }

    /** Translating a block changes no count and keeps every earlier block's cell. */
    method TbTrans(pc: nat, insns: nat)
      requires Valid()
      modifies this`sites, hotPc
      ensures Valid() && Grows(old(hotPc[..]), hotPc[..])
      ensures |sites| == |old(sites)| + 1 && sites[..|old(sites)|] == old(sites)
      ensures sites[|old(sites)|].pc == pc && sites[|old(sites)|].n == insns % 0x1_0000_0000
    {
      ghost var p := Now();
      var bucket := Classify(pc);
      var cell := None;
      if bucket == B_KERNEL {
        cell := HotSlot(pc);
      }
      var s := Site(bucket, insns % 0x1_0000_0000, pc, cell);
      ProfileTrans(p, hotPc[..], s);
      sites := sites + [s];
      assert Now() == p.(table := hotPc[..], sites := p.sites + [s]);
    }

    /** The three counters of a site go up, each modulo 2^64. */
    method Bump3(s: Site)
      requires Shaped() && s.bucket == Classify(s.pc) && (s.cell.Some? ==> s.cell.value < HOT_N)
      modifies this`total, hotInsns, counts
      ensures Tally(hotInsns[..], counts[..], total)
              == AfterExec(old(Tally(hotInsns[..], counts[..], total)), Exec(s.pc, s.n), s.cell)
    {
      counts[s.bucket] := (counts[s.bucket] + s.n) % U64;
      total := (total + s.n) % U64;
      if s.cell.Some? {
        hotInsns[s.cell.value] := (hotInsns[s.cell.value] + s.n) % U64;
      }
    }

    /** Running a block adds its instructions to its bucket, to the total and to its cell. */
    method Count(k: nat)
      requires Valid() && k < |sites|
      modifies this`total, this`log, hotInsns, counts
      ensures Valid() && log == old(log) + [Exec(sites[k].pc, sites[k].n)]
    {
      ghost var p := Now();
      var s := sites[k];
      ProfileExec(p, k);
      assert SiteOk(hotPc[..], s);
      Bump3(s);
      log := log + [Exec(s.pc, s.n)];
      assert Now() == p.(tally := AfterExec(p.tally, Exec(s.pc, s.n), s.cell), log := p.log + [Exec(s.pc, s.n)]);
    }

    method TbExec(k: nat) returns (report: Option<seq<nat>>)
      requires Valid() && k < |sites|
      modifies this`total, this`nextDump, this`log, hotInsns, counts
      ensures Valid() && log == old(log) + [Exec(sites[k].pc, sites[k].n)]
      ensures report.Some? <==> total >= old(nextDump)
      ensures report.Some? ==> IsRanking(hotInsns[..], report.value) && nextDump == (total + DUMP_EVERY) % U64
      ensures report.None? ==> nextDump == old(nextDump)
    {
      Count(k);
      report := ReportDue();
    }

    /** The report falls due when the total passes the next threshold. */
    method ReportDue() returns (report: Option<seq<nat>>)
      modifies `nextDump
      ensures report.Some? <==> total >= old(nextDump)
      ensures report.Some? ==> IsRanking(hotInsns[..], report.value) && nextDump == (total + DUMP_EVERY) % U64
      ensures report.None? ==> nextDump == old(nextDump)
    {
      report := None;
      if total >= nextDump {
        nextDump := (total + DUMP_EVERY) % U64;
        var ranked := Dump();
        report := Some(ranked);
      }
    }

    /** The slots of the report, best first. */
    method Dump() returns (ranked: seq<nat>)
      ensures IsRanking(hotInsns[..], ranked)
    {
      var snap := new nat[hotInsns.Length](i requires 0 <= i < hotInsns.Length reads hotInsns => hotInsns[i]);
      ghost var s := hotInsns[..];
      ranked := [];
      while |ranked| < RANKS
        invariant |ranked| <= RANKS && hotInsns[..] == s
        invariant Descends(s, ranked) && Leads(s, ranked) && Struck(s, ranked, snap[..])
        decreases RANKS - |ranked|
      {
        var bi := Best(snap);
        if bi.None? {
          assert forall j :: 0 <= j < |s| && j !in ranked ==> snap[..][j] == s[j];
          break;
        }
        NextRank(s, ranked, snap[..], bi.value);
        snap[bi.value] := 0;
        ranked := ranked + [bi.value];
      }
    }

    /** Before 2^64 instructions: the buckets add up to the total, every cell is exact, and the cells make
        up the kernel bucket as long as no lookup was refused. */
    lemma Exact()
      requires Valid() && Retired(log) < U64
      ensures total == Retired(log) == counts[0] + counts[1] + counts[2] + counts[3] + counts[4]
      ensures forall i :: 0 <= i < HOT_N && hotPc[i] != 0 ==> hotInsns[i] == RetiredAt(log, hotPc[i])
      ensures Sum(hotInsns[..]) + Uncelled(log, hotPc[..]) == counts[B_KERNEL]
      ensures NoneRefused(sites) ==> Sum(hotInsns[..]) == counts[B_KERNEL]
      ensures !Full(hotPc[..]) ==> NoneRefused(sites)
    {
      ProfileExact(Now());
      assert !Full(hotPc[..]) ==> forall k :: 0 <= k < |sites| ==> SiteOk(hotPc[..], sites[k]);
      forall i | 0 <= i < HOT_N && hotPc[i] != 0 ensures hotInsns[i] == RetiredAt(log, hotPc[i]) {
        assert hotInsns[..][i] == Cells(log, hotPc[..])[i];
      }
    }
  }
}
