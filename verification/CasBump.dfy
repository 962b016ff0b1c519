/** The lock-free bump allocator of `components/configuration-manager/src/allocator.rs` as a step system:
    any number of threads interleave the loads and weak compare-exchanges of their retry loops. */
module CasBump {
  import opened Words
  import opened Sizes

  const ARENA := 512 * 1024
  /** Alignment of the static array itself. */
  const BASE_ALIGN := 16

  /** A request the Rust `Layout` type can describe. */
  datatype Layout = Layout(size: nat, align: int)
  type Request = r: Layout | IsLayout(r.size, r.align) witness Layout(0, 1)

  /** A block handed out, by its offset in the array. */
  datatype Grant = Grant(start: nat, request: Request) {
    function End(): nat { start + request.size }
  }

  // ----- one allocation, on its own -----

  /** Where a request goes when the counter reads `cur`. */
  function Fit(cur: nat, r: Request): (g: Option<Grant>)
    ensures g.Some? ==> g.value.request == r && cur <= g.value.start < cur + r.align && g.value.End() <= ARENA
    ensures g.Some? ==> r.align > 0 && g.value.start % r.align == 0
  {
    Pow2Granule(r.align);
    var aligned := AlignDown(cur + r.align - 1, r.align);
    if aligned + r.size <= ARENA then Some(Grant(aligned, r)) else None
  }

  lemma AlignMonotone(a: nat, b: nat, align: int)
    requires align > 0 && a <= b
    ensures AlignDown(a, align) <= AlignDown(b, align)
  {
    var u, v := AlignDown(a, align), AlignDown(b, align);
    if u > v {
      CloseMultiples(u, v, align);
    }
  }

  /** A request refused at one counter value is refused at every later one. */
  lemma RefusalStands(cur: nat, later: nat, r: Request)
    requires cur <= later && Fit(cur, r).None?
    ensures Fit(later, r).None?
  {
    Pow2Granule(r.align);
    AlignMonotone(cur + r.align - 1, later + r.align - 1, r.align);
  }

  // ----- the step system -----

  /** Where a thread is in `alloc`. At the compare-exchange it remembers what it read: `seen` is the place of
      that value in the counter's history and `since` the number of grants made when it was read. */
  datatype Thread =
    | Idle
    | AtLoad(request: Request)
    | AtCas(request: Request, cur: nat, aligned: nat, end: nat, seen: nat, since: nat)

  /** `counter` lists every value the atomic has held, the current one last. A relaxed load may return any
      of them; a compare-exchange acts on the last. `grants` are the successful allocations in the order of
      their compare-exchanges, `owners` the threads that made them; `refused` the requests answered with null. */
  datatype State = State(counter: seq<nat>, threads: map<nat, Thread>, grants: seq<Grant>, owners: seq<nat>,
                         refused: seq<Request>)

  function Next(s: State): nat {
    Last(s.counter)
  }

  function Last(counter: seq<nat>): nat {
    if counter == [] then 0 else counter[|counter| - 1]
  }

  function Initial(): State {
    State([0], map[], [], [], [])
  }

  function At(s: State, t: nat): Thread {
    if t in s.threads then s.threads[t] else Idle
  }

  datatype Event =
    | Call(thread: nat, request: Request)
    | Load(thread: nat, seen: nat)
    | Cas(thread: nat, spurious: bool)

  ghost predicate Enabled(s: State, e: Event) {
    match e
    case Call(t, r) => At(s, t).Idle?
    case Load(t, i) => At(s, t).AtLoad? && i < |s.counter|
    case Cas(t, _) => At(s, t).AtCas?
  }

  /** One step of one thread. */
  ghost function Step(s: State, e: Event): State
    requires Enabled(s, e)
  {
    match e
    case Call(t, r) => s.(threads := s.threads[t := AtLoad(r)])
    case Load(t, i) =>
      var r := s.threads[t].request;
      var g := Fit(s.counter[i], r);
      if g.None? then s.(threads := s.threads[t := Idle], refused := s.refused + [r])
      else s.(threads := s.threads[t := AtCas(r, s.counter[i], g.value.start, g.value.End(), i, |s.grants|)])
    case Cas(t, spurious) =>
      var a := s.threads[t];
      if a.cur != Next(s) || spurious then s.(threads := s.threads[t := AtLoad(a.request)])
      else
        State(s.counter + [a.end], s.threads[t := Idle], s.grants + [Grant(a.aligned, a.request)],
              s.owners + [t], s.refused)
  }

  // ----- the sequential allocator it must agree with -----

  /** The counter after serving `grants` in order. */
  function Frontier(grants: seq<Grant>): nat {
    if grants == [] then 0 else grants[|grants| - 1].End()
  }

  /** `grants` is exactly what one thread would have been given for the same requests in this order. */
  ghost predicate Sequential(grants: seq<Grant>) {
    grants == [] ||
    var prior, g := grants[..|grants| - 1], grants[|grants| - 1];
    Sequential(prior) && Fit(Frontier(prior), g.request) == Some(g)
  }

  // ----- the invariant, part by part -----

  ghost predicate Climbs(counter: seq<nat>) {
    && counter != []
    && (forall i, j :: 0 <= i < j < |counter| ==> counter[i] <= counter[j])
    && (forall i :: 0 <= i < |counter| ==> counter[i] <= ARENA)
  }

  /** The counter moved once per grant, to where that grant ends. */
  ghost predicate Served(counter: seq<nat>, grants: seq<Grant>, owners: seq<nat>) {
    Sequential(grants) && |owners| == |grants| && |counter| == |grants| + 1 && Last(counter) == Frontier(grants)
  }

  /** What a thread at its compare-exchange holds: a value the counter had, the place for its request there,
      and since its load no grant of its own. */
  ghost predicate ThreadOk(counter: seq<nat>, owners: seq<nat>, t: nat, a: Thread) {
    a.AtCas? ==>
      && a.seen < |counter| && counter[a.seen] == a.cur && a.seen <= a.since <= |owners|
      && Fit(a.cur, a.request) == Some(Grant(a.aligned, a.request)) && a.end == a.aligned + a.request.size
      && forall k :: a.since <= k < |owners| ==> owners[k] != t
  }

  ghost predicate ThreadsOk(counter: seq<nat>, owners: seq<nat>, threads: map<nat, Thread>) {
    forall t {:trigger ThreadOk(counter, owners, t, threads[t])} :: t in threads ==>
      ThreadOk(counter, owners, t, threads[t])
  }

  ghost predicate AllRefused(next: nat, refused: seq<Request>) {
    forall k {:trigger Fit(next, refused[k])} :: 0 <= k < |refused| ==> Fit(next, refused[k]).None?
  }

  ghost predicate Inv(s: State) {
    && Climbs(s.counter) && Served(s.counter, s.grants, s.owners)
    && ThreadsOk(s.counter, s.owners, s.threads) && AllRefused(Next(s), s.refused)
  }

  lemma ClimbsOn(counter: seq<nat>, end: nat)
    requires Climbs(counter) && Last(counter) <= end <= ARENA
    ensures Climbs(counter + [end]) && Last(counter + [end]) == end
  {
  }

  lemma ServedOn(counter: seq<nat>, grants: seq<Grant>, owners: seq<nat>, g: Grant, t: nat)
    requires Served(counter, grants, owners) && Fit(Last(counter), g.request) == Some(g)
    ensures Served(counter + [g.End()], grants + [g], owners + [t])
  {
    assert (grants + [g])[..|grants + [g]| - 1] == grants;
  }

  /** Another thread's grant leaves what a thread holds as it is. */
  lemma ThreadStays(counter: seq<nat>, owners: seq<nat>, u: nat, a: Thread, end: nat, t: nat)
    requires ThreadOk(counter, owners, u, a) && u != t
    ensures ThreadOk(counter + [end], owners + [t], u, a)
  {
  }

  lemma ThreadsOn(counter: seq<nat>, owners: seq<nat>, threads: map<nat, Thread>, end: nat, t: nat)
    requires ThreadsOk(counter, owners, threads)
    ensures ThreadsOk(counter + [end], owners + [t], threads[t := Idle])
  {
    var threads' := threads[t := Idle];
    forall u | u in threads' ensures ThreadOk(counter + [end], owners + [t], u, threads'[u]) {
      if u != t {
        assert ThreadOk(counter, owners, u, threads[u]);
        ThreadStays(counter, owners, u, threads[u], end, t);
      }
    }
  }

  lemma RefusedOn(next: nat, end: nat, refused: seq<Request>)
    requires AllRefused(next, refused) && next <= end
    ensures AllRefused(end, refused)
  {
    forall k | 0 <= k < |refused| ensures Fit(end, refused[k]).None? {
      RefusalStands(next, end, refused[k]);
    }
  }

  lemma ThreadSet(counter: seq<nat>, owners: seq<nat>, threads: map<nat, Thread>, t: nat, a: Thread)
    requires ThreadsOk(counter, owners, threads) && ThreadOk(counter, owners, t, a)
    ensures ThreadsOk(counter, owners, threads[t := a])
  {
    var threads' := threads[t := a];
    forall u | u in threads' ensures ThreadOk(counter, owners, u, threads'[u]) {
      assert u != t ==> ThreadOk(counter, owners, u, threads[u]);
    }
  }

  /** A successful compare-exchange appends the grant a sequential allocator would give. */
  lemma CasKeeps(s: State, t: nat)
    requires Inv(s) && At(s, t).AtCas? && At(s, t).cur == Next(s)
    ensures Inv(Step(s, Cas(t, false))) && Next(s) <= Next(Step(s, Cas(t, false)))
  {
    var a := s.threads[t];
    assert ThreadOk(s.counter, s.owners, t, a);
    ClimbsOn(s.counter, a.end);
    ServedOn(s.counter, s.grants, s.owners, Grant(a.aligned, a.request), t);
    ThreadsOn(s.counter, s.owners, s.threads, a.end, t);
    RefusedOn(Next(s), a.end, s.refused);
  }

  /** A request the load finds too large for any value the counter has held is too large now. */
  lemma LoadKeeps(s: State, t: nat, i: nat)
    requires Inv(s) && At(s, t).AtLoad? && i < |s.counter|
    ensures Inv(Step(s, Load(t, i)))
  {
    var r, g := s.threads[t].request, Fit(s.counter[i], s.threads[t].request);
    if g.None? {
      RefusalStands(s.counter[i], Next(s), r);
      RefusedMore(Next(s), s.refused, r);
      ThreadSet(s.counter, s.owners, s.threads, t, Idle);
    } else {
      var a := AtCas(r, s.counter[i], g.value.start, g.value.End(), i, |s.grants|);
      ThreadSet(s.counter, s.owners, s.threads, t, a);
    }
  }

  lemma RefusedMore(next: nat, refused: seq<Request>, r: Request)
    requires AllRefused(next, refused) && Fit(next, r).None?
    ensures AllRefused(next, refused + [r])
  {
    forall k | 0 <= k < |refused + [r]| ensures Fit(next, (refused + [r])[k]).None? {
      assert k < |refused| ==> Fit(next, refused[k]).None?;
    }
  }

  lemma StepKeeps(s: State, e: Event)
    requires Inv(s) && Enabled(s, e)
    ensures Inv(Step(s, e)) && s.counter <= Step(s, e).counter && s.grants <= Step(s, e).grants
    ensures s.refused <= Step(s, e).refused && Next(s) <= Next(Step(s, e))
  {
    match e
    case Call(t, r) =>
      ThreadSet(s.counter, s.owners, s.threads, t, AtLoad(r));
    case Load(t, i) =>
      LoadKeeps(s, t, i);
    case Cas(t, spurious) =>
      if s.threads[t].cur == Next(s) && !spurious {
        CasKeeps(s, t);
      } else {
        ThreadSet(s.counter, s.owners, s.threads, t, AtLoad(s.threads[t].request));
      }
  }

  // ----- whole runs -----

  /** The events of `run`, in order, lead from `s` to `s'`. */
  ghost predicate Path(s: State, run: seq<Event>, s': State)
    decreases |run|
  {
    if run == [] then s == s' else Enabled(s, run[0]) && Path(Step(s, run[0]), run[1..], s')
  }

  /** Along every run the counter only climbs, and grants and refusals only accumulate. */
  lemma {:induction false} RunKeeps(s: State, run: seq<Event>, s': State)
    requires Inv(s) && Path(s, run, s')
    ensures Inv(s') && s.counter <= s'.counter && Next(s) <= Next(s')
    ensures s.grants <= s'.grants && s.refused <= s'.refused
    decreases |run|
  {
    if run != [] {
      StepKeeps(s, run[0]);
      RunKeeps(Step(s, run[0]), run[1..], s');
    }
  }

  /** In every run the grants are those of a sequential allocator serving the same requests in the order of
      their compare-exchanges, so they are pairwise disjoint and inside the array. */
  lemma Linearizable(run: seq<Event>, s: State)
    requires Path(Initial(), run, s)
    ensures Sequential(s.grants) && Frontier(s.grants) == Next(s)
    ensures forall i, j :: 0 <= i < j < |s.grants| ==> s.grants[i].End() <= s.grants[j].start
    ensures forall i :: 0 <= i < |s.grants| ==> s.grants[i].End() <= Next(s) <= ARENA
  {
    RunKeeps(Initial(), run, s);
    SequentialDisjoint(s.grants);
  }

  lemma {:induction false} SequentialDisjoint(grants: seq<Grant>)
    requires Sequential(grants)
    ensures forall i, j :: 0 <= i < j < |grants| ==> grants[i].End() <= grants[j].start
    ensures forall i :: 0 <= i < |grants| ==> grants[i].End() <= Frontier(grants) <= ARENA
  {
    if grants != [] {
      var prior := grants[..|grants| - 1];
      SequentialDisjoint(prior);
      assert forall i :: 0 <= i < |prior| ==> grants[i] == prior[i];
    }
  }

  /** A null answer is final: at no later point of any run would the request have fitted. */
  lemma NullIsFinal(run: seq<Event>, s: State, more: seq<Event>, s': State, k: nat)
    requires Path(Initial(), run, s) && Path(s, more, s') && k < |s.refused|
    ensures Fit(Next(s), s.refused[k]).None? && Fit(Next(s'), s.refused[k]).None?
  {
    RunKeeps(Initial(), run, s);
    RunKeeps(s, more, s');
    RefusalStands(Next(s), Next(s'), s.refused[k]);
  }

  /** A compare-exchange can fail for a real reason only if the counter has moved past what was read: a grant
      went through after the counter held that value. If the load was not stale, that grant went through after
      the load, and it was another thread's. */
  lemma FailureIsProgress(run: seq<Event>, s: State, t: nat) returns (k: nat)
    requires Path(Initial(), run, s) && At(s, t).AtCas? && At(s, t).cur != Next(s)
    ensures var a := At(s, t);
            && a.cur < Next(s) && a.seen <= k < |s.grants| == |s.owners| && s.grants[k].End() > a.cur
            && (a.seen == a.since ==> a.since <= k && s.owners[k] != t)
  {
    RunKeeps(Initial(), run, s);
    var a := s.threads[t];
    assert ThreadOk(s.counter, s.owners, t, a);
    k := |s.grants| - 1;
  }

  // ----- alignment of the returned address -----

  /** Every grant sits at an aligned offset. */
  lemma {:induction false} OffsetsAligned(grants: seq<Grant>, k: nat)
    requires Sequential(grants) && k < |grants|
    ensures grants[k].request.align > 0 && grants[k].start % grants[k].request.align == 0
  {
    if k < |grants| - 1 {
      OffsetsAligned(grants[..|grants| - 1], k);
    }
  }

  lemma SumDivides(base: nat, offset: nat, align: int)
    requires align > 0 && offset % align == 0
    ensures (base + offset) % align == 0 <==> base % align == 0
  {
    var q := offset / align;
    assert offset == q * align;
    var b, c := base / align, (base + offset) / align;
    if base % align == 0 {
      assert base + offset == (b + q) * align;
      DivMulMod(b + q, align);
    }
    if (base + offset) % align == 0 {
      assert base == (c - q) * align;
      DivMulMod(c - q, align);
    }
  }

  /** The address handed out is aligned as asked exactly when the array's base is. */
  lemma AddressAligned(base: nat, run: seq<Event>, s: State, k: nat)
    requires Path(Initial(), run, s) && k < |s.grants|
    ensures var g := s.grants[k];
            (base + g.start) % g.request.align == 0 <==> base % g.request.align == 0
    ensures s.grants[k].request.align <= BASE_ALIGN && base % BASE_ALIGN == 0 ==>
              (base + s.grants[k].start) % s.grants[k].request.align == 0
  {
    RunKeeps(Initial(), run, s);
    OffsetsAligned(s.grants, k);
    var a := s.grants[k].request.align;
    SumDivides(base, s.grants[k].start, a);
    if a <= BASE_ALIGN && base % BASE_ALIGN == 0 {
      SmallAlign(base, a);
    }
  }

  lemma SmallAlign(base: nat, align: int)
    requires IsPow2(align) && 0 < align <= BASE_ALIGN && base % BASE_ALIGN == 0
    ensures base % align == 0
  {
    Pow2Granule(align);
    GranuleFactors(base);
    assert align >= 8 ==> align == 8 || align == 16;
  }

  /** Beyond the array's own alignment the promise fails: a 16-aligned base and one request aligned to 32. */
  lemma WideAlignMisplaced()
    ensures IsLayout(8, 32) && Path(Initial(), [Call(0, Layout(8, 32)), Load(0, 0), Cas(0, false)], WideState())
    ensures 16 % BASE_ALIGN == 0 && (16 + WideState().grants[0].start) % 32 != 0
  {
    assert IsPow2(32);
    var r: Request := Layout(8, 32);
    assert AlignDown(31, 32) == 0;
  }

  function WideState(): State {
    State([0, 8], map[0 := Idle], [Grant(0, Layout(8, 32))], [0], [])
  }
}
