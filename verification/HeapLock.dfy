/** The poisonable spin lock of the executive's heap, shared by every lane that maps the heap's frames, as
    a step system over any number of threads. */
module HeapLock {

  datatype Word = Unlocked | Held | Poisoned

  /** Where a thread is: outside the allocator, in the acquire loop, holding the guard, unwinding after it
      reported corruption, finished unwinding, or parked for good. */
  datatype Thread = Outside | Acquiring | Inside | Unwinding | Dead | Parked

  datatype State = State(word: Word, threads: map<nat, Thread>)

  function Initial(): State {
    State(Unlocked, map[])
  }

  function At(s: State, t: nat): Thread {
    if t in s.threads then s.threads[t] else Outside
  }

  function Move(s: State, t: nat, to: Thread): State {
    s.(threads := s.threads[t := to])
  }

  /** A thread calls the allocator, tries the weak compare-exchange (which may fail spuriously), drops its
      guard, or finds the free list damaged. */
  datatype Event =
    | Call(thread: nat)
    | Try(thread: nat, spurious: bool)
    | Drop(thread: nat)
    | Corruption(thread: nat)

  ghost predicate Enabled(s: State, e: Event) {
    match e
    case Call(t) => At(s, t).Outside?
    case Try(t, _) => At(s, t).Acquiring?
    case Drop(t) => At(s, t).Inside? || At(s, t).Unwinding?
    case Corruption(t) => At(s, t).Inside?
  }

  /** The guard's drop is a strong compare-exchange from held to unlocked: on any other word it does
      nothing. */
  function Released(w: Word): Word {
    if w.Held? then Unlocked else w
  }

  ghost function Step(s: State, e: Event): State
    requires Enabled(s, e)
  {
    match e
    case Call(t) => Move(s, t, Acquiring)
    case Try(t, spurious) =>
      if s.word.Unlocked? && !spurious then Move(s, t, Inside).(word := Held)
      else if s.word.Poisoned? then Move(s, t, Parked)
      else s
    case Drop(t) => Move(s, t, if At(s, t).Inside? then Outside else Dead).(word := Released(s.word))
    case Corruption(t) => Move(s, t, Unwinding).(word := Poisoned)
  }

  ghost predicate Path(s: State, run: seq<Event>, s': State)
    decreases |run|
  {
    if run == [] then s == s' else Enabled(s, run[0]) && Path(Step(s, run[0]), run[1..], s')
  }

  /** The word is held exactly while one thread is inside; a thread that reported corruption has left the
      word poisoned. */
  ghost predicate Inv(s: State) {
    && (forall t, u :: At(s, t).Inside? && At(s, u).Inside? ==> t == u)
    && (s.word.Held? <==> exists t :: At(s, t).Inside?)
    && (forall t :: At(s, t).Unwinding? || At(s, t).Dead? ==> s.word.Poisoned?)
  }

  /** Poison is never undone and lets nobody in. */
  ghost predicate StaysPoisoned(s: State, s': State) {
    s.word.Poisoned? ==> s'.word.Poisoned? && forall t :: !At(s, t).Inside? && !At(s', t).Inside?
  }

  lemma EnterKeeps(s: State, t: nat)
    requires Inv(s) && At(s, t).Acquiring? && s.word.Unlocked?
    ensures Inv(Step(s, Try(t, false)))
  {
    var s' := Step(s, Try(t, false));
    assert At(s', t).Inside?;
    assert forall u :: u != t ==> At(s', u) == At(s, u);
  }

  lemma LeaveKeeps(s: State, t: nat)
    requires Inv(s) && (At(s, t).Inside? || At(s, t).Unwinding?)
    ensures Inv(Step(s, Drop(t)))
  {
    var s' := Step(s, Drop(t));
    assert forall u :: u != t ==> At(s', u) == At(s, u);
  }

  lemma PoisonKeeps(s: State, t: nat)
    requires Inv(s) && At(s, t).Inside?
    ensures Inv(Step(s, Corruption(t)))
  {
    var s' := Step(s, Corruption(t));
    assert forall u :: u != t ==> At(s', u) == At(s, u);
  }

  lemma StepKeeps(s: State, e: Event)
    requires Inv(s) && Enabled(s, e)
    ensures Inv(Step(s, e)) && StaysPoisoned(s, Step(s, e))
  {
    var t := e.thread;
    var s' := Step(s, e);
    assert forall u :: u != t ==> At(s', u) == At(s, u);
    match e
    case Call(_) =>
    case Try(_, spurious) =>
      if s.word.Unlocked? && !spurious {
        EnterKeeps(s, t);
      }
    case Drop(_) =>
      LeaveKeeps(s, t);
    case Corruption(_) =>
      PoisonKeeps(s, t);
  }

  lemma {:induction false} RunKeeps(s: State, run: seq<Event>, s': State)
    requires Inv(s) && Path(s, run, s')
    ensures Inv(s') && StaysPoisoned(s, s')
    decreases |run|
  {
    if run != [] {
      StepKeeps(s, run[0]);
      RunKeeps(Step(s, run[0]), run[1..], s');
    }
  }

  /** In every run at most one thread is inside the allocator, and only while the word is held. */
  lemma MutualExclusion(run: seq<Event>, s: State, t: nat, u: nat)
    requires Path(Initial(), run, s) && At(s, t).Inside? && At(s, u).Inside?
    ensures t == u && s.word.Held?
  {
    RunKeeps(Initial(), run, s);
  }

  /** Once the word is poisoned it stays so and no thread is ever inside again, whatever guards are dropped
      by unwinding. */
  lemma PoisonIsForever(run: seq<Event>, s: State, more: seq<Event>, s': State, t: nat)
    requires Path(Initial(), run, s) && s.word.Poisoned? && Path(s, more, s')
    ensures s'.word.Poisoned? && !At(s', t).Inside?
  {
    RunKeeps(Initial(), run, s);
    RunKeeps(s, more, s');
  }

  /** The word is released only by the thread that holds it: whenever it is held, its holder can still
      drop its guard. */
  lemma HolderCanRelease(run: seq<Event>, s: State) returns (t: nat)
    requires Path(Initial(), run, s) && s.word.Held?
    ensures Enabled(s, Drop(t)) && Step(s, Drop(t)).word.Unlocked?
  {
    RunKeeps(Initial(), run, s);
    t :| At(s, t).Inside?;
  }
}
