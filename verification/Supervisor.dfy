/** The decision loop of `scripts/run_with_timeout.py`: a child process is watched through failure,
    completion and readiness markers in append-only logs, its own exit, and two deadlines. */
module Supervisor {
  import opened Words
  import opened LogMarker

  /** A marker searched for in the part of a log written after its first `start` bytes. */
  datatype Marker = Marker(text: Bytes, start: nat)

  datatype Config = Config(
    seconds: real,
    failures: seq<Marker>,
    completion: Option<Marker>,
    graceSeconds: real,
    ready: Option<Marker>,
    postReadySeconds: Option<real>)

  /** Markers are nonempty, as the argument checks demand. */
  ghost predicate ConfigOk(c: Config) {
    && (forall i :: 0 <= i < |c.failures| ==> c.failures[i].text != [])
    && (c.completion.Some? ==> c.completion.value.text != [])
    && (c.ready.Some? ==> c.ready.value.text != [])
  }

  /** What the outside world shows to one turn of the loop, should the turn get that far. Each failure marker
      is looked up by its own poll, so a check of the failure log is one snapshot per marker. */
  datatype Turn = Turn(
    atTop: seq<File>,
    exit: Option<int>,
    atExit: seq<File>,
    completion: File,
    completionTime: real,
    graceTime: real,
    afterGrace: seq<File>,
    ready: File,
    readyTime: real,
    deadlineTime: real,
    afterDeadline: seq<File>,
    signal: Option<Signal>)

  /** A forwarded signal strikes anywhere in a turn: before one of its checks, while the child is being
      stopped or the log drained on the way out, or asleep. */
  datatype Stage =
    | AtTop | StoppingOnFailure | AtPoll | Draining | AtCompletion | AtGrace | StoppingOnGrace
    | AtReady | AtDeadline | StoppingOnDeadline | Asleep

  datatype Signal = Signal(stage: Stage, signum: nat)

  datatype Path = FailureMarker | Exited | GraceExpired | DeadlineExceeded | Signalled

  /** How the run ended: the exit code, the path taken, the turn it ended in, and the snapshots of its last
      failure check. */
  datatype Outcome = Outcome(code: int, path: Path, turn: nat, checked: seq<File>)

  /** The deadlines in force and the markers still looked for. */
  datatype Policy = Policy(deadline: Option<real>, grace: Option<real>, awaitsCompletion: bool, awaitsReady: bool)

  // ----- the reference: decisions over whole logs -----

  ghost predicate Failed(c: Config, logs: seq<File>) {
    exists i :: 0 <= i < |c.failures| && i < |logs| && Seen(logs[i], c.failures[i].text, c.failures[i].start)
  }

  ghost predicate SeenBy(m: Option<Marker>, f: File) {
    m.Some? && Seen(f, m.value.text, m.value.start)
  }

  ghost function Checked(c: Config, logs: seq<File>, code: int, path: Path, turn: nat): Outcome {
    if Failed(c, logs) then Outcome(125, FailureMarker, turn, logs) else Outcome(code, path, turn, logs)
  }

  function Initial(c: Config, now: real): Policy {
    Policy(Some(now + c.seconds), None, c.completion.Some?, c.ready.Some?)
  }

  ghost function AfterCompletion(c: Config, t: Turn, p: Policy): Policy {
    if p.awaitsCompletion && SeenBy(c.completion, t.completion)
    then Policy(None, Some(t.completionTime + c.graceSeconds), false, false) else p
  }

  ghost function AfterReady(c: Config, t: Turn, p: Policy): Policy {
    if p.awaitsReady && SeenBy(c.ready, t.ready)
    then
      var deadline := if c.postReadySeconds.None? then None else Some(t.readyTime + c.postReadySeconds.value);
      p.(deadline := deadline, awaitsReady := false)
    else p
  }

  predicate Expired(deadline: Option<real>, now: real) {
    deadline.Some? && now >= deadline.value
  }

  ghost function NextPolicy(c: Config, t: Turn, p: Policy): Policy {
    AfterReady(c, t, AfterCompletion(c, t, p))
  }

  predicate Struck(t: Turn, stage: Stage) {
    t.signal.Some? && t.signal.value.stage == stage
  }

  /** A signal stops the child and ends the run with its own code, with no further look at the log. */
  function BySignal(t: Turn, k: nat): Outcome
    requires t.signal.Some?
  {
    Outcome(128 + t.signal.value.signum, Signalled, k, [])
  }

  /** What the turn does at a stage, unless the signal strikes there. */
  function Unless(t: Turn, stage: Stage, k: nat, next: Option<Outcome>): Option<Outcome> {
    if Struck(t, stage) then Some(BySignal(t, k)) else next
  }

  /** The outcome turn `k` ends the run with, if it does. */
  ghost function Ends(c: Config, t: Turn, k: nat, p: Policy): Option<Outcome> {
    if Struck(t, AtTop) then Some(BySignal(t, k))
    else if Failed(c, t.atTop) then Unless(t, StoppingOnFailure, k, Some(Outcome(125, FailureMarker, k, t.atTop)))
    else if Struck(t, AtPoll) then Some(BySignal(t, k))
    else if t.exit.Some? then Unless(t, Draining, k, Some(Checked(c, t.atExit, t.exit.value, Exited, k)))
    else if Struck(t, AtCompletion) || Struck(t, AtGrace) then Some(BySignal(t, k))
    else if Expired(AfterCompletion(c, t, p).grace, t.graceTime) then
      Unless(t, StoppingOnGrace, k, Some(Checked(c, t.afterGrace, 0, GraceExpired, k)))
    else if Struck(t, AtReady) || Struck(t, AtDeadline) then Some(BySignal(t, k))
    else if Expired(NextPolicy(c, t, p).deadline, t.deadlineTime) then
      Unless(t, StoppingOnDeadline, k, Some(Checked(c, t.afterDeadline, 124, DeadlineExceeded, k)))
    else Unless(t, Asleep, k, None)
  }

  /** The outcome of the turns from `k` on under policy `p`, if they reach one. */
  ghost function Decide(c: Config, turns: seq<Turn>, k: nat, p: Policy): Option<Outcome>
    requires k <= |turns|
    decreases |turns| - k
  {
    if k == |turns| then None
    else if Ends(c, turns[k], k, p).Some? then Ends(c, turns[k], k, p)
    else Decide(c, turns, k + 1, NextPolicy(c, turns[k], p))
  }

  // ----- the loop itself, with its chunked searches -----

  /** The snapshots of one check continue those of an earlier one. */
  ghost predicate AppendAll(f: seq<File>, g: seq<File>) {
    |f| == |g| && forall i :: 0 <= i < |f| ==> Appends(f[i], g[i])
  }

  ghost predicate WatchesAll(c: Config, ws: seq<Watch>, logs: seq<File>) {
    |ws| == |logs| == |c.failures| &&
    forall i :: 0 <= i < |ws| ==> Tracks(ws[i], logs[i], c.failures[i].text, c.failures[i].start)
  }

  /** The logs as a turn (or the launch) last saw them. */
  datatype Logs = Logs(failure: seq<File>, completion: File, ready: File)

  function LogsAt(launch: Logs, turns: seq<Turn>, k: nat): Logs
    requires k <= |turns|
  {
    if k == 0 then launch else Logs(turns[k - 1].atTop, turns[k - 1].completion, turns[k - 1].ready)
  }

  /** Every log only grows, from turn to turn and within a turn. */
  ghost predicate GrowsFrom(l: Logs, t: Turn) {
    && AppendAll(l.failure, t.atTop)
    && AppendAll(t.atTop, t.atExit) && AppendAll(t.atTop, t.afterGrace) && AppendAll(t.atTop, t.afterDeadline)
    && Appends(l.completion, t.completion) && Appends(l.ready, t.ready)
  }

  ghost predicate TurnOk(launch: Logs, turns: seq<Turn>, k: nat)
    requires k < |turns|
  {
    GrowsFrom(LogsAt(launch, turns, k), turns[k])
  }

  /** Markers count from the size their log has at launch. */
  ghost predicate RunOk(c: Config, launch: Logs, turns: seq<Turn>) {
    && ConfigOk(c)
    && |launch.failure| == |c.failures|
    && (forall i :: 0 <= i < |c.failures| ==> c.failures[i].start == |Content(launch.failure[i])|)
    && (c.completion.Some? ==> c.completion.value.start == |Content(launch.completion)|)
    && (c.ready.Some? ==> c.ready.value.start == |Content(launch.ready)|)
    && (forall k :: 0 <= k < |turns| ==> TurnOk(launch, turns, k))
  }

  /** The watch of an optional marker that is still looked for. */
  ghost predicate WatchOk(m: Option<Marker>, awaited: bool, w: Watch, f: File) {
    awaited ==> m.Some? && Tracks(w, f, m.value.text, m.value.start)
  }

  method FailureObserved(c: Config, ws: seq<Watch>, logs: seq<File>, ghost last: seq<File>)
    returns (failed: bool, ws': seq<Watch>)
    requires ConfigOk(c) && WatchesAll(c, ws, last) && AppendAll(last, logs)
    ensures failed <==> Failed(c, logs)
    ensures !failed ==> WatchesAll(c, ws', logs)
  {
    ws' := ws;
    var i := 0;
    while i < |c.failures|
      invariant 0 <= i <= |c.failures| == |ws'|
      invariant forall j :: 0 <= j < i ==> !Seen(logs[j], c.failures[j].text, c.failures[j].start)
      invariant forall j :: 0 <= j < i ==> Tracks(ws'[j], logs[j], c.failures[j].text, c.failures[j].start)
      invariant forall j :: i <= j < |ws| ==> ws'[j] == ws[j]
    {
      var m := c.failures[i];
      var found, w := ReadyMarkerObserved(|Content(logs[i])|, logs[i], m.text, ws'[i], last[i], m.start);
      if found {
        return true, ws';
      }
      ws' := ws'[i := w];
      i := i + 1;
    }
    return false, ws';
  }

  method FailureWatches(c: Config, launch: Logs) returns (ws: seq<Watch>)
    requires RunOk(c, launch, [])
    ensures WatchesAll(c, ws, launch.failure)
  {
    forall i | 0 <= i < |c.failures| {
      StartTracks(launch.failure[i], c.failures[i].text);
    }
    ws := seq(|c.failures|, i requires 0 <= i < |c.failures| => Watch(c.failures[i].start, []));
  }

  method OptionalWatch(m: Option<Marker>, f: File) returns (w: Watch)
    requires m.Some? ==> m.value.text != [] && m.value.start == |Content(f)|
    ensures WatchOk(m, m.Some?, w, f)
  {
    w := Watch(0, []);
    if m.Some? {
      StartTracks(f, m.value.text);
      w := Watch(m.value.start, []);
    }
  }

  method PollOptional(m: Option<Marker>, awaited: bool, w: Watch, f: File, ghost last: File)
    returns (found: bool, w': Watch)
    requires WatchOk(m, awaited, w, last) && Appends(last, f) && (m.Some? ==> m.value.text != [])
    ensures found <==> awaited && SeenBy(m, f)
    ensures !found ==> WatchOk(m, awaited, w', f)
  {
    found, w' := false, w;
    if awaited {
      found, w' := ReadyMarkerObserved(|Content(f)|, f, m.value.text, w, last, m.value.start);
    }
  }

  /** The way out of a turn: a last look at the failure log, unless a signal strikes first. */
  method Finish(c: Config, ws: seq<Watch>, t: Turn, stage: Stage, logs: seq<File>, code: int, path: Path, turn: nat,
                ghost last: seq<File>)
    returns (o: Option<Outcome>)
    requires ConfigOk(c) && WatchesAll(c, ws, last) && AppendAll(last, logs)
    ensures o == Unless(t, stage, turn, Some(Checked(c, logs, code, path, turn)))
  {
    if Struck(t, stage) {
      return Some(BySignal(t, turn));
    }
    var failed, _ := FailureObserved(c, ws, logs, last);
    o := Some(if failed then Outcome(125, FailureMarker, turn, logs) else Outcome(code, path, turn, logs));
  }

  /** The four things the loop remembers between turns. */
  datatype Held = Held(policy: Policy, failures: seq<Watch>, completion: Watch, ready: Watch)

  ghost predicate HeldOk(c: Config, m: Held, l: Logs) {
    && WatchesAll(c, m.failures, l.failure)
    && WatchOk(c.completion, m.policy.awaitsCompletion, m.completion, l.completion)
    && WatchOk(c.ready, m.policy.awaitsReady, m.ready, l.ready)
  }

  method CheckCompletion(c: Config, t: Turn, p: Policy, w: Watch, ghost l: Logs) returns (p': Policy, w': Watch)
    requires ConfigOk(c) && Appends(l.completion, t.completion)
    requires WatchOk(c.completion, p.awaitsCompletion, w, l.completion)
    ensures p' == AfterCompletion(c, t, p)
    ensures WatchOk(c.completion, p'.awaitsCompletion, w', t.completion)
  {
    var completed;
    completed, w' := PollOptional(c.completion, p.awaitsCompletion, w, t.completion, l.completion);
    p' := if completed then Policy(None, Some(t.completionTime + c.graceSeconds), false, false) else p;
  }

  method CheckReady(c: Config, t: Turn, p: Policy, w: Watch, ghost l: Logs) returns (p': Policy, w': Watch)
    requires ConfigOk(c) && Appends(l.ready, t.ready)
    requires WatchOk(c.ready, p.awaitsReady, w, l.ready)
    ensures p' == AfterReady(c, t, p)
    ensures WatchOk(c.ready, p'.awaitsReady, w', t.ready)
  {
    var ready;
    ready, w' := PollOptional(c.ready, p.awaitsReady, w, t.ready, l.ready);
    p' := p;
    if ready {
      var deadline := if c.postReadySeconds.None? then None else Some(t.readyTime + c.postReadySeconds.value);
      p' := p.(deadline := deadline, awaitsReady := false);
    }
  }

  /** One turn of the loop. */
  method TakeTurn(c: Config, t: Turn, k: nat, m: Held, ghost l: Logs) returns (o: Option<Outcome>, m': Held)
    requires ConfigOk(c) && GrowsFrom(l, t) && HeldOk(c, m, l)
    ensures o == Ends(c, t, k, m.policy)
    ensures o.None? ==> m'.policy == NextPolicy(c, t, m.policy)
    ensures o.None? ==> HeldOk(c, m', Logs(t.atTop, t.completion, t.ready))
  {
    m' := m;
    if Struck(t, AtTop) {
      return Some(BySignal(t, k)), m';
    }
    var failed, ws := FailureObserved(c, m.failures, t.atTop, l.failure);
    if failed {
      return Unless(t, StoppingOnFailure, k, Some(Outcome(125, FailureMarker, k, t.atTop))), m';
    }
    if Struck(t, AtPoll) {
      return Some(BySignal(t, k)), m';
    }
    if t.exit.Some? {
      o := Finish(c, ws, t, Draining, t.atExit, t.exit.value, Exited, k, t.atTop);
      return;
    }
    if Struck(t, AtCompletion) {
      return Some(BySignal(t, k)), m';
    }
    var p, cw := CheckCompletion(c, t, m.policy, m.completion, l);
    if Struck(t, AtGrace) {
      return Some(BySignal(t, k)), m';
    }
    if Expired(p.grace, t.graceTime) {
      o := Finish(c, ws, t, StoppingOnGrace, t.afterGrace, 0, GraceExpired, k, t.atTop);
      return;
    }
    if Struck(t, AtReady) {
      return Some(BySignal(t, k)), m';
    }
    var q, rw := CheckReady(c, t, p, m.ready, l);
    if Struck(t, AtDeadline) {
      return Some(BySignal(t, k)), m';
    }
    if Expired(q.deadline, t.deadlineTime) {
      o := Finish(c, ws, t, StoppingOnDeadline, t.afterDeadline, 124, DeadlineExceeded, k, t.atTop);
      return;
    }
    return Unless(t, Asleep, k, None), Held(q, ws, cw, rw);
  }

  /** The loop, reading each log once and in chunks, decides as the reference does over whole logs. */
  method Supervise(c: Config, launch: Logs, turns: seq<Turn>, now: real) returns (o: Option<Outcome>)
    requires RunOk(c, launch, turns)
    ensures o == Decide(c, turns, 0, Initial(c, now))
  {
    var ws := FailureWatches(c, launch);
    var cw := OptionalWatch(c.completion, launch.completion);
    var rw := OptionalWatch(c.ready, launch.ready);
    var m := Held(Initial(c, now), ws, cw, rw);
    var k := 0;
    while k < |turns|
      invariant 0 <= k <= |turns|
      invariant HeldOk(c, m, LogsAt(launch, turns, k))
      invariant Decide(c, turns, k, m.policy) == Decide(c, turns, 0, Initial(c, now))
    {
      assert TurnOk(launch, turns, k);
      o, m := TakeTurn(c, turns[k], k, m, LogsAt(launch, turns, k));
      if o.Some? {
        return;
      }
      k := k + 1;
    }
    return None;
  }

  // ----- what every run promises -----

  /** A run that no signal ends returns through a failure path exactly when its last check of the failure log
      finds a marker; on every other path the log it last checked is clean. A signalled run reports the
      signal that struck in its last turn. */
  lemma {:induction false} CleanReturn(c: Config, turns: seq<Turn>, k: nat, p: Policy)
    requires k <= |turns| && Decide(c, turns, k, p).Some?
    ensures var o := Decide(c, turns, k, p).value;
            && (!o.path.Signalled? ==> (o.path.FailureMarker? <==> Failed(c, o.checked)))
            && (o.path.FailureMarker? ==> o.code == 125)
            && (o.path.Signalled? ==>
                  o.turn < |turns| && turns[o.turn].signal.Some? && o.code == 128 + turns[o.turn].signal.value.signum)
    decreases |turns| - k
  {
    if Ends(c, turns[k], k, p).None? {
      CleanReturn(c, turns, k + 1, NextPolicy(c, turns[k], p));
    }
  }

  /** No deadline is armed and none can be. */
  predicate Disarmed(p: Policy) {
    p.deadline.None? && !p.awaitsReady
  }

  /** Once disarmed, a run ends by failure, by the child's exit, by the completion grace or by a signal,
      never by the deadline. */
  lemma {:induction false} DisarmedForGood(c: Config, turns: seq<Turn>, k: nat, p: Policy)
    requires k <= |turns| && Disarmed(p) && Decide(c, turns, k, p).Some?
    ensures !Decide(c, turns, k, p).value.path.DeadlineExceeded?
    decreases |turns| - k
  {
    if Ends(c, turns[k], k, p).None? {
      DisarmedForGood(c, turns, k + 1, NextPolicy(c, turns[k], p));
    }
  }

  /** A run that ends on the deadline saw the completion marker in no turn, and when readiness disarms the
      deadline it saw the readiness marker in no turn either. */
  lemma {:induction false} DeadlineMeansIncomplete(c: Config, turns: seq<Turn>, k: nat, p: Policy, j: nat)
    requires k <= |turns|
    requires (p.awaitsCompletion <==> c.completion.Some?)
    requires c.postReadySeconds.None? ==> (p.awaitsReady <==> c.ready.Some?)
    requires Decide(c, turns, k, p).Some? && Decide(c, turns, k, p).value.path.DeadlineExceeded?
    requires k <= j <= Decide(c, turns, k, p).value.turn < |turns|
    ensures !SeenBy(c.completion, turns[j].completion)
    ensures c.postReadySeconds.None? ==> !SeenBy(c.ready, turns[j].ready)
    decreases |turns| - k
  {
    IncompleteHere(c, turns, k, p);
    if j > k {
      DecidesLater(c, turns, k, p);
      DeadlineMeansIncomplete(c, turns, k + 1, NextPolicy(c, turns[k], p), j);
    }
  }

  lemma DecidesLater(c: Config, turns: seq<Turn>, k: nat, p: Policy)
    requires k < |turns| && Decide(c, turns, k, p).Some? && Decide(c, turns, k, p).value.turn > k
    ensures Ends(c, turns[k], k, p).None?
    ensures Decide(c, turns, k, p) == Decide(c, turns, k + 1, NextPolicy(c, turns[k], p))
  {
  }

  /** The same of the first turn, after which the policy still waits for what it waited for. */
  lemma IncompleteHere(c: Config, turns: seq<Turn>, k: nat, p: Policy)
    requires k < |turns|
    requires (p.awaitsCompletion <==> c.completion.Some?)
    requires c.postReadySeconds.None? ==> (p.awaitsReady <==> c.ready.Some?)
    requires Decide(c, turns, k, p).Some? && Decide(c, turns, k, p).value.path.DeadlineExceeded?
    ensures !SeenBy(c.completion, turns[k].completion)
    ensures c.postReadySeconds.None? ==> !SeenBy(c.ready, turns[k].ready)
    ensures Ends(c, turns[k], k, p).None? ==>
              var r := NextPolicy(c, turns[k], p);
              && (r.awaitsCompletion <==> c.completion.Some?)
              && (c.postReadySeconds.None? ==> (r.awaitsReady <==> c.ready.Some?))
  {
    var r := NextPolicy(c, turns[k], p);
    if Ends(c, turns[k], k, p).None? && Disarmed(r) {
      DisarmedForGood(c, turns, k + 1, r);
    }
  }

  /** The grace period only ends runs that saw the completion marker. */
  lemma {:induction false} GraceMeansCompleted(c: Config, turns: seq<Turn>, k: nat, p: Policy) returns (j: nat)
    requires k <= |turns| && p.grace.None?
    requires Decide(c, turns, k, p).Some? && Decide(c, turns, k, p).value.path.GraceExpired?
    ensures k <= j <= Decide(c, turns, k, p).value.turn && j < |turns| && SeenBy(c.completion, turns[j].completion)
    decreases |turns| - k
  {
    j := k;
    if AfterCompletion(c, turns[k], p).grace.None? {
      j := GraceMeansCompleted(c, turns, k + 1, NextPolicy(c, turns[k], p));
    } else {
      EndsLater(c, turns, k, p);
    }
  }

  lemma {:induction false} EndsLater(c: Config, turns: seq<Turn>, k: nat, p: Policy)
    requires k <= |turns| && Decide(c, turns, k, p).Some?
    ensures k <= Decide(c, turns, k, p).value.turn < |turns|
    decreases |turns| - k
  {
    if Ends(c, turns[k], k, p).None? {
      EndsLater(c, turns, k + 1, NextPolicy(c, turns[k], p));
    }
  }

  /** The whole program: from launch to return, whatever the child and the clock do. */
  method SuperviseRun(c: Config, launch: Logs, turns: seq<Turn>, now: real) returns (o: Option<Outcome>)
    requires RunOk(c, launch, turns)
    ensures o.Some? ==> o.value.turn < |turns|
    ensures o.Some? && !o.value.path.Signalled? ==> (o.value.path.FailureMarker? <==> Failed(c, o.value.checked))
    ensures o.Some? && o.value.path.DeadlineExceeded? ==>
              forall j :: 0 <= j <= o.value.turn ==> !SeenBy(c.completion, turns[j].completion)
    ensures o.Some? && o.value.path.GraceExpired? ==>
              exists j :: 0 <= j <= o.value.turn && SeenBy(c.completion, turns[j].completion)
  {
    o := Supervise(c, launch, turns, now);
    ghost var p := Initial(c, now);
    if o.Some? {
      CleanReturn(c, turns, 0, p);
      EndsLater(c, turns, 0, p);
      if o.value.path.DeadlineExceeded? {
        forall j | 0 <= j <= o.value.turn ensures !SeenBy(c.completion, turns[j].completion) {
          DeadlineMeansIncomplete(c, turns, 0, p, j);
        }
      }
      if o.value.path.GraceExpired? {
        ghost var j := GraceMeansCompleted(c, turns, 0, p);
      }
    }
  }
}
