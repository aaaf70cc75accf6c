/**
 Sharing one load among concurrent tasks: the first task to miss the cache leads, the rest wait for
 its outcome.  A transition system over the critical sections of `acquire`, the leader's guard and
 the channel that announces an outcome.
 */
module Singleflight {
  import opened Common

  datatype LoadError = Cancelled | ResourceExhausted | Shareable(message: string)

  predicate IsQueryLocal(e: LoadError) { !e.Shareable? }

  datatype Outcome<V> = Loading | Ready(result: Result<V, LoadError>) | Retry

  datatype Flight<K, V> = Flight(key: K, leader: nat, outcome: Outcome<V>)

  datatype Answer<V> =
    | Cached(value: V)
    | Shared(value: V)
    | SharedError(error: LoadError)
    | Led(value: V)
    | LedError(error: LoadError)
    | Abandoned

  datatype Pc<V> =
    | Entering
    | Waiting(flight: nat)
    | Leading(flight: nat, value: Option<V>, stored: bool)
    | Done(answer: Answer<V>)

  datatype Task<K, V> = Task(key: K, pc: Pc<V>)

  /** `fetched` remembers every value ever read from storage, with its key. */
  datatype State<K, V> = State(
    tasks: seq<Task<K, V>>,
    flights: seq<Flight<K, V>>,
    inFlight: map<K, nat>,
    cache: map<K, V>,
    fetched: seq<(K, V)>)

  datatype Step<K, V> =
    | Start(key: K)
    | Evict(key: K)
    | Reenter(task: nat)
    | Acquire(task: nat)
    | Load(task: nat, value: V)
    | Store(task: nat, admitted: bool)
    | Succeed(task: nat)
    | Fail(task: nat, error: LoadError)
    | Abandon(task: nat)
    | Wake(task: nat)

  // ---------------------------------------------------------------- steps

  ghost predicate Enabled<K, V>(s: State<K, V>, step: Step<K, V>) {
    if step.Start? || step.Evict? then true
    else if step.task >= |s.tasks| then false
    else
      var pc := s.tasks[step.task].pc;
      match step
      case Reenter(_) => pc.Waiting?
      case Acquire(_) => pc.Entering?
      case Load(_, _) => pc.Leading? && pc.value.None?
      case Store(_, _) => pc.Leading? && pc.value.Some? && !pc.stored
      case Succeed(_) => pc.Leading? && pc.value.Some? && pc.stored
      case Fail(_, _) => pc.Leading? && pc.value.None?
      case Abandon(_) => !pc.Done?
      case Wake(_) => pc.Waiting? && pc.flight < |s.flights| && !s.flights[pc.flight].outcome.Loading?
  }

  ghost function At<K, V>(s: State<K, V>, t: nat, pc: Pc<V>): State<K, V>
    requires t < |s.tasks|
  {
    s.(tasks := s.tasks[t := s.tasks[t].(pc := pc)])
  }

  /** Announces an outcome under a key: whichever flight the key has is taken out and resolved. */
  ghost function Finish<K, V>(s: State<K, V>, key: K, outcome: Outcome<V>): State<K, V> {
    if key !in s.inFlight || s.inFlight[key] >= |s.flights| then s
    else
      var f := s.inFlight[key];
      s.(inFlight := s.inFlight - {key}, flights := s.flights[f := s.flights[f].(outcome := outcome)])
  }

  /** One look at the shared state: a hit, a flight to wait for, or a flight to lead. */
  ghost function Entered<K, V>(s: State<K, V>, t: nat): State<K, V>
    requires t < |s.tasks|
  {
    var key := s.tasks[t].key;
    if key in s.cache then At(s, t, Done(Cached(s.cache[key])))
    else if key in s.inFlight then At(s, t, Waiting(s.inFlight[key]))
    else
      var f := |s.flights|;
      At(s.(flights := s.flights + [Flight(key, t, Loading)], inFlight := s.inFlight[key := f]),
         t, Leading(f, None, false))
  }

  ghost function Woken<V>(outcome: Outcome<V>): Pc<V> {
    match outcome
    case Ready(Ok(v)) => Done(Shared(v))
    case Ready(Err(e)) => Done(SharedError(e))
    case _ => Entering
  }

  ghost function Next<K, V>(s: State<K, V>, step: Step<K, V>): State<K, V>
    requires Enabled(s, step)
  {
    match step
    case Start(key) => s.(tasks := s.tasks + [Task(key, Entering)])
    case Evict(key) => s.(cache := s.cache - {key})
    case Reenter(t) => At(s, t, Entering)
    case Acquire(t) => Entered(s, t)
    case Load(t, v) =>
      At(s.(fetched := s.fetched + [(s.tasks[t].key, v)]), t, s.tasks[t].pc.(value := Some(v)))
    case Store(t, admitted) =>
      var pc := s.tasks[t].pc;
      var cache := if admitted then s.cache[s.tasks[t].key := pc.value.value] else s.cache;
      At(s.(cache := cache), t, pc.(stored := true))
    case Succeed(t) =>
      var v := s.tasks[t].pc.value.value;
      At(Finish(s, s.tasks[t].key, Ready(Ok(v))), t, Done(Led(v)))
    case Fail(t, e) =>
      var outcome := if IsQueryLocal(e) then Retry else Ready(Err(e));
      At(Finish(s, s.tasks[t].key, outcome), t, Done(LedError(e)))
    case Abandon(t) =>
      var left := if s.tasks[t].pc.Leading? then Finish(s, s.tasks[t].key, Retry) else s;
      At(left, t, Done(Abandoned))
    case Wake(t) => At(s, t, Woken(s.flights[s.tasks[t].pc.flight].outcome))
  }

  // ---------------------------------------------------------------- invariant

  ghost predicate AnswerOk<K, V>(s: State<K, V>, key: K, a: Answer<V>) {
    && (a.Cached? || a.Shared? || a.Led? ==> (key, a.value) in s.fetched)
    && (a.SharedError? ==> !IsQueryLocal(a.error))
  }

  ghost predicate TaskOk<K, V>(s: State<K, V>, t: nat)
    requires t < |s.tasks|
  {
    var task := s.tasks[t];
    && (task.pc.Waiting? ==> task.pc.flight < |s.flights| && s.flights[task.pc.flight].key == task.key)
    && (task.pc.Leading? ==>
          && task.pc.flight < |s.flights| && s.flights[task.pc.flight] == Flight(task.key, t, Loading)
          && task.key in s.inFlight && s.inFlight[task.key] == task.pc.flight
          && (task.pc.stored ==> task.pc.value.Some?) && (!task.pc.stored ==> task.key !in s.cache)
          && (task.pc.value.Some? ==> (task.key, task.pc.value.value) in s.fetched))
    && (task.pc.Done? ==> AnswerOk(s, task.key, task.pc.answer))
  }

  /** A loading flight is its key's current one and its leader is at work; a resolved one tells what its leader got. */
  ghost predicate FlightOk<K, V>(s: State<K, V>, f: nat)
    requires f < |s.flights|
  {
    var flight := s.flights[f];
    && flight.leader < |s.tasks| && s.tasks[flight.leader].key == flight.key
    && var pc := s.tasks[flight.leader].pc;
       && (flight.outcome.Loading? ==>
             pc.Leading? && pc.flight == f && flight.key in s.inFlight && s.inFlight[flight.key] == f)
       && (!flight.outcome.Loading? ==> pc.Done?)
       && (flight.outcome.Retry? ==>
             pc.answer.Abandoned? || (pc.answer.LedError? && IsQueryLocal(pc.answer.error)))
       && (flight.outcome.Ready? ==>
             if flight.outcome.result.Ok? then pc.answer == Led(flight.outcome.result.value)
             else pc.answer == LedError(flight.outcome.result.error) && !IsQueryLocal(flight.outcome.result.error))
  }

  ghost predicate KeysOk<K, V>(s: State<K, V>) {
    && (forall k :: k in s.inFlight ==>
          && s.inFlight[k] < |s.flights| && s.flights[s.inFlight[k]].key == k
          && s.flights[s.inFlight[k]].outcome.Loading?)
    && (forall k :: k in s.cache ==> (k, s.cache[k]) in s.fetched)
  }

  ghost predicate Inv<K, V>(s: State<K, V>) {
    && KeysOk(s)
    && (forall t :: 0 <= t < |s.tasks| ==> TaskOk(s, t))
    && (forall f :: 0 <= f < |s.flights| ==> FlightOk(s, f))
  }

  /** A leader's key maps to the leader's own flight, so finishing by key resolves that one. */
  lemma FinishTakesOwnFlight<K, V>(s: State<K, V>, t: nat, outcome: Outcome<V>)
    requires Inv(s) && t < |s.tasks| && s.tasks[t].pc.Leading?
    ensures var f := s.tasks[t].pc.flight;
            && f < |s.flights| && s.flights[f].leader == t
            && Finish(s, s.tasks[t].key, outcome)
               == s.(inFlight := s.inFlight - {s.tasks[t].key},
                     flights := s.flights[f := Flight(s.tasks[t].key, t, outcome)])
  {
    assert TaskOk(s, t);
  }

  lemma FinishKeepsInv<K, V>(s: State<K, V>, t: nat, outcome: Outcome<V>, a: Answer<V>)
    requires Inv(s) && t < |s.tasks| && s.tasks[t].pc.Leading? && !outcome.Loading?
    requires AnswerOk(s, s.tasks[t].key, a)
    requires outcome.Retry? ==> a.Abandoned? || (a.LedError? && IsQueryLocal(a.error))
    requires outcome.Ready? ==>
               if outcome.result.Ok? then a == Led(outcome.result.value)
               else a == LedError(outcome.result.error) && !IsQueryLocal(outcome.result.error)
    ensures Inv(At(Finish(s, s.tasks[t].key, outcome), t, Done(a)))
  {
    FinishTakesOwnFlight(s, t, outcome);
    var n := At(Finish(s, s.tasks[t].key, outcome), t, Done(a));
    forall u | 0 <= u < |n.tasks| ensures TaskOk(n, u) { assert TaskOk(s, u); }
    forall f | 0 <= f < |n.flights| ensures FlightOk(n, f) { assert FlightOk(s, f); }
  }

  lemma NextKeepsInv<K, V>(s: State<K, V>, step: Step<K, V>)
    requires Inv(s) && Enabled(s, step)
    ensures Inv(Next(s, step))
  {
    var n := Next(s, step);
    match step
    case Succeed(t) =>
      assert TaskOk(s, t);
      FinishKeepsInv(s, t, Ready(Ok(s.tasks[t].pc.value.value)), Led(s.tasks[t].pc.value.value));
    case Fail(t, e) =>
      FinishKeepsInv(s, t, if IsQueryLocal(e) then Retry else Ready(Err(e)), LedError(e));
    case Abandon(t) =>
      if s.tasks[t].pc.Leading? {
        FinishKeepsInv(s, t, Retry, Abandoned);
      } else {
        MoveKeepsInv(s, t, Done(Abandoned));
      }
    case Reenter(t) => MoveKeepsInv(s, t, Entering);
    case Wake(t) =>
      assert TaskOk(s, t);
      var f := s.tasks[t].pc.flight;
      assert FlightOk(s, f) && TaskOk(s, s.flights[f].leader);
      MoveKeepsInv(s, t, Woken(s.flights[f].outcome));
    case Acquire(t) => AcquireKeepsInv(s, t);
    case Load(t, _) =>
      assert TaskOk(s, t);
      LeadKeepsInv(s, n, t);
    case Store(t, _) =>
      assert TaskOk(s, t);
      LeadKeepsInv(s, n, t);
    case _ =>
      forall u | 0 <= u < |n.tasks| ensures TaskOk(n, u) { assert u < |s.tasks| ==> TaskOk(s, u); }
      forall f | 0 <= f < |n.flights| ensures FlightOk(n, f) { assert FlightOk(s, f); }
  }

  /** A task that leads nothing may move on its own. */
  lemma MoveKeepsInv<K, V>(s: State<K, V>, t: nat, pc: Pc<V>)
    requires Inv(s) && t < |s.tasks| && !s.tasks[t].pc.Leading? && !s.tasks[t].pc.Done?
    requires TaskOk(At(s, t, pc), t) && !pc.Leading?
    ensures Inv(At(s, t, pc))
  {
    var n := At(s, t, pc);
    forall u | 0 <= u < |n.tasks| ensures TaskOk(n, u) { assert TaskOk(s, u); }
    forall f | 0 <= f < |n.flights| ensures FlightOk(n, f) { assert FlightOk(s, f); }
  }

  /** A leader that goes on with the same flight. */
  lemma LeadKeepsInv<K, V>(s: State<K, V>, n: State<K, V>, t: nat)
    requires Inv(s) && t < |s.tasks| == |n.tasks| && n.flights == s.flights && n.inFlight == s.inFlight
    requires forall u :: 0 <= u < |s.tasks| && u != t ==> n.tasks[u] == s.tasks[u]
    requires s.tasks[t].pc.Leading? && n.tasks[t].pc.Leading? && n.tasks[t].key == s.tasks[t].key
    requires n.tasks[t].pc.flight == s.tasks[t].pc.flight && TaskOk(n, t)
    requires forall pair :: pair in s.fetched ==> pair in n.fetched
    requires forall k :: k in n.cache ==> (k, n.cache[k]) in n.fetched
    requires forall k :: k in n.cache ==> k in s.cache || k == s.tasks[t].key
    ensures Inv(n)
  {
    forall u | 0 <= u < |n.tasks| ensures TaskOk(n, u) { assert TaskOk(s, u); }
    forall f | 0 <= f < |n.flights| ensures FlightOk(n, f) { assert FlightOk(s, f); }
  }

  lemma AcquireKeepsInv<K, V>(s: State<K, V>, t: nat)
    requires Inv(s) && t < |s.tasks| && s.tasks[t].pc.Entering?
    ensures Inv(Entered(s, t))
  {
    var key, n := s.tasks[t].key, Entered(s, t);
    if key in s.cache || key in s.inFlight {
      MoveKeepsInv(s, t, n.tasks[t].pc);
    } else {
      forall u | 0 <= u < |n.tasks| ensures TaskOk(n, u) { assert TaskOk(s, u); }
      forall f | 0 <= f < |n.flights| ensures FlightOk(n, f) { assert f < |s.flights| ==> FlightOk(s, f); }
    }
  }

  // ---------------------------------------------------------------- every run

  ghost function Initial<K, V>(): State<K, V> {
    State([], [], map[], map[], [])
  }

  ghost predicate IsRun<K, V>(s: State<K, V>, steps: seq<Step<K, V>>)
    decreases |steps|
  {
    steps != [] ==> Enabled(s, steps[0]) && IsRun(Next(s, steps[0]), steps[1..])
  }

  ghost function After<K, V>(s: State<K, V>, steps: seq<Step<K, V>>): State<K, V>
    requires IsRun(s, steps)
    decreases |steps|
  {
    if steps == [] then s else After(Next(s, steps[0]), steps[1..])
  }

  lemma {:induction false} RunKeepsInv<K, V>(s: State<K, V>, steps: seq<Step<K, V>>)
    requires Inv(s) && IsRun(s, steps)
    ensures Inv(After(s, steps))
    decreases |steps|
  {
    if steps != [] {
      NextKeepsInv(s, steps[0]);
      RunKeepsInv(Next(s, steps[0]), steps[1..]);
    }
  }

  /** In every reachable state, at most one task per key is loading it. */
  lemma OneLeaderPerKey<K, V>(steps: seq<Step<K, V>>, t: nat, u: nat)
    requires IsRun(Initial<K, V>(), steps)
    requires var s := After(Initial<K, V>(), steps);
             && t < |s.tasks| && u < |s.tasks| && s.tasks[t].key == s.tasks[u].key
             && s.tasks[t].pc.Leading? && s.tasks[u].pc.Leading?
    ensures t == u
  {
    var s := After(Initial<K, V>(), steps);
    RunKeepsInv(Initial<K, V>(), steps);
    assert TaskOk(s, t) && TaskOk(s, u);
  }

  ghost predicate CanMove<K, V>(s: State<K, V>, t: nat) {
    && t < |s.tasks|
    && var pc := s.tasks[t].pc;
       || pc.Entering? || pc.Leading?
       || (pc.Waiting? && pc.flight < |s.flights| && !s.flights[pc.flight].outcome.Loading?)
  }

  /** A task that cannot move waits for a leader of its own key, and that one can. */
  lemma WaitsForLeader<K, V>(s: State<K, V>, t: nat)
    requires Inv(s) && t < |s.tasks| && !s.tasks[t].pc.Done? && !CanMove(s, t)
    ensures s.tasks[t].pc.Waiting? && s.tasks[t].pc.flight < |s.flights|
    ensures var leader := s.flights[s.tasks[t].pc.flight].leader;
            && CanMove(s, leader) && s.tasks[leader].pc.Leading? && s.tasks[leader].key == s.tasks[t].key
  {
    assert TaskOk(s, t) && FlightOk(s, s.tasks[t].pc.flight);
  }

  /** In every reachable state an unfinished task can move, or waits for a leader of its key that can. */
  lemma NoTaskIsStranded<K, V>(steps: seq<Step<K, V>>, t: nat)
    requires IsRun(Initial<K, V>(), steps)
    requires var s := After(Initial<K, V>(), steps);
             t < |s.tasks| && !s.tasks[t].pc.Done? && !CanMove(s, t)
    ensures var s := After(Initial<K, V>(), steps);
            && s.tasks[t].pc.Waiting? && s.tasks[t].pc.flight < |s.flights|
            && var leader := s.flights[s.tasks[t].pc.flight].leader;
               && CanMove(s, leader) && s.tasks[leader].pc.Leading? && s.tasks[leader].key == s.tasks[t].key
  {
    RunKeepsInv(Initial<K, V>(), steps);
    WaitsForLeader(After(Initial<K, V>(), steps), t);
  }

  /** Every value handed out was read from storage under its own key. */
  lemma AnswersComeFromReads<K, V>(steps: seq<Step<K, V>>, t: nat)
    requires IsRun(Initial<K, V>(), steps)
    requires var s := After(Initial<K, V>(), steps);
             && t < |s.tasks| && s.tasks[t].pc.Done?
             && (s.tasks[t].pc.answer.Cached? || s.tasks[t].pc.answer.Shared? || s.tasks[t].pc.answer.Led?)
    ensures var s := After(Initial<K, V>(), steps);
            (s.tasks[t].key, s.tasks[t].pc.answer.value) in s.fetched
  {
    var s := After(Initial<K, V>(), steps);
    RunKeepsInv(Initial<K, V>(), steps);
    assert TaskOk(s, t);
  }

  /**
   A load is shared: a waiter gets what the leader of its flight got, value or shareable error, and tries
   again if and only if the leader failed for reasons of its own query or gave up.
   */
  lemma WaiterGetsLeadersOutcome<K, V>(steps: seq<Step<K, V>>, t: nat)
    requires IsRun(Initial<K, V>(), steps) && Enabled(After(Initial<K, V>(), steps), Wake(t))
    ensures var s := After(Initial<K, V>(), steps);
            var leader := s.flights[s.tasks[t].pc.flight].leader;
            var pc := Next(s, Wake(t)).tasks[t].pc;
            && leader < |s.tasks| && s.tasks[leader].key == s.tasks[t].key && s.tasks[leader].pc.Done?
            && var got := s.tasks[leader].pc.answer;
               && (got.Led? ==> pc == Done(Shared(got.value)))
               && (got.LedError? && !IsQueryLocal(got.error) ==> pc == Done(SharedError(got.error)))
               && (got.Abandoned? || (got.LedError? && IsQueryLocal(got.error)) <==> pc.Entering?)
               && (got.Led? || got.LedError? || got.Abandoned?)
  {
    var s := After(Initial<K, V>(), steps);
    RunKeepsInv(Initial<K, V>(), steps);
    assert TaskOk(s, t) && FlightOk(s, s.tasks[t].pc.flight);
  }

  // ---------------------------------------------------------------- how often a key is read

  ghost predicate IsRead<K, V>(s: State<K, V>, step: Step<K, V>, key: K) {
    step.Load? && step.task < |s.tasks| && s.tasks[step.task].key == key
  }

  /** The value of a read is lost: evicted, refused by the cache, or given up before it was offered. */
  ghost predicate IsLapse<K, V>(s: State<K, V>, step: Step<K, V>, key: K) {
    || (step.Evict? && step.key == key && key in s.cache)
    || (step.Store? && !step.admitted && step.task < |s.tasks| && s.tasks[step.task].key == key)
    || (step.Abandon? && step.task < |s.tasks| && HoldsUnstored(s, step.task, key))
  }

  ghost predicate HoldsUnstored<K, V>(s: State<K, V>, t: nat, key: K)
    requires t < |s.tasks|
  {
    var pc := s.tasks[t].pc;
    s.tasks[t].key == key && pc.Leading? && pc.value.Some? && !pc.stored
  }

  /** The key's value is at hand: cached, or read and about to be offered to the cache. */
  ghost predicate Covered<K, V>(s: State<K, V>, key: K) {
    key in s.cache || exists t :: 0 <= t < |s.tasks| && HoldsUnstored(s, t, key)
  }

  ghost function One(b: bool): nat { if b then 1 else 0 }

  /** Reading needs a key not at hand and puts it at hand; only a lapse makes it not at hand again. */
  lemma StepReads<K, V>(s: State<K, V>, step: Step<K, V>, key: K)
    requires Inv(s) && Enabled(s, step)
    ensures IsRead(s, step, key) ==> !Covered(s, key) && Covered(Next(s, step), key)
    ensures Covered(s, key) && !Covered(Next(s, step), key) ==> IsLapse(s, step, key)
  {
    var n := Next(s, step);
    if IsRead(s, step, key) {
      assert TaskOk(s, step.task);
      assert HoldsUnstored(n, step.task, key);
      forall t | 0 <= t < |s.tasks| ensures !HoldsUnstored(s, t, key) { assert TaskOk(s, t); }
    } else if Covered(s, key) && key !in s.cache {
      var t :| 0 <= t < |s.tasks| && HoldsUnstored(s, t, key);
      assert TaskOk(s, t);
      if t < |n.tasks| && HoldsUnstored(n, t, key) {
        assert Covered(n, key);
      }
    }
  }

  ghost function Reads<K, V>(s: State<K, V>, steps: seq<Step<K, V>>, key: K): nat
    requires IsRun(s, steps)
    decreases |steps|
  {
    if steps == [] then 0 else One(IsRead(s, steps[0], key)) + Reads(Next(s, steps[0]), steps[1..], key)
  }

  ghost function Lapses<K, V>(s: State<K, V>, steps: seq<Step<K, V>>, key: K): nat
    requires IsRun(s, steps)
    decreases |steps|
  {
    if steps == [] then 0 else One(IsLapse(s, steps[0], key)) + Lapses(Next(s, steps[0]), steps[1..], key)
  }

  lemma {:induction false} ReadsNeedLapses<K, V>(s: State<K, V>, steps: seq<Step<K, V>>, key: K)
    requires Inv(s) && IsRun(s, steps)
    ensures Reads(s, steps, key) <= One(!Covered(s, key)) + Lapses(s, steps, key)
    decreases |steps|
  {
    hide Inv, Next, Enabled, Covered, IsRead, IsLapse;
    if steps != [] {
      NextKeepsInv(s, steps[0]);
      StepReads(s, steps[0], key);
      ReadsNeedLapses(Next(s, steps[0]), steps[1..], key);
    }
  }

  /** In every run a key is read once, and once more at most for each time its value was lost. */
  lemma ReadOncePerLapse<K, V>(steps: seq<Step<K, V>>, key: K)
    requires IsRun(Initial<K, V>(), steps)
    ensures Reads(Initial<K, V>(), steps, key) <= 1 + Lapses(Initial<K, V>(), steps, key)
  {
    ReadsNeedLapses(Initial<K, V>(), steps, key);
  }

  ghost predicate Extends<K, V>(before: seq<Flight<K, V>>, after: seq<Flight<K, V>>) {
    && |before| <= |after|
    && forall f :: 0 <= f < |before| ==>
         && after[f].key == before[f].key && after[f].leader == before[f].leader
         && (!before[f].outcome.Loading? ==> after[f] == before[f])
  }

  /** Along every run a flight keeps its key and leader, and once resolved it never changes. */
  lemma {:induction false} OutcomesAreFinal<K, V>(s: State<K, V>, steps: seq<Step<K, V>>)
    requires Inv(s) && IsRun(s, steps)
    ensures Extends(s.flights, After(s, steps).flights)
    decreases |steps|
  {
    if steps != [] {
      NextKeepsInv(s, steps[0]);
      OutcomesAreFinal(Next(s, steps[0]), steps[1..]);
    }
  }

  // ---------------------------------------------------------------- termination

  /** Steps by which the tasks get on: all but new tasks, evictions and spurious re-entries. */
  predicate IsProgress<K, V>(step: Step<K, V>) {
    !step.Start? && !step.Evict? && !step.Reenter?
  }

  ghost function ProgressSteps<K, V>(steps: seq<Step<K, V>>): nat {
    if steps == [] then 0 else (if IsProgress(steps[0]) then 1 else 0) + ProgressSteps(steps[1..])
  }

  ghost function Reentries<K, V>(steps: seq<Step<K, V>>): nat {
    if steps == [] then 0 else (if steps[0].Reenter? then 1 else 0) + Reentries(steps[1..])
  }

  /** Tasks that are not done, counting those still to start. */
  ghost function Unfinished<K, V>(s: State<K, V>): nat -> nat {
    (t: nat) => if t < |s.tasks| && s.tasks[t].pc.Done? then 0 else 1
  }

  /** How many steps a task can still take before it is done or the flight it waits for resolves. */
  ghost function Rank<K, V>(s: State<K, V>): nat -> nat {
    (t: nat) =>
      if t >= |s.tasks| then 3
      else
        match s.tasks[t].pc
        case Entering => 3
        case Waiting(f) => if f < |s.flights| && !s.flights[f].outcome.Loading? then 4 else 0
        case Leading(_, value, stored) => if value.None? then 2 else if stored then 0 else 1
        case Done(_) => 0
  }

  /** A bound on the steps of `n` tasks, those still to start included. */
  ghost function Measure<K, V>(s: State<K, V>, n: nat): nat {
    SumTo(Unfinished(s), n) * (4 * n + 1) + SumTo(Rank(s), n)
  }

  lemma FinishingShrinks<K, V>(s: State<K, V>, after: State<K, V>, t: nat, n: nat)
    requires t < |s.tasks| == |after.tasks| <= n && !s.tasks[t].pc.Done? && after.tasks[t].pc.Done?
    requires forall u :: 0 <= u < |s.tasks| && u != t ==> after.tasks[u] == s.tasks[u]
    ensures Measure(after, n) < Measure(s, n)
  {
    SumDrops(Unfinished(s), Unfinished(after), t, n);
    SumBound(Rank(after), 4, n);
    Scale(SumTo(Unfinished(after), n), SumTo(Unfinished(s), n), 4 * n + 1);
  }

  lemma Scale(a: nat, b: nat, c: nat)
    requires a < b
    ensures a * c + c <= b * c
  {
    assert (b - a - 1) * c >= 0;
    assert b * c == a * c + c + (b - a - 1) * c;
  }

  lemma MovingShrinks<K, V>(s: State<K, V>, after: State<K, V>, t: nat, n: nat)
    requires t < |s.tasks| == |after.tasks| <= n && !s.tasks[t].pc.Done? && !after.tasks[t].pc.Done?
    requires forall u: nat :: u < |s.tasks| && u != t ==>
               after.tasks[u] == s.tasks[u] && Rank(after)(u) <= Rank(s)(u)
    requires Rank(after)(t) < Rank(s)(t)
    ensures Measure(after, n) < Measure(s, n)
  {
    SumDrops(Unfinished(s), Unfinished(after), t, n);
    SumDrops(Unfinished(after), Unfinished(s), t, n);
    SumDrops(Rank(s), Rank(after), t, n);
  }

  lemma StepShrinks<K, V>(s: State<K, V>, step: Step<K, V>, n: nat)
    requires Inv(s) && Enabled(s, step) && IsProgress(step) && |s.tasks| <= n
    ensures Measure(Next(s, step), n) < Measure(s, n)
  {
    hide Measure;
    var after, t := Next(s, step), step.task;
    if after.tasks[t].pc.Done? {
      FinishingShrinks(s, after, t, n);
    } else {
      forall u: nat | u < |s.tasks| ensures TaskOk(s, u) {}
      MovingShrinks(s, after, t, n);
    }
  }

  /** New tasks were counted before they started, evictions do not matter, a re-entry costs three steps. */
  lemma OtherStepsGrowLittle<K, V>(s: State<K, V>, step: Step<K, V>, n: nat)
    requires Inv(s) && Enabled(s, step) && !IsProgress(step) && |Next(s, step).tasks| <= n
    ensures Measure(Next(s, step), n) <= Measure(s, n) + if step.Reenter? then 3 else 0
  {
    var after := Next(s, step);
    SumDrops(Unfinished(s), Unfinished(after), 0, n);
    SumDrops(Unfinished(after), Unfinished(s), 0, n);
    if step.Reenter? {
      SumChanges(Rank(s), Rank(after), step.task, 0, n);
    } else {
      forall u: nat | u < |s.tasks| ensures TaskOk(s, u) {}
      SumDrops(Rank(s), Rank(after), 0, n);
    }
  }

  lemma TasksOnlyGrow<K, V>(s: State<K, V>, step: Step<K, V>)
    requires Enabled(s, step)
    ensures |s.tasks| <= |Next(s, step).tasks|
  {
  }

  lemma {:induction false} RunTasksGrow<K, V>(s: State<K, V>, steps: seq<Step<K, V>>)
    requires IsRun(s, steps)
    ensures |s.tasks| <= |After(s, steps).tasks|
    decreases |steps|
  {
    hide Next;
    if steps != [] {
      TasksOnlyGrow(s, steps[0]);
      RunTasksGrow(Next(s, steps[0]), steps[1..]);
    }
  }

  /**
   In every run whatever, new tasks, evictions, failures and retries included, the tasks take a bounded
   number of steps: no schedule can keep `n` tasks retrying forever.
   */
  lemma {:induction false} RunsAreBounded<K, V>(s: State<K, V>, steps: seq<Step<K, V>>)
    requires Inv(s) && IsRun(s, steps)
    ensures ProgressSteps(steps) <= Measure(s, |After(s, steps).tasks|) + 3 * Reentries(steps)
    decreases |steps|
  {
    hide Measure, Next, Enabled;
    if steps != [] {
      var next, n := Next(s, steps[0]), |After(s, steps).tasks|;
      NextKeepsInv(s, steps[0]);
      TasksOnlyGrow(s, steps[0]);
      RunTasksGrow(next, steps[1..]);
      if IsProgress(steps[0]) { StepShrinks(s, steps[0], n); } else { OtherStepsGrowLittle(s, steps[0], n); }
      RunsAreBounded(next, steps[1..]);
    }
  }

  /** From the start: `n` tasks take at most `n * (4 * n + 4)` steps, and three more per re-entry. */
  lemma TasksTakeFewSteps<K, V>(steps: seq<Step<K, V>>)
    requires IsRun(Initial<K, V>(), steps)
    ensures var n := |After(Initial<K, V>(), steps).tasks|;
            ProgressSteps(steps) <= n * (4 * n + 4) + 3 * Reentries(steps)
  {
    var s := Initial<K, V>();
    var n := |After(s, steps).tasks|;
    RunsAreBounded(s, steps);
    SumOfEqual(Unfinished(s), 1, n);
    SumOfEqual(Rank(s), 3, n);
    assert n * (4 * n + 1) + 3 * n == n * (4 * n + 4);
  }

  lemma {:induction false} SumOfEqual(f: nat -> nat, value: nat, n: nat)
    requires forall u: nat :: u < n ==> f(u) == value
    ensures SumTo(f, n) == value * n
  {
    if n > 0 {
      SumOfEqual(f, value, n - 1);
      assert value * n == value * (n - 1) + value;
    }
  }

  /** When no task can move, every task has its answer. */
  lemma QuietMeansDone<K, V>(s: State<K, V>)
    requires Inv(s) && forall t :: 0 <= t < |s.tasks| ==> !CanMove(s, t)
    ensures forall t :: 0 <= t < |s.tasks| ==> s.tasks[t].pc.Done?
  {
    forall t | 0 <= t < |s.tasks| ensures s.tasks[t].pc.Done? {
      if !s.tasks[t].pc.Done? {
        WaitsForLeader(s, t);
        assert false;
      }
    }
  }
}
