/** The freshness barrier: submitters count a task before they push it, workers count
    it off when its work ends, and readers wait until nothing is counted. */
module Freshness {
  import opened Common

  type TaskId = nat

  datatype Flight = Flight(pending: int, lastSubmit: nat)

  type Flights = map<Key, Flight>

  // ---- The counters ----

  function Pending(f: Flights, k: Key): int {
    if k in f then f[k].pending else 0
  }

  function Counted(f: Flights, k: Key, now: nat): Flights {
    f[k := Flight(Pending(f, k) + 1, now)]
  }

  /** The guard clamps the counter at zero. */
  function CountedOff(f: Flights, k: Key): Flights {
    if k in f && f[k].pending > 0 then f[k := f[k].(pending := f[k].pending - 1)] else f
  }

  /** A task counted and at once counted off again, because its push failed, leaves every
      counter as it was, and only the time of the last submission behind. */
  lemma CountedOffUndoesCounted(f: Flights, k: Key, now: nat)
    requires Pending(f, k) >= 0
    ensures forall j :: Pending(CountedOff(Counted(f, k, now), k), j) == Pending(f, j)
    ensures forall j :: j != k && j in f ==> CountedOff(Counted(f, k, now), k)[j] == f[j]
    ensures CountedOff(Counted(f, k, now), k)[k].lastSubmit == now
  {
  }

  class FlightTable {
    var flights: Flights

    constructor ()
      ensures flights == map[]
    {
      flights := map[];
    }

    method IncrementPending(k: Key, now: nat)
      modifies this
      ensures flights == Counted(old(flights), k, now)
    {
      var info := if k in flights then flights[k] else Flight(0, 0);
      info := info.(pending := info.pending + 1);
      flights := flights[k := info.(lastSubmit := now)];
    }

    method DecrementPending(k: Key)
      modifies this
      ensures flights == CountedOff(old(flights), k)
      ensures forall j ::
                Pending(flights, j) ==
                Pending(old(flights), j) - if j == k && Pending(old(flights), j) > 0 then 1 else 0
      ensures flights.Keys == old(flights).Keys
      ensures forall j :: j in flights ==> flights[j].lastSubmit == old(flights)[j].lastSubmit
    {
      if k in flights && flights[k].pending > 0 {
        flights := flights[k := flights[k].(pending := flights[k].pending - 1)];
      }
    }

    /** The condition waitForPendingRefinements waits for. */
    predicate Settled(k: Key)
      reads this
      ensures Settled(k) <==> Pending(flights, k) <= 0
    {
      k !in flights || flights[k].pending <= 0
    }

    predicate HasFreshPending(k: Key, recency: nat, now: nat)
      reads this
      ensures HasFreshPending(k, recency, now) <==> !Settled(k) && now - flights[k].lastSubmit <= recency
    {
      if k !in flights || flights[k].pending <= 0 then false else now - flights[k].lastSubmit <= recency
    }
  }

  // ---- The bounded queue ----

  class TaskQueue {
    const capacity: nat
    var queue: seq<TaskId>
    var stopped: bool
    var totalProcessed: nat

    constructor (capacity: nat)
      ensures this.capacity == capacity && queue == [] && !stopped && totalProcessed == 0
    {
      this.capacity, queue, stopped, totalProcessed := capacity, [], false, 0;
    }

    /** The outcome of push, decided by what the wait for room last saw. */
    method Push(t: TaskId) returns (ok: bool)
      modifies `queue
      ensures ok <==> !stopped && |old(queue)| < capacity
      ensures queue == if ok then old(queue) + [t] else old(queue)
    {
      if stopped { return false; }
      if |queue| >= capacity { return false; }
      queue := queue + [t];
      return true;
    }

    /** Pop once the wait is over: there is a task, or the queue is stopped. */
    method Pop() returns (r: Option<TaskId>)
      requires queue != [] || stopped
      modifies `queue, `totalProcessed
      ensures old(queue) == [] ==> r == None && queue == [] && totalProcessed == old(totalProcessed)
      ensures old(queue) != [] ==>
              r == Some(old(queue)[0]) && queue == old(queue)[1..] && totalProcessed == old(totalProcessed) + 1
    {
      if queue == [] { return None; }
      r := Some(queue[0]);
      queue := queue[1..];
      totalProcessed := totalProcessed + 1;
    }

    method Stop()
      modifies `stopped
      ensures stopped
    {
      stopped := true;
    }
  }

  predicate Room(queue: seq<TaskId>, capacity: nat, stopped: bool) {
    !stopped && |queue| < capacity
  }

  // ---- The protocol ----

  datatype Phase =
    | Pushing   // counted, push not yet decided
    | Rejected  // push failed, still counted
    | Queued
    | Running
    | Done

  datatype Task = Task(key: Key, phase: Phase)

  datatype Worker = AtTest | AtPop | Working(task: TaskId) | Counting(failed: bool) | Exited

  datatype State = State(
    tasks: map<TaskId, Task>,
    flights: Flights,
    queue: seq<TaskId>,
    capacity: nat,
    stopped: bool,
    running: bool,
    workers: seq<Worker>,
    taken: seq<TaskId>,
    processed: nat,
    completed: nat,
    failed: nat)

  datatype Event =
    | Submit(t: TaskId, key: Key, now: nat)
    | PushDecided(t: TaskId)
    | GiveUp(t: TaskId)
    | Test(w: nat)
    | Take(w: nat)
    | EndWork(w: nat, threw: bool)
    | Count(w: nat)
    | StopRunning
    | StopQueue
    | Start(threads: nat)

  function SetPhase(s: State, t: TaskId, p: Phase): State
    requires t in s.tasks
  {
    s.(tasks := s.tasks[t := s.tasks[t].(phase := p)])
  }

  function Move(s: State, w: nat, to: Worker): State
    requires w < |s.workers|
  {
    s.(workers := s.workers[w := to])
  }

  predicate Enabled(s: State, e: Event) {
    match e
    case Submit(t, _, _) => t !in s.tasks
    case PushDecided(t) => t in s.tasks && s.tasks[t].phase == Pushing
    case GiveUp(t) => t in s.tasks && s.tasks[t].phase == Rejected
    case Test(w) => w < |s.workers| && s.workers[w] == AtTest
    case Take(w) =>
      w < |s.workers| && s.workers[w] == AtPop && if s.queue != [] then s.queue[0] in s.tasks else s.stopped
    case EndWork(w, _) => w < |s.workers| && s.workers[w].Working? && s.workers[w].task in s.tasks
    case Count(w) => w < |s.workers| && s.workers[w].Counting?
    case StopRunning => s.running
    case StopQueue => !s.running
    case Start(_) => Halted(s)
  }

  /** shutdown has joined every worker, or none was started. */
  predicate Halted(s: State) {
    !s.running && forall w :: 0 <= w < |s.workers| ==> s.workers[w] == Exited
  }

  function Next(s: State, e: Event): State
    requires Enabled(s, e)
  {
    match e
    case Submit(t, k, now) => s.(tasks := s.tasks[t := Task(k, Pushing)], flights := Counted(s.flights, k, now))
    case PushDecided(t) =>
      if Room(s.queue, s.capacity, s.stopped) then SetPhase(s.(queue := s.queue + [t]), t, Queued)
      else SetPhase(s, t, Rejected)
    case GiveUp(t) => SetPhase(s.(flights := CountedOff(s.flights, s.tasks[t].key)), t, Done)
    case Test(w) => Move(s, w, if s.running then AtPop else Exited)
    case Take(w) =>
      if s.queue == [] then Move(s, w, Exited)
      else Move(SetPhase(s.(queue := s.queue[1..], taken := s.taken + [s.queue[0]], processed := s.processed + 1),
                         s.queue[0], Running),
                w, Working(s.queue[0]))
    case EndWork(w, threw) =>
      var t := s.workers[w].task;
      Move(SetPhase(s.(flights := CountedOff(s.flights, s.tasks[t].key)), t, Done), w, Counting(threw))
    case Count(w) =>
      if s.workers[w].failed then Move(s.(failed := s.failed + 1), w, AtTest)
      else Move(s.(completed := s.completed + 1), w, AtTest)
    case StopRunning => s.(running := false)
    case StopQueue => s.(stopped := true)
    case Start(n) => s.(running := true, workers := seq(n, i => AtTest))
  }

  function Init(capacity: nat, threads: nat): State {
    State(map[], map[], [], capacity, false, true, seq(threads, i => AtTest), [], 0, 0, 0)
  }

  predicate Runs(s: State, es: seq<Event>)
    decreases |es|
  {
    es == [] || (Enabled(s, es[0]) && Runs(Next(s, es[0]), es[1..]))
  }

  function After(s: State, es: seq<Event>): State
    requires Runs(s, es)
    decreases |es|
  {
    if es == [] then s else After(Next(s, es[0]), es[1..])
  }

  // ---- What every step keeps ----

  ghost function InFlight(s: State, k: Key): set<TaskId> {
    set t | t in s.tasks && s.tasks[t].key == k && s.tasks[t].phase != Done
  }

  /** The counter of every key is the number of its tasks counted and not finished. */
  ghost predicate CountsFlights(s: State) {
    forall k :: Pending(s.flights, k) == |InFlight(s, k)|
  }

  ghost predicate QueueHoldsQueued(s: State) {
    && |s.queue| <= s.capacity
    && (forall i :: 0 <= i < |s.queue| ==> s.queue[i] in s.tasks && s.tasks[s.queue[i]].phase == Queued)
    && (forall i, j :: 0 <= i < j < |s.queue| ==> s.queue[i] != s.queue[j])
    && (forall t :: t in s.tasks && s.tasks[t].phase == Queued ==> t in s.queue)
  }

  predicate Runs1(s: State, w: nat, t: TaskId) {
    w < |s.workers| && s.workers[w] == Working(t)
  }

  ghost predicate WorkersHoldRunning(s: State) {
    && (forall w, t :: Runs1(s, w, t) ==> t in s.tasks && s.tasks[t].phase == Running)
    && (forall v, w, t :: Runs1(s, v, t) && Runs1(s, w, t) ==> v == w)
    && (forall t :: t in s.tasks && s.tasks[t].phase == Running ==> exists w :: Runs1(s, w, t))
  }

  /** No task is taken twice, and every task taken has been started. */
  ghost predicate TakenOnce(s: State) {
    && s.processed == |s.taken|
    && (forall i :: 0 <= i < |s.taken| ==> s.taken[i] in s.tasks && s.tasks[s.taken[i]].phase in {Running, Done})
    && (forall i, j :: 0 <= i < j < |s.taken| ==> s.taken[i] != s.taken[j])
  }

  function Busy(ws: seq<Worker>): nat {
    if ws == [] then 0 else Busy(ws[..|ws| - 1]) + if ws[|ws| - 1].Working? || ws[|ws| - 1].Counting? then 1 else 0
  }

  ghost predicate Inv(s: State) {
    && CountsFlights(s) && QueueHoldsQueued(s) && WorkersHoldRunning(s) && TakenOnce(s)
    && s.processed == s.completed + s.failed + Busy(s.workers)
  }

  lemma {:induction false} BusyMove(ws: seq<Worker>, w: nat, to: Worker)
    requires w < |ws|
    ensures Busy(ws[w := to]) ==
            Busy(ws) - (if ws[w].Working? || ws[w].Counting? then 1 else 0) +
            if to.Working? || to.Counting? then 1 else 0
  {
    if w < |ws| - 1 {
      BusyMove(ws[..|ws| - 1], w, to);
      assert ws[w := to][..|ws| - 1] == ws[..|ws| - 1][w := to];
    } else {
      assert ws[w := to][..|ws| - 1] == ws[..|ws| - 1];
    }
  }

  lemma {:induction false} BusyNone(ws: seq<Worker>)
    requires forall w :: 0 <= w < |ws| ==> ws[w] == Exited || ws[w] == AtTest
    ensures Busy(ws) == 0
  {
    if ws != [] { BusyNone(ws[..|ws| - 1]); }
  }

  // ---- Completed and failed ----

  /** How many workers have ended a task so and not yet counted it. */
  function Uncounted(ws: seq<Worker>, threw: bool): nat {
    if ws == [] then 0 else Uncounted(ws[..|ws| - 1], threw) + if ws[|ws| - 1] == Counting(threw) then 1 else 0
  }

  /** How many tasks of the run have ended so. */
  function Ended(es: seq<Event>, threw: bool): nat
    decreases |es|
  {
    if es == [] then 0 else (if es[0].EndWork? && es[0].threw == threw then 1 else 0) + Ended(es[1..], threw)
  }

  lemma {:induction false} UncountedMove(ws: seq<Worker>, w: nat, to: Worker, threw: bool)
    requires w < |ws|
    ensures Uncounted(ws[w := to], threw) ==
            Uncounted(ws, threw) - (if ws[w] == Counting(threw) then 1 else 0) + if to == Counting(threw) then 1 else 0
  {
    if w < |ws| - 1 {
      UncountedMove(ws[..|ws| - 1], w, to, threw);
      assert ws[w := to][..|ws| - 1] == ws[..|ws| - 1][w := to];
    } else {
      assert ws[w := to][..|ws| - 1] == ws[..|ws| - 1];
    }
  }

  lemma {:induction false} UncountedNone(ws: seq<Worker>, threw: bool)
    requires forall w :: 0 <= w < |ws| ==> ws[w] == Exited || ws[w] == AtTest
    ensures Uncounted(ws, threw) == 0
  {
    if ws != [] { UncountedNone(ws[..|ws| - 1], threw); }
  }

  function Outcomes(s: State, threw: bool): nat {
    if threw then s.failed else s.completed
  }

  lemma StepEnds(s: State, e: Event, b: bool)
    requires Enabled(s, e)
    ensures Outcomes(Next(s, e), b) + Uncounted(Next(s, e).workers, b) ==
            Outcomes(s, b) + Uncounted(s.workers, b) + if e.EndWork? && e.threw == b then 1 else 0
  {
    hide Counted, CountedOff, Room, Uncounted;
    match e
    case Test(w) => UncountedMove(s.workers, w, if s.running then AtPop else Exited, b);
    case Take(w) => UncountedMove(s.workers, w, if s.queue == [] then Exited else Working(s.queue[0]), b);
    case EndWork(w, threw) => UncountedMove(s.workers, w, Counting(threw), b);
    case Count(w) => UncountedMove(s.workers, w, AtTest, b);
    case Start(n) =>
      UncountedNone(s.workers, b);
      UncountedNone(Next(s, e).workers, b);
    case _ =>
  }

  /** Over every run the failed tasks are those that threw and the completed ones those that did
      not, but for what workers have still to count. */
  lemma {:induction false} OutcomesAreCounted(s: State, es: seq<Event>)
    requires Runs(s, es)
    ensures After(s, es).failed + Uncounted(After(s, es).workers, true) ==
            s.failed + Uncounted(s.workers, true) + Ended(es, true)
    ensures After(s, es).completed + Uncounted(After(s, es).workers, false) ==
            s.completed + Uncounted(s.workers, false) + Ended(es, false)
    decreases |es|
  {
    hide Next, Enabled, Uncounted;
    if es != [] {
      StepEnds(s, es[0], true);
      StepEnds(s, es[0], false);
      OutcomesAreCounted(Next(s, es[0]), es[1..]);
    }
  }

  /** Counting a task off never meets a zero counter. */
  lemma NeverClamps(s: State, t: TaskId)
    requires CountsFlights(s) && t in s.tasks && s.tasks[t].phase != Done
    ensures Pending(s.flights, s.tasks[t].key) > 0
  {
    assert t in InFlight(s, s.tasks[t].key);
  }

  lemma SubmitCounts(s: State, t: TaskId, k: Key, now: nat)
    requires CountsFlights(s) && t !in s.tasks
    ensures CountsFlights(Next(s, Submit(t, k, now)))
  {
    var s' := Next(s, Submit(t, k, now));
    forall j ensures Pending(s'.flights, j) == |InFlight(s', j)| {
      assert Pending(s.flights, j) == |InFlight(s, j)|;
      InFlightPlus(s, s', t, Task(k, Pushing), j);
      assert t !in InFlight(s, j);
    }
  }

  lemma InFlightPlus(s: State, s': State, t: TaskId, task: Task, j: Key)
    requires t !in s.tasks && s'.tasks == s.tasks[t := task] && task.phase != Done
    ensures InFlight(s', j) == if j == task.key then InFlight(s, j) + {t} else InFlight(s, j)
  {
  }

  lemma FinishCounts(s: State, s': State, t: TaskId)
    requires CountsFlights(s) && t in s.tasks && s.tasks[t].phase != Done
    requires s'.tasks == s.tasks[t := s.tasks[t].(phase := Done)] && s'.flights == CountedOff(s.flights, s.tasks[t].key)
    ensures CountsFlights(s')
  {
    NeverClamps(s, t);
    forall j ensures Pending(s'.flights, j) == |InFlight(s', j)| {
      assert Pending(s.flights, j) == |InFlight(s, j)|;
      assert InFlight(s', j) == if j == s.tasks[t].key then InFlight(s, j) - {t} else InFlight(s, j);
    }
  }

  lemma SameCounts(s: State, s': State)
    requires CountsFlights(s) && s'.flights == s.flights && s'.tasks.Keys == s.tasks.Keys
    requires forall t :: t in s.tasks ==>
             s'.tasks[t].key == s.tasks[t].key && (s'.tasks[t].phase == Done <==> s.tasks[t].phase == Done)
    ensures CountsFlights(s')
  {
    forall j ensures Pending(s'.flights, j) == |InFlight(s', j)| {
      assert Pending(s.flights, j) == |InFlight(s, j)|;
      assert InFlight(s', j) == InFlight(s, j);
    }
  }

  lemma StepCounts(s: State, e: Event)
    requires Inv(s) && Enabled(s, e)
    ensures CountsFlights(Next(s, e))
  {
    hide TakenOnce, Busy, CountsFlights;
    match e
    case Submit(t, k, now) => SubmitCounts(s, t, k, now);
    case GiveUp(t) => FinishCounts(s, Next(s, e), t);
    case EndWork(w, _) =>
      assert Runs1(s, w, s.workers[w].task);
      FinishCounts(s, Next(s, e), s.workers[w].task);
    case _ => SameCounts(s, Next(s, e));
  }

  /** The tasks change in no phase that the queue, the workers or the taken list speak of. */
  lemma QueuesUntouched(s: State, s': State)
    requires QueueHoldsQueued(s) && TakenOnce(s)
    requires s'.queue == s.queue && s'.capacity == s.capacity && s'.taken == s.taken && s'.processed == s.processed
    requires forall t :: t in s.tasks ==> t in s'.tasks && (s.tasks[t].phase == Queued <==> s'.tasks[t].phase == Queued)
    requires forall t :: t in s'.tasks && s'.tasks[t].phase == Queued ==> t in s.tasks
    requires forall t :: t in s.tasks && s.tasks[t].phase in {Running, Done} ==> s'.tasks[t].phase in {Running, Done}
    ensures QueueHoldsQueued(s') && TakenOnce(s')
  {
  }

  lemma PushQueues(s: State, t: TaskId)
    requires QueueHoldsQueued(s) && TakenOnce(s) && Enabled(s, PushDecided(t))
    ensures QueueHoldsQueued(Next(s, PushDecided(t))) && TakenOnce(Next(s, PushDecided(t)))
  {
    var s' := Next(s, PushDecided(t));
    if Room(s.queue, s.capacity, s.stopped) {
      assert t !in s.queue;
    }
  }

  lemma TakeQueues(s: State, w: nat)
    requires QueueHoldsQueued(s) && TakenOnce(s) && Enabled(s, Take(w))
    ensures QueueHoldsQueued(Next(s, Take(w))) && TakenOnce(Next(s, Take(w)))
  {
    if s.queue != [] {
      TakeShortensQueue(s, Next(s, Take(w)), s.queue[0]);
      TakeLengthensTaken(s, Next(s, Take(w)), s.queue[0]);
    }
  }

  lemma TakeShortensQueue(s: State, s': State, h: TaskId)
    requires QueueHoldsQueued(s) && s.queue != [] && h == s.queue[0] && h in s.tasks
    requires s'.tasks == s.tasks[h := s.tasks[h].(phase := Running)] && s'.queue == s.queue[1..] &&
             s'.capacity == s.capacity
    ensures QueueHoldsQueued(s')
  {
    assert s.queue == [h] + s'.queue;
    forall i | 0 <= i < |s'.queue| ensures s'.queue[i] in s'.tasks && s'.tasks[s'.queue[i]].phase == Queued {
      assert s'.queue[i] == s.queue[i + 1];
    }
  }

  lemma TakeLengthensTaken(s: State, s': State, h: TaskId)
    requires TakenOnce(s) && h in s.tasks && s.tasks[h].phase == Queued
    requires s'.tasks == s.tasks[h := s.tasks[h].(phase := Running)] && s'.taken == s.taken + [h] &&
             s'.processed == s.processed + 1
    ensures TakenOnce(s')
  {
    assert h !in s.taken;
  }

  lemma StepQueues(s: State, e: Event)
    requires Inv(s) && Enabled(s, e)
    ensures QueueHoldsQueued(Next(s, e)) && TakenOnce(Next(s, e))
  {
    hide QueueHoldsQueued, TakenOnce, Busy, CountsFlights;
    match e
    case PushDecided(t) => PushQueues(s, t);
    case Take(w) => TakeQueues(s, w);
    case EndWork(w, _) =>
      assert Runs1(s, w, s.workers[w].task);
      QueuesUntouched(s, Next(s, e));
    case _ => QueuesUntouched(s, Next(s, e));
  }

  /** A worker moves between states in which it holds no task. */
  lemma WorkersUntouched(s: State, s': State)
    requires WorkersHoldRunning(s)
    requires forall w, t :: Runs1(s', w, t) <==> Runs1(s, w, t)
    requires forall t :: t in s.tasks ==>
             t in s'.tasks && (s.tasks[t].phase == Running <==> s'.tasks[t].phase == Running)
    requires forall t :: t in s'.tasks && s'.tasks[t].phase == Running ==> t in s.tasks
    ensures WorkersHoldRunning(s')
  {
    forall t | t in s'.tasks && s'.tasks[t].phase == Running ensures exists w :: Runs1(s', w, t) {
      var w :| Runs1(s, w, t);
      assert Runs1(s', w, t);
    }
  }

  lemma TakeWorkers(s: State, w: nat)
    requires Inv(s) && Enabled(s, Take(w)) && s.queue != []
    ensures WorkersHoldRunning(Next(s, Take(w)))
  {
    var s', h := Next(s, Take(w)), s.queue[0];
    assert s.tasks[h].phase == Queued;
    forall v, t ensures Runs1(s', v, t) <==> if v == w then t == h else Runs1(s, v, t) { }
    forall t | t in s'.tasks && s'.tasks[t].phase == Running ensures exists v :: Runs1(s', v, t) {
      if t == h {
        assert Runs1(s', w, t);
      } else {
        var v :| Runs1(s, v, t);
        assert Runs1(s', v, t);
      }
    }
  }

  lemma EndWorkers(s: State, w: nat, threw: bool)
    requires Inv(s) && Enabled(s, EndWork(w, threw))
    ensures WorkersHoldRunning(Next(s, EndWork(w, threw)))
  {
    var s', h := Next(s, EndWork(w, threw)), s.workers[w].task;
    assert Runs1(s, w, h);
    forall v, t ensures Runs1(s', v, t) <==> v != w && Runs1(s, v, t) { }
    forall t | t in s'.tasks && s'.tasks[t].phase == Running ensures exists v :: Runs1(s', v, t) {
      var v :| Runs1(s, v, t);
      assert Runs1(s', v, t);
    }
  }

  lemma StepWorkers(s: State, e: Event)
    requires Inv(s) && Enabled(s, e)
    ensures WorkersHoldRunning(Next(s, e))
  {
    hide QueueHoldsQueued, TakenOnce, Busy, CountsFlights, WorkersHoldRunning;
    match e
    case Take(w) => if s.queue != [] { TakeWorkers(s, w); } else { WorkersUntouched(s, Next(s, e)); }
    case EndWork(w, threw) => EndWorkers(s, w, threw);
    case Start(n) => WorkersUntouched(s, Next(s, e));
    case Test(w) => WorkersUntouched(s, Next(s, e));
    case Count(w) => WorkersUntouched(s, Next(s, e));
    case _ =>
      assert Next(s, e).workers == s.workers;
      WorkersUntouched(s, Next(s, e));
  }

  lemma StepTallies(s: State, e: Event)
    requires Inv(s) && Enabled(s, e)
    ensures Next(s, e).processed == Next(s, e).completed + Next(s, e).failed + Busy(Next(s, e).workers)
  {
    hide QueueHoldsQueued, TakenOnce, Busy, CountsFlights, WorkersHoldRunning;
    var s' := Next(s, e);
    match e
    case Test(w) => BusyMove(s.workers, w, s'.workers[w]);
    case Take(w) => BusyMove(s.workers, w, s'.workers[w]);
    case EndWork(w, _) => BusyMove(s.workers, w, s'.workers[w]);
    case Count(w) => BusyMove(s.workers, w, s'.workers[w]);
    case Start(n) =>
      BusyNone(s.workers);
      BusyNone(s'.workers);
    case _ =>
  }

  lemma InitHolds(capacity: nat, threads: nat)
    ensures Inv(Init(capacity, threads))
  {
    var s := Init(capacity, threads);
    BusyNone(s.workers);
    forall k ensures Pending(s.flights, k) == |InFlight(s, k)| { assert InFlight(s, k) == {}; }
  }

  /** In every interleaving of submitters, workers, shutdowns and restarts. */
  lemma {:induction false} EveryRun(s: State, es: seq<Event>)
    requires Inv(s) && Runs(s, es)
    ensures Inv(After(s, es))
    decreases |es|
  {
    if es != [] {
      StepCounts(s, es[0]);
      StepQueues(s, es[0]);
      StepWorkers(s, es[0]);
      StepTallies(s, es[0]);
      EveryRun(Next(s, es[0]), es[1..]);
    }
  }

  // ---- The barrier ----

  /** A wait for a key ends with true exactly when no task of the key is in flight. */
  lemma BarrierIsExact(capacity: nat, threads: nat, es: seq<Event>, k: Key)
    requires Runs(Init(capacity, threads), es)
    ensures var s := After(Init(capacity, threads), es);
            Pending(s.flights, k) <= 0 <==>
              (forall t :: t in s.tasks && s.tasks[t].key == k ==> s.tasks[t].phase == Done)
  {
    var s := After(Init(capacity, threads), es);
    InitHolds(capacity, threads);
    EveryRun(Init(capacity, threads), es);
    assert Pending(s.flights, k) == |InFlight(s, k)|;
    if Pending(s.flights, k) <= 0 {
      forall t | t in s.tasks && s.tasks[t].key == k ensures s.tasks[t].phase == Done {
        assert t !in InFlight(s, k);
      }
    } else {
      var t :| t in InFlight(s, k);
    }
  }

  /** A run without a restart. */
  predicate NoStart(es: seq<Event>) {
    forall e :: e in es ==> !e.Start?
  }

  lemma HaltedStep(s: State, e: Event)
    requires Halted(s) && s.stopped && Enabled(s, e) && !e.Start?
    ensures Halted(Next(s, e)) && Next(s, e).stopped && Next(s, e).queue == s.queue
    ensures forall t :: t in s.tasks ==> t in Next(s, e).tasks && Next(s, e).tasks[t].key == s.tasks[t].key
  {
  }

  lemma {:induction false} HaltedKeepsQueue(s: State, es: seq<Event>)
    requires Halted(s) && s.stopped && Runs(s, es) && NoStart(es)
    ensures After(s, es).queue == s.queue
    ensures forall t :: t in s.tasks ==> t in After(s, es).tasks && After(s, es).tasks[t].key == s.tasks[t].key
    decreases |es|
  {
    if es != [] {
      assert es[0] in es && forall d :: d in es[1..] ==> d in es;
      HaltedStep(s, es[0]);
      hide Next, Halted;
      HaltedKeepsQueue(Next(s, es[0]), es[1..]);
    }
  }

  lemma One(s: State, e: Event)
    requires Enabled(s, e)
    ensures Runs(s, [e]) && After(s, [e]) == Next(s, e)
  {
    var s' := Next(s, e);
    assert [e][1..] == [] && Runs(s', []) && After(s', []) == s';
  }

  lemma Then(s: State, e: Event, es: seq<Event>)
    requires Enabled(s, e) && Runs(Next(s, e), es)
    ensures Runs(s, [e] + es) && After(s, [e] + es) == After(Next(s, e), es)
  {
    assert ([e] + es)[1..] == es;
  }

  /** With the workers gone, the tasks of a key that are not in the queue can all be counted off. */
  lemma {:induction false} Drain(s: State, k: Key) returns (es: seq<Event>)
    requires Inv(s) && Halted(s) && s.stopped
    requires forall t :: t in s.queue ==> s.tasks[t].key != k
    ensures Runs(s, es) && NoStart(es) && Pending(After(s, es).flights, k) <= 0
    decreases |InFlight(s, k)|
  {
    assert Pending(s.flights, k) == |InFlight(s, k)|;
    if InFlight(s, k) == {} {
      es := [];
    } else {
      var t :| t in InFlight(s, k);
      NotRunning(s, t);
      var first := if s.tasks[t].phase == Pushing then [PushDecided(t), GiveUp(t)] else [GiveUp(t)];
      DrainOne(s, t, first);
      var s' := After(s, first);
      EveryRun(s, first);
      assert InFlight(s', k) == InFlight(s, k) - {t};
      var rest := Drain(s', k);
      RunsOn(s, first, rest);
      es := first + rest;
    }
  }

  lemma NotRunning(s: State, t: TaskId)
    requires Inv(s) && Halted(s) && t in s.tasks && t !in s.queue
    ensures s.tasks[t].phase !in {Running, Queued}
  {
    forall w ensures !Runs1(s, w, t) { }
    assert WorkersHoldRunning(s);
  }

  lemma DrainOne(s: State, t: TaskId, first: seq<Event>)
    requires Halted(s) && s.stopped && t in s.tasks
    requires (s.tasks[t].phase == Pushing && first == [PushDecided(t), GiveUp(t)]) ||
             (s.tasks[t].phase == Rejected && first == [GiveUp(t)])
    ensures Runs(s, first) && NoStart(first)
    ensures After(s, first) == SetPhase(s.(flights := CountedOff(s.flights, s.tasks[t].key)), t, Done)
  {
    if s.tasks[t].phase == Pushing {
      var s1 := Next(s, PushDecided(t));
      One(s1, GiveUp(t));
      Then(s, PushDecided(t), [GiveUp(t)]);
      assert first == [PushDecided(t)] + [GiveUp(t)];
      assert s1.tasks[t := s1.tasks[t].(phase := Done)] == s.tasks[t := s.tasks[t].(phase := Done)];
    } else {
      One(s, GiveUp(t));
    }
  }

  lemma {:induction false} RunsOn(s: State, a: seq<Event>, b: seq<Event>)
    requires Runs(s, a) && Runs(After(s, a), b)
    ensures Runs(s, a + b) && After(s, a + b) == After(After(s, a), b)
    decreases |a|
  {
    if a == [] {
      assert a + b == b;
    } else {
      assert (a + b)[1..] == a[1..] + b;
      RunsOn(Next(s, a[0]), a[1..], b);
    }
  }

  /** After a shutdown, and until a restart, a wait for a key can still end with true
      exactly if the queue was left without a task of that key. */
  lemma StrandedExactly(s: State, k: Key)
    requires Inv(s) && Halted(s) && s.stopped
    ensures (exists es :: Runs(s, es) && NoStart(es) && Pending(After(s, es).flights, k) <= 0) <==>
            (forall t :: t in s.queue ==> s.tasks[t].key != k)
  {
    if forall t :: t in s.queue ==> s.tasks[t].key != k {
      var es := Drain(s, k);
    }
    forall es, t | Runs(s, es) && NoStart(es) && t in s.queue && s.tasks[t].key == k
      ensures Pending(After(s, es).flights, k) > 0
    {
      HaltedKeepsQueue(s, es);
      EveryRun(s, es);
      NeverClamps(After(s, es), t);
    }
  }

  /** A restart that finds tasks left in a stopped queue still takes them. */
  lemma RestartTakesStranded(s: State, threads: nat)
    requires Inv(s) && Halted(s) && s.queue != [] && threads > 0
    ensures var es := [Start(threads), Test(0), Take(0)];
            Runs(s, es) && After(s, es).taken == s.taken + [s.queue[0]] && After(s, es).queue == s.queue[1..]
  {
    var s1 := Next(s, Start(threads));
    var s2 := Next(s1, Test(0));
    One(s2, Take(0));
    Then(s1, Test(0), [Take(0)]);
    Then(s, Start(threads), [Test(0)] + [Take(0)]);
    assert [Start(threads), Test(0), Take(0)] == [Start(threads)] + ([Test(0)] + [Take(0)]);
  }

  /** A task for key 7 is queued, the only worker is told to stop before it takes it,
      and from then on key 7 never settles. */
  lemma OneStranded()
    ensures var es := [Submit(1, 7, 0), PushDecided(1), StopRunning, StopQueue, Test(0)];
            Runs(Init(4, 1), es) && Halted(After(Init(4, 1), es)) &&
            forall more :: Runs(After(Init(4, 1), es), more) && NoStart(more) ==>
                   Pending(After(After(Init(4, 1), es), more).flights, 7) > 0
  {
    var s0 := Init(4, 1);
    var s1 := Next(s0, Submit(1, 7, 0));
    var s2 := Next(s1, PushDecided(1));
    var s3 := Next(s2, StopRunning);
    var s4 := Next(s3, StopQueue);
    One(s4, Test(0));
    Then(s3, StopQueue, [Test(0)]);
    Then(s2, StopRunning, [StopQueue] + [Test(0)]);
    Then(s1, PushDecided(1), [StopRunning] + ([StopQueue] + [Test(0)]));
    Then(s0, Submit(1, 7, 0), [PushDecided(1)] + ([StopRunning] + ([StopQueue] + [Test(0)])));
    var es := [Submit(1, 7, 0), PushDecided(1), StopRunning, StopQueue, Test(0)];
    assert es == [Submit(1, 7, 0)] + ([PushDecided(1)] + ([StopRunning] + ([StopQueue] + [Test(0)])));
    OneStrandedState(s0, s1, s2, s3, s4);
    hide Next, Inv, Runs, After, Pending, Init;
    InitHolds(4, 1);
    EveryRun(s0, es);
    StrandedExactly(After(s0, es), 7);
  }

  lemma OneStrandedState(s0: State, s1: State, s2: State, s3: State, s4: State)
    requires s0 == Init(4, 1) && s1 == Next(s0, Submit(1, 7, 0)) && s2 == Next(s1, PushDecided(1))
    requires s3 == Next(s2, StopRunning) && s4 == Next(s3, StopQueue)
    ensures Enabled(s4, Test(0))
    ensures var s := Next(s4, Test(0));
            Halted(s) && s.stopped && s.queue == [1] && 1 in s.tasks && s.tasks[1].key == 7 && 1 in s.queue
  {
  }
}
