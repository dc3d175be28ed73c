/**
  The thread pool of pool.c.

  First the protocol: a state machine with one step for each critical section, over the sequence
  of all jobs ever accepted.  Then the class, whose ring buffer, empty flag and counters refine
  that state machine.
*/
module Pool {
  import Bits

  /** A function and its argument, both opaque to the pool. */
  datatype Job = Job(code: nat, argument: nat)

  // ----- The protocol -----

  /** What a thread is doing: waiting for work, running the job with a given number, or gone. */
  datatype Worker = Waiting | Running(job: nat) | Exited

  /**
    accepted holds all jobs ever accepted, in order; the first `started` of them have been handed
    to workers, the others are queued.
  */
  datatype State = State(
    room: nat,
    limit: nat,
    shutdown: bool,
    accepted: seq<Job>,
    started: nat,
    finished: set<nat>,
    workers: seq<Worker>)

  datatype Event =
    | Add(job: Job)
    | Pop(worker: nat)
    | Finish(worker: nat)
    | Exit(worker: nat)
    | Shutdown
    | Resize(numThreads: nat)

  function Busy(workers: seq<Worker>): nat {
    if |workers| == 0 then 0
    else Busy(workers[..|workers| - 1]) + if workers[|workers| - 1].Running? then 1 else 0
  }

  function Alive(workers: seq<Worker>): nat {
    if |workers| == 0 then 0
    else Alive(workers[..|workers| - 1]) + if workers[|workers| - 1].Exited? then 0 else 1
  }

  function Queued(s: State): int {
    |s.accepted| - s.started
  }

  /** isQueueFull */
  predicate Full(s: State) {
    if s.room > 1 then Queued(s) == s.room - 1
    else Busy(s.workers) == s.limit || Queued(s) != 0
  }

  /** More threads, all of them waiting. */
  function Grown(workers: seq<Worker>, n: nat): (w: seq<Worker>)
    ensures |w| == if n > |workers| then n else |workers|
    ensures w[..|workers|] == workers
    ensures forall i :: |workers| <= i < |w| ==> w[i] == Waiting
    decreases n
  {
    if n <= |workers| then workers else Grown(workers, n - 1) + [Waiting]
  }

  ghost predicate IsWorker(s: State, w: nat, what: Worker) {
    w < |s.workers| && s.workers[w] == what
  }

  /** Nothing to take, or no permission to take it. */
  predicate Blocked(s: State) {
    Queued(s) <= 0 || Busy(s.workers) >= s.limit
  }

  /** One critical section that changes something. */
  ghost predicate Step(s: State, event: Event, t: State) {
    match event
    case Add(job) => !Full(s) && !s.shutdown && t == s.(accepted := s.accepted + [job])
    case Pop(w) =>
      && IsWorker(s, w, Waiting) && !Blocked(s)
      && t == s.(started := s.started + 1, workers := s.workers[w := Running(s.started)])
    case Finish(w) =>
      && w < |s.workers| && s.workers[w].Running?
      && t == s.(finished := s.finished + {s.workers[w].job}, workers := s.workers[w := Waiting])
    case Exit(w) =>
      && IsWorker(s, w, Waiting) && Blocked(s) && s.shutdown
      && t == s.(workers := s.workers[w := Exited])
    case Shutdown => t == s.(shutdown := true)
    case Resize(n) => n > 0 && t == s.(limit := n, workers := Grown(s.workers, n))
  }

  /** A pool that has just been created. */
  ghost predicate Init(s: State, numThreads: nat, queueSize: nat) {
    && numThreads > 0
    && s == State(queueSize + 1, numThreads, false, [], 0, {}, Grown([], numThreads))
  }

  // ----- The invariant -----

  /** Every started job is either being run, by one worker, or finished. */
  ghost predicate JobsAccounted(s: State) {
    && s.started <= |s.accepted|
    && (forall i :: i in s.finished ==> i < s.started)
    && (forall w :: 0 <= w < |s.workers| && s.workers[w].Running? ==>
      s.workers[w].job < s.started && s.workers[w].job !in s.finished)
    && (forall v, w :: 0 <= v < w < |s.workers| && s.workers[v].Running? ==> s.workers[v] != s.workers[w])
    && (forall i: nat :: i < s.started ==> i in s.finished || Running(i) in s.workers)
  }

  ghost predicate Inv(s: State) {
    && s.room >= 1 && 1 <= s.limit <= |s.workers|
    && JobsAccounted(s)
    && Queued(s) <= (if s.room > 1 then s.room - 1 else 1)
    && |s.accepted| == Queued(s) + Busy(s.workers) + |s.finished|
    && (Exited in s.workers ==> s.shutdown)
    && (Queued(s) > 0 ==> Alive(s.workers) > 0)
  }

  lemma {:induction false} BusyUpdate(workers: seq<Worker>, w: nat, v: Worker)
    requires w < |workers|
    ensures Busy(workers[w := v]) + (if workers[w].Running? then 1 else 0)
            == Busy(workers) + if v.Running? then 1 else 0
    ensures Alive(workers[w := v]) + (if workers[w].Exited? then 0 else 1)
            == Alive(workers) + if v.Exited? then 0 else 1
  {
    var k := |workers| - 1;
    if w == k {
      assert workers[w := v][..k] == workers[..k];
    } else {
      assert workers[w := v][..k] == workers[..k][w := v];
      BusyUpdate(workers[..k], w, v);
    }
  }

  lemma {:induction false} GrownCounts(workers: seq<Worker>, n: nat)
    ensures Busy(Grown(workers, n)) == Busy(workers)
    ensures Alive(Grown(workers, n)) >= Alive(workers)
    ensures workers == [] ==> Alive(Grown(workers, n)) == n
  {
    if n <= |workers| {
    } else {
      GrownCounts(workers, n - 1);
      assert Grown(workers, n)[..n - 1] == Grown(workers, n - 1);
    }
  }

  /** Who is busy is alive. */
  lemma {:induction false} BusyAreAlive(workers: seq<Worker>)
    ensures Busy(workers) <= Alive(workers) <= |workers|
    ensures Busy(workers) == 0 <==> forall w :: 0 <= w < |workers| ==> !workers[w].Running?
    ensures Alive(workers) == 0 <==> forall w :: 0 <= w < |workers| ==> workers[w].Exited?
    ensures Alive(workers) == |workers| <==> Exited !in workers
  {
    if |workers| == 0 {
    } else {
      var k := |workers| - 1;
      BusyAreAlive(workers[..k]);
      assert workers == workers[..k] + [workers[k]];
    }
  }

  lemma InitInv(s: State, numThreads: nat, queueSize: nat)
    requires Init(s, numThreads, queueSize)
    ensures Inv(s)
  {
    GrownCounts([], numThreads);
  }

  lemma AddKeepsInv(s: State, job: Job, t: State)
    requires Inv(s) && Step(s, Add(job), t)
    ensures Inv(t)
  {
    BusyAreAlive(s.workers);
  }

  lemma PopKeepsInv(s: State, w: nat, t: State)
    requires Inv(s) && Step(s, Pop(w), t)
    ensures Inv(t)
  {
    BusyUpdate(s.workers, w, Running(s.started));
    assert t.workers[w] == Running(s.started);
    forall i: nat | i < s.started && i !in s.finished ensures Running(i) in t.workers {
      var v :| 0 <= v < |s.workers| && s.workers[v] == Running(i);
      assert t.workers[v] == Running(i);
    }
  }

  lemma FinishKeepsInv(s: State, w: nat, t: State)
    requires Inv(s) && Step(s, Finish(w), t)
    ensures Inv(t)
  {
    BusyUpdate(s.workers, w, Waiting);
    forall i: nat | i < s.started && i !in t.finished ensures Running(i) in t.workers {
      var v :| 0 <= v < |s.workers| && s.workers[v] == Running(i);
      assert t.workers[v] == Running(i);
    }
  }

  lemma ExitKeepsInv(s: State, w: nat, t: State)
    requires Inv(s) && Step(s, Exit(w), t)
    ensures Inv(t)
  {
    BusyUpdate(s.workers, w, Exited);
    BusyAreAlive(t.workers);
    forall i: nat | i < s.started && i !in s.finished ensures Running(i) in t.workers {
      var v :| 0 <= v < |s.workers| && s.workers[v] == Running(i);
      assert t.workers[v] == Running(i);
    }
  }

  lemma ResizeKeepsInv(s: State, n: nat, t: State)
    requires Inv(s) && Step(s, Resize(n), t)
    ensures Inv(t)
  {
    hide Grown, Busy, Alive;
    GrownCounts(s.workers, n);
    assert forall w :: 0 <= w < |s.workers| ==> t.workers[w] == t.workers[..|s.workers|][w];
    GrownAccounted(s, n);
  }

  lemma GrownAccounted(s: State, n: nat)
    requires JobsAccounted(s)
    ensures JobsAccounted(s.(limit := n, workers := Grown(s.workers, n)))
  {
    hide Grown;
    var more := Grown(s.workers, n);
    assert forall w :: 0 <= w < |s.workers| ==> more[w] == more[..|s.workers|][w];
    forall i: nat | i < s.started && i !in s.finished ensures Running(i) in more {
      var v :| 0 <= v < |s.workers| && s.workers[v] == Running(i);
      assert more[v] == Running(i);
    }
  }

  /** Every step of every thread keeps the invariant. */
  lemma StepKeepsInv(s: State, event: Event, t: State)
    requires Inv(s) && Step(s, event, t)
    ensures Inv(t)
  {
    match event
    case Add(job) => AddKeepsInv(s, job, t);
    case Pop(w) => PopKeepsInv(s, w, t);
    case Finish(w) => FinishKeepsInv(s, w, t);
    case Exit(w) => ExitKeepsInv(s, w, t);
    case Shutdown =>
    case Resize(n) => ResizeKeepsInv(s, n, t);
  }

  // ----- Runs -----

  /** A run: states joined by steps, from a freshly created pool. */
  ghost predicate IsRun(states: seq<State>, events: seq<Event>, numThreads: nat, queueSize: nat) {
    && |states| == |events| + 1
    && Init(states[0], numThreads, queueSize)
    && forall i :: 0 <= i < |events| ==> Step(states[i], events[i], states[i + 1])
  }

  lemma {:induction false} ReachableInv(
      states: seq<State>, events: seq<Event>, numThreads: nat, queueSize: nat, k: nat)
    requires IsRun(states, events, numThreads, queueSize) && k < |states|
    ensures Inv(states[k])
  {
    hide Inv, Step;
    if k == 0 {
      InitInv(states[0], numThreads, queueSize);
    } else {
      ReachableInv(states, events, numThreads, queueSize, k - 1);
      StepKeepsInv(states[k - 1], events[k - 1], states[k]);
    }
  }

  /** What a step never takes back. */
  ghost predicate Extends(s: State, t: State) {
    && |s.accepted| <= |t.accepted| && t.accepted[..|s.accepted|] == s.accepted
    && s.started <= t.started
    && s.finished <= t.finished
    && s.room == t.room
    && (s.shutdown ==> t.shutdown && t.accepted == s.accepted)
  }

  lemma StepExtends(s: State, event: Event, t: State)
    requires Step(s, event, t)
    ensures Extends(s, t)
  {
  }

  /** Accepted jobs keep their numbers, and after shutdown no job is accepted. */
  lemma {:induction false} RunExtends(
      states: seq<State>, events: seq<Event>, numThreads: nat, queueSize: nat, i: nat, j: nat)
    requires IsRun(states, events, numThreads, queueSize) && i <= j < |states|
    ensures Extends(states[i], states[j])
    decreases j
  {
    if i == j {
    } else {
      RunExtends(states, events, numThreads, queueSize, i, j - 1);
      StepExtends(states[j - 1], events[j - 1], states[j]);
      var a, b, c := states[i].accepted, states[j - 1].accepted, states[j].accepted;
      assert c[..|a|] == c[..|b|][..|a|];
    }
  }

  /**
    A pool created with a queue of queueSize > 0 is full exactly while that many jobs are waiting;
    without a queue, exactly while one is waiting or as many workers as allowed are busy.
  */
  lemma FullMeans(states: seq<State>, events: seq<Event>, numThreads: nat, queueSize: nat, k: nat)
    requires IsRun(states, events, numThreads, queueSize) && k < |states|
    ensures var s := states[k];
      && (queueSize > 0 ==> (Full(s) <==> |s.accepted| - s.started == queueSize))
      && (queueSize == 0 ==> (Full(s) <==> s.started < |s.accepted| || Busy(s.workers) == s.limit))
      && |s.accepted| - s.started <= (if queueSize > 0 then queueSize else 1)
  {
    hide Step, JobsAccounted, Busy, Alive;
    ReachableInv(states, events, numThreads, queueSize, k);
    RunExtends(states, events, numThreads, queueSize, 0, k);
    NothingStartsEarly(states[k]);
  }

  lemma NothingStartsEarly(s: State)
    requires Inv(s)
    ensures s.started <= |s.accepted|
  {
  }

  /** Until shutdown, when a job is waiting and fewer workers are busy than allowed, one can start it. */
  lemma WaitingJobCanStart(s: State) returns (w: nat, t: State)
    requires Inv(s) && !s.shutdown && s.started < |s.accepted| && Busy(s.workers) < s.limit
    ensures Step(s, Pop(w), t) && t.started == s.started + 1 && t.workers[w] == Running(s.started)
  {
    if forall i :: 0 <= i < |s.workers| ==> s.workers[i].Running? {
      AllBusy(s.workers);
      assert false;
    }
    w :| 0 <= w < |s.workers| && !s.workers[w].Running?;
    t := s.(started := s.started + 1, workers := s.workers[w := Running(s.started)]);
  }

  lemma {:induction false} AllBusy(workers: seq<Worker>)
    requires forall i :: 0 <= i < |workers| ==> workers[i].Running?
    ensures Busy(workers) == |workers|
  {
    if |workers| == 0 {
    } else {
      AllBusy(workers[..|workers| - 1]);
    }
  }

  /** Jobs start in the order in which they were accepted, and no job starts twice. */
  lemma JobsStartOnceInOrder(
      states: seq<State>, events: seq<Event>, numThreads: nat, queueSize: nat, i: nat, j: nat)
    requires IsRun(states, events, numThreads, queueSize) && i < j < |events|
    requires events[i].Pop? && events[j].Pop?
    ensures states[i + 1].workers[events[i].worker] == Running(states[i].started)
    ensures states[j + 1].workers[events[j].worker] == Running(states[j].started)
    ensures states[i].started < states[j].started < |states[j].accepted|
  {
    assert Step(states[i], events[i], states[i + 1]) && Step(states[j], events[j], states[j + 1]);
    RunExtends(states, events, numThreads, queueSize, i + 1, j);
  }

  /** No job finishes twice. */
  lemma JobsFinishOnce(
      states: seq<State>, events: seq<Event>, numThreads: nat, queueSize: nat, i: nat, j: nat)
    requires IsRun(states, events, numThreads, queueSize) && i < j < |events|
    requires events[i].Finish? && events[j].Finish?
    ensures events[i].worker < |states[i].workers| && states[i].workers[events[i].worker].Running?
    ensures events[j].worker < |states[j].workers| && states[j].workers[events[j].worker].Running?
    ensures states[i].workers[events[i].worker].job != states[j].workers[events[j].worker].job
  {
    assert Step(states[i], events[i], states[i + 1]) && Step(states[j], events[j], states[j + 1]);
    RunExtends(states, events, numThreads, queueSize, i + 1, j);
    ReachableInv(states, events, numThreads, queueSize, j);
    assert states[i].workers[events[i].worker].job in states[i + 1].finished;
  }

  /** A pop never makes more workers busy than the limit allows. */
  lemma PopRespectsLimit(s: State, w: nat, t: State)
    requires Step(s, Pop(w), t)
    ensures Busy(t.workers) == Busy(s.workers) + 1 <= t.limit
  {
    BusyUpdate(s.workers, w, Running(s.started));
  }

  ghost predicate AllFinished(s: State) {
    forall i: nat :: i < |s.accepted| ==> i in s.finished
  }

  /** The condition on which POOL_joinJobs returns means that every accepted job has finished. */
  lemma QuietMeansFinished(s: State)
    requires Inv(s)
    ensures Queued(s) == 0 && Busy(s.workers) == 0 <==> AllFinished(s)
  {
    BusyAreAlive(s.workers);
    assert s.started !in s.finished;
  }

  /** When all workers are gone, every job accepted at any time has been run. */
  lemma ShutdownLosesNoJob(
      states: seq<State>, events: seq<Event>, numThreads: nat, queueSize: nat, i: nat, j: nat)
    requires IsRun(states, events, numThreads, queueSize) && i <= j < |states|
    requires Alive(states[j].workers) == 0
    ensures forall k: nat :: k < |states[i].accepted| ==> k in states[j].finished
  {
    ReachableInv(states, events, numThreads, queueSize, j);
    RunExtends(states, events, numThreads, queueSize, i, j);
    BusyAreAlive(states[j].workers);
    QuietMeansFinished(states[j]);
  }

  // ----- Draining after shutdown -----

  /** Worker steps still to be taken, at most. */
  function Work(s: State): int {
    2 * Queued(s) + Busy(s.workers) + Alive(s.workers)
  }

  predicate ByWorker(event: Event) {
    event.Pop? || event.Finish? || event.Exit?
  }

  lemma WorkerStepDoesWork(s: State, event: Event, t: State)
    requires Inv(s) && Step(s, event, t) && ByWorker(event)
    ensures Work(t) == Work(s) - 1
  {
    match event
    case Pop(w) => BusyUpdate(s.workers, w, Running(s.started));
    case Finish(w) => BusyUpdate(s.workers, w, Waiting);
    case Exit(w) => BusyUpdate(s.workers, w, Exited);
  }

  /** After shutdown a pool with a living worker is never stuck, however low its limit. */
  lemma NeverStuck(s: State) returns (event: Event, t: State)
    requires Inv(s) && s.shutdown && Alive(s.workers) > 0
    ensures ByWorker(event) && Step(s, event, t)
  {
    BusyAreAlive(s.workers);
    var w: nat :| w < |s.workers| && !s.workers[w].Exited?;
    if s.workers[w].Running? {
      event, t := Finish(w), s.(finished := s.finished + {s.workers[w].job}, workers := s.workers[w := Waiting]);
    } else if Blocked(s) {
      event, t := Exit(w), s.(workers := s.workers[w := Exited]);
    } else {
      event, t := Pop(w), s.(started := s.started + 1, workers := s.workers[w := Running(s.started)]);
    }
  }

  /**
    After shutdown the workers take only so many steps, and where they can take no more, all of
    them are gone and every accepted job has been run.
  */
  lemma {:induction false} Drains(states: seq<State>, events: seq<Event>)
    requires |states| == |events| + 1 && Inv(states[0]) && states[0].shutdown
    requires forall i :: 0 <= i < |events| ==> Step(states[i], events[i], states[i + 1]) && ByWorker(events[i])
    ensures var last := states[|events|];
      && |events| + Work(last) == Work(states[0]) && Inv(last) && last.shutdown && last.accepted == states[0].accepted
      && Work(last) >= 0
      && ((forall event, t :: !(ByWorker(event) && Step(last, event, t))) ==>
        Alive(last.workers) == 0 && AllFinished(last))
    decreases |events|
  {
    hide Step, ByWorker, Alive, AllFinished, Work;
    var k := |events|;
    if k == 0 {
    } else {
      Drains(states[..k], events[..k - 1]);
      WorkerStepDoesWork(states[k - 1], events[k - 1], states[k]);
      StepKeepsInv(states[k - 1], events[k - 1], states[k]);
      StepExtends(states[k - 1], events[k - 1], states[k]);
    }
    AtRest(states[k]);
  }

  lemma AtRest(s: State)
    requires Inv(s) && s.shutdown
    ensures Work(s) >= 0
    ensures (forall event, t :: !(ByWorker(event) && Step(s, event, t))) ==> Alive(s.workers) == 0 && AllFinished(s)
  {
    if Alive(s.workers) > 0 {
      var event, t := NeverStuck(s);
    } else {
      BusyAreAlive(s.workers);
      QuietMeansFinished(s);
    }
  }

  // ----- The queue of intended size zero -----

  /** Some worker may take a job at once. */
  predicate ThreadFree(s: State) {
    Busy(s.workers) < s.limit
  }

  /** A pool without a queue promises to accept a job only when a thread is free. */
  predicate Promise(s: State) {
    !Full(s) ==> ThreadFree(s)
  }

  /** No resize goes below the number of busy workers while the queue is empty. */
  ghost predicate ResizesWithCare(states: seq<State>, events: seq<Event>)
    requires |states| == |events| + 1
  {
    forall k :: 0 <= k < |events| && events[k].Resize? && Queued(states[k]) == 0 ==>
      Busy(states[k].workers) <= events[k].numThreads
  }

  lemma StepKeepsPromise(s: State, event: Event, t: State)
    requires Inv(s) && s.room == 1 && Promise(s) && Step(s, event, t)
    ensures Promise(t) <==> (event.Resize? && Queued(s) == 0 ==> Busy(s.workers) <= event.numThreads)
  {
    match event
    case Add(job) =>
    case Pop(w) => BusyUpdate(s.workers, w, Running(s.started));
    case Finish(w) => BusyUpdate(s.workers, w, Waiting);
    case Exit(w) => BusyUpdate(s.workers, w, Exited);
    case Shutdown =>
    case Resize(n) => GrownCounts(s.workers, n);
  }

  lemma {:induction false} CareKeepsPromise(states: seq<State>, events: seq<Event>, numThreads: nat, k: nat)
    requires IsRun(states, events, numThreads, 0) && ResizesWithCare(states, events) && k < |states|
    ensures Promise(states[k])
    decreases k
  {
    hide Promise, Inv, Step;
    if k == 0 {
      NewPoolKeepsPromise(states[0], numThreads);
    } else {
      CareKeepsPromise(states, events, numThreads, k - 1);
      ReachableInv(states, events, numThreads, 0, k - 1);
      RunExtends(states, events, numThreads, 0, 0, k - 1);
      StepKeepsPromise(states[k - 1], events[k - 1], states[k]);
    }
  }

  lemma NewPoolKeepsPromise(s: State, numThreads: nat)
    requires Init(s, numThreads, 0)
    ensures Promise(s)
  {
    GrownCounts([], numThreads);
  }

  /**
    Over every run of a pool created with queue size 0: the promise is kept in all states if and
    only if no resize goes below the number of busy workers while the queue is empty.
  */
  lemma PromiseOverRuns(states: seq<State>, events: seq<Event>, numThreads: nat)
    requires IsRun(states, events, numThreads, 0)
    ensures (forall k :: 0 <= k < |states| ==> Promise(states[k])) <==> ResizesWithCare(states, events)
  {
    hide Promise, Inv, Step;
    if forall k :: 0 <= k < |states| ==> Promise(states[k]) {
      forall k | 0 <= k < |events| && events[k].Resize? && Queued(states[k]) == 0
        ensures Busy(states[k].workers) <= events[k].numThreads
      {
        assert Promise(states[k]) && Promise(states[k + 1]);
        ReachableInv(states, events, numThreads, 0, k);
        RunExtends(states, events, numThreads, 0, 0, k);
        StepKeepsPromise(states[k], events[k], states[k + 1]);
      }
    }
    if ResizesWithCare(states, events) {
      forall k: nat | k < |states| ensures Promise(states[k]) {
        CareKeepsPromise(states, events, numThreads, k);
      }
    }
  }

  /** Then every accepted job finds an empty queue and a free thread. */
  lemma AcceptedWhenFree(states: seq<State>, events: seq<Event>, numThreads: nat, k: nat)
    requires IsRun(states, events, numThreads, 0) && ResizesWithCare(states, events)
    requires k < |events| && events[k].Add?
    ensures Queued(states[k]) == 0 && ThreadFree(states[k])
  {
    assert Step(states[k], events[k], states[k + 1]);
    CareKeepsPromise(states, events, numThreads, k);
    ReachableInv(states, events, numThreads, 0, k);
    RunExtends(states, events, numThreads, 0, 0, k);
  }

  lemma TwoWorkers(v: Worker, w: Worker)
    ensures Busy([v, w]) == (if v.Running? then 1 else 0) + if w.Running? then 1 else 0
  {
    assert [v, w][..1] == [v];
    assert Busy([v]) == if v.Running? then 1 else 0;
  }

  lemma TwoThreads()
    ensures Grown([], 2) == [Waiting, Waiting]
  {
  }

  lemma NoNewThread(workers: seq<Worker>, n: nat)
    requires n <= |workers|
    ensures Grown(workers, n) == workers
  {
  }

  /** Lowering the limit while two workers are busy makes such a pool accept a job it cannot start. */
  lemma LoweredLimitBreaksPromise(a: Job, b: Job) returns (states: seq<State>, events: seq<Event>)
    ensures IsRun(states, events, 2, 0)
    ensures var s := states[|events|];
      Inv(s) && Queued(s) == 0 && !Full(s) && !ThreadFree(s) && !s.shutdown
  {
    hide Busy, Grown, Alive, Inv;
    var idle, one, two := [Waiting, Waiting], [Running(0), Waiting], [Running(0), Running(1)];
    TwoThreads();
    TwoWorkers(Waiting, Waiting);
    TwoWorkers(Running(0), Waiting);
    TwoWorkers(Running(0), Running(1));
    NoNewThread(two, 1);
    var s0 := State(1, 2, false, [], 0, {}, idle);
    var s1 := State(1, 2, false, [a], 0, {}, idle);
    var s2 := State(1, 2, false, [a], 1, {}, one);
    var s3 := State(1, 2, false, [a, b], 1, {}, one);
    var s4 := State(1, 2, false, [a, b], 2, {}, two);
    var s5 := State(1, 1, false, [a, b], 2, {}, two);
    states, events := [s0, s1, s2, s3, s4, s5], [Add(a), Pop(0), Add(b), Pop(1), Resize(1)];
    assert Step(s0, Add(a), s1);
    assert Step(s1, Pop(0), s2);
    assert Step(s2, Add(b), s3);
    assert Step(s3, Pop(1), s4);
    assert Step(s4, Resize(1), s5);
    ReachableInv(states, events, 2, 0, 5);
  }

  // ----- The pool as code -----

  /** The k-th slot after head in a ring of the given size, by one subtraction at most. */
  function Slot(head: nat, k: nat, size: nat): int {
    if head + k < size then head + k else head + k - size
  }

  /** The step of an index around the ring. */
  lemma Wrap(x: nat, size: nat)
    requires x < size
    ensures (x + 1) % size == if x + 1 < size then x + 1 else 0
  {
    if x + 1 < size { Bits.SmallMod(x + 1, size); }
  }

  lemma SlotAfterSlot(head: nat, k: nat, size: nat)
    requires head < size && k < size
    ensures 0 <= Slot(head, k, size) < size && 0 <= Slot(head, 1, size) < size
    ensures Slot(Slot(head, 1, size), k, size) == Slot(head, k + 1, size)
    ensures Slot(Slot(head, k, size), 1, size) == Slot(head, k + 1, size)
  {
  }

  lemma NextSlot(head: nat, k: nat, size: nat)
    requires head < size && k < size
    ensures 0 <= Slot(head, k, size) < size
    ensures (head + 1) % size == Slot(head, 1, size)
    ensures Slot(Slot(head, 1, size), k, size) == Slot(head, k + 1, size)
    ensures (Slot(head, k, size) + 1) % size == Slot(head, k + 1, size)
  {
    SlotAfterSlot(head, k, size);
    Wrap(head, size);
    Wrap(Slot(head, k, size), size);
  }

  /** The queued jobs are in the ring, in order, from head on. */
  ghost predicate InRing(ring: seq<Job>, head: nat, s: State) {
    && head < |ring| && s.started <= |s.accepted|
    && Queued(s) <= |ring|
    && forall k: nat :: k < Queued(s) ==> ring[Slot(head, k, |ring|)] == s.accepted[s.started + k]
  }

  /** A queue that is not full has room in the ring. */
  lemma RoomLeft(s: State)
    requires Inv(s)
    ensures 0 <= Queued(s) <= s.room && s.started <= |s.accepted|
    ensures s.room > 1 ==> Queued(s) < s.room
    ensures !Full(s) ==> Queued(s) + 1 <= s.room && (s.room > 1 ==> Queued(s) + 1 < s.room)
  {
  }

  /** The first job is at the head of the ring. */
  lemma RingHead(ring: seq<Job>, head: nat, s: State)
    requires InRing(ring, head, s)
    ensures head < |ring|
    ensures 0 <= Slot(head, 1, |ring|) < |ring| || |ring| == 1
    ensures Queued(s) > 0 ==> ring[head] == s.accepted[s.started]
  {
    assert Slot(head, 0, |ring|) == head;
  }

  /** After a pop head meets tail exactly when the popped job was the only one. */
  lemma EmptyAgain(head: nat, queued: nat, size: nat)
    requires head < size && 0 < queued <= size && (size > 1 ==> queued < size)
    ensures Slot(head, 1, size) == Slot(head, queued, size) <==> queued == 1
  {
  }

  /** Without its first job the ring holds what is still queued. */
  lemma TakeFromRing(ring: seq<Job>, head: nat, s: State, w: nat)
    requires InRing(ring, head, s) && Queued(s) > 0 && w < |s.workers|
    ensures InRing(ring, Slot(head, 1, |ring|),
                   s.(started := s.started + 1, workers := s.workers[w := Running(s.started)]))
  {
    var t := s.(started := s.started + 1, workers := s.workers[w := Running(s.started)]);
    forall k: nat | k < Queued(t)
      ensures ring[Slot(Slot(head, 1, |ring|), k, |ring|)] == t.accepted[t.started + k]
    {
      NextSlot(head, k, |ring|);
      assert ring[Slot(head, k + 1, |ring|)] == s.accepted[s.started + (k + 1)];
    }
  }

  /** A job stored at the tail overwrites none of those that are queued. */
  lemma AddToRing(ring: seq<Job>, head: nat, s: State, job: Job)
    requires InRing(ring, head, s) && Queued(s) < |ring|
    ensures 0 <= Slot(head, Queued(s), |ring|) < |ring|
    ensures InRing(ring[Slot(head, Queued(s), |ring|) := job], head, s.(accepted := s.accepted + [job]))
  {
  }

  datatype Outcome = Waits | Exits | Runs(job: Job)

  class ThreadPool {
    const queue: array<Job>
    var queueHead: nat
    var queueTail: nat
    var queueEmpty: bool
    var numThreadsBusy: nat
    var threadCapacity: nat
    var threadLimit: nat
    var shutdown: bool
    ghost var state: State

    ghost predicate Valid()
      reads this, queue
    {
      && Inv(state) && queue.Length == state.room
      && InRing(queue[..], queueHead, state) && queueTail == Slot(queueHead, Queued(state), queue.Length)
      && (queueEmpty <==> Queued(state) == 0)
      && numThreadsBusy == Busy(state.workers)
      && threadCapacity == |state.workers| && threadLimit == state.limit
      && shutdown == state.shutdown
    }

    /** An empty pool whose threads all wait. */
    constructor (numThreads: nat, queueSize: nat)
      requires numThreads > 0
      ensures Valid() && Init(state, numThreads, queueSize) && fresh(queue)
    {
      hide Inv, Busy, Grown, Alive;
      queue := new Job[queueSize + 1](_ => Job(0, 0));
      queueHead, queueTail, queueEmpty := 0, 0, true;
      numThreadsBusy, shutdown := 0, false;
      threadCapacity, threadLimit := numThreads, numThreads;
      state := State(queueSize + 1, numThreads, false, [], 0, {}, Grown([], numThreads));
      InitInv(State(queueSize + 1, numThreads, false, [], 0, {}, Grown([], numThreads)), numThreads, queueSize);
      GrownCounts([], numThreads);
    }

    /** isQueueFull */
    method IsQueueFull() returns (full: bool)
      requires Valid()
      ensures full == Full(state)
    {
      hide Inv, Busy;
      if queue.Length > 1 {
        RoomLeft(state);
        NextSlot(queueHead, Queued(state), queue.Length);
        full := queueHead == (queueTail + 1) % queue.Length;
      } else {
        full := numThreadsBusy == threadLimit || !queueEmpty;
      }
    }

    /** POOL_add_internal */
    method AddInternal(job: Job)
      requires Valid() && (!Full(state) || shutdown)
      modifies this`queueEmpty, this`queueTail, this`state, queue
      ensures Valid()
      ensures if old(shutdown) then state == old(state) else Step(old(state), Add(job), state)
    {
      if shutdown {
        return;
      }
      hide Inv, Busy, Full, InRing;
      RoomLeft(state);
      RingHead(queue[..], queueHead, state);
      NextSlot(queueHead, Queued(state), queue.Length);
      AddToRing(queue[..], queueHead, state, job);
      queueEmpty := false;
      queue[queueTail] := job;
      queueTail := (queueTail + 1) % queue.Length;
      state := state.(accepted := state.accepted + [job]);
      StepKeepsInv(old(state), Add(job), state);
    }

    /** One pass of the loop of POOL_add: the caller waits exactly while the queue is full. */
    method TryOnceToAdd(job: Job) returns (waits: bool)
      requires Valid()
      modifies this`queueEmpty, this`queueTail, this`state, queue
      ensures Valid() && (waits <==> Full(old(state)) && !shutdown)
      ensures if waits || shutdown then state == old(state) else Step(old(state), Add(job), state)
    {
      var full := IsQueueFull();
      waits := full && !shutdown;
      if !waits {
        AddInternal(job);
      }
    }

    /** POOL_tryAdd: success means that the queue was not full; after shutdown the job is dropped. */
    method TryAdd(job: Job) returns (success: bool)
      requires Valid()
      modifies this`queueEmpty, this`queueTail, this`state, queue
      ensures Valid() && (success <==> !Full(old(state)))
      ensures if success && !shutdown then Step(old(state), Add(job), state) else state == old(state)
    {
      var full := IsQueueFull();
      if full {
        return false;
      }
      AddInternal(job);
      success := true;
    }

    /** The pop of POOL_thread: jobs are taken in the order of acceptance. */
    method TakeJob(ghost w: nat) returns (job: Job)
      requires Valid() && IsWorker(state, w, Waiting) && !Blocked(state)
      modifies this`queueHead, this`queueEmpty, this`numThreadsBusy, this`state
      ensures Valid() && Step(old(state), Pop(w), state)
      ensures job == state.accepted[old(state).started]
    {
      hide Inv, Busy, Full, Slot, InRing;
      RoomLeft(state);
      RingHead(queue[..], queueHead, state);
      NextSlot(queueHead, Queued(state) - 1, queue.Length);
      EmptyAgain(queueHead, Queued(state), queue.Length);
      job := queue[queueHead];
      queueHead := (queueHead + 1) % queue.Length;
      numThreadsBusy := numThreadsBusy + 1;
      queueEmpty := queueHead == queueTail;
      state := state.(started := state.started + 1, workers := state.workers[w := Running(state.started)]);
      StepKeepsInv(old(state), Pop(w), state);
      BusyUpdate(old(state).workers, w, Running(old(state).started));
      TakeFromRing(queue[..], old(queueHead), old(state), w);
    }

    /** First critical section of POOL_thread, one pass of its loop. */
    method Take(ghost w: nat) returns (outcome: Outcome)
      requires Valid() && IsWorker(state, w, Waiting)
      modifies this`queueHead, this`queueEmpty, this`numThreadsBusy, this`state
      ensures Valid()
      ensures match outcome
        case Waits => state == old(state) && Blocked(state) && !shutdown
        case Exits => Step(old(state), Exit(w), state)
        case Runs(job) => Step(old(state), Pop(w), state) && job == state.accepted[old(state).started]
    {
      hide Inv, Busy, Full, Slot;
      RoomLeft(state);
      if queueEmpty || numThreadsBusy >= threadLimit {
        if shutdown {
          state := state.(workers := state.workers[w := Exited]);
          StepKeepsInv(old(state), Exit(w), state);
          BusyUpdate(old(state).workers, w, Exited);
          return Exits;
        }
        return Waits;
      }
      var job := TakeJob(w);
      return Runs(job);
    }

    /** Second critical section of POOL_thread, after the job has run. */
    method Done(ghost w: nat)
      requires Valid() && w < |state.workers| && state.workers[w].Running?
      modifies this`numThreadsBusy, this`state
      ensures Valid() && Step(old(state), Finish(w), state)
    {
      hide Inv, Busy;
      BusyUpdate(state.workers, w, Waiting);
      numThreadsBusy := numThreadsBusy - 1;
      state := state.(finished := state.finished + {state.workers[w].job}, workers := state.workers[w := Waiting]);
      StepKeepsInv(old(state), Finish(w), state);
    }

    /** One pass of the loop of POOL_joinJobs: it stops waiting exactly when every accepted job has finished. */
    method TryOnceToJoin() returns (waits: bool)
      requires Valid()
      ensures !waits <==> AllFinished(state)
    {
      QuietMeansFinished(state);
      waits := !queueEmpty || numThreadsBusy > 0;
    }

    /** POOL_join, up to the joining of the threads. */
    method StartShutdown()
      requires Valid()
      modifies this`shutdown, this`state
      ensures Valid() && Step(old(state), Event.Shutdown, state)
    {
      shutdown := true;
      state := state.(shutdown := true);
    }

    /** POOL_resize_internal, when all allocations and thread creations succeed; true means error. */
    method ResizeInternal(numThreads: nat) returns (error: bool)
      requires Valid()
      modifies this`threadCapacity, this`threadLimit, this`state
      ensures Valid() && (error <==> numThreads == 0)
      ensures if error then state == old(state) else Step(old(state), Resize(numThreads), state)
    {
      hide Inv, Busy, Grown, Alive, Full;
      if numThreads <= threadCapacity {
        if numThreads == 0 {
          return true;
        }
        threadLimit := numThreads;
      } else {
        threadCapacity, threadLimit := numThreads, numThreads;
      }
      state := state.(limit := numThreads, workers := Grown(state.workers, numThreads));
      StepKeepsInv(old(state), Resize(numThreads), state);
      GrownCounts(old(state).workers, numThreads);
      return false;
    }
  }

  /** POOL_create_advanced, when all allocations and thread creations succeed. */
  method Create(numThreads: nat, queueSize: nat) returns (ctx: ThreadPool?)
    ensures ctx == null <==> numThreads == 0
    ensures ctx != null ==> fresh(ctx) && ctx.Valid() && Init(ctx.state, numThreads, queueSize)
  {
    if numThreads == 0 {
      return null;
    }
    ctx := new ThreadPool(numThreads, queueSize);
  }
}
