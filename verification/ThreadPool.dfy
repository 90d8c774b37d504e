/**
 * The thread pool as a step machine: clients push, clear or stop, any number of workers go round their loop.
 * Every access to the queue is one step, as it happens under the queue's mutex.  Jobs are numbered in the order
 * in which they were accepted.
 */
module ThreadPoolModel {
  import opened Threads

  /** Where a worker is in Execute and mainLoop. */
  datatype Worker =
    | Checking              // before isRunning()
    | Dequeuing             // in dequeue, nothing taken yet
    | Holding(job: nat)     // dequeue has returned a job, before the test for an empty function
    | Running(job: nat)     // inside the job
    | Exited

  /**
   * queue, max and running are the program's own; isNull tells which accepted jobs are empty functions, and the
   * rest is history: what left the queue, in order, and what became of it.
   */
  datatype State = State(queue: seq<nat>, max: nat, running: bool, worker: seq<Worker>, isNull: seq<bool>,
                         left: seq<nat>, started: seq<nat>, finished: seq<nat>, dropped: seq<nat>, deleted: seq<nat>)

  datatype Action = Push(isNull: bool) | DeleteAll | SetMax(max: nat) | Stop | Go(w: nat) | TimeOut(w: nat)

  datatype Outcome = Blocked | To(state: State)

  function Fresh(workers: nat, max: nat): State {
    State([], max, true, seq(workers, _ => Checking), [], [], [], [], [], [])
  }

  function Put(s: State, w: nat, p: Worker): State
    requires w < |s.worker|
  {
    s.(worker := s.worker[w := p])
  }

  function Advance(s: State, w: nat): Outcome
    requires w < |s.worker|
  {
    match s.worker[w]
    case Checking => To(Put(s, w, if s.running then Dequeuing else Exited))
    case Dequeuing =>
      if s.queue == [] then Blocked
      else To(Put(s, w, Holding(s.queue[0])).(queue := s.queue[1..], left := s.left + [s.queue[0]]))
    case Holding(j) =>
      if j < |s.isNull| && s.isNull[j]
      then To(Put(s, w, Checking).(dropped := s.dropped + [j]))
      else To(Put(s, w, Running(j)).(started := s.started + [j]))
    case Running(j) => To(Put(s, w, Checking).(finished := s.finished + [j]))
    case Exited => Blocked
  }

  function Apply(s: State, a: Action): Outcome {
    match a
    case Push(isNull) =>
      if |s.queue| >= s.max then To(s)
      else To(s.(queue := s.queue + [|s.isNull|], isNull := s.isNull + [isNull]))
    case DeleteAll => To(s.(queue := [], left := s.left + s.queue, deleted := s.deleted + s.queue))
    case SetMax(max) => To(s.(max := max))
    case Stop => To(s.(running := false))
    case Go(w) => if w < |s.worker| then Advance(s, w) else Blocked
    case TimeOut(w) =>
      if w < |s.worker| && s.worker[w].Dequeuing? && s.queue == [] then To(Put(s, w, Checking)) else Blocked
  }

  function Run(s: State, acts: seq<Action>): Outcome
    decreases |acts|
  {
    if acts == [] then To(s)
    else match Apply(s, acts[0])
      case Blocked => Blocked
      case To(next) => Run(next, acts[1..])
  }

  predicate Reachable(s: State, workers: nat, max: nat, acts: seq<Action>) {
    Run(Fresh(workers, max), acts) == To(s)
  }

  // ---- who has which jobs ----

  /** The numbers of the first n accepted jobs, in order. */
  function Numbers(n: nat): seq<nat> {
    seq(n, i => i)
  }

  /** How often j occurs. */
  function Count(s: seq<nat>, j: nat): nat {
    multiset(s)[j]
  }

  lemma CountAppend(s: seq<nat>, t: seq<nat>, j: nat)
    ensures Count(s + t, j) == Count(s, j) + Count(t, j)
  {
    assert multiset(s + t) == multiset(s) + multiset(t);
  }

  lemma CountLast(s: seq<nat>, i: nat, j: nat)
    ensures Count(s + [i], j) == Count(s, j) + if i == j then 1 else 0
  {
    CountAppend(s, [i], j);
  }

  predicate Has(p: Worker, j: nat) {
    (p.Holding? || p.Running?) && p.job == j
  }

  function HasJob(j: nat): Worker -> nat {
    (p: Worker) => if Has(p, j) then 1 else 0
  }

  function RunsJob(j: nat): Worker -> nat {
    (p: Worker) => if p == Running(j) then 1 else 0
  }

  /** How many workers have taken job j and not yet disposed of it. */
  function Hands(worker: seq<Worker>, j: nat): nat {
    Sum(worker, HasJob(j))
  }

  /** How many workers are running job j. */
  function Works(worker: seq<Worker>, j: nat): nat {
    Sum(worker, RunsJob(j))
  }

  lemma HandsMove(worker: seq<Worker>, w: nat, p: Worker, j: nat)
    requires w < |worker|
    ensures Hands(worker[w := p], j) == Hands(worker, j) - HasJob(j)(worker[w]) + HasJob(j)(p)
    ensures Works(worker[w := p], j) == Works(worker, j) - RunsJob(j)(worker[w]) + RunsJob(j)(p)
  {
    SumMove(worker, HasJob(j), w, p);
    SumMove(worker, RunsJob(j), w, p);
  }

  lemma {:induction false} HandsHave(worker: seq<Worker>, w: nat, j: nat)
    requires w < |worker| && Has(worker[w], j)
    ensures Hands(worker, j) >= 1
  {
    if w > 0 { HandsHave(worker[1..], w - 1, j); }
  }

  /** How often job j is found among those that left the queue: in hand, finished, dropped, deleted. */
  function Accounted(s: State, j: nat): nat {
    Hands(s.worker, j) + Count(s.finished, j) + Count(s.dropped, j) + Count(s.deleted, j)
  }

  predicate InOrder(s: State) {
    s.left + s.queue == Numbers(|s.isNull|)
  }

  predicate BalancedAt(s: State, j: nat) {
    Count(s.left, j) == Accounted(s, j) && Count(s.started, j) == Works(s.worker, j) + Count(s.finished, j)
  }

  ghost predicate Balanced(s: State) {
    forall j: nat :: BalancedAt(s, j)
  }

  predicate Sorted(s: State) {
    && (forall j :: j in s.started ==> j < |s.isNull| && !s.isNull[j])
    && (forall j :: j in s.dropped ==> j < |s.isNull| && s.isNull[j])
  }

  ghost predicate Inv(s: State) {
    && InOrder(s)
    && Balanced(s)
    && Sorted(s)
    && (s.running ==> forall w :: 0 <= w < |s.worker| ==> !s.worker[w].Exited?)
  }

  lemma {:induction false} NobodyHolds(worker: seq<Worker>, j: nat)
    requires forall w :: 0 <= w < |worker| ==> !worker[w].Holding? && !worker[w].Running?
    ensures Hands(worker, j) == 0 && Works(worker, j) == 0
  {
    if worker != [] {
      assert forall w :: 0 <= w < |worker[1..]| ==> worker[1..][w] == worker[w + 1];
      NobodyHolds(worker[1..], j);
    }
  }

  lemma FreshInv(workers: nat, max: nat)
    ensures Inv(Fresh(workers, max))
  {
    forall j: nat ensures BalancedAt(Fresh(workers, max), j) { NobodyHolds(Fresh(workers, max).worker, j); }
  }

  lemma TakenBalances(s: State, w: nat, j: nat)
    requires BalancedAt(s, j) && w < |s.worker| && s.worker[w].Dequeuing? && s.queue != []
    ensures BalancedAt(Advance(s, w).state, j)
  {
    HandsMove(s.worker, w, Holding(s.queue[0]), j);
    CountLast(s.left, s.queue[0], j);
    hide Hands, Works, Count;
  }

  lemma DropBalances(s: State, w: nat, i: nat, j: nat)
    requires BalancedAt(s, j) && w < |s.worker| && s.worker[w] == Holding(i)
    ensures BalancedAt(Put(s, w, Checking).(dropped := s.dropped + [i]), j)
  {
    hide Hands, Works, Count;
    HandsMove(s.worker, w, Checking, j);
    CountLast(s.dropped, i, j);
  }

  lemma StartBalances(s: State, w: nat, i: nat, j: nat)
    requires BalancedAt(s, j) && w < |s.worker| && s.worker[w] == Holding(i)
    ensures BalancedAt(Put(s, w, Running(i)).(started := s.started + [i]), j)
  {
    hide Hands, Works, Count;
    HandsMove(s.worker, w, Running(i), j);
    CountLast(s.started, i, j);
  }

  lemma RunBalances(s: State, w: nat, j: nat)
    requires BalancedAt(s, j) && w < |s.worker| && s.worker[w].Running?
    ensures BalancedAt(Advance(s, w).state, j)
  {
    HandsMove(s.worker, w, Checking, j);
    CountLast(s.finished, s.worker[w].job, j);
    hide Hands, Works, Count;
  }

  /** The balance of one job through a worker's step. */
  lemma GoKeepsBalance(s: State, w: nat, j: nat)
    requires BalancedAt(s, j) && w < |s.worker| && Advance(s, w).To?
    ensures BalancedAt(Advance(s, w).state, j)
  {
    match s.worker[w]
    case Checking => HandsMove(s.worker, w, if s.running then Dequeuing else Exited, j);
    case Dequeuing => TakenBalances(s, w, j);
    case Holding(i) => DropBalances(s, w, i, j); StartBalances(s, w, i, j);
    case Running(_) => RunBalances(s, w, j);
  }

  /** A held job has a number that was given out. */
  lemma HeldWasAccepted(s: State, w: nat)
    requires Inv(s) && w < |s.worker| && (s.worker[w].Holding? || s.worker[w].Running?)
    ensures s.worker[w].job < |s.isNull|
  {
    var j := s.worker[w].job;
    HandsHave(s.worker, w, j);
    assert BalancedAt(s, j);
    assert j in s.left;
    assert j in s.left + s.queue;
  }

  lemma GoKeepsInv(s: State, w: nat)
    requires Inv(s) && w < |s.worker| && Advance(s, w).To?
    ensures Inv(Advance(s, w).state)
  {
    hide BalancedAt;
    var s' := Advance(s, w).state;
    forall j: nat ensures BalancedAt(s', j) {
      assert BalancedAt(s, j);
      GoKeepsBalance(s, w, j);
    }
    if s.worker[w].Dequeuing? { assert s'.left + s'.queue == s.left + s.queue; }
    if s.worker[w].Holding? { HeldWasAccepted(s, w); }
  }

  lemma PushKeepsInv(s: State, isNull: bool)
    requires Inv(s)
    ensures Inv(Apply(s, Push(isNull)).state)
  {
    var s' := Apply(s, Push(isNull)).state;
    forall j: nat ensures BalancedAt(s', j) { assert BalancedAt(s, j); }
    hide BalancedAt;
    if |s.queue| < s.max {
      assert s'.left + s'.queue == (s.left + s.queue) + [|s.isNull|];
    }
  }

  lemma DeleteKeepsInv(s: State)
    requires Inv(s)
    ensures Inv(Apply(s, DeleteAll).state)
  {
    var s' := Apply(s, DeleteAll).state;
    forall j: nat ensures BalancedAt(s', j) {
      assert BalancedAt(s, j);
      CountAppend(s.left, s.queue, j);
      CountAppend(s.deleted, s.queue, j);
      hide Count, Hands, Works;
    }
    hide BalancedAt;
    assert s'.left + s'.queue == s.left + s.queue;
  }

  /** Stopping, resizing and timing out leave every job where it is. */
  lemma OtherKeepsInv(s: State, a: Action)
    requires Inv(s) && Apply(s, a).To? && (a.SetMax? || a.Stop? || a.TimeOut?)
    ensures Inv(Apply(s, a).state)
  {
    var s' := Apply(s, a).state;
    forall j: nat ensures BalancedAt(s', j) {
      assert BalancedAt(s, j);
      if a.TimeOut? { HandsMove(s.worker, a.w, Checking, j); }
    }
    hide BalancedAt;
  }

  lemma StepKeepsInv(s: State, a: Action)
    requires Inv(s) && Apply(s, a).To?
    ensures Inv(Apply(s, a).state)
  {
    match a
    case Go(w) => GoKeepsInv(s, w);
    case Push(isNull) => PushKeepsInv(s, isNull);
    case DeleteAll => DeleteKeepsInv(s);
    case _ => OtherKeepsInv(s, a);
  }

  lemma {:induction false} RunKeepsInv(s: State, acts: seq<Action>)
    requires Inv(s) && Run(s, acts).To?
    ensures Inv(Run(s, acts).state)
    decreases |acts|
  {
    if acts != [] {
      StepKeepsInv(s, acts[0]);
      RunKeepsInv(Apply(s, acts[0]).state, acts[1..]);
    }
  }

  lemma ReachableInv(s: State, workers: nat, max: nat, acts: seq<Action>)
    requires Reachable(s, workers, max, acts)
    ensures Inv(s)
  {
    FreshInv(workers, max);
    RunKeepsInv(Fresh(workers, max), acts);
  }

  // ---- what the runs have in common ----

  lemma {:induction false} NumbersOnce(n: nat, j: nat)
    ensures Count(Numbers(n), j) == if j < n then 1 else 0
  {
    if n > 0 {
      NumbersOnce(n - 1, j);
      assert Numbers(n) == Numbers(n - 1) + [n - 1];
    }
  }

  /**
   * Every accepted job is in exactly one place: queued, in one worker's hands, finished, dropped as empty, or
   * deleted; nothing else is anywhere.
   */
  lemma Conservation(s: State, workers: nat, max: nat, acts: seq<Action>, j: nat)
    requires Reachable(s, workers, max, acts)
    ensures Count(s.queue, j) + Accounted(s, j) == if j < |s.isNull| then 1 else 0
  {
    ReachableInv(s, workers, max, acts);
    assert BalancedAt(s, j);
    NumbersOnce(|s.isNull|, j);
    CountAppend(s.left, s.queue, j);
  }

  /** The queue gives jobs up in the order in which they were accepted. */
  lemma FirstInFirstOut(s: State, workers: nat, max: nat, acts: seq<Action>)
    requires Reachable(s, workers, max, acts)
    ensures forall i :: 0 <= i < |s.left| ==> s.left[i] == i
    ensures forall i :: 0 <= i < |s.queue| ==> s.queue[i] == |s.left| + i
  {
    ReachableInv(s, workers, max, acts);
    var all := s.left + s.queue;
    forall i | 0 <= i < |s.left| ensures s.left[i] == i { assert all[i] == i; }
    forall i | 0 <= i < |s.queue| ensures s.queue[i] == |s.left| + i { assert all[|s.left| + i] == |s.left| + i; }
  }

  lemma {:induction false} WorksAreHeld(worker: seq<Worker>, j: nat)
    ensures Works(worker, j) <= Hands(worker, j)
  {
    if worker != [] { WorksAreHeld(worker[1..], j); }
  }

  /**
   * No job is started twice, an empty function is never started, and a started job is nowhere but at work or finished.
   */
  lemma RunsAtMostOnce(s: State, workers: nat, max: nat, acts: seq<Action>, j: nat)
    requires Reachable(s, workers, max, acts)
    ensures Count(s.started, j) <= 1
    ensures j in s.started ==> j < |s.isNull| && !s.isNull[j] && j !in s.dropped && j !in s.deleted && j !in s.queue
  {
    ReachableInv(s, workers, max, acts);
    assert BalancedAt(s, j);
    Conservation(s, workers, max, acts, j);
    WorksAreHeld(s.worker, j);
  }

  /** When the queue is seen empty, every accepted job has been taken or deleted: none is still waiting. */
  lemma EmptyMeansTaken(s: State, workers: nat, max: nat, acts: seq<Action>, j: nat)
    requires Reachable(s, workers, max, acts)
    requires |s.queue| == 0 && j < |s.isNull|
    ensures Accounted(s, j) == 1
  {
    Conservation(s, workers, max, acts, j);
  }

  /**
   * What is in nobody's hands was finished, dropped or deleted; so an empty queue means done exactly when all hands
   * are.
   */
  lemma EmptyIsDoneIff(s: State, workers: nat, max: nat, acts: seq<Action>)
    requires Reachable(s, workers, max, acts) && s.queue == []
    ensures (forall j: nat :: j < |s.isNull| ==> j in s.finished || j in s.dropped || j in s.deleted)
        <==> (forall w :: 0 <= w < |s.worker| ==> !s.worker[w].Holding? && !s.worker[w].Running?)
  {
    ReachableInv(s, workers, max, acts);
    if forall w :: 0 <= w < |s.worker| ==> !s.worker[w].Holding? && !s.worker[w].Running? {
      forall j: nat | j < |s.isNull| ensures j in s.finished || j in s.dropped || j in s.deleted {
        Conservation(s, workers, max, acts, j);
        NobodyHolds(s.worker, j);
      }
    } else {
      var w :| 0 <= w < |s.worker| && (s.worker[w].Holding? || s.worker[w].Running?);
      var j := s.worker[w].job;
      HeldWasAccepted(s, w);
      HandsHave(s.worker, w, j);
      Conservation(s, workers, max, acts, j);
      assert j !in s.finished && j !in s.dropped && j !in s.deleted;
    }
  }

  /** An empty queue does not mean that the work is done: a job may be running still. */
  lemma EmptyIsNotDone()
    ensures var s := Run(Fresh(1, 1), [Push(false), Go(0), Go(0), Go(0)]);
      s.To? && s.state.queue == [] && s.state.worker == [Running(0)] && s.state.finished == []
  {
    var s0 := Fresh(1, 1);
    var s1 := Apply(s0, Push(false)).state;
    var s2 := Apply(s1, Go(0)).state;
    var s3 := Apply(s2, Go(0)).state;
    var s4 := Apply(s3, Go(0)).state;
    assert Run(s4, []) == To(s4);
    assert Run(s3, [Go(0)]) == Run(s4, []);
    assert Run(s2, [Go(0), Go(0)]) == Run(s3, [Go(0)]);
    assert Run(s1, [Go(0), Go(0), Go(0)]) == Run(s2, [Go(0), Go(0)]);
    assert Run(s0, [Push(false), Go(0), Go(0), Go(0)]) == Run(s1, [Go(0), Go(0), Go(0)]);
    assert s4.worker == [Running(0)];
  }

  /**
   * A worker that has taken a real job lets go of it only by finishing it, whether or not the pool is stopped
   * meanwhile.
   */
  lemma {:induction false} TakenIsRun(s: State, acts: seq<Action>, w: nat, j: nat)
    requires w < |s.worker| && j < |s.isNull| && !s.isNull[j]
    requires s.worker[w] == Holding(j) || s.worker[w] == Running(j) || j in s.finished
    requires Run(s, acts).To?
    ensures var s' := Run(s, acts).state;
      && w < |s'.worker|
      && (j in s'.finished || ((s'.worker[w] == Holding(j) || s'.worker[w] == Running(j)) && Advance(s', w).To?))
    decreases |acts|
  {
    if acts != [] {
      TakenIsRun(Apply(s, acts[0]).state, acts[1..], w, j);
    }
  }

  /** As long as the limit is not changed the queue never grows beyond it. */
  lemma {:induction false} QueueWithinLimit(s: State, acts: seq<Action>)
    requires |s.queue| <= s.max && Run(s, acts).To?
    requires forall a :: a in acts ==> !a.SetMax?
    ensures |Run(s, acts).state.queue| <= Run(s, acts).state.max == s.max
    decreases |acts|
  {
    if acts != [] {
      assert acts[0] in acts;
      assert forall a :: a in acts[1..] ==> a in acts;
      QueueWithinLimit(Apply(s, acts[0]).state, acts[1..]);
    }
  }

  /** Nothing but Stop stops the pool, and a stop is final. */
  lemma {:induction false} OnlyStopStops(s: State, acts: seq<Action>)
    requires Run(s, acts).To?
    ensures Run(s, acts).state.running <==> s.running && Stop !in acts
    decreases |acts|
  {
    if acts != [] {
      assert acts == [acts[0]] + acts[1..];
      OnlyStopStops(Apply(s, acts[0]).state, acts[1..]);
    }
  }

  /** A pool keeps the limit and the workers it was made with, and it runs until it is stopped. */
  lemma AsConfigured(s: State, workers: nat, max: nat, acts: seq<Action>)
    requires Reachable(s, workers, max, acts)
    ensures |s.worker| == workers
    ensures s.running <==> Stop !in acts
    ensures (forall a :: a in acts ==> !a.SetMax?) ==> |s.queue| <= s.max == max
  {
    WorkersStay(Fresh(workers, max), acts);
    OnlyStopStops(Fresh(workers, max), acts);
    if forall a :: a in acts ==> !a.SetMax? { QueueWithinLimit(Fresh(workers, max), acts); }
  }

  /** The job a worker is busy with. */
  function Busy(p: Worker): set<nat> {
    if p.Holding? || p.Running? then {p.job} else {}
  }

  /** Once the pool is stopped, a worker that is not in dequeue never gets a job again: what it has it had before. */
  lemma {:induction false} StoppedWorkerTakesNone(s: State, acts: seq<Action>, w: nat)
    requires !s.running && Run(s, acts).To? && w < |s.worker| && !s.worker[w].Dequeuing?
    ensures var s' := Run(s, acts).state;
      w < |s'.worker| && !s'.running && !s'.worker[w].Dequeuing? && Busy(s'.worker[w]) <= Busy(s.worker[w])
    decreases |acts|
  {
    if acts != [] {
      StoppedWorkerTakesNone(Apply(s, acts[0]).state, acts[1..], w);
    }
  }

  /** ... and one that is in dequeue then takes at most one more: as soon as it is out it is such a worker. */
  lemma {:induction false} StoppedWorkerTakesOne(s: State, acts: seq<Action>, more: seq<Action>, w: nat)
    requires !s.running && Run(s, acts).To? && Run(Run(s, acts).state, more).To? && w < |s.worker|
    ensures var s', s'' := Run(s, acts).state, Run(Run(s, acts).state, more).state;
      && w < |s'.worker| && w < |s''.worker|
      && (Busy(s'.worker[w]) != {} ==> Busy(s''.worker[w]) <= Busy(s'.worker[w]))
    decreases |acts|
  {
    if acts != [] {
      StoppedWorkerTakesOne(Apply(s, acts[0]).state, acts[1..], more, w);
    } else if !s.worker[w].Dequeuing? {
      StoppedWorkerTakesNone(s, more, w);
    } else {
      WorkersStay(s, more);
    }
  }

  lemma {:induction false} WorkersStay(s: State, acts: seq<Action>)
    requires Run(s, acts).To?
    ensures |Run(s, acts).state.worker| == |s.worker|
    decreases |acts|
  {
    if acts != [] { WorkersStay(Apply(s, acts[0]).state, acts[1..]); }
  }

  function Poised(p: Worker): nat {
    if p.Dequeuing? then 1 else 0
  }

  /** Altogether no more jobs are taken after a stop than there are workers in dequeue; delete_all takes the rest. */
  lemma {:induction false} StopEndsTaking(s: State, acts: seq<Action>)
    requires !s.running && Run(s, acts).To?
    ensures var s' := Run(s, acts).state;
      (|s'.left| - |s'.deleted|) + Sum(s'.worker, Poised) <= (|s.left| - |s.deleted|) + Sum(s.worker, Poised)
    decreases |acts|
  {
    if acts != [] {
      var s' := Apply(s, acts[0]).state;
      if acts[0].Go? || acts[0].TimeOut? {
        SumMove(s.worker, Poised, acts[0].w, s'.worker[acts[0].w]);
      }
      StopEndsTaking(s', acts[1..]);
    }
  }

  /** After every worker has left its loop nothing is in hand: what was taken was finished or was empty. */
  lemma NothingLostAtExit(s: State, workers: nat, max: nat, acts: seq<Action>, j: nat)
    requires Reachable(s, workers, max, acts)
    requires forall w :: 0 <= w < |s.worker| ==> s.worker[w].Exited?
    requires j < |s.isNull|
    ensures j in s.queue || j in s.finished || j in s.deleted || (j in s.dropped && s.isNull[j])
  {
    ReachableInv(s, workers, max, acts);
    Conservation(s, workers, max, acts, j);
    NobodyHolds(s.worker, j);
  }

  // ---- the pool gets its work done ----

  predicate Quiet(acts: seq<Action>) {
    forall a :: a in acts ==> a.Go?
  }

  function Distance(p: Worker): nat {
    match p
    case Exited => 0
    case Dequeuing => 0
    case Checking => 1
    case Running(_) => 2
    case Holding(_) => 3
  }

  /** A bound on the steps until the queue is empty and nothing is in hand. */
  function Remaining(s: State): nat {
    4 * |s.queue| + Sum(s.worker, Distance)
  }

  /** Nothing queued and nothing in hand. */
  predicate Done(s: State) {
    s.queue == [] && forall w :: 0 <= w < |s.worker| ==> !s.worker[w].Holding? && !s.worker[w].Running?
  }

  /** Every worker's step brings the end nearer, whoever takes it. */
  lemma GoShrinks(s: State, w: nat)
    requires w < |s.worker| && Advance(s, w).To?
    ensures Remaining(Advance(s, w).state) < Remaining(s)
  {
    SumMove(s.worker, Distance, w, Advance(s, w).state.worker[w]);
  }

  /** Without pushes and time-outs every schedule of the workers is bounded ... */
  lemma {:induction false} QuietRunsEnd(s: State, acts: seq<Action>)
    requires Run(s, acts).To? && Quiet(acts)
    ensures |acts| <= Remaining(s) - Remaining(Run(s, acts).state)
    decreases |acts|
  {
    if acts != [] {
      assert acts[0] in acts;
      assert forall a :: a in acts[1..] ==> a in acts;
      GoShrinks(s, acts[0].w);
      QuietRunsEnd(Apply(s, acts[0]).state, acts[1..]);
    }
  }

  /** ... and it can stop only with nothing queued and nothing in hand, while the pool runs and has a worker. */
  lemma QuietRunsEndDone(s: State, workers: nat, max: nat, acts: seq<Action>)
    requires Reachable(s, workers, max, acts) && s.running && |s.worker| > 0
    requires forall w: nat :: w < |s.worker| ==> Advance(s, w).Blocked?
    ensures Done(s)
  {
    ReachableInv(s, workers, max, acts);
    assert Advance(s, 0).Blocked?;
    forall w: nat | w < |s.worker| ensures !s.worker[w].Holding? && !s.worker[w].Running? {
      assert Advance(s, w).Blocked?;
    }
  }

  /** While the pool runs and has a worker, some worker's step brings the end nearer. */
  lemma SomeoneWorks(s: State) returns (w: nat)
    requires Inv(s) && s.running && |s.worker| > 0 && !Done(s)
    ensures w < |s.worker| && Advance(s, w).To?
    ensures Remaining(Advance(s, w).state) < Remaining(s)
    ensures Advance(s, w).state.running && |Advance(s, w).state.worker| == |s.worker|
  {
    w := 0;
    if i :| 0 <= i < |s.worker| && (s.worker[i].Holding? || s.worker[i].Running?) { w := i; }
    GoShrinks(s, w);
  }

  /** As long as it is not stopped, a pool with a worker can finish or drop all that it has accepted. */
  lemma {:induction false} CanFinish(s: State) returns (acts: seq<Action>)
    requires Inv(s) && s.running && |s.worker| > 0
    ensures Quiet(acts) && Run(s, acts).To? && Done(Run(s, acts).state)
    decreases Remaining(s)
  {
    acts := [];
    if !Done(s) {
      var w := SomeoneWorks(s);
      GoKeepsInv(s, w);
      var rest := CanFinish(Advance(s, w).state);
      acts := [Go(w)] + rest;
      assert acts[1..] == rest;
    }
  }

  // ---- what the clients do ----

  /** push_job never fails, and the job is accepted, behind all others, exactly while the queue is below its limit. */
  lemma PushAcceptsIff(s: State, isNull: bool)
    ensures var r := Apply(s, Push(isNull));
      && r.To?
      && r.state == if |s.queue| < s.max
                    then s.(queue := s.queue + [|s.isNull|], isNull := s.isNull + [isNull])
                    else s
  {
  }

  /** The kinds of the jobs that were pushed while the queue was below its limit, in order. */
  ghost function Accepted(s: State, acts: seq<Action>): seq<bool>
    requires Run(s, acts).To?
    decreases |acts|
  {
    if acts == [] then []
    else (if acts[0].Push? && |s.queue| < s.max then [acts[0].isNull] else [])
         + Accepted(Apply(s, acts[0]).state, acts[1..])
  }

  /** Over every run the accepted jobs are exactly those pushes, each with its own function. */
  lemma {:induction false} AcceptsExactly(s: State, acts: seq<Action>)
    requires Run(s, acts).To?
    ensures Run(s, acts).state.isNull == s.isNull + Accepted(s, acts)
    decreases |acts|
  {
    if acts != [] {
      AcceptsExactly(Apply(s, acts[0]).state, acts[1..]);
      var rest := Accepted(Apply(s, acts[0]).state, acts[1..]);
      if acts[0].Push? && |s.queue| < s.max {
        assert s.isNull + ([acts[0].isNull] + rest) == (s.isNull + [acts[0].isNull]) + rest;
      } else {
        assert s.isNull + ([] + rest) == s.isNull + rest;
      }
    }
  }

  /** The other calls: delete_all empties the queue into what was deleted, and a limit or a stop is set at once; none of
      them touches a worker or a job that was taken. */
  lemma ClientCalls(s: State, n: nat)
    ensures var d := Apply(s, DeleteAll);
      d.To? && d.state.queue == [] && d.state.deleted == s.deleted + s.queue && d.state.worker == s.worker
      && d.state.max == s.max && d.state.running == s.running
    ensures Apply(s, SetMax(n)) == To(s.(max := n)) && Apply(s, Stop) == To(s.(running := false))
  {
  }

  /** What a worker does next: it leaves its loop exactly when it finds the pool stopped, it waits only on an empty
      queue, it times out only there, and what it takes is the front; an empty function is dropped and any other is
      run. */
  lemma WorkerDoes(s: State, workers: nat, max: nat, acts: seq<Action>, w: nat)
    requires Reachable(s, workers, max, acts) && w < |s.worker|
    ensures Advance(s, w).Blocked? <==> s.worker[w].Exited? || (s.worker[w].Dequeuing? && s.queue == [])
    ensures Apply(s, TimeOut(w)).To? <==> s.worker[w].Dequeuing? && s.queue == []
    ensures Apply(s, TimeOut(w)).To? ==> Apply(s, TimeOut(w)).state == s.(worker := s.worker[w := Checking])
    ensures Advance(s, w).To? ==> var p := Advance(s, w).state.worker[w];
      match s.worker[w]
      case Checking => if s.running then p == Dequeuing else p == Exited
      case Dequeuing => s.queue != [] && p == Holding(|s.left|)
      case Holding(j) => j < |s.isNull| && if s.isNull[j] then p == Checking else p == Running(j)
      case Running(_) => p == Checking
      case Exited => false
  {
    ReachableInv(s, workers, max, acts);
    FirstInFirstOut(s, workers, max, acts);
    if s.worker[w].Holding? { HeldWasAccepted(s, w); }
  }
}
