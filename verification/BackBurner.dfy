/**
 A BackBurner worker as a concurrent protocol.  Any number of AddWork calls and the worker's server
 thread interleave: tasks go into a producer queue under a mutex, the server swaps the two queues
 under the same mutex when it sees the task counters differ, and a pipe carries one token per
 AddWork call to wake the server up.  The counters are 32 bits wide.  One step of the model is one
 access to shared state.
 */
module BackBurner {
  import opened Common

  datatype Task = Task(tag: nat, id: nat)

  /** How far an AddWork call has come. */
  datatype CallState =
    | Waiting(work: seq<Task>)            // before mtx.lock()
    | Pushing(work: seq<Task>, done: nat) // holds the mutex, done tasks are in the queue
    | Counted                             // holds the mutex, producer_num is up to date
    | Unlocked                            // before notifyNewWork()

  datatype ServerState = Blocked | Checking | Locking | Collecting | Unlocking | Running

  datatype Owner = Nobody | Server | Caller(call: nat)

  datatype Worker = Worker(
    pipe: bool,                    // pipe notification, as opposed to the polling modes
    mtx: Owner,
    producer: seq<Task>,
    consumer: seq<Task>,
    producerNum: nat,
    consumerNum: nat,
    tokens: nat,
    calls: map<nat, CallState>,
    server: ServerState,
    executed: seq<Task>,
    submitted: seq<Task>)          // every task in the order it was pushed

  function Fresh(pipe: bool): Worker {
    Worker(pipe, Nobody, [], [], 0, 0, 0, map[], Blocked, [], [])
  }

  // ---------------------------------------------------------------- the steps

  datatype Step =
    | Begin(call: nat, work: seq<Task>)
    | Lock(call: nat)
    | Push(call: nat)
    | Count(call: nat)
    | Unlock(call: nat)
    | Notify(call: nat)
    | Wake
    | Check
    | ServerLock
    | Collect
    | ServerUnlock
    | RunTask
    | Idle

  predicate IsServerStep(s: Step) {
    s.Wake? || s.Check? || s.ServerLock? || s.Collect? || s.ServerUnlock? || s.RunTask? || s.Idle?
  }

  predicate Enabled(w: Worker, s: Step) {
    match s
    case Begin(c, work) => c !in w.calls
    case Lock(c) => c in w.calls && w.calls[c].Waiting? && w.mtx == Nobody
    case Push(c) => c in w.calls && w.calls[c].Pushing? && w.calls[c].done < |w.calls[c].work|
    case Count(c) => c in w.calls && w.calls[c].Pushing? && w.calls[c].done == |w.calls[c].work|
    case Unlock(c) => c in w.calls && w.calls[c] == Counted
    case Notify(c) => c in w.calls && w.calls[c] == Unlocked
    case Wake => w.server == Blocked && (w.pipe ==> w.tokens > 0)
    case Check => w.server == Checking
    case ServerLock => w.server == Locking && w.mtx == Nobody
    case Collect => w.server == Collecting
    case ServerUnlock => w.server == Unlocking
    case RunTask => w.server == Running && w.consumer != []
    case Idle => w.server == Running && w.consumer == []
  }

  function Apply(w: Worker, s: Step): Worker
    requires Enabled(w, s)
  {
    match s
    case Begin(c, work) => w.(calls := w.calls[c := Waiting(work)])
    case Lock(c) => w.(mtx := Caller(c), calls := w.calls[c := Pushing(w.calls[c].work, 0)])
    case Push(c) =>
      var Pushing(work, done) := w.calls[c];
      w.(producer := w.producer + [work[done]], submitted := w.submitted + [work[done]],
         calls := w.calls[c := Pushing(work, done + 1)])
    case Count(c) =>
      w.(producerNum := (w.producerNum + |w.calls[c].work|) % WORD, calls := w.calls[c := Counted])
    case Unlock(c) => w.(mtx := Nobody, calls := w.calls[c := Unlocked])
    case Notify(c) => w.(tokens := if w.pipe then w.tokens + 1 else 0, calls := w.calls - {c})
    case Wake => w.(tokens := if w.pipe then w.tokens - 1 else 0, server := Checking)
    case Check => w.(server := if w.producerNum != w.consumerNum then Locking else Blocked)
    case ServerLock => w.(mtx := Server, server := Collecting)
    case Collect =>
      w.(consumerNum := w.producerNum, server := Unlocking,
         consumer := if w.producer != [] then w.producer else w.consumer,
         producer := if w.producer != [] then w.consumer else w.producer)
    case ServerUnlock => w.(mtx := Nobody, server := Running)
    case RunTask => w.(executed := w.executed + [w.consumer[0]], consumer := w.consumer[1..])
    case Idle => w.(server := Blocked)
  }

  /** Taking these steps one after the other leads from w to w'. */
  ghost predicate Run(w: Worker, steps: seq<Step>, w': Worker)
    decreases |steps|
  {
    if steps == [] then w' == w
    else Enabled(w, steps[0]) && Run(Apply(w, steps[0]), steps[1..], w')
  }

  ghost predicate Reachable(w: Worker) {
    exists steps: seq<Step> :: Run(Fresh(w.pipe), steps, w)
  }

  // ---------------------------------------------------------------- the invariant

  predicate HoldsMutex(c: CallState) {
    c.Pushing? || c == Counted
  }

  ghost predicate MutexInv(w: Worker) {
    && (w.mtx == Server <==> w.server in {Collecting, Unlocking})
    && (forall c <- w.calls :: HoldsMutex(w.calls[c]) <==> w.mtx == Caller(c))
    && (w.mtx.Caller? ==> w.mtx.call in w.calls)
    && (forall c <- w.calls :: w.calls[c].Pushing? ==> w.calls[c].done <= |w.calls[c].work|)
  }

  ghost predicate Conserved(w: Worker) {
    w.executed + w.consumer + w.producer == w.submitted
  }

  ghost predicate ConsumerInv(w: Worker) {
    w.server in {Blocked, Checking, Locking, Collecting} ==> w.consumer == []
  }

  /** Tasks that are in the producer queue but not yet in producer_num. */
  function Uncounted(w: Worker): nat {
    if w.mtx.Caller? && w.mtx.call in w.calls && w.calls[w.mtx.call].Pushing? then w.calls[w.mtx.call].done else 0
  }

  ghost predicate CountInv(w: Worker) {
    && w.producerNum < WORD && w.consumerNum < WORD
    && (w.consumerNum + |w.producer|) % WORD == (w.producerNum + Uncounted(w)) % WORD
  }

  /** Some call has the mutex or still has to notify. */
  ghost predicate InFlight(w: Worker) {
    w.mtx.Caller? || exists c <- w.calls :: w.calls[c] == Unlocked
  }

  /** Whenever the counters differ, a token is there or on its way, or the server is already past
      the pipe and has yet to collect. */
  ghost predicate WakeInv(w: Worker) {
    w.pipe ==>
      || w.producerNum == w.consumerNum
      || w.tokens > 0
      || InFlight(w)
      || w.server in {Checking, Locking, Collecting}
  }

  ghost predicate Inv(w: Worker) {
    MutexInv(w) && Conserved(w) && ConsumerInv(w) && CountInv(w) && WakeInv(w)
  }

  lemma StepKeepsMutex(w: Worker, s: Step)
    requires MutexInv(w) && Enabled(w, s)
    ensures MutexInv(Apply(w, s))
  {
  }

  lemma StepConserves(w: Worker, s: Step)
    requires Conserved(w) && ConsumerInv(w) && Enabled(w, s)
    ensures Conserved(Apply(w, s)) && ConsumerInv(Apply(w, s))
  {
  }

  lemma Congruent(a: nat, b: nat, k: nat)
    requires a % WORD == b % WORD
    ensures (a + k) % WORD == (b + k) % WORD
  {
  }

  lemma PushKeepsCount(w: Worker, c: nat)
    requires MutexInv(w) && CountInv(w) && Enabled(w, Push(c))
    ensures CountInv(Apply(w, Push(c)))
  {
    Congruent(w.consumerNum + |w.producer|, w.producerNum + Uncounted(w), 1);
  }

  lemma CountKeepsCount(w: Worker, c: nat)
    requires MutexInv(w) && CountInv(w) && Enabled(w, Count(c))
    ensures CountInv(Apply(w, Count(c)))
  {
  }

  lemma CollectKeepsCount(w: Worker)
    requires MutexInv(w) && ConsumerInv(w) && CountInv(w) && Enabled(w, Collect)
    ensures CountInv(Apply(w, Collect))
  {
  }

  lemma StepKeepsCount(w: Worker, s: Step)
    requires MutexInv(w) && ConsumerInv(w) && CountInv(w) && Enabled(w, s)
    ensures CountInv(Apply(w, s))
  {
    if s.Push? {
      PushKeepsCount(w, s.call);
    } else if s.Count? {
      CountKeepsCount(w, s.call);
    } else if s.Collect? {
      CollectKeepsCount(w);
    } else {
      var w' := Apply(w, s);
      assert w'.producer == w.producer && w'.producerNum == w.producerNum && w'.consumerNum == w.consumerNum;
      assert Uncounted(w') == Uncounted(w);
    }
  }

  lemma StepKeepsWake(w: Worker, s: Step)
    requires MutexInv(w) && WakeInv(w) && Enabled(w, s)
    ensures WakeInv(Apply(w, s))
  {
    var w' := Apply(w, s);
    if s.Unlock? {
      assert w'.calls[s.call] == Unlocked;
    } else if !s.Notify? && exists c <- w.calls :: w.calls[c] == Unlocked {
      var c :| c in w.calls && w.calls[c] == Unlocked;
      assert c in w'.calls && w'.calls[c] == Unlocked;
    }
  }

  /** Every interleaving of the server with any number of calls keeps the invariant. */
  lemma {:induction false} RunKeepsInv(w: Worker, steps: seq<Step>, w': Worker)
    requires Inv(w) && Run(w, steps, w')
    ensures Inv(w')
    decreases |steps|
  {
    if steps != [] {
      StepKeepsMutex(w, steps[0]);
      StepConserves(w, steps[0]);
      StepKeepsCount(w, steps[0]);
      StepKeepsWake(w, steps[0]);
      RunKeepsInv(Apply(w, steps[0]), steps[1..], w');
    }
  }

  lemma ReachableInv(w: Worker)
    requires Reachable(w)
    ensures Inv(w)
  {
    var steps: seq<Step> :| Run(Fresh(w.pipe), steps, w);
    RunKeepsInv(Fresh(w.pipe), steps, w);
  }

  function Notifies(steps: seq<Step>): nat {
    if steps == [] then 0 else (if steps[0].Notify? then 1 else 0) + Notifies(steps[1..])
  }

  function Wakes(steps: seq<Step>): nat {
    if steps == [] then 0 else (if steps[0].Wake? then 1 else 0) + Wakes(steps[1..])
  }

  /** Each AddWork call puts one token into the pipe and each pass of the server takes one out. */
  lemma {:induction false} TokensBalance(w: Worker, steps: seq<Step>, w': Worker)
    requires Run(w, steps, w') && w.pipe
    ensures w'.tokens + Wakes(steps) == w.tokens + Notifies(steps)
    decreases |steps|
  {
    if steps != [] {
      TokensBalance(Apply(w, steps[0]), steps[1..], w');
    }
  }

  /** Tasks run once each and in the order they were submitted: what has run, what the server has
      taken and what still waits are together the submitted tasks. */
  lemma TasksAreConserved(w: Worker)
    requires Reachable(w)
    ensures w.executed + w.consumer + w.producer == w.submitted
    ensures w.executed <= w.submitted
  {
    ReachableInv(w);
    assert w.executed + (w.consumer + w.producer) == w.submitted;
  }

  /** The server sleeps on an empty pipe, and every call has either not taken the mutex yet or has
      finished. */
  ghost predicate Asleep(w: Worker) {
    w.pipe && w.server == Blocked && w.tokens == 0 && !InFlight(w)
  }

  /** No lost wake-up: when the server is asleep, what is left in the producer queue is a multiple of
      2^32 tasks.  So all submitted tasks have run exactly when fewer than 2^32 are queued. */
  lemma NoLostWakeUp(w: Worker)
    requires Reachable(w) && Asleep(w)
    ensures w.consumer == [] && |w.producer| % WORD == 0
    ensures |w.producer| < WORD <==> w.producer == []
    ensures |w.producer| < WORD <==> w.executed == w.submitted
  {
    ReachableInv(w);
    MultipleFromCount(w.consumerNum, |w.producer|);
    assert w.executed + w.producer == w.submitted;
  }

  lemma MultipleFromCount(num: nat, queued: nat)
    requires num < WORD && (num + queued) % WORD == num % WORD
    ensures queued % WORD == 0
  {
  }

  // ---------------------------------------------------------------- 2^32 tasks at once

  lemma {:induction false} RunThen(w0: Worker, steps: seq<Step>, w: Worker, s: Step)
    requires Run(w0, steps, w) && Enabled(w, s)
    ensures Run(w0, steps + [s], Apply(w, s))
    decreases |steps|
  {
    if steps == [] {
      assert steps + [s] == [s];
      assert Run(Apply(w, s), [s][1..], Apply(w, s));
    } else {
      assert (steps + [s])[1..] == steps[1..] + [s];
      RunThen(Apply(w0, steps[0]), steps[1..], w, s);
    }
  }

  lemma {:induction false} RunAppend(w0: Worker, s1: seq<Step>, w1: Worker, s2: seq<Step>, w2: Worker)
    requires Run(w0, s1, w1) && Run(w1, s2, w2)
    ensures Run(w0, s1 + s2, w2)
    decreases |s1|
  {
    if s1 == [] {
      assert s1 + s2 == s2;
    } else {
      assert (s1 + s2)[1..] == s1[1..] + s2;
      RunAppend(Apply(w0, s1[0]), s1[1..], w1, s2, w2);
    }
  }

  /** The worker after one call pushed its first n tasks. */
  function Pushed(w: Worker, c: nat, work: seq<Task>, n: nat): Worker
    requires n <= |work|
  {
    w.(producer := w.producer + work[..n], submitted := w.submitted + work[..n],
       calls := w.calls[c := Pushing(work, n)])
  }

  lemma {:induction false} PushRun(w: Worker, c: nat, work: seq<Task>, n: nat)
    requires n <= |work|
    ensures Run(Pushed(w, c, work, 0), seq(n, i => Push(c)), Pushed(w, c, work, n))
  {
    hide Run, Pushed, Apply, Enabled;
    if n > 0 {
      PushRun(w, c, work, n - 1);
      PushOne(w, c, work, n - 1);
      RunThen(Pushed(w, c, work, 0), seq(n - 1, i => Push(c)), Pushed(w, c, work, n - 1), Push(c));
      assert seq(n, i => Push(c)) == seq(n - 1, i => Push(c)) + [Push(c)];
    } else {
      RunNone(Pushed(w, c, work, 0));
      assert seq(n, i => Push(c)) == [];
    }
  }

  lemma PushOne(w: Worker, c: nat, work: seq<Task>, n: nat)
    requires n < |work|
    ensures Enabled(Pushed(w, c, work, n), Push(c))
    ensures Apply(Pushed(w, c, work, n), Push(c)) == Pushed(w, c, work, n + 1)
  {
    assert work[..n + 1] == work[..n] + [work[n]];
  }

  lemma RunNone(w: Worker)
    ensures Run(w, [], w)
  {
  }

  /** What an AddWork call does when nothing else runs. */
  function Added(w: Worker, work: seq<Task>): Worker {
    w.(producer := w.producer + work, submitted := w.submitted + work,
       producerNum := (w.producerNum + |work|) % WORD, tokens := if w.pipe then w.tokens + 1 else 0)
  }

  lemma LockRun(w: Worker, c: nat, work: seq<Task>) returns (steps: seq<Step>)
    requires c !in w.calls && w.mtx == Nobody
    ensures Run(w, steps, Pushed(w.(mtx := Caller(c)), c, work, |work|))
  {
    hide Run;
    RunNone(w);
    var w1 := Apply(w, Begin(c, work));
    var w2 := Apply(w1, Lock(c));
    RunThen(w, [], w, Begin(c, work));
    RunThen(w, [] + [Begin(c, work)], w1, Lock(c));
    var v := w.(mtx := Caller(c));
    assert w.producer + work[..0] == w.producer && w.submitted + work[..0] == w.submitted;
    assert w2 == Pushed(v, c, work, 0);
    PushRun(v, c, work, |work|);
    steps := [] + [Begin(c, work)] + [Lock(c)] + seq(|work|, i => Push(c));
    RunAppend(w, [] + [Begin(c, work)] + [Lock(c)], w2, seq(|work|, i => Push(c)), Pushed(v, c, work, |work|));
  }

  lemma AddWorkRun(w: Worker, c: nat, work: seq<Task>) returns (steps: seq<Step>)
    requires c !in w.calls && w.mtx == Nobody
    ensures Run(w, steps, Added(w, work))
  {
    hide Run;
    steps := LockRun(w, c, work);
    var w3 := Pushed(w.(mtx := Caller(c)), c, work, |work|);
    var w4 := Apply(w3, Count(c));
    var w5 := Apply(w4, Unlock(c));
    RunThen(w, steps, w3, Count(c));
    RunThen(w, steps + [Count(c)], w4, Unlock(c));
    RunThen(w, steps + [Count(c)] + [Unlock(c)], w5, Notify(c));
    steps := steps + [Count(c)] + [Unlock(c)] + [Notify(c)];
    assert work[..|work|] == work;
    assert Apply(w5, Notify(c)).calls == w.calls;
    assert Apply(w5, Notify(c)) == Added(w, work);
  }

  lemma FreshReachable(pipe: bool)
    ensures Reachable(Fresh(pipe))
  {
    assert Run(Fresh(pipe), [], Fresh(pipe));
  }

  lemma ReachableRun(w: Worker, steps: seq<Step>, w': Worker)
    requires Reachable(w) && Run(w, steps, w') && w'.pipe == w.pipe
    ensures Reachable(w')
  {
    var before: seq<Step> :| Run(Fresh(w.pipe), before, w);
    RunAppend(Fresh(w.pipe), before, w, steps, w');
  }

  /** The bound is exact: one AddWork call with 2^32 tasks brings the counter back to where it was,
      so the server reads the token, sees nothing to do, and sleeps on a full queue. */
  lemma LostWakeUp() returns (w: Worker)
    ensures Reachable(w) && Asleep(w) && |w.producer| == WORD && w.executed == []
  {
    hide Run;
    var work := seq(WORD, (i: nat) => Task(0, i));
    w := Fresh(true);
    FreshReachable(true);
    var steps := AddWorkRun(w, 0, work);
    ReachableRun(w, steps, Added(w, work));
    w := Added(w, work);
    RunNone(w);
    RunThen(w, [], w, Wake);
    RunThen(w, [] + [Wake], Apply(w, Wake), Check);
    ReachableRun(w, [] + [Wake] + [Check], Apply(Apply(w, Wake), Check));
    w := Apply(Apply(w, Wake), Check);
  }

  // ---------------------------------------------------------------- progress

  /** How many steps the server can take on its own, at most. */
  function Rank(w: Worker): nat {
    6 * w.tokens + |w.producer| + |w.consumer| +
    match w.server
    case Blocked => 0
    case Checking => 5
    case Locking => 4
    case Collecting => 3
    case Unlocking => 2
    case Running => 1
  }

  lemma ServerStepLowersRank(w: Worker, s: Step)
    requires w.pipe && Enabled(w, s) && IsServerStep(s)
    ensures Rank(Apply(w, s)) < Rank(w)
    ensures Apply(w, s).pipe && Apply(w, s).submitted == w.submitted && Apply(w, s).calls == w.calls
    ensures Apply(w, s).mtx.Caller? ==> w.mtx == Apply(w, s).mtx
  {
  }

  /** Left to itself the server always stops, after at most Rank steps, whatever it does. */
  lemma {:induction false} ServerRunsAreBounded(w: Worker, steps: seq<Step>, w': Worker)
    requires w.pipe && Run(w, steps, w') && forall s <- steps :: IsServerStep(s)
    ensures |steps| + Rank(w') <= Rank(w)
    decreases |steps|
  {
    if steps != [] {
      ServerStepLowersRank(w, steps[0]);
      ServerRunsAreBounded(Apply(w, steps[0]), steps[1..], w');
    }
  }

  function NextServerStep(w: Worker): Step {
    match w.server
    case Blocked => Wake
    case Checking => Check
    case Locking => ServerLock
    case Collecting => Collect
    case Unlocking => ServerUnlock
    case Running => if w.consumer != [] then RunTask else Idle
  }

  /** When no call holds the mutex or has yet to notify, the server is stuck only when asleep. */
  lemma ServerStuckIffAsleep(w: Worker)
    requires MutexInv(w) && w.pipe && !InFlight(w)
    ensures Enabled(w, NextServerStep(w)) <==> !Asleep(w)
    ensures Asleep(w) <==> forall s: Step | IsServerStep(s) :: !Enabled(w, s)
  {
    if !Asleep(w) {
      assert IsServerStep(NextServerStep(w));
    }
  }

  /** Every run of the server alone, once it can go no further, has executed all submitted tasks
      if fewer than 2^32 were queued. */
  lemma ServerRunsDrain(w: Worker, steps: seq<Step>, w': Worker)
    requires Reachable(w) && w.pipe && !InFlight(w) && |w.producer| < WORD
    requires Run(w, steps, w') && (forall s <- steps :: IsServerStep(s))
    requires forall s: Step | IsServerStep(s) :: !Enabled(w', s)
    ensures w'.executed == w.submitted
  {
    ReachableInv(w);
    RunKeepsInv(w, steps, w');
    ServerRunKeeps(w, steps, w');
    ServerStuckIffAsleep(w');
    MultipleFromCount(w'.consumerNum, |w'.producer|);
    assert w'.executed + w'.producer == w'.submitted;
  }

  lemma {:induction false} ServerRunKeeps(w: Worker, steps: seq<Step>, w': Worker)
    requires Inv(w) && w.pipe && !InFlight(w) && Run(w, steps, w') && forall s <- steps :: IsServerStep(s)
    ensures w'.pipe && !InFlight(w') && w'.submitted == w.submitted && |w'.producer| <= |w.producer|
    decreases |steps|
  {
    if steps != [] {
      var v := Apply(w, steps[0]);
      ServerStepLowersRank(w, steps[0]);
      RunKeepsInv(w, [steps[0]], v);
      ServerRunKeeps(v, steps[1..], w');
    }
  }

  // ---------------------------------------------------------------- several workers

  function OfTag(tasks: seq<Task>, tag: nat): seq<Task> {
    if tasks == [] then []
    else OfTag(tasks[..|tasks| - 1], tag) + if tasks[|tasks| - 1].tag == tag then [tasks[|tasks| - 1]] else []
  }

  /** All workers, with every task pushed and every task run, anywhere, in order. */
  datatype System = System(workers: seq<Worker>, pushed: seq<Task>, ran: seq<Task>)

  datatype Move = Move(worker: nat, step: Step)

  /** AddWork sends a task to the worker given by its tag; work without a tag goes to worker 0. */
  function Route(tag: nat, workers: nat): nat
    requires workers > 0
  {
    tag % workers
  }

  ghost predicate DifferBy(a: nat, b: nat, n: nat, k: int) {
    a - b == n * k
  }

  /** Two tags share a worker if and only if they differ by a multiple of the number of workers, and
      the first tags each have a worker of their own. */
  lemma RouteIff(a: nat, b: nat, workers: nat)
    requires workers > 0
    ensures Route(a, workers) < workers && (a < workers ==> Route(a, workers) == a)
    ensures Route(a, workers) == Route(b, workers) <==> exists k: int :: DifferBy(a, b, workers, k)
  {
    var p, q := a / workers, b / workers;
    var d := Route(a, workers) - Route(b, workers);
    assert a - b == workers * (p - q) + d;
    if d == 0 {
      assert DifferBy(a, b, workers, p - q);
    } else if k: int :| DifferBy(a, b, workers, k) {
      hide Route;
      Distribute(workers, k, p - q);
      NotBetween(workers, k - (p - q), d);
    }
  }

  lemma Distribute(n: nat, a: int, b: int)
    ensures n * (a - b) == n * a - n * b
  {
  }

  lemma MultipleSize(n: nat, k: int)
    ensures k >= 1 ==> n * k >= n
    ensures k <= -1 ==> n * k + n <= 0
  {
    assert n * (k - 1) == n * k - n && n * (k + 1) == n * k + n;
  }

  lemma NotBetween(n: nat, k: int, r: int)
    requires n * k == r && r < n && 0 < r + n
    ensures r == 0
  {
    MultipleSize(n, k);
  }

  ghost predicate RoutedTo(tasks: seq<Task>, worker: nat, workers: nat)
    requires workers > 0
  {
    forall t <- tasks :: Route(t.tag, workers) == worker
  }

  ghost predicate SystemEnabled(y: System, m: Move) {
    && m.worker < |y.workers|
    && Enabled(y.workers[m.worker], m.step)
    && (m.step.Begin? ==> RoutedTo(m.step.work, m.worker, |y.workers|))
  }

  ghost function SystemApply(y: System, m: Move): System
    requires SystemEnabled(y, m)
  {
    var w := y.workers[m.worker];
    var w' := Apply(w, m.step);
    System(y.workers[m.worker := w'],
           if m.step.Push? then y.pushed + [w'.submitted[|w.submitted|]] else y.pushed,
           if m.step.RunTask? then y.ran + [w'.executed[|w.executed|]] else y.ran)
  }

  ghost predicate SystemRun(y: System, moves: seq<Move>, y': System)
    decreases |moves|
  {
    if moves == [] then y' == y
    else SystemEnabled(y, moves[0]) && SystemRun(SystemApply(y, moves[0]), moves[1..], y')
  }

  ghost predicate WorkerRouted(w: Worker, i: nat, n: nat)
    requires n > 0
  {
    && Conserved(w) && ConsumerInv(w)
    && RoutedTo(w.submitted, i, n)
    && forall c <- w.calls :: (w.calls[c].Waiting? || w.calls[c].Pushing?) ==> RoutedTo(w.calls[c].work, i, n)
  }

  ghost predicate SystemInv(y: System, n: nat) {
    && n == |y.workers| > 0
    && (forall i :: 0 <= i < n ==> WorkerRouted(y.workers[i], i, n))
    && forall tag: nat :: TagInv(y, tag)
  }

  ghost predicate TagInv(y: System, tag: nat)
    requires |y.workers| > 0
  {
    var w := y.workers[Route(tag, |y.workers|)];
    OfTag(y.pushed, tag) == OfTag(w.submitted, tag) && OfTag(y.ran, tag) == OfTag(w.executed, tag)
  }

  lemma OfTagSnoc(tasks: seq<Task>, t: Task, tag: nat)
    ensures OfTag(tasks + [t], tag) == OfTag(tasks, tag) + if t.tag == tag then [t] else []
  {
    assert (tasks + [t])[..|tasks|] == tasks;
  }

  lemma {:induction false} OfTagPrefix(a: seq<Task>, b: seq<Task>, tag: nat)
    requires a <= b
    ensures OfTag(a, tag) <= OfTag(b, tag)
  {
    if |a| < |b| {
      OfTagPrefix(a, b[..|b| - 1], tag);
    } else {
      assert a == b;
    }
  }

  lemma MoveKeepsRouting(w: Worker, s: Step, i: nat, n: nat)
    requires n > 0 && WorkerRouted(w, i, n) && Enabled(w, s)
    requires s.Begin? ==> RoutedTo(s.work, i, n)
    ensures WorkerRouted(Apply(w, s), i, n)
  {
    StepConserves(w, s);
  }

  lemma RunTaskRoutes(w: Worker, i: nat, n: nat)
    requires n > 0 && WorkerRouted(w, i, n) && w.consumer != []
    ensures Route(w.consumer[0].tag, n) == i
  {
    assert w.submitted[|w.executed|] == w.consumer[0];
  }

  lemma MoveKeepsTag(y: System, m: Move, tag: nat)
    requires SystemInv(y, |y.workers|) && SystemEnabled(y, m)
    ensures TagInv(SystemApply(y, m), tag)
  {
    hide OfTag;
    var n, w, y' := |y.workers|, y.workers[m.worker], SystemApply(y, m);
    var w' := Apply(w, m.step);
    assert TagInv(y, tag);
    if m.step.Push? {
      var Pushing(work, done) := w.calls[m.step.call];
      OfTagSnoc(y.pushed, work[done], tag);
      OfTagSnoc(w.submitted, work[done], tag);
      assert Route(work[done].tag, n) == m.worker;
    } else if m.step.RunTask? {
      RunTaskRoutes(w, m.worker, n);
      OfTagSnoc(y.ran, w.consumer[0], tag);
      OfTagSnoc(w.executed, w.consumer[0], tag);
    } else {
      assert w'.submitted == w.submitted && w'.executed == w.executed;
    }
  }

  lemma {:induction false} SystemRunKeepsInv(y: System, moves: seq<Move>, y': System, n: nat)
    requires SystemInv(y, n) && SystemRun(y, moves, y')
    ensures SystemInv(y', n)
    decreases |moves|
  {
    if moves != [] {
      var m := moves[0];
      var y1 := SystemApply(y, m);
      MoveKeepsRouting(y.workers[m.worker], m.step, m.worker, n);
      forall tag: nat
        ensures TagInv(y1, tag)
      {
        MoveKeepsTag(y, m, tag);
      }
      SystemRunKeepsInv(y1, moves[1..], y', n);
    }
  }

  function FreshSystem(n: nat, pipe: bool): System {
    System(seq(n, i => Fresh(pipe)), [], [])
  }

  lemma FreshSystemInv(n: nat, pipe: bool)
    requires n > 0
    ensures SystemInv(FreshSystem(n, pipe), n)
  {
  }

  lemma ExecutedIsPrefix(w: Worker)
    requires Conserved(w)
    ensures w.executed <= w.submitted
  {
    assert w.executed + (w.consumer + w.producer) == w.submitted;
  }

  /** With any number of workers, the tasks of one tag run in the order they were submitted, each
      once, and those that have not run yet are the last ones submitted. */
  lemma SameTagInOrder(n: nat, pipe: bool, moves: seq<Move>, y: System, tag: nat)
    requires n > 0 && SystemRun(FreshSystem(n, pipe), moves, y)
    ensures OfTag(y.ran, tag) <= OfTag(y.pushed, tag)
  {
    FreshSystemInv(n, pipe);
    SystemRunKeepsInv(FreshSystem(n, pipe), moves, y, n);
    assert TagInv(y, tag);
    var w := y.workers[Route(tag, n)];
    ExecutedIsPrefix(w);
    OfTagPrefix(w.executed, w.submitted, tag);
  }

  // ---------------------------------------------------------------- the object

  /** What one pass of the server loop does when nothing else runs. */
  function Served(w: Worker): Worker
    requires w.pipe ==> w.tokens > 0
  {
    var w1 := w.(tokens := if w.pipe then w.tokens - 1 else 0);
    if w.producerNum == w.consumerNum then w1
    else w1.(consumerNum := w.producerNum, executed := w.executed + w.producer, producer := [])
  }

  lemma {:induction false} DrainRun(w: Worker) returns (steps: seq<Step>)
    requires w.server == Running
    ensures Run(w, steps, w.(executed := w.executed + w.consumer, consumer := [], server := Blocked))
    decreases |w.consumer|
  {
    if w.consumer == [] {
      steps := [Idle];
      assert w.executed + w.consumer == w.executed;
      assert Run(Apply(w, Idle), steps[1..], Apply(w, Idle));
    } else {
      var v := Apply(w, RunTask);
      var rest := DrainRun(v);
      assert v.executed + v.consumer == w.executed + w.consumer;
      steps := [RunTask] + rest;
      assert steps[1..] == rest;
    }
  }

  lemma CollectRun(w: Worker) returns (steps: seq<Step>)
    requires w.server == Locking && w.mtx == Nobody && w.consumer == []
    ensures Run(w, steps, w.(consumerNum := w.producerNum, executed := w.executed + w.producer, producer := [],
                             server := Blocked))
  {
    hide Run;
    RunNone(w);
    var w1 := Apply(w, ServerLock);
    var w2 := Apply(w1, Collect);
    var w3 := Apply(w2, ServerUnlock);
    var rest := DrainRun(w3);
    RunThen(w, [], w, ServerLock);
    RunThen(w, [] + [ServerLock], w1, Collect);
    RunThen(w, [] + [ServerLock] + [Collect], w2, ServerUnlock);
    var first := [] + [ServerLock] + [Collect] + [ServerUnlock];
    steps := first + rest;
    RunAppend(w, first, w3, rest,
              w3.(executed := w3.executed + w3.consumer, consumer := [], server := Blocked));
  }

  lemma ServeRun(w: Worker) returns (steps: seq<Step>)
    requires w.server == Blocked && w.mtx == Nobody && w.consumer == [] && (w.pipe ==> w.tokens > 0)
    requires !w.pipe ==> w.tokens == 0
    ensures Run(w, steps, Served(w))
  {
    hide Run;
    RunNone(w);
    var w1 := Apply(w, Wake);
    var w2 := Apply(w1, Check);
    RunThen(w, [], w, Wake);
    RunThen(w, [] + [Wake], w1, Check);
    steps := [] + [Wake] + [Check];
    if w.producerNum != w.consumerNum {
      var rest := CollectRun(w2);
      RunAppend(w, steps, w2, rest, Served(w));
      steps := steps + rest;
    }
  }

  /** The worker with each method run to completion.  Both methods are runs of the protocol. */
  class WorkerThread {
    const pipe: bool
    var tasksProducer: seq<Task>
    var tasksConsumer: seq<Task>
    var producerNum: nat
    var consumerNum: nat
    var tokens: nat
    var executed: seq<Task>
    ghost var submitted: seq<Task>

    ghost function Model(): Worker
      reads this
    {
      Worker(pipe, Nobody, tasksProducer, tasksConsumer, producerNum, consumerNum, tokens, map[], Blocked,
             executed, submitted)
    }

    constructor (pipe: bool)
      ensures this.pipe == pipe && Model() == Fresh(pipe)
    {
      this.pipe := pipe;
      tasksProducer, tasksConsumer, producerNum, consumerNum, tokens, executed := [], [], 0, 0, 0, [];
      submitted := [];
    }

    method AddWork(work: seq<Task>) returns (ghost steps: seq<Step>)
      requires !pipe ==> tokens == 0
      modifies this
      ensures Model() == Added(old(Model()), work)
      ensures Run(old(Model()), steps, Model())
    {
      hide Run, Apply, Enabled;
      steps := AddWorkRun(Model(), 0, work);
      for i := 0 to |work|
        invariant tasksProducer == old(tasksProducer) + work[..i]
        invariant unchanged(`tasksConsumer) && unchanged(`producerNum) && unchanged(`consumerNum)
        invariant unchanged(`tokens) && unchanged(`executed) && unchanged(`submitted)
      {
        assert work[..i + 1] == work[..i] + [work[i]];
        tasksProducer := tasksProducer + [work[i]];
      }
      assert work[..|work|] == work;
      producerNum := (producerNum + |work|) % WORD;
      if pipe {
        tokens := tokens + 1;
      }
      submitted := submitted + work;
    }

    method ServeOnce() returns (ghost steps: seq<Step>)
      requires tasksConsumer == [] && (pipe ==> tokens > 0) && (!pipe ==> tokens == 0)
      modifies this
      ensures Model() == Served(old(Model()))
      ensures Run(old(Model()), steps, Model())
    {
      hide Run, Apply, Enabled;
      steps := ServeRun(Model());
      if pipe {
        tokens := tokens - 1;
      }
      if producerNum != consumerNum {
        consumerNum := producerNum;
        if tasksProducer != [] {
          tasksConsumer, tasksProducer := tasksProducer, tasksConsumer;
          label Swapped:
          while tasksConsumer != []
            invariant executed + tasksConsumer == old@Swapped(executed) + old@Swapped(tasksConsumer)
            invariant tasksProducer == [] && producerNum == consumerNum == old(producerNum)
            invariant tokens == old@Swapped(tokens) && submitted == old(submitted)
            decreases |tasksConsumer|
          {
            var work := tasksConsumer[0];
            assert executed + tasksConsumer == (executed + [work]) + tasksConsumer[1..];
            tasksConsumer := tasksConsumer[1..];
            executed := executed + [work];
          }
        }
      }
    }
  }
}
