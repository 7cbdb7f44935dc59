/** The orchestrator of the data processing system: it creates the queue and
    the collector, generates its tasks, closes the queue, starts the workers,
    waits for all of them and reports. Threads are not modelled: the workers'
    atomic actions are interleaved in an arbitrary order given by `turns`,
    after which joining the workers one by one lets each run to its exit
    (one of the interleavings the real threads can take). */
module DataProcessingSystem {
  import opened Wrappers
  import opened Strings
  import opened Tasks
  import opened Results
  import opened TaskQueues
  import opened ResultsCollectors
  import opened WorkerThreads

  const NUM_WORKER_THREADS: nat := 4
  const NUM_TASKS: nat := 15

  /** The six data types one of which `generateRandomData` picks at random. */
  datatype DataKind = Text | Number | Image | Video | Audio | Document

  /** The name of a data type: ASCII letters, no `-` separator. */
  function KindName(kind: DataKind): (name: string)
    ensures |name| >= 4 && IsAscii(name)
    ensures forall k :: 0 <= k < |name| ==> name[k] != '-' && !IsDigit(name[k])
  {
    match kind
    case Text => "Text"
    case Number => "Number"
    case Image => "Image"
    case Video => "Video"
    case Audio => "Audio"
    case Document => "Document"
  }

  /** The data of task `i`: `"Data-" + i + "-"` and a data type name. */
  function TaskData(i: nat, kind: DataKind): (data: string)
    ensures |data| > 5 && IsAscii(data) && data[..5] == "Data-"
  {
    assert forall k :: 0 <= k < |NatToString(i)| ==> NatToString(i)[k] as int < 128;
    "Data-" + NatToString(i) + "-" + KindName(kind)
  }

  /** The data string names its task: the digits after `Data-` up to the
      next `-` denote the id, and the rest is the data type's name. */
  lemma TaskDataNamesTask(i: nat, kind: DataKind)
    ensures var data, digits := TaskData(i, kind), NatToString(i);
      && (forall k :: 5 <= k < 5 + |digits| ==> IsDigit(data[k]))
      && DigitsValue(data[5..5 + |digits|]) == i
      && data[5 + |digits|] == '-'
      && data[6 + |digits|..] == KindName(kind)
  {
    var data, digits := TaskData(i, kind), NatToString(i);
    assert data[5..5 + |digits|] == digits;
    NatToStringValue(i);
  }

  /** The six names are pairwise different. */
  lemma KindNameInjective(kind: DataKind, kind': DataKind)
    ensures KindName(kind) == KindName(kind') <==> kind == kind'
  {
    if KindName(kind) == KindName(kind') {
      var name := KindName(kind);
      assert name[..2] == KindName(kind')[..2];
    }
  }

  /** Different tasks get different data: id and data type can be read back. */
  lemma TaskDataInjective(i: nat, kind: DataKind, j: nat, kind': DataKind)
    ensures TaskData(i, kind) == TaskData(j, kind') <==> i == j && kind == kind'
  {
    var d, d' := TaskData(i, kind), TaskData(j, kind');
    if d == d' {
      var digits, digits' := NatToString(i), NatToString(j);
      TaskDataNamesTask(i, kind);
      TaskDataNamesTask(j, kind');
      assert |digits| == |digits'|;
      assert d[5..5 + |digits|] == d'[5..5 + |digits'|];
      assert i == j;
      assert d[6 + |digits|..] == d'[6 + |digits'|..];
      KindNameInjective(kind, kind');
    }
  }

  /** Tasks that `generateTasks` builds for ids 1..n, in enqueue order; the
      random data type of task i is `pick(i)`. */
  function Generated(n: nat, pick: nat -> DataKind): (tasks: seq<Task>)
    ensures |tasks| == n
    ensures forall k :: 0 <= k < n ==>
              tasks[k].taskId == k + 1 && tasks[k].priority == (k + 1) % 3 &&
              tasks[k].data == TaskData(k + 1, pick(k + 1)) && IsAscii(tasks[k].data)
  {
    var tasks := seq(n, k requires 0 <= k < n => NewTaskWithPriority(k + 1, TaskData(k + 1, pick(k + 1)), (k + 1) % 3));
    assert forall k :: 0 <= k < n ==> tasks[k].data == TaskData(k + 1, pick(k + 1));
    tasks
  }

  ghost predicate Distinct(s: seq<int>) {
    forall i, j :: 0 <= i < j < |s| ==> s[i] != s[j]
  }

  /** The generated ids are 1..n, increasing, hence pairwise distinct. */
  lemma GeneratedIds(n: nat, pick: nat -> DataKind)
    ensures Ids(Generated(n, pick)) == seq(n, k => k + 1)
    ensures Distinct(Ids(Generated(n, pick)))
  {
  }

  /** Enqueues tasks 1..numTasks with priority `i % 3`. A failed enqueue is
      caught and reported, and generation continues with the next id. */
  method GenerateTasks(taskQueue: SharedTaskQueue, numTasks: int, pick: nat -> DataKind)
    modifies taskQueue
    ensures taskQueue.isClosed == old(taskQueue.isClosed)
    ensures taskQueue.queue == if old(taskQueue.isClosed) then old(taskQueue.queue)
                               else old(taskQueue.queue) + Generated(if numTasks < 0 then 0 else numTasks, pick)
  {
    var i := 1;
    while i <= numTasks
      invariant if numTasks < 0 then i == 1 else 1 <= i <= numTasks + 1
      invariant taskQueue.isClosed == old(taskQueue.isClosed)
      invariant taskQueue.queue == if old(taskQueue.isClosed) then old(taskQueue.queue)
                                   else old(taskQueue.queue) + Generated(i - 1, pick)
    {
      var taskData := TaskData(i, pick(i));
      var task := NewTaskWithPriority(i, taskData, i % 3);
      var outcome := taskQueue.AddTask(Some(task), false);
      assert Generated(i, pick) == Generated(i - 1, pick) + [task];
      // IllegalStateException or NullPointerException: reported, loop goes on
      i := i + 1;
    }
  }

  // ---------------------------------------------------------------------
  // The report of displayResults

  /** `NoResults` is the early return with a warning; otherwise the per-worker
      counts for ids 1..numWorkers and the verdict `actual == expected`. */
  datatype Report =
    | NoResults(expected: int)
    | Summary(expected: int, actual: nat, perWorker: seq<nat>, success: bool)

  /** The number of results produced by worker `workerId`. */
  function CountFor(results: seq<Result>, workerId: int): (count: nat)
  {
    if results == [] then 0
    else CountFor(results[..|results| - 1], workerId) + (if results[|results| - 1].workerId == workerId then 1 else 0)
  }

  /** A worker's count is zero exactly when none of the results is theirs. */
  lemma {:induction false} CountForZero(results: seq<Result>, workerId: int)
    ensures CountFor(results, workerId) == 0 <==> forall k :: 0 <= k < |results| ==> results[k].workerId != workerId
  {
    if results != [] {
      var init := results[..|results| - 1];
      CountForZero(init, workerId);
      assert forall k :: 0 <= k < |init| ==> init[k] == results[k];
    }
  }

  /** The per-worker counts for worker ids 1..numWorkers. */
  function Counts(results: seq<Result>, numWorkers: nat): (counts: seq<nat>)
    ensures |counts| == numWorkers
  {
    seq(numWorkers, w => CountFor(results, w + 1))
  }

  function Total(counts: seq<nat>): nat {
    if counts == [] then 0 else Total(counts[..|counts| - 1]) + counts[|counts| - 1]
  }

  ghost predicate WorkerIdsIn(results: seq<Result>, numWorkers: nat) {
    forall r :: r in results ==> 1 <= r.workerId <= numWorkers
  }

  lemma {:induction false} TotalBump(counts: seq<nat>, i: nat)
    requires i < |counts|
    ensures Total(counts[i := counts[i] + 1]) == Total(counts) + 1
  {
    var c' := counts[i := counts[i] + 1];
    if i < |counts| - 1 {
      assert c'[..|c'| - 1] == counts[..|counts| - 1][i := counts[i] + 1];
      TotalBump(counts[..|counts| - 1], i);
    } else {
      assert c'[..|c'| - 1] == counts[..|counts| - 1];
    }
  }

  /** When every result comes from a worker with an id in 1..numWorkers, the
      per-worker counts add up to the number of results. */
  lemma {:induction false} CountsAddUp(results: seq<Result>, numWorkers: nat)
    requires WorkerIdsIn(results, numWorkers)
    ensures Total(Counts(results, numWorkers)) == |results|
  {
    if results == [] {
      var zeros := Counts(results, numWorkers);
      ZerosTotal(zeros);
    } else {
      var init := results[..|results| - 1];
      var r := results[|results| - 1];
      assert forall x :: x in init ==> x in results;
      CountsAddUp(init, numWorkers);
      assert Counts(results, numWorkers) == Counts(init, numWorkers)[r.workerId - 1 := Counts(init, numWorkers)[r.workerId - 1] + 1];
      TotalBump(Counts(init, numWorkers), r.workerId - 1);
    }
  }

  lemma {:induction false} ZerosTotal(counts: seq<nat>)
    requires forall k :: 0 <= k < |counts| ==> counts[k] == 0
    ensures Total(counts) == 0
  {
    if counts != [] {
      ZerosTotal(counts[..|counts| - 1]);
    }
  }

  /** displayResults: read a copy of the results, return early on none, count
      per worker id 1..numWorkers, and compare the count with the expected
      number of tasks. */
  method DisplayResults(resultsCollector: ResultsCollector, expectedTasks: int, numWorkers: nat) returns (report: Report)
    ensures report.expected == expectedTasks
    ensures report.NoResults? <==> resultsCollector.results == []
    ensures report.Summary? ==>
              && report.actual == |resultsCollector.results|
              && report.perWorker == Counts(resultsCollector.results, numWorkers)
              && (report.success <==> |resultsCollector.results| == expectedTasks)
  {
    var results := resultsCollector.GetResults();
    var actualResults := |results|;
    if actualResults == 0 {
      return NoResults(expectedTasks);
    }
    var perWorker: seq<nat> := [];
    var workerId := 1;
    while workerId <= numWorkers
      invariant 1 <= workerId <= numWorkers + 1
      invariant |perWorker| == workerId - 1
      invariant forall w :: 0 <= w < |perWorker| ==> perWorker[w] == CountFor(results, w + 1)
    {
      var count := 0;
      for k := 0 to |results|
        invariant count == CountFor(results[..k], workerId)
      {
        assert results[..k + 1][..k] == results[..k];
        if results[k].workerId == workerId {
          count := count + 1;
        }
      }
      assert results[..|results|] == results;
      perWorker := perWorker + [count];
      workerId := workerId + 1;
    }
    report := Summary(expectedTasks, actualResults, perWorker, actualResults == expectedTasks);
  }

  // ---------------------------------------------------------------------
  // Running the workers

  /** One action of the worker with index `worker` (its id is worker + 1). */
  datatype Turn = Turn(worker: nat, event: Event)

  ghost predicate ProceedOnly(turns: seq<Turn>) {
    forall t :: 0 <= t < |turns| ==> turns[t].event.Proceed?
  }

  /** The ids of a sequence of tasks, as a bag. */
  ghost function Bag(ts: seq<Task>): multiset<int> {
    multiset(Ids(ts))
  }

  /** The ids of tasks that workers hold between dequeue and completion. */
  ghost function HeldBag(phases: seq<Phase>): multiset<int> {
    if phases == [] then multiset{}
    else HeldBag(phases[..|phases| - 1]) + Bag(InFlight(phases[|phases| - 1]))
  }

  /** Every generated id is pending, held, the origin of a result, or lost. */
  ghost predicate Accounted(whole: multiset<int>, pending: seq<Task>, phases: seq<Phase>,
                            results: seq<Result>, lost: seq<Task>) {
    whole == Bag(pending) + HeldBag(phases) + multiset(TaskIds(results)) + Bag(lost)
  }

  /** Nothing lost, and once any worker has exited the queue is empty. */
  ghost predicate Smooth(pending: seq<Task>, phases: seq<Phase>, lost: seq<Task>) {
    lost == [] && forall j :: 0 <= j < |phases| && phases[j] == Exited ==> pending == []
  }

  /** Worker j has id j + 1 and shares the system's queue and collector. */
  ghost predicate Wired(workers: seq<WorkerThread>, taskQueue: SharedTaskQueue, resultsCollector: ResultsCollector) {
    forall j :: 0 <= j < |workers| ==>
      workers[j].workerId == j + 1 && workers[j].taskQueue == taskQueue && workers[j].resultsCollector == resultsCollector
  }

  lemma {:induction false} HeldUpdate(phases: seq<Phase>, i: nat, p: Phase)
    requires i < |phases|
    ensures HeldBag(phases[i := p]) + Bag(InFlight(phases[i])) == HeldBag(phases) + Bag(InFlight(p))
  {
    var last := |phases| - 1;
    var updated := phases[i := p];
    var init := phases[..last];
    if i < last {
      assert updated[..last] == init[i := p];
      assert updated[last] == phases[last];
      assert init[i] == phases[i];
      HeldUpdate(init, i, p);
      AddSame(HeldBag(updated), HeldBag(init[i := p]), HeldBag(phases), HeldBag(init),
              Bag(InFlight(phases[last])), Bag(InFlight(phases[i])), Bag(InFlight(p)));
    } else {
      assert updated[..last] == init;
    }
  }

  lemma AddSame(u: multiset<int>, u0: multiset<int>, w: multiset<int>, w0: multiset<int>,
                t: multiset<int>, a: multiset<int>, b: multiset<int>)
    requires u == u0 + t && w == w0 + t && u0 + a == w0 + b
    ensures u + a == w + b
  {
    forall x
      ensures (u + a)[x] == (w + b)[x]
    {
      assert (u0 + a)[x] == (w0 + b)[x];
    }
  }

  /** Bag arithmetic behind `StepAccounted`, count by count. */
  lemma Rebalance(whole: multiset<int>, q: multiset<int>, h: multiset<int>, r: multiset<int>, l: multiset<int>,
                  a: multiset<int>, b: multiset<int>, q': multiset<int>, h': multiset<int>,
                  e: multiset<int>, d: multiset<int>)
    requires whole == q + h + r + l
    requires a + q == b + q' + e + d
    requires h' + a == h + b
    ensures whole == q' + h' + (r + e) + (l + d)
  {
    forall x
      ensures whole[x] == (q' + h' + (r + e) + (l + d))[x]
    {
      assert (a + q)[x] == (b + q' + e + d)[x];
      assert (h' + a)[x] == (h + b)[x];
    }
  }

  lemma {:induction false} NoneHeld(phases: seq<Phase>)
    requires forall j :: 0 <= j < |phases| ==> !phases[j].Processing?
    ensures HeldBag(phases) == multiset{}
  {
    if phases != [] {
      NoneHeld(phases[..|phases| - 1]);
      assert InFlight(phases[|phases| - 1]) == [];
      assert Ids([]) == [];
    }
  }

  /** The accounting survives worker i moving to `next` while the queue goes
      from `pending` to `pending'`, `emitted` is appended to the results and
      `dropped` is lost, provided the action itself conserves. */
  lemma StepAccounted(whole: multiset<int>, pending: seq<Task>, phases: seq<Phase>, i: nat,
                      results: seq<Result>, lost: seq<Task>,
                      next: Phase, pending': seq<Task>, emitted: seq<Result>, dropped: seq<Task>)
    requires i < |phases|
    requires Accounted(whole, pending, phases, results, lost)
    requires Bag(InFlight(phases[i]) + pending)
             == Bag(InFlight(next) + pending') + multiset(TaskIds(emitted)) + Bag(dropped)
    ensures Accounted(whole, pending', phases[i := next], results + emitted, lost + dropped)
  {
    IdsAppend(InFlight(phases[i]), pending);
    IdsAppend(InFlight(next), pending');
    TaskIdsAppend(results, emitted);
    IdsAppend(lost, dropped);
    HeldUpdate(phases, i, next);
    Rebalance(whole, Bag(pending), HeldBag(phases), multiset(TaskIds(results)), Bag(lost),
              Bag(InFlight(phases[i])), Bag(InFlight(next)), Bag(pending'), HeldBag(phases[i := next]),
              multiset(TaskIds(emitted)), Bag(dropped));
  }

  /** Without faults an action on the closed queue keeps `Smooth`: a worker
      leaves its loop only on an empty queue, which then stays empty. */
  lemma SmoothStep(workerId: int, pending: seq<Task>, phases: seq<Phase>, lost: seq<Task>, i: nat, event: Event)
    requires i < |phases| && event.Proceed? && Smooth(pending, phases, lost)
    ensures var e := Transition(workerId, phases[i], event, pending, true);
      Smooth(e.pending, phases[i := e.next], lost + e.dropped)
  {
    var e := Transition(workerId, phases[i], event, pending, true);
    assert e.dropped == [];
    if e.next == Exited {
      assert e.pending == [];
    } else if pending == [] {
      assert e.pending == [];
    } else {
      assert forall j :: 0 <= j < |phases| ==> phases[j] != Exited;
    }
  }

  /** The workers' actions in the order `turns` gives; a turn naming no
      worker is skipped. */
  method Interleave(workers: seq<WorkerThread>, taskQueue: SharedTaskQueue, resultsCollector: ResultsCollector,
                    phases0: seq<Phase>, turns: seq<Turn>, ghost whole: multiset<int>, ghost lost0: seq<Task>)
    returns (phases: seq<Phase>, ghost lost: seq<Task>)
    requires Wired(workers, taskQueue, resultsCollector) && |phases0| == |workers|
    requires taskQueue.isClosed
    requires Accounted(whole, taskQueue.queue, phases0, resultsCollector.results, lost0)
    requires WorkerIdsIn(resultsCollector.results, |workers|)
    modifies taskQueue, resultsCollector
    ensures taskQueue.isClosed && |phases| == |workers|
    ensures Accounted(whole, taskQueue.queue, phases, resultsCollector.results, lost)
    ensures WorkerIdsIn(resultsCollector.results, |workers|)
    ensures ProceedOnly(turns) && Smooth(old(taskQueue.queue), phases0, lost0) ==> Smooth(taskQueue.queue, phases, lost)
  {
    phases := phases0;
    lost := lost0;
    ghost var faultless := ProceedOnly(turns) && Smooth(taskQueue.queue, phases0, lost0);
    for t := 0 to |turns|
      invariant taskQueue.isClosed && |phases| == |workers|
      invariant Accounted(whole, taskQueue.queue, phases, resultsCollector.results, lost)
      invariant WorkerIdsIn(resultsCollector.results, |workers|)
      invariant faultless ==> Smooth(taskQueue.queue, phases, lost)
    {
      var turn := turns[t];
      if turn.worker < |workers| {
        var worker := workers[turn.worker];
        ghost var pending := taskQueue.queue;
        ghost var prior := resultsCollector.results;
        ghost var e := Transition(worker.workerId, phases[turn.worker], turn.event, pending, true);
        TransitionConserves(worker.workerId, phases[turn.worker], turn.event, pending, true);
        StepAccounted(whole, pending, phases, turn.worker, prior, lost, e.next, e.pending, e.emitted, e.dropped);
        if faultless {
          SmoothStep(worker.workerId, pending, phases, lost, turn.worker, turn.event);
        }
        var next := worker.Step(phases[turn.worker], turn.event);
        phases := phases[turn.worker := next];
        lost := lost + e.dropped;
        assert forall r :: r in prior + e.emitted ==> r in prior || r in e.emitted;
      }
    }
  }

  /** Joining worker j while it has not exited: it runs its loop to the end,
      `events` deciding what happens during each of its actions. */
  method JoinWorker(workers: seq<WorkerThread>, taskQueue: SharedTaskQueue, resultsCollector: ResultsCollector,
                    phases: seq<Phase>, j: nat, events: nat -> Event, ghost whole: multiset<int>, ghost lost0: seq<Task>)
    returns (ghost lost: seq<Task>)
    requires Wired(workers, taskQueue, resultsCollector) && |phases| == |workers| && j < |workers|
    requires phases[j] != Exited && taskQueue.isClosed
    requires Accounted(whole, taskQueue.queue, phases, resultsCollector.results, lost0)
    requires WorkerIdsIn(resultsCollector.results, |workers|)
    modifies taskQueue, resultsCollector
    ensures taskQueue.isClosed
    ensures Accounted(whole, taskQueue.queue, phases[j := Exited], resultsCollector.results, lost)
    ensures WorkerIdsIn(resultsCollector.results, |workers|)
    ensures (forall k :: events(k).Proceed?) && Smooth(old(taskQueue.queue), phases, lost0) ==>
              Smooth(taskQueue.queue, phases[j := Exited], lost)
  {
    ghost var pending := taskQueue.queue;
    ghost var prior := resultsCollector.results;
    ghost var dropped := workers[j].Run(phases[j], events);
    ghost var made := resultsCollector.results[|prior|..];
    SplitAt(resultsCollector.results, |prior|);
    assert InFlight(Exited) + taskQueue.queue == taskQueue.queue;
    StepAccounted(whole, pending, phases, j, prior, lost0, Exited, taskQueue.queue, made, dropped);
    lost := lost0 + dropped;
    assert forall r :: r in prior + made ==> r in prior || r in made;
  }

  /** Joining the workers in id order; `join(j)` decides the events of
      worker j while it is joined. */
  method JoinAll(workers: seq<WorkerThread>, taskQueue: SharedTaskQueue, resultsCollector: ResultsCollector,
                 phases0: seq<Phase>, join: nat -> nat -> Event, ghost whole: multiset<int>, ghost lost0: seq<Task>)
    returns (ghost lost: seq<Task>)
    requires Wired(workers, taskQueue, resultsCollector) && |phases0| == |workers|
    requires taskQueue.isClosed
    requires Accounted(whole, taskQueue.queue, phases0, resultsCollector.results, lost0)
    requires WorkerIdsIn(resultsCollector.results, |workers|)
    modifies taskQueue, resultsCollector
    ensures taskQueue.isClosed
    ensures Accounted(whole, taskQueue.queue, seq(|workers|, _ => Exited), resultsCollector.results, lost)
    ensures WorkerIdsIn(resultsCollector.results, |workers|)
    ensures |workers| >= 1 && (forall i, k :: join(i)(k).Proceed?) && Smooth(old(taskQueue.queue), phases0, lost0) ==>
              taskQueue.queue == [] && lost == []
  {
    var phases := phases0;
    lost := lost0;
    ghost var faultless := (forall i, k :: join(i)(k).Proceed?) && Smooth(taskQueue.queue, phases0, lost0);
    for j := 0 to |workers|
      invariant taskQueue.isClosed && |phases| == |workers|
      invariant forall i :: 0 <= i < j ==> phases[i] == Exited
      invariant Accounted(whole, taskQueue.queue, phases, resultsCollector.results, lost)
      invariant WorkerIdsIn(resultsCollector.results, |workers|)
      invariant faultless ==> Smooth(taskQueue.queue, phases, lost)
    {
      if phases[j] != Exited {
        lost := JoinWorker(workers, taskQueue, resultsCollector, phases, j, join(j), whole, lost);
      } else {
        assert phases[j := Exited] == phases;
      }
      phases := phases[j := Exited];
    }
    assert phases == seq(|workers|, _ => Exited);
    if |workers| >= 1 && faultless {
      assert phases[0] == Exited;
    }
  }

  /** What the accounting gives once every worker has exited: the results'
      ids are among the generated ones, and when the queue is empty and
      nothing was lost they are exactly the generated ones. */
  lemma Settled(whole: multiset<int>, pending: seq<Task>, numWorkers: nat, results: seq<Result>, lost: seq<Task>)
    requires Accounted(whole, pending, seq(numWorkers, _ => Exited), results, lost)
    ensures multiset(TaskIds(results)) <= whole && |results| <= |whole|
    ensures pending == [] && lost == [] ==> whole == multiset(TaskIds(results))
  {
    // |multiset(s)| == |s|: the results' ids are |results| of the |whole| ids
    assert |multiset(TaskIds(results))| == |results|;
    NoneHeld(seq(numWorkers, _ => Exited));
    assert Ids([]) == [];
  }

  lemma SplitAt<T>(s: seq<T>, n: nat)
    requires n <= |s|
    ensures s == s[..n] + s[n..]
  {
  }

  lemma {:induction false} DistinctAtMostOnce(s: seq<int>, x: int)
    requires Distinct(s)
    ensures multiset(s)[x] <= 1
  {
    if s != [] {
      var init := s[..|s| - 1];
      assert s == init + [s[|s| - 1]];
      DistinctAtMostOnce(init, x);
      if s[|s| - 1] == x {
        assert x !in init;
      }
    }
  }

  lemma RepeatCountsTwice(s: seq<int>, i: nat, j: nat)
    requires i < j < |s| && s[i] == s[j]
    ensures multiset(s)[s[i]] >= 2
  {
    assert s == s[..j] + s[j..];
    assert s[i] in s[..j];
    assert s[j] in s[j..];
  }

  /** A sub-bag of a sequence without repetitions has none either. */
  lemma DistinctWithin(s: seq<int>, big: seq<int>)
    requires Distinct(big) && multiset(s) <= multiset(big)
    ensures Distinct(s)
  {
    forall i, j | 0 <= i < j < |s|
      ensures s[i] != s[j]
    {
      if s[i] == s[j] {
        RepeatCountsTwice(s, i, j);
        DistinctAtMostOnce(big, s[i]);
        assert false;
      }
    }
  }

  /** Before any action every task is pending and every worker polls. */
  lemma Initially(pending: seq<Task>, numWorkers: nat)
    ensures Accounted(Bag(pending), pending, seq(numWorkers, _ => Polling), [], [])
    ensures Smooth(pending, seq(numWorkers, _ => Polling), [])
  {
    NoneHeld(seq(numWorkers, _ => Polling));
    assert Ids([]) == [] && TaskIds([]) == [];
  }

  /** Creates workers with ids 1..numWorkers on the shared queue and collector. */
  method StartWorkers(numWorkers: nat, taskQueue: SharedTaskQueue, resultsCollector: ResultsCollector)
    returns (workers: seq<WorkerThread>)
    ensures |workers| == numWorkers && Wired(workers, taskQueue, resultsCollector)
  {
    workers := [];
    var i := 0;
    while i < numWorkers
      invariant i <= numWorkers && |workers| == i
      invariant Wired(workers, taskQueue, resultsCollector)
    {
      var worker := new WorkerThread(i + 1, taskQueue, resultsCollector);
      workers := workers + [worker];
      i := i + 1;
    }
  }

  /** The whole program for `numWorkers` workers and `numTasks` tasks: every
      result comes from one of the workers, no task yields two results, and
      without interruptions or processing failures every task yields exactly
      one result and the run is reported a success. */
  method RunSystem(numWorkers: nat, numTasks: nat, pick: nat -> DataKind, turns: seq<Turn>, join: nat -> nat -> Event)
    returns (report: Report, results: seq<Result>)
    ensures WorkerIdsIn(results, numWorkers)
    ensures multiset(TaskIds(results)) <= multiset(Ids(Generated(numTasks, pick)))
    ensures Distinct(TaskIds(results)) && |results| <= numTasks
    ensures report.expected == numTasks
    ensures report.NoResults? <==> results == []
    ensures report.Summary? ==>
              && report.actual == |results|
              && report.perWorker == Counts(results, numWorkers)
              && Total(report.perWorker) == |results|
              && (report.success <==> |results| == numTasks)
    ensures numWorkers >= 1 && ProceedOnly(turns) && (forall i, k :: join(i)(k).Proceed?) ==>
              && multiset(TaskIds(results)) == multiset(Ids(Generated(numTasks, pick)))
              && |results| == numTasks
              && (numTasks > 0 ==> report.Summary? && report.success)
  {
    var taskQueue := new SharedTaskQueue();
    var resultsCollector := new ResultsCollector();
    GenerateTasks(taskQueue, numTasks, pick);
    taskQueue.Close();
    ghost var generated := Generated(numTasks, pick);
    ghost var whole := Bag(generated);
    var workers := StartWorkers(numWorkers, taskQueue, resultsCollector);
    var phases := seq(numWorkers, _ => Polling);
    Initially(generated, numWorkers);
    assert taskQueue.queue == generated && taskQueue.isClosed;
    assert resultsCollector.results == [];
    assert Accounted(whole, taskQueue.queue, phases, resultsCollector.results, []);
    assert WorkerIdsIn(resultsCollector.results, |workers|);
    ghost var lost;
    phases, lost := Interleave(workers, taskQueue, resultsCollector, phases, turns, whole, []);
    lost := JoinAll(workers, taskQueue, resultsCollector, phases, join, whole, lost);
    results := resultsCollector.GetResults();
    report := DisplayResults(resultsCollector, numTasks, numWorkers);
    CountsAddUp(results, numWorkers);
    Settled(whole, taskQueue.queue, numWorkers, results, lost);
    assert |whole| == numTasks;
    GeneratedIds(numTasks, pick);
    DistinctWithin(TaskIds(results), Ids(generated));
  }

  /** The program as configured: four workers, fifteen tasks. */
  method RunConfigured(pick: nat -> DataKind, turns: seq<Turn>, join: nat -> nat -> Event) returns (report: Report)
    ensures report.expected == NUM_TASKS
    ensures report.Summary? ==> |report.perWorker| == NUM_WORKER_THREADS && report.actual <= NUM_TASKS
    ensures ProceedOnly(turns) && (forall i, k :: join(i)(k).Proceed?) ==>
              report.Summary? && report.actual == NUM_TASKS && report.success && Total(report.perWorker) == NUM_TASKS
  {
    var results;
    report, results := RunSystem(NUM_WORKER_THREADS, NUM_TASKS, pick, turns, join);
  }
}
