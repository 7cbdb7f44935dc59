/** One worker of the pool. The Java thread's `while (true)` loop is cut into
    its atomic actions, each a call of a synchronized method: a worker is
    either about to poll the queue (`Polling`), holds a dequeued task whose
    processing is under way (`Processing`), or has left the loop (`Exited`).
    `Transition` is the specification of one action; `WorkerThread.Step`
    performs it on the shared objects and `WorkerThread.Run` is the loop.
    What the environment does during an action (the random processing time
    and the clock value, or an interrupt, or another exception) is the
    `Event` it receives. */
module WorkerThreads {
  import opened Wrappers
  import opened Strings
  import opened Tasks
  import opened Results
  import opened TaskQueues
  import opened ResultsCollectors

  /** `500 + (int)(Math.random() * 1500)` milliseconds. */
  type ProcessingTime = d: int | 500 <= d < 2000 witness 500

  /** The processed data: a fixed prefix, the upper-cased task data and a
      suffix naming the processing time. */
  function ProcessTask(task: Task, processingTime: ProcessingTime): (processed: string)
    ensures |processed| > 12 + |task.data|
    ensures processed[..12] == "[PROCESSED] "
    ensures processed[12..12 + |task.data|] == ToUpper(task.data)
    ensures forall k :: 12 <= k < 12 + |task.data| ==> !IsLower(processed[k])
    ensures processed[12 + |task.data|..] == " (processed in " + NatToString(processingTime) + "ms)"
  {
    "[PROCESSED] " + ToUpper(task.data) + " (processed in " + NatToString(processingTime) + "ms)"
  }

  /** The processing time can be read back from the processed data: the
      decimal digits between " (processed in " and the closing "ms)". */
  lemma ProcessTaskReportsTime(task: Task, processingTime: ProcessingTime)
    ensures var processed, start := ProcessTask(task, processingTime), 27 + |task.data|;
      && |processed| > start + 3
      && processed[start - 15..start] == " (processed in "
      && processed[|processed| - 3..] == "ms)"
      && (forall k :: start <= k < |processed| - 3 ==> IsDigit(processed[k]))
      && DigitsValue(processed[start..|processed| - 3]) == processingTime
  {
    var processed, start := ProcessTask(task, processingTime), 27 + |task.data|;
    assert processed[start..|processed| - 3] == NatToString(processingTime);
    NatToStringValue(processingTime);
  }

  datatype Phase = Polling | Processing(task: Task) | Exited

  /** What happens while a worker performs one action: processing completes
      after `processingTime` at wall clock `timestamp`, the thread is
      interrupted (while sleeping for work, or while processing), or
      processing throws some other exception. */
  datatype Event = Proceed(processingTime: ProcessingTime, timestamp: int) | Interrupt | Failure

  /** What task a worker holds, if any. */
  function InFlight(phase: Phase): (held: seq<Task>)
    ensures |held| <= 1
    ensures held != [] <==> phase.Processing?
  {
    if phase.Processing? then [phase.task] else []
  }

  /** For the termination argument on a closed queue. */
  function Rank(phase: Phase): nat {
    match phase
    case Polling => 1
    case Processing(_) => 2
    case Exited => 0
  }

  /** The effect of one action: the worker's next phase, the pending tasks
      afterwards, the results it appended and any task it let go without a
      result (logged and dropped). */
  datatype Effect = Effect(next: Phase, pending: seq<Task>, emitted: seq<Result>, dropped: seq<Task>)

  /** Polling: `getTask`, then, on null, the closed-and-empty test and the
      back-off sleep. */
  function Poll(pending: seq<Task>, closed: bool, event: Event): (e: Effect)
    ensures e.emitted == [] && e.dropped == []
    ensures pending != [] ==> e.next == Processing(pending[0]) && e.pending == pending[1..]
    ensures pending == [] ==> e.pending == [] && (e.next == Exited <==> closed || event.Interrupt?)
    ensures e.next != Exited ==> e.next.Processing? || e.next == Polling
  {
    if pending != [] then Effect(Processing(pending[0]), pending[1..], [], [])
    else if closed then Effect(Exited, pending, [], [])   // closed and empty: leave the loop
    else if event.Interrupt? then Effect(Exited, pending, [], [])   // the sleep was interrupted
    else Effect(Polling, pending, [], [])   // back off and retry
  }

  /** Processing `task`: a result on completion; on an interrupt the worker
      tries to put that task back and leaves the loop, but the task is lost
      either way: a closed queue throws IllegalStateException, and on an
      open one `put` sees the interrupt flag the worker has just set again;
      another exception is logged and the loop goes on. */
  function Finish(workerId: int, task: Task, event: Event, pending: seq<Task>): (e: Effect)
    ensures e.emitted != [] <==> event.Proceed?
    ensures e.pending == pending
    ensures event.Proceed? ==> e.next == Polling && e.dropped == [] &&
                               e.emitted == [NewResult(task.taskId, ProcessTask(task, event.processingTime), workerId, event.timestamp)]
    ensures event.Interrupt? ==> e.next == Exited && e.emitted == [] && e.dropped == [task]
    ensures event.Failure? ==> e.next == Polling && e.emitted == [] && e.dropped == [task]
  {
    match event
    case Proceed(d, ts) =>
      Effect(Polling, pending, [NewResult(task.taskId, ProcessTask(task, d), workerId, ts)], [])
    case Interrupt => Effect(Exited, pending, [], [task])
    case Failure => Effect(Polling, pending, [], [task])
  }

  /** One atomic action of worker `workerId` on a queue holding `pending`
      whose close flag is `closed`. */
  function Transition(workerId: int, phase: Phase, event: Event, pending: seq<Task>, closed: bool): (e: Effect)
    // a result carries the dequeued task's id and this worker's id, and is
    // made exactly when processing completes
    ensures |e.emitted| <= 1
    ensures e.emitted != [] <==> phase.Processing? && event.Proceed?
    ensures e.emitted != [] ==> e.emitted[0].taskId == phase.task.taskId && e.emitted[0].workerId == workerId
    // leaving the loop from Polling: the queue was closed and empty, or the
    // back-off sleep was interrupted
    ensures phase.Polling? && e.next == Exited ==> pending == [] && (closed || event.Interrupt?)
    // no other way out of the loop
    ensures e.next == Exited ==> phase == Exited || event.Interrupt? || (pending == [] && closed)
    // empty but open, not interrupted: retry
    ensures phase.Polling? && pending == [] && !closed && !event.Interrupt? ==> e.next == Polling
    // a task is lost exactly when its processing throws or is interrupted
    ensures e.dropped == (if phase.Processing? && !event.Proceed? then [phase.task] else [])
    // the queue never grows: an action either leaves it as it is or takes
    // its head, and only a poll takes the head
    ensures e.pending == pending || (phase.Polling? && pending != [] && e.pending == pending[1..])
    // progress on a closed queue
    ensures closed && phase != Exited ==> 2 * |e.pending| + Rank(e.next) < 2 * |pending| + Rank(phase)
  {
    match phase
    case Exited => Effect(Exited, pending, [], [])
    case Polling => Poll(pending, closed, event)
    case Processing(task) => Finish(workerId, task, event, pending)
  }

  lemma PollConserves(pending: seq<Task>, closed: bool, event: Event)
    ensures var e := Poll(pending, closed, event);
      multiset(Ids(pending)) == multiset(Ids(InFlight(e.next) + e.pending)) &&
      (Ids(pending) == Ids(InFlight(e.next) + e.pending))
  {
    var e := Poll(pending, closed, event);
    if pending != [] {
      assert InFlight(e.next) + e.pending == pending;
    } else {
      assert InFlight(e.next) + e.pending == [];
    }
  }

  lemma FinishConserves(workerId: int, task: Task, event: Event, pending: seq<Task>)
    ensures var e := Finish(workerId, task, event, pending);
      multiset(Ids([task] + pending))
      == multiset(Ids(InFlight(e.next) + e.pending)) + multiset(TaskIds(e.emitted)) + multiset(Ids(e.dropped))
  {
    var e := Finish(workerId, task, event, pending);
    IdsAppend([task], pending);
    assert Ids([task]) == [task.taskId];
    assert Ids([]) == [] && TaskIds([]) == [];
    assert multiset(Ids([task] + pending)) == multiset([task.taskId]) + multiset(Ids(pending));
    if event.Proceed? {
      assert TaskIds(e.emitted) == [task.taskId];
      assert InFlight(e.next) + e.pending == pending && e.dropped == [];
    } else {
      assert InFlight(e.next) + e.pending == pending && e.dropped == [task] && e.emitted == [];
    }
  }

  /** Conservation over one action: every task held or pending before is,
      afterwards, held, pending, the origin of an emitted result, or dropped. */
  lemma TransitionConserves(workerId: int, phase: Phase, event: Event, pending: seq<Task>, closed: bool)
    ensures var e := Transition(workerId, phase, event, pending, closed);
      multiset(Ids(InFlight(phase) + pending))
      == multiset(Ids(InFlight(e.next) + e.pending)) + multiset(TaskIds(e.emitted)) + multiset(Ids(e.dropped))
  {
    assert Ids([]) == [] && TaskIds([]) == [];
    match phase
    case Exited =>
    case Polling =>
      PollConserves(pending, closed, event);
      assert InFlight(phase) + pending == pending;
    case Processing(task) =>
      FinishConserves(workerId, task, event, pending);
  }

  /** Without faults nothing is dropped and order is kept: the ids of the
      emitted results followed by what is still held or pending are the ids
      held or pending before. */
  lemma TransitionKeepsOrder(workerId: int, phase: Phase, event: Event, pending: seq<Task>, closed: bool)
    requires event.Proceed?
    ensures var e := Transition(workerId, phase, event, pending, closed);
      e.dropped == [] && TaskIds(e.emitted) + Ids(InFlight(e.next) + e.pending) == Ids(InFlight(phase) + pending)
  {
    var e := Transition(workerId, phase, event, pending, closed);
    match phase
    case Exited =>
    case Polling =>
      PollConserves(pending, closed, event);
      assert InFlight(phase) + pending == pending;
    case Processing(task) =>
      assert e == Finish(workerId, task, event, pending);
      assert TaskIds(e.emitted) == [task.taskId];
      assert InFlight(e.next) + e.pending == pending;
      IdsAppend([task], pending);
      assert Ids([task]) == [task.taskId];
  }

  /** The loop invariant of `WorkerThread.Run` survives an action with effect
      `e`: `whole` (the ids held or pending at the start) stays accounted for
      by what is held or pending, the results made so far and the ids
      dropped. */
  lemma AccountingStep(phase: Phase, pending: seq<Task>, e: Effect,
                       made: seq<Result>, dropped: seq<Task>, whole: seq<int>, faultless: bool)
    requires multiset(Ids(InFlight(phase) + pending))
             == multiset(Ids(InFlight(e.next) + e.pending)) + multiset(TaskIds(e.emitted)) + multiset(Ids(e.dropped))
    requires faultless ==> e.dropped == [] && TaskIds(e.emitted) + Ids(InFlight(e.next) + e.pending) == Ids(InFlight(phase) + pending)
    requires multiset(whole) == multiset(Ids(InFlight(phase) + pending)) + multiset(TaskIds(made)) + multiset(Ids(dropped))
    requires faultless ==> dropped == [] && TaskIds(made) + Ids(InFlight(phase) + pending) == whole
    ensures multiset(whole) == multiset(Ids(InFlight(e.next) + e.pending)) + multiset(TaskIds(made + e.emitted))
                               + multiset(Ids(dropped + e.dropped))
    ensures faultless ==> dropped + e.dropped == [] &&
                          TaskIds(made + e.emitted) + Ids(InFlight(e.next) + e.pending) == whole
  {
    TaskIdsAppend(made, e.emitted);
    IdsAppend(dropped, e.dropped);
    if faultless {
      assert dropped + e.dropped == [];
      assert TaskIds(made + e.emitted) + Ids(InFlight(e.next) + e.pending)
          == TaskIds(made) + (TaskIds(e.emitted) + Ids(InFlight(e.next) + e.pending));
    }
  }

  lemma SliceOfAppend<T>(a: seq<T>, b: seq<T>, n: nat)
    requires n <= |a|
    ensures (a + b)[n..] == a[n..] + b && (a + b)[..n] == a[..n]
  {
  }

  class WorkerThread {
    const workerId: int
    const taskQueue: SharedTaskQueue
    const resultsCollector: ResultsCollector

    constructor (workerId: int, taskQueue: SharedTaskQueue, resultsCollector: ResultsCollector)
      ensures this.workerId == workerId
      ensures this.taskQueue == taskQueue && this.resultsCollector == resultsCollector
    {
      this.workerId := workerId;
      this.taskQueue := taskQueue;
      this.resultsCollector := resultsCollector;
    }

    /** One atomic action, performed through the shared objects' methods. */
    method Step(phase: Phase, event: Event) returns (next: Phase)
      modifies taskQueue, resultsCollector
      ensures taskQueue.isClosed == old(taskQueue.isClosed)
      ensures var e := Transition(workerId, phase, event, old(taskQueue.queue), old(taskQueue.isClosed));
        next == e.next && taskQueue.queue == e.pending &&
        resultsCollector.results == old(resultsCollector.results) + e.emitted
    {
      match phase
      case Exited =>
        next := Exited;
      case Polling =>
        var task := taskQueue.GetTask();
        if task.None? {
          var closed := taskQueue.IsClosed();
          var empty := taskQueue.IsEmpty();
          if closed && empty {
            next := Exited;
          } else if event.Interrupt? {
            // interrupted while sleeping before the retry
            next := Exited;
          } else {
            next := Polling;
          }
        } else {
          next := Processing(task.value);
        }
      case Processing(task) =>
        match event
        case Proceed(d, ts) =>
          var processedData := ProcessTask(task, d);
          var result := NewResult(task.taskId, processedData, workerId, ts);
          var _ := resultsCollector.AddResult(Some(result));
          next := Polling;
        case Interrupt =>
          // the interrupt flag is set again before the put-back, so an open
          // queue's put throws at once; a closed queue throws
          // IllegalStateException; both are caught and that task is lost
          var _ := taskQueue.AddTask(Some(task), true);
          next := Exited;
        case Failure =>
          // logged; the loop goes on
          next := Polling;
    }

    /** The worker's loop, from `start`, on a closed queue (the system closes
        the queue before it starts any worker); `events(k)` is what happens
        during the k-th action. Every task held or pending at the start ends
        up pending, as a result of this worker, or dropped; without faults
        the queue is drained and the results follow the dequeue order. */
    method Run(start: Phase, events: nat -> Event) returns (ghost dropped: seq<Task>)
      requires start != Exited
      requires taskQueue.isClosed
      modifies taskQueue, resultsCollector
      ensures taskQueue.isClosed
      ensures |old(resultsCollector.results)| <= |resultsCollector.results|
      ensures resultsCollector.results[..|old(resultsCollector.results)|] == old(resultsCollector.results)
      ensures forall r :: r in resultsCollector.results[|old(resultsCollector.results)|..] ==> r.workerId == workerId
      ensures multiset(Ids(InFlight(start) + old(taskQueue.queue)))
              == multiset(Ids(taskQueue.queue))
               + multiset(TaskIds(resultsCollector.results[|old(resultsCollector.results)|..]))
               + multiset(Ids(dropped))
      ensures (forall k :: events(k).Proceed?) ==>
                taskQueue.queue == [] && dropped == [] &&
                TaskIds(resultsCollector.results[|old(resultsCollector.results)|..])
                == Ids(InFlight(start) + old(taskQueue.queue))
    {
      var phase := start;
      var k: nat := 0;
      dropped := [];
      ghost var before := old(resultsCollector.results);
      ghost var whole := Ids(InFlight(start) + old(taskQueue.queue));
      ghost var faultless := forall j :: events(j).Proceed?;
      while phase != Exited
        invariant taskQueue.isClosed
        invariant |before| <= |resultsCollector.results|
        invariant resultsCollector.results[..|before|] == before
        invariant forall r :: r in resultsCollector.results[|before|..] ==> r.workerId == workerId
        invariant multiset(whole)
                  == multiset(Ids(InFlight(phase) + taskQueue.queue))
                   + multiset(TaskIds(resultsCollector.results[|before|..]))
                   + multiset(Ids(dropped))
        invariant faultless ==>
                    dropped == [] &&
                    TaskIds(resultsCollector.results[|before|..]) + Ids(InFlight(phase) + taskQueue.queue) == whole
        invariant faultless && phase == Exited ==> taskQueue.queue == []
        decreases 2 * |taskQueue.queue| + Rank(phase)
      {
        ghost var pending := taskQueue.queue;
        ghost var prior := resultsCollector.results;
        ghost var made := prior[|before|..];
        ghost var e := Transition(workerId, phase, events(k), pending, true);
        TransitionConserves(workerId, phase, events(k), pending, true);
        if faultless {
          TransitionKeepsOrder(workerId, phase, events(k), pending, true);
        }
        AccountingStep(phase, pending, e, made, dropped, whole, faultless);
        phase := Step(phase, events(k));
        assert resultsCollector.results == prior + e.emitted;
        SliceOfAppend(prior, e.emitted, |before|);
        dropped := dropped + e.dropped;
        k := k + 1;
      }
      assert InFlight(phase) + taskQueue.queue == taskQueue.queue;
    }
  }
}
