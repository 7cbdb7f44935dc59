/** The closeable FIFO of tasks shared by the producer and the workers. Every
    method of the Java class is `synchronized`, so each is modelled as one
    atomic transition on the pending sequence `queue` and the flag
    `isClosed`. The backing `LinkedBlockingQueue` is unbounded, so an enqueue
    on an open queue never waits for space; it fails only when the calling
    thread is interrupted. */
module TaskQueues {
  import opened Wrappers
  import opened Tasks

  class SharedTaskQueue {
    var queue: seq<Task>
    var isClosed: bool

    /** A new queue is empty and open. */
    constructor ()
      ensures queue == [] && !isClosed
    {
      queue := [];
      isClosed := false;
    }

    /** Appends `task` at the tail. The closed check comes first, so a null
        task on a closed queue also gets IllegalStateException; a failing
        call changes nothing. `interrupted` is the calling thread's
        interrupt status: `LinkedBlockingQueue.put` then throws
        InterruptedException before it enqueues, and `addTask` catches it,
        so the call returns normally and the task is not added. */
    method AddTask(task: Option<Task>, interrupted: bool) returns (outcome: Outcome<Exception>)
      modifies this
      ensures isClosed == old(isClosed)
      ensures old(isClosed) ==> outcome == Fail(IllegalStateException)
      ensures !old(isClosed) && task.None? ==> outcome == Fail(NullPointerException)
      ensures outcome.Pass? <==> !old(isClosed) && task.Some?
      ensures queue == if outcome.Pass? && !interrupted then old(queue) + [task.value] else old(queue)
    {
      if isClosed {
        return Fail(IllegalStateException);
      }
      if task.None? {
        return Fail(NullPointerException);
      }
      if !interrupted {
        queue := queue + [task.value];
      }
      outcome := Pass;
    }

    /** Removes and returns the head; `None` (null) exactly when no task is
        pending, whether or not the queue is closed, and then nothing
        changes. */
    method GetTask() returns (task: Option<Task>)
      modifies this
      ensures isClosed == old(isClosed)
      ensures task.None? <==> old(queue) == []
      ensures task.Some? ==> task.value == old(queue)[0] && queue == old(queue)[1..]
      ensures task.None? ==> queue == old(queue)
      ensures old(queue) == (if task.Some? then [task.value] else []) + queue
    {
      if queue == [] && isClosed {
        return None;
      }
      if queue == [] {
        // LinkedBlockingQueue.poll on an empty queue yields null
        return None;
      }
      task := Some(queue[0]);
      queue := queue[1..];
    }

    method IsEmpty() returns (empty: bool)
      ensures empty <==> queue == []
    {
      empty := queue == [];
    }

    method Size() returns (n: nat)
      ensures n == |queue|
    {
      n := |queue|;
    }

    /** Idempotent; sets the flag, which no method ever clears. */
    method Close()
      modifies this
      ensures isClosed && queue == old(queue)
    {
      isClosed := true;
    }

    method IsClosed() returns (closed: bool)
      ensures closed == isClosed
    {
      closed := isClosed;
    }
  }

  /** A client run of the protocol: three tasks are enqueued, the queue is
      closed (twice, which is the same as once), a fourth enqueue fails with
      IllegalStateException, and the three tasks come out in FIFO order. */
  method ClosedQueueScenario(t1: Task, t2: Task, t3: Task, t4: Task)
    returns (fourth: Outcome<Exception>, drained: seq<Task>, closed: bool)
    ensures fourth == Fail(IllegalStateException)
    ensures drained == [t1, t2, t3] && closed
  {
    var q := new SharedTaskQueue();
    var _ := q.AddTask(Some(t1), false);
    var _ := q.AddTask(Some(t2), false);
    var _ := q.AddTask(Some(t3), false);
    q.Close();
    q.Close();
    fourth := q.AddTask(Some(t4), false);
    var h1 := q.GetTask();
    var h2 := q.GetTask();
    var h3 := q.GetTask();
    var h4 := q.GetTask();
    assert h4 == None;
    drained := [h1.value, h2.value, h3.value];
    closed := q.IsClosed();
  }
}
