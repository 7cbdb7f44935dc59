/** The immutable unit of work of the data processing system: an id, the data
    to process and a priority tag. Java's getters are the datatype's
    destructors `taskId`, `data` and `priority`; as a value, a Task cannot be
    changed after construction. */
module Tasks {

  datatype Task = Task(taskId: int, data: string, priority: int)

  /** The three-argument constructor: every argument is stored unchanged. */
  function NewTaskWithPriority(taskId: int, data: string, priority: int): (t: Task)
    ensures t.taskId == taskId && t.data == data && t.priority == priority
  {
    Task(taskId, data, priority)
  }

  /** The two-argument constructor: the default priority is 0. */
  function NewTask(taskId: int, data: string): (t: Task)
    ensures t.taskId == taskId && t.data == data && t.priority == 0
    ensures t == NewTaskWithPriority(taskId, data, 0)
  {
    Task(taskId, data, 0)
  }

  /** Two tasks built by the same constructor are equal exactly when their
      arguments are: construction loses no information. */
  lemma ConstructorInjective(id1: int, d1: string, p1: int, id2: int, d2: string, p2: int)
    ensures NewTaskWithPriority(id1, d1, p1) == NewTaskWithPriority(id2, d2, p2)
            <==> id1 == id2 && d1 == d2 && p1 == p2
  {
  }

  /** The ids of a sequence of tasks, in order. */
  function Ids(ts: seq<Task>): (ids: seq<int>)
    ensures |ids| == |ts|
    ensures forall k :: 0 <= k < |ts| ==> ids[k] == ts[k].taskId
  {
    seq(|ts|, k requires 0 <= k < |ts| => ts[k].taskId)
  }

  lemma IdsAppend(a: seq<Task>, b: seq<Task>)
    ensures Ids(a + b) == Ids(a) + Ids(b)
  {
    assert |Ids(a + b)| == |Ids(a) + Ids(b)|;
  }
}
