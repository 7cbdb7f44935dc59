/** The immutable outcome of processing one task: the originating task's id,
    the processed data, the id of the worker that produced it and the wall
    clock value at completion (Java `long`, here an unbounded integer). The
    getters are the destructors; there are no setters. */
module Results {

  datatype Result = Result(taskId: int, processedData: string, workerId: int, timestamp: int)

  /** The constructor stores its four arguments unchanged. */
  function NewResult(taskId: int, processedData: string, workerId: int, timestamp: int): (r: Result)
    ensures r.taskId == taskId && r.processedData == processedData
    ensures r.workerId == workerId && r.timestamp == timestamp
  {
    Result(taskId, processedData, workerId, timestamp)
  }

  /** Task ids of a sequence of results, in order. */
  function TaskIds(rs: seq<Result>): (ids: seq<int>)
    ensures |ids| == |rs|
    ensures forall k :: 0 <= k < |rs| ==> ids[k] == rs[k].taskId
  {
    seq(|rs|, k requires 0 <= k < |rs| => rs[k].taskId)
  }

  lemma TaskIdsAppend(a: seq<Result>, b: seq<Result>)
    ensures TaskIds(a + b) == TaskIds(a) + TaskIds(b)
  {
    assert |TaskIds(a + b)| == |TaskIds(a) + TaskIds(b)|;
  }
}
