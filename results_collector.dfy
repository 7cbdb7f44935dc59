/** The append-only sink of results shared by all workers. Every method of the
    Java class is `synchronized`; each is one atomic transition on the list
    `results`. */
module ResultsCollectors {
  import opened Wrappers
  import opened Results

  class ResultsCollector {
    var results: seq<Result>

    /** A new collector holds no results. */
    constructor ()
      ensures results == []
    {
      results := [];
    }

    /** Appends `result` at the tail; earlier entries keep their places. A
        null result throws NullPointerException and changes nothing. */
    method AddResult(result: Option<Result>) returns (outcome: Outcome<Exception>)
      modifies this
      ensures outcome.Pass? <==> result.Some?
      ensures result.None? ==> outcome == Fail(NullPointerException) && results == old(results)
      ensures result.Some? ==> results == old(results) + [result.value]
    {
      if result.None? {
        return Fail(NullPointerException);
      }
      results := results + [result.value];
      outcome := Pass;
    }

    /** A copy of the current list: a value that later appends cannot change. */
    method GetResults() returns (copy: seq<Result>)
      ensures copy == results
    {
      copy := results;
    }

    method GetResultCount() returns (count: nat)
      ensures count == |results|
    {
      count := |results|;
    }

    method Clear()
      modifies this
      ensures results == []
    {
      results := [];
    }
  }

  /** A snapshot taken before an append still holds the old contents, and the
      count afterwards equals the snapshot's length plus one. */
  method SnapshotScenario(r1: Result, r2: Result)
    returns (snapshot: seq<Result>, count: nat, afterClear: nat)
    ensures snapshot == [r1] && count == 2 && afterClear == 0
  {
    var c := new ResultsCollector();
    var _ := c.AddResult(Some(r1));
    snapshot := c.GetResults();
    var _ := c.AddResult(None);
    var _ := c.AddResult(Some(r2));
    count := c.GetResultCount();
    c.Clear();
    afterClear := c.GetResultCount();
  }
}
