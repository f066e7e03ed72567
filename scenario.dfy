/**
 * A two-stage pipeline driven end to end: a root stage doubles every item
 * into its child, and the child collects what it receives.
 */
module Scenario {
  import opened Routing
  import opened Streams

  function Double(x: int): FuncResult<int>
  {
    ValueResult(x * 2)
  }

  /** Root `r` with a child `c` fed by `r.apply(Double)`; `c` ends in a sink. */
  method Build() returns (r: Stream<int>, c: Stream<int>)
    ensures fresh(r) && fresh(c) && r != c
    ensures r.Valid() && c.Valid() && c.pipeline == r.pipeline
    ensures r.action == Forward(Double, c) && r.children == [c]
    ensures c.action == Sink && c.delivered == [] && c.lst == [] && r.lst == []
    ensures r.running && c.running
    ensures c in r.Subtree()
  {
    r := new Stream<int>();
    c := r.Apply(Double);
    r.ChildSubtree(0);
    c.ForEach();
  }

  /** `r.add(3)`, `r.add(5)`, then the root's worker runs until it would block. */
  method FeedRoot(r: Stream<int>, c: Stream<int>)
    requires r.Valid() && r.running && r.lst == [] && c.lst == []
    requires r.action == Forward(Double, c)
    modifies r`lst, r`delivered, c`lst
    ensures r.lst == [] && c.lst == [6, 10]
  {
    r.Add(3);
    r.Add(5);
    assert r.lst == [3, 5];
    r.Run();
    assert Forwarded(Double, [3, 5]) == [6, 10] by {
      assert [3, 5][1..] == [5];
    }
  }

  /**
   * After `r.add(3)`, `r.add(5)` and one run of the root's worker, the
   * child's queue holds `[6, 10]`; after one run of the child's worker its
   * sink has received exactly those items in that order. Stopping the root
   * then stops both stages.
   */
  method DoublingPipeline() returns (forwarded: seq<int>, ghost logged: seq<int>, stopped: bool)
    ensures forwarded == [6, 10]
    ensures logged == forwarded
    ensures stopped
  {
    var r, c := Build();
    FeedRoot(r, c);
    forwarded := c.lst;
    c.Run();
    logged := c.delivered;
    r.Stop();
    stopped := !r.running && !c.running;
  }
}
