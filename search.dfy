/** The depth-first visit of DepthFirst::traverse, as functions of the
    traversal state.

    The state of one traversal is the two sets the visit closure shares
    (visiting: on the current recursion path; visited: fully processed)
    together with the visitor's log.  Visit is the closure $visit, VisitEach
    is the eachAdjacent loop inside it, and Drain is the loop that shifts
    the start queue and visits each vertex. */
module Search {
  import opened Graphs
  import opened Visitors

  datatype State<V> = State(visiting: set<V>, visited: set<V>, trace: seq<Event<V>>)

  /** The events that were added on the way from st to r. */
  function Added<V>(st: State<V>, r: State<V>): seq<Event<V>>
    requires |st.trace| <= |r.trace|
  {
    r.trace[|st.trace|..]
  }

  /** How many successor targets are neither on the recursion path nor
      finished: every start of a vertex makes this smaller. */
  ghost function Count<V(!new)>(g: Graph<V>, st: State<V>): nat {
    |g.Targets() - st.visiting - st.visited|
  }

  /** The measure of a visit of v: a fresh vertex that no adjacency list
      names still counts for one more start. */
  ghost function Pending<V(!new)>(g: Graph<V>, st: State<V>, v: V): nat {
    Count(g, st) + if v in g.Targets() || v in st.visiting || v in st.visited then 0 else 1
  }

  lemma SubsetCard<T>(a: set<T>, b: set<T>)
    requires a <= b
    ensures |a| <= |b|
    decreases a
  {
    if a != {} {
      var x :| x in a;
      SubsetCard(a - {x}, b - {x});
    }
  }

  /** Finished vertices only accumulate, so the measure never grows. */
  lemma CountShrinks<V(!new)>(g: Graph<V>, st: State<V>, r: State<V>)
    requires st.visiting <= r.visiting && st.visited <= r.visited
    ensures Count(g, r) <= Count(g, st)
  {
    SubsetCard(g.Targets() - r.visiting - r.visited, g.Targets() - st.visiting - st.visited);
  }

  /** Putting a fresh vertex on the recursion path lowers the measure. */
  lemma StartShrinks<V(!new)>(g: Graph<V>, st: State<V>, started: State<V>, v: V)
    requires v !in st.visiting && v !in st.visited
    requires started.visiting == st.visiting + {v} && started.visited == st.visited
    ensures Count(g, started) < Pending(g, st, v)
  {
    var before := g.Targets() - st.visiting - st.visited;
    var after := g.Targets() - started.visiting - started.visited;
    if v in g.Targets() {
      assert after == before - {v};
    } else {
      assert after == before;
    }
  }

  /** A log that continues a + [e] continues a. */
  lemma PrefixAfter<E>(a: seq<E>, e: E, b: seq<E>, c: seq<E>)
    requires |a| + 1 <= |b| && b[..|a| + 1] == a + [e]
    requires |b| <= |c| && c[..|b|] == b
    ensures |a| <= |c| && c[..|a|] == a
  {
    assert c[..|a|] == b[..|a| + 1][..|a|];
  }

  /** One call of the visit closure on v.
      On the recursion path: report a back edge and do not recurse.
      Finished already: nothing happens.
      Otherwise: v goes onto the path, is started, every adjacency of v is
      examined and visited in order, then v is finished and leaves the path
      for the finished set. */
  function Visit<V(!new)>(g: Graph<V>, st: State<V>, v: V): (r: State<V>)
    decreases Pending(g, st, v), 0, 0
    ensures r.visiting == st.visiting
    ensures st.visited <= r.visited
    ensures (r.visited - st.visited) !! st.visiting
    ensures v !in st.visiting ==> v in r.visited
    ensures |st.trace| <= |r.trace| && r.trace[..|st.trace|] == st.trace
  {
    if v in st.visiting then
      State(st.visiting, st.visited, st.trace + [BackEdge(v)])
    else if v in st.visited then
      st
    else
      var started := State(st.visiting + {v}, st.visited, st.trace + [StartVertex(v)]);
      StartShrinks(g, st, started, v);
      var explored := VisitEach(g, started, v, 0);
      State(explored.visiting - {v}, explored.visited + {v}, explored.trace + [FinishVertex(v)])
  }

  /** The eachAdjacent loop of a visit of u, from the i-th successor on:
      examine the edge, then visit its target. */
  function VisitEach<V(!new)>(g: Graph<V>, st: State<V>, u: V, i: nat): (r: State<V>)
    requires i <= |g.Adjacent(u)|
    decreases Count(g, st), 1, |g.Adjacent(u)| - i
    ensures r.visiting == st.visiting
    ensures st.visited <= r.visited
    ensures (r.visited - st.visited) !! st.visiting
    ensures |st.trace| <= |r.trace| && r.trace[..|st.trace|] == st.trace
  {
    if i == |g.Adjacent(u)| then
      st
    else
      var w := g.Adjacent(u)[i];
      var examined := State(st.visiting, st.visited, st.trace + [ExamineEdge(u, w)]);
      assert w in g.Targets() by {
        assert u in g.adjacency && w in g.adjacency[u];
      }
      var next := Visit(g, examined, w);
      CountShrinks(g, st, next);
      var rest := VisitEach(g, next, u, i + 1);
      PrefixAfter(st.trace, ExamineEdge(u, w), next.trace, rest.trace);
      rest
  }

  /** The drain loop: visit the queued vertices front to back. */
  function Drain<V(!new)>(g: Graph<V>, st: State<V>, queue: seq<V>): (r: State<V>)
    decreases |queue|
    ensures r.visiting == st.visiting
    ensures st.visited <= r.visited
    ensures forall x :: x in queue && x !in st.visiting ==> x in r.visited
    ensures st.visiting !! st.visited ==> r.visiting !! r.visited
    ensures |st.trace| <= |r.trace| && r.trace[..|st.trace|] == st.trace
  {
    if queue == [] then st else Drain(g, Visit(g, st, queue[0]), queue[1..])
  }

  /** A whole traversal of the queue from a fresh state, after the events
      already in log: it ends with an empty recursion path, every queued
      vertex finished, and the earlier events kept in front. */
  function Run<V(!new)>(g: Graph<V>, log: seq<Event<V>>, queue: seq<V>): (r: State<V>)
    ensures r.visiting == {}
    ensures forall x :: x in queue ==> x in r.visited
    ensures |log| <= |r.trace| && r.trace[..|log|] == log
  {
    Drain(g, State({}, {}, log), queue)
  }
}
