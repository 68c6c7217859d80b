/** What a whole traversal guarantees: the properties of single visits in
    module TraversalFacts, carried through the loop that drains the start
    queue. */
module RunFacts {
  import opened Graphs
  import opened Visitors
  import opened Search
  import opened SourceDiscovery
  import opened TraversalFacts

  /** Draining a + b is draining a, then draining b from where a left off:
      the queue is consumed strictly front to back. */
  lemma {:induction false} DrainAppend<V(!new)>(g: Graph<V>, st: State<V>, a: seq<V>, b: seq<V>)
    decreases |a|
    ensures Drain(g, st, a + b) == Drain(g, Drain(g, st, a), b)
  {
    if a == [] {
      assert a + b == b;
    } else {
      assert (a + b)[0] == a[0] && (a + b)[1..] == a[1..] + b;
      DrainAppend(g, Visit(g, st, a[0]), a[1..], b);
    }
  }

  /** The events of a drain: those of the first visit, then those of the
      rest of the queue. */
  lemma DrainShape<V(!new)>(g: Graph<V>, st: State<V>, queue: seq<V>)
    requires queue != []
    ensures var m := Visit(g, st, queue[0]);
            var r := Drain(g, st, queue);
            && r == Drain(g, m, queue[1..])
            && Added(st, r) == Added(st, m) + Added(m, r)
            && NewlyVisited(st, r) == NewlyVisited(st, m) + NewlyVisited(m, r)
            && NewlyVisited(st, m) !! NewlyVisited(m, r)
  {
    var m := Visit(g, st, queue[0]);
    AddedSplit(st, m, Drain(g, st, queue));
  }

  lemma CountsAppend<V>(a: seq<Event<V>>, b: seq<Event<V>>, w: V, n1: set<V>, n2: set<V>)
    requires n1 !! n2
    requires Starts(a, w) == (if w in n1 then 1 else 0) && Finishes(a, w) == (if w in n1 then 1 else 0)
    requires Starts(b, w) == (if w in n2 then 1 else 0) && Finishes(b, w) == (if w in n2 then 1 else 0)
    ensures Starts(a + b, w) == (if w in n1 + n2 then 1 else 0)
    ensures Finishes(a + b, w) == (if w in n1 + n2 then 1 else 0)
  {
    assert multiset(a + b) == multiset(a) + multiset(b);
  }

  lemma {:induction false} DrainStartsOnce<V(!new)>(g: Graph<V>, st: State<V>, queue: seq<V>, w: V)
    decreases |queue|
    ensures var r := Drain(g, st, queue);
            && Starts(Added(st, r), w) == (if w in NewlyVisited(st, r) then 1 else 0)
            && Finishes(Added(st, r), w) == (if w in NewlyVisited(st, r) then 1 else 0)
  {
    var r := Drain(g, st, queue);
    if queue == [] {
      assert Added(st, r) == [];
    } else {
      var m := Visit(g, st, queue[0]);
      DrainShape(g, st, queue);
      VisitStartsOnce(g, st, queue[0], w);
      DrainStartsOnce(g, m, queue[1..], w);
      CountsAppend(Added(st, m), Added(m, r), w, NewlyVisited(st, m), NewlyVisited(m, r));
    }
  }

  lemma {:induction false} DrainExamines<V(!new)>(g: Graph<V>, st: State<V>, queue: seq<V>, x: V)
    decreases |queue|
    ensures var r := Drain(g, st, queue);
            ExaminedFrom(Added(st, r), x) == (if x in NewlyVisited(st, r) then g.Adjacent(x) else [])
  {
    var r := Drain(g, st, queue);
    if queue == [] {
      assert Added(st, r) == [];
    } else {
      var m := Visit(g, st, queue[0]);
      DrainShape(g, st, queue);
      VisitExamines(g, st, queue[0], x);
      DrainExamines(g, m, queue[1..], x);
      ExaminedFromAppend(Added(st, m), Added(m, r), x);
    }
  }

  lemma {:induction false} DrainKeepsClosed<V(!new)>(g: Graph<V>, st: State<V>, queue: seq<V>)
    requires Closed(g, st)
    decreases |queue|
    ensures Closed(g, Drain(g, st, queue))
  {
    if queue != [] {
      VisitKeepsClosed(g, st, queue[0]);
      DrainKeepsClosed(g, Visit(g, st, queue[0]), queue[1..]);
    }
  }

  lemma {:induction false} DrainBackEdges<V(!new)>(g: Graph<V>, st: State<V>, queue: seq<V>, w: V)
    requires st.visiting == {}
    decreases |queue|
    ensures BackEdge(w) in Added(st, Drain(g, st, queue)) ==> g.ReachesPlus(w, w)
  {
    var r := Drain(g, st, queue);
    if queue == [] {
      assert Added(st, r) == [];
    } else {
      var m := Visit(g, st, queue[0]);
      DrainShape(g, st, queue);
      VisitBackEdges(g, st, queue[0], w);
      DrainBackEdges(g, m, queue[1..], w);
    }
  }

  lemma {:induction false} DrainReachesOnly<V(!new)>(g: Graph<V>, st: State<V>, queue: seq<V>, y: V)
    decreases |queue|
    ensures y in NewlyVisited(st, Drain(g, st, queue)) ==> exists x :: x in queue && g.Reaches(x, y)
  {
    if queue != [] {
      var m := Visit(g, st, queue[0]);
      DrainShape(g, st, queue);
      VisitReachesOnly(g, st, queue[0], y);
      DrainReachesOnly(g, m, queue[1..], y);
      if y in NewlyVisited(m, Drain(g, m, queue[1..])) {
        var x :| x in queue[1..] && g.Reaches(x, y);
        assert x in queue;
      }
    }
  }

  lemma {:induction false} DrainKeepsOrder<V(!new)>(g: Graph<V>, st: State<V>, queue: seq<V>)
    requires FinishLogged(st) && FinishesAfterSuccessors(g, st.trace)
    decreases |queue|
    ensures FinishLogged(Drain(g, st, queue)) && FinishesAfterSuccessors(g, Drain(g, st, queue).trace)
  {
    if queue != [] {
      VisitFinishLogged(g, st, queue[0]);
      VisitKeepsOrder(g, st, queue[0]);
      DrainKeepsOrder(g, Visit(g, st, queue[0]), queue[1..]);
    }
  }

  // ---------------------------------------------------------------------
  // A traversal from a fresh state, after the events already in log.

  /** The traversal starts and finishes each vertex it finishes exactly
      once, and no other vertex. */
  lemma RunStartsOnce<V(!new)>(g: Graph<V>, log: seq<Event<V>>, queue: seq<V>, w: V)
    ensures var r := Run(g, log, queue);
            var d := Added(State({}, {}, log), r);
            && Starts(d, w) == (if w in r.visited then 1 else 0)
            && Finishes(d, w) == (if w in r.visited then 1 else 0)
  {
    DrainStartsOnce(g, State({}, {}, log), queue, w);
  }

  /** Each finished vertex has all its edges examined, in adjacency order,
      and no other vertex has an edge examined. */
  lemma RunExamines<V(!new)>(g: Graph<V>, log: seq<Event<V>>, queue: seq<V>, x: V)
    ensures var r := Run(g, log, queue);
            ExaminedFrom(Added(State({}, {}, log), r), x) == (if x in r.visited then g.Adjacent(x) else [])
  {
    DrainExamines(g, State({}, {}, log), queue, x);
  }

  /** The traversal finishes exactly the vertices reachable from some
      vertex of the start queue, and leaves none on the recursion path. */
  lemma RunVisitsReachable<V(!new)>(g: Graph<V>, log: seq<Event<V>>, queue: seq<V>, y: V)
    ensures var r := Run(g, log, queue);
            && r.visiting == {}
            && (y in r.visited <==> exists x :: x in queue && g.Reaches(x, y))
  {
    var st := State({}, {}, log);
    var r := Run(g, log, queue);
    DrainReachesOnly(g, st, queue, y);
    if exists x :: x in queue && g.Reaches(x, y) {
      var x :| x in queue && g.Reaches(x, y);
      DrainKeepsClosed(g, st, queue);
      ClosedHoldsReachable(g, r.visited, x, y);
    }
  }

  /** Every back edge the traversal reports is at a vertex on a cycle. */
  lemma RunBackEdges<V(!new)>(g: Graph<V>, log: seq<Event<V>>, queue: seq<V>, w: V)
    ensures BackEdge(w) in Added(State({}, {}, log), Run(g, log, queue)) ==> g.ReachesPlus(w, w)
  {
    DrainBackEdges(g, State({}, {}, log), queue, w);
  }

  /** On an acyclic graph the traversal reports no back edge. */
  lemma AcyclicNoBackEdges<V(!new)>(g: Graph<V>, log: seq<Event<V>>, queue: seq<V>, w: V)
    requires g.Acyclic()
    ensures BackEdge(w) !in Added(State({}, {}, log), Run(g, log, queue))
  {
    RunBackEdges(g, log, queue, w);
  }

  /** In a log where every finish comes after a finish or a back edge of
      each successor, a finish of a vertex p[i] on the cycle p is preceded
      by a back edge at a vertex of that cycle: following the cycle, the
      finishes would otherwise go back in the log forever. */
  lemma {:induction false} CycleNeedsBackEdge<V(!new)>(g: Graph<V>, t: seq<Event<V>>, p: seq<V>, i: nat, j: nat)
    requires FinishesAfterSuccessors(g, t)
    requires g.IsPath(p) && |p| >= 2 && p[0] == p[|p| - 1]
    requires i < |p| - 1 && j < |t| && t[j] == FinishVertex(p[i])
    decreases j
    ensures exists k :: 0 <= k < |p| && BackEdge(p[k]) in t[..j]
  {
    var w := p[i + 1];
    assert w in g.Adjacent(t[j].vertex);
    if BackEdge(w) !in t[..j] {
      var j' :| 0 <= j' < j && t[j'] == FinishVertex(w);
      var i' := if i + 1 == |p| - 1 then 0 else i + 1;
      CycleNeedsBackEdge(g, t, p, i', j');
      var k :| 0 <= k < |p| && BackEdge(p[k]) in t[..j'];
      assert t[..j'] == t[..j][..j'];
      assert BackEdge(p[k]) in t[..j];
    }
  }

  /** After a log without finish or back edge events, a traversal whose
      queue reaches a vertex on a cycle reports a back edge. */
  lemma CycleReportsBackEdge<V(!new)>(g: Graph<V>, log: seq<Event<V>>, queue: seq<V>, x: V, y: V)
    requires forall k :: 0 <= k < |log| ==> !log[k].FinishVertex? && !log[k].BackEdge?
    requires x in queue && g.Reaches(x, y) && g.ReachesPlus(y, y)
    ensures exists w :: BackEdge(w) in Added(State({}, {}, log), Run(g, log, queue))
  {
    var st := State({}, {}, log);
    var r := Run(g, log, queue);
    RunVisitsReachable(g, log, queue, y);
    DrainKeepsOrder(g, st, queue);
    var j :| 0 <= j < |r.trace| && r.trace[j] == FinishVertex(y);
    var p :| g.IsPath(p) && |p| >= 2 && p[0] == y && p[|p| - 1] == y;
    CycleNeedsBackEdge(g, r.trace, p, 0, j);
    var k :| 0 <= k < |p| && BackEdge(p[k]) in r.trace[..j];
    assert r.trace == log + Added(st, r);
    assert BackEdge(p[k]) !in log;
    assert BackEdge(p[k]) in Added(st, r);
  }

  /** After a log without finish events, the traversal finishes a vertex
      only after each of its successors is finished or reported as a back
      edge. */
  lemma RunFinishOrder<V(!new)>(g: Graph<V>, log: seq<Event<V>>, queue: seq<V>)
    requires forall k :: 0 <= k < |log| ==> !log[k].FinishVertex?
    ensures FinishesAfterSuccessors(g, Run(g, log, queue).trace)
  {
    DrainKeepsOrder(g, State({}, {}, log), queue);
  }

  /** On an acyclic graph, after a log without finish or back edge events,
      every vertex is finished after all of its successors: the finish
      events list the vertices in reverse topological order. */
  lemma AcyclicFinishOrder<V(!new)>(g: Graph<V>, log: seq<Event<V>>, queue: seq<V>, j: nat, w: V)
    requires g.Acyclic()
    requires forall k :: 0 <= k < |log| ==> !log[k].FinishVertex? && !log[k].BackEdge?
    requires var t := Run(g, log, queue).trace;
             j < |t| && t[j].FinishVertex? && w in g.Adjacent(t[j].vertex)
    ensures FinishVertex(w) in Run(g, log, queue).trace[..j]
  {
    var st := State({}, {}, log);
    var r := Run(g, log, queue);
    RunFinishOrder(g, log, queue);
    AcyclicNoBackEdges(g, log, queue, w);
    assert r.trace == log + Added(st, r);
    assert BackEdge(w) !in log;
    assert BackEdge(w) !in r.trace[..j];
  }

  // ---------------------------------------------------------------------
  // Starting from the sources of an acyclic graph reaches every vertex.

  /** The vertices of the graph with a walk of at least one edge to y. */
  ghost function Ancestors<V(!new)>(g: Graph<V>, y: V): set<V> {
    set u | u in g.vertices && g.ReachesPlus(u, y)
  }

  /** On an acyclic graph, a predecessor u of y has strictly fewer
      ancestors than y: all of u's ancestors are y's, and u itself is
      one of y's but not one of its own. */
  lemma AncestorsShrink<V(!new)>(g: Graph<V>, u: V, y: V)
    requires g.Acyclic()
    requires u in g.vertices && y in g.Adjacent(u)
    ensures |Ancestors(g, u)| < |Ancestors(g, y)|
  {
    forall a | a in Ancestors(g, u)
      ensures a in Ancestors(g, y)
    {
      PlusIsReach(g, a, u);
      ExtendReach(g, a, u, y);
    }
    ReachesSelf(g, u);
    ExtendReach(g, u, u, y);
    assert u in Ancestors(g, y) && u !in Ancestors(g, u);
    SubsetCard(Ancestors(g, u), Ancestors(g, y) - {u});
  }

  /** On an acyclic graph every vertex is reachable from a source. */
  lemma {:induction false} SourceReaches<V(!new)>(g: Graph<V>, y: V)
    requires g.Acyclic()
    requires y in g.vertices
    decreases |Ancestors(g, y)|
    ensures exists s :: s in Sources(g) && g.Reaches(s, y)
  {
    HasIncomingIff(g, y);
    if HasIncoming(g, y) {
      var u :| u in g.vertices && y in g.Adjacent(u);
      AncestorsShrink(g, u, y);
      SourceReaches(g, u);
      var s :| s in Sources(g) && g.Reaches(s, u);
      ExtendReach(g, s, u, y);
      PlusIsReach(g, s, y);
    } else {
      SourcesMembership(g, y);
      ReachesSelf(g, y);
    }
  }

  /** An acyclic graph with at least one vertex has a source, so a
      traversal without a start argument does not fail on it. */
  lemma AcyclicHasSources<V(!new)>(g: Graph<V>)
    requires g.Acyclic() && g.vertices != []
    ensures Sources(g) != []
  {
    SourceReaches(g, g.vertices[0]);
  }

  /** A traversal of an acyclic graph from its sources finishes every
      vertex of the graph. */
  lemma AcyclicFromSourcesVisitsAll<V(!new)>(g: Graph<V>, log: seq<Event<V>>, y: V)
    requires g.Acyclic()
    requires y in g.vertices
    ensures y in Run(g, log, Sources(g)).visited
  {
    SourceReaches(g, y);
    RunVisitsReachable(g, log, Sources(g), y);
  }
}
