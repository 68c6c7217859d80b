/** DepthFirst::traverse: resolve the start argument into a queue, reject a
    bad or empty start, then drain the queue through a depth-first visit
    that shares one pair of visiting/visited sets. */
module DepthFirst {
  import opened Graphs
  import opened Visitors
  import opened SourceDiscovery
  import opened Search

  /** The start argument of traverse, by the run-time kind it has. */
  datatype Start<V> =
    | NoStart                  // NULL: the queue comes from source discovery
    | Queue(vertices: seq<V>)  // a doubly linked list: used as the queue itself
    | Vertex(vertex: V)        // any other object: a one-element queue
    | NonObject                // anything else

  /** The two exceptions traverse throws itself. */
  datatype Failure =
    | OutOfBounds    // the start argument is not an object
    | NoStartVertex  // the resolved queue is empty

  datatype Outcome = Completed | Failed(failure: Failure)

  /** The queue a valid start argument resolves to. */
  function Resolved<V(==,!new)>(g: Graph<V>, start: Start<V>): seq<V>
    requires !start.NonObject?
  {
    match start
    case NoStart => Sources(g)
    case Queue(vs) => vs
    case Vertex(v) => [v]
  }

  /** The hook calls made while resolving a valid start argument: only
      source discovery calls the visitor. */
  function Prelude<V(==,!new)>(g: Graph<V>, start: Start<V>): seq<Event<V>> {
    if start.NoStart? then InitEvents(g) else []
  }

  /** A vertex is in the resolved queue exactly when it is a source of the
      graph (no start), a member of the list, or the single start object. */
  lemma ResolvedMembership<V(!new)>(g: Graph<V>, start: Start<V>, v: V)
    requires !start.NonObject?
    ensures v in Resolved(g, start) <==>
      || (start.NoStart? && v in g.vertices && !HasIncoming(g, v))
      || (start.Queue? && v in start.vertices)
      || (start.Vertex? && v == start.vertex)
  {
    if start.NoStart? {
      SourcesMembership(g, v);
    }
  }

  /** A valid start argument resolves to an empty queue exactly when it is
      an empty list, or when it is absent and every vertex of the graph has
      an incoming edge (a graph made only of cycles, or no vertices). */
  lemma ResolvedEmpty<V(!new)>(g: Graph<V>, start: Start<V>)
    requires !start.NonObject?
    ensures Resolved(g, start) == [] <==>
      start == Queue([]) || (start.NoStart? && forall v :: v in g.vertices ==> HasIncoming(g, v))
  {
    if start.NoStart? {
      if Sources(g) != [] {
        SourcesMembership(g, Sources(g)[0]);
      }
      forall v | v in g.vertices && !HasIncoming(g, v)
        ensures Sources(g) != []
      {
        SourcesMembership(g, v);
      }
    }
  }

  /** The state of one traversal: the two sets that the visit closure shares
      and updates in place, and the visitor it reports to. */
  class Traversal<V(==,!new)> {
    const graph: Graph<V>
    const visitor: Recorder<V>
    var visiting: set<V>
    var visited: set<V>

    constructor (graph: Graph<V>, visitor: Recorder<V>)
      ensures this.graph == graph && this.visitor == visitor
      ensures visiting == {} && visited == {}
    {
      this.graph := graph;
      this.visitor := visitor;
      visiting := {};
      visited := {};
    }

    /** The traversal state together with the visitor's log. */
    function Snapshot(): State<V>
      reads this, visitor
    {
      State(visiting, visited, visitor.events)
    }

    /** The visit closure. */
    method Visit(v: V)
      modifies this, visitor
      decreases Pending(graph, Snapshot(), v)
      ensures Snapshot() == Search.Visit(graph, old(Snapshot()), v)
    {
      if v in visiting {
        visitor.OnBackEdge(v);
      } else if v !in visited {
        ghost var entry := Snapshot();
        visiting := visiting + {v};
        visitor.OnStartVertex(v);
        ghost var started := Snapshot();
        StartShrinks(graph, entry, started, v);
        var successors := graph.Adjacent(v);
        for i := 0 to |successors|
          invariant visiting == started.visiting && started.visited <= visited
          invariant Search.VisitEach(graph, Snapshot(), v, i) == Search.VisitEach(graph, started, v, 0)
        {
          var w := successors[i];
          visitor.OnExamineEdge(v, w);
          assert w in graph.Targets() by {
            assert v in graph.adjacency && w in graph.adjacency[v];
          }
          CountShrinks(graph, started, Snapshot());
          Visit(w);
        }
        visitor.OnFinishVertex(v);
        visiting := visiting - {v};
        visited := visited + {v};
      }
    }
  }

  /** traverse(graph, visitor, start).  A non-object start fails before
      anything else happens; an empty resolved queue fails after source
      discovery (if any) and before any visit; otherwise the queue is
      drained front to back through the visit closure. */
  method Traverse<V(==,!new)>(g: Graph<V>, visitor: Recorder<V>, start: Start<V>) returns (outcome: Outcome)
    modifies visitor
    ensures start.NonObject? ==> outcome == Failed(OutOfBounds) && visitor.events == old(visitor.events)
    ensures !start.NonObject? && Resolved(g, start) == [] ==>
      outcome == Failed(NoStartVertex) && visitor.events == old(visitor.events) + Prelude(g, start)
    ensures !start.NonObject? && Resolved(g, start) != [] ==>
      outcome == Completed &&
      visitor.events == Run(g, old(visitor.events) + Prelude(g, start), Resolved(g, start)).trace
  {
    var queue: seq<V>;
    match start {
      case NoStart =>
        queue := FindSources(g, visitor);
      case Queue(vs) =>
        queue := vs;
      case Vertex(v) =>
        queue := [v];
      case NonObject =>
        return Failed(OutOfBounds);
    }

    if queue == [] {
      return Failed(NoStartVertex);
    }

    var traversal := new Traversal(g, visitor);
    ghost var initial := traversal.Snapshot();
    ghost var all := queue;
    assert initial == State({}, {}, old(visitor.events) + Prelude(g, start)) && all == Resolved(g, start);
    while queue != []
      invariant Drain(g, traversal.Snapshot(), queue) == Drain(g, initial, all)
      decreases |queue|
    {
      var v := queue[0];
      queue := queue[1..];
      traversal.Visit(v);
    }
    assert traversal.Snapshot() == Drain(g, initial, all);
    return Completed;
  }
}
