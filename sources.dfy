/** Source discovery (DepthFirst::find_sources): which vertices have no
    incoming edge, in the graph's vertex order, with one onInitializeVertex
    call per vertex. */
module SourceDiscovery {
  import opened Graphs
  import opened Visitors

  /** Some edge of the graph points at v; a self-loop counts. */
  predicate HasIncoming<V(==,!new)>(g: Graph<V>, v: V) {
    exists e :: e in g.Edges() && e.1 == v
  }

  /** The sources among vs, in the order of vs. */
  function SourcesIn<V(==,!new)>(g: Graph<V>, vs: seq<V>): seq<V> {
    if vs == [] then []
    else
      var v := vs[|vs| - 1];
      SourcesIn(g, vs[..|vs| - 1]) + (if HasIncoming(g, v) then [] else [v])
  }

  /** The source queue of the whole graph. */
  function Sources<V(==,!new)>(g: Graph<V>): seq<V> {
    SourcesIn(g, g.vertices)
  }

  /** The onInitializeVertex calls made for the vertices vs: one per vertex,
      in order, each with the source queue as it stands at that call. */
  function InitEventsIn<V(==,!new)>(g: Graph<V>, vs: seq<V>): seq<Event<V>> {
    if vs == [] then []
    else
      var v := vs[|vs| - 1];
      InitEventsIn(g, vs[..|vs| - 1]) + [InitializeVertex(v, !HasIncoming(g, v), SourcesIn(g, vs))]
  }

  function InitEvents<V(==,!new)>(g: Graph<V>): seq<Event<V>> {
    InitEventsIn(g, g.vertices)
  }

  /** The first pass of find_sources: map each edge target to the set of
      vertices with an edge into it. */
  method Incomings<V(==,!new)>(edges: seq<(V, V)>) returns (m: map<V, set<V>>)
    ensures forall t :: t in m <==> exists e :: e in edges && e.1 == t
    ensures forall t, u :: t in m ==> (u in m[t] <==> (u, t) in edges)
  {
    m := map[];
    for i := 0 to |edges|
      invariant forall t :: t in m <==> exists j :: 0 <= j < i && edges[j].1 == t
      invariant forall t, u :: t in m ==> (u in m[t] <==> (u, t) in edges[..i])
    {
      var (from, to) := edges[i];
      if to !in m {
        m := m[to := {}];
      }
      m := m[to := m[to] + {from}];
      assert edges[..i + 1] == edges[..i] + [(from, to)];
    }
    assert edges[..|edges|] == edges;
  }

  /** Extending the scanned prefix of vs by one vertex. */
  lemma PrefixStep<V(!new)>(g: Graph<V>, vs: seq<V>, i: nat)
    requires i < |vs|
    ensures SourcesIn(g, vs[..i + 1]) == SourcesIn(g, vs[..i]) + (if HasIncoming(g, vs[i]) then [] else [vs[i]])
    ensures InitEventsIn(g, vs[..i + 1]) ==
      InitEventsIn(g, vs[..i]) + [InitializeVertex(vs[i], !HasIncoming(g, vs[i]), SourcesIn(g, vs[..i + 1]))]
  {
    assert vs[..i + 1][..i] == vs[..i];
  }

  /** find_sources: queue every vertex without an incoming edge, in vertex
      order, and tell the visitor about every vertex. */
  method FindSources<V(==,!new)>(g: Graph<V>, visitor: Recorder<V>) returns (queue: seq<V>)
    modifies visitor
    ensures queue == Sources(g)
    ensures visitor.events == old(visitor.events) + InitEvents(g)
  {
    var incomings := Incomings(g.Edges());
    queue := [];
    for i := 0 to |g.vertices|
      invariant queue == SourcesIn(g, g.vertices[..i])
      invariant visitor.events == old(visitor.events) + InitEventsIn(g, g.vertices[..i])
    {
      var v := g.vertices[i];
      PrefixStep(g, g.vertices, i);
      assert v in incomings <==> HasIncoming(g, v);
      if v !in incomings {
        queue := queue + [v];
        visitor.OnInitializeVertex(v, true, queue);
      } else {
        visitor.OnInitializeVertex(v, false, queue);
      }
    }
    assert g.vertices[..|g.vertices|] == g.vertices;
  }

  /** A vertex has an incoming edge exactly when it is a successor of some
      vertex of the graph. */
  lemma HasIncomingIff<V(!new)>(g: Graph<V>, v: V)
    ensures HasIncoming(g, v) <==> exists u :: u in g.vertices && v in g.Adjacent(u)
  {
    if HasIncoming(g, v) {
      var e :| e in g.Edges() && e.1 == v;
      EdgeMembership(g, e);
    }
    if exists u :: u in g.vertices && v in g.Adjacent(u) {
      var u :| u in g.vertices && v in g.Adjacent(u);
      EdgeMembership(g, (u, v));
    }
  }

  /** The source queue holds exactly the vertices without an incoming edge. */
  lemma {:induction false} SourcesInMembership<V(!new)>(g: Graph<V>, vs: seq<V>, x: V)
    ensures x in SourcesIn(g, vs) <==> x in vs && !HasIncoming(g, x)
  {
    if vs != [] {
      var init := vs[..|vs| - 1];
      SourcesInMembership(g, init, x);
      assert vs == init + [vs[|vs| - 1]];
    }
  }

  lemma SourcesMembership<V(!new)>(g: Graph<V>, x: V)
    ensures x in Sources(g) <==> x in g.vertices && !HasIncoming(g, x)
  {
    SourcesInMembership(g, g.vertices, x);
  }

  /** Sources keep the vertex order: the sources of a + b are those of a
      followed by those of b. */
  lemma {:induction false} SourcesInAppend<V(!new)>(g: Graph<V>, a: seq<V>, b: seq<V>)
    ensures SourcesIn(g, a + b) == SourcesIn(g, a) + SourcesIn(g, b)
  {
    if b == [] {
      assert a + b == a;
    } else {
      var init := b[..|b| - 1];
      assert (a + b)[..|a + b| - 1] == a + init;
      SourcesInAppend(g, a, init);
    }
  }

  /** A vertex whose only incoming edge is a self-loop is not a source. */
  lemma SelfLoopIsNotSource<V(!new)>(g: Graph<V>, v: V)
    requires v in g.vertices && v in g.Adjacent(v)
    ensures v !in Sources(g)
  {
    HasIncomingIff(g, v);
    SourcesMembership(g, v);
  }

  /** When every vertex is the target of some edge (a graph made only of
      cycles, or an empty graph), the source queue is empty. */
  lemma NoSourcesWhenAllHaveIncoming<V(!new)>(g: Graph<V>)
    requires forall v :: v in g.vertices ==> exists u :: u in g.vertices && v in g.Adjacent(u)
    ensures Sources(g) == []
  {
    if Sources(g) != [] {
      var x := Sources(g)[0];
      SourcesMembership(g, x);
      HasIncomingIff(g, x);
    }
  }

  /** Exactly one onInitializeVertex call per vertex, in vertex order; its
      flag says whether the vertex has no incoming edge, and it is set exactly
      when the vertex was just pushed onto the queue handed over with it. */
  lemma {:induction false} InitEventsAt<V(!new)>(g: Graph<V>, vs: seq<V>, i: nat)
    requires i < |vs|
    ensures |InitEventsIn(g, vs)| == |vs|
    ensures InitEventsIn(g, vs)[i].InitializeVertex?
    ensures InitEventsIn(g, vs)[i].vertex == vs[i]
    ensures InitEventsIn(g, vs)[i].isSource == !HasIncoming(g, vs[i])
    ensures InitEventsIn(g, vs)[i].queue == SourcesIn(g, vs[..i + 1])
    ensures InitEventsIn(g, vs)[i].isSource <==> SourcesIn(g, vs[..i + 1]) == SourcesIn(g, vs[..i]) + [vs[i]]
  {
    var init := vs[..|vs| - 1];
    assert vs[..i + 1][..i] == vs[..i];
    if i < |vs| - 1 {
      InitEventsAt(g, init, i);
      assert init[..i + 1] == vs[..i + 1];
      assert init[..i] == vs[..i];
    } else {
      assert vs[..i + 1] == vs;
      if |vs| > 1 {
        InitEventsAt(g, init, 0);
      }
    }
  }
}
