/** The directed graph that a depth-first traversal walks.

    The traversal only ever asks the graph three things: its vertices in the
    graph's own enumeration order (eachVertex), its edges as (from, to) pairs
    (eachEdge), and the successors of one vertex in adjacency order
    (eachAdjacent).  A graph is therefore a sequence of vertices together with
    an ordered successor list per vertex, and the edges are derived from those
    lists, so the three views can never disagree. */
module Graphs {

  datatype Graph<V(!new)> = Graph(vertices: seq<V>, adjacency: map<V, seq<V>>) {

    /** The successors of v in adjacency order; a vertex without an
        adjacency entry has none. */
    function Adjacent(v: V): seq<V> {
      if v in adjacency then adjacency[v] else []
    }

    /** The edges leaving u, in adjacency order. */
    function OutEdges(u: V): (es: seq<(V, V)>)
      ensures |es| == |Adjacent(u)|
      ensures forall i :: 0 <= i < |es| ==> es[i] == (u, Adjacent(u)[i])
    {
      seq(|Adjacent(u)|, i requires 0 <= i < |Adjacent(u)| => (u, Adjacent(u)[i]))
    }

    /** The edges leaving the vertices vs, vertex by vertex. */
    function EdgesFrom(vs: seq<V>): seq<(V, V)> {
      if vs == [] then [] else OutEdges(vs[0]) + EdgesFrom(vs[1..])
    }

    /** Every edge of the graph, as eachEdge enumerates them. */
    function Edges(): seq<(V, V)> {
      EdgesFrom(vertices)
    }

    /** Every vertex that some adjacency list names as a successor. */
    ghost function Targets(): set<V> {
      set u, w | u in adjacency && w in adjacency[u] :: w
    }

    /** p is a walk along edges: consecutive vertices are adjacent. */
    ghost predicate IsPath(p: seq<V>) {
      |p| >= 1 && forall i :: 0 <= i < |p| - 1 ==> p[i + 1] in Adjacent(p[i])
    }

    /** y can be reached from x by following zero or more edges. */
    ghost predicate Reaches(x: V, y: V) {
      exists p :: IsPath(p) && p[0] == x && p[|p| - 1] == y
    }

    /** y can be reached from x by following one or more edges. */
    ghost predicate ReachesPlus(x: V, y: V) {
      exists p :: IsPath(p) && |p| >= 2 && p[0] == x && p[|p| - 1] == y
    }

    /** No vertex lies on a cycle (a self-loop is a cycle). */
    ghost predicate Acyclic() {
      forall v :: !ReachesPlus(v, v)
    }
  }

  /** An edge (u, w) is enumerated exactly when u is a vertex of the graph
      and w is one of its successors. */
  lemma {:induction false} EdgesFromMembership<V(!new)>(g: Graph<V>, vs: seq<V>, e: (V, V))
    ensures e in g.EdgesFrom(vs) <==> e.0 in vs && e.1 in g.Adjacent(e.0)
  {
    if vs != [] {
      EdgesFromMembership(g, vs[1..], e);
      assert vs == [vs[0]] + vs[1..];
      if e.0 == vs[0] && e.1 in g.Adjacent(e.0) {
        var k :| 0 <= k < |g.Adjacent(e.0)| && g.Adjacent(e.0)[k] == e.1;
        assert g.OutEdges(vs[0])[k] == e;
      }
    }
  }

  lemma EdgeMembership<V(!new)>(g: Graph<V>, e: (V, V))
    ensures e in g.Edges() <==> e.0 in g.vertices && e.1 in g.Adjacent(e.0)
  {
    EdgesFromMembership(g, g.vertices, e);
  }

  /** A walk reaching u extends by any edge leaving u. */
  lemma ExtendReach<V(!new)>(g: Graph<V>, x: V, u: V, w: V)
    requires g.Reaches(x, u)
    requires w in g.Adjacent(u)
    ensures g.ReachesPlus(x, w)
  {
    var p :| g.IsPath(p) && p[0] == x && p[|p| - 1] == u;
    var q := p + [w];
    assert g.IsPath(q);
  }

  /** A set of vertices that every edge leaving it stays inside holds every
      vertex reachable from one of its members. */
  lemma ClosedHoldsReachable<V(!new)>(g: Graph<V>, s: set<V>, x: V, y: V)
    requires forall a, w :: a in s && w in g.Adjacent(a) ==> w in s
    requires x in s
    requires g.Reaches(x, y)
    ensures y in s
  {
    var p :| g.IsPath(p) && p[0] == x && p[|p| - 1] == y;
    var i := 0;
    while i < |p| - 1
      invariant 0 <= i < |p|
      invariant p[i] in s
    {
      assert p[i + 1] in g.Adjacent(p[i]);
      i := i + 1;
    }
  }
}
