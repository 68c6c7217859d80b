/** What a depth-first traversal guarantees, proved about the functions of
    module Search: each vertex is started and finished at most once, the
    visit of a vertex brackets everything it discovers, every edge of a
    started vertex is examined in adjacency order, back edges close cycles,
    and a drained queue leaves exactly the reachable vertices finished. */
module TraversalFacts {
  import opened Graphs
  import opened Visitors
  import opened Search

  /** How often the log starts w, and how often it finishes w. */
  ghost function Starts<V>(log: seq<Event<V>>, w: V): nat {
    multiset(log)[StartVertex(w)]
  }

  ghost function Finishes<V>(log: seq<Event<V>>, w: V): nat {
    multiset(log)[FinishVertex(w)]
  }

  /** The vertices that became finished on the way from st to r. */
  ghost function NewlyVisited<V>(st: State<V>, r: State<V>): set<V> {
    r.visited - st.visited
  }

  /** r's log continues st's. */
  ghost predicate Extends<V>(st: State<V>, r: State<V>) {
    |st.trace| <= |r.trace| && r.trace[..|st.trace|] == st.trace
  }

  lemma AddedSplit<V>(st: State<V>, m: State<V>, r: State<V>)
    requires Extends(st, m) && Extends(m, r)
    ensures Extends(st, r)
    ensures Added(st, r) == Added(st, m) + Added(m, r)
  {
    assert r.trace == m.trace + Added(m, r);
    assert m.trace == st.trace + Added(st, m);
  }

  /** The events from st to r, when the first step of the way appends e. */
  lemma AddedAfter<V>(st: State<V>, first: State<V>, m: State<V>, r: State<V>, e: Event<V>)
    requires first.trace == st.trace + [e]
    requires Extends(first, m) && Extends(m, r)
    ensures Extends(st, r)
    ensures Added(st, r) == [e] + Added(first, m) + Added(m, r)
  {
    assert m.trace == first.trace + Added(first, m);
    assert r.trace == m.trace + Added(m, r);
    assert r.trace == st.trace + ([e] + Added(first, m) + Added(m, r));
  }

  lemma SliceCons<T>(s: seq<T>, i: nat)
    requires i < |s|
    ensures s[i..] == [s[i]] + s[i + 1..]
  {
  }

  /** The events of a first visit of v: start v, explore its successors,
      finish v. */
  lemma FreshVisitShape<V(!new)>(g: Graph<V>, st: State<V>, v: V)
    requires v !in st.visiting && v !in st.visited
    ensures var started := State(st.visiting + {v}, st.visited, st.trace + [StartVertex(v)]);
            var explored := VisitEach(g, started, v, 0);
            var r := Visit(g, st, v);
            && r.visiting == explored.visiting - {v}
            && r.visited == explored.visited + {v}
            && Added(st, r) == [StartVertex(v)] + Added(started, explored) + [FinishVertex(v)]
  {
    var started := State(st.visiting + {v}, st.visited, st.trace + [StartVertex(v)]);
    var explored := VisitEach(g, started, v, 0);
    var r := Visit(g, st, v);
    assert explored.trace == started.trace + Added(started, explored);
    assert r.trace == st.trace + [StartVertex(v)] + Added(started, explored) + [FinishVertex(v)];
  }

  /** One step of the adjacency loop of u, unfolded. */
  lemma StepUnfold<V(!new)>(g: Graph<V>, st: State<V>, u: V, i: nat)
    requires i < |g.Adjacent(u)|
    ensures var w := g.Adjacent(u)[i];
            VisitEach(g, st, u, i) ==
              VisitEach(g, Visit(g, State(st.visiting, st.visited, st.trace + [ExamineEdge(u, w)]), w), u, i + 1)
  {
  }

  /** The events of one step of the adjacency loop: examine the edge, visit
      its target, go on with the next successor. */
  lemma StepShape<V(!new)>(g: Graph<V>, st: State<V>, u: V, i: nat)
    requires i < |g.Adjacent(u)|
    ensures var w := g.Adjacent(u)[i];
            var examined := State(st.visiting, st.visited, st.trace + [ExamineEdge(u, w)]);
            var next := Visit(g, examined, w);
            var r := VisitEach(g, st, u, i);
            && w in g.Targets()
            && Count(g, next) <= Count(g, st)
            && r == VisitEach(g, next, u, i + 1)
            && Added(st, r) == [ExamineEdge(u, w)] + Added(examined, next) + Added(next, r)
  {
    var w := g.Adjacent(u)[i];
    var examined := State(st.visiting, st.visited, st.trace + [ExamineEdge(u, w)]);
    var next := Visit(g, examined, w);
    var r := VisitEach(g, st, u, i);
    StepUnfold(g, st, u, i);
    assert w in g.Targets() by {
      assert u in g.adjacency && w in g.adjacency[u];
    }
    CountShrinks(g, st, next);
    AddedAfter(st, examined, next, r, ExamineEdge(u, w));
  }

  /** How a visit opens: a vertex on the recursion path gets one back edge
      and nothing else; a finished vertex gets no event at all; any other
      vertex is started. */
  lemma VisitOpens<V(!new)>(g: Graph<V>, st: State<V>, v: V)
    requires st.visiting !! st.visited
    ensures var r := Visit(g, st, v);
            var d := Added(st, r);
            && (v in st.visiting <==> d == [BackEdge(v)])
            && (v in st.visited <==> d == [])
            && (v !in st.visiting && v !in st.visited <==> |d| > 0 && d[0] == StartVertex(v))
  {
    var r := Visit(g, st, v);
    if v !in st.visiting && v !in st.visited {
      FreshVisitShape(g, st, v);
      var started := State(st.visiting + {v}, st.visited, st.trace + [StartVertex(v)]);
      var explored := VisitEach(g, started, v, 0);
      assert Added(st, r)[0] == StartVertex(v);
    }
  }

  // ---------------------------------------------------------------------
  // Each vertex is started at most once and finished at most once.

  /** Counting starts and finishes across a bracket [start v] + inner + [finish v]. */
  lemma CountsInBracket<V>(v: V, inner: seq<Event<V>>, w: V, n: set<V>)
    requires v !in n
    requires Starts(inner, w) == (if w in n then 1 else 0)
    requires Finishes(inner, w) == (if w in n then 1 else 0)
    ensures Starts([StartVertex(v)] + inner + [FinishVertex(v)], w) == (if w in n + {v} then 1 else 0)
    ensures Finishes([StartVertex(v)] + inner + [FinishVertex(v)], w) == (if w in n + {v} then 1 else 0)
  {
    assert multiset([StartVertex(v)] + inner + [FinishVertex(v)]) ==
      multiset([StartVertex(v)]) + multiset(inner) + multiset([FinishVertex(v)]);
  }

  /** Counting starts and finishes across one loop step [examine] + a + b. */
  lemma CountsInStep<V>(u: V, x: V, a: seq<Event<V>>, b: seq<Event<V>>, w: V, n1: set<V>, n2: set<V>)
    requires n1 !! n2
    requires Starts(a, w) == (if w in n1 then 1 else 0) && Finishes(a, w) == (if w in n1 then 1 else 0)
    requires Starts(b, w) == (if w in n2 then 1 else 0) && Finishes(b, w) == (if w in n2 then 1 else 0)
    ensures Starts([ExamineEdge(u, x)] + a + b, w) == (if w in n1 + n2 then 1 else 0)
    ensures Finishes([ExamineEdge(u, x)] + a + b, w) == (if w in n1 + n2 then 1 else 0)
  {
    assert multiset([ExamineEdge(u, x)] + a + b) == multiset([ExamineEdge(u, x)]) + multiset(a) + multiset(b);
  }

  /** A visit starts and finishes exactly the vertices it newly finishes,
      each exactly once, and nothing else. */
  lemma {:induction false} VisitStartsOnce<V(!new)>(g: Graph<V>, st: State<V>, v: V, w: V)
    decreases Pending(g, st, v), 0, 0
    ensures var r := Visit(g, st, v);
            && Starts(Added(st, r), w) == (if w in NewlyVisited(st, r) then 1 else 0)
            && Finishes(Added(st, r), w) == (if w in NewlyVisited(st, r) then 1 else 0)
  {
    var r := Visit(g, st, v);
    if v in st.visiting {
      assert Added(st, r) == [BackEdge(v)];
    } else if v in st.visited {
      assert Added(st, r) == [];
    } else {
      var started := State(st.visiting + {v}, st.visited, st.trace + [StartVertex(v)]);
      StartShrinks(g, st, started, v);
      VisitEachStartsOnce(g, started, v, 0, w);
      StartsBracket(g, st, v, w);
    }
  }

  /** A first visit, put together from what its adjacency loop starts and
      finishes. */
  lemma StartsBracket<V(!new)>(g: Graph<V>, st: State<V>, v: V, w: V)
    requires v !in st.visiting && v !in st.visited
    requires var started := State(st.visiting + {v}, st.visited, st.trace + [StartVertex(v)]);
             var explored := VisitEach(g, started, v, 0);
             && Starts(Added(started, explored), w) == (if w in NewlyVisited(started, explored) then 1 else 0)
             && Finishes(Added(started, explored), w) == (if w in NewlyVisited(started, explored) then 1 else 0)
    ensures var r := Visit(g, st, v);
            && Starts(Added(st, r), w) == (if w in NewlyVisited(st, r) then 1 else 0)
            && Finishes(Added(st, r), w) == (if w in NewlyVisited(st, r) then 1 else 0)
  {
    var started := State(st.visiting + {v}, st.visited, st.trace + [StartVertex(v)]);
    var explored := VisitEach(g, started, v, 0);
    FreshVisitShape(g, st, v);
    CountsInBracket(v, Added(started, explored), w, NewlyVisited(started, explored));
  }

  lemma {:induction false} VisitEachStartsOnce<V(!new)>(g: Graph<V>, st: State<V>, u: V, i: nat, w: V)
    requires i <= |g.Adjacent(u)|
    decreases Count(g, st), 1, |g.Adjacent(u)| - i
    ensures var r := VisitEach(g, st, u, i);
            && Starts(Added(st, r), w) == (if w in NewlyVisited(st, r) then 1 else 0)
            && Finishes(Added(st, r), w) == (if w in NewlyVisited(st, r) then 1 else 0)
  {
    if i == |g.Adjacent(u)| {
      assert Added(st, VisitEach(g, st, u, i)) == [];
    } else {
      var x := g.Adjacent(u)[i];
      var examined := State(st.visiting, st.visited, st.trace + [ExamineEdge(u, x)]);
      var next := Visit(g, examined, x);
      StepShape(g, st, u, i);
      VisitStartsOnce(g, examined, x, w);
      VisitEachStartsOnce(g, next, u, i + 1, w);
      StartsStep(g, st, u, i, w);
    }
  }

  /** One step of the adjacency loop, put together from what the visit of
      the successor and the rest of the loop start and finish. */
  lemma StartsStep<V(!new)>(g: Graph<V>, st: State<V>, u: V, i: nat, w: V)
    requires i < |g.Adjacent(u)|
    requires var x := g.Adjacent(u)[i];
             var examined := State(st.visiting, st.visited, st.trace + [ExamineEdge(u, x)]);
             var next := Visit(g, examined, x);
             var r := VisitEach(g, next, u, i + 1);
             && Starts(Added(examined, next), w) == (if w in NewlyVisited(examined, next) then 1 else 0)
             && Finishes(Added(examined, next), w) == (if w in NewlyVisited(examined, next) then 1 else 0)
             && Starts(Added(next, r), w) == (if w in NewlyVisited(next, r) then 1 else 0)
             && Finishes(Added(next, r), w) == (if w in NewlyVisited(next, r) then 1 else 0)
    ensures var r := VisitEach(g, st, u, i);
            && Starts(Added(st, r), w) == (if w in NewlyVisited(st, r) then 1 else 0)
            && Finishes(Added(st, r), w) == (if w in NewlyVisited(st, r) then 1 else 0)
  {
    var r := VisitEach(g, st, u, i);
    var x := g.Adjacent(u)[i];
    var examined := State(st.visiting, st.visited, st.trace + [ExamineEdge(u, x)]);
    var next := Visit(g, examined, x);
    StepShape(g, st, u, i);
    CountsInStep(u, x, Added(examined, next), Added(next, r), w, NewlyVisited(examined, next), NewlyVisited(next, r));
  }

  // ---------------------------------------------------------------------
  // Every edge of a started vertex is examined, in adjacency order.

  /** The edges examined from x in a bracket [start v] + inner + [finish v]
      are those examined in inner. */
  lemma ExaminedInBracket<V>(v: V, inner: seq<Event<V>>, x: V)
    ensures ExaminedFrom([StartVertex(v)] + inner + [FinishVertex(v)], x) == ExaminedFrom(inner, x)
  {
    ExaminedFromAppend([StartVertex(v)] + inner, [FinishVertex(v)], x);
    ExaminedFromAppend([StartVertex(v)], inner, x);
  }

  /** The edges examined from x in one loop step. */
  lemma ExaminedInStep<V>(u: V, w: V, a: seq<Event<V>>, b: seq<Event<V>>, x: V)
    ensures ExaminedFrom([ExamineEdge(u, w)] + a + b, x) ==
      (if x == u then [w] else []) + ExaminedFrom(a, x) + ExaminedFrom(b, x)
  {
    ExaminedFromAppend([ExamineEdge(u, w)] + a, b, x);
    ExaminedFromAppend([ExamineEdge(u, w)], a, x);
  }

  /** One loop step, put together from what its two parts examine. */
  lemma ExaminedStepCombined<V>(u: V, w: V, x: V, a: seq<Event<V>>, b: seq<Event<V>>,
                                fromU: seq<V>, fromX: seq<V>, n1: set<V>, n2: set<V>)
    requires u !in n1 && u !in n2 && n1 !! n2
    requires ExaminedFrom(a, x) == (if x in n1 then fromX else [])
    requires ExaminedFrom(b, x) == (if x == u then fromU else if x in n2 then fromX else [])
    ensures ExaminedFrom([ExamineEdge(u, w)] + a + b, x) ==
      if x == u then [w] + fromU else if x in n1 + n2 then fromX else []
  {
    ExaminedInStep(u, w, a, b, x);
  }

  /** Every adjacency of a started vertex is examined, in adjacency order,
      and no other vertex has an edge examined. */
  lemma {:induction false} VisitExamines<V(!new)>(g: Graph<V>, st: State<V>, v: V, x: V)
    decreases Pending(g, st, v), 0, 0
    ensures var r := Visit(g, st, v);
            ExaminedFrom(Added(st, r), x) == (if x in NewlyVisited(st, r) then g.Adjacent(x) else [])
  {
    var r := Visit(g, st, v);
    if v in st.visiting {
      assert Added(st, r) == [BackEdge(v)];
    } else if v in st.visited {
      assert Added(st, r) == [];
    } else {
      var started := State(st.visiting + {v}, st.visited, st.trace + [StartVertex(v)]);
      StartShrinks(g, st, started, v);
      VisitEachExamines(g, started, v, 0, x);
      ExaminesBracket(g, st, v, x);
    }
  }

  /** A first visit, put together from what its adjacency loop examines. */
  lemma ExaminesBracket<V(!new)>(g: Graph<V>, st: State<V>, v: V, x: V)
    requires v !in st.visiting && v !in st.visited
    requires var started := State(st.visiting + {v}, st.visited, st.trace + [StartVertex(v)]);
             var explored := VisitEach(g, started, v, 0);
             ExaminedFrom(Added(started, explored), x) ==
               if x == v then g.Adjacent(v)[0..]
               else if x in NewlyVisited(started, explored) then g.Adjacent(x)
               else []
    ensures var r := Visit(g, st, v);
            ExaminedFrom(Added(st, r), x) == (if x in NewlyVisited(st, r) then g.Adjacent(x) else [])
  {
    var started := State(st.visiting + {v}, st.visited, st.trace + [StartVertex(v)]);
    var explored := VisitEach(g, started, v, 0);
    FreshVisitShape(g, st, v);
    assert g.Adjacent(v)[0..] == g.Adjacent(v);
    ExaminedInBracket(v, Added(started, explored), x);
  }

  /** The rest of the adjacency loop of u examines the remaining successors
      of u in order, and the full adjacency of every vertex it starts. */
  lemma {:induction false} VisitEachExamines<V(!new)>(g: Graph<V>, st: State<V>, u: V, i: nat, x: V)
    requires i <= |g.Adjacent(u)|
    requires u in st.visiting
    decreases Count(g, st), 1, |g.Adjacent(u)| - i
    ensures var r := VisitEach(g, st, u, i);
            ExaminedFrom(Added(st, r), x) ==
              if x == u then g.Adjacent(u)[i..]
              else if x in NewlyVisited(st, r) then g.Adjacent(x)
              else []
  {
    if i == |g.Adjacent(u)| {
      assert Added(st, VisitEach(g, st, u, i)) == [];
    } else {
      var w := g.Adjacent(u)[i];
      var examined := State(st.visiting, st.visited, st.trace + [ExamineEdge(u, w)]);
      var next := Visit(g, examined, w);
      StepShape(g, st, u, i);
      VisitExamines(g, examined, w, x);
      VisitEachExamines(g, next, u, i + 1, x);
      ExaminesStep(g, st, u, i, x);
    }
  }

  /** One step of the adjacency loop, put together from what the visit of
      the successor and the rest of the loop examine. */
  lemma ExaminesStep<V(!new)>(g: Graph<V>, st: State<V>, u: V, i: nat, x: V)
    requires i < |g.Adjacent(u)|
    requires u in st.visiting
    requires var w := g.Adjacent(u)[i];
             var examined := State(st.visiting, st.visited, st.trace + [ExamineEdge(u, w)]);
             var next := Visit(g, examined, w);
             var r := VisitEach(g, next, u, i + 1);
             && ExaminedFrom(Added(examined, next), x) ==
                  (if x in NewlyVisited(examined, next) then g.Adjacent(x) else [])
             && ExaminedFrom(Added(next, r), x) ==
                  if x == u then g.Adjacent(u)[i + 1..]
                  else if x in NewlyVisited(next, r) then g.Adjacent(x)
                  else []
    ensures var r := VisitEach(g, st, u, i);
            ExaminedFrom(Added(st, r), x) ==
              if x == u then g.Adjacent(u)[i..]
              else if x in NewlyVisited(st, r) then g.Adjacent(x)
              else []
  {
    var r := VisitEach(g, st, u, i);
    var w := g.Adjacent(u)[i];
    var examined := State(st.visiting, st.visited, st.trace + [ExamineEdge(u, w)]);
    var next := Visit(g, examined, w);
    var a := Added(examined, next);
    var b := Added(next, r);
    var n1 := NewlyVisited(examined, next);
    var n2 := NewlyVisited(next, r);
    StepShape(g, st, u, i);
    assert NewlyVisited(st, r) == n1 + n2 && u !in n1 && u !in n2 && n1 !! n2;
    SliceCons(g.Adjacent(u), i);
    ExaminedStepCombined(u, w, x, a, b, g.Adjacent(u)[i + 1..], g.Adjacent(x), n1, n2);
  }

  /** The first visit of v opens with onStartVertex(v) and closes with
      onFinishVertex(v); between them lie every edge examination of v, in
      adjacency order, and the start and the finish of every other vertex
      that the visit discovers. */
  lemma VisitBrackets<V(!new)>(g: Graph<V>, st: State<V>, v: V, w: V)
    requires v !in st.visiting && v !in st.visited
    ensures var r := Visit(g, st, v);
            var d := Added(st, r);
            && |d| >= 2
            && d[0] == StartVertex(v)
            && d[|d| - 1] == FinishVertex(v)
            && ExaminedFrom(d[1..|d| - 1], v) == g.Adjacent(v)
            && (w in NewlyVisited(st, r) && w != v ==>
                 StartVertex(w) in d[1..|d| - 1] && FinishVertex(w) in d[1..|d| - 1])
  {
    var r := Visit(g, st, v);
    var started := State(st.visiting + {v}, st.visited, st.trace + [StartVertex(v)]);
    var explored := VisitEach(g, started, v, 0);
    var inner := Added(started, explored);
    var n := NewlyVisited(started, explored);
    var d := Added(st, r);
    assert d == [StartVertex(v)] + inner + [FinishVertex(v)] && NewlyVisited(st, r) == n + {v} by {
      FreshVisitShape(g, st, v);
    }
    assert d[1..|d| - 1] == inner;
    assert ExaminedFrom(inner, v) == g.Adjacent(v) by {
      StartShrinks(g, st, started, v);
      VisitEachExamines(g, started, v, 0, v);
      assert g.Adjacent(v)[0..] == g.Adjacent(v);
    }
    assert Starts(inner, w) == (if w in n then 1 else 0)
        && Finishes(inner, w) == (if w in n then 1 else 0) by {
      StartShrinks(g, st, started, v);
      VisitEachStartsOnce(g, started, v, 0, w);
    }
  }

  // ---------------------------------------------------------------------
  // Back edges close cycles.

  lemma ReachesSelf<V(!new)>(g: Graph<V>, v: V)
    ensures g.Reaches(v, v)
  {
    assert g.IsPath([v]);
  }

  lemma PlusIsReach<V(!new)>(g: Graph<V>, x: V, y: V)
    requires g.ReachesPlus(x, y)
    ensures g.Reaches(x, y)
  {
    var p :| g.IsPath(p) && |p| >= 2 && p[0] == x && p[|p| - 1] == y;
  }

  /** When every vertex on the recursion path reaches v by at least one edge
      (as it does whenever v is the target of the edge being examined),
      every back edge reported during the visit of v is at a vertex that
      lies on a cycle. */
  lemma {:induction false} VisitBackEdges<V(!new)>(g: Graph<V>, st: State<V>, v: V, w: V)
    requires forall x :: x in st.visiting ==> g.ReachesPlus(x, v)
    decreases Pending(g, st, v), 0, 0
    ensures var r := Visit(g, st, v);
            BackEdge(w) in Added(st, r) ==> g.ReachesPlus(w, w)
  {
    var r := Visit(g, st, v);
    if v in st.visiting {
      assert Added(st, r) == [BackEdge(v)];
    } else if v in st.visited {
      assert Added(st, r) == [];
    } else {
      var started := State(st.visiting + {v}, st.visited, st.trace + [StartVertex(v)]);
      StartShrinks(g, st, started, v);
      forall x | x in started.visiting
        ensures g.Reaches(x, v)
      {
        if x == v {
          ReachesSelf(g, v);
        } else {
          PlusIsReach(g, x, v);
        }
      }
      VisitEachBackEdges(g, started, v, 0, w);
      BackEdgesBracket(g, st, v, w);
    }
  }

  lemma BackEdgesBracket<V(!new)>(g: Graph<V>, st: State<V>, v: V, w: V)
    requires v !in st.visiting && v !in st.visited
    requires var started := State(st.visiting + {v}, st.visited, st.trace + [StartVertex(v)]);
             var explored := VisitEach(g, started, v, 0);
             BackEdge(w) in Added(started, explored) ==> g.ReachesPlus(w, w)
    ensures var r := Visit(g, st, v);
            BackEdge(w) in Added(st, r) ==> g.ReachesPlus(w, w)
  {
    FreshVisitShape(g, st, v);
  }

  lemma {:induction false} VisitEachBackEdges<V(!new)>(g: Graph<V>, st: State<V>, u: V, i: nat, w: V)
    requires i <= |g.Adjacent(u)|
    requires forall x :: x in st.visiting ==> g.Reaches(x, u)
    decreases Count(g, st), 1, |g.Adjacent(u)| - i
    ensures var r := VisitEach(g, st, u, i);
            BackEdge(w) in Added(st, r) ==> g.ReachesPlus(w, w)
  {
    if i == |g.Adjacent(u)| {
      assert Added(st, VisitEach(g, st, u, i)) == [];
    } else {
      var x := g.Adjacent(u)[i];
      var examined := State(st.visiting, st.visited, st.trace + [ExamineEdge(u, x)]);
      var next := Visit(g, examined, x);
      StepShape(g, st, u, i);
      forall y | y in examined.visiting
        ensures g.ReachesPlus(y, x)
      {
        ExtendReach(g, y, u, x);
      }
      VisitBackEdges(g, examined, x, w);
      VisitEachBackEdges(g, next, u, i + 1, w);
      BackEdgesStep(g, st, u, i, w);
    }
  }

  lemma BackEdgesStep<V(!new)>(g: Graph<V>, st: State<V>, u: V, i: nat, w: V)
    requires i < |g.Adjacent(u)|
    requires var x := g.Adjacent(u)[i];
             var examined := State(st.visiting, st.visited, st.trace + [ExamineEdge(u, x)]);
             var next := Visit(g, examined, x);
             var r := VisitEach(g, next, u, i + 1);
             && (BackEdge(w) in Added(examined, next) ==> g.ReachesPlus(w, w))
             && (BackEdge(w) in Added(next, r) ==> g.ReachesPlus(w, w))
    ensures var r := VisitEach(g, st, u, i);
            BackEdge(w) in Added(st, r) ==> g.ReachesPlus(w, w)
  {
    StepShape(g, st, u, i);
  }

  // ---------------------------------------------------------------------
  // Finished vertices cover what their edges lead to.

  /** Every edge out of a finished vertex leads to a finished vertex or to
      one on the recursion path. */
  ghost predicate Closed<V(!new)>(g: Graph<V>, st: State<V>) {
    forall x, w :: x in st.visited && w in g.Adjacent(x) ==> w in st.visited || w in st.visiting
  }

  /** After the adjacency loop of u has passed the j-th successor, that
      successor is finished or on the recursion path. */
  lemma {:induction false} VisitEachCovers<V(!new)>(g: Graph<V>, st: State<V>, u: V, i: nat, j: nat)
    requires i <= j < |g.Adjacent(u)|
    decreases |g.Adjacent(u)| - i
    ensures var r := VisitEach(g, st, u, i);
            g.Adjacent(u)[j] in r.visited || g.Adjacent(u)[j] in r.visiting
  {
    var w := g.Adjacent(u)[i];
    var examined := State(st.visiting, st.visited, st.trace + [ExamineEdge(u, w)]);
    var next := Visit(g, examined, w);
    StepShape(g, st, u, i);
    if j > i {
      VisitEachCovers(g, next, u, i + 1, j);
    }
  }

  /** Finishing v keeps the state closed once every successor of v is
      finished or on the recursion path. */
  lemma FinishKeepsClosed<V(!new)>(g: Graph<V>, explored: State<V>, v: V, r: State<V>)
    requires Closed(g, explored)
    requires r.visiting == explored.visiting - {v} && r.visited == explored.visited + {v}
    requires forall w :: w in g.Adjacent(v) ==> w in explored.visited || w in explored.visiting
    ensures Closed(g, r)
  {
  }

  lemma {:induction false} VisitKeepsClosed<V(!new)>(g: Graph<V>, st: State<V>, v: V)
    requires Closed(g, st)
    decreases Pending(g, st, v), 0, 0
    ensures Closed(g, Visit(g, st, v))
  {
    if v !in st.visiting && v !in st.visited {
      var r := Visit(g, st, v);
      var started := State(st.visiting + {v}, st.visited, st.trace + [StartVertex(v)]);
      var explored := VisitEach(g, started, v, 0);
      assert r.visiting == explored.visiting - {v} && r.visited == explored.visited + {v} by {
        FreshVisitShape(g, st, v);
      }
      assert Closed(g, explored) by {
        StartShrinks(g, st, started, v);
        VisitEachKeepsClosed(g, started, v, 0);
      }
      forall w | w in g.Adjacent(v)
        ensures w in explored.visited || w in explored.visiting
      {
        var j :| 0 <= j < |g.Adjacent(v)| && g.Adjacent(v)[j] == w;
        VisitEachCovers(g, started, v, 0, j);
      }
      FinishKeepsClosed(g, explored, v, r);
    }
  }

  lemma {:induction false} VisitEachKeepsClosed<V(!new)>(g: Graph<V>, st: State<V>, u: V, i: nat)
    requires i <= |g.Adjacent(u)|
    requires Closed(g, st)
    decreases Count(g, st), 1, |g.Adjacent(u)| - i
    ensures Closed(g, VisitEach(g, st, u, i))
  {
    if i < |g.Adjacent(u)| {
      var w := g.Adjacent(u)[i];
      var examined := State(st.visiting, st.visited, st.trace + [ExamineEdge(u, w)]);
      var next := Visit(g, examined, w);
      assert Closed(g, next) by {
        StepShape(g, st, u, i);
        assert Closed(g, examined);
        VisitKeepsClosed(g, examined, w);
      }
      StepShape(g, st, u, i);
      VisitEachKeepsClosed(g, next, u, i + 1);
    }
  }

  // ---------------------------------------------------------------------
  // A visit finishes only what its start vertex reaches.

  lemma {:induction false} VisitReachesOnly<V(!new)>(g: Graph<V>, st: State<V>, v: V, x: V)
    decreases Pending(g, st, v), 0, 0
    ensures var r := Visit(g, st, v);
            x in NewlyVisited(st, r) ==> g.Reaches(v, x)
  {
    if v !in st.visiting && v !in st.visited {
      var r := Visit(g, st, v);
      var started := State(st.visiting + {v}, st.visited, st.trace + [StartVertex(v)]);
      var explored := VisitEach(g, started, v, 0);
      assert NewlyVisited(st, r) == NewlyVisited(started, explored) + {v} by {
        FreshVisitShape(g, st, v);
      }
      if x == v {
        ReachesSelf(g, v);
      } else {
        assert x in NewlyVisited(started, explored) ==> g.ReachesPlus(v, x) by {
          StartShrinks(g, st, started, v);
          VisitEachReachesOnly(g, started, v, 0, x);
        }
        if x in NewlyVisited(started, explored) {
          PlusIsReach(g, v, x);
        }
      }
    }
  }

  lemma {:induction false} VisitEachReachesOnly<V(!new)>(g: Graph<V>, st: State<V>, u: V, i: nat, x: V)
    requires i <= |g.Adjacent(u)|
    decreases Count(g, st), 1, |g.Adjacent(u)| - i
    ensures var r := VisitEach(g, st, u, i);
            x in NewlyVisited(st, r) ==> g.ReachesPlus(u, x)
  {
    if i < |g.Adjacent(u)| {
      var r := VisitEach(g, st, u, i);
      var w := g.Adjacent(u)[i];
      var examined := State(st.visiting, st.visited, st.trace + [ExamineEdge(u, w)]);
      var next := Visit(g, examined, w);
      assert NewlyVisited(st, r) == NewlyVisited(examined, next) + NewlyVisited(next, r) by {
        StepShape(g, st, u, i);
      }
      assert x in NewlyVisited(examined, next) ==> g.ReachesPlus(u, x) by {
        StepShape(g, st, u, i);
        VisitReachesOnly(g, examined, w, x);
        if x in NewlyVisited(examined, next) {
          PrependEdge(g, u, w, x);
        }
      }
      assert x in NewlyVisited(next, r) ==> g.ReachesPlus(u, x) by {
        StepShape(g, st, u, i);
        VisitEachReachesOnly(g, next, u, i + 1, x);
      }
    }
  }

  /** An edge u -> w followed by a walk from w to x is a walk of at least
      one edge from u to x. */
  lemma PrependEdge<V(!new)>(g: Graph<V>, u: V, w: V, x: V)
    requires w in g.Adjacent(u)
    requires g.Reaches(w, x)
    ensures g.ReachesPlus(u, x)
  {
    var p :| g.IsPath(p) && p[0] == w && p[|p| - 1] == x;
    var q := [u] + p;
    assert g.IsPath(q);
  }

  // ---------------------------------------------------------------------
  // A vertex is finished only after each of its successors is finished or
  // has been reported as a back edge.

  /** Every finished vertex has been reported finished. */
  ghost predicate FinishLogged<V>(st: State<V>) {
    forall x :: x in st.visited ==> FinishVertex(x) in st.trace
  }

  /** Each finish of a vertex u in log comes after, for every successor w
      of u, a finish of w or a back edge at w. */
  ghost predicate FinishesAfterSuccessors<V(!new)>(g: Graph<V>, log: seq<Event<V>>) {
    forall j, w :: 0 <= j < |log| && log[j].FinishVertex? && w in g.Adjacent(log[j].vertex) ==>
      FinishVertex(w) in log[..j] || BackEdge(w) in log[..j]
  }

  /** A log that only grows keeps every finish it has recorded. */
  lemma FinishLoggedGrows<V>(st: State<V>, r: State<V>)
    requires FinishLogged(st)
    requires r.visited == st.visited && |st.trace| <= |r.trace| && r.trace[..|st.trace|] == st.trace
    ensures FinishLogged(r)
  {
    forall x | x in r.visited
      ensures FinishVertex(x) in r.trace
    {
      var k :| 0 <= k < |st.trace| && st.trace[k] == FinishVertex(x);
      assert r.trace[k] == st.trace[k];
    }
  }

  /** A visit reports the finish of every vertex it newly finishes. */
  lemma VisitFinishLogged<V(!new)>(g: Graph<V>, st: State<V>, v: V)
    requires FinishLogged(st)
    ensures FinishLogged(Visit(g, st, v))
  {
    var r := Visit(g, st, v);
    forall x | x in r.visited
      ensures FinishVertex(x) in r.trace
    {
      if x in st.visited {
        var k :| 0 <= k < |st.trace| && st.trace[k] == FinishVertex(x);
        assert r.trace[k] == st.trace[k];
      } else {
        VisitStartsOnce(g, st, v, x);
        assert FinishVertex(x) in multiset(Added(st, r));
        assert r.trace == st.trace + Added(st, r);
      }
    }
  }

  /** Appending an event that is not a finish keeps the order property. */
  lemma AppendKeepsOrder<V(!new)>(g: Graph<V>, log: seq<Event<V>>, e: Event<V>)
    requires FinishesAfterSuccessors(g, log)
    requires !e.FinishVertex?
    ensures FinishesAfterSuccessors(g, log + [e])
  {
    forall j, w | 0 <= j < |log + [e]| && (log + [e])[j].FinishVertex? && w in g.Adjacent((log + [e])[j].vertex)
      ensures FinishVertex(w) in (log + [e])[..j] || BackEdge(w) in (log + [e])[..j]
    {
      assert (log + [e])[..j] == log[..j];
    }
  }

  /** Appending the finish of v keeps the order property once every
      successor of v is finished or reported as a back edge. */
  lemma AppendFinishKeepsOrder<V(!new)>(g: Graph<V>, log: seq<Event<V>>, v: V)
    requires FinishesAfterSuccessors(g, log)
    requires forall w :: w in g.Adjacent(v) ==> FinishVertex(w) in log || BackEdge(w) in log
    ensures FinishesAfterSuccessors(g, log + [FinishVertex(v)])
  {
    var log' := log + [FinishVertex(v)];
    forall j, w | 0 <= j < |log'| && log'[j].FinishVertex? && w in g.Adjacent(log'[j].vertex)
      ensures FinishVertex(w) in log'[..j] || BackEdge(w) in log'[..j]
    {
      if j < |log| {
        assert log'[..j] == log[..j];
      } else {
        assert log'[..j] == log;
      }
    }
  }

  /** Once the adjacency loop of u has passed a successor w, w is finished
      or has been reported as a back edge. */
  lemma {:induction false} VisitEachHandles<V(!new)>(g: Graph<V>, st: State<V>, u: V, i: nat, w: V)
    requires i <= |g.Adjacent(u)|
    requires FinishLogged(st)
    requires w in g.Adjacent(u)[i..]
    decreases |g.Adjacent(u)| - i
    ensures var r := VisitEach(g, st, u, i);
            FinishVertex(w) in r.trace || BackEdge(w) in r.trace
  {
    var r := VisitEach(g, st, u, i);
    var x := g.Adjacent(u)[i];
    var examined := State(st.visiting, st.visited, st.trace + [ExamineEdge(u, x)]);
    var next := Visit(g, examined, x);
    assert r == VisitEach(g, next, u, i + 1) && |next.trace| <= |r.trace| && r.trace[..|next.trace|] == next.trace by {
      StepShape(g, st, u, i);
    }
    assert FinishLogged(next) by {
      FinishLoggedGrows(st, examined);
      VisitFinishLogged(g, examined, x);
    }
    SliceCons(g.Adjacent(u), i);
    if w == x {
      assert FinishVertex(w) in next.trace || BackEdge(w) in next.trace by {
        if x in examined.visiting {
        } else if x in examined.visited {
          FinishLoggedGrows(st, examined);
        } else {
          FreshVisitShape(g, examined, x);
          assert next.trace == examined.trace + Added(examined, next);
        }
      }
      var k :| 0 <= k < |next.trace| && (next.trace[k] == FinishVertex(w) || next.trace[k] == BackEdge(w));
      assert r.trace[k] == next.trace[k];
    } else {
      VisitEachHandles(g, next, u, i + 1, w);
    }
  }

  /** A visit keeps the order property. */
  lemma {:induction false} VisitKeepsOrder<V(!new)>(g: Graph<V>, st: State<V>, v: V)
    requires FinishLogged(st) && FinishesAfterSuccessors(g, st.trace)
    decreases Pending(g, st, v), 0, 0
    ensures FinishesAfterSuccessors(g, Visit(g, st, v).trace)
  {
    if v in st.visiting {
      AppendKeepsOrder(g, st.trace, BackEdge(v));
    } else if v !in st.visited {
      var r := Visit(g, st, v);
      var started := State(st.visiting + {v}, st.visited, st.trace + [StartVertex(v)]);
      var explored := VisitEach(g, started, v, 0);
      assert r.trace == explored.trace + [FinishVertex(v)];
      assert FinishLogged(started) && FinishesAfterSuccessors(g, started.trace) by {
        FinishLoggedGrows(st, started);
        AppendKeepsOrder(g, st.trace, StartVertex(v));
      }
      assert FinishesAfterSuccessors(g, explored.trace) by {
        StartShrinks(g, st, started, v);
        VisitEachKeepsOrder(g, started, v, 0);
      }
      forall w | w in g.Adjacent(v)
        ensures FinishVertex(w) in explored.trace || BackEdge(w) in explored.trace
      {
        assert g.Adjacent(v)[0..] == g.Adjacent(v);
        VisitEachHandles(g, started, v, 0, w);
      }
      AppendFinishKeepsOrder(g, explored.trace, v);
    }
  }

  lemma {:induction false} VisitEachKeepsOrder<V(!new)>(g: Graph<V>, st: State<V>, u: V, i: nat)
    requires i <= |g.Adjacent(u)|
    requires FinishLogged(st) && FinishesAfterSuccessors(g, st.trace)
    decreases Count(g, st), 1, |g.Adjacent(u)| - i
    ensures FinishesAfterSuccessors(g, VisitEach(g, st, u, i).trace)
  {
    if i < |g.Adjacent(u)| {
      var x := g.Adjacent(u)[i];
      var examined := State(st.visiting, st.visited, st.trace + [ExamineEdge(u, x)]);
      var next := Visit(g, examined, x);
      assert FinishLogged(examined) && FinishesAfterSuccessors(g, examined.trace) by {
        FinishLoggedGrows(st, examined);
        AppendKeepsOrder(g, st.trace, ExamineEdge(u, x));
      }
      assert FinishLogged(next) && FinishesAfterSuccessors(g, next.trace) by {
        StepShape(g, st, u, i);
        VisitFinishLogged(g, examined, x);
        VisitKeepsOrder(g, examined, x);
      }
      StepShape(g, st, u, i);
      VisitEachKeepsOrder(g, next, u, i + 1);
    }
  }
}
