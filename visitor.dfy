/** The visitor that a depth-first traversal drives.

    A visitor is told about five kinds of moment in a traversal.  The model's
    visitor is a recorder: each hook appends one event to the log of what it
    was told, so that every property of a traversal can be stated over that
    log. */
module Visitors {

  /** One call of a visitor hook, with the arguments the traversal passed. */
  datatype Event<V> =
    | InitializeVertex(vertex: V, isSource: bool, queue: seq<V>)
    | StartVertex(vertex: V)
    | ExamineEdge(from: V, to: V)
    | BackEdge(vertex: V)
    | FinishVertex(vertex: V)

  /** A visitor that records every hook call, in call order. */
  class Recorder<V> {
    var events: seq<Event<V>>

    constructor ()
      ensures events == []
    {
      events := [];
    }

    /** v was classified during source discovery; queue is the source queue
        as it stands at this call. */
    method OnInitializeVertex(v: V, isSource: bool, queue: seq<V>)
      modifies this
      ensures events == old(events) + [InitializeVertex(v, isSource, queue)]
    {
      events := events + [InitializeVertex(v, isSource, queue)];
    }

    method OnStartVertex(v: V)
      modifies this
      ensures events == old(events) + [StartVertex(v)]
    {
      events := events + [StartVertex(v)];
    }

    method OnExamineEdge(from: V, to: V)
      modifies this
      ensures events == old(events) + [ExamineEdge(from, to)]
    {
      events := events + [ExamineEdge(from, to)];
    }

    method OnBackEdge(v: V)
      modifies this
      ensures events == old(events) + [BackEdge(v)]
    {
      events := events + [BackEdge(v)];
    }

    method OnFinishVertex(v: V)
      modifies this
      ensures events == old(events) + [FinishVertex(v)]
    {
      events := events + [FinishVertex(v)];
    }
  }

  /** The successors that the log shows were examined from vertex x, in the
      order the ExamineEdge events name them. */
  function ExaminedFrom<V(==)>(log: seq<Event<V>>, x: V): seq<V> {
    if log == [] then []
    else
      var rest := ExaminedFrom(log[1..], x);
      if log[0].ExamineEdge? && log[0].from == x then [log[0].to] + rest else rest
  }

  lemma {:induction false} ExaminedFromAppend<V>(a: seq<Event<V>>, b: seq<Event<V>>, x: V)
    ensures ExaminedFrom(a + b, x) == ExaminedFrom(a, x) + ExaminedFrom(b, x)
  {
    if a == [] {
      assert a + b == b;
    } else {
      assert (a + b)[0] == a[0] && (a + b)[1..] == a[1..] + b;
      ExaminedFromAppend(a[1..], b, x);
    }
  }
}
