/**
 * The element graph the rendering engine builds when a diagram is imported.
 * The viewer only reads it: every element, connections included, is looked up by id.
 */
module Diagram {
  type Id = string

  /** A registry element. Connections are elements too; `incoming` and `outgoing`
      name the connections attached to a shape, `hasWaypoints` marks a connection.
      `kind` is the registry's `type` string, such as "bpmn:Task" or "label". */
  datatype Element = Element(
    id: Id,
    kind: string,
    incoming: seq<Id>,
    outgoing: seq<Id>,
    hasWaypoints: bool)

  /** The engine's element graph, by id. */
  type Graph = map<Id, Element>

  function Ids(xs: seq<Id>): (r: set<Id>)
    ensures forall x :: x in r <==> x in xs
  {
    set x | x in xs
  }

  predicate InGraph(g: Graph, xs: seq<Id>)
  {
    forall x :: x in xs ==> x in g
  }

  /** Every element is stored under its own id and names only connections the graph holds. */
  predicate Closed(g: Graph)
  {
    forall e :: e in g ==>
      g[e].id == e && InGraph(g, g[e].incoming) && InGraph(g, g[e].outgoing)
  }

  /** The connections attached to element `e`, incoming and outgoing. */
  function Incident(g: Graph, e: Id): set<Id>
    requires e in g
  {
    Ids(g[e].incoming) + Ids(g[e].outgoing)
  }

  /** The elements `es` together with all their connections. */
  function Footprint(g: Graph, es: seq<Id>): (r: set<Id>)
    requires InGraph(g, es)
    ensures forall e :: e in es ==> e in r && Incident(g, e) <= r
    ensures forall x :: x in r ==> exists e :: e in es && (x == e || x in Incident(g, e))
    decreases |es|
  {
    if es == [] then {}
    else
      var e := es[|es| - 1];
      assert forall x :: x in es ==> x in es[..|es| - 1] || x == e;
      Footprint(g, es[..|es| - 1]) + {e} + Incident(g, e)
  }
}
