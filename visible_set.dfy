/**
 * The visible-set engine of the viewer: taking elements and their connections off
 * the canvas and putting them back. The element registry's membership is what the
 * viewer treats as "on the canvas", so `visible` plays both parts here.
 *
 * The pure functions below give the state after each operation; the class `Canvas`
 * performs the same operations step by step and is proved to reach that state.
 */
module VisibleSet {
  import opened Diagram

  /** One call made to the canvas. */
  datatype Call = AddShape(id: Id) | AddConn(id: Id) | RemoveShape(id: Id) | RemoveConn(id: Id)

  /** The ids on the canvas and every canvas call made so far, oldest first. */
  datatype Surface = Surface(visible: set<Id>, log: seq<Call>)

  /** The call `addConnectionArray` makes for a connection it puts back:
      an entry of type "label" goes back as a shape, anything else as a connection. */
  function AddCallFor(g: Graph, c: Id): Call
    requires c in g
  {
    if g[c].kind == "label" then AddShape(c) else AddConn(c)
  }

  // ---------------------------------------------------------------------------
  // Removal

  /** `removeConnectionArray`: every connection of `cs`, in order, comes off the canvas. */
  function RemovedConnections(s: Surface, cs: seq<Id>): Surface
    decreases |cs|
  {
    if cs == [] then s
    else
      var t := RemovedConnections(s, cs[..|cs| - 1]);
      var c := cs[|cs| - 1];
      Surface(t.visible - {c}, t.log + [RemoveConn(c)])
  }

  /** One turn of `removeElements`: the incoming connections, the outgoing ones, then the shape. */
  function RemovedElement(g: Graph, s: Surface, e: Id): Surface
    requires e in g
  {
    var t := RemovedConnections(RemovedConnections(s, g[e].incoming), g[e].outgoing);
    Surface(t.visible - {e}, t.log + [RemoveShape(e)])
  }

  /** `removeElements`: one turn per element of `es`, in order. */
  function RemovedElements(g: Graph, s: Surface, es: seq<Id>): (r: Surface)
    requires InGraph(g, es)
    ensures r.visible <= s.visible
    ensures |s.log| + |es| <= |r.log| && r.log[..|s.log|] == s.log
    decreases |es|
  {
    if es == [] then s
    else
      var t := RemovedElements(g, s, es[..|es| - 1]);
      RemovedElementEffect(g, t, es[|es| - 1]);
      assert t.log[..|s.log|] == s.log;
      RemovedElement(g, t, es[|es| - 1])
  }

  // ---------------------------------------------------------------------------
  // Adding

  /** `addConnectionArray`: each connection of `cs` not on the canvas at its turn is put back. */
  function AddedConnections(g: Graph, s: Surface, cs: seq<Id>): Surface
    requires InGraph(g, cs)
    decreases |cs|
  {
    if cs == [] then s
    else
      var t := AddedConnections(g, s, cs[..|cs| - 1]);
      var c := cs[|cs| - 1];
      if c in t.visible then t
      else Surface(t.visible + {c}, t.log + [AddCallFor(g, c)])
  }

  /** One turn of `addElements`: an element already on the canvas is skipped; otherwise
      its incoming connections, its outgoing ones, then its shape go back. */
  function AddedElement(g: Graph, s: Surface, e: Id): Surface
    requires Closed(g) && e in g
  {
    if e in s.visible then s
    else
      var t := AddedConnections(g, AddedConnections(g, s, g[e].incoming), g[e].outgoing);
      Surface(t.visible + {e}, t.log + [AddShape(e)])
  }

  /** `addElements`: one turn per element of `es`, in order. */
  function AddedElements(g: Graph, s: Surface, es: seq<Id>): (r: Surface)
    requires Closed(g) && InGraph(g, es)
    ensures s.visible <= r.visible
    ensures |s.log| <= |r.log| && r.log[..|s.log|] == s.log
    decreases |es|
  {
    if es == [] then s
    else
      var t := AddedElements(g, s, es[..|es| - 1]);
      AddedElementEffect(g, t, es[|es| - 1]);
      assert t.log[..|s.log|] == s.log;
      AddedElement(g, t, es[|es| - 1])
  }

  // ---------------------------------------------------------------------------
  // Properties of removal

  /** Removing connections takes exactly those ids off the canvas and logs one
      `RemoveConn` per entry of `cs`, in order. */
  lemma {:induction false} RemovedConnectionsEffect(s: Surface, cs: seq<Id>)
    ensures var r := RemovedConnections(s, cs);
      r.visible == s.visible - Ids(cs) &&
      |r.log| == |s.log| + |cs| && r.log[..|s.log|] == s.log &&
      forall j :: 0 <= j < |cs| ==> r.log[|s.log| + j] == RemoveConn(cs[j])
    decreases |cs|
  {
    if cs != [] {
      var p := cs[..|cs| - 1];
      RemovedConnectionsEffect(s, p);
      assert Ids(cs) == Ids(p) + {cs[|cs| - 1]} by {
        assert forall x :: x in cs ==> x in p || x == cs[|cs| - 1];
      }
    }
  }

  /** One turn of `removeElements`: the element and all its connections are off the canvas,
      nothing else is touched, and the turn logs its connection removals first and the
      element's shape removal last. */
  lemma {:induction false} RemovedElementEffect(g: Graph, s: Surface, e: Id)
    requires e in g
    ensures var r := RemovedElement(g, s, e);
      r.visible == s.visible - ({e} + Incident(g, e)) &&
      |r.log| > |s.log| && r.log[..|s.log|] == s.log &&
      r.log[|r.log| - 1] == RemoveShape(e) &&
      (forall j :: |s.log| <= j < |r.log| - 1 ==> r.log[j].RemoveConn? && r.log[j].id in Incident(g, e)) &&
      (forall c :: c in Incident(g, e) ==> RemoveConn(c) in r.log[|s.log|..|r.log| - 1])
  {
    var ins, outs := g[e].incoming, g[e].outgoing;
    var t1 := RemovedConnections(s, ins);
    var t2 := RemovedConnections(t1, outs);
    RemovedConnectionsEffect(s, ins);
    RemovedConnectionsEffect(t1, outs);
    var r := RemovedElement(g, s, e);
    assert r.log == t2.log + [RemoveShape(e)];
    assert r.log[..|s.log|] == s.log by {
      assert t2.log[..|t1.log|] == t1.log;
    }
    forall j | |s.log| <= j < |r.log| - 1
      ensures r.log[j].RemoveConn? && r.log[j].id in Incident(g, e)
    {
      if j < |t1.log| {
        assert t2.log[j] == t1.log[j];
        assert r.log[j] == RemoveConn(ins[j - |s.log|]);
      } else {
        assert r.log[j] == RemoveConn(outs[j - |t1.log|]);
      }
    }
    forall c | c in Incident(g, e)
      ensures RemoveConn(c) in r.log[|s.log|..|r.log| - 1]
    {
      if c in ins {
        var k :| 0 <= k < |ins| && ins[k] == c;
        assert t2.log[|s.log| + k] == t1.log[|s.log| + k];
        assert r.log[|s.log| + k] == RemoveConn(c);
      } else {
        var k :| 0 <= k < |outs| && outs[k] == c;
        assert r.log[|t1.log| + k] == RemoveConn(c);
      }
    }
  }

  /** After `removeElements(es)` exactly the ids of `es` and of their connections have
      left the canvas: none of them is visible and every other visible id still is. */
  lemma {:induction false} RemovedElementsVisible(g: Graph, s: Surface, es: seq<Id>)
    requires InGraph(g, es)
    ensures RemovedElements(g, s, es).visible == s.visible - Footprint(g, es)
    decreases |es|
  {
    if es != [] {
      var p, e := es[..|es| - 1], es[|es| - 1];
      RemovedElementsVisible(g, s, p);
      RemovedElementEffect(g, RemovedElements(g, s, p), e);
    }
  }

  /** A slice that lies within a prefix is the same slice of the prefix. */
  lemma SliceOfExtension(a: seq<Call>, b: seq<Call>, i: int, j: int)
    requires |a| <= |b| && b[..|a|] == a && 0 <= i <= j <= |a|
    ensures b[i..j] == a[i..j]
  {
    forall k | 0 <= k < j - i
      ensures b[i..j][k] == a[i..j][k]
    {
      assert b[..|a|][i + k] == b[i + k];
    }
  }

  /** In the calls `removeElements(es)` makes, every shape removal is preceded by the
      removal of each connection of that shape, and only elements of `es` lose their shape. */
  lemma {:induction false} RemovedElementsOrdered(g: Graph, s: Surface, es: seq<Id>)
    requires InGraph(g, es)
    ensures var r := RemovedElements(g, s, es);
      |s.log| <= |r.log| && r.log[..|s.log|] == s.log &&
      forall j :: |s.log| <= j < |r.log| && r.log[j].RemoveShape? ==>
        r.log[j].id in es &&
        forall c :: c in Incident(g, r.log[j].id) ==> RemoveConn(c) in r.log[|s.log|..j]
    decreases |es|
  {
    if es != [] {
      var p, e := es[..|es| - 1], es[|es| - 1];
      var t, r := RemovedElements(g, s, p), RemovedElements(g, s, es);
      assert r == RemovedElement(g, t, e);
      RemovedElementEffect(g, t, e);
      // the calls of the earlier turns
      forall j | |s.log| <= j < |t.log| && r.log[j].RemoveShape?
        ensures r.log[j].id in es
        ensures forall c :: c in Incident(g, r.log[j].id) ==> RemoveConn(c) in r.log[|s.log|..j]
      {
        RemovedElementsOrdered(g, s, p);
        assert r.log[j] == t.log[j];
        assert r.log[j].id in p;
        SliceOfExtension(t.log, r.log, |s.log|, j);
      }
      // the last turn: connection removals, then the shape of `e`
      forall j | |t.log| <= j < |r.log| && r.log[j].RemoveShape?
        ensures r.log[j].id in es
        ensures forall c :: c in Incident(g, r.log[j].id) ==> RemoveConn(c) in r.log[|s.log|..j]
      {
        assert j == |r.log| - 1;
        forall c | c in Incident(g, e)
          ensures RemoveConn(c) in r.log[|s.log|..j]
        {
          var k :| |t.log| <= k < j && r.log[k] == RemoveConn(c);
          assert r.log[|s.log|..j][k - |s.log|] == RemoveConn(c);
        }
      }
    }
  }

  // ---------------------------------------------------------------------------
  // Properties of adding

  /** `addConnectionArray` makes every id of `cs` visible, logs a call only for an id that
      was not visible before (never re-adding one), logs each such id exactly once, with
      `AddShape` for a "label" entry and `AddConn` otherwise, and touches nothing else. */
  lemma AddedConnectionsEffect(g: Graph, s: Surface, cs: seq<Id>)
    requires InGraph(g, cs)
    ensures var r := AddedConnections(g, s, cs);
      r.visible == s.visible + Ids(cs) &&
      |s.log| <= |r.log| && r.log[..|s.log|] == s.log &&
      (forall j :: |s.log| <= j < |r.log| ==>
        r.log[j].id in Ids(cs) - s.visible && r.log[j] == AddCallFor(g, r.log[j].id)) &&
      (forall i, j :: |s.log| <= i < j < |r.log| ==> r.log[i].id != r.log[j].id) &&
      (forall c :: c in Ids(cs) - s.visible ==> AddCallFor(g, c) in r.log[|s.log|..])
  {
    AddedConnectionsCalls(g, s, cs);
    AddedConnectionsComplete(g, s, cs);
  }

  /** The visible set and the log after `addConnectionArray`, and the shape of each new call. */
  lemma {:induction false} AddedConnectionsCalls(g: Graph, s: Surface, cs: seq<Id>)
    requires InGraph(g, cs)
    ensures var r := AddedConnections(g, s, cs);
      r.visible == s.visible + Ids(cs) &&
      |s.log| <= |r.log| && r.log[..|s.log|] == s.log &&
      (forall j :: |s.log| <= j < |r.log| ==>
        r.log[j].id in Ids(cs) - s.visible && r.log[j] == AddCallFor(g, r.log[j].id)) &&
      (forall i, j :: |s.log| <= i < j < |r.log| ==> r.log[i].id != r.log[j].id)
    decreases |cs|
  {
    if cs != [] {
      var p, c := cs[..|cs| - 1], cs[|cs| - 1];
      var t := AddedConnections(g, s, p);
      AddedConnectionsCalls(g, s, p);
      assert Ids(cs) == Ids(p) + {c} by {
        assert forall x :: x in cs ==> x in p || x == c;
      }
      if c !in t.visible {
        var r := AddedConnections(g, s, cs);
        assert r.log == t.log + [AddCallFor(g, c)];
        assert r.log[..|s.log|] == s.log by {
          assert r.log[..|s.log|] == t.log[..|s.log|];
        }
        assert forall j :: |s.log| <= j < |t.log| ==> r.log[j] == t.log[j];
      }
    }
  }

  /** Every id of `cs` that was not visible gets its call in the log of `addConnectionArray`. */
  lemma {:induction false} AddedConnectionsComplete(g: Graph, s: Surface, cs: seq<Id>)
    requires InGraph(g, cs)
    ensures var r := AddedConnections(g, s, cs);
      |s.log| <= |r.log| &&
      forall c :: c in Ids(cs) - s.visible ==> AddCallFor(g, c) in r.log[|s.log|..]
    decreases |cs|
  {
    if cs != [] {
      var p, c := cs[..|cs| - 1], cs[|cs| - 1];
      var t := AddedConnections(g, s, p);
      var r := AddedConnections(g, s, cs);
      AddedConnectionsComplete(g, s, p);
      AddedConnectionsCalls(g, s, p);
      assert forall x :: x in cs ==> x in p || x == c;
      if c in t.visible {
        assert r == t;
      } else {
        assert r.log == t.log + [AddCallFor(g, c)];
        assert t.log[|s.log|..] <= r.log[|s.log|..];
        assert r.log[|s.log|..][|r.log| - 1 - |s.log|] == AddCallFor(g, c);
      }
    }
  }

  /** One turn of `addElements`: an element already on the canvas is skipped and nothing
      changes, not even the log. Otherwise the element and all its connections end up
      visible, nothing else is added, the connections that were missing are logged first
      and the element's own shape last. */
  lemma {:induction false} AddedElementEffect(g: Graph, s: Surface, e: Id)
    requires Closed(g) && e in g
    ensures var r := AddedElement(g, s, e);
      (e in s.visible ==> r == s) &&
      (e !in s.visible ==>
        r.visible == s.visible + {e} + Incident(g, e) &&
        |r.log| > |s.log| && r.log[..|s.log|] == s.log &&
        r.log[|r.log| - 1] == AddShape(e) &&
        (forall j :: |s.log| <= j < |r.log| - 1 ==>
          r.log[j].id in Incident(g, e) - s.visible && r.log[j] == AddCallFor(g, r.log[j].id)) &&
        (forall c :: c in Incident(g, e) - s.visible ==> AddCallFor(g, c) in r.log[|s.log|..|r.log| - 1]))
  {
    if e !in s.visible {
      var ins, outs := g[e].incoming, g[e].outgoing;
      var t1 := AddedConnections(g, s, ins);
      var t2 := AddedConnections(g, t1, outs);
      AddedConnectionsEffect(g, s, ins);
      AddedConnectionsEffect(g, t1, outs);
      var r := AddedElement(g, s, e);
      assert r.log == t2.log + [AddShape(e)];
      assert r.log[..|s.log|] == s.log by {
        assert t2.log[..|t1.log|] == t1.log;
      }
      assert r.log[|s.log|..|r.log| - 1] == t1.log[|s.log|..] + t2.log[|t1.log|..];
      forall j | |s.log| <= j < |r.log| - 1
        ensures r.log[j].id in Incident(g, e) - s.visible && r.log[j] == AddCallFor(g, r.log[j].id)
      {
        if j < |t1.log| {
          assert t2.log[j] == t1.log[j];
        }
      }
    }
  }

  /** The visible set after one turn of `addElements`. */
  lemma AddedElementVisible(g: Graph, s: Surface, e: Id)
    requires Closed(g) && e in g
    ensures AddedElement(g, s, e).visible ==
      if e in s.visible then s.visible else s.visible + {e} + Incident(g, e)
  {
    AddedElementEffect(g, s, e);
  }

  /** After `addElements(es)` every element of `es` is visible, nothing that was visible
      has gone, nothing outside `es` and their connections has appeared, and each element
      that was not visible at its turn has all its connections visible. */
  lemma {:induction false} AddedElementsEffect(g: Graph, s: Surface, es: seq<Id>)
    requires Closed(g) && InGraph(g, es)
    ensures var r := AddedElements(g, s, es);
      s.visible <= r.visible <= s.visible + Footprint(g, es) &&
      (forall e :: e in es ==> e in r.visible) &&
      (forall k :: 0 <= k < |es| && es[k] !in AddedElements(g, s, es[..k]).visible ==>
        Incident(g, es[k]) <= r.visible)
    decreases |es|
  {
    if es != [] {
      var p, e := es[..|es| - 1], es[|es| - 1];
      var t, r := AddedElements(g, s, p), AddedElements(g, s, es);
      assert r == AddedElement(g, t, e);
      AddedElementsEffect(g, s, p);
      AddedElementVisible(g, t, e);
      assert r.visible <= s.visible + Footprint(g, es) by {
        assert Footprint(g, es) == Footprint(g, p) + {e} + Incident(g, e);
      }
      forall x | x in es
        ensures x in r.visible
      {
        if x != e {
          assert x in p;
        }
      }
      forall k | 0 <= k < |es| && es[k] !in AddedElements(g, s, es[..k]).visible
        ensures Incident(g, es[k]) <= r.visible
      {
        if k < |p| {
          assert es[..k] == p[..k] && es[k] == p[k];
        } else {
          assert es[..k] == p;
        }
      }
    }
  }

  /** Adding the same elements a second time changes nothing: every element is skipped. */
  lemma {:induction false} AddedElementsIdempotent(g: Graph, s: Surface, es: seq<Id>)
    requires Closed(g) && InGraph(g, es)
    ensures var r := AddedElements(g, s, es); AddedElements(g, r, es) == r
  {
    AddedElementsEffect(g, s, es);
    AddedVisibleUnchanged(g, AddedElements(g, s, es), es);
  }

  /** Elements that are all visible are all skipped. */
  lemma {:induction false} AddedVisibleUnchanged(g: Graph, s: Surface, es: seq<Id>)
    requires Closed(g) && InGraph(g, es)
    requires forall e :: e in es ==> e in s.visible
    ensures AddedElements(g, s, es) == s
    decreases |es|
  {
    if es != [] {
      AddedVisibleUnchanged(g, s, es[..|es| - 1]);
    }
  }

  /** Taking a visible element off the canvas and adding it back restores the visible set,
      provided its connections were visible before. */
  lemma {:induction false} RemoveAddRoundTrip(g: Graph, s: Surface, e: Id)
    requires Closed(g) && e in g
    requires e in s.visible && Incident(g, e) <= s.visible
    ensures AddedElements(g, RemovedElements(g, s, [e]), [e]).visible == s.visible
  {
    var t := RemovedElements(g, s, [e]);
    assert [e][..|[e]| - 1] == [];
    assert RemovedElements(g, s, []) == s;
    RemovedElementEffect(g, s, e);
    assert t == RemovedElement(g, s, e);
    AddedElementEffect(g, t, e);
    assert AddedElements(g, t, [e]) == AddedElement(g, t, e);
  }

  // ---------------------------------------------------------------------------
  // The canvas itself

  /** The canvas as the viewer drives it: the element graph is fixed, the set of visible
      ids changes, and every call made to the canvas is recorded in `log`. */
  class Canvas {
    const graph: Graph
    var visible: set<Id>
    ghost var log: seq<Call>

    ghost predicate Valid()
      reads this
    {
      Closed(graph)
    }

    ghost function State(): Surface
      reads this
    {
      Surface(visible, log)
    }

    constructor (g: Graph, shown: set<Id>)
      requires Closed(g)
      ensures Valid() && graph == g && visible == shown && log == []
    {
      graph := g;
      visible := shown;
      log := [];
    }

    /** `removeConnectionArray` */
    method RemoveConnectionArray(cs: seq<Id>)
      modifies this
      ensures State() == RemovedConnections(old(State()), cs)
    {
      for i := 0 to |cs|
        invariant State() == RemovedConnections(old(State()), cs[..i])
      {
        assert cs[..i + 1][..i] == cs[..i];
        visible := visible - {cs[i]};
        log := log + [RemoveConn(cs[i])];
      }
      assert cs[..|cs|] == cs;
    }

    /** `removeConnections`: the incoming connections, then the outgoing ones. */
    method RemoveConnections(e: Id)
      requires e in graph
      modifies this
      ensures State() ==
        RemovedConnections(RemovedConnections(old(State()), graph[e].incoming), graph[e].outgoing)
    {
      RemoveConnectionArray(graph[e].incoming);
      RemoveConnectionArray(graph[e].outgoing);
    }

    /** `removeElements` */
    method RemoveElements(es: seq<Id>)
      requires InGraph(graph, es)
      modifies this
      ensures State() == RemovedElements(graph, old(State()), es)
      ensures visible == old(visible) - Footprint(graph, es)
    {
      for i := 0 to |es|
        invariant State() == RemovedElements(graph, old(State()), es[..i])
      {
        assert es[..i + 1][..i] == es[..i];
        RemoveConnections(es[i]);
        visible := visible - {es[i]};
        log := log + [RemoveShape(es[i])];
      }
      assert es[..|es|] == es;
      RemovedElementsVisible(graph, old(State()), es);
    }

    /** `addConnectionArray` */
    method AddConnectionArray(cs: seq<Id>)
      requires Valid() && InGraph(graph, cs)
      modifies this
      ensures State() == AddedConnections(graph, old(State()), cs)
      ensures visible == old(visible) + Ids(cs)
    {
      for i := 0 to |cs|
        invariant State() == AddedConnections(graph, old(State()), cs[..i])
      {
        assert cs[..i + 1][..i] == cs[..i];
        var c := cs[i];
        if c !in visible {
          if graph[c].kind == "label" {
            visible := visible + {c};
            log := log + [AddShape(c)];
          } else {
            visible := visible + {c};
            log := log + [AddConn(c)];
          }
        }
      }
      assert cs[..|cs|] == cs;
      AddedConnectionsEffect(graph, old(State()), cs);
    }

    /** `addConnections`: the incoming connections, then the outgoing ones. */
    method AddConnections(e: Id)
      requires Valid() && e in graph
      modifies this
      ensures State() == AddedConnections(graph,
        AddedConnections(graph, old(State()), graph[e].incoming), graph[e].outgoing)
    {
      AddConnectionArray(graph[e].incoming);
      AddConnectionArray(graph[e].outgoing);
    }

    /** `addElements` */
    method AddElements(es: seq<Id>)
      requires Valid() && InGraph(graph, es)
      modifies this
      ensures State() == AddedElements(graph, old(State()), es)
      ensures old(visible) <= visible <= old(visible) + Footprint(graph, es)
      ensures forall e :: e in es ==> e in visible
    {
      for i := 0 to |es|
        invariant State() == AddedElements(graph, old(State()), es[..i])
      {
        assert es[..i + 1][..i] == es[..i];
        var e := es[i];
        if e !in visible {
          AddConnections(e);
          visible := visible + {e};
          log := log + [AddShape(e)];
        }
      }
      assert es[..|es|] == es;
      AddedElementsEffect(graph, old(State()), es);
    }
  }
}
