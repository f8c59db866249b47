/**
 * Highlighting: an element's fill attribute is set to the highlight colour or back to
 * white, and the element is redrawn as a connection or as a shape.
 */
module Highlight {
  import opened Diagram

  /** The two variants of the viewer component; they differ in the highlight colour. */
  datatype Variant = Viewer | ViewerEs

  /** The highlight fill of each variant. */
  function HighlightFill(v: Variant): string
  {
    match v
    case Viewer => "rgba(60, 176, 67, 1)"
    case ViewerEs => "rgba(0, 80, 0, 1)"
  }

  /** The fill `removeHighlightElement` restores. */
  const DefaultFill: string := "rgba(255, 255, 255, 1)"

  /** The two highlight colours differ from each other and from the default fill, so a
      highlighted element can always be told from an unhighlighted one. */
  lemma FillsDistinct()
    ensures HighlightFill(Viewer) != HighlightFill(ViewerEs)
    ensures HighlightFill(Viewer) != DefaultFill && HighlightFill(ViewerEs) != DefaultFill
  {
  }

  /** The kind of redraw requested for an element: "connection" when it has waypoints. */
  function RedrawKind(e: Element): (kind: string)
    ensures kind == "connection" <==> e.hasWaypoints
    ensures kind == "shape" <==> !e.hasWaypoints
  {
    if e.hasWaypoints then "connection" else "shape"
  }

  /** One redraw request made to the graphics factory. */
  datatype Redraw = Redraw(kind: string, element: Id)

  /** The fill attributes of the diagram's elements, and the redraws requested so far. */
  class Styles {
    const variant: Variant
    var fill: map<Id, string>
    ghost var redraws: seq<Redraw>

    constructor (v: Variant, fills: map<Id, string>)
      ensures variant == v && fill == fills && redraws == []
    {
      variant := v;
      fill := fills;
      redraws := [];
    }

    /** `highlightElement`: the element's fill becomes the highlight colour, no other fill
        changes, and one redraw of the right kind is requested. Highlighting an element that
        already has the highlight fill leaves every fill as it was. */
    method HighlightElement(e: Element)
      modifies this
      ensures fill == old(fill)[e.id := HighlightFill(variant)]
      ensures forall x :: x in old(fill) && x != e.id ==> x in fill && fill[x] == old(fill)[x]
      ensures e.id in old(fill) && old(fill)[e.id] == HighlightFill(variant) ==> fill == old(fill)
      ensures redraws == old(redraws) + [Redraw(RedrawKind(e), e.id)]
      ensures redraws[|redraws| - 1].kind == "connection" <==> e.hasWaypoints
    {
      SetFill(e, HighlightFill(variant));
    }

    /** `removeHighlightElement`: the element's fill becomes white, no other fill changes,
        and one redraw of the right kind is requested. Applied to an element that is already
        white it leaves every fill as it was. */
    method RemoveHighlightElement(e: Element)
      modifies this
      ensures fill == old(fill)[e.id := DefaultFill]
      ensures forall x :: x in old(fill) && x != e.id ==> x in fill && fill[x] == old(fill)[x]
      ensures e.id in old(fill) && old(fill)[e.id] == DefaultFill ==> fill == old(fill)
      ensures redraws == old(redraws) + [Redraw(RedrawKind(e), e.id)]
      ensures redraws[|redraws| - 1].kind == "connection" <==> e.hasWaypoints
    {
      SetFill(e, DefaultFill);
    }

    /** Sets the fill and requests the redraw; the shared body of both operations. */
    method SetFill(e: Element, colour: string)
      modifies this
      ensures fill == old(fill)[e.id := colour]
      ensures redraws == old(redraws) + [Redraw(RedrawKind(e), e.id)]
    {
      fill := fill[e.id := colour];
      redraws := redraws + [Redraw(RedrawKind(e), e.id)];
    }
  }
}
