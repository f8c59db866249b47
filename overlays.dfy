/**
 * The overlay store: one textual note per element, labelled with the element's type
 * name, and a clear-all operation. The label is `type.split(":")[1]`, with the
 * Participant type shown as "Pool".
 */
module Overlays {
  import opened Wrappers
  import opened Diagram

  // ---------------------------------------------------------------------------
  // String splitting as JavaScript's `String.prototype.split` with a one-character separator

  /** The pieces of `s` between occurrences of `sep`; always at least one piece. */
  function Split(s: string, sep: char): (parts: seq<string>)
    ensures |parts| >= 1
    ensures forall k :: 0 <= k < |parts| ==> sep !in parts[k]
    decreases |s|
  {
    if s == [] then [[]]
    else
      var rest := Split(s[1..], sep);
      if s[0] == sep then [[]] + rest
      else [[s[0]] + rest[0]] + rest[1..]
  }

  /** The pieces joined back together, with `sep` between neighbours. */
  function Join(parts: seq<string>, sep: char): string
    requires |parts| >= 1
    decreases |parts|
  {
    if |parts| == 1 then parts[0] else parts[0] + [sep] + Join(parts[1..], sep)
  }

  /** Splitting and joining again gives back the string. */
  lemma {:induction false} JoinSplit(s: string, sep: char)
    ensures Join(Split(s, sep), sep) == s
    decreases |s|
  {
    if s != [] {
      JoinSplit(s[1..], sep);
      var rest := Split(s[1..], sep);
      if s[0] != sep {
        var parts := Split(s, sep);
        assert parts[1..] == rest[1..];
        if |rest| > 1 {
          assert Join(rest, sep) == rest[0] + [sep] + Join(rest[1..], sep);
          assert [s[0]] + Join(rest, sep) == s;
        } else {
          assert [s[0]] + rest[0] == s;
        }
      } else {
        assert ([[]] + rest)[1..] == rest;
      }
    }
  }

  /** Joining separator-free pieces and splitting again gives back the pieces. */
  lemma {:induction false} SplitJoin(parts: seq<string>, sep: char)
    requires |parts| >= 1
    requires forall k :: 0 <= k < |parts| ==> sep !in parts[k]
    ensures Split(Join(parts, sep), sep) == parts
    decreases |parts|
  {
    if |parts| == 1 {
      SplitFree(parts[0], sep);
    } else {
      SplitJoin(parts[1..], sep);
      SplitPrefix(parts[0], sep, Join(parts[1..], sep));
      assert [parts[0]] + parts[1..] == parts;
    }
  }

  /** A string without the separator is a single piece. */
  lemma {:induction false} SplitFree(s: string, sep: char)
    requires sep !in s
    ensures Split(s, sep) == [s]
    decreases |s|
  {
    if s != [] {
      SplitFree(s[1..], sep);
      assert [s[0]] + s[1..] == s;
    }
  }

  /** A separator-free head followed by the separator splits off as the first piece. */
  lemma {:induction false} SplitPrefix(a: string, sep: char, b: string)
    requires sep !in a
    ensures Split(a + [sep] + b, sep) == [a] + Split(b, sep)
    decreases |a|
  {
    if a == [] {
      assert [] + [sep] + b == [sep] + b;
      assert ([sep] + b)[1..] == b;
    } else {
      SplitPrefix(a[1..], sep, b);
      assert (a + [sep] + b)[1..] == a[1..] + [sep] + b;
      assert [a[0]] + a[1..] == a;
    }
  }

  // ---------------------------------------------------------------------------
  // The overlay label and its HTML

  /** `type.split(":")[1]`: `None` stands for JavaScript's `undefined`, when the type has no ':'. */
  function TypeSegment(kind: string): Option<string>
  {
    var parts := Split(kind, ':');
    if |parts| > 1 then Some(parts[1]) else None
  }

  /** The content `addOverlays` shows for a type: "Pool" for a Participant, the segment
      otherwise. */
  function Label(kind: string): Option<string>
  {
    if TypeSegment(kind) == Some("Participant") then Some("Pool") else TypeSegment(kind)
  }

  /** There is no content (`undefined`) exactly when the type has no ':', and a content
      never contains ':'. */
  lemma LabelDefined(kind: string)
    ensures Label(kind).None? <==> ':' !in kind
    ensures Label(kind).Some? ==> ':' !in Label(kind).value
  {
    SplitCount(kind, ':');
  }

  /** A string splits into more than one piece exactly when it contains the separator. */
  lemma {:induction false} SplitCount(s: string, sep: char)
    ensures |Split(s, sep)| > 1 <==> sep in s
    decreases |s|
  {
    if s != [] {
      SplitCount(s[1..], sep);
      assert sep in s <==> s[0] == sep || sep in s[1..];
    }
  }

  /** For a type written `namespace:name`, the label is "Pool" when the name is
      "Participant" and the name itself otherwise. */
  lemma LabelOfQualifiedType(namespace: string, name: string)
    requires ':' !in namespace && ':' !in name
    ensures Label(namespace + ":" + name) == Some(if name == "Participant" then "Pool" else name)
  {
    var parts := [namespace, name];
    assert Join(parts, ':') == namespace + ":" + name by {
      assert Join(parts[1..], ':') == name;
    }
    SplitJoin(parts, ':');
  }

  /** The overlay of a pool reads "Pool", that of a task "Task". */
  lemma PoolAndTaskLabels()
    ensures Label("bpmn:Participant") == Some("Pool")
    ensures Label("bpmn:Task") == Some("Task")
  {
    LabelOfQualifiedType("bpmn", "Participant");
    assert "bpmn" + ":" + "Participant" == "bpmn:Participant";
    LabelOfQualifiedType("bpmn", "Task");
    assert "bpmn" + ":" + "Task" == "bpmn:Task";
  }

  /** "Pool" is shown exactly when the segment is "Participant" or already "Pool". */
  lemma LabelPool(kind: string)
    ensures Label(kind) == Some("Pool") <==>
      TypeSegment(kind) == Some("Participant") || TypeSegment(kind) == Some("Pool")
  {
  }

  const HtmlOpen: string := "<div class=\"diagram-note p-1\">"
  const HtmlClose: string := "<div/>"

  /** The text JavaScript's `+` produces for the content. */
  function ContentText(content: Option<string>): string
  {
    match content
    case Some(text) => text
    case None => "undefined"
  }

  /** The fixed HTML wrapper around the content of an overlay. */
  function Html(content: Option<string>): string
  {
    HtmlOpen + ContentText(content) + HtmlClose
  }

  /** The text inside a wrapper produced by `Html`. */
  function Unwrap(html: string): Option<string>
  {
    if |HtmlOpen| + |HtmlClose| <= |html| && HtmlOpen <= html && html[|html| - |HtmlClose|..] == HtmlClose
    then Some(html[|HtmlOpen|..|html| - |HtmlClose|])
    else None
  }

  /** The wrapper keeps the content intact: unwrapping it gives the shown text back. */
  lemma UnwrapHtml(content: Option<string>)
    ensures Unwrap(Html(content)) == Some(ContentText(content))
  {
  }

  // ---------------------------------------------------------------------------
  // The store

  /** A screen offset as the position utility returns it (side name to pixels). */
  type Position = map<string, int>

  /** One overlay: the element it is attached to, where, and its HTML. */
  datatype Overlay = Overlay(owner: Id, position: Position, html: string)

  /** The overlays `addOverlays` appends for `es`, in order. */
  function OverlaysFor(es: seq<Element>, position: (Element, Option<string>) -> Position): seq<Overlay>
    decreases |es|
  {
    if es == [] then []
    else
      var e := es[|es| - 1];
      OverlaysFor(es[..|es| - 1], position) + [Overlay(e.id, position(e, Label(e.kind)), Html(Label(e.kind)))]
  }

  /** `addOverlays` makes one overlay per element, in the order given, attached to that
      element and showing its label. */
  lemma {:induction false} OverlaysForSpec(es: seq<Element>, position: (Element, Option<string>) -> Position)
    ensures var r := OverlaysFor(es, position);
      |r| == |es| &&
      forall k :: 0 <= k < |es| ==>
        r[k].owner == es[k].id &&
        r[k].html == Html(Label(es[k].kind)) &&
        r[k].position == position(es[k], Label(es[k].kind))
    decreases |es|
  {
    if es != [] {
      var p, e := es[..|es| - 1], es[|es| - 1];
      var r, rp := OverlaysFor(es, position), OverlaysFor(p, position);
      OverlaysForSpec(p, position);
      assert r == rp + [Overlay(e.id, position(e, Label(e.kind)), Html(Label(e.kind)))];
      forall k | 0 <= k < |es|
        ensures r[k].owner == es[k].id
        ensures r[k].html == Html(Label(es[k].kind))
        ensures r[k].position == position(es[k], Label(es[k].kind))
      {
        if k < |p| {
          assert r[k] == rp[k] && es[k] == p[k];
        }
      }
    }
  }

  /** The overlay service as the viewer uses it: overlays are appended and cleared together. */
  class OverlayStore {
    var overlays: seq<Overlay>

    constructor ()
      ensures overlays == []
    {
      overlays := [];
    }

    /** `addOverlay(element, content)`: one overlay at the position the position utility
        computes for the element and content, with the content in the fixed wrapper. */
    method AddOverlay(e: Element, content: Option<string>, position: (Element, Option<string>) -> Position)
      modifies this
      ensures overlays == old(overlays) + [Overlay(e.id, position(e, content), Html(content))]
    {
      overlays := overlays + [Overlay(e.id, position(e, content), Html(content))];
    }

    /** `addOverlays(elements)` */
    method AddOverlays(es: seq<Element>, position: (Element, Option<string>) -> Position)
      modifies this
      ensures overlays == old(overlays) + OverlaysFor(es, position)
    {
      for i := 0 to |es|
        invariant overlays == old(overlays) + OverlaysFor(es[..i], position)
      {
        assert es[..i + 1][..i] == es[..i];
        AddOverlay(es[i], Label(es[i].kind), position);
      }
      assert es[..|es|] == es;
    }

    /** `removeOverlays`: the store is empty afterwards, whatever it held (so a second call
        changes nothing). */
    method RemoveOverlays()
      modifies this
      ensures overlays == []
    {
      overlays := [];
    }
  }
}
