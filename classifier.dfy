/**
 * The element classifier: selecting registry elements by type, and picking the
 * first element of each distinct diagram type to drive the type-labelling overlays.
 * The registry is the sequence of elements in the engine's own order.
 */
module Classifier {
  import opened Diagram

  /** The namespace prefix of diagram element types. */
  const Namespace: string := "bpmn:"

  /** The synthetic root type that never represents a kind of element. */
  const CollaborationType: string := "bpmn:Collaboration"

  /** `element.type.startsWith("bpmn:")` */
  predicate InNamespace(e: Element)
  {
    Namespace <= e.kind
  }

  /** An element whose type can be represented in the first-occurrence set. */
  predicate Representable(e: Element)
  {
    InNamespace(e) && e.kind != CollaborationType
  }

  /** The types present in `xs`. */
  function TypesOf(xs: seq<Element>): set<string>
  {
    set e | e in xs :: e.kind
  }

  /** `a` is `b` with some elements left out, the rest kept in order. */
  predicate IsSubsequence(a: seq<Element>, b: seq<Element>)
    decreases |b|
  {
    if b == [] then a == []
    else
      IsSubsequence(a, b[..|b| - 1]) ||
      (a != [] && a[|a| - 1] == b[|b| - 1] && IsSubsequence(a[..|a| - 1], b[..|b| - 1]))
  }

  // ---------------------------------------------------------------------------
  // selectElements

  /** `selectElements(name)`: the registry elements that the engine's type test `isType`
      accepts for "bpmn:" + name, in registry order. The test itself, which knows the
      type hierarchy, belongs to the rendering library and is a parameter here. */
  function SelectElements(registry: seq<Element>, isType: (Element, string) -> bool, name: string): (r: seq<Element>)
    ensures IsSubsequence(r, registry)
    ensures forall e :: e in r ==> isType(e, Namespace + name)
    ensures forall e :: e in registry && isType(e, Namespace + name) ==> e in r
    ensures forall e :: multiset(r)[e] == if isType(e, Namespace + name) then multiset(registry)[e] else 0
    decreases |registry|
  {
    if registry == [] then []
    else
      var p, e := registry[..|registry| - 1], registry[|registry| - 1];
      assert registry == p + [e];
      assert forall x :: x in registry ==> x in p || x == e;
      var r := SelectElements(p, isType, name);
      if isType(e, Namespace + name) then r + [e] else r
  }

  // ---------------------------------------------------------------------------
  // selectAllFirstElems

  /** `filter(element => element.type.startsWith("bpmn:"))` */
  function NamespaceElements(registry: seq<Element>): (r: seq<Element>)
    ensures IsSubsequence(r, registry)
    ensures forall e :: e in r ==> InNamespace(e)
    ensures forall e :: e in registry && InNamespace(e) ==> e in r
    ensures forall e :: e in r ==> e in registry
    ensures forall e :: multiset(r)[e] == if InNamespace(e) then multiset(registry)[e] else 0
    decreases |registry|
  {
    if registry == [] then []
    else
      var p, e := registry[..|registry| - 1], registry[|registry| - 1];
      assert registry == p + [e];
      assert forall x :: x in registry ==> x in p || x == e;
      var r := NamespaceElements(p);
      if InNamespace(e) then r + [e] else r
  }

  /** One step of the `reduce`: a Collaboration, or an element whose type some element
      already in `res` has, leaves `res` as it is; any other element is appended. */
  function FirstStep(res: seq<Element>, elem: Element): seq<Element>
  {
    if elem.kind == CollaborationType then res
    else if exists i :: 0 <= i < |res| && res[i].kind == elem.kind then res
    else res + [elem]
  }

  /** `reduce(FirstStep, res)` over `xs`, from left to right. */
  function Reduce(res: seq<Element>, xs: seq<Element>): seq<Element>
    decreases |xs|
  {
    if xs == [] then res else Reduce(FirstStep(res, xs[0]), xs[1..])
  }

  /** `selectAllFirstElems`, as the `filter` followed by the `reduce` from `[]`.
      It computes exactly the reference first-occurrence set. */
  function SelectAllFirstElems(registry: seq<Element>): (r: seq<Element>)
    ensures r == FirstOfEachType(registry)
  {
    var a := NamespaceElements(registry);
    assert FirstOfEachType([]) == [];
    ReduceFromFirsts([], a);
    assert [] + a == a;
    FirstOfEachTypeNamespace(registry);
    Reduce([], a)
  }

  /** Reference definition of the first-occurrence set: an element of the registry belongs
      to it when its type is representable and no earlier element has the same type. */
  function FirstOfEachType(xs: seq<Element>): seq<Element>
    decreases |xs|
  {
    if xs == [] then []
    else
      var p, x := xs[..|xs| - 1], xs[|xs| - 1];
      if Representable(x) && x.kind !in TypesOf(p) then FirstOfEachType(p) + [x]
      else FirstOfEachType(p)
  }

  /** The first-occurrence set has one element for each representable type of `xs`
      and for no other type. */
  lemma {:induction false} FirstOfEachTypeTypes(xs: seq<Element>)
    ensures forall t :: t in TypesOf(FirstOfEachType(xs)) <==>
      t in TypesOf(xs) && Namespace <= t && t != CollaborationType
    decreases |xs|
  {
    if xs != [] {
      var p, x := xs[..|xs| - 1], xs[|xs| - 1];
      FirstOfEachTypeTypes(p);
      assert xs == p + [x];
      assert TypesOf(xs) == TypesOf(p) + {x.kind};
      if Representable(x) && x.kind !in TypesOf(p) {
        assert TypesOf(FirstOfEachType(xs)) == TypesOf(FirstOfEachType(p)) + {x.kind};
      }
    }
  }

  /** The first-occurrence set of `xs`: an order-preserving subsequence of `xs`, with
      pairwise-distinct types, each "bpmn:"-prefixed and none Collaboration, which contains
      the first element of `xs` of every representable type. */
  lemma {:induction false} FirstOfEachTypeSpec(xs: seq<Element>)
    ensures var r := FirstOfEachType(xs);
      IsSubsequence(r, xs) &&
      (forall e :: e in r ==> e in xs && Representable(e)) &&
      (forall i, j :: 0 <= i < j < |r| ==> r[i].kind != r[j].kind) &&
      (forall i :: (0 <= i < |xs| && Representable(xs[i]) &&
        (forall j :: 0 <= j < i ==> xs[j].kind != xs[i].kind)) ==> xs[i] in r)
    decreases |xs|
  {
    if xs != [] {
      var p, x := xs[..|xs| - 1], xs[|xs| - 1];
      FirstOfEachTypeSpec(p);
      FirstOfEachTypeTypes(p);
      var r, rp := FirstOfEachType(xs), FirstOfEachType(p);
      assert forall e :: e in p ==> e in xs;
      if Representable(x) && x.kind !in TypesOf(p) {
        assert r == rp + [x];
        forall i, j | 0 <= i < j < |r|
          ensures r[i].kind != r[j].kind
        {
          if j == |rp| {
            assert r[i] in rp;
          }
        }
      }
      forall i | 0 <= i < |xs| && Representable(xs[i]) &&
          (forall j :: 0 <= j < i ==> xs[j].kind != xs[i].kind)
        ensures xs[i] in r
      {
        if i < |p| {
          assert xs[i] == p[i];
          assert forall j :: 0 <= j < i ==> p[j] == xs[j];
        }
      }
    }
  }

  /** Dropping the elements outside the namespace does not change the first-occurrence set. */
  lemma {:induction false} FirstOfEachTypeNamespace(xs: seq<Element>)
    ensures FirstOfEachType(NamespaceElements(xs)) == FirstOfEachType(xs)
    decreases |xs|
  {
    if xs != [] {
      var p, x := xs[..|xs| - 1], xs[|xs| - 1];
      FirstOfEachTypeNamespace(p);
      if InNamespace(x) {
        var np := NamespaceElements(p);
        assert NamespaceElements(xs) == np + [x];
        assert (np + [x])[..|np|] == np;
        assert x.kind in TypesOf(np) <==> x.kind in TypesOf(p) by {
          if x.kind in TypesOf(p) {
            var e :| e in p && e.kind == x.kind;
            assert InNamespace(e);
            assert e in np;
          }
        }
      }
    }
  }

  /** Folding `FirstStep` over the rest of a namespace-only registry extends the
      first-occurrence set of the part already folded. */
  lemma {:induction false} ReduceFromFirsts(p: seq<Element>, q: seq<Element>)
    requires forall e :: e in q ==> InNamespace(e)
    ensures Reduce(FirstOfEachType(p), q) == FirstOfEachType(p + q)
    decreases |q|
  {
    if q == [] {
      assert p + q == p;
    } else {
      var x, q' := q[0], q[1..];
      var p' := p + [x];
      assert forall e :: e in q' ==> e in q;
      calc {
        Reduce(FirstOfEachType(p), q);
        Reduce(FirstStep(FirstOfEachType(p), x), q');
        { FirstStepExtends(p, x); }
        Reduce(FirstOfEachType(p'), q');
        { ReduceFromFirsts(p', q'); }
        FirstOfEachType(p' + q');
        { assert p' + q' == p + q; }
        FirstOfEachType(p + q);
      }
    }
  }

  /** One `FirstStep` on the first-occurrence set of `p` yields that of `p + [x]`. */
  lemma FirstStepExtends(p: seq<Element>, x: Element)
    requires InNamespace(x)
    ensures FirstStep(FirstOfEachType(p), x) == FirstOfEachType(p + [x])
  {
    var rp := FirstOfEachType(p);
    FirstOfEachTypeTypes(p);
    assert (p + [x])[..|p|] == p;
    assert (exists i :: 0 <= i < |rp| && rp[i].kind == x.kind) <==> x.kind in TypesOf(rp) by {
      if x.kind in TypesOf(rp) {
        var e :| e in rp && e.kind == x.kind;
        var i :| 0 <= i < |rp| && rp[i] == e;
      }
    }
  }

  /** `FirstStepExtends` for the element at index `i` of a namespace-only sequence. */
  lemma FirstStepAt(a: seq<Element>, i: int)
    requires 0 <= i < |a| && InNamespace(a[i])
    ensures FirstStep(FirstOfEachType(a[..i]), a[i]) == FirstOfEachType(a[..i + 1])
  {
    assert a[..i + 1] == a[..i] + [a[i]];
    FirstStepExtends(a[..i], a[i]);
  }

  /** What `selectAllFirstElems` returns: an order-preserving subsequence of the registry with
      pairwise-distinct types, all "bpmn:"-prefixed and none Collaboration, holding for every
      such type in the registry the first registry element of that type. */
  lemma SelectAllFirstElemsSpec(registry: seq<Element>)
    ensures var r := SelectAllFirstElems(registry);
      IsSubsequence(r, registry) &&
      (forall e :: e in r ==> e in registry && Namespace <= e.kind && e.kind != CollaborationType) &&
      (forall i, j :: 0 <= i < j < |r| ==> r[i].kind != r[j].kind) &&
      (forall i :: (0 <= i < |registry| && Representable(registry[i]) &&
        (forall j :: 0 <= j < i ==> registry[j].kind != registry[i].kind)) ==> registry[i] in r)
  {
    FirstOfEachTypeSpec(registry);
  }

  /** The inner scan of the loop version: the `alreadyAdded` flag ends up set exactly when
      some element pushed so far has the type of `element`. */
  method AlreadyAdded(b: seq<Element>, element: Element) returns (alreadyAdded: bool)
    ensures alreadyAdded <==> exists k :: 0 <= k < |b| && b[k].kind == element.kind
  {
    alreadyAdded := false;
    for j := 0 to |b|
      invariant alreadyAdded <==> exists k :: 0 <= k < j && b[k].kind == element.kind
    {
      if b[j].kind == element.kind {
        alreadyAdded := true;
      }
    }
  }

  /** `selectAllFirstElems` as the other viewer variant writes it: a loop over the filtered
      registry that scans the elements pushed so far with an `alreadyAdded` flag and pushes
      the element unless the flag is set or it is a Collaboration. It returns the same
      sequence as the `reduce`. */
  method SelectAllFirstElemsLoop(registry: seq<Element>) returns (b: seq<Element>)
    ensures b == SelectAllFirstElems(registry)
    ensures forall i, j :: 0 <= i < j < |b| ==> b[i].kind != b[j].kind
    ensures forall e :: e in b ==> e in registry && Namespace <= e.kind && e.kind != CollaborationType
  {
    var a := NamespaceElements(registry);
    b := [];
    for i := 0 to |a|
      invariant b == FirstOfEachType(a[..i])
    {
      var element := a[i];
      var alreadyAdded := AlreadyAdded(b, element);
      if !alreadyAdded && element.kind != CollaborationType {
        b := b + [element];
      }
      FirstStepAt(a, i);
    }
    assert b == FirstOfEachType(registry) by {
      assert a[..|a|] == a;
      FirstOfEachTypeNamespace(registry);
    }
    SelectAllFirstElemsSpec(registry);
  }
}
