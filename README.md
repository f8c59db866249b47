# Diagram element bookkeeping of the BPMN viewer

This project models in Dafny the element bookkeeping inside the `BpmnViewer` React
component. The component shows an imported BPMN process diagram and lets the toolbar
hide and show groups of elements together with their connections. It also lists the
element types present, puts a type-name overlay on one representative of each type,
and highlights pools and lanes by changing their fill colour.

The component exists in two near-identical variants, `src/viewer/BpmnViewer.js` and
`src/viewer/BpmnViewer.es.js`. The add/remove, selection, overlay and highlight code is
the same in both, with two exceptions: `.es.js` writes `selectAllFirstElems` as a loop
with an `alreadyAdded` flag, and it uses another highlight colour. The shared code is
modelled once, and the table cites it in `BpmnViewer.js`; the same code is at
`BpmnViewer.es.js:55-124` (add/remove), `:131-135` (`selectElements`) and `:168-195`
(overlays). The two differences are modelled separately.

Modules:

- `Diagram` (`diagram.dfy`): the element graph the rendering engine builds. An element
  has an id, a type string (`kind`, such as `"bpmn:Task"` or `"label"`), the ids of its
  incoming and outgoing connections, and a waypoints flag. The graph maps ids to elements.
- `VisibleSet` (`visible_set.dfy`): the visible-set engine. `Surface` holds the set of
  ids on the canvas and the log of canvas calls (`AddShape`, `AddConn`, `RemoveShape`,
  `RemoveConn`). Pure functions give the surface after each operation, and lemmas state
  what those functions guarantee. Class `Canvas` runs the same operations step by step,
  with a method per source function and a `for` loop per `forEach`. Each method is proved
  to reach the state the pure function gives. The viewer treats membership in the element
  registry as "on the canvas", so `visible` is that registry membership.
- `Classifier` (`classifier.dfy`): `selectElements` as an order-preserving filter. The
  `reduce` version of `selectAllFirstElems` is a left fold. An independent reference
  definition (`FirstOfEachType`) says which elements belong to the first-occurrence set.
  The loop version is a method proved to return the same sequence as the fold.
- `Overlays` (`overlays.dfy`): JavaScript's `split` on one character, the label taken
  from `type.split(":")[1]`, the fixed HTML wrapper, and the overlay store (a class whose
  `seq` of overlays is appended to and cleared).
- `Highlight` (`highlight.dfy`): per-element fill colours and the redraw requests, as a
  class. The variant (`Viewer` or `ViewerEs`) picks the highlight colour.
- `Wrappers` (`wrappers.dfy`): `Option`. `None` stands for JavaScript's `undefined`.

Two details of the code shape the model:

- `selectElements` calls the rendering library's `is`, which also accepts subtypes, so
  the type test is a parameter here.
- The overlay label is `type.split(":")[1]`. A type without `:` shows `undefined`
  (`Overlays.LabelDefined`), and a type whose segment is already "Pool" also shows "Pool"
  (`Overlays.LabelPool`).

## Model

| member | source | states |
|---|---|---|
| `VisibleSet.RemovedConnectionsEffect` | src/viewer/BpmnViewer.js:72-76 | removing a connection array takes exactly those ids off the canvas and logs one `RemoveConn` per entry, in array order |
| `VisibleSet.RemovedElementEffect` | src/viewer/BpmnViewer.js:60-87 | one turn of `removeElements` takes the element and all its incoming and outgoing connections off the canvas and touches nothing else; its log is connection removals only, for that element's connections, followed by the element's `RemoveShape` |
| `VisibleSet.RemovedElements` | src/viewer/BpmnViewer.js:82-87 | `removeElements(es)` never adds an id to the canvas, and its calls extend the log by at least one per element of `es`, keeping the earlier entries |
| `VisibleSet.RemovedElementsVisible` | src/viewer/BpmnViewer.js:82-87 | after `removeElements(es)`, the visible set is the old one minus the elements of `es` and all their connections: none of those is visible, every other visible id still is |
| `VisibleSet.RemovedElementsOrdered` | src/viewer/BpmnViewer.js:82-87 | in the calls `removeElements(es)` makes, each `RemoveShape` is for an element of `es` and comes after a `RemoveConn` for every connection of that element |
| `VisibleSet.AddedConnectionsEffect` | src/viewer/BpmnViewer.js:105-116 | adding a connection array makes all its ids visible. It logs one call per id that was not registered (a registered one is never re-added) and no id twice: `AddShape` for type "label", `AddConn` otherwise. Nothing else changes |
| `VisibleSet.AddedConnectionsCalls` | src/viewer/BpmnViewer.js:105-116 | the visible set after adding a connection array, and each new log entry is the right call for an id that was not registered before, with no id logged twice |
| `VisibleSet.AddedConnectionsComplete` | src/viewer/BpmnViewer.js:105-116 | every id of the array that was not registered gets its add call |
| `VisibleSet.AddedElementEffect` | src/viewer/BpmnViewer.js:122-129 | an element already registered is skipped, and neither the visible set nor the log changes. Otherwise the element and all its connections become visible and nothing else does. The connections that were missing are logged first, each with its call, and the element's `AddShape` last |
| `VisibleSet.AddedElementsEffect` | src/viewer/BpmnViewer.js:122-129 | after `addElements(es)`, every element of `es` is visible, nothing visible has gone, nothing outside `es` and their connections has appeared, and each element that was not registered at its turn has all its connections visible |
| `VisibleSet.AddedElements` | src/viewer/BpmnViewer.js:122-129 | `addElements(es)` never takes an id off the canvas, and it only appends to the log |
| `VisibleSet.AddedVisibleUnchanged` | src/viewer/BpmnViewer.js:124 | `addElements` on elements that are all registered changes nothing |
| `VisibleSet.AddedElementsIdempotent` | src/viewer/BpmnViewer.js:122-129 | a second `addElements(es)` right after the first changes neither the visible set nor the log |
| `VisibleSet.RemoveAddRoundTrip` | src/viewer/BpmnViewer.js:82-129 | when an element and all its connections are visible, `removeElements([e])` followed by `addElements([e])` restores the visible set |
| `VisibleSet.Canvas.RemoveConnectionArray` | src/viewer/BpmnViewer.js:72-76 | the loop reaches the state `RemovedConnections` gives |
| `VisibleSet.Canvas.RemoveConnections` | src/viewer/BpmnViewer.js:60-66 | the incoming array is removed, then the outgoing array |
| `VisibleSet.Canvas.RemoveElements` | src/viewer/BpmnViewer.js:82-87 | the loop reaches the state `RemovedElements` gives; the visible set loses exactly the elements and their connections |
| `VisibleSet.Canvas.AddConnectionArray` | src/viewer/BpmnViewer.js:105-116 | the loop, with its registry check and label test, reaches the state `AddedConnections` gives; all ids of the array are visible afterwards |
| `VisibleSet.Canvas.AddConnections` | src/viewer/BpmnViewer.js:93-99 | the incoming array is added, then the outgoing array |
| `VisibleSet.Canvas.AddElements` | src/viewer/BpmnViewer.js:122-129 | the loop reaches the state `AddedElements` gives; all elements of `es` are visible, nothing visible is lost, nothing outside their footprint appears |
| `Classifier.SelectElements` | src/viewer/BpmnViewer.js:136-140 | the result is an order-preserving subsequence of the registry; it holds only elements the type test accepts for "bpmn:" + name, and every registry element the test accepts, each exactly as often as in the registry |
| `Classifier.NamespaceElements` | src/viewer/BpmnViewer.js:148-150 | the `startsWith("bpmn:")` filter keeps, in order, exactly the "bpmn:"-prefixed registry elements, each exactly as often as in the registry |
| `Classifier.FirstOfEachTypeTypes` | src/viewer/BpmnViewer.js:147-165 | the types in the first-occurrence set are exactly the "bpmn:"-prefixed, non-Collaboration types present in the registry |
| `Classifier.FirstOfEachTypeSpec` | src/viewer/BpmnViewer.js:147-165 | the reference first-occurrence set is an order-preserving subsequence of the registry. Its types are pairwise distinct, all "bpmn:"-prefixed, none Collaboration. It contains the first registry element of every such type |
| `Classifier.FirstOfEachTypeNamespace` | src/viewer/BpmnViewer.js:148-150 | filtering out non-"bpmn:" elements first does not change the first-occurrence set |
| `Classifier.FirstStepExtends` | src/viewer/BpmnViewer.js:151-164 | one `reduce` step (skip Collaboration, skip a type already in `res`, otherwise append) extends the first-occurrence set by one registry element |
| `Classifier.ReduceFromFirsts` | src/viewer/BpmnViewer.js:151-164 | the `reduce` over the rest of the filtered registry, started from the first-occurrence set of the part already seen, yields the first-occurrence set of the whole |
| `Classifier.SelectAllFirstElems` | src/viewer/BpmnViewer.js:147-165 | the `filter` + `reduce` of `selectAllFirstElems` returns exactly the reference first-occurrence set |
| `Classifier.SelectAllFirstElemsSpec` | src/viewer/BpmnViewer.js:147-165 | `selectAllFirstElems` returns an order-preserving subsequence of the registry. Its types are pairwise distinct, all "bpmn:"-prefixed, none Collaboration. For every such type it holds the first registry element of that type |
| `Classifier.AlreadyAdded` | src/viewer/BpmnViewer.es.js:148-153 | the inner scan sets the `alreadyAdded` flag exactly when some element pushed so far has the type of the current element |
| `Classifier.SelectAllFirstElemsLoop` | src/viewer/BpmnViewer.es.js:142-159 | the loop with the `alreadyAdded` flag returns the same sequence as the `reduce` version. The flag is set exactly when a pushed element has the same type. The result has pairwise-distinct types, all "bpmn:"-prefixed, none Collaboration |
| `Overlays.JoinSplit` | src/viewer/BpmnViewer.js:196-198 | the model of `split(":")` loses nothing: joining the pieces with the separator gives the string back |
| `Overlays.SplitJoin` | src/viewer/BpmnViewer.js:196-198 | splitting separator-free pieces joined by the separator gives the pieces back |
| `Overlays.SplitFree` | src/viewer/BpmnViewer.js:196-198 | a string without the separator splits into itself alone |
| `Overlays.SplitPrefix` | src/viewer/BpmnViewer.js:196-198 | a separator-free head before the first separator is the first piece |
| `Overlays.LabelOfQualifiedType` | src/viewer/BpmnViewer.js:195-198 | for a type `ns:name`, the overlay content is "Pool" when the name is "Participant" and the name otherwise |
| `Overlays.PoolAndTaskLabels` | src/viewer/BpmnViewer.js:195-198 | the overlay content for type "bpmn:Participant" is "Pool", and for "bpmn:Task" it is "Task" |
| `Overlays.LabelDefined` | src/viewer/BpmnViewer.js:195-198 | the content is `undefined` exactly when the type has no ':', and a defined content never contains ':' |
| `Overlays.LabelPool` | src/viewer/BpmnViewer.js:196-197 | the content is "Pool" exactly when the segment is "Participant" or already "Pool" |
| `Overlays.UnwrapHtml` | src/viewer/BpmnViewer.js:177 | the fixed `<div class="diagram-note p-1">` … `<div/>` wrapper keeps the content intact: stripping it gives the content text back |
| `Overlays.OverlaysForSpec` | src/viewer/BpmnViewer.js:193-201 | `addOverlays` makes one overlay per element, in input order, attached to that element, with that element's label wrapped in the fixed HTML, at the position computed for the element and label |
| `Overlays.OverlayStore.AddOverlay` | src/viewer/BpmnViewer.js:174-179 | exactly one overlay is appended, for the element, with the wrapped content at the computed position |
| `Overlays.OverlayStore.AddOverlays` | src/viewer/BpmnViewer.js:193-201 | the store grows by exactly the overlays `OverlaysFor` gives, after the old ones |
| `Overlays.OverlayStore.RemoveOverlays` | src/viewer/BpmnViewer.js:184-186 | the store is empty afterwards whatever it held, so a second call changes nothing |
| `Highlight.FillsDistinct` | src/viewer/BpmnViewer.es.js:202-219 | the `.es.js` highlight colour `rgba(0, 80, 0, 1)` differs from `rgba(60, 176, 67, 1)` of the other variant, and both differ from the white default |
| `Highlight.RedrawKind` | src/viewer/BpmnViewer.js:211 | the redraw kind is "connection" exactly when the element has waypoints, and "shape" exactly when it has none |
| `Highlight.Styles.HighlightElement` | src/viewer/BpmnViewer.js:208-213 | the element's fill becomes the variant's highlight colour and no other fill changes. Re-highlighting leaves all fills as they were. One redraw is requested, of kind "connection" exactly when the element has waypoints |
| `Highlight.Styles.RemoveHighlightElement` | src/viewer/BpmnViewer.js:220-225 | the element's fill becomes `rgba(255, 255, 255, 1)` and no other fill changes. Applying it again leaves all fills as they were. One redraw is requested, of kind "connection" exactly when the element has waypoints |

## Left out

- React plumbing: the `useState`/`useEffect` hooks, the JSX, the spinner and the wiring
  of the `Toolbar` props. They are user interface, not bookkeeping.
- Viewer construction and `importXML`: the asynchronous import and the `ready` flag are
  not modelled. Every operation here assumes the import has finished, and a `Canvas` is
  built from the graph and visible set the import produced.
- `BdvUtil.getPosition`: `src/util/BdvUtil.js` is not part of this model. The position
  is a function parameter, and `Position` is an opaque offset record.
- `is` from the rendering library is not part of this model. Its subtype-aware test is a
  function parameter of `SelectElements`.
- Canvas geometry: `canvas.zoom("fit-viewport", "auto")` and `resetViewport` are left out
  as rendering. So are `elementRegistry.getGraphics` and what `graphicsFactory.update`
  draws; only the requested redraw kind is recorded.
- `console.log` calls: debug output only.
- Removing an id that is not on the canvas: removal is modelled as set difference, with
  the call still logged. What the rendering library does with such an id is not part of
  this model. This happens when two elements of one `removeElements` call share a
  connection.
- The handle that `overlays.add` returns: `addOverlay` passes it on, but its only caller,
  `addOverlays`, discards it, so `AddOverlay` returns nothing.
- Registry order after re-adding: the classifier works on the registry sequence taken at
  import time, which is the only time the source calls it. The canvas keeps only a
  membership set.
- Object identity: elements are referred to by id in a fixed graph, so two different
  objects with the same id are not modelled. The call log and the redraw list are ghost
  state.
- The invariant "a visible connection has both endpoints visible" is neither kept by
  the source nor claimed here.
- `VisibleSet.AddedElementsEffect`: the edges-before-shape order of a whole batch is not
  stated as one property. It is stated per turn, in `AddedElementEffect`; the batch is
  those turns in order.
