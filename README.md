# Entity graph view and tag widget of the Data Hub Central modeling screen

This project is a Dafny model of two React components of the Data Hub Central
UI, with proofs about the model.

- **The graph view** (`graph-vis.tsx`) draws an entity model as a graph.
  - Each entity type becomes a node. Its colour and instance count come from a
    metadata table. Its border shows selection. It gets a fixed position when
    the coordinate cache holds one for it.
  - Each schema property that names a related entity type becomes an edge.
    The edge is one-to-one when the property has `relatedEntityType` and
    one-to-many when `items.relatedEntityType` is set instead.
  - The edge id `prop-join-edge` is split again when the edge is clicked, to
    recover the relationship and join-property names.
  - The view keeps a coordinate cache and a physics flag. It seeds the cache
    from persisted positions and updates it on drag end. On stabilisation,
    and when the shared context selects a listed entity, it saves every
    entity that has no persisted position.
  - A small context-menu state machine holds the remembered node, the menu
    position and the menu's visibility.
- **The tag widget** (`hc-tag.tsx`) maps a colour keyword, case-insensitively,
  to a style class. It builds its class attribute with `Array.prototype.join`,
  which renders `false` as the word "false" and `undefined` as "". It shows a
  close icon unless `closable` is `false`.

How the model is organised:

- `Js` holds the JavaScript semantics the code relies on: truthiness of
  `undefined`, `0` and `""`; string conversion of `undefined`; `split` on one
  character; `join`; `toLowerCase`; number-to-string.
- `Schema` holds the entity-type records.
- `Edges`, `Coords` and `Nodes` hold the pure derivations. `Edges.GetEdges` is
  written as the source's nested push loop and proved equal to the functional
  `AllEdges`.
- `GraphVis.GraphView` is a class whose fields are the component's state
  variables. Each effect and each event handler is a method.
  - What the graph widget reports (positions, the node under the pointer,
    connected nodes, whether a widget instance exists) is passed in as
    parameters.
  - The calls the view makes outward are appended to log fields:
    `saveEntityCoords`, `handleEntitySelection`, `focus` and the shared
    context's `setSelectedEntity`.
  - React's stale closures are modelled as they behave. The physics loop
    reads the flag as it was at render. Each step of the coordinate sweep
    starts from the cache as it was at render.
- `HcTag` holds the tag widget.

## Model

| member | source | states |
|---|---|---|
| Js.Split | marklogic-data-hub-central/ui/src/components/modeling/graph-view/graph-vis/graph-vis.tsx:285 | `split` on one character always yields at least one piece |
| Js.SplitPiecesFree | marklogic-data-hub-central/ui/src/components/modeling/graph-view/graph-vis/graph-vis.tsx:285 | no piece of a split contains the separator |
| Js.SplitShape | marklogic-data-hub-central/ui/src/components/modeling/graph-view/graph-vis/graph-vis.tsx:444-445 | a string splits into the single piece of itself exactly when it has no separator |
| Js.LastSegment | marklogic-data-hub-central/ui/src/components/modeling/graph-view/graph-vis/graph-vis.tsx:289 | the last `/`-segment never contains `/` |
| Js.LastSegmentAfter | marklogic-data-hub-central/ui/src/components/modeling/graph-view/graph-vis/graph-vis.tsx:285-289 | for any prefix, the last segment of `prefix/name` is `name` when `name` has no `/` |
| Js.SplitJoin | marklogic-data-hub-central/ui/src/components/modeling/graph-view/graph-vis/graph-vis.tsx:444-445 | joining separator-free pieces and splitting at the same separator gives the pieces back |
| Js.JoinFiveSplit | marklogic-data-hub-central/ui/src/components/common/hc-tag/hc-tag.tsx:52-53 | splitting five joined pieces, of which only the second may hold the separator, gives the first, the pieces of the second, then the last three |
| Js.JoinSplit | marklogic-data-hub-central/ui/src/components/modeling/graph-view/graph-vis/graph-vis.tsx:444-445 | joining the pieces of a split with the same separator gives the string back |
| Js.ToLowerIdempotent | marklogic-data-hub-central/ui/src/components/common/hc-tag/hc-tag.tsx:19 | lower-casing an already lower-cased string changes nothing |
| Js.ToLowerFixed | marklogic-data-hub-central/ui/src/components/common/hc-tag/hc-tag.tsx:19 | the lower-cased string has no upper-case letter, and lower-casing changes a string exactly when it has one |
| Js.NatToStringValue | marklogic-data-hub-central/ui/src/components/modeling/graph-view/graph-vis/graph-vis.tsx:215 | the digits of a natural number read back as that number and have no leading zero |
| Js.IntToStringValue | marklogic-data-hub-central/ui/src/components/modeling/graph-view/graph-vis/graph-vis.tsx:215 | the count's text is the canonical decimal numeral of the count: "-" exactly for a negative count, then digits that read back as its magnitude, with no leading zero |
| Js.IntToStringMinus123 | marklogic-data-hub-central/ui/src/components/modeling/graph-view/graph-vis/graph-vis.tsx:198 | the default count -123 prints as "-123" |
| Coords.SeedCacheKeys | marklogic-data-hub-central/ui/src/components/modeling/graph-view/graph-vis/graph-vis.tsx:60-67 | the seeded cache has a key exactly for the names of entities with `hubCentral` and truthy `graphX` and `graphY` |
| Coords.SeedCache | marklogic-data-hub-central/ui/src/components/modeling/graph-view/graph-vis/graph-vis.tsx:60-67 | every value of the seeded cache is a per-entity entry with a truthy position |
| Coords.SeedCacheValue | marklogic-data-hub-central/ui/src/components/modeling/graph-view/graph-vis/graph-vis.tsx:64 | when names are distinct, an entity's seeded entry is its own persisted position |
| Coords.IndexOf | marklogic-data-hub-central/ui/src/components/modeling/graph-view/graph-vis/graph-vis.tsx:112 | `indexOf` gives -1 or a position of the list |
| Coords.IndexOfFirst | marklogic-data-hub-central/ui/src/components/modeling/graph-view/graph-vis/graph-vis.tsx:112 | `indexOf` gives -1 exactly when the name is absent; otherwise it gives the first position that holds the name |
| Coords.CoordsExistFirst | marklogic-data-hub-central/ui/src/components/modeling/graph-view/graph-vis/graph-vis.tsx:110-120 | `coordsExist` holds exactly when the first entity of that name has `hubCentral` and truthy `graphX` and `graphY` |
| Coords.CoordsExistOwn | marklogic-data-hub-central/ui/src/components/modeling/graph-view/graph-vis/graph-vis.tsx:110-120 | when names are distinct, `coordsExist` on an entity's name is the seeding test applied to that entity |
| Coords.CoordsExistSeeded | marklogic-data-hub-central/ui/src/components/modeling/graph-view/graph-vis/graph-vis.tsx:110-120 | a name that passes `coordsExist` has a cached position in the seeded cache; the converse holds when names are distinct |
| Coords.SweepCalls | marklogic-data-hub-central/ui/src/components/modeling/graph-view/graph-vis/graph-vis.tsx:124-132 | the sweep over the first k entities makes at most k calls |
| Coords.SweepCallsExact | marklogic-data-hub-central/ui/src/components/modeling/graph-view/graph-vis/graph-vis.tsx:124-132 | the sweep makes exactly as many calls as there are entities failing `coordsExist` |
| Coords.SweepCallsSound | marklogic-data-hub-central/ui/src/components/modeling/graph-view/graph-vis/graph-vis.tsx:125-131 | each save call of the sweep names a listed entity that fails `coordsExist`; when the report has a position for every such entity, the call carries that entity's reported position |
| Coords.SweepCallsComplete | marklogic-data-hub-central/ui/src/components/modeling/graph-view/graph-vis/graph-vis.tsx:125-131 | every listed entity that fails `coordsExist` gets a save call at its reported position, and the report has that position whenever it covers the sweep |
| Coords.SweepCallsAllPersisted | marklogic-data-hub-central/ui/src/components/modeling/graph-view/graph-vis/graph-vis.tsx:122-134 | the sweep makes no call at all when every entity has a persisted position |
| Coords.SweepCacheEntities | marklogic-data-hub-central/ui/src/components/modeling/graph-view/graph-vis/graph-vis.tsx:128-129 | the sweep writes only the top-level keys "graphX" and "graphY"; no other entity's entry changes, and per-entity entries stay truthy |
| Nodes.GetColor | marklogic-data-hub-central/ui/src/components/modeling/graph-view/graph-vis/graph-vis.tsx:182-194 | "#cfe3e8" without a metadata colour; "#F5F5F5" for an entity outside an active filter (non-empty, without "a"); the metadata colour otherwise |
| Nodes.NumInstancesTruthy | marklogic-data-hub-central/ui/src/components/modeling/graph-view/graph-vis/graph-vis.tsx:197-203 | the count a node shows is never 0; it is the default -123, or a count stored in the table, and a truthy stored count other than -123 is always shown instead of the default |
| Nodes.GetNodes | marklogic-data-hub-central/ui/src/components/modeling/graph-view/graph-vis/graph-vis.tsx:205-249 | exactly one node per entity, in input order, with `id` equal to the entity name; ids are distinct when names are |
| Nodes.NodeBorder | marklogic-data-hub-central/ui/src/components/modeling/graph-view/graph-vis/graph-vis.tsx:218-222 | border width 3 and the select colour exactly for the selected entity while an entity is selected; width 0 otherwise; background is the entity's colour |
| Nodes.NodePosition | marklogic-data-hub-central/ui/src/components/modeling/graph-view/graph-vis/graph-vis.tsx:243-247 | a node has x and y exactly when its cache entry has truthy `graphX` and `graphY`, and then they are that entry |
| Nodes.SeededNodesKeepPersistedPositions | marklogic-data-hub-central/ui/src/components/modeling/graph-view/graph-vis/graph-vis.tsx:243-247 | from a freshly seeded cache with distinct names, exactly the entities with a persisted position get it as their fixed position |
| Nodes.EmptyMetadataDefaults | marklogic-data-hub-central/ui/src/components/modeling/graph-view/graph-vis/graph-vis.tsx:27 | with the empty metadata table of the source, every node has the default colour and its label reads `<b>name</b>` and `<code>-123</code>` |
| Nodes.NodeLabelDefault | marklogic-data-hub-central/ui/src/components/modeling/graph-view/graph-vis/graph-vis.tsx:213-216 | a node label with the default count reads `<b>name</b>`, a line break and `<code>-123</code>` |
| Nodes.ChosenNode | marklogic-data-hub-central/ui/src/components/modeling/graph-view/graph-vis/graph-vis.tsx:226-241 | a selected node gets the select border of width 3; hovering gives the hover colour; selected without hover keeps its own colour; a hovered unselected node gets border width 0; the plain state changes nothing |
| Edges.GetEdges | marklogic-data-hub-central/ui/src/components/modeling/graph-view/graph-vis/graph-vis.tsx:277-345 | the nested push loop produces exactly the edges of `AllEdges` (entities in order, then properties in key order), or fails where that does |
| Edges.PushPropertyEdges | marklogic-data-hub-central/ui/src/components/modeling/graph-view/graph-vis/graph-vis.tsx:281-342 | the inner loop appends exactly the edges of the entity's properties, in order |
| Edges.PushPropertyEdge | marklogic-data-hub-central/ui/src/components/modeling/graph-view/graph-vis/graph-vis.tsx:282-341 | one iteration of the inner loop pushes exactly the property's edge, or nothing for a property that relates no entity |
| Edges.EdgeOf | marklogic-data-hub-central/ui/src/components/modeling/graph-view/graph-vis/graph-vis.tsx:283-341 | a property yields an edge exactly when it is one-to-one or one-to-many; the edge goes from the owner, is labelled with the property name, targets a name without "/", and has `arrowStrikethrough` exactly when it is one-to-one |
| Edges.EdgeOfFields | marklogic-data-hub-central/ui/src/components/modeling/graph-view/graph-vis/graph-vis.tsx:284-341 | a property yields an edge exactly when it is one-to-one or one-to-many, and the one-to-one branch wins. `from` is the owner and `label` the property name. `to` is the last `/`-segment of the right related type. The id uses the right join name. `arrowStrikethrough` is true for one-to-one and false for one-to-many |
| Edges.PropEdges | marklogic-data-hub-central/ui/src/components/modeling/graph-view/graph-vis/graph-vis.tsx:280-342 | at most one edge per property |
| Edges.PropEdgesAppend | marklogic-data-hub-central/ui/src/components/modeling/graph-view/graph-vis/graph-vis.tsx:281-342 | edges of a concatenated property list are the concatenated edges (order is kept) |
| Edges.PropEdgeAt | marklogic-data-hub-central/ui/src/components/modeling/graph-view/graph-vis/graph-vis.tsx:281-342 | a related property's edge sits right after the edges of the properties before it |
| Edges.PropEdgesFrom | marklogic-data-hub-central/ui/src/components/modeling/graph-view/graph-vis/graph-vis.tsx:281-342 | every edge comes from one property of the list |
| Edges.AllEdgesFrom | marklogic-data-hub-central/ui/src/components/modeling/graph-view/graph-vis/graph-vis.tsx:279-343 | every derived edge comes from a property of one entity's own definition and starts at that entity |
| Edges.AllEdgesComplete | marklogic-data-hub-central/ui/src/components/modeling/graph-view/graph-vis/graph-vis.tsx:278-343 | conversely, the edge of every related property of every entity's own definition is among the derived edges |
| Edges.AllEdgesFails | marklogic-data-hub-central/ui/src/components/modeling/graph-view/graph-vis/graph-vis.tsx:280 | derivation fails exactly when some entity has no definition under its own name |
| Edges.EdgeIdParts | marklogic-data-hub-central/ui/src/components/modeling/graph-view/graph-vis/graph-vis.tsx:291 | an id built from names without "-" splits into the property name, the join name and "edge" |
| Edges.EdgeIdRoundTrip | marklogic-data-hub-central/ui/src/components/modeling/graph-view/graph-vis/graph-vis.tsx:444-445 | when neither name contains "-", the click handler recovers both the property name and the join name from the id |
| Edges.EdgeIdUndefinedJoin | marklogic-data-hub-central/ui/src/components/modeling/graph-view/graph-vis/graph-vis.tsx:291 | an undefined join name comes back as the string "undefined" |
| Edges.EdgeIdUndefinedAmbiguous | marklogic-data-hub-central/ui/src/components/modeling/graph-view/graph-vis/graph-vis.tsx:291 | an undefined join name and a join property named "undefined" give the same id, and the click handler reads them the same way |
| Edges.ParseEdgeId | marklogic-data-hub-central/ui/src/components/modeling/graph-view/graph-vis/graph-vis.tsx:444-445 | the relationship name read from an id never contains "-"; the join name is undefined exactly when the id has no "-", and then the relationship name is the whole id |
| Edges.RelationshipNameRecovered | marklogic-data-hub-central/ui/src/components/modeling/graph-view/graph-vis/graph-vis.tsx:444 | the relationship name is recovered exactly when the property name has no "-" |
| Edges.HyphenatedNameMisread | marklogic-data-hub-central/ui/src/components/modeling/graph-view/graph-vis/graph-vis.tsx:444-445 | a property `a-b` is read back as relationship `a` with join name `b` |
| Edges.OnChosen | marklogic-data-hub-central/ui/src/components/modeling/graph-view/graph-vis/graph-vis.tsx:265-275 | the edge turns "#7FADE3"; the arrow becomes the one-to-many hover image exactly when `arrowStrikethrough` is false, and the one-to-one hover image otherwise |
| Edges.HoverKeepsCardinality | marklogic-data-hub-central/ui/src/components/modeling/graph-view/graph-vis/graph-vis.tsx:268-274 | hovering a derived edge swaps its arrow for the hover image of the same cardinality |
| Edges.CustomerOrderExample | marklogic-data-hub-central/ui/src/components/modeling/graph-view/graph-vis/graph-vis.tsx:277-345 | a Customer whose `orderRef` relates `.../Order` through `orderId` yields exactly the edge Customer→Order with id "orderRef-orderId-edge" |
| GraphVis.EndpointColorIsNodeColor | marklogic-data-hub-central/ui/src/components/modeling/graph-view/graph-vis/graph-vis.tsx:441-443 | an endpoint's colour is the colour `getColor` gives that node when the filter does not mute it; a missing endpoint gets the colour of the key "undefined" |
| GraphVis.RelationshipInfoEndpoints | marklogic-data-hub-central/ui/src/components/modeling/graph-view/graph-vis/graph-vis.tsx:435-446 | the descriptor's endpoints are the first two connected nodes coloured as unfiltered nodes, missing ones are undefined, and its names are those the edge id parses to |
| GraphVis.ClickedOneToOneEdge | marklogic-data-hub-central/ui/src/components/modeling/graph-view/graph-vis/graph-vis.tsx:438-446 | clicking a one-to-one edge whose names have no "-" opens the dialog on that property and its join name |
| GraphVis.ClickedOneToManyEdge | marklogic-data-hub-central/ui/src/components/modeling/graph-view/graph-vis/graph-vis.tsx:438-446 | the same for a one-to-many edge, whose join name comes from `items` |
| GraphVis.GraphView.constructor | marklogic-data-hub-central/ui/src/components/modeling/graph-view/graph-vis/graph-vis.tsx:36-47 | the initial state: physics on, no coordinates loaded, empty cache, no remembered node, menu hidden, empty graph |
| GraphVis.GraphView.LoadCoords | marklogic-data-hub-central/ui/src/components/modeling/graph-view/graph-vis/graph-vis.tsx:57-71 | the first time a non-empty list arrives, the cache becomes the seeded cache and is marked loaded; otherwise nothing changes |
| GraphVis.GraphView.DisablePhysics | marklogic-data-hub-central/ui/src/components/modeling/graph-view/graph-vis/graph-vis.tsx:76-94 | physics ends up on exactly when it was on at render and no entity has a persisted position, so the loop never switches it back on |
| GraphVis.GraphView.UpdateGraph | marklogic-data-hub-central/ui/src/components/modeling/graph-view/graph-vis/graph-vis.tsx:74-108 | physics stays on exactly when it was on and no entity has a persisted position; the graph becomes the derived nodes and edges, and is unchanged when edge derivation fails |
| GraphVis.GraphView.SaveUnsavedCoords | marklogic-data-hub-central/ui/src/components/modeling/graph-view/graph-vis/graph-vis.tsx:122-134 | the save log grows by exactly the sweep's calls; the cache becomes the render-time cache with the top-level keys set from the last call |
| GraphVis.GraphView.SaveIfUnsaved | marklogic-data-hub-central/ui/src/components/modeling/graph-view/graph-vis/graph-vis.tsx:126-131 | one iteration of the sweep: an entity that fails `coordsExist` is saved at its reported position and the cache becomes the render-time cache with that position under the top-level keys; any other entity changes nothing |
| GraphVis.GraphView.Stabilized | marklogic-data-hub-central/ui/src/components/modeling/graph-view/graph-vis/graph-vis.tsx:488-502 | with a widget present, the stabilised event runs the sweep; without one, nothing changes |
| GraphVis.GraphView.FocusEffect | marklogic-data-hub-central/ui/src/components/modeling/graph-view/graph-vis/graph-vis.tsx:145-149 | with a widget present, the widget is focused on the selected entity; otherwise nothing happens |
| GraphVis.GraphView.SelectionEffect | marklogic-data-hub-central/ui/src/components/modeling/graph-view/graph-vis/graph-vis.tsx:152-164 | with a widget and a truthy context selection, a listed entity runs the sweep unless `selectNodes` throws first, in which case nothing changes; an unknown one is unset in the context; otherwise nothing changes |
| GraphVis.GraphView.Select | marklogic-data-hub-central/ui/src/components/modeling/graph-view/graph-vis/graph-vis.tsx:426-431 | the first selected node is reported to the owner; an empty selection reports nothing |
| GraphVis.GraphView.Click | marklogic-data-hub-central/ui/src/components/modeling/graph-view/graph-vis/graph-vis.tsx:432-453 | a click on an edge with no node opens the dialog on that edge's descriptor; any click forgets the remembered node |
| GraphVis.GraphView.DragStart | marklogic-data-hub-central/ui/src/components/modeling/graph-view/graph-vis/graph-vis.tsx:455-459 | physics is off afterwards |
| GraphVis.GraphView.DragEnd | marklogic-data-hub-central/ui/src/components/modeling/graph-view/graph-vis/graph-vis.tsx:460-473 | with a dragged node and a truthy position, only that node's entry changes, to that position, and the owner is asked to save the same values; otherwise nothing changes |
| GraphVis.GraphView.OnContext | marklogic-data-hub-central/ui/src/components/modeling/graph-view/graph-vis/graph-vis.tsx:503-516 | right-clicking a node remembers it and puts the menu at (x, y + 40); right-clicking elsewhere clears both |
| GraphVis.GraphView.Dragging | marklogic-data-hub-central/ui/src/components/modeling/graph-view/graph-vis/graph-vis.tsx:517-522 | dragging forgets the remembered node and, when there was one, the menu position |
| GraphVis.GraphView.MenuClick | marklogic-data-hub-central/ui/src/components/modeling/graph-view/graph-vis/graph-vis.tsx:382-391 | the menu always closes; key "1" with a widget focuses the remembered node and forgets it; otherwise nothing else changes |
| GraphVis.GraphView.SyncMenuVisibility | marklogic-data-hub-central/ui/src/components/modeling/graph-view/graph-vis/graph-vis.tsx:417-423 | the menu is visible exactly while a node is remembered |
| GraphVis.DragOrderScenario | marklogic-data-hub-central/ui/src/components/modeling/graph-view/graph-vis/graph-vis.tsx:455-473 | dragging "Order" to (120, 40) on a fresh view saves exactly that and caches that position |
| GraphVis.RightClickEmptyCanvas | marklogic-data-hub-central/ui/src/components/modeling/graph-view/graph-vis/graph-vis.tsx:503-516 | from any state, right-clicking empty canvas forgets the node, clears the position and hides the menu |
| HcTag.SetTagColorIgnoresCase | marklogic-data-hub-central/ui/src/components/common/hc-tag/hc-tag.tsx:19 | the class depends only on the lower-cased keyword |
| HcTag.SetTagColor | marklogic-data-hub-central/ui/src/components/common/hc-tag/hc-tag.tsx:17-46 | the colour gets a class exactly when its lower-cased form is one of the keywords |
| HcTag.RedInAnyCase | marklogic-data-hub-central/ui/src/components/common/hc-tag/hc-tag.tsx:19-40 | "RED", "red" and "Red" all give the red class |
| HcTag.SetTagColorClasses | marklogic-data-hub-central/ui/src/components/common/hc-tag/hc-tag.tsx:17-46 | a class is non-empty exactly for the seven keywords; each keyword has its own distinct class; every other input gives "" |
| HcTag.KeywordClass | marklogic-data-hub-central/ui/src/components/common/hc-tag/hc-tag.tsx:22-44 | the switch gives a non-empty class exactly for the seven keywords, and no class contains a space |
| HcTag.ClassName | marklogic-data-hub-central/ui/src/components/common/hc-tag/hc-tag.tsx:52-53 | the class attribute starts with the base class, a space, the caller's class or "", and a space |
| HcTag.ClassNameSplitAny | marklogic-data-hub-central/ui/src/components/common/hc-tag/hc-tag.tsx:52-53 | for any caller class, the attribute splits into the base class, the pieces of the caller's class, and the colour, dashed and visible tokens |
| HcTag.ClassNameSplit | marklogic-data-hub-central/ui/src/components/common/hc-tag/hc-tag.tsx:52-53 | when the caller's class has no space, the attribute splits back into its five rendered pieces |
| HcTag.ClassNameTokens | marklogic-data-hub-central/ui/src/components/common/hc-tag/hc-tag.tsx:52-53 | for any caller class: the base class first, then the caller's class piece by piece ("" when absent), then the colour class or "". `dashed` gives the dashed class, "false" or "" for true, false or undefined. `visible` gives the invisible class exactly when it is false, and "false" otherwise. A caller class without a space gives exactly five tokens |
| HcTag.ShowsCloseIcon | marklogic-data-hub-central/ui/src/components/common/hc-tag/hc-tag.tsx:56 | the close icon shows unless `closable` is false; undefined counts as closable |

## Left out

- Rendering is not modelled: the JSX, the `Dropdown`, `Menu` and `Graph` components, the relationship dialog component, and the SCSS modules. Style classes and graph-configuration colours are opaque distinct constants.
- vis-network calls are not made. `getPositions`, `getPosition`/`canvasToDOM`, `getNodeAt` and `getConnectedNodes` become method parameters. `focus` and `handleEntitySelection` are recorded in logs. `selectNodes` in the `stabilized` handler is not modelled, since it has no effect on the view's state.
- The `window.graphVisApi` test hook is not modelled. It is a test-only global.
- The `"image"` node branch is not modelled. `graphType` is fixed to `"shape"`, so that branch never runs.
- React scheduling is not modelled: effects run when the caller invokes their method. The cleanup of the graph effect is not modelled either.
- `selectNodes` in the external-selection effect (graph-vis.tsx:157) is not called. Whether it throws is a parameter of `GraphVis.GraphView.SelectionEffect`: a throw skips the sweep, and the model does not express the exception itself.
- `entitySelected` is `any` in the source. Node derivation uses only its truthiness, so `Nodes.View` keeps a `bool`; the focus effect, which passes it to the widget, takes it as an optional name.
- The physics/options object and the cursor changes of the hover and blur handlers are configuration and styling, so they are not modelled.
- Canvas coordinates are integers, not floating-point numbers. They keep the JS rule that 0 is falsy.
- `toLowerCase` is modelled for ASCII letters only.
- Object key order is taken as given: an entity's properties are a sequence in `Object.keys` order.
- Missing `modeling`: an entity with `hubCentral` but without `modeling`, which makes the source throw, cannot be expressed, because `HubCentral` always holds a `modeling` record. `null` values are not modelled either.
- GraphVis.GraphView.SaveUnsavedCoords: requires that the widget report a position for every entity that fails `coordsExist`. For such an entity without one, the source throws a TypeError reading `positions.x` (graph-vis.tsx:128), and the model does not express that throw.
- GraphVis.GraphView.Stabilized: has the same requirement when a widget is present. It treats the `getPositions()` result as always truthy, which it is for an object.
- GraphVis.GraphView.SelectionEffect: has the same requirement when it runs the sweep.
- GraphVis.GraphView.UpdateGraph: when edge derivation throws (an entity without a definition under its own name), the source's render fails. The model keeps the old graph instead.
- The module-level `entityMetadata` object is empty in the source (graph-vis.tsx:27). It is passed as a parameter so that the colour and count logic can be stated, and `Nodes.EmptyMetadataDefaults` states what the empty table gives.
- The sweep writes top-level keys: `saveUnsavedCoords` writes `graphX`/`graphY` at the top level of the cache, not under the entity's name. The model keeps this behaviour, and `Coords.SweepCacheEntities` states what it does and does not change.
- The `{}` menu position is truthy: the visibility effect's `menuPosition` test always passes.
