/** The graph view's own state and the effects and event handlers that
    change it. Each effect and each handler is a method the caller invokes
    explicitly; what the graph widget would report (node under the pointer,
    positions, connected nodes) comes in as parameters, and the calls the
    view makes back out (saving coordinates, focusing, selecting) are
    recorded in logs. */
module GraphVis {
  import opened Js
  import opened Schema
  import opened Edges
  import opened Coords
  import opened Nodes

  /** `menuPosition`: `{}` or `{left, top}`. */
  datatype MenuPosition = NoPosition | At(left: int, top: int)

  /** The descriptor the edge-click handler hands to the relationship dialog;
      endpoint names are `undefined` when the widget reports fewer than two. */
  datatype RelationshipInfo = RelationshipInfo(
    edgeId: string,
    sourceNodeName: Option<string>,
    sourceNodeColor: string,
    targetNodeName: Option<string>,
    targetNodeColor: string,
    relationshipName: string,
    joinPropertyName: Option<string>)

  /** The colour shown for an endpoint: its metadata colour, or the default.
      An undefined name looks up the key "undefined". */
  function EndpointColor(meta: MetadataTable, name: Option<string>): (r: string)
    ensures HasColor(meta, StringOf(name)) ==> r == meta[StringOf(name)].color.value
    ensures !HasColor(meta, StringOf(name)) ==> r == DefaultColor
  {
    var key := StringOf(name);
    if HasColor(meta, key) then meta[key].color.value else DefaultColor
  }

  /** The endpoint colour of a named node is the colour `getColor` gives it
      whenever the filter does not mute it, in particular with no filter;
      a missing endpoint gets the colour of the key "undefined". */
  lemma EndpointColorIsNodeColor(meta: MetadataTable, filtered: seq<string>, name: string)
    requires !(FilterActive(filtered) && name !in filtered)
    ensures EndpointColor(meta, Some(name)) == GetColor(meta, filtered, name)
    ensures EndpointColor(meta, None) == GetColor(meta, [], "undefined")
  {
  }

  function Nth(s: seq<string>, i: nat): Option<string> {
    if i < |s| then Some(s[i]) else None
  }

  /** The descriptor built for a clicked edge from its id and its connected nodes. */
  function RelationshipInfoOf(edgeId: string, connected: seq<string>, meta: MetadataTable): (r: RelationshipInfo)
    ensures r.edgeId == edgeId
    ensures r.sourceNodeName == Nth(connected, 0) && r.targetNodeName == Nth(connected, 1)
  {
    var parsed := ParseEdgeId(edgeId);
    RelationshipInfo(
      edgeId,
      Nth(connected, 0), EndpointColor(meta, Nth(connected, 0)),
      Nth(connected, 1), EndpointColor(meta, Nth(connected, 1)),
      parsed.relationshipName,
      parsed.joinPropertyName)
  }

  /** The descriptor's endpoints are the first two connected nodes, each
      coloured as an unfiltered node of that name; with fewer than two, the
      missing names are undefined. Its names are those the id parses to. */
  lemma RelationshipInfoEndpoints(edgeId: string, connected: seq<string>, meta: MetadataTable)
    ensures var info := RelationshipInfoOf(edgeId, connected, meta);
      && (|connected| >= 2 ==>
            && info.sourceNodeName == Some(connected[0]) && info.sourceNodeColor == GetColor(meta, [], connected[0])
            && info.targetNodeName == Some(connected[1]) && info.targetNodeColor == GetColor(meta, [], connected[1]))
      && (|connected| < 2 ==> info.targetNodeName == None && info.targetNodeColor == GetColor(meta, [], "undefined"))
      && (|connected| == 0 ==> info.sourceNodeName == None)
      && ParsedId(info.relationshipName, info.joinPropertyName) == ParseEdgeId(edgeId)
  {
  }

  /** Clicking an edge derived from a one-to-one property whose name and join
      name have no "-" opens the dialog on that property and join name. */
  lemma ClickedOneToOneEdge(owner: string, p: Property, join: string, connected: seq<string>, meta: MetadataTable)
    requires IsOneToOne(p.def) && p.def.joinPropertyName == Some(join)
    requires '-' !in p.name && '-' !in join
    ensures var info := RelationshipInfoOf(EdgeOf(owner, p).value.id, connected, meta);
      info.relationshipName == p.name && info.joinPropertyName == Some(join)
  {
    EdgeIdRoundTrip(p.name, join);
  }

  /** The same for a one-to-many property, whose join name sits under `items`. */
  lemma ClickedOneToManyEdge(owner: string, p: Property, join: string, connected: seq<string>, meta: MetadataTable)
    requires !IsOneToOne(p.def) && IsOneToMany(p.def) && p.def.items.value.joinPropertyName == Some(join)
    requires '-' !in p.name && '-' !in join
    ensures var info := RelationshipInfoOf(EdgeOf(owner, p).value.id, connected, meta);
      info.relationshipName == p.name && info.joinPropertyName == Some(join)
  {
    EdgeIdRoundTrip(p.name, join);
  }

  class GraphView {
    var physicsEnabled: bool
    var coordsLoaded: bool
    var coords: Cache
    var clickedNode: Option<string>
    var menuPosition: MenuPosition
    var contextMenuVisible: bool
    var selectedRelationship: Option<RelationshipInfo>
    var openRelationshipModal: bool
    /** `graphData`. */
    var nodes: seq<Node>
    var edges: seq<Edge>
    /** Calls made to the owner's `saveEntityCoords`, oldest first. */
    var saveCalls: seq<SaveCall>
    /** Calls made to the owner's `handleEntitySelection`. */
    var selectionCalls: seq<string>
    /** Arguments of the widget's `focus` calls. */
    var focusCalls: seq<Option<string>>
    /** Calls made to the shared modeling context's `setSelectedEntity`. */
    var contextSelections: seq<Option<string>>

    /** A remembered node is a real (truthy) id and always comes with a menu
        position; every per-entity cache entry holds a truthy position. */
    ghost predicate Valid()
      reads this`clickedNode, this`menuPosition, this`coords
    {
      && (clickedNode.Some? ==> clickedNode.value != "" && menuPosition.At?)
      && EntriesTruthy(coords)
    }

    /** The initial `useState` values. */
    constructor ()
      ensures Valid()
      ensures physicsEnabled && !coordsLoaded && coords == map[]
      ensures clickedNode == None && menuPosition == NoPosition && !contextMenuVisible
      ensures selectedRelationship == None && !openRelationshipModal
      ensures nodes == [] && edges == []
      ensures saveCalls == [] && selectionCalls == [] && focusCalls == [] && contextSelections == []
    {
      physicsEnabled := true;
      coordsLoaded := false;
      coords := map[];
      clickedNode := None;
      menuPosition := NoPosition;
      contextMenuVisible := false;
      selectedRelationship := None;
      openRelationshipModal := false;
      nodes := [];
      edges := [];
      saveCalls := [];
      selectionCalls := [];
      focusCalls := [];
      contextSelections := [];
    }

    /** The coordinate-loading effect: the first time a non-empty entity list
        arrives, the cache becomes the seeded cache, once and for all. */
    method LoadCoords(entityTypes: seq<EntityType>)
      requires Valid()
      modifies this`coords, this`coordsLoaded
      ensures Valid()
      ensures !old(coordsLoaded) && |entityTypes| > 0 ==> coords == SeedCache(entityTypes) && coordsLoaded
      ensures old(coordsLoaded) || |entityTypes| == 0 ==> coords == old(coords) && coordsLoaded == old(coordsLoaded)
    {
      if !coordsLoaded && |entityTypes| > 0 {
        var newCoords: Cache := map[];
        for i := 0 to |entityTypes|
          invariant newCoords == SeedCache(entityTypes[..i])
        {
          var e := entityTypes[i];
          assert entityTypes[..i + 1][..i] == entityTypes[..i];
          if e.model.hubCentral.Some? {
            var opts := e.model.hubCentral.value.modeling;
            if TruthyNumber(opts.graphX) && TruthyNumber(opts.graphY) {
              newCoords := newCoords[e.entityName := Entry(opts.graphX.value, opts.graphY.value)];
            }
          }
        }
        assert entityTypes[..|entityTypes|] == entityTypes;
        coords := newCoords;
        coordsLoaded := true;
      }
    }

    /** The graph effect: physics is switched off when some entity has a
        persisted position, then `graphData` is rebuilt; when edge derivation
        throws, `graphData` stays as it was. It touches none of the fields
        `Valid` reads. */
    method UpdateGraph(entityTypes: seq<EntityType>, meta: MetadataTable, filtered: seq<string>,
                       selectedEntity: Option<string>, entitySelected: bool)
      modifies this`physicsEnabled, this`nodes, this`edges
      ensures physicsEnabled == (old(physicsEnabled) && !AnyPersisted(entityTypes))
      ensures AllEdges(entityTypes).Some? ==>
        && nodes == GetNodes(View(meta, filtered, selectedEntity, entitySelected, coords), entityTypes)
        && edges == AllEdges(entityTypes).value
      ensures AllEdges(entityTypes).None? ==> nodes == old(nodes) && edges == old(edges)
    {
      DisablePhysics(entityTypes);
      var newNodes := GetNodes(View(meta, filtered, selectedEntity, entitySelected, coords), entityTypes);
      var newEdges := GetEdges(entityTypes);
      if newEdges.Some? {
        nodes := newNodes;
        edges := newEdges.value;
      }
    }

    /** The loop at the head of the graph effect. It reads the physics flag
        of the render, so once off it never switches back on. */
    method DisablePhysics(entityTypes: seq<EntityType>)
      modifies this`physicsEnabled
      ensures physicsEnabled == (old(physicsEnabled) && !AnyPersisted(entityTypes))
    {
      var physicsAtRender := physicsEnabled;
      for i := 0 to |entityTypes|
        invariant physicsEnabled == (physicsAtRender && !AnyPersisted(entityTypes[..i]))
      {
        var e := entityTypes[i];
        AnyPersistedStep(entityTypes, i);
        if e.model.hubCentral.Some? {
          var opts := e.model.hubCentral.value.modeling;
          if TruthyNumber(opts.graphX) && TruthyNumber(opts.graphY) {
            if physicsAtRender {
              physicsEnabled := false;
            }
          }
        }
      }
      assert entityTypes[..|entityTypes|] == entityTypes;
    }

    /** `saveUnsavedCoords`: every entity that fails `coordsExist` has its
        reported position saved through the owner; each iteration sets the
        cache to the render-time cache plus top-level "graphX" and "graphY"
        keys, so the last such entity's position is what the cache keeps. */
    method SaveUnsavedCoords(entityTypes: seq<EntityType>, positions: map<string, Point>)
      requires Valid() && PositionsCover(entityTypes, positions)
      modifies this`coords, this`saveCalls
      ensures Valid()
      ensures saveCalls == old(saveCalls) + SweepCalls(entityTypes, positions, |entityTypes|)
      ensures coords == SweepCache(old(coords), SweepCalls(entityTypes, positions, |entityTypes|))
    {
      var coordsAtRender := coords;
      for i := 0 to |entityTypes|
        invariant saveCalls == old(saveCalls) + SweepCalls(entityTypes, positions, i)
        invariant coords == SweepCache(coordsAtRender, SweepCalls(entityTypes, positions, i))
      {
        SweepCallsStep(entityTypes, positions, i);
        var name := entityTypes[i].entityName;
        ghost var calls := SweepCalls(entityTypes, positions, i);
        SaveIfUnsaved(entityTypes, positions, i, coordsAtRender);
        if CoordsExist(entityTypes, name) {
          SweepCacheStep(coordsAtRender, calls, SaveCall("", 0, 0));
        } else {
          SweepCacheStep(coordsAtRender, calls, SaveCallOf(positions, name));
        }
      }
      SweepCacheEntities(coordsAtRender, SweepCalls(entityTypes, positions, |entityTypes|), "");
    }

    /** One iteration of the sweep: an entity that fails `coordsExist` has
        its reported position saved, and the cache becomes the render-time
        cache with that position under the top-level keys. */
    method SaveIfUnsaved(entityTypes: seq<EntityType>, positions: map<string, Point>, i: nat, coordsAtRender: Cache)
      requires i < |entityTypes| && PositionsCover(entityTypes, positions)
      modifies this`coords, this`saveCalls
      ensures var name := entityTypes[i].entityName;
        if CoordsExist(entityTypes, name) then coords == old(coords) && saveCalls == old(saveCalls)
        else
          && coords == coordsAtRender["graphX" := Scalar(PositionOf(positions, name).x)]
                                     ["graphY" := Scalar(PositionOf(positions, name).y)]
          && saveCalls == old(saveCalls) + [SaveCallOf(positions, name)]
    {
      var ent := entityTypes[i];
      if !CoordsExist(entityTypes, ent.entityName) {
        CoveredName(entityTypes, positions, i);
        var pos := positions[ent.entityName];
        var newCoords := coordsAtRender["graphX" := Scalar(pos.x)]["graphY" := Scalar(pos.y)];
        coords := newCoords;
        saveCalls := saveCalls + [SaveCall(ent.entityName, pos.x, pos.y)];
      }
    }

    /** The `stabilized` event: with a widget present, sweep the entities
        without a persisted position. */
    method Stabilized(networkPresent: bool, entityTypes: seq<EntityType>, positions: map<string, Point>)
      requires Valid() && (networkPresent ==> PositionsCover(entityTypes, positions))
      modifies this`coords, this`saveCalls
      ensures Valid()
      ensures networkPresent ==>
        && saveCalls == old(saveCalls) + SweepCalls(entityTypes, positions, |entityTypes|)
        && coords == SweepCache(old(coords), SweepCalls(entityTypes, positions, |entityTypes|))
      ensures !networkPresent ==> saveCalls == old(saveCalls) && coords == old(coords)
    {
      if networkPresent {
        SaveUnsavedCoords(entityTypes, positions);
      }
    }

    /** The focus effect: with a widget present, focus it on the selected entity. */
    method FocusEffect(networkPresent: bool, entitySelected: Option<string>)
      modifies this`focusCalls
      ensures networkPresent ==> focusCalls == old(focusCalls) + [entitySelected]
      ensures !networkPresent ==> focusCalls == old(focusCalls)
    {
      if networkPresent {
        focusCalls := focusCalls + [entitySelected];
      }
    }

    /** The effect on the context's selected entity: with a widget present and
        a truthy selection, a listed entity is selected in the widget and then
        the view sweeps the entities without a persisted position; an unknown
        one is unset in the context. `selectFails` is the widget's answer to
        `selectNodes`: when it throws (a just-created entity the widget does
        not have yet), the effect stops before the sweep. */
    method SelectionEffect(networkPresent: bool, selectedEntity: Option<string>, selectFails: bool,
                           entityTypes: seq<EntityType>, positions: map<string, Point>)
      requires Valid()
      requires networkPresent && TruthyString(selectedEntity) && HasEntity(entityTypes, selectedEntity.value) && !selectFails
               ==> PositionsCover(entityTypes, positions)
      modifies this`coords, this`saveCalls, this`contextSelections
      ensures Valid()
      ensures networkPresent && TruthyString(selectedEntity) && HasEntity(entityTypes, selectedEntity.value) && !selectFails ==>
        && saveCalls == old(saveCalls) + SweepCalls(entityTypes, positions, |entityTypes|)
        && coords == SweepCache(old(coords), SweepCalls(entityTypes, positions, |entityTypes|))
        && contextSelections == old(contextSelections)
      ensures networkPresent && TruthyString(selectedEntity) && HasEntity(entityTypes, selectedEntity.value) && selectFails ==>
        saveCalls == old(saveCalls) && coords == old(coords) && contextSelections == old(contextSelections)
      ensures networkPresent && TruthyString(selectedEntity) && !HasEntity(entityTypes, selectedEntity.value) ==>
        && contextSelections == old(contextSelections) + [None]
        && saveCalls == old(saveCalls) && coords == old(coords)
      ensures !(networkPresent && TruthyString(selectedEntity)) ==>
        saveCalls == old(saveCalls) && coords == old(coords) && contextSelections == old(contextSelections)
    {
      if networkPresent && TruthyString(selectedEntity) {
        if HasEntity(entityTypes, selectedEntity.value) {
          if selectFails {
            return;
          }
          SaveUnsavedCoords(entityTypes, positions);
        } else {
          contextSelections := contextSelections + [None];
        }
      }
    }

    /** `dragStart`: physics goes off and stays off. */
    method DragStart()
      modifies this`physicsEnabled
      ensures !physicsEnabled
    {
      if physicsEnabled {
        physicsEnabled := false;
      }
    }

    /** `dragEnd`: with a dragged node whose reported position is truthy, the
        cache entry of that node alone becomes that position and the owner is
        asked to save the same values; otherwise nothing changes. */
    method DragEnd(dragged: seq<string>, position: Option<Point>)
      requires Valid()
      modifies this`coords, this`saveCalls
      ensures Valid()
      ensures |dragged| > 0 && position.Some? && position.value.x != 0 && position.value.y != 0 ==>
        && coords == old(coords)[dragged[0] := Entry(position.value.x, position.value.y)]
        && saveCalls == old(saveCalls) + [SaveCall(dragged[0], position.value.x, position.value.y)]
      ensures !(|dragged| > 0 && position.Some? && position.value.x != 0 && position.value.y != 0) ==>
        coords == old(coords) && saveCalls == old(saveCalls)
    {
      if |dragged| > 0 {
        if position.Some? && position.value.x != 0 && position.value.y != 0 {
          var newCoords := coords;
          newCoords := newCoords[dragged[0] := Entry(position.value.x, position.value.y)];
          coords := newCoords;
          saveCalls := saveCalls + [SaveCall(dragged[0], position.value.x, position.value.y)];
        }
      }
    }

    /** `select`: the first selected node is reported to the owner. */
    method Select(selected: seq<string>)
      modifies this`selectionCalls
      ensures |selected| > 0 ==> selectionCalls == old(selectionCalls) + [selected[0]]
      ensures |selected| == 0 ==> selectionCalls == old(selectionCalls)
    {
      if |selected| > 0 {
        selectionCalls := selectionCalls + [selected[0]];
      }
    }

    /** `click`: a click on an edge with no node under it opens the
        relationship dialog on the descriptor of that edge; any click forgets
        the remembered node (the menu position stays). */
    method Click(clickedEdges: seq<string>, clickedNodes: seq<string>, connected: seq<string>, meta: MetadataTable)
      requires Valid()
      modifies this`selectedRelationship, this`openRelationshipModal, this`clickedNode
      ensures Valid()
      ensures clickedNode == None
      ensures |clickedEdges| > 0 && |clickedNodes| < 1 ==>
        selectedRelationship == Some(RelationshipInfoOf(clickedEdges[0], connected, meta)) && openRelationshipModal
      ensures !(|clickedEdges| > 0 && |clickedNodes| < 1) ==>
        selectedRelationship == old(selectedRelationship) && openRelationshipModal == old(openRelationshipModal)
    {
      if |clickedEdges| > 0 && |clickedNodes| < 1 {
        selectedRelationship := Some(RelationshipInfoOf(clickedEdges[0], connected, meta));
        openRelationshipModal := true;
      }
      if clickedNode.Some? && clickedNode.value != "" {
        clickedNode := None;
      }
    }

    /** `oncontext`: right-clicking a node remembers it and anchors the menu
        40 pixels below the node's screen position; right-clicking elsewhere
        forgets both. */
    method OnContext(nodeAt: Option<string>, domPosition: Point)
      requires Valid()
      modifies this`clickedNode, this`menuPosition
      ensures Valid()
      ensures TruthyString(nodeAt) ==> clickedNode == nodeAt && menuPosition == At(domPosition.x, domPosition.y + 40)
      ensures !TruthyString(nodeAt) ==> clickedNode == None && menuPosition == NoPosition
    {
      if TruthyString(nodeAt) {
        menuPosition := At(domPosition.x, domPosition.y + 40);
        clickedNode := nodeAt;
      } else {
        clickedNode := None;
        menuPosition := NoPosition;
      }
    }

    /** `dragging`: a remembered node is forgotten together with the menu position. */
    method Dragging()
      requires Valid()
      modifies this`clickedNode, this`menuPosition
      ensures Valid()
      ensures clickedNode == None
      ensures old(clickedNode).Some? ==> menuPosition == NoPosition
      ensures old(clickedNode).None? ==> menuPosition == old(menuPosition)
    {
      if clickedNode.Some? && clickedNode.value != "" {
        clickedNode := None;
        menuPosition := NoPosition;
      }
    }

    /** `menuClick`: the menu always closes; the "center on entity type" item
        (key "1") focuses the widget on the remembered node and forgets it,
        when a widget is present. */
    method MenuClick(key: string, networkPresent: bool)
      requires Valid()
      modifies this`contextMenuVisible, this`clickedNode, this`focusCalls
      ensures Valid()
      ensures !contextMenuVisible
      ensures key == "1" && networkPresent ==> clickedNode == None && focusCalls == old(focusCalls) + [old(clickedNode)]
      ensures !(key == "1" && networkPresent) ==> clickedNode == old(clickedNode) && focusCalls == old(focusCalls)
    {
      contextMenuVisible := false;
      if key == "1" {
        if networkPresent {
          focusCalls := focusCalls + [clickedNode];
          clickedNode := None;
        }
      }
    }

    /** The effect on `clickedNode`: the menu is visible exactly while a node
        is remembered (a menu position, even `{}`, is always truthy). */
    method SyncMenuVisibility()
      requires Valid()
      modifies this`contextMenuVisible
      ensures Valid()
      ensures contextMenuVisible <==> clickedNode.Some?
    {
      if clickedNode.Some? && clickedNode.value != "" {
        contextMenuVisible := true;
      } else {
        contextMenuVisible := false;
      }
    }
  }

  /** Dragging "Order" to (120, 40) saves exactly ("Order", 120, 40) and the
      cache then holds that position for "Order". */
  method DragOrderScenario() returns (g: GraphView)
    ensures g.saveCalls == [SaveCall("Order", 120, 40)]
    ensures HasCachedPosition(g.coords, "Order") && g.coords["Order"] == Entry(120, 40)
  {
    g := new GraphView();
    g.DragStart();
    g.DragEnd(["Order"], Some(Point(120, 40)));
  }

  /** Right-clicking empty canvas closes the menu and forgets the node,
      whatever the state before. */
  method RightClickEmptyCanvas(g: GraphView, domPosition: Point)
    requires g.Valid()
    modifies g
    ensures g.Valid() && g.clickedNode == None && g.menuPosition == NoPosition && !g.contextMenuVisible
  {
    g.OnContext(None, domPosition);
    g.SyncMenuVisibility();
  }
}
