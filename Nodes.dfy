/** Node derivation for the entity graph: one node per entity, with its
    colour, instance-count label, selection border and fixed position, plus
    the per-node style callback for the selected and hovering states. */
module Nodes {
  import opened Js
  import opened Schema
  import opened Coords

  /** What the view knows about an entity beyond its schema: its colour and
      instance count (the module-level `entityMetadata` object). */
  datatype Metadata = Metadata(color: Option<string>, instances: Option<int>)

  type MetadataTable = map<string, Metadata>

  /** A colour as a node style carries it: a literal CSS colour, or one of the
      two colours of the graph configuration (opaque here). */
  datatype Paint = Css(value: string) | SelectColor | HoverColor

  const DefaultColor := "#cfe3e8"
  const MutedColor := "#F5F5F5"
  const DefaultInstances := -123

  /** `entityMetadata[name] && entityMetadata[name].color`. */
  predicate HasColor(meta: MetadataTable, name: string) {
    name in meta && TruthyString(meta[name].color)
  }

  /** The filter mutes entities: it is non-empty and does not hold the entry "a". */
  predicate FilterActive(filtered: seq<string>) {
    |filtered| > 0 && "a" !in filtered
  }

  /** `getColor`: the default colour without metadata colour; the muted colour
      for an entity outside an active filter; the metadata colour otherwise. */
  function GetColor(meta: MetadataTable, filtered: seq<string>, name: string): (r: string)
    ensures !HasColor(meta, name) ==> r == DefaultColor
    ensures HasColor(meta, name) && FilterActive(filtered) && name !in filtered ==> r == MutedColor
    ensures HasColor(meta, name) && !(FilterActive(filtered) && name !in filtered) ==> r == meta[name].color.value
  {
    if HasColor(meta, name) && |filtered| > 0 && "a" !in filtered then
      if name in filtered then meta[name].color.value else MutedColor
    else if HasColor(meta, name) then meta[name].color.value
    else DefaultColor
  }

  /** `getNumInstances`: the metadata count when it is truthy, -123 otherwise. */
  function GetNumInstances(meta: MetadataTable, name: string): (r: int)
    ensures name in meta && TruthyNumber(meta[name].instances) ==> r == meta[name].instances.value
    ensures !(name in meta && TruthyNumber(meta[name].instances)) ==> r == DefaultInstances
  {
    if name in meta && TruthyNumber(meta[name].instances) then meta[name].instances.value else DefaultInstances
  }

  /** The count a node shows is never 0: it is a truthy count of the table
      or the default, and the default only when the table has no truthy count. */
  lemma NumInstancesTruthy(meta: MetadataTable, name: string)
    ensures GetNumInstances(meta, name) != 0
    ensures GetNumInstances(meta, name) == DefaultInstances
            || (name in meta && meta[name].instances == Some(GetNumInstances(meta, name)))
    ensures name in meta && TruthyNumber(meta[name].instances) && meta[name].instances.value != DefaultInstances
            ==> GetNumInstances(meta, name) != DefaultInstances
  {
  }

  /** Everything node derivation reads besides the entity list. */
  datatype View = View(
    meta: MetadataTable,
    filtered: seq<string>,
    selectedEntity: Option<string>,
    entitySelected: bool,
    coords: Cache)

  datatype Node = Node(
    id: string,
    labelText: string,
    title: string,
    background: Paint,
    border: Paint,
    borderWidth: int,
    x: Option<int>,
    y: Option<int>)

  /** The node is the selected one: its name is the context's selected entity
      and the owner reports an entity as selected. */
  predicate IsSelected(v: View, name: string) {
    v.selectedEntity == Some(name) && v.entitySelected
  }

  function NodeLabel(name: string, instances: int): string {
    "<b>" + name + "</b>\n" + "<code>" + IntToString(instances) + "</code>"
  }

  /** The node built for one entity (the "shape" branch of `getNodes`). */
  function NodeOf(v: View, e: EntityType): Node {
    var name := e.entityName;
    var color := GetColor(v.meta, v.filtered, name);
    var fixed := HasCachedPosition(v.coords, name);
    Node(
      name,
      NodeLabel(name, GetNumInstances(v.meta, name)),
      name + " tooltip text",
      Css(color),
      if IsSelected(v, name) then SelectColor else Css(color),
      if IsSelected(v, name) then 3 else 0,
      if fixed then Some(v.coords[name].graphX) else None,
      if fixed then Some(v.coords[name].graphY) else None)
  }

  /** `getNodes`: entities map one-to-one, in order, onto nodes named after them. */
  function GetNodes(v: View, es: seq<EntityType>): (nodes: seq<Node>)
    ensures |nodes| == |es|
    ensures forall i :: 0 <= i < |es| ==> nodes[i].id == es[i].entityName
    ensures DistinctNames(es) ==> forall i, j :: 0 <= i < j < |nodes| ==> nodes[i].id != nodes[j].id
  {
    seq(|es|, i requires 0 <= i < |es| => NodeOf(v, es[i]))
  }

  /** Selection shows as a border of width 3 in the select colour; every other node has no border. */
  lemma NodeBorder(v: View, es: seq<EntityType>, i: nat)
    requires i < |es|
    ensures GetNodes(v, es)[i].borderWidth == 3 <==> IsSelected(v, es[i].entityName)
    ensures GetNodes(v, es)[i].borderWidth == 0 <==> !IsSelected(v, es[i].entityName)
    ensures GetNodes(v, es)[i].border == SelectColor <==> IsSelected(v, es[i].entityName)
    ensures GetNodes(v, es)[i].background == Css(GetColor(v.meta, v.filtered, es[i].entityName))
  {
  }

  /** A node gets a fixed position exactly when the cache holds a truthy
      position for its entity, and then it is that position. */
  lemma NodePosition(v: View, es: seq<EntityType>, i: nat)
    requires i < |es|
    ensures GetNodes(v, es)[i].x.Some? <==> HasCachedPosition(v.coords, es[i].entityName)
    ensures GetNodes(v, es)[i].y.Some? <==> HasCachedPosition(v.coords, es[i].entityName)
    ensures GetNodes(v, es)[i].x.Some? ==>
      v.coords[es[i].entityName] == Entry(GetNodes(v, es)[i].x.value, GetNodes(v, es)[i].y.value)
  {
  }

  /** With a freshly seeded cache and distinct names, exactly the entities
      with a persisted position get a fixed node position, namely that one. */
  lemma SeededNodesKeepPersistedPositions(v: View, es: seq<EntityType>, i: nat)
    requires DistinctNames(es) && v.coords == SeedCache(es) && i < |es|
    ensures GetNodes(v, es)[i].x.Some? <==> HasPersistedCoords(es[i])
    ensures HasPersistedCoords(es[i]) ==>
      GetNodes(v, es)[i].x == Some(PersistedX(es[i])) && GetNodes(v, es)[i].y == Some(PersistedY(es[i]))
  {
    CoordsExistSeeded(es, es[i].entityName);
    CoordsExistOwn(es, i);
    if HasPersistedCoords(es[i]) {
      SeedCacheValue(es, i);
    }
  }

  /** The metadata table of the source is empty: every node is drawn in the
      default colour and labelled with the default count. */
  lemma EmptyMetadataDefaults(v: View, es: seq<EntityType>, i: nat)
    requires v.meta == map[] && i < |es|
    ensures GetNodes(v, es)[i].background == Css(DefaultColor)
    ensures GetNodes(v, es)[i].labelText == NodeLabel(es[i].entityName, DefaultInstances)
    ensures GetNodes(v, es)[i].labelText == "<b>" + es[i].entityName + "</b>\n<code>-123</code>"
  {
    NodeLabelDefault(es[i].entityName);
  }

  /** The default count's label reads "-123". */
  lemma NodeLabelDefault(name: string)
    ensures NodeLabel(name, DefaultInstances) == "<b>" + name + "</b>\n<code>-123</code>"
  {
    IntToStringMinus123();
  }

  /** The style values the per-node `chosen` callback sees and sets. */
  datatype NodeValues = NodeValues(color: Paint, borderColor: Paint, borderWidth: int)

  /** `chosen.node`, by the precedence of its four states: a selected node
      always has the select-colour border of width 3; hovering fills with the
      hover colour, unless the node is selected and not hovered, when it
      keeps its own colour; a hovered unselected node loses its border width
      but keeps its border colour; the plain state changes nothing. */
  function ChosenNode(v: View, values: NodeValues, id: string, selected: bool, hovering: bool): (r: NodeValues)
    ensures selected ==> r.borderColor == SelectColor && r.borderWidth == 3
    ensures hovering ==> r.color == HoverColor
    ensures selected && !hovering ==> r.color == Css(GetColor(v.meta, v.filtered, id))
    ensures hovering && !selected ==> r.borderWidth == 0 && r.borderColor == values.borderColor
    ensures !selected && !hovering ==> r == values
  {
    if selected && hovering then
      values.(color := HoverColor, borderColor := SelectColor, borderWidth := 3)
    else if selected then
      values.(color := Css(GetColor(v.meta, v.filtered, id)), borderColor := SelectColor, borderWidth := 3)
    else if hovering then
      values.(color := HoverColor, borderWidth := 0)
    else
      values
  }
}
