/** Edge derivation for the entity graph: each schema property that names a
    related entity type becomes a directed edge from the owning entity, and
    the edge id carries the property and join-property names. */
module Edges {
  import opened Js
  import opened Schema

  /** The arrow images an edge can show (opaque entries of the graph configuration). */
  datatype ArrowImage = OneToOneArrow | OneToManyArrow | OneToOneHover | OneToManyHover

  datatype Edge = Edge(
    from: string,
    to: string,
    labelText: string,
    id: string,
    arrowStrikethrough: bool,
    arrow: ArrowImage)

  /** `pObj.relatedEntityType` is truthy: the property relates one entity. */
  predicate IsOneToOne(d: PropertyDef) {
    TruthyString(d.relatedEntityType)
  }

  /** `pObj.items?.relatedEntityType` is truthy: the property holds an array of related entities. */
  predicate IsOneToMany(d: PropertyDef) {
    d.items.Some? && TruthyString(d.items.value.relatedEntityType)
  }

  /** The edge id: `p + "-" + joinPropertyName + "-edge"`, where an undefined
      join name is spelled "undefined" by the string concatenation. */
  function EdgeId(prop: string, join: Option<string>): string {
    prop + "-" + StringOf(join) + "-edge"
  }

  /** The edge a single property contributes, if any. The one-to-one test
      comes first, so a property that has both shapes yields a one-to-one edge. */
  function EdgeOf(owner: string, p: Property): (r: Option<Edge>)
    ensures r.Some? <==> IsOneToOne(p.def) || IsOneToMany(p.def)
    ensures r.Some? ==> r.value.from == owner && r.value.labelText == p.name && '/' !in r.value.to
    ensures r.Some? ==> (r.value.arrowStrikethrough <==> IsOneToOne(p.def))
  {
    if IsOneToOne(p.def) then
      Some(Edge(owner, LastSegment(p.def.relatedEntityType.value, '/'), p.name,
                EdgeId(p.name, p.def.joinPropertyName), true, OneToOneArrow))
    else if IsOneToMany(p.def) then
      Some(Edge(owner, LastSegment(p.def.items.value.relatedEntityType.value, '/'), p.name,
                EdgeId(p.name, p.def.items.value.joinPropertyName), false, OneToManyArrow))
    else
      None
  }

  function EdgeList(e: Option<Edge>): seq<Edge> {
    match e
    case Some(x) => [x]
    case None => []
  }

  /** The edges of a list of properties, in property order: at most one per property. */
  function PropEdges(owner: string, ps: seq<Property>): (r: seq<Edge>)
    ensures |r| <= |ps|
  {
    if ps == [] then [] else EdgeList(EdgeOf(owner, ps[0])) + PropEdges(owner, ps[1..])
  }

  /** `e.model.definitions[e.entityName].properties`, or `None` when that
      definition is missing (the source then throws a TypeError). */
  function OwnProperties(e: EntityType): Option<seq<Property>> {
    if e.entityName in e.model.definitions then Some(e.model.definitions[e.entityName].properties)
    else None
  }

  function Prepend(pre: seq<Edge>, r: Option<seq<Edge>>): Option<seq<Edge>> {
    match r
    case Some(es) => Some(pre + es)
    case None => None
  }

  lemma PrependAssoc(a: seq<Edge>, b: seq<Edge>, r: Option<seq<Edge>>)
    ensures Prepend(a, Prepend(b, r)) == Prepend(a + b, r)
  {
    if r.Some? {
      assert a + (b + r.value) == a + b + r.value;
    }
  }

  /** All edges of the entity list, entity after entity; `None` when some
      entity lacks its own definition. */
  function AllEdges(es: seq<EntityType>): Option<seq<Edge>> {
    if es == [] then Some([])
    else match OwnProperties(es[0])
      case None => None
      case Some(ps) => Prepend(PropEdges(es[0].entityName, ps), AllEdges(es[1..]))
  }

  /** `getEdges`: a nested loop that pushes an edge per related property. */
  method GetEdges(entityTypes: seq<EntityType>) returns (r: Option<seq<Edge>>)
    ensures r == AllEdges(entityTypes)
  {
    var edges: seq<Edge> := [];
    var i := 0;
    assert entityTypes[0..] == entityTypes;
    assert AllEdges(entityTypes).Some? ==> [] + AllEdges(entityTypes).value == AllEdges(entityTypes).value;
    while i < |entityTypes|
      invariant 0 <= i <= |entityTypes|
      invariant AllEdges(entityTypes) == Prepend(edges, AllEdges(entityTypes[i..]))
    {
      var e := entityTypes[i];
      assert entityTypes[i..][0] == e && entityTypes[i..][1..] == entityTypes[i + 1..];
      if e.entityName !in e.model.definitions {
        assert OwnProperties(entityTypes[i..][0]).None?;
        assert AllEdges(entityTypes[i..]) == None;
        return None;
      }
      var props := e.model.definitions[e.entityName].properties;
      ghost var before := edges;
      edges := PushPropertyEdges(e.entityName, props, edges);
      PrependAssoc(before, PropEdges(e.entityName, props), AllEdges(entityTypes[i + 1..]));
      i := i + 1;
    }
    assert entityTypes[i..] == [];
    assert edges + [] == edges;
    r := Some(edges);
  }

  /** The inner `properties.forEach` of `getEdges`: push the edge of each
      related property onto `edges`. */
  method PushPropertyEdges(owner: string, props: seq<Property>, edges0: seq<Edge>) returns (edges: seq<Edge>)
    ensures edges == edges0 + PropEdges(owner, props)
  {
    edges := edges0;
    var j := 0;
    assert props[0..] == props;
    while j < |props|
      invariant 0 <= j <= |props|
      invariant edges0 + PropEdges(owner, props) == edges + PropEdges(owner, props[j..])
    {
      PropEdgesStep(owner, props, j);
      ghost var before := edges;
      edges := PushPropertyEdge(owner, props[j], edges);
      AppendAssoc(before, EdgeList(EdgeOf(owner, props[j])), PropEdges(owner, props[j + 1..]));
      j := j + 1;
    }
    assert props[|props|..] == [];
  }

  /** The body of the inner loop: a one-to-one property pushes an edge with the
      one-to-one arrow; failing that, a one-to-many property pushes one with
      the one-to-many arrow; any other property pushes nothing. */
  method PushPropertyEdge(owner: string, p: Property, edges0: seq<Edge>) returns (edges: seq<Edge>)
    ensures edges == edges0 + EdgeList(EdgeOf(owner, p))
  {
    EdgeOfCases(owner, p);
    edges := edges0;
    if IsOneToOne(p.def) {
      var parts := Split(p.def.relatedEntityType.value, '/');
      edges := edges + [Edge(owner, parts[|parts| - 1], p.name,
                             p.name + "-" + StringOf(p.def.joinPropertyName) + "-edge", true, OneToOneArrow)];
    } else if IsOneToMany(p.def) {
      var parts := Split(p.def.items.value.relatedEntityType.value, '/');
      edges := edges + [Edge(owner, parts[|parts| - 1], p.name,
                             p.name + "-" + StringOf(p.def.items.value.joinPropertyName) + "-edge", false, OneToManyArrow)];
    } else {
      assert edges0 + [] == edges0;
    }
  }

  lemma AppendAssoc(a: seq<Edge>, b: seq<Edge>, c: seq<Edge>)
    ensures a + (b + c) == (a + b) + c
  {
  }

  /** The edge list of one property, case by case. */
  lemma EdgeOfCases(owner: string, p: Property)
    ensures IsOneToOne(p.def) ==>
      EdgeList(EdgeOf(owner, p)) == [Edge(owner, LastSegment(p.def.relatedEntityType.value, '/'), p.name,
                                          EdgeId(p.name, p.def.joinPropertyName), true, OneToOneArrow)]
    ensures !IsOneToOne(p.def) && IsOneToMany(p.def) ==>
      EdgeList(EdgeOf(owner, p)) == [Edge(owner, LastSegment(p.def.items.value.relatedEntityType.value, '/'), p.name,
                                          EdgeId(p.name, p.def.items.value.joinPropertyName), false, OneToManyArrow)]
    ensures !IsOneToOne(p.def) && !IsOneToMany(p.def) ==> EdgeList(EdgeOf(owner, p)) == []
  {
  }

  /** The edges from position j on: the edge of property j, then the rest. */
  lemma PropEdgesStep(owner: string, ps: seq<Property>, j: nat)
    requires j < |ps|
    ensures PropEdges(owner, ps[j..]) == EdgeList(EdgeOf(owner, ps[j])) + PropEdges(owner, ps[j + 1..])
  {
    assert ps[j..][0] == ps[j] && ps[j..][1..] == ps[j + 1..];
  }

  /** What an edge records about its property: owner, label, target segment,
      id built from the right join name, and the cardinality flag. */
  lemma EdgeOfFields(owner: string, p: Property)
    ensures EdgeOf(owner, p).Some? <==> IsOneToOne(p.def) || IsOneToMany(p.def)
    ensures EdgeOf(owner, p).Some? ==>
      var e := EdgeOf(owner, p).value;
      e.from == owner && e.labelText == p.name && '/' !in e.to
    ensures IsOneToOne(p.def) ==>
      var e := EdgeOf(owner, p).value;
      && e.to == LastSegment(p.def.relatedEntityType.value, '/')
      && e.id == p.name + "-" + StringOf(p.def.joinPropertyName) + "-edge"
      && e.arrowStrikethrough && e.arrow == OneToOneArrow
    ensures !IsOneToOne(p.def) && IsOneToMany(p.def) ==>
      var e := EdgeOf(owner, p).value;
      && e.to == LastSegment(p.def.items.value.relatedEntityType.value, '/')
      && e.id == p.name + "-" + StringOf(p.def.items.value.joinPropertyName) + "-edge"
      && !e.arrowStrikethrough && e.arrow == OneToManyArrow
  {
  }

  /** The edges of a property list split where the list splits. */
  lemma {:induction false} PropEdgesAppend(owner: string, ps: seq<Property>, qs: seq<Property>)
    ensures PropEdges(owner, ps + qs) == PropEdges(owner, ps) + PropEdges(owner, qs)
    decreases |ps|
  {
    if ps == [] {
      assert ps + qs == qs;
    } else {
      assert (ps + qs)[0] == ps[0];
      assert (ps + qs)[1..] == ps[1..] + qs;
      PropEdgesAppend(owner, ps[1..], qs);
    }
  }

  /** The edge of property j is in the output, right after the edges of the
      properties before it: one edge per related property, in key order. */
  lemma PropEdgeAt(owner: string, ps: seq<Property>, j: nat)
    requires j < |ps|
    requires EdgeOf(owner, ps[j]).Some?
    ensures |PropEdges(owner, ps[..j])| < |PropEdges(owner, ps)|
    ensures PropEdges(owner, ps)[|PropEdges(owner, ps[..j])|] == EdgeOf(owner, ps[j]).value
  {
    assert ps == ps[..j] + ps[j..];
    PropEdgesAppend(owner, ps[..j], ps[j..]);
  }

  /** Every edge comes from one property of the list. */
  lemma {:induction false} PropEdgesFrom(owner: string, ps: seq<Property>, e: Edge)
    requires e in PropEdges(owner, ps)
    ensures exists j :: 0 <= j < |ps| && EdgeOf(owner, ps[j]) == Some(e)
    decreases |ps|
  {
    if e in EdgeList(EdgeOf(owner, ps[0])) {
      assert EdgeOf(owner, ps[0]) == Some(e);
    } else {
      PropEdgesFrom(owner, ps[1..], e);
      var j :| 0 <= j < |ps[1..]| && EdgeOf(owner, ps[1..][j]) == Some(e);
      assert ps[1..][j] == ps[j + 1];
    }
  }

  /** Every derived edge comes from a property of one entity's own definition,
      and goes from that entity. */
  lemma {:induction false} AllEdgesFrom(es: seq<EntityType>, edges: seq<Edge>, e: Edge)
    requires AllEdges(es) == Some(edges)
    requires e in edges
    ensures exists i, j :: 0 <= i < |es| && OwnProperties(es[i]).Some? && 0 <= j < |OwnProperties(es[i]).value|
              && EdgeOf(es[i].entityName, OwnProperties(es[i]).value[j]) == Some(e)
    ensures exists i :: 0 <= i < |es| && e.from == es[i].entityName
    decreases |es|
  {
    var ps := OwnProperties(es[0]).value;
    var mine := PropEdges(es[0].entityName, ps);
    var rest := AllEdges(es[1..]).value;
    assert edges == mine + rest;
    if e in mine {
      PropEdgesFrom(es[0].entityName, ps, e);
      var j :| 0 <= j < |ps| && EdgeOf(es[0].entityName, ps[j]) == Some(e);
      EdgeOfFields(es[0].entityName, ps[j]);
    } else {
      AllEdgesFrom(es[1..], rest, e);
      var i, j :| 0 <= i < |es[1..]| && OwnProperties(es[1..][i]).Some? && 0 <= j < |OwnProperties(es[1..][i]).value|
              && EdgeOf(es[1..][i].entityName, OwnProperties(es[1..][i]).value[j]) == Some(e);
      assert es[1..][i] == es[i + 1];
      EdgeOfFields(es[i + 1].entityName, OwnProperties(es[i + 1]).value[j]);
    }
  }

  /** Conversely, every related property of every entity's own definition
      has its edge among the derived edges. */
  lemma {:induction false} AllEdgesComplete(es: seq<EntityType>, i: nat, j: nat)
    requires AllEdges(es).Some?
    requires i < |es| && OwnProperties(es[i]).Some? && j < |OwnProperties(es[i]).value|
    requires EdgeOf(es[i].entityName, OwnProperties(es[i]).value[j]).Some?
    ensures EdgeOf(es[i].entityName, OwnProperties(es[i]).value[j]).value in AllEdges(es).value
    decreases i
  {
    var ps := OwnProperties(es[0]).value;
    var mine := PropEdges(es[0].entityName, ps);
    assert AllEdges(es).value == mine + AllEdges(es[1..]).value;
    if i == 0 {
      PropEdgeAt(es[0].entityName, ps, j);
    } else {
      assert es[1..][i - 1] == es[i];
      AllEdgesComplete(es[1..], i - 1, j);
    }
  }

  /** Edge derivation fails exactly when some entity lacks its own definition. */
  lemma {:induction false} AllEdgesFails(es: seq<EntityType>)
    ensures AllEdges(es).None? <==> exists i :: 0 <= i < |es| && OwnProperties(es[i]).None?
    decreases |es|
  {
    if es != [] {
      AllEdgesFails(es[1..]);
      if OwnProperties(es[0]).Some? && AllEdges(es[1..]).None? {
        var i :| 0 <= i < |es[1..]| && OwnProperties(es[1..][i]).None?;
        assert es[1..][i] == es[i + 1];
      }
      if exists i :: 0 <= i < |es| && OwnProperties(es[i]).None? {
        var i :| 0 <= i < |es| && OwnProperties(es[i]).None?;
        if i > 0 { assert es[1..][i - 1] == es[i]; }
      }
    }
  }

  /** The click handler's reading of an edge id: `id.split("-")[0]` and
      `id.split("-")[1]`, the latter `undefined` when the id has no "-". */
  datatype ParsedId = ParsedId(relationshipName: string, joinPropertyName: Option<string>)

  function ParseEdgeId(id: string): (r: ParsedId)
    ensures '-' !in r.relationshipName
    ensures r.joinPropertyName.Some? ==> '-' !in r.joinPropertyName.value
    ensures r.joinPropertyName.None? <==> '-' !in id
    ensures '-' !in id ==> r.relationshipName == id
  {
    SplitPiecesFree(id, '-');
    SplitShape(id, '-');
    var parts := Split(id, '-');
    ParsedId(parts[0], if |parts| > 1 then Some(parts[1]) else None)
  }

  lemma EdgeIdParts(prop: string, join: string)
    requires '-' !in prop && '-' !in join
    ensures Split(EdgeId(prop, Some(join)), '-') == [prop, join, "edge"]
  {
    var parts := [prop, join, "edge"];
    assert parts[1..] == [join, "edge"] && parts[1..][1..] == ["edge"];
    assert Join(["edge"], '-') == "edge";
    assert Join([join, "edge"], '-') == join + "-edge";
    assert Join(parts, '-') == prop + "-" + join + "-edge";
    SplitJoin([prop, join, "edge"], '-');
  }

  /** Round trip: names without "-" come back out of the id they were put into. */
  lemma EdgeIdRoundTrip(prop: string, join: string)
    requires '-' !in prop && '-' !in join
    ensures ParseEdgeId(EdgeId(prop, Some(join))) == ParsedId(prop, Some(join))
  {
    EdgeIdParts(prop, join);
  }

  /** An undefined join name comes back as the string "undefined". */
  lemma EdgeIdUndefinedJoin(prop: string)
    requires '-' !in prop
    ensures ParseEdgeId(EdgeId(prop, None)) == ParsedId(prop, Some("undefined"))
  {
    EdgeIdParts(prop, "undefined");
  }

  /** An undefined join name and a join property literally named "undefined"
      give the same id, so the click handler cannot tell them apart. */
  lemma EdgeIdUndefinedAmbiguous(prop: string)
    ensures EdgeId(prop, None) == EdgeId(prop, Some("undefined"))
    ensures ParseEdgeId(EdgeId(prop, None)) == ParseEdgeId(EdgeId(prop, Some("undefined")))
  {
  }

  /** The relationship name is recovered exactly when the property name has no "-". */
  lemma RelationshipNameRecovered(prop: string, join: Option<string>)
    ensures ParseEdgeId(EdgeId(prop, join)).relationshipName == prop <==> '-' !in prop
  {
    var id := EdgeId(prop, join);
    assert id == prop + ['-'] + (StringOf(join) + "-edge");
    SplitConcat(prop, StringOf(join) + "-edge", '-');
    SplitPiecesFree(prop, '-');
    if '-' !in prop {
      SplitNoSeparator(prop, '-');
    }
  }

  /** A hyphenated property name is cut at its first "-", and its second
      half is read as the join name. */
  lemma HyphenatedNameMisread(a: string, b: string, join: string)
    requires '-' !in a && '-' !in b && '-' !in join
    ensures ParseEdgeId(EdgeId(a + "-" + b, Some(join))) == ParsedId(a, Some(b))
  {
    var parts := [a, b, join, "edge"];
    assert parts[1..] == [b, join, "edge"] && parts[1..][1..] == [join, "edge"];
    assert parts[1..][1..][1..] == ["edge"];
    assert Join(["edge"], '-') == "edge";
    assert Join([join, "edge"], '-') == join + "-edge";
    assert Join([b, join, "edge"], '-') == b + "-" + join + "-edge";
    assert Join(parts, '-') == a + "-" + b + "-" + join + "-edge";
    SplitJoin(parts, '-');
  }

  /** What the edges' `chosen` callback sees and sets. */
  datatype EdgeValues = EdgeValues(color: string, arrowStrikethrough: bool, toArrowSrc: ArrowImage)

  const HoverEdgeColor := "#7FADE3"

  /** `onChosen`: recolour the edge and pick the hover arrow by the
      `arrowStrikethrough === false` test. */
  function OnChosen(v: EdgeValues): (r: EdgeValues)
    ensures r.color == HoverEdgeColor && r.arrowStrikethrough == v.arrowStrikethrough
    ensures r.toArrowSrc == OneToManyHover <==> !v.arrowStrikethrough
    ensures r.toArrowSrc == OneToOneHover <==> v.arrowStrikethrough
  {
    v.(color := HoverEdgeColor,
       toArrowSrc := if v.arrowStrikethrough == false then OneToManyHover else OneToOneHover)
  }

  /** The values an edge hands to `onChosen` at rest. */
  function RestingValues(e: Edge): EdgeValues {
    EdgeValues("#666", e.arrowStrikethrough, e.arrow)
  }

  /** Hovering a derived edge swaps its arrow for the hover variant of the same cardinality. */
  lemma HoverKeepsCardinality(owner: string, p: Property)
    requires EdgeOf(owner, p).Some?
    ensures var e := EdgeOf(owner, p).value;
      && (e.arrow == OneToOneArrow ==> OnChosen(RestingValues(e)).toArrowSrc == OneToOneHover)
      && (e.arrow == OneToManyArrow ==> OnChosen(RestingValues(e)).toArrowSrc == OneToManyHover)
      && (e.arrow == OneToOneArrow || e.arrow == OneToManyArrow)
  {
  }

  /** The two-entity example: Customer.orderRef relates Order (named by a
      path ending in "/Order") through orderId; Order has no properties. */
  lemma CustomerOrderExample(base: string)
    ensures
      var ref := Property("orderRef", PropertyDef(Some(base + "/Order"), Some("orderId"), None));
      var customer := EntityType("Customer", Model(map["Customer" := Definition([ref])], None));
      var order := EntityType("Order", Model(map["Order" := Definition([])], None));
      AllEdges([customer, order]) == Some([Edge("Customer", "Order", "orderRef", "orderRef-orderId-edge", true, OneToOneArrow)])
  {
    var ref := Property("orderRef", PropertyDef(Some(base + "/Order"), Some("orderId"), None));
    var customer := EntityType("Customer", Model(map["Customer" := Definition([ref])], None));
    var order := EntityType("Order", Model(map["Order" := Definition([])], None));
    assert base + "/Order" == base + ['/'] + "Order";
    LastSegmentAfter(base, "Order", '/');
    var edge := Edge("Customer", "Order", "orderRef", "orderRef-orderId-edge", true, OneToOneArrow);
    assert EdgeId("orderRef", Some("orderId")) == "orderRef-orderId-edge";
    assert EdgeOf("Customer", ref) == Some(edge);
    assert [ref][1..] == [];
    assert PropEdges("Customer", [ref]) == [edge];
    assert [order][1..] == [];
    assert OwnProperties(order) == Some([]);
    var noEdges: seq<Edge> := [];
    assert PropEdges("Order", []) == noEdges;
    assert noEdges + noEdges == noEdges;
    assert AllEdges([order]) == Some(noEdges);
    var es := [customer, order];
    assert es[1..] == [order];
    assert OwnProperties(customer) == Some([ref]);
  }
}
