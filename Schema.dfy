/** The entity-type records the graph view receives from its owner. Only the
    fields the view reads are modelled; every field the records may omit is
    an `Option` (`None` is `undefined`). */
module Schema {
  import opened Js

  /** `items` of an array-valued property. */
  datatype Items = Items(relatedEntityType: Option<string>, joinPropertyName: Option<string>)

  /** One property definition of an entity's schema. */
  datatype PropertyDef = PropertyDef(
    relatedEntityType: Option<string>,
    joinPropertyName: Option<string>,
    items: Option<Items>)

  /** A property key with its definition; a definition's properties are kept
      in the order `Object.keys` reports them. */
  datatype Property = Property(name: string, def: PropertyDef)

  datatype Definition = Definition(properties: seq<Property>)

  /** `hubCentral.modeling`: the persisted canvas position. */
  datatype Modeling = Modeling(graphX: Option<int>, graphY: Option<int>)

  datatype HubCentral = HubCentral(modeling: Modeling)

  datatype Model = Model(definitions: map<string, Definition>, hubCentral: Option<HubCentral>)

  datatype EntityType = EntityType(entityName: string, model: Model)

  /** The test the coordinate code applies to one entity: `model.hubCentral`
      is present and `modeling.graphX` and `modeling.graphY` are both truthy. */
  predicate HasPersistedCoords(e: EntityType) {
    && e.model.hubCentral.Some?
    && TruthyNumber(e.model.hubCentral.value.modeling.graphX)
    && TruthyNumber(e.model.hubCentral.value.modeling.graphY)
  }

  /** The persisted position of an entity that has one. */
  function PersistedX(e: EntityType): (x: int)
    requires HasPersistedCoords(e)
    ensures x != 0
  {
    e.model.hubCentral.value.modeling.graphX.value
  }

  function PersistedY(e: EntityType): (y: int)
    requires HasPersistedCoords(e)
    ensures y != 0
  {
    e.model.hubCentral.value.modeling.graphY.value
  }

  /** Some entity of the list carries a persisted position. */
  predicate AnyPersisted(es: seq<EntityType>) {
    exists i :: 0 <= i < |es| && HasPersistedCoords(es[i])
  }

  /** One more entity makes the list persisted exactly when that entity is. */
  lemma AnyPersistedStep(es: seq<EntityType>, i: nat)
    requires i < |es|
    ensures AnyPersisted(es[..i + 1]) <==> AnyPersisted(es[..i]) || HasPersistedCoords(es[i])
  {
    assert es[..i + 1][i] == es[i];
    if AnyPersisted(es[..i]) {
      var j :| 0 <= j < i && HasPersistedCoords(es[..i][j]);
      assert es[..i + 1][j] == es[..i][j];
    }
    if AnyPersisted(es[..i + 1]) && !HasPersistedCoords(es[i]) {
      var j :| 0 <= j < i + 1 && HasPersistedCoords(es[..i + 1][j]);
      assert es[..i][j] == es[..i + 1][j];
    }
  }

  /** `entityTypes.some(e => e.entityName === name)`. */
  predicate HasEntity(es: seq<EntityType>, name: string) {
    exists i :: 0 <= i < |es| && es[i].entityName == name
  }

  /** No two entities of the list share a name. */
  predicate DistinctNames(es: seq<EntityType>) {
    forall i, j :: 0 <= i < j < |es| ==> es[i].entityName != es[j].entityName
  }
}
