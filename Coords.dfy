/** The coordinate cache of the graph view and the functions that read the
    persisted positions of the entity list: seeding, `coordsExist`, and what
    the sweep over entities without a persisted position saves and writes. */
module Coords {
  import opened Js
  import opened Schema

  /** A value of the cache object: a per-entity entry `{graphX, graphY}`, or
      one of the bare numbers that the sweep spreads in under the top-level
      keys "graphX" and "graphY". */
  datatype CacheValue = Entry(graphX: int, graphY: int) | Scalar(n: int)

  type Cache = map<string, CacheValue>

  /** A canvas position as the graph widget reports it. */
  datatype Point = Point(x: int, y: int)

  /** One call of the owner's `saveEntityCoords(entityName, x, y)`. */
  datatype SaveCall = SaveCall(entityName: string, x: int, y: int)

  /** `coords[name] && coords[name].graphX && coords[name].graphY`. */
  predicate HasCachedPosition(c: Cache, name: string) {
    name in c && c[name].Entry? && c[name].graphX != 0 && c[name].graphY != 0
  }

  /** Every per-entity entry of the cache holds a truthy position. */
  predicate EntriesTruthy(c: Cache) {
    forall k :: k in c && c[k].Entry? ==> c[k].graphX != 0 && c[k].graphY != 0
  }

  /** The cache the seeding effect builds: one entry per entity with a
      persisted position, keyed by name; a later entity of the same name
      overwrites an earlier one, as assignment into an object does. Every
      value it holds is a per-entity entry with a truthy position. */
  function SeedCache(es: seq<EntityType>): (c: Cache)
    ensures forall k :: k in c ==> HasCachedPosition(c, k)
    decreases |es|
  {
    if es == [] then map[]
    else
      var c := SeedCache(es[..|es| - 1]);
      var e := es[|es| - 1];
      if HasPersistedCoords(e) then c[e.entityName := Entry(PersistedX(e), PersistedY(e))] else c
  }

  /** The seeded cache has a key exactly for the names of entities with a persisted position. */
  lemma {:induction false} SeedCacheKeys(es: seq<EntityType>, k: string)
    ensures k in SeedCache(es) <==> exists i :: 0 <= i < |es| && es[i].entityName == k && HasPersistedCoords(es[i])
    decreases |es|
  {
    if es != [] {
      var init := es[..|es| - 1];
      SeedCacheKeys(init, k);
      if exists i :: 0 <= i < |init| && init[i].entityName == k && HasPersistedCoords(init[i]) {
        var i :| 0 <= i < |init| && init[i].entityName == k && HasPersistedCoords(init[i]);
        assert es[i] == init[i];
      }
      if exists i :: 0 <= i < |es| && es[i].entityName == k && HasPersistedCoords(es[i]) {
        var i :| 0 <= i < |es| && es[i].entityName == k && HasPersistedCoords(es[i]);
        if i < |es| - 1 { assert init[i] == es[i]; }
      }
    }
  }

  /** With distinct names, the seeded entry of an entity is its own persisted position. */
  lemma {:induction false} SeedCacheValue(es: seq<EntityType>, i: nat)
    requires DistinctNames(es)
    requires i < |es| && HasPersistedCoords(es[i])
    ensures es[i].entityName in SeedCache(es)
    ensures SeedCache(es)[es[i].entityName] == Entry(PersistedX(es[i]), PersistedY(es[i]))
    decreases |es|
  {
    var init := es[..|es| - 1];
    if i < |es| - 1 {
      assert DistinctNames(init) by {
        forall a, b | 0 <= a < b < |init| ensures init[a].entityName != init[b].entityName {
          assert init[a] == es[a] && init[b] == es[b];
        }
      }
      assert init[i] == es[i];
      SeedCacheValue(init, i);
      assert es[|es| - 1].entityName != es[i].entityName;
    }
  }

  /** `entityTypes.map(e => e.entityName).indexOf(name)`: a position of the
      list, or -1. */
  function IndexOf(es: seq<EntityType>, name: string): (r: int)
    ensures -1 <= r < |es|
    decreases |es|
  {
    if es == [] then -1
    else if es[0].entityName == name then 0
    else
      var r := IndexOf(es[1..], name);
      if r == -1 then -1 else r + 1
  }

  /** `indexOf` gives -1 exactly when the name is absent, and otherwise the
      first position that holds it. */
  lemma {:induction false} IndexOfFirst(es: seq<EntityType>, name: string)
    ensures var r := IndexOf(es, name);
      && (r == -1 <==> forall i :: 0 <= i < |es| ==> es[i].entityName != name)
      && (r >= 0 ==> es[r].entityName == name && forall j :: 0 <= j < r ==> es[j].entityName != name)
    decreases |es|
  {
    if es != [] && es[0].entityName != name {
      IndexOfFirst(es[1..], name);
      var r := IndexOf(es[1..], name);
      assert forall i :: 0 <= i < |es| - 1 ==> es[1..][i] == es[i + 1];
    }
  }

  /** `coordsExist(name)`: the first entity of that name has a persisted position. */
  predicate CoordsExist(es: seq<EntityType>, name: string) {
    var i := IndexOf(es, name);
    i >= 0 && HasPersistedCoords(es[i])
  }

  /** `coordsExist` holds exactly when the first entity of that name has a
      persisted position; later entities of the same name do not count. */
  lemma CoordsExistFirst(es: seq<EntityType>, name: string)
    ensures CoordsExist(es, name) <==>
      exists i :: 0 <= i < |es| && es[i].entityName == name && HasPersistedCoords(es[i])
                && forall j :: 0 <= j < i ==> es[j].entityName != name
  {
    IndexOfFirst(es, name);
    if exists i :: 0 <= i < |es| && es[i].entityName == name && HasPersistedCoords(es[i])
                   && forall j :: 0 <= j < i ==> es[j].entityName != name {
      var i :| 0 <= i < |es| && es[i].entityName == name && HasPersistedCoords(es[i])
               && forall j :: 0 <= j < i ==> es[j].entityName != name;
      assert IndexOf(es, name) == i;
    }
  }

  /** With distinct names, `coordsExist` on an entity's name is the persisted-position test on that entity. */
  lemma CoordsExistOwn(es: seq<EntityType>, i: nat)
    requires DistinctNames(es) && i < |es|
    ensures CoordsExist(es, es[i].entityName) <==> HasPersistedCoords(es[i])
  {
    IndexOfFirst(es, es[i].entityName);
  }

  /** `coordsExist` and the seeded cache agree: a name that passes has a
      cached position, and with distinct names the converse holds too. */
  lemma CoordsExistSeeded(es: seq<EntityType>, name: string)
    ensures CoordsExist(es, name) ==> HasCachedPosition(SeedCache(es), name)
    ensures DistinctNames(es) && HasCachedPosition(SeedCache(es), name) ==> CoordsExist(es, name)
  {
    IndexOfFirst(es, name);
    SeedCacheKeys(es, name);
    if DistinctNames(es) && HasCachedPosition(SeedCache(es), name) {
      var i :| 0 <= i < |es| && es[i].entityName == name && HasPersistedCoords(es[i]);
      CoordsExistOwn(es, i);
    }
  }

  /** The widget's report has a position for every entity the sweep asks
      about, the ones that fail `coordsExist`; for any other the sweep reads
      `positions.x` of `undefined` and throws. */
  predicate PositionsCover(es: seq<EntityType>, positions: map<string, Point>) {
    UnsavedNames(es) <= positions.Keys
  }

  /** The names of the listed entities that fail `coordsExist`. */
  function UnsavedNames(es: seq<EntityType>): set<string> {
    set i | 0 <= i < |es| && !CoordsExist(es, es[i].entityName) :: es[i].entityName
  }

  /** The position the widget reports for a name. (0, 0) stands in for a
      missing one, which `PositionsCover` rules out wherever the sweep runs. */
  function PositionOf(positions: map<string, Point>, name: string): (p: Point)
    ensures name in positions ==> p == positions[name]
  {
    if name in positions then positions[name] else Point(0, 0)
  }

  /** An entity that fails `coordsExist` has a reported position when the report covers the sweep. */
  lemma CoveredName(es: seq<EntityType>, positions: map<string, Point>, i: nat)
    requires PositionsCover(es, positions)
    requires i < |es| && !CoordsExist(es, es[i].entityName)
    ensures es[i].entityName in positions
  {
    assert es[i].entityName in UnsavedNames(es);
  }

  /** The save call the sweep makes for a name. */
  function SaveCallOf(positions: map<string, Point>, name: string): SaveCall {
    SaveCall(name, PositionOf(positions, name).x, PositionOf(positions, name).y)
  }

  /** The calls of `saveEntityCoords` the sweep makes over the first k
      entities: one per entity that fails `coordsExist`, with its reported position. */
  function SweepCalls(es: seq<EntityType>, positions: map<string, Point>, k: nat): (calls: seq<SaveCall>)
    requires k <= |es|
    ensures |calls| <= k
  {
    if k == 0 then []
    else
      var name := es[k - 1].entityName;
      SweepCalls(es, positions, k - 1) + (if CoordsExist(es, name) then [] else [SaveCallOf(positions, name)])
  }

  /** One more entity adds its call, if it fails `coordsExist`. */
  lemma SweepCallsStep(es: seq<EntityType>, positions: map<string, Point>, k: nat)
    requires k < |es|
    ensures var name := es[k].entityName;
      SweepCalls(es, positions, k + 1) == SweepCalls(es, positions, k)
        + (if CoordsExist(es, name) then [] else [SaveCallOf(positions, name)])
  {
  }

  /** Each call saves a name of the list that fails `coordsExist`, at its
      reported position; when the report covers the sweep, that position is
      one the widget reported. */
  lemma {:induction false} SweepCallsSound(es: seq<EntityType>, positions: map<string, Point>, k: nat, c: SaveCall)
    requires k <= |es|
    requires c in SweepCalls(es, positions, k)
    ensures exists i :: 0 <= i < k && es[i].entityName == c.entityName
    ensures !CoordsExist(es, c.entityName)
    ensures c == SaveCallOf(positions, c.entityName)
    ensures PositionsCover(es, positions) ==>
      c.entityName in positions && c.x == positions[c.entityName].x && c.y == positions[c.entityName].y
    decreases k
  {
    if c in SweepCalls(es, positions, k - 1) {
      SweepCallsSound(es, positions, k - 1, c);
    } else {
      SweepCallsLast(es, positions, k, c);
      if PositionsCover(es, positions) {
        CoveredName(es, positions, k - 1);
      }
    }
  }

  /** A call that the first k - 1 entities do not make is entity k - 1's own. */
  lemma SweepCallsLast(es: seq<EntityType>, positions: map<string, Point>, k: nat, c: SaveCall)
    requires 0 < k <= |es|
    requires c in SweepCalls(es, positions, k) && c !in SweepCalls(es, positions, k - 1)
    ensures !CoordsExist(es, es[k - 1].entityName) && c == SaveCallOf(positions, es[k - 1].entityName)
  {
    SweepCallsStep(es, positions, k - 1);
  }

  /** Each entity of the first k that fails `coordsExist` has its call, at
      its reported position, which exists when the report covers the sweep. */
  lemma {:induction false} SweepCallsComplete(es: seq<EntityType>, positions: map<string, Point>, k: nat, i: nat)
    requires k <= |es|
    requires i < k && !CoordsExist(es, es[i].entityName)
    ensures SaveCallOf(positions, es[i].entityName) in SweepCalls(es, positions, k)
    ensures PositionsCover(es, positions) ==> es[i].entityName in positions
    decreases k
  {
    SweepCallsStep(es, positions, k - 1);
    if i < k - 1 {
      SweepCallsComplete(es, positions, k - 1, i);
    }
    if PositionsCover(es, positions) {
      CoveredName(es, positions, i);
    }
  }

  /** The positions among the first k whose entity fails `coordsExist`. */
  function FailingIndices(es: seq<EntityType>, k: nat): set<nat>
    requires k <= |es|
  {
    set i: nat | i < k && !CoordsExist(es, es[i].entityName)
  }

  /** The sweep makes exactly one call per entity that fails `coordsExist`. */
  lemma {:induction false} SweepCallsExact(es: seq<EntityType>, positions: map<string, Point>, k: nat)
    requires k <= |es|
    ensures |SweepCalls(es, positions, k)| == |FailingIndices(es, k)|
    decreases k
  {
    if k == 0 {
      assert FailingIndices(es, 0) == {};
    } else {
      SweepCallsStep(es, positions, k - 1);
      SweepCallsExact(es, positions, k - 1);
      var prev := FailingIndices(es, k - 1);
      assert k - 1 !in prev;
      if CoordsExist(es, es[k - 1].entityName) {
        assert FailingIndices(es, k) == prev;
      } else {
        assert FailingIndices(es, k) == prev + {k - 1};
      }
    }
  }

  /** The sweep makes no call at all when every entity has a persisted position. */
  lemma {:induction false} SweepCallsAllPersisted(es: seq<EntityType>, positions: map<string, Point>, k: nat)
    requires k <= |es|
    requires forall i :: 0 <= i < |es| ==> HasPersistedCoords(es[i])
    ensures SweepCalls(es, positions, k) == []
    decreases k
  {
    if k > 0 {
      SweepCallsStep(es, positions, k - 1);
      SweepCallsAllPersisted(es, positions, k - 1);
      CoordsExistAll(es, k - 1);
    }
  }

  /** When every entity has a persisted position, every listed name passes `coordsExist`. */
  lemma CoordsExistAll(es: seq<EntityType>, i: nat)
    requires i < |es| && forall j :: 0 <= j < |es| ==> HasPersistedCoords(es[j])
    ensures CoordsExist(es, es[i].entityName)
  {
    IndexOfFirst(es, es[i].entityName);
  }

  /** What the sweep leaves in the cache: every iteration spreads the
      render-time cache and sets the top-level keys "graphX" and "graphY", so
      the last call wins and no entity's own entry changes. */
  function SweepCache(c: Cache, calls: seq<SaveCall>): (r: Cache)
  {
    if calls == [] then c
    else
      var last := calls[|calls| - 1];
      c["graphX" := Scalar(last.x)]["graphY" := Scalar(last.y)]
  }

  /** The cache after one more call is the start cache with that call's top-level keys. */
  lemma SweepCacheStep(c: Cache, calls: seq<SaveCall>, call: SaveCall)
    ensures SweepCache(c, calls + [call]) == c["graphX" := Scalar(call.x)]["graphY" := Scalar(call.y)]
    ensures SweepCache(c, calls + []) == SweepCache(c, calls)
  {
    assert calls + [] == calls;
    assert (calls + [call])[|calls + [call]| - 1] == call;
  }

  /** The sweep never gives an entity a cached position it did not have, nor
      takes one away, except for entities named "graphX" or "graphY", whose
      entries it overwrites with bare numbers. */
  lemma SweepCacheEntities(c: Cache, calls: seq<SaveCall>, name: string)
    ensures name != "graphX" && name != "graphY" ==>
      (name in SweepCache(c, calls) <==> name in c) &&
      (name in c ==> SweepCache(c, calls)[name] == c[name])
    ensures calls != [] && (name == "graphX" || name == "graphY") ==> !HasCachedPosition(SweepCache(c, calls), name)
    ensures EntriesTruthy(c) ==> EntriesTruthy(SweepCache(c, calls))
  {
  }
}
