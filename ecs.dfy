/**
 * The entity-component registry. Entities are ids handed out by a counter
 * that starts at 1; the registry keeps them in creation order and in an
 * alive set, and keeps one store per component type mapping entity ids to
 * that type's component. Destroying an entity removes it from the list and
 * from every store.
 */
module Ecs {

  type EntityId = nat

  /** The id no entity ever has. */
  const InvalidEntity: EntityId := 0

  datatype Result<T> = Ok(value: T) | Error(message: string)

  /** A position, rotation or scale; the source's float components are modelled as integers. */
  datatype Vec3 = Vec3(x: int, y: int, z: int)

  /** The component types a store can be created for. */
  datatype ComponentType = NameType | TransformType | ScriptType | MeshType

  /** A component value; its constructor says which store it belongs in. */
  datatype Component =
    | Name(value: string)
    | Transform(position: Vec3, rotation: Vec3, scale: Vec3)
    | Script(className: string, enabled: bool)
    | Mesh(meshAsset: string, materialAsset: string, visible: bool)

  function TypeOf(c: Component): ComponentType
  {
    match c
    case Name(_) => NameType
    case Transform(_, _, _) => TransformType
    case Script(_, _) => ScriptType
    case Mesh(_, _, _) => MeshType
  }

  /** A default-constructed transform: at the origin, unrotated, unit scale. */
  const DefaultTransform: Component := Transform(Vec3(0, 0, 0), Vec3(0, 0, 0), Vec3(1, 1, 1))

  type Stores = map<ComponentType, map<EntityId, Component>>

  /** The registry's state as a value. */
  datatype RegistryState = RegistryState(
    nextId: nat,
    entities: seq<EntityId>,
    alive: set<EntityId>,
    stores: Stores)

  /** A registry that has created no entity yet. */
  const EmptyRegistry: RegistryState := RegistryState(1, [], {}, map[])

  /** Strictly increasing, hence free of duplicates. */
  ghost predicate Increasing(es: seq<EntityId>)
  {
    forall k, l :: 0 <= k < l < |es| ==> es[k] < es[l]
  }

  /**
   * The registry invariant: the list is in creation order and holds only
   * ids the counter has already passed, the alive set is the set of listed
   * ids, and every store holds only alive entities, each with a component
   * of the store's type.
   */
  ghost predicate Consistent(s: RegistryState)
  {
    1 <= s.nextId &&
    Increasing(s.entities) &&
    (forall k :: 0 <= k < |s.entities| ==> InvalidEntity < s.entities[k] < s.nextId) &&
    (forall e :: e in s.alive <==> e in s.entities) &&
    (forall t, e :: t in s.stores && e in s.stores[t] ==> e in s.alive) &&
    StoresTyped(s.stores)
  }

  /** Every store holds components of its own type only. */
  ghost predicate StoresTyped(st: Stores)
  {
    forall t, e :: t in st && e in st[t] ==> TypeOf(st[t][e]) == t
  }

  /** The store of type t, empty when no store of that type exists yet. */
  function StoreOf(s: RegistryState, t: ComponentType): map<EntityId, Component>
  {
    if t in s.stores then s.stores[t] else map[]
  }

  /** Entity id has a component of type t. */
  predicate Has(s: RegistryState, t: ComponentType, id: EntityId)
  {
    t in s.stores && id in s.stores[t]
  }

  /** The list with every occurrence of id removed, the others in their order. */
  function Without(es: seq<EntityId>, id: EntityId): (r: seq<EntityId>)
    ensures forall e :: e in r <==> e in es && e != id
    ensures |r| <= |es|
    decreases |es|
  {
    if |es| == 0 then []
    else Without(es[..|es| - 1], id) + (if es[|es| - 1] == id then [] else [es[|es| - 1]])
  }

  /** CreateEntity's effect: the counter's value becomes a listed, alive entity. */
  function AfterCreate(s: RegistryState): RegistryState
  {
    RegistryState(s.nextId + 1, s.entities + [s.nextId], s.alive + {s.nextId}, s.stores)
  }

  /** DestroyEntity's effect: nothing for an id that is not alive, otherwise unlisted everywhere. */
  function AfterDestroy(s: RegistryState, id: EntityId): RegistryState
  {
    if id !in s.alive then s
    else RegistryState(s.nextId, Without(s.entities, id), s.alive - {id},
                       map t | t in s.stores :: s.stores[t] - {id})
  }

  /** AddComponent's effect: nothing for an entity that is not alive, otherwise insert or overwrite. */
  function AfterAdd(s: RegistryState, id: EntityId, c: Component): RegistryState
  {
    if id !in s.alive then s
    else s.(stores := s.stores[TypeOf(c) := StoreOf(s, TypeOf(c))[id := c]])
  }

  /** RemoveComponent's effect: the store of type t exists afterwards and lacks id. */
  function AfterRemove(s: RegistryState, t: ComponentType, id: EntityId): RegistryState
  {
    s.(stores := s.stores[t := StoreOf(s, t) - {id}])
  }

  /** The entity has a component of every type in kinds. */
  predicate HasAll(s: RegistryState, kinds: set<ComponentType>, id: EntityId)
  {
    forall t :: t in kinds ==> Has(s, t, id)
  }

  /** The entities of es that have every type in kinds, in the order of es. */
  function Visit(s: RegistryState, es: seq<EntityId>, kinds: set<ComponentType>): (r: seq<EntityId>)
    ensures forall e :: e in r <==> e in es && HasAll(s, kinds, e)
    decreases |es|
  {
    if |es| == 0 then []
    else
      var last := es[|es| - 1];
      Visit(s, es[..|es| - 1], kinds) + (if HasAll(s, kinds, last) then [last] else [])
  }

  // ----- Properties of the effects -----

  lemma EmptyIsConsistent()
    ensures Consistent(EmptyRegistry)
    ensures EmptyRegistry.entities == [] && EmptyRegistry.alive == {}
  {
  }

  /**
   * A new entity gets the counter's value: not InvalidEntity, above every id
   * handed out before (so never a reused id), and the state stays consistent.
   */
  lemma CreateKeepsConsistent(s: RegistryState)
    requires Consistent(s)
    ensures Consistent(AfterCreate(s))
    ensures s.nextId != InvalidEntity && s.nextId !in s.alive
    ensures forall e :: e in s.entities ==> e < s.nextId
    ensures AfterCreate(s).nextId > s.nextId
  {
  }

  lemma AppendIncreasing(r: seq<EntityId>, x: EntityId)
    requires Increasing(r) && forall e :: e in r ==> e < x
    ensures Increasing(r + [x])
  {
    forall k, l | 0 <= k < l < |r| + 1
      ensures (r + [x])[k] < (r + [x])[l]
    {
      assert (r + [x])[k] == r[k] && r[k] in r;
      if l == |r| {
        assert (r + [x])[l] == x;
      } else {
        assert (r + [x])[l] == r[l];
      }
    }
  }

  /** Removing an id from an increasing list keeps it increasing. */
  lemma {:induction false} WithoutIncreasing(es: seq<EntityId>, id: EntityId)
    requires Increasing(es)
    ensures Increasing(Without(es, id))
    decreases |es|
  {
    if |es| > 0 {
      var init := es[..|es| - 1];
      var last := es[|es| - 1];
      assert Increasing(init);
      WithoutIncreasing(init, id);
      var r := Without(init, id);
      forall e | e in r
        ensures e < last
      {
        var k :| 0 <= k < |init| && init[k] == e;
      }
      if last != id {
        AppendIncreasing(r, last);
      } else {
        assert Without(es, id) == r;
      }
    }
  }

  /**
   * Destroying an alive entity unlists it, removes it from every store and
   * leaves every other entity and component as it was; the state stays
   * consistent. Destroying anything else changes nothing.
   */
  lemma DestroyKeepsConsistent(s: RegistryState, id: EntityId)
    requires Consistent(s)
    ensures Consistent(AfterDestroy(s, id))
    ensures id !in AfterDestroy(s, id).alive && id !in AfterDestroy(s, id).entities
    ensures forall t :: !Has(AfterDestroy(s, id), t, id)
    ensures forall e :: e != id ==> (e in AfterDestroy(s, id).alive <==> e in s.alive)
    ensures forall t, e :: e != id ==> Has(AfterDestroy(s, id), t, e) == Has(s, t, e)
    ensures forall t, e :: e != id && Has(s, t, e) ==> AfterDestroy(s, id).stores[t][e] == s.stores[t][e]
    ensures id !in s.alive ==> AfterDestroy(s, id) == s
  {
    if id in s.alive {
      WithoutIncreasing(s.entities, id);
      var r := Without(s.entities, id);
      forall k | 0 <= k < |r|
        ensures InvalidEntity < r[k] < s.nextId
      {
        assert r[k] in s.entities;
      }
    }
  }

  /**
   * Adding to an alive entity makes it have the component, exactly the one
   * given, whether it had one of that type before or not; nothing else
   * changes. Adding to any other id changes nothing.
   */
  lemma AddKeepsConsistent(s: RegistryState, id: EntityId, c: Component)
    requires Consistent(s)
    ensures Consistent(AfterAdd(s, id, c))
    ensures id in s.alive ==> Has(AfterAdd(s, id, c), TypeOf(c), id) && AfterAdd(s, id, c).stores[TypeOf(c)][id] == c
    ensures forall t, e: EntityId :: (t, e) != (TypeOf(c), id) ==> Has(AfterAdd(s, id, c), t, e) == Has(s, t, e)
    ensures id !in s.alive ==> AfterAdd(s, id, c) == s
    ensures AfterAdd(s, id, c).entities == s.entities && AfterAdd(s, id, c).alive == s.alive
  {
  }

  /** Removing a component leaves the entity without one of that type and touches nothing else. */
  lemma RemoveKeepsConsistent(s: RegistryState, t: ComponentType, id: EntityId)
    requires Consistent(s)
    ensures Consistent(AfterRemove(s, t, id))
    ensures !Has(AfterRemove(s, t, id), t, id)
    ensures forall t', e: EntityId :: (t', e) != (t, id) ==> Has(AfterRemove(s, t, id), t', e) == Has(s, t', e)
    ensures AfterRemove(s, t, id).entities == s.entities && AfterRemove(s, t, id).alive == s.alive
  {
  }

  lemma StoreTyped(s: RegistryState, t: ComponentType, id: EntityId)
    requires Consistent(s) && Has(s, t, id)
    ensures TypeOf(s.stores[t][id]) == t
  {
  }

  /** Creating an empty store of a type that has none keeps the state consistent. */
  lemma StoreCreateKeepsConsistent(s: RegistryState, t: ComponentType)
    requires Consistent(s)
    ensures Consistent(s.(stores := s.stores[t := StoreOf(s, t)]))
  {
  }

  ghost function Elements(es: seq<EntityId>): set<EntityId>
  {
    set e | e in es
  }

  /** An increasing list has as many distinct elements as entries. */
  lemma {:induction false} DistinctCount(es: seq<EntityId>)
    requires Increasing(es)
    ensures |Elements(es)| == |es|
    decreases |es|
  {
    if |es| > 0 {
      var init := es[..|es| - 1];
      var last := es[|es| - 1];
      assert Increasing(init);
      DistinctCount(init);
      var before := Elements(init);
      var after := Elements(es);
      assert after == before + {last} by {
        assert es == init + [last];
      }
      assert last !in before;
      assert |before + {last}| == |before| + 1;
    }
  }

  /** The entity count is the number of alive entities. */
  lemma CountIsAlive(s: RegistryState)
    requires Consistent(s)
    ensures |s.entities| == |s.alive|
  {
    DistinctCount(s.entities);
    assert s.alive == Elements(s.entities);
  }

  /** ForEach over an increasing list visits an increasing sublist. */
  lemma {:induction false} VisitIncreasing(s: RegistryState, es: seq<EntityId>, kinds: set<ComponentType>)
    requires Increasing(es)
    ensures Increasing(Visit(s, es, kinds))
    decreases |es|
  {
    if |es| > 0 {
      var init := es[..|es| - 1];
      var last := es[|es| - 1];
      assert Increasing(init);
      VisitIncreasing(s, init, kinds);
      var r := Visit(s, init, kinds);
      forall e | e in r
        ensures e < last
      {
        var k :| 0 <= k < |init| && init[k] == e;
      }
      if HasAll(s, kinds, last) {
        AppendIncreasing(r, last);
      } else {
        assert Visit(s, es, kinds) == r;
      }
    }
  }

  /** The registry: the source's counter, entity list, alive set and component stores. */
  class Registry {
    var nextId: nat
    var entities: seq<EntityId>
    var alive: set<EntityId>
    var stores: Stores

    function State(): RegistryState
      reads this
    {
      RegistryState(nextId, entities, alive, stores)
    }

    ghost predicate Valid()
      reads this
    {
      Consistent(State())
    }

    constructor()
      ensures State() == EmptyRegistry && Valid()
    {
      nextId := 1;
      entities := [];
      alive := {};
      stores := map[];
    }

    /** A fresh id: the counter's value, which is then advanced. */
    method CreateEntity() returns (id: EntityId)
      requires Valid()
      modifies this
      ensures Valid() && State() == AfterCreate(old(State()))
      ensures id == old(nextId) && id != InvalidEntity && id !in old(alive)
      ensures id in alive && entities == old(entities) + [id]
    {
      CreateKeepsConsistent(State());
      id := nextId;
      nextId := nextId + 1;
      alive := alive + {id};
      entities := entities + [id];
    }

    /** Erases id from the alive set; if it was alive, also from the list (erase-remove) and every store. */
    method DestroyEntity(id: EntityId)
      requires Valid()
      modifies this
      ensures Valid() && State() == AfterDestroy(old(State()), id)
    {
      DestroyKeepsConsistent(State(), id);
      if id !in alive {
        return;
      }
      alive := alive - {id};
      entities := RemoveAll(entities, id);
      var remaining := stores.Keys;
      var updated := stores;
      while remaining != {}
        invariant remaining <= stores.Keys && updated.Keys == stores.Keys
        invariant forall t :: t in stores ==> updated[t] == if t in remaining then stores[t] else stores[t] - {id}
        decreases remaining
      {
        var t :| t in remaining;
        updated := updated[t := updated[t] - {id}];
        remaining := remaining - {t};
      }
      stores := updated;
    }

    /** The erase-remove idiom: keeps the entries other than id, in order. */
    static method RemoveAll(es: seq<EntityId>, id: EntityId) returns (kept: seq<EntityId>)
      ensures kept == Without(es, id)
    {
      kept := [];
      for k := 0 to |es|
        invariant kept == Without(es[..k], id)
      {
        assert es[..k + 1][..k] == es[..k];
        if es[k] != id {
          kept := kept + [es[k]];
        }
      }
      assert es[..|es|] == es;
    }

    /** An id is alive exactly when it is listed. */
    function IsAlive(id: EntityId): (b: bool)
      reads this
      ensures Valid() ==> (b <==> id in entities)
      ensures Valid() && b ==> id != InvalidEntity && id < nextId
    {
      id in alive
    }

    /** The number of listed entities, which is the number of alive ones. */
    function EntityCount(): (n: nat)
      reads this
      requires Valid()
      ensures n == |alive|
    {
      CountIsAlive(State());
      |entities|
    }

    /** The alive entities in creation order. */
    function Entities(): (es: seq<EntityId>)
      reads this
      requires Valid()
      ensures Increasing(es)
      ensures forall e :: e in es <==> IsAlive(e)
    {
      entities
    }

    /** Inserts or overwrites the entity's component of c's type; fails for an entity that is not alive. */
    method AddComponent(id: EntityId, c: Component) returns (r: Result<Component>)
      requires Valid()
      modifies this
      ensures Valid() && State() == AfterAdd(old(State()), id, c)
      ensures r.Ok? <==> id in old(alive)
      ensures r.Ok? ==> r.value == c && HasComponent(TypeOf(c), id)
      ensures r.Error? ==> r.message == "Entity is not alive."
    {
      AddKeepsConsistent(State(), id, c);
      if id !in alive {
        return Error("Entity is not alive.");
      }
      var t := TypeOf(c);
      var data: map<EntityId, Component> := if t in stores then stores[t] else map[];
      stores := stores[t := data[id := c]];
      r := Ok(c);
    }

    /** Erases the entity's component of type t, creating an empty store of that type if there was none. */
    method RemoveComponent(t: ComponentType, id: EntityId)
      requires Valid()
      modifies this
      ensures Valid() && State() == AfterRemove(old(State()), t, id)
      ensures !HasComponent(t, id)
    {
      RemoveKeepsConsistent(State(), t, id);
      var data: map<EntityId, Component> := if t in stores then stores[t] else map[];
      stores := stores[t := data - {id}];
    }

    /** Only alive entities have components. */
    function HasComponent(t: ComponentType, id: EntityId): (b: bool)
      reads this
      requires Valid()
      ensures b ==> IsAlive(id)
      ensures b <==> Has(State(), t, id)
    {
      t in stores && id in stores[t]
    }

    /** The read-only lookup: fails when the type has no store, or the entity no component in it. */
    function GetComponentConst(t: ComponentType, id: EntityId): (r: Result<Component>)
      reads this
      requires Valid()
      ensures r.Ok? <==> HasComponent(t, id)
      ensures r.Ok? ==> TypeOf(r.value) == t && r.value == stores[t][id]
      ensures r.Error? && t !in stores ==> r.message == "Component store is missing."
      ensures r.Error? && t in stores ==> r.message == "Component is missing on entity."
    {
      if t !in stores then Error("Component store is missing.")
      else if id !in stores[t] then Error("Component is missing on entity.")
      else Ok(stores[t][id])
    }

    /**
     * The mutable lookup: it first creates the type's store if there is
     * none, then fails when the entity has no component in it.
     */
    method GetComponent(t: ComponentType, id: EntityId) returns (r: Result<Component>)
      requires Valid()
      modifies this
      ensures Valid()
      ensures stores == old(stores)[t := StoreOf(old(State()), t)]
      ensures nextId == old(nextId) && entities == old(entities) && alive == old(alive)
      ensures r.Ok? <==> old(Has(State(), t, id))
      ensures r.Ok? ==> TypeOf(r.value) == t && r.value == stores[t][id]
      ensures r.Error? ==> r.message == "Component is missing on entity."
    {
      StoreCreateKeepsConsistent(State(), t);
      var data: map<EntityId, Component> := if t in stores then stores[t] else map[];
      if id in data {
        StoreTyped(State(), t, id);
      }
      stores := stores[t := data];
      if id !in data {
        return Error("Component is missing on entity.");
      }
      r := Ok(data[id]);
    }

    /**
     * The entities ForEach hands to its callback, in the order it calls it:
     * the listed entities that have a component of every type in kinds.
     */
    method ForEach(kinds: set<ComponentType>) returns (visited: seq<EntityId>)
      requires Valid()
      ensures visited == Visit(State(), entities, kinds)
      ensures Increasing(visited)
      ensures forall e :: e in visited <==> IsAlive(e) && HasAll(State(), kinds, e)
    {
      visited := [];
      for k := 0 to |entities|
        invariant visited == Visit(State(), entities[..k], kinds)
      {
        assert entities[..k + 1][..k] == entities[..k];
        var entity := entities[k];
        if HasAll(State(), kinds, entity) {
          visited := visited + [entity];
        }
      }
      assert entities[..|entities|] == entities;
      VisitIncreasing(State(), entities, kinds);
    }
  }
}
