/**
 * The scene world: a facade over one registry that creates named entities
 * with a default transform and hands out entity handles bound to itself.
 */
module Scene {
  import opened Ecs

  /** An entity handle: the world it is bound to (null for the default handle) and an id. */
  datatype Entity = Entity(world: World?, id: EntityId)

  /** The default handle: bound to no world, with the invalid id. */
  const NoEntity: Entity := Entity(null, InvalidEntity)

  /** A handle is valid when it is bound to a world, has a real id and that id is alive there. */
  predicate IsValid(e: Entity): (b: bool)
    reads if e.world == null then {} else {e.world.registry}
    ensures e.world == null ==> !b
    ensures e.world != null && e.world.registry.Valid() ==> (b <==> e.id in e.world.registry.entities)
  {
    e.world != null && e.id != InvalidEntity && e.world.registry.IsAlive(e.id)
  }

  class World {
    const registry: Registry

    ghost predicate Valid()
      reads this, registry
    {
      registry.Valid()
    }

    constructor()
      ensures Valid() && fresh(registry) && registry.State() == EmptyRegistry
    {
      registry := new Registry();
    }

    /**
     * A new valid entity with a fresh id, carrying exactly a name component
     * with the given name and a default transform.
     */
    method CreateEntity(name: string) returns (e: Entity)
      requires Valid()
      modifies registry
      ensures Valid() && IsValid(e) && e == Entity(this, old(registry.nextId))
      ensures registry.State() == AfterCreateNamed(old(registry.State()), name)
      ensures registry.GetComponentConst(NameType, e.id) == Ok(Name(name))
      ensures registry.GetComponentConst(TransformType, e.id) == Ok(DefaultTransform)
      ensures forall t :: t != NameType && t != TransformType ==> !registry.HasComponent(t, e.id)
    {
      ghost var s0 := registry.State();
      CreateNamedEffect(s0, name);
      var id := registry.CreateEntity();
      var named := registry.AddComponent(id, Name(name));
      var placed := registry.AddComponent(id, DefaultTransform);
      e := Entity(this, id);
    }

    /**
     * When the handle is valid in the world it is bound to, destroys the
     * handle's id in this world's registry (for a handle bound to another
     * world, that is whatever entity has the same id here); an invalid handle
     * changes nothing.
     */
    method DestroyEntity(entity: Entity)
      requires Valid()
      modifies registry
      ensures Valid()
      ensures registry.State() ==
              if old(IsValid(entity)) then AfterDestroy(old(registry.State()), entity.id) else old(registry.State())
      ensures old(IsValid(entity)) && entity.world == this ==> !registry.IsAlive(entity.id)
    {
      if IsValid(entity) {
        DestroyKeepsConsistent(registry.State(), entity.id);
        registry.DestroyEntity(entity.id);
      }
    }

    /** One valid handle bound to this world per registry entity, in registry order. */
    method Entities() returns (handles: seq<Entity>)
      requires Valid()
      ensures |handles| == |registry.entities|
      ensures forall k :: 0 <= k < |handles| ==> handles[k] == Entity(this, registry.entities[k])
      ensures forall k :: 0 <= k < |handles| ==> IsValid(handles[k])
    {
      var ids := registry.Entities();
      handles := [];
      for k := 0 to |ids|
        invariant |handles| == k
        invariant forall l :: 0 <= l < k ==> handles[l] == Entity(this, ids[l])
      {
        handles := handles + [Entity(this, ids[k])];
      }
    }

    /** A handle to id bound to this world when id is alive, otherwise the default handle. */
    function FindEntity(id: EntityId): (e: Entity)
      reads this, registry
      requires Valid()
      ensures e.world == this || e == NoEntity
      ensures e.world == this <==> registry.IsAlive(id)
      ensures e.world == this ==> e.id == id
    {
      if registry.IsAlive(id) then Entity(this, id) else NoEntity
    }

    /** The number of the world's entities: the number alive in its registry. */
    function EntityCount(): (n: nat)
      reads this, registry
      requires Valid()
      ensures n == |registry.alive|
    {
      registry.EntityCount()
    }
  }

  /** The registry state after creating an entity and giving it a name and a default transform. */
  ghost function AfterCreateNamed(s: RegistryState, name: string): RegistryState
  {
    AfterAdd(AfterAdd(AfterCreate(s), s.nextId, Name(name)), s.nextId, DefaultTransform)
  }

  /**
   * Creating a named entity keeps the registry consistent, lists one fresh
   * id at the end, gives it exactly a name and a default transform, and
   * leaves every other entity's components as they were.
   */
  lemma CreateNamedEffect(s: RegistryState, name: string)
    requires Consistent(s)
    ensures var r := AfterCreateNamed(s, name);
      && Consistent(r)
      && s.nextId !in s.alive
      && r.nextId == s.nextId + 1
      && r.entities == s.entities + [s.nextId]
      && r.alive == s.alive + {s.nextId}
      && Has(r, NameType, s.nextId) && r.stores[NameType][s.nextId] == Name(name)
      && Has(r, TransformType, s.nextId) && r.stores[TransformType][s.nextId] == DefaultTransform
      && (forall t :: t != NameType && t != TransformType ==> !Has(r, t, s.nextId))
      && (forall t, x: EntityId :: x != s.nextId ==> Has(r, t, x) == Has(s, t, x))
      && (forall t, x: EntityId :: x != s.nextId && Has(s, t, x) ==> r.stores[t][x] == s.stores[t][x])
  {
    var s1 := AfterCreate(s);
    CreateKeepsConsistent(s);
    AddKeepsConsistent(s1, s.nextId, Name(name));
    AddKeepsConsistent(AfterAdd(s1, s.nextId, Name(name)), s.nextId, DefaultTransform);
  }

  /** FindEntity's handle is valid exactly when the id is alive, and then names that id. */
  lemma FindEntityIsValid(w: World, id: EntityId)
    requires w.Valid()
    ensures IsValid(w.FindEntity(id)) <==> w.registry.IsAlive(id)
    ensures IsValid(w.FindEntity(id)) ==> w.FindEntity(id).id == id
    ensures !IsValid(w.FindEntity(id)) ==> w.FindEntity(id) == NoEntity
  {
  }
}
