// shared/ecs/EntityManager.hpp and shared/ecs/EntityManager.cpp: entity ids
// 0..MAX_ENTITIES-1 handed out from a LIFO free list, one component bitmask per
// entity, and one lazily created component vector per component type.
module Ecs {
  import opened Components

  const MAX_ENTITIES: nat := 1000
  const MAX_COMPONENTS: nat := 32

  type EntityId = nat

  /** The id table after `getComponentId<T>()` for `k`: a type's first use takes the next id. */
  function Allocated(ids: map<Kind, nat>, next: nat, k: Kind): map<Kind, nat>
  {
    if k in ids then ids else ids[k := next]
  }

  /**
   * The component-type numbering: the static `nextComponentId` shared by every
   * manager, and the function-local `static size_t id` of each `getComponentId<T>`.
   */
  class ComponentIds {
    var ids: map<Kind, nat>
    var nextComponentId: nat

    ghost predicate Valid()
      reads this
    {
      |ids| == nextComponentId &&
      (forall k | k in ids :: ids[k] < nextComponentId) &&
      (forall k1, k2 | k1 in ids && k2 in ids && k1 != k2 :: ids[k1] != ids[k2])
    }

    /** Program start: no type has been used yet. */
    constructor ()
      ensures Valid() && ids == map[] && nextComponentId == 0
    {
      ids := map[];
      nextComponentId := 0;
    }

    /** `getComponentId<T>()`: a type keeps the id it was given on its first use. */
    method GetComponentId(k: Kind) returns (id: nat)
      requires Valid()
      modifies this
      ensures Valid()
      ensures ids == Allocated(old(ids), old(nextComponentId), k)
      ensures k in old(ids) ==> nextComponentId == old(nextComponentId)
      ensures id == ids[k]
    {
      if k !in ids {
        ids := ids[k := nextComponentId];
        nextComponentId := nextComponentId + 1;
      }
      id := ids[k];
    }
  }

  lemma SubsetCardinality<T>(a: set<T>, b: set<T>)
    requires a <= b
    ensures |a| <= |b|
  {
    assert b == a + (b - a);
  }

  /**
   * Nothing checks ids against MAX_COMPONENTS, but with the eight component
   * types of the game the counter never passes eight, so every id indexes the
   * 32-slot `componentArrays` and the 32-bit masks.
   */
  lemma {:induction false} ComponentIdsFit(r: ComponentIds)
    requires r.Valid()
    ensures r.nextComponentId <= 8
    ensures forall k | k in r.ids :: r.ids[k] < MAX_COMPONENTS
  {
    AllKindsCount();
    SubsetCardinality(r.ids.Keys, AllKinds);
  }

  predicate NoDuplicates(s: seq<EntityId>)
  {
    forall i, j | 0 <= i < j < |s| :: s[i] != s[j]
  }

  /** The ids not on the free list. */
  function LiveIds(free: seq<EntityId>): set<EntityId>
  {
    set e | 0 <= e < MAX_ENTITIES && e !in free
  }

  /**
   * The components an entity has, by type, read off its mask `mask`, the id table
   * and the component vectors: a type is present when its bit is set (and its
   * vector holds slot e, which the manager's invariant guarantees).
   */
  ghost function View(mask: set<nat>, ids: map<Kind, nat>, arrays: map<nat, seq<Component>>, e: nat): map<Kind, Component>
  {
    map k | k in ids && ids[k] in mask && ids[k] in arrays && e < |arrays[ids[k]]| :: arrays[ids[k]][e]
  }

  /** Numbering a type for the first time sets no bit, so no view changes. */
  lemma ViewAllocate(mask: set<nat>, ids: map<Kind, nat>, next: nat, arrays: map<nat, seq<Component>>, e: nat, k: Kind)
    requires forall b | b in mask :: b < next
    ensures View(mask, Allocated(ids, next, k), arrays, e) == View(mask, ids, arrays, e)
  {
    var after := Allocated(ids, next, k);
    assert forall k' :: k' in after && after[k'] in mask <==> k' in ids && ids[k'] in mask;
  }

  /** A new vector under an id that is not in the mask changes no view. */
  lemma ViewNewVector(mask: set<nat>, ids: map<Kind, nat>, arrays: map<nat, seq<Component>>, e: nat, id: nat, v: seq<Component>)
    requires id !in mask
    ensures View(mask, ids, arrays[id := v], e) == View(mask, ids, arrays, e)
  {
    var after := arrays[id := v];
    assert forall k | k in ids && ids[k] in mask :: (ids[k] in after <==> ids[k] in arrays) && (ids[k] in arrays ==> after[ids[k]] == arrays[ids[k]]);
  }

  /** Writing slot e of vector `id` leaves every other entity's view alone. */
  lemma ViewWriteOther(mask: set<nat>, ids: map<Kind, nat>, arrays: map<nat, seq<Component>>, e: nat, id: nat, e': nat, c: Component)
    requires id in arrays && e < |arrays[id]| && e' != e
    ensures View(mask, ids, arrays[id := arrays[id][e := c]], e') == View(mask, ids, arrays, e')
  {
    var after := arrays[id := arrays[id][e := c]];
    assert forall k | k in ids && ids[k] in mask :: (ids[k] in after <==> ids[k] in arrays) &&
                                                    (ids[k] in arrays ==> |after[ids[k]]| == |arrays[ids[k]]| && (e' < |arrays[ids[k]]| ==> after[ids[k]][e'] == arrays[ids[k]][e']));
  }

  /** Writing slot e of k's vector changes e's view only when e has k. */
  lemma ViewWriteSelf(mask: set<nat>, ids: map<Kind, nat>, arrays: map<nat, seq<Component>>, e: nat, k: Kind, c: Component)
    requires k in ids && ids[k] in arrays && e < |arrays[ids[k]]|
    requires forall k1, k2 | k1 in ids && k2 in ids && k1 != k2 :: ids[k1] != ids[k2]
    ensures View(mask, ids, arrays[ids[k] := arrays[ids[k]][e := c]], e) ==
      if k in View(mask, ids, arrays, e) then View(mask, ids, arrays, e)[k := c] else View(mask, ids, arrays, e)
  {
  }

  /** Setting k's bit (its vector holding slot e) adds k to e's view with the stored value. */
  lemma ViewSetBit(mask: set<nat>, ids: map<Kind, nat>, arrays: map<nat, seq<Component>>, e: nat, k: Kind)
    requires k in ids && ids[k] in arrays && e < |arrays[ids[k]]|
    requires forall k1, k2 | k1 in ids && k2 in ids && k1 != k2 :: ids[k1] != ids[k2]
    ensures View(mask + {ids[k]}, ids, arrays, e) == View(mask, ids, arrays, e)[k := arrays[ids[k]][e]]
  {
  }

  /** Clearing k's bit removes k from e's view. */
  lemma ViewClearBit(mask: set<nat>, ids: map<Kind, nat>, arrays: map<nat, seq<Component>>, e: nat, k: Kind)
    requires k in ids
    requires forall k1, k2 | k1 in ids && k2 in ids && k1 != k2 :: ids[k1] != ids[k2]
    ensures View(mask - {ids[k]}, ids, arrays, e) == View(mask, ids, arrays, e) - {k}
  {
  }

  class EntityManager {
    var availableEntities: seq<EntityId>
    const componentMasks: array<set<nat>>
    var componentArrays: map<nat, seq<Component>>
    const registry: ComponentIds

    ghost predicate Valid()
      reads this, componentMasks, registry
    {
      registry.Valid() &&
      componentMasks.Length == MAX_ENTITIES &&
      (forall i | 0 <= i < |availableEntities| :: availableEntities[i] < MAX_ENTITIES) &&
      (forall e, b | 0 <= e < componentMasks.Length && b in componentMasks[e] :: b in componentArrays) &&
      (forall id | id in componentArrays :: |componentArrays[id]| == MAX_ENTITIES) &&
      (forall id, e | id in componentArrays && 0 <= e < |componentArrays[id]| ::
         KindOf(componentArrays[id][e]) in registry.ids &&
         registry.ids[KindOf(componentArrays[id][e])] == id)
    }

    /** T's component vector has been created. */
    ghost predicate HasVector(k: Kind)
      reads this, registry
    {
      k in registry.ids && registry.ids[k] in componentArrays
    }

    /** The abstract view of entity e: the components its mask says it has, by type. */
    ghost function ComponentsOf(e: EntityId): map<Kind, Component>
      reads this, componentMasks, registry
      requires e < componentMasks.Length
    {
      View(componentMasks[e], registry.ids, componentArrays, e)
    }

    /** An entity has a component of type T exactly when T is numbered and its bit is set in the entity's mask. */
    lemma ComponentsOfMask(e: EntityId)
      requires Valid() && e < MAX_ENTITIES
      ensures forall k :: k in ComponentsOf(e) <==> k in registry.ids && registry.ids[k] in componentMasks[e]
    {
    }

    /** Whatever an entity holds under type T is a T. */
    lemma ViewWellKinded(e: EntityId)
      requires Valid() && e < MAX_ENTITIES
      ensures forall k | k in ComponentsOf(e) :: KindOf(ComponentsOf(e)[k]) == k
    {
      forall k | k in ComponentsOf(e) ensures KindOf(ComponentsOf(e)[k]) == k {
        var id := registry.ids[k];
        assert registry.ids[KindOf(componentArrays[id][e])] == id;
      }
    }

    /** The free list and the live ids partition 0..MAX_ENTITIES-1. */
    ghost predicate Partitioned()
      reads this
    {
      NoDuplicates(availableEntities)
    }

    ghost function Live(): set<EntityId>
      reads this
    {
      LiveIds(availableEntities)
    }

    /** Every vector id and every mask bit is an id the counter has handed out. */
    lemma IdsHandedOut()
      requires Valid()
      ensures forall id | id in componentArrays :: id < registry.nextComponentId
      ensures forall e, b | 0 <= e < MAX_ENTITIES && b in componentMasks[e] :: b < registry.nextComponentId
    {
      forall id | id in componentArrays ensures id < registry.nextComponentId {
        assert KindOf(componentArrays[id][0]) in registry.ids;
      }
      forall e, b | 0 <= e < MAX_ENTITIES && b in componentMasks[e] ensures b < registry.nextComponentId {
        assert b in componentArrays;
      }
    }

    /** The constructor: every id is free, in ascending order; no mask bit is set. */
    constructor (registry: ComponentIds)
      requires registry.Valid()
      ensures Valid() && this.registry == registry && fresh(componentMasks)
      ensures availableEntities == seq(MAX_ENTITIES, i => i)
      ensures componentArrays == map[]
      ensures forall e | 0 <= e < MAX_ENTITIES :: ComponentsOf(e) == map[]
      ensures Partitioned() && Live() == {}
    {
      var free: seq<EntityId> := [];
      for entity := 0 to MAX_ENTITIES
        invariant free == seq(entity, i => i)
      {
        free := free + [entity];
      }
      this.registry := registry;
      componentMasks := new set<nat>[MAX_ENTITIES](_ => {});
      componentArrays := map[];
      availableEntities := free;
      new;
      assert forall e | 0 <= e < MAX_ENTITIES :: e in availableEntities by {
        forall e | 0 <= e < MAX_ENTITIES ensures e in availableEntities {
          assert availableEntities[e] == e;
        }
      }
    }

    /** `createEntity`: pops the last free id; `back()` is unguarded, so the list must not be empty. */
    method CreateEntity() returns (id: EntityId)
      requires Valid() && |availableEntities| > 0
      modifies this`availableEntities
      ensures Valid()
      ensures id == old(availableEntities[|availableEntities| - 1]) && id < MAX_ENTITIES
      ensures availableEntities == old(availableEntities[..|availableEntities| - 1])
      ensures old(Partitioned()) ==> Partitioned() && id !in old(Live()) && Live() == old(Live()) + {id}
      ensures forall k' :: HasVector(k') == old(HasVector(k'))
    {
      id := availableEntities[|availableEntities| - 1];
      availableEntities := availableEntities[..|availableEntities| - 1];
      if old(Partitioned()) {
        CreateKeepsPartition(old(availableEntities));
      }
    }

    /** `destroyEntity`: clears every bit of e's mask and pushes e back on the free list. */
    method DestroyEntity(e: EntityId)
      requires Valid() && e < MAX_ENTITIES
      modifies this`availableEntities, componentMasks
      ensures Valid()
      ensures ComponentsOf(e) == map[]
      ensures forall e' | 0 <= e' < MAX_ENTITIES && e' != e :: ComponentsOf(e') == old(ComponentsOf(e'))
      ensures forall e' | 0 <= e' < MAX_ENTITIES && e' != e :: componentMasks[e'] == old(componentMasks[e'])
      ensures availableEntities == old(availableEntities) + [e]
      ensures old(Partitioned()) && e in old(Live()) ==> Partitioned() && Live() == old(Live()) - {e}
      ensures forall k' :: HasVector(k') == old(HasVector(k'))
    {
      componentMasks[e] := {};
      availableEntities := availableEntities + [e];
      if old(Partitioned()) && e in old(Live()) {
        DestroyKeepsPartition(old(availableEntities), e);
      }
    }

    /** `getComponentId<T>()` seen from a manager: may number a new type, which changes no entity's view. */
    method GetComponentId(k: Kind) returns (id: nat)
      requires Valid()
      modifies registry
      ensures Valid()
      ensures registry.ids == Allocated(old(registry.ids), old(registry.nextComponentId), k)
      ensures id == registry.ids[k]
      ensures forall e | 0 <= e < MAX_ENTITIES :: ComponentsOf(e) == old(ComponentsOf(e))
      ensures forall k' :: HasVector(k') == old(HasVector(k'))
    {
      IdsHandedOut();
      id := registry.GetComponentId(k);
      forall e | 0 <= e < MAX_ENTITIES ensures ComponentsOf(e) == old(ComponentsOf(e)) {
        ViewAllocate(componentMasks[e], old(registry.ids), old(registry.nextComponentId), componentArrays, e, k);
      }
    }

    /** `ensureComponentVectorExists<T>()`: creates T's vector of MAX_ENTITIES default values once. */
    method EnsureComponentVectorExists(k: Kind)
      requires Valid()
      modifies this`componentArrays, registry
      ensures Valid() && HasVector(k)
      ensures registry.ids == Allocated(old(registry.ids), old(registry.nextComponentId), k)
      ensures old(HasVector(k)) ==> componentArrays == old(componentArrays)
      ensures !old(HasVector(k)) ==> componentArrays == old(componentArrays)[registry.ids[k] := seq(MAX_ENTITIES, _ => Default(k))]
      ensures forall e | 0 <= e < MAX_ENTITIES :: ComponentsOf(e) == old(ComponentsOf(e))
      ensures forall k' :: HasVector(k') == (old(HasVector(k')) || k' == k)
    {
      IdsHandedOut();
      var id := GetComponentId(k);
      if id !in componentArrays {
        AddDefaultVector(k);
      }
    }

    /** The branch of `ensureComponentVectorExists` that creates T's vector. */
    method AddDefaultVector(k: Kind)
      requires Valid() && k in registry.ids && registry.ids[k] !in componentArrays
      modifies this`componentArrays
      ensures Valid()
      ensures componentArrays == old(componentArrays)[registry.ids[k] := seq(MAX_ENTITIES, _ => Default(k))]
      ensures forall e | 0 <= e < MAX_ENTITIES :: ComponentsOf(e) == old(ComponentsOf(e))
    {
      var id := registry.ids[k];
      var defaults := seq(MAX_ENTITIES, _ => Default(k));
      assert forall i | 0 <= i < |defaults| :: KindOf(defaults[i]) == k;
      forall e | 0 <= e < MAX_ENTITIES
        ensures View(componentMasks[e], registry.ids, componentArrays[id := defaults], e) == ComponentsOf(e)
      {
        assert id !in componentMasks[e];
        ViewNewVector(componentMasks[e], registry.ids, componentArrays, e, id, defaults);
      }
      componentArrays := componentArrays[id := defaults];
    }

    /** `addComponent<T>(e, c)`: stores c in slot e of T's vector and sets T's bit in e's mask. */
    method AddComponent(e: EntityId, c: Component)
      requires Valid() && e < MAX_ENTITIES
      modifies this`componentArrays, componentMasks, registry
      ensures Valid()
      ensures registry.ids == Allocated(old(registry.ids), old(registry.nextComponentId), KindOf(c))
      ensures ComponentsOf(e) == old(ComponentsOf(e))[KindOf(c) := c]
      ensures forall e' | 0 <= e' < MAX_ENTITIES && e' != e :: ComponentsOf(e') == old(ComponentsOf(e'))
      ensures forall k' :: HasVector(k') == (old(HasVector(k')) || k' == KindOf(c))
    {
      var componentId := GetComponentId(KindOf(c));
      EnsureComponentVectorExists(KindOf(c));
      StoreAndMark(e, c);
    }

    /** The last two steps of `addComponent`: the slot write and the bit set. */
    method StoreAndMark(e: EntityId, c: Component)
      requires Valid() && e < MAX_ENTITIES && HasVector(KindOf(c))
      modifies this`componentArrays, componentMasks
      ensures Valid()
      ensures ComponentsOf(e) == old(ComponentsOf(e))[KindOf(c) := c]
      ensures forall e' | 0 <= e' < MAX_ENTITIES && e' != e :: ComponentsOf(e') == old(ComponentsOf(e'))
      ensures forall k' :: HasVector(k') == (old(HasVector(k')) || k' == KindOf(c))
    {
      var componentId := registry.ids[KindOf(c)];
      ghost var arrays0 := componentArrays;
      ghost var mask0 := componentMasks[e];
      var updated := componentArrays[componentId][e := c];
      assert forall i | 0 <= i < |updated| :: KindOf(updated[i]) in registry.ids && registry.ids[KindOf(updated[i])] == componentId;
      componentArrays := componentArrays[componentId := updated];
      ViewWriteSelf(mask0, registry.ids, arrays0, e, KindOf(c), c);
      forall e' | 0 <= e' < MAX_ENTITIES && e' != e ensures View(componentMasks[e'], registry.ids, componentArrays, e') == View(componentMasks[e'], registry.ids, arrays0, e') {
        ViewWriteOther(componentMasks[e'], registry.ids, arrays0, e, componentId, e', c);
      }
      ghost var before := View(mask0, registry.ids, arrays0, e);
      ghost var written := View(mask0, registry.ids, componentArrays, e);
      assert written[KindOf(c) := c] == before[KindOf(c) := c];
      componentMasks[e] := componentMasks[e] + {componentId};
      ViewSetBit(mask0, registry.ids, componentArrays, e, KindOf(c));
      forall e' | 0 <= e' < MAX_ENTITIES && e' != e ensures ComponentsOf(e') == old(ComponentsOf(e')) {
        assert componentMasks[e'] == old(componentMasks[e']);
      }
    }

    /** `getComponent<T>(e)`: reads slot e without consulting the mask, so callers check `hasComponent` first. */
    method GetComponent(e: EntityId, k: Kind) returns (c: Component)
      requires Valid() && e < MAX_ENTITIES && k in ComponentsOf(e)
      ensures c == ComponentsOf(e)[k]
      ensures KindOf(c) == k
    {
      c := componentArrays[registry.ids[k]][e];
    }

    /** Assignment through the reference `getComponent<T>(e)` returns: overwrites the slot, mask untouched. */
    method WriteComponent(e: EntityId, c: Component)
      requires Valid() && e < MAX_ENTITIES && HasVector(KindOf(c))
      modifies this`componentArrays
      ensures Valid()
      ensures ComponentsOf(e) ==
        if KindOf(c) in old(ComponentsOf(e)) then old(ComponentsOf(e))[KindOf(c) := c] else old(ComponentsOf(e))
      ensures forall e' | 0 <= e' < MAX_ENTITIES && e' != e :: ComponentsOf(e') == old(ComponentsOf(e'))
      ensures forall k' :: HasVector(k') == old(HasVector(k'))
    {
      var id := registry.ids[KindOf(c)];
      ViewWriteSelf(componentMasks[e], registry.ids, componentArrays, e, KindOf(c), c);
      forall e' | 0 <= e' < MAX_ENTITIES && e' != e
        ensures View(componentMasks[e'], registry.ids, componentArrays[id := componentArrays[id][e := c]], e') == ComponentsOf(e') {
        ViewWriteOther(componentMasks[e'], registry.ids, componentArrays, e, id, e', c);
      }
      componentArrays := componentArrays[id := componentArrays[id][e := c]];
    }

    /** `hasComponent<T>(e)`: T's bit in e's mask (numbering T if this is its first use). */
    method HasComponent(e: EntityId, k: Kind) returns (b: bool)
      requires Valid() && e < MAX_ENTITIES
      modifies registry
      ensures Valid()
      ensures registry.ids == Allocated(old(registry.ids), old(registry.nextComponentId), k)
      ensures b == (k in ComponentsOf(e))
      ensures forall e' | 0 <= e' < MAX_ENTITIES :: ComponentsOf(e') == old(ComponentsOf(e'))
      ensures forall k' :: HasVector(k') == old(HasVector(k'))
    {
      var id := GetComponentId(k);
      b := id in componentMasks[e];
      assert id in componentMasks[e] ==> id in componentArrays && |componentArrays[id]| == MAX_ENTITIES;
    }

    /**
     * Whether `std::any_cast` of T's slot in `componentArrays` succeeds, as it
     * does inside `getComponent<T>` and `getComponents<T>`: T's vector exists.
     * A fresh T is numbered on the way, which creates no vector.
     */
    method VectorExists(k: Kind) returns (b: bool)
      requires Valid()
      modifies registry
      ensures Valid()
      ensures registry.ids == Allocated(old(registry.ids), old(registry.nextComponentId), k)
      ensures b == old(HasVector(k)) && b == HasVector(k)
      ensures forall e' | 0 <= e' < MAX_ENTITIES :: ComponentsOf(e') == old(ComponentsOf(e'))
      ensures forall k' :: HasVector(k') == old(HasVector(k'))
    {
      IdsHandedOut();
      var id := GetComponentId(k);
      b := id in componentArrays;
    }

    /** `getComponentMask(e)`: the bitset, as the set of component ids whose bit is set. */
    method GetComponentMask(e: EntityId) returns (mask: set<nat>)
      requires Valid() && e < MAX_ENTITIES
      ensures forall k | k in registry.ids :: (registry.ids[k] in mask <==> k in ComponentsOf(e))
      ensures forall b | b in mask :: b < registry.nextComponentId
    {
      IdsHandedOut();
      mask := componentMasks[e];
    }

    /** `resetEntityComponents(e)` (declared in no shown header): e loses every component but stays allocated. */
    method ResetEntityComponents(e: EntityId)
      requires Valid() && e < MAX_ENTITIES
      modifies componentMasks
      ensures Valid()
      ensures ComponentsOf(e) == map[]
      ensures forall e' | 0 <= e' < MAX_ENTITIES && e' != e :: ComponentsOf(e') == old(ComponentsOf(e'))
      ensures forall k' :: HasVector(k') == old(HasVector(k'))
    {
      componentMasks[e] := {};
    }

    /** `getComponents<T>().erase(e)` (declared in no shown header): e loses its T component. */
    method EraseComponent(e: EntityId, k: Kind)
      requires Valid() && e < MAX_ENTITIES
      modifies componentMasks, registry
      ensures Valid()
      ensures registry.ids == Allocated(old(registry.ids), old(registry.nextComponentId), k)
      ensures ComponentsOf(e) == old(ComponentsOf(e)) - {k}
      ensures forall e' | 0 <= e' < MAX_ENTITIES && e' != e :: ComponentsOf(e') == old(ComponentsOf(e'))
      ensures forall k' :: HasVector(k') == old(HasVector(k'))
    {
      var id := GetComponentId(k);
      ViewClearBit(componentMasks[e], registry.ids, componentArrays, e, k);
      componentMasks[e] := componentMasks[e] - {id};
      forall e' | 0 <= e' < MAX_ENTITIES && e' != e ensures ComponentsOf(e') == old(ComponentsOf(e')) {
        assert componentMasks[e'] == old(componentMasks[e']);
      }
    }
  }

  /** Popping the last id of a duplicate-free list moves exactly that id into the live set. */
  lemma {:induction false} CreateKeepsPartition(free: seq<EntityId>)
    requires |free| > 0 && NoDuplicates(free) && forall e | e in free :: e < MAX_ENTITIES
    ensures NoDuplicates(free[..|free| - 1])
    ensures free[|free| - 1] !in LiveIds(free)
    ensures LiveIds(free[..|free| - 1]) == LiveIds(free) + {free[|free| - 1]}
  {
    var rest := free[..|free| - 1];
    var id := free[|free| - 1];
    assert forall i | 0 <= i < |rest| :: rest[i] == free[i] && free[i] != id;
    assert forall x :: x in free <==> x in rest || x == id by {
      assert free == rest + [id];
    }
  }

  /** Pushing back an id that was live keeps the free list duplicate-free and makes that id free. */
  lemma {:induction false} DestroyKeepsPartition(free: seq<EntityId>, e: EntityId)
    requires NoDuplicates(free) && e < MAX_ENTITIES && e in LiveIds(free)
    ensures NoDuplicates(free + [e])
    ensures LiveIds(free + [e]) == LiveIds(free) - {e}
  {
    assert forall x :: x in free + [e] <==> x in free || x == e;
  }
}
