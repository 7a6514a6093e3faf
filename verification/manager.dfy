/** `EC::Manager`, sequential paths: the entity table, its size and capacity,
    the set of deleted ids, per-entity components and tags, and the store of
    functions to call later.

    Every operation is a pure function from the old manager to the new one.
    Component values live in storage that grows with the entity table; only
    their position is modelled (`DataRef`), not their contents. */
module EntityManager {
  import opened Wrappers
  import opened Meta
  import opened Bitsets
  import opened FunctionStore

  /** `EC_INIT_ENTITIES_SIZE`: the capacity of a new or reset manager. */
  const InitEntitiesSize: nat := 256

  /** `EC_GROW_SIZE_AMOUNT`: capacity is added in steps of this size. */
  const GrowSizeAmount: nat := 256

  /** One row of the entity table: the alive flag and the component/tag bits. */
  datatype Entity = Entity(alive: bool, bits: Bits)

  datatype Manager = Manager(
    layout: Layout,
    entities: seq<Entity>,
    size: nat,
    capacity: nat,
    deleted: set<nat>,
    registry: Registry)

  /** A row as `resize` writes it: not alive, no bits. */
  function FreshEntity(l: Layout): (e: Entity)
    ensures !e.alive && WellFormed(l, e.bits)
  {
    Entity(false, NewBitset(l))
  }

  /** The ids `0 .. n-1`. */
  function Range(n: nat): (r: set<nat>)
    ensures forall i: nat :: i in r <==> i < n
  {
    if n == 0 then {} else Range(n - 1) + {n - 1}
  }

  /** The table has `capacity` rows, a positive multiple of the grow step,
      at least `size` of them, and every bitset has the extra bit clear. */
  ghost predicate TableShape(m: Manager)
  {
    && |m.entities| == m.capacity
    && 0 < m.capacity && m.capacity % GrowSizeAmount == 0
    && m.size <= m.capacity
    && (forall i :: 0 <= i < |m.entities| ==> WellFormed(m.layout, m.entities[i].bits))
  }

  /** Below `size` an id is deleted exactly when it is not alive, and a dead
      row has no bits; rows from `size` on are fresh. */
  ghost predicate DeletedAgrees(m: Manager)
    requires |m.entities| == m.capacity && m.size <= m.capacity
  {
    && m.deleted <= Range(m.size)
    && (forall i :: 0 <= i < m.size ==> (i in m.deleted <==> !m.entities[i].alive))
    && (forall i :: 0 <= i < m.size && !m.entities[i].alive ==> m.entities[i] == FreshEntity(m.layout))
    && (forall i :: m.size <= i < |m.entities| ==> m.entities[i] == FreshEntity(m.layout))
  }

  /** Stored keys are below the counter and stored signatures have the
      manager's width. */
  ghost predicate RegistryFits(m: Manager)
  {
    && RegistryValid(m.registry)
    && (forall k :: k in m.registry.functions ==> WellFormed(m.layout, m.registry.functions[k].signature))
  }

  /** The invariant every public operation keeps. */
  ghost predicate Valid(m: Manager)
  {
    TableShape(m) && DeletedAgrees(m) && RegistryFits(m)
  }

  /** `resize`: grow the table to `newCapacity` rows. Rows below the old
      capacity are kept, new rows are fresh; a capacity already large enough
      changes nothing. */
  function Resize(m: Manager, newCapacity: nat): (r: Manager)
    ensures r.capacity == if m.capacity >= newCapacity then m.capacity else newCapacity
    ensures m.capacity >= newCapacity ==> r == m
    ensures m.capacity < newCapacity ==> |r.entities| == newCapacity
    ensures m.capacity < newCapacity ==> forall i :: 0 <= i < newCapacity ==>
      r.entities[i] == if i < m.capacity && i < |m.entities| then m.entities[i] else FreshEntity(m.layout)
    ensures r.layout == m.layout && r.size == m.size && r.deleted == m.deleted && r.registry == m.registry
  {
    if m.capacity >= newCapacity then m
    else
      m.(entities := seq(newCapacity, i requires 0 <= i < newCapacity =>
                           if i < m.capacity && i < |m.entities| then m.entities[i] else FreshEntity(m.layout)),
         capacity := newCapacity)
  }

  /** Growing a valid manager by a multiple of the grow step keeps it valid. */
  lemma ResizeKeepsValid(m: Manager, newCapacity: nat)
    requires Valid(m)
    requires newCapacity % GrowSizeAmount == 0
    ensures Valid(Resize(m, newCapacity))
  {
  }

  /** The `Manager()` constructor: no entities, 256 fresh rows, no stored
      functions. */
  function New(l: Layout): (m: Manager)
    ensures Valid(m)
    ensures m.layout == l && m.size == 0 && m.capacity == InitEntitiesSize
    ensures m.deleted == {} && m.registry == EmptyRegistry()
    ensures forall i :: 0 <= i < |m.entities| ==> m.entities[i] == FreshEntity(l)
  {
    Resize(Manager(l, [], 0, 0, {}, EmptyRegistry()), InitEntitiesSize)
  }

  /** `reset`: clear the stored functions, forget every entity, and rebuild
      the table at the initial capacity. */
  function Reset(m: Manager): (r: Manager)
    ensures r.layout == m.layout && r.size == 0 && r.capacity == InitEntitiesSize
    ensures r.deleted == {} && r.registry == EmptyRegistry()
  {
    Resize(m.(size := 0, capacity := 0, deleted := {}, registry := EmptyRegistry()), InitEntitiesSize)
  }

  /** Whatever the manager held before, a reset one equals a new one; in
      particular a reset shrinks a grown table back to 256 rows. */
  lemma ResetIsNew(m: Manager)
    ensures Reset(m) == New(m.layout)
    ensures Valid(Reset(m))
  {
    assert Reset(m).entities == New(m.layout).entities;
  }

  /** `hasEntity`: the id has been handed out, deleted or not: in a valid
      manager, exactly the alive ids and the deleted ones. */
  function HasEntity(m: Manager, id: nat): (r: bool)
    ensures r <==> id < m.size
    ensures Valid(m) ==> (r <==> id in m.deleted || (id < |m.entities| && m.entities[id].alive))
  {
    id < m.size
  }

  /** `isAlive`: handed out and not deleted. */
  function IsAlive(m: Manager, id: nat): (r: bool)
    requires Valid(m)
    ensures r <==> id < m.size && id !in m.deleted
    ensures r ==> HasEntity(m, id)
  {
    HasEntity(m, id) && m.entities[id].alive
  }

  /** The ids that `isAlive` accepts. */
  ghost function AliveIds(m: Manager): set<nat>
    requires Valid(m)
  {
    set i: nat | i < m.size && IsAlive(m, i)
  }

  lemma {:induction false} RangeSize(n: nat)
    ensures |Range(n)| == n
  {
    if n > 0 {
      RangeSize(n - 1);
      var below := Range(n - 1);
      assert n - 1 !in below;
      assert Range(n) == below + {n - 1};
    }
  }

  /** `getCurrentSize`: the number of alive entities, computed as the size
      minus the number of deleted ids. */
  function GetCurrentSize(m: Manager): (r: nat)
    requires Valid(m)
    ensures r == |AliveIds(m)|
    ensures r <= m.size
  {
    RangeSize(m.size);
    assert AliveIds(m) == Range(m.size) - m.deleted;
    assert |m.deleted| <= m.size by {
      SubsetSize(m.deleted, Range(m.size));
    }
    m.size - |m.deleted|
  }

  lemma SubsetSize(a: set<nat>, b: set<nat>)
    requires a <= b
    ensures |b - a| == |b| - |a|
  {
    assert b == (b - a) + a;
  }

  /** `getCurrentCapacity`. */
  function GetCurrentCapacity(m: Manager): (r: nat)
    requires Valid(m)
    ensures m.size <= r && 0 < r && r % GrowSizeAmount == 0
  {
    m.capacity
  }

  /** Result of `addEntity`: the new manager and the id handed out. */
  datatype Added = Added(manager: Manager, id: nat)

  /** The growth step of `addEntity`: a full table gains one grow step of
      fresh rows, so that row `size` exists and is fresh. */
  function Grow(m: Manager): (r: Manager)
    requires Valid(m)
    ensures Valid(r)
    ensures r.capacity == (if m.size == m.capacity then m.capacity + GrowSizeAmount else m.capacity)
    ensures m.size < r.capacity && r.entities[m.size] == FreshEntity(m.layout)
    ensures forall i :: 0 <= i < |m.entities| ==> r.entities[i] == m.entities[i]
    ensures r.layout == m.layout && r.size == m.size && r.deleted == m.deleted && r.registry == m.registry
  {
    if m.size == m.capacity then
      ResizeKeepsValid(m, m.capacity + GrowSizeAmount);
      Resize(m, m.capacity + GrowSizeAmount)
    else m
  }

  /** The branch of `addEntity` with no deleted id: grow when full, then
      bring id `size` to life. */
  function AddAtEnd(m: Manager): (r: Added)
    requires Valid(m) && m.deleted == {}
    ensures Valid(r.manager)
    ensures IsAlive(r.manager, r.id) && !IsAlive(m, r.id)
    ensures r.id == m.size && r.manager.size == m.size + 1
    ensures r.manager.capacity == (if m.size == m.capacity then m.capacity + GrowSizeAmount else m.capacity)
    ensures r.manager.deleted == {}
    ensures r.manager.entities[r.id].bits == NewBitset(m.layout)
    ensures forall i :: 0 <= i < |m.entities| && i != r.id ==> r.manager.entities[i] == m.entities[i]
    ensures r.manager.layout == m.layout && r.manager.registry == m.registry
  {
    var grown := Grow(m);
    var id := m.size;
    Added(grown.(entities := grown.entities[id := grown.entities[id].(alive := true)], size := id + 1), id)
  }

  /** The branch of `addEntity` that takes a deleted id back. */
  function Revive(m: Manager, reuse: nat): (r: Added)
    requires Valid(m) && reuse in m.deleted
    ensures Valid(r.manager)
    ensures IsAlive(r.manager, r.id) && !IsAlive(m, r.id)
    ensures r.id == reuse && r.manager.deleted == m.deleted - {reuse}
    ensures r.manager.size == m.size && r.manager.capacity == m.capacity
    ensures r.manager.entities[r.id].bits == NewBitset(m.layout)
    ensures forall i :: 0 <= i < |m.entities| && i != r.id ==> r.manager.entities[i] == m.entities[i]
    ensures r.manager.layout == m.layout && r.manager.registry == m.registry
  {
    Added(m.(entities := m.entities[reuse := m.entities[reuse].(alive := true)],
             deleted := m.deleted - {reuse}), reuse)
  }

  /** `addEntity`: reuse a deleted id when there is one, otherwise append.
      The deleted ids are kept in an unordered set, so which one comes back
      first is a parameter: `reuse` stands for the element its iteration
      yields first. */
  function AddEntity(m: Manager, reuse: nat): (r: Added)
    requires Valid(m)
    requires m.deleted != {} ==> reuse in m.deleted
    ensures Valid(r.manager)
    ensures IsAlive(r.manager, r.id) && !IsAlive(m, r.id)
    ensures m.deleted == {} ==>
      && r.id == m.size
      && r.manager.size == m.size + 1
      && r.manager.capacity == (if m.size == m.capacity then m.capacity + GrowSizeAmount else m.capacity)
      && r.manager.deleted == {}
    ensures m.deleted != {} ==>
      && r.id == reuse
      && r.manager.deleted == m.deleted - {reuse}
      && r.manager.size == m.size
      && r.manager.capacity == m.capacity
    ensures r.manager.entities[r.id].bits == NewBitset(m.layout)
    ensures forall i :: 0 <= i < |m.entities| && i != r.id ==> r.manager.entities[i] == m.entities[i]
    ensures r.manager.layout == m.layout && r.manager.registry == m.registry
  {
    if m.deleted == {} then AddAtEnd(m) else Revive(m, reuse)
  }

  /** One more live entity after every `addEntity`. */
  lemma AddEntityCounts(m: Manager, reuse: nat)
    requires Valid(m)
    requires m.deleted != {} ==> reuse in m.deleted
    ensures GetCurrentSize(AddEntity(m, reuse).manager) == GetCurrentSize(m) + 1
  {
    var r := AddEntity(m, reuse).manager;
    if m.deleted == {} {
      assert |r.deleted| == |m.deleted|;
    } else {
      assert m.deleted == r.deleted + {reuse};
    }
  }

  /** `deleteEntity`: an id that has been handed out becomes not alive,
      loses its bits and joins the deleted set; any other id changes nothing. */
  function DeleteEntity(m: Manager, id: nat): (r: Manager)
    requires Valid(m)
    ensures Valid(r)
    ensures id >= m.size ==> r == m
    ensures id < m.size ==>
      (!IsAlive(r, id) && r.deleted == m.deleted + {id} && r.entities[id] == FreshEntity(m.layout))
    ensures |r.entities| == |m.entities|
    ensures forall i :: 0 <= i < |m.entities| && i != id ==> r.entities[i] == m.entities[i]
    ensures r.layout == m.layout && r.size == m.size && r.capacity == m.capacity && r.registry == m.registry
  {
    if HasEntity(m, id) then
      m.(entities := m.entities[id := Entity(false, NewBitset(m.layout))], deleted := m.deleted + {id})
    else m
  }

  /** Deleting twice is deleting once. */
  lemma DeleteIdempotent(m: Manager, id: nat)
    requires Valid(m)
    ensures DeleteEntity(DeleteEntity(m, id), id) == DeleteEntity(m, id)
  {
    if id < m.size {
      var d := DeleteEntity(m, id);
      assert d.entities[id := FreshEntity(m.layout)] == d.entities;
    }
  }

  /** Deleting an entity that is already dead changes nothing. */
  lemma DeleteDeadIsNoOp(m: Manager, id: nat)
    requires Valid(m)
    requires !IsAlive(m, id)
    ensures DeleteEntity(m, id) == m
  {
    if id < m.size {
      assert m.entities[id := FreshEntity(m.layout)] == m.entities;
    }
  }

  /** A recycled id starts without components or tags. */
  lemma RecycledIdHasNoBits(m: Manager, id: nat, reuse: nat, t: TypeId)
    requires Valid(m)
    requires id < m.size
    requires DeleteEntity(m, id).deleted != {} ==> reuse in DeleteEntity(m, id).deleted
    ensures var a := AddEntity(DeleteEntity(m, id), reuse);
      HasType(a.manager, t, a.id) == Some(false)
  {
  }

  /** `getEntityInfo`: the row of the table; `at` throws beyond the table.
      The flag is the entity's aliveness and the bitset holds its components
      and tags, read as `hasComponent` and `hasTag` read them. */
  function GetEntityInfo(m: Manager, id: nat): (r: Option<Entity>)
    ensures r.Some? <==> id < |m.entities|
    ensures r.Some? ==> r.value == m.entities[id]
    ensures Valid(m) ==> (r.Some? <==> id < m.capacity)
    ensures Valid(m) && r.Some? ==>
      && (r.value.alive <==> IsAlive(m, id))
      && WellFormed(m.layout, r.value.bits)
      && (forall t :: HasType(m, t, id) == Some(TypeBit(m.layout, r.value.bits, t)))
  {
    if id < |m.entities| then Some(m.entities[id]) else None
  }

  /** `hasComponent` and `hasTag`: read the bit of type `t` of the row; both
      index components followed by tags. `None` stands for the exception `at`
      throws beyond the table. */
  function HasType(m: Manager, t: TypeId, id: nat): (r: Option<bool>)
    requires Valid(m)
    ensures r.Some? <==> id < m.capacity
    ensures r.Some? && r.value ==> t in m.layout.Combined() && IsAlive(m, id)
  {
    if id < |m.entities| then Some(TypeBit(m.layout, m.entities[id].bits, t)) else None
  }

  /** Where `getEntityData` points: nowhere, or at the storage slot of
      component number `component` for entity `id`. */
  datatype DataRef = NullRef | ComponentRef(component: nat, id: nat)

  /** `getEntityData` / `getEntityComponent`: an unknown component type gives
      a null pointer for any id; a known one gives the slot of the entity,
      whether or not the entity has the component, and `at` throws (`None`)
      beyond the storage. */
  function GetEntityData(m: Manager, t: TypeId, id: nat): (r: Option<DataRef>)
    requires Valid(m)
    ensures t !in m.layout.components ==> r == Some(NullRef)
    ensures t in m.layout.components ==>
      (r.Some? <==> id < m.capacity)
      && (r.Some? ==>
            (r.value.ComponentRef? && r.value.id == id && r.value.component < |m.layout.components|
             && m.layout.components[r.value.component] == t))
  {
    var c := IndexOf(t, m.layout.components);
    if c < |m.layout.components| then
      if id < |m.entities| then Some(ComponentRef(c, id)) else None
    else Some(NullRef)
  }

  /** The guarded bit write shared by the four component and tag edits: when
      `t` is in `known` and the entity is alive, set the bit of `t` to `v`;
      otherwise nothing changes. */
  function SetBitIf(m: Manager, known: TypeList, t: TypeId, id: nat, v: bool): (r: Manager)
    requires Valid(m)
    requires known == m.layout.components || known == m.layout.tags
    ensures Valid(r)
    ensures !(t in known && IsAlive(m, id)) ==> r == m
    ensures t in known && IsAlive(m, id) ==>
      && id < |r.entities|
      && |r.entities[id].bits| == |m.entities[id].bits|
      && TypeBit(r.layout, r.entities[id].bits, t) == v
      && r.entities[id].alive
      && forall b :: 0 <= b < |m.entities[id].bits| && b != BitIndex(m.layout, t) ==>
           r.entities[id].bits[b] == m.entities[id].bits[b]
    ensures |r.entities| == |m.entities|
    ensures forall i :: 0 <= i < |m.entities| && i != id ==> r.entities[i] == m.entities[i]
    ensures r.layout == m.layout && r.size == m.size && r.capacity == m.capacity
    ensures r.deleted == m.deleted && r.registry == m.registry
  {
    if !Contains(t, known) || !IsAlive(m, id) then m
    else
      var e := m.entities[id];
      assert t in m.layout.Combined();
      assert WellFormed(m.layout, SetTypeBit(m.layout, e.bits, t, v));
      m.(entities := m.entities[id := e.(bits := SetTypeBit(m.layout, e.bits, t, v))])
  }

  /** `addComponent<T>`: the entity gains component `T`. */
  function AddComponent(m: Manager, t: TypeId, id: nat): (r: Manager)
    requires Valid(m)
    ensures Valid(r)
    ensures t in m.layout.components && IsAlive(m, id) ==> HasType(r, t, id) == Some(true)
    ensures !(t in m.layout.components && IsAlive(m, id)) ==> r == m
  {
    SetBitIf(m, m.layout.components, t, id, true)
  }

  /** `removeComponent<T>`: the entity loses component `T`. */
  function RemoveComponent(m: Manager, t: TypeId, id: nat): (r: Manager)
    requires Valid(m)
    ensures Valid(r)
    ensures t in m.layout.components && IsAlive(m, id) ==> HasType(r, t, id) == Some(false)
    ensures !(t in m.layout.components && IsAlive(m, id)) ==> r == m
  {
    SetBitIf(m, m.layout.components, t, id, false)
  }

  /** `addTag<T>`: the entity gains tag `T`. */
  function AddTag(m: Manager, t: TypeId, id: nat): (r: Manager)
    requires Valid(m)
    ensures Valid(r)
    ensures t in m.layout.tags && IsAlive(m, id) ==> HasType(r, t, id) == Some(true)
    ensures !(t in m.layout.tags && IsAlive(m, id)) ==> r == m
  {
    SetBitIf(m, m.layout.tags, t, id, true)
  }

  /** `removeTag<T>`: the entity loses tag `T`. */
  function RemoveTag(m: Manager, t: TypeId, id: nat): (r: Manager)
    requires Valid(m)
    ensures Valid(r)
    ensures t in m.layout.tags && IsAlive(m, id) ==> HasType(r, t, id) == Some(false)
    ensures !(t in m.layout.tags && IsAlive(m, id)) ==> r == m
  {
    SetBitIf(m, m.layout.tags, t, id, false)
  }

  /** Removing a component just added restores the entity's bits, provided
      it did not have the component before. */
  lemma AddThenRemoveComponent(m: Manager, t: TypeId, id: nat)
    requires Valid(m)
    requires HasType(m, t, id) == Some(false)
    ensures RemoveComponent(AddComponent(m, t, id), t, id) == m
  {
    if t in m.layout.components && IsAlive(m, id) {
      var r := RemoveComponent(AddComponent(m, t, id), t, id);
      assert r.entities[id].bits == m.entities[id].bits;
      assert r.entities == m.entities;
    }
  }

  /** `addForMatchingFunction<Signature>`: store the callback with the
      generated signature bitset and the context under a fresh key. */
  function AddForMatchingFunction(m: Manager, signature: TypeList, callback: CallbackId, context: Context): (r: (Manager, nat))
    requires Valid(m)
    ensures Valid(r.0)
    ensures r.1 == m.registry.next && r.0.registry.next == r.1 + 1
    ensures r.1 !in m.registry.functions
    ensures r.0.registry.functions ==
      m.registry.functions[r.1 := StoredFunction(GenerateBitset(m.layout, signature), context, callback)]
    ensures r.0.entities == m.entities && r.0.size == m.size && r.0.deleted == m.deleted
  {
    AddUsesCounter(m.registry, StoredFunction(GenerateBitset(m.layout, signature), context, callback));
    var (reg, key) := Add(m.registry, StoredFunction(GenerateBitset(m.layout, signature), context, callback));
    (m.(registry := reg), key)
  }

  /** `clearForMatchingFunctions`: drop every stored function and reset the
      key counter. */
  function ClearForMatchingFunctions(m: Manager): (r: Manager)
    requires Valid(m)
    ensures Valid(r)
    ensures r.registry.functions == map[] && r.registry.next == 0
    ensures r.entities == m.entities && r.size == m.size && r.deleted == m.deleted
  {
    m.(registry := EmptyRegistry())
  }

  /** Any registry edit that keeps the counter and only drops keys or changes
      contexts keeps the manager valid; this covers `remove`, `delete`,
      `keepSome`, `removeSome` and `changeForMatchingFunctionContext`. */
  lemma RegistryEditKeepsValid(m: Manager, reg: Registry)
    requires Valid(m)
    requires reg.next == m.registry.next
    requires reg.functions.Keys <= m.registry.functions.Keys
    requires forall k :: k in reg.functions ==> reg.functions[k].signature == m.registry.functions[k].signature
    ensures Valid(m.(registry := reg))
  {
  }
}
