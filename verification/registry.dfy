/** AvaloniaPropertyRegistry: per-type tables of own and attached properties, a global
    id -> property index, and four per-type caches derived from the tables. The registry is an
    immutable value here; every operation returns the registry it leaves behind. Its class
    invariant, `Coherent`, says every cached entry equals a fresh computation from the
    current tables. */
module PropertyRegistry {
  import opened Wrappers
  import opened Exceptions
  import opened Sequences
  import opened Dictionaries
  import opened TypeHierarchy
  import opened Properties
  import opened ReadOnlyLists
  import opened RegistryViews
  import ReadOnlyListExtensions
  import PropertySetPool

  datatype Registry = Registry(
    properties: map<int, Property>,                                 // _properties
    registered: map<TypeId, Table>,                                 // _registered
    attached: map<TypeId, Table>,                                   // _attached
    registeredCache: map<TypeId, seq<Property>>,                    // _registeredCache
    attachedCache: map<TypeId, seq<Property>>,                      // _attachedCache
    initializedCache: map<TypeId, seq<PropertyInitializationData>>, // _initializedCache
    inheritedCache: map<TypeId, seq<Property>>,                     // _inheritedCache
    pool: PropertySetPool.Pool)                                     // _propertySetPool

  /** The registry as constructed (`Instance`). */
  function Create(): Registry {
    Registry(map[], map[], map[], map[], map[], map[], map[], PropertySetPool.Create())
  }

  // ---------------------------------------------------------------------------------------
  // The class invariant

  /** The tables and the global index are well formed; every own-registered id is indexed. */
  ghost predicate WellFormed(host: Host, r: Registry) {
    && host.hierarchy.Valid()
    && TablesValid(r.registered)
    && TablesValid(r.attached)
    && (forall id :: id in r.properties ==> r.properties[id].id == id)
    && (forall t, id :: t in r.registered && id in r.registered[t].entries ==> id in r.properties)
  }

  /** Every entry of a list cache is the walk over `tables` from its type. */
  ghost predicate ViewsFresh(h: Hierarchy, tables: map<TypeId, Table>, cache: map<TypeId, seq<Property>>)
    requires h.Valid() && TablesValid(tables)
  {
    forall t :: t in cache ==> cache[t] == View(h, tables, t)
  }

  /** Every entry of the inherited cache is computed from the two fresh walks. */
  ghost predicate InheritedFresh(h: Hierarchy, registered: map<TypeId, Table>, attached: map<TypeId, Table>,
                                 cache: map<TypeId, seq<Property>>)
    requires h.Valid() && TablesValid(registered) && TablesValid(attached)
  {
    forall t :: t in cache ==> cache[t] == InheritedView(View(h, registered, t), View(h, attached, t))
  }

  /** Every entry of the initialisation cache is the plan built from the two fresh walks. */
  ghost predicate PlansFresh(host: Host, registered: map<TypeId, Table>, attached: map<TypeId, Table>,
                             cache: map<TypeId, seq<PropertyInitializationData>>)
    requires host.hierarchy.Valid() && TablesValid(registered) && TablesValid(attached)
  {
    forall t :: t in cache ==>
      cache[t] == Plan(host, t, View(host.hierarchy, registered, t), View(host.hierarchy, attached, t))
  }

  /** Every cached view equals a fresh computation from the current tables, and every pooled
      scratch set is empty. */
  ghost predicate Coherent(host: Host, r: Registry) {
    && WellFormed(host, r)
    && ViewsFresh(host.hierarchy, r.registered, r.registeredCache)
    && ViewsFresh(host.hierarchy, r.attached, r.attachedCache)
    && InheritedFresh(host.hierarchy, r.registered, r.attached, r.inheritedCache)
    && PlansFresh(host, r.registered, r.attached, r.initializedCache)
    && PropertySetPool.AllClear(r.pool)
  }

  ghost function FreshRegistered(host: Host, r: Registry, t: TypeId): seq<Property>
    requires WellFormed(host, r)
  {
    View(host.hierarchy, r.registered, t)
  }

  ghost function FreshAttached(host: Host, r: Registry, t: TypeId): seq<Property>
    requires WellFormed(host, r)
  {
    View(host.hierarchy, r.attached, t)
  }

  ghost function FreshInherited(host: Host, r: Registry, t: TypeId): seq<Property>
    requires WellFormed(host, r)
  {
    InheritedView(FreshRegistered(host, r, t), FreshAttached(host, r, t))
  }

  ghost function FreshPlan(host: Host, r: Registry, t: TypeId): seq<PropertyInitializationData>
    requires WellFormed(host, r)
  {
    Plan(host, t, FreshRegistered(host, r, t), FreshAttached(host, r, t))
  }

  /** The pool after a query that builds a list for `t`: a scratch set is rented exactly when
      one of the two walks is non-empty, and it always comes back. */
  ghost function PoolAfterBuild(host: Host, r: Registry, t: TypeId): PropertySetPool.Pool
    requires WellFormed(host, r)
  {
    if |FreshRegistered(host, r, t)| + |FreshAttached(host, r, t)| > 0 then PropertySetPool.Restored(r.pool) else r.pool
  }

  /** A query changed no table and no index entry. */
  ghost predicate SameTables(r: Registry, r': Registry) {
    r'.properties == r.properties && r'.registered == r.registered && r'.attached == r.attached
  }

  /** Replacing the pool by one whose sets are all empty keeps the registry coherent. */
  lemma ReplacePool(host: Host, r: Registry, pool: PropertySetPool.Pool)
    requires Coherent(host, r) && PropertySetPool.AllClear(pool)
    ensures Coherent(host, r.(pool := pool))
  {
  }

  /** Storing a fresh inherited list keeps the registry coherent. */
  lemma CacheInherited(host: Host, r: Registry, t: TypeId, inherited: seq<Property>)
    requires Coherent(host, r) && inherited == FreshInherited(host, r, t)
    ensures Coherent(host, r.(inheritedCache := r.inheritedCache[t := inherited]))
  {
  }

  /** Storing a fresh plan keeps the registry coherent. */
  lemma CachePlan(host: Host, r: Registry, t: TypeId, plan: seq<PropertyInitializationData>)
    requires Coherent(host, r) && plan == FreshPlan(host, r, t)
    ensures Coherent(host, r.(initializedCache := r.initializedCache[t := plan]))
  {
  }

  /** New own tables and index, with the caches `Register` clears cleared, keep the registry
      coherent as long as the tables and the index stay well formed. */
  lemma ClearOwnCaches(host: Host, r: Registry, registered: map<TypeId, Table>, properties: map<int, Property>)
    requires Coherent(host, r) && TablesValid(registered)
    requires forall id :: id in properties ==> properties[id].id == id
    requires forall t, id :: t in registered && id in registered[t].entries ==> id in properties
    ensures Coherent(host, r.(registered := registered, properties := properties,
                              registeredCache := map[], initializedCache := map[], inheritedCache := map[]))
  {
  }

  // ---------------------------------------------------------------------------------------
  // Registration

  /** Adding `p` to the table of `t` (creating it when missing), as both registration paths
      do; DuplicateKey when the id is already there. */
  function AddToTable(tables: map<TypeId, Table>, t: TypeId, p: Property): (result: Result<map<TypeId, Table>, Exception>)
    requires TablesValid(tables)
    ensures result.Failure? <==> t in tables && p.id in tables[t].entries
    ensures result.Failure? ==> result.error == DuplicateKey
    ensures result.Success? ==>
              && TablesValid(result.value)
              && t in result.value
              && result.value[t].entries == (if t in tables then tables[t].entries else map[])[p.id := p]
              && OwnValues(result.value, t) == OwnValues(tables, t) + [p]
              && result.value - {t} == tables - {t}
  {
    var table := if t in tables then tables[t] else Empty();
    match table.Add(p.id, p)
    case Failure(e) => Failure(e)
    case Success(inner) => Success(tables[t := inner])
  }

  /** The table update of `Register`: `p` goes into `t`'s table only when its id is not
      already there, so the first property stored under an id stays. */
  function AddIfAbsent(tables: map<TypeId, Table>, t: TypeId, p: Property): (r: map<TypeId, Table>)
    requires TablesValid(tables)
    ensures TablesValid(r) && t in r && p.id in r[t].entries
    ensures r[t].entries[p.id] == if t in tables && p.id in tables[t].entries then tables[t].entries[p.id] else p
    ensures t in tables && p.id in tables[t].entries ==> r == tables
    ensures !(t in tables && p.id in tables[t].entries) ==> OwnValues(r, t) == OwnValues(tables, t) + [p]
    ensures r - {t} == tables - {t}
    ensures forall u, id :: u in r && id in r[u].entries ==>
              (u == t && id == p.id) || (u in tables && id in tables[u].entries)
  {
    match AddToTable(tables, t, p)
    case Success(added) =>
      assert forall u :: u in added && u != t ==> u in tables && added[u] == tables[u] by {
        forall u | u in added && u != t
          ensures u in tables && added[u] == tables[u]
        {
          assert u in added - {t};
        }
      }
      added
    case Failure(_) => tables
  }

  /** The index update of `Register`: the id is indexed only when it is new. */
  function IndexIfAbsent(properties: map<int, Property>, p: Property): (r: map<int, Property>)
    ensures r.Keys == properties.Keys + {p.id}
    ensures r[p.id] == if p.id in properties then properties[p.id] else p
    ensures forall id :: id in properties ==> r[id] == properties[id]
  {
    if p.id !in properties then properties[p.id := p] else properties
  }

  /** After `Register`'s two updates every own-registered id is still indexed, under its own id. */
  lemma IndexStaysComplete(host: Host, r: Registry, t: TypeId, p: Property)
    requires WellFormed(host, r)
    ensures var properties := IndexIfAbsent(r.properties, p);
            && (forall id :: id in properties ==> properties[id].id == id)
            && (forall u, id :: u in AddIfAbsent(r.registered, t, p) && id in AddIfAbsent(r.registered, t, p)[u].entries ==> id in properties)
  {
  }

  /** `Register`: adds `p` to `t`'s own table unless its id is already there (the first
      property stored wins), indexes the id if it is new, and clears the registered,
      initialized and inherited caches. The attached side is untouched. */
  function Register(host: Host, r: Registry, t: TypeId, p: Property): (r': Registry)
    requires Coherent(host, r)
    ensures Coherent(host, r')
    ensures r'.registered == AddIfAbsent(r.registered, t, p)
    ensures r'.properties == IndexIfAbsent(r.properties, p)
    ensures r'.attached == r.attached && r'.attachedCache == r.attachedCache
    ensures r'.registeredCache == map[] && r'.initializedCache == map[] && r'.inheritedCache == map[]
    ensures r'.pool == r.pool
  {
    var registered := AddIfAbsent(r.registered, t, p);
    var properties := IndexIfAbsent(r.properties, p);
    IndexStaysComplete(host, r, t, p);
    ClearOwnCaches(host, r, registered, properties);
    r.(registered := registered, properties := properties,
       registeredCache := map[], initializedCache := map[], inheritedCache := map[])
  }

  /** `RegisterAttached`: throws InvalidOperation for a non-attached property and DuplicateKey
      (Dictionary.Add) for an id already in `t`'s attached table; both before any change.
      Otherwise appends `p` to that table and clears the attached, initialized and inherited
      caches. The own tables, the global index and the registered cache are untouched. */
  function RegisterAttached(host: Host, r: Registry, t: TypeId, p: Property): (result: Result<Registry, Exception>)
    requires Coherent(host, r)
    ensures !p.isAttached ==> result == Failure(InvalidOperation)
    ensures p.isAttached && t in r.attached && p.id in r.attached[t].entries ==> result == Failure(DuplicateKey)
    ensures result.Success? <==> p.isAttached && !(t in r.attached && p.id in r.attached[t].entries)
    ensures result.Success? ==> Coherent(host, result.value)
    ensures result.Success? ==> OwnValues(result.value.attached, t) == OwnValues(r.attached, t) + [p]
    ensures result.Success? ==> result.value.attached - {t} == r.attached - {t}
    ensures result.Success? ==>
              && result.value.registered == r.registered
              && result.value.properties == r.properties
              && result.value.registeredCache == r.registeredCache
    ensures result.Success? ==>
              result.value.attachedCache == map[] && result.value.initializedCache == map[] && result.value.inheritedCache == map[]
  {
    if !p.isAttached then Failure(InvalidOperation)
    else
      match AddToTable(r.attached, t, p)
      case Failure(e) => Failure(e)
      case Success(tables) =>
        Success(r.(attached := tables, attachedCache := map[], initializedCache := map[], inheritedCache := map[]))
  }

  // ---------------------------------------------------------------------------------------
  // Queries

  /** `GetRegistered(type)`: the own properties of the type and its ancestors, served from the
      cache when present and cached otherwise. */
  method GetRegistered(host: Host, r: Registry, t: TypeId) returns (r': Registry, result: ReadOnlyList<Property>)
    requires Coherent(host, r)
    ensures Coherent(host, r') && SameTables(r, r')
    ensures result.inner == FreshRegistered(host, r, t)
    ensures r' == r.(registeredCache := r.registeredCache[t := result.inner])
  {
    if t in r.registeredCache {
      return r, From(r.registeredCache[t]);
    }
    var collected := CollectAlongBaseTypes(host.hierarchy, r.registered, t);
    r' := r.(registeredCache := r.registeredCache[t := collected]);
    result := From(collected);
  }

  /** `GetRegisteredAttached(type)`: the attached properties of the type and its ancestors. */
  method GetRegisteredAttached(host: Host, r: Registry, t: TypeId) returns (r': Registry, result: ReadOnlyList<Property>)
    requires Coherent(host, r)
    ensures Coherent(host, r') && SameTables(r, r')
    ensures result.inner == FreshAttached(host, r, t)
    ensures r' == r.(attachedCache := r.attachedCache[t := result.inner])
  {
    if t in r.attachedCache {
      return r, From(r.attachedCache[t]);
    }
    var collected := CollectAlongBaseTypes(host.hierarchy, r.attached, t);
    r' := r.(attachedCache := r.attachedCache[t := collected]);
    result := From(collected);
  }

  /** `GetRegisteredInherited(type)`: the inheriting own properties in order, then the
      inheriting attached ones not already among the own ones, de-duplicated through a set
      rented from the pool and returned to it cleared. */
  method GetRegisteredInherited(host: Host, r: Registry, t: TypeId) returns (r': Registry, result: ReadOnlyList<Property>)
    requires Coherent(host, r)
    ensures Coherent(host, r') && SameTables(r, r')
    ensures result.inner == FreshInherited(host, r, t)
    ensures t in r.inheritedCache ==> r' == r
    ensures t !in r.inheritedCache ==>
              r' == r.(registeredCache := r.registeredCache[t := FreshRegistered(host, r, t)],
                       attachedCache := r.attachedCache[t := FreshAttached(host, r, t)],
                       inheritedCache := r.inheritedCache[t := result.inner],
                       pool := PoolAfterBuild(host, r, t))
  {
    if t in r.inheritedCache {
      return r, From(r.inheritedCache[t]);
    }
    var r1, registered := GetRegistered(host, r, t);
    var r2, attached := GetRegisteredAttached(host, r1, t);
    var inherited;
    r', inherited := CacheInheritedFrom(host, r2, t, registered.inner, attached.inner);
    result := From(inherited);
  }

  /** The miss path of `GetRegisteredInherited` after the two walks: collects the inheriting
      properties with a rented scratch set (none when both walks are empty) and caches them. */
  method CacheInheritedFrom(host: Host, r: Registry, t: TypeId, registered: seq<Property>, attached: seq<Property>)
    returns (r': Registry, inherited: seq<Property>)
    requires Coherent(host, r)
    requires registered == FreshRegistered(host, r, t) && attached == FreshAttached(host, r, t)
    ensures Coherent(host, r') && SameTables(r, r')
    ensures inherited == FreshInherited(host, r, t)
    ensures r' == r.(inheritedCache := r.inheritedCache[t := inherited], pool := PoolAfterBuild(host, r, t))
  {
    var r1 := r;
    if |registered| + |attached| > 0 {
      var (rest, visited) := PropertySetPool.Rent(r.pool);
      var used;
      inherited, used := CollectInherited(registered, attached, visited);
      PropertySetPool.RentThenReturnRestores(r.pool, used);
      ReplacePool(host, r, PropertySetPool.Return(rest, used));
      r1 := r.(pool := PropertySetPool.Return(rest, used));
    } else {
      inherited := [];
    }
    CacheInherited(host, r1, t, inherited);
    r' := r1.(inheritedCache := r1.inheritedCache[t := inherited]);
  }

  /** A name lookup's predicate: `property.Name == search`. */
  function HasName(p: Property, search: string): bool {
    p.name == search
  }

  /** `FindRegistered(type, name)`: a name containing '.' throws InvalidOperation before any
      lookup; otherwise the first own-or-ancestor property with that name, or null. Attached
      tables are not searched. */
  method FindRegistered(host: Host, r: Registry, t: TypeId, name: string)
    returns (r': Registry, result: Result<Option<Property>, Exception>)
    requires Coherent(host, r)
    ensures Coherent(host, r') && SameTables(r, r')
    ensures result.Failure? <==> '.' in name
    ensures result.Failure? ==> result.error == InvalidOperation && r' == r
    ensures result.Success? ==> r' == r.(registeredCache := r.registeredCache[t := FreshRegistered(host, r, t)])
    ensures result.Success? ==> IsFirstMatch(FreshRegistered(host, r, t), name, HasName, result.value)
  {
    if '.' in name {
      return r, Failure(InvalidOperation);
    }
    var registered;
    r', registered := GetRegistered(host, r, t);
    var found := ReadOnlyListExtensions.FirstOrDefault(registered, name, HasName);
    result := Success(found);
  }

  /** `FindRegistered(id)`: null for an id at or past the index's count; otherwise the
      indexer, which throws KeyNotFound for an id that is not a key. */
  function FindRegisteredById(r: Registry, id: int): (result: Result<Option<Property>, Exception>)
    ensures id >= |r.properties| ==> result == Success(None)
    ensures id < |r.properties| && id in r.properties ==> result == Success(Some(r.properties[id]))
    ensures result.Failure? <==> id < |r.properties| && id !in r.properties
    ensures result.Failure? ==> result.error == KeyNotFound
  {
    if id < |r.properties| then
      if id in r.properties then Success(Some(r.properties[id])) else Failure(KeyNotFound)
    else Success(None)
  }

  /** `IsRegistered(type, property)`: whether `p` equals some own-or-ancestor property, or
      failing that some attached one; the attached view is only computed when the own view
      has no match. */
  method IsRegistered(host: Host, r: Registry, t: TypeId, p: Property) returns (r': Registry, result: bool)
    requires Coherent(host, r)
    ensures Coherent(host, r') && SameTables(r, r')
    ensures result <==> p.id in Ids(FreshRegistered(host, r, t)) || p.id in Ids(FreshAttached(host, r, t))
    ensures p.id in Ids(FreshRegistered(host, r, t)) ==>
              r' == r.(registeredCache := r.registeredCache[t := FreshRegistered(host, r, t)])
    ensures p.id !in Ids(FreshRegistered(host, r, t)) ==>
              r' == r.(registeredCache := r.registeredCache[t := FreshRegistered(host, r, t)],
                       attachedCache := r.attachedCache[t := FreshAttached(host, r, t)])
  {
    var registered;
    r', registered := GetRegistered(host, r, t);
    var inOwn := ReadOnlyListExtensions.AnyMatching(registered, p, SameProperty);
    IdsByIndex(registered.inner, p);
    if inOwn {
      return r', true;
    }
    var attached;
    r', attached := GetRegisteredAttached(host, r', t);
    result := ReadOnlyListExtensions.AnyMatching(attached, p, SameProperty);
    IdsByIndex(attached.inner, p);
  }

  // ---------------------------------------------------------------------------------------
  // Initialisation

  /** `CreatePropertyInitializationCache`: builds the type's plan from its registered and
      attached views and caches it. */
  method CreatePropertyInitializationCache(host: Host, r: Registry, t: TypeId)
    returns (r': Registry, plan: seq<PropertyInitializationData>)
    requires Coherent(host, r)
    ensures Coherent(host, r') && SameTables(r, r')
    ensures plan == FreshPlan(host, r, t)
    ensures r' == r.(registeredCache := r.registeredCache[t := FreshRegistered(host, r, t)],
                     attachedCache := r.attachedCache[t := FreshAttached(host, r, t)],
                     initializedCache := r.initializedCache[t := plan],
                     pool := PoolAfterBuild(host, r, t))
  {
    var r1, registered := GetRegistered(host, r, t);
    var r2, attached := GetRegisteredAttached(host, r1, t);
    r', plan := CachePlanFrom(host, r2, t, registered.inner, attached.inner);
  }

  /** The second half of `CreatePropertyInitializationCache`: builds the plan from the two
      walks with a rented scratch set (none when both are empty) and caches it. */
  method CachePlanFrom(host: Host, r: Registry, t: TypeId, registered: seq<Property>, attached: seq<Property>)
    returns (r': Registry, plan: seq<PropertyInitializationData>)
    requires Coherent(host, r)
    requires registered == FreshRegistered(host, r, t) && attached == FreshAttached(host, r, t)
    ensures Coherent(host, r') && SameTables(r, r')
    ensures plan == FreshPlan(host, r, t)
    ensures r' == r.(initializedCache := r.initializedCache[t := plan], pool := PoolAfterBuild(host, r, t))
  {
    var r1 := r;
    if |registered| + |attached| > 0 {
      var (rest, visited) := PropertySetPool.Rent(r.pool);
      var used;
      plan, used := BuildPlan(host, t, registered, attached, visited);
      PropertySetPool.RentThenReturnRestores(r.pool, used);
      ReplacePool(host, r, PropertySetPool.Return(rest, used));
      r1 := r.(pool := PropertySetPool.Return(rest, used));
    } else {
      plan := [];
    }
    CachePlan(host, r1, t, plan);
    r' := r1.(initializedCache := r1.initializedCache[t := plan]);
  }

  /** `NotifyInitialized(o)`: takes the plan for `o`'s type (building and caching it on a
      miss) and, in plan order, emits exactly one event per entry whose property has
      observers. `directValue` stands for `DirectAccessor.GetValue(o)`, and `hasObservers` for
      `HasNotifyInitializedObservers`, read during the pass. */
  method NotifyInitialized(host: Host, r: Registry, o: AvaloniaObject, directValue: (AvaloniaObject, Property) -> Value,
                           hasObservers: Property -> bool)
    returns (r': Registry, events: seq<ChangedEvent>)
    requires Coherent(host, r)
    ensures Coherent(host, r') && SameTables(r, r')
    ensures o.runtimeType in r.initializedCache ==> r' == r
    ensures o.runtimeType !in r.initializedCache ==>
              var t := o.runtimeType;
              r' == r.(registeredCache := r.registeredCache[t := FreshRegistered(host, r, t)],
                       attachedCache := r.attachedCache[t := FreshAttached(host, r, t)],
                       initializedCache := r.initializedCache[t := FreshPlan(host, r, t)],
                       pool := PoolAfterBuild(host, r, t))
    ensures var notified := Observed(FreshPlan(host, r, o.runtimeType), hasObservers);
            && |events| == |notified|
            && forall i :: 0 <= i < |events| ==> events[i] == EventFor(o, directValue, notified[i])
  {
    var plan;
    if o.runtimeType in r.initializedCache {
      r', plan := r, r.initializedCache[o.runtimeType];
    } else {
      r', plan := CreatePropertyInitializationCache(host, r, o.runtimeType);
    }
    events := EmitInitialized(o, directValue, hasObservers, plan);
    EventsForEachEntry(o, directValue, Observed(plan, hasObservers));
  }
}
