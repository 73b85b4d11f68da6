# Avalonia property registry, modelled in Dafny

This project models the core of Avalonia's `AvaloniaPropertyRegistry`. The registry keeps
these tables:

- for each type, an insertion-ordered table of its own properties and another of its
  attached properties;
- a global index from id to property.

On top of the tables it keeps four per-type caches, all derived from them:

- own properties, including those of the ancestors;
- attached properties, including those of the ancestors;
- the inheriting subset of the two;
- the initialisation plan that `NotifyInitialized` walks.

`Register` and `RegisterAttached` clear the caches their change makes stale. The queries fill
the caches and borrow scratch sets from a small pool.

The model also covers:

- `SingleOrDictionary<TKey, TValue>`, the one-pair-inline small map;
- the collection helpers the registry's lookups use: `EnumeratorOperations`, `ReadOnlyList`,
  `ReadOnlyListExtensions` and `ListExtensions`.

## How the model is built

- The registry is an immutable value, `PropertyRegistry.Registry`. Each operation takes it
  and returns the registry it leaves behind.
- Its class invariant is `PropertyRegistry.Coherent`: every cached entry equals a fresh
  computation from the current tables, and every pooled scratch set is empty.
  - Every operation requires the invariant and ensures it.
  - The fresh computations are reference definitions in `RegistryViews`:
    - `View`, the recursive walk up the base types;
    - `InheritedView`;
    - `Plan`.
  - Each loop of the source is a method proved equal to its reference definition.
- The host type system is a parameter, `RegistryViews.Host`. It holds each type's base type,
  with a depth that makes the walk finite, and the per-type default value of a styled
  property.
- A property is the handful of facts the registry reads from it. `AvaloniaProperty`'s equality,
  and so every hash set and `EqualityComparer` the registry uses, compares ids alone. The model
  does the same: `Properties.SameProperty` compares ids, and a de-duplicating set is a set of
  ids. Two property objects sharing an id, as `AddOwner` makes, count as one property.
- `HasNotifyInitializedObservers` is read from the property while the notification pass runs.
  The model passes it in as a predicate, because it depends on subscriptions made outside the
  registry.
- `Dictionary<K, V>` is modelled as a key order plus a map. It never has removals, so
  enumeration follows insertion order.
- A thrown exception is a `Failure` of the `Exceptions.Exception` kind, or a `Threw` outcome.
  A `null` result is `None`.

Where the model follows the code rather than a plausible reading of it:

- `RegisterAttached` with an id already in the type's attached table throws, because it calls
  `Dictionary.Add`. Nothing changes in that case.
- `RegisterAttached` never adds to the global id index.
- `GetRegistered` does not de-duplicate across ancestor levels.
- The plan's own-property part has one entry per element of the registered view, duplicates
  included. The attached part skips ids already seen, including repeats among the attached
  ones.
- The inherited view skips an attached property only when an own inheriting property has its
  id. Repeats among the attached ones are kept, because that loop never adds to the set.
- `FindRegistered(id)` indexes the dictionary for any id below its count. A negative id, or a
  missing id below the count, throws KeyNotFound (`RegistryFacts.SparseIdsThrow`). With dense
  ids from 0 it never throws (`RegistryFacts.DenseIdsNeverThrow`).
- `SingleOrDictionary.Add` on the second pair builds the dictionary before adding the new key.
  A duplicate key therefore throws after promotion, and the container stays in dictionary
  mode with the same contents.
- `IsRegistered` asks the static `Instance`. Here that is the registry passed in.

## Model

| member | source | states |
|---|---|---|
| PropertyRegistry.Register | src/Avalonia.Base/AvaloniaPropertyRegistry.cs:280-304 | Keeps the registry coherent. The own table of the type gains the property only if its id is absent, and the first property stored under the id stays. The id is indexed only if new. The registered, initialized and inherited caches are cleared. The attached tables and the attached cache are untouched. |
| PropertyRegistry.AddIfAbsent | src/Avalonia.Base/AvaloniaPropertyRegistry.cs:282-295 | Creates the table when missing. Adds the property when its id is absent, appending it to the table's values. With the id present the tables are unchanged. Other types' tables are untouched, and no other id appears. |
| PropertyRegistry.IndexIfAbsent | src/Avalonia.Base/AvaloniaPropertyRegistry.cs:296-299 | The index keys become the old keys plus the id. An id already indexed keeps its old property, and every other entry is preserved. |
| PropertyRegistry.IndexStaysComplete | src/Avalonia.Base/AvaloniaPropertyRegistry.cs:280-299 | After the table and index updates, every own-registered id is still indexed, under a property carrying that id. |
| PropertyRegistry.AddToTable | src/Avalonia.Base/AvaloniaPropertyRegistry.cs:326-336 | `Dictionary.Add` on the type's table, creating the table first if needed. It fails with DuplicateKey exactly when the id is present. Otherwise it appends the property and leaves the other types alone. |
| PropertyRegistry.RegisterAttached | src/Avalonia.Base/AvaloniaPropertyRegistry.cs:316-341 | A non-attached property fails with InvalidOperation. A duplicate id fails with DuplicateKey, and the call succeeds exactly when neither applies. On success the registry stays coherent and the property is appended to the type's attached table. The attached, initialized and inherited caches are cleared. The own tables, the global index and the registered cache are unchanged. |
| PropertyRegistry.ClearOwnCaches | src/Avalonia.Base/AvaloniaPropertyRegistry.cs:301-303 | New well-formed own tables and index, with the three caches `Register` clears now empty, keep every remaining cache fresh. |
| PropertyRegistry.GetRegistered | src/Avalonia.Base/AvaloniaPropertyRegistry.cs:56-84 | Returns the fresh own-property walk from the type, whether it is served from the cache or computed and cached. The registry afterwards differs from the one passed in only in the type's registered-cache entry, and it stays coherent. |
| PropertyRegistry.GetRegisteredAttached | src/Avalonia.Base/AvaloniaPropertyRegistry.cs:91-116 | Returns the fresh attached walk from the type, from the cache or computed. Only the type's attached-cache entry changes. |
| PropertyRegistry.GetRegisteredInherited | src/Avalonia.Base/AvaloniaPropertyRegistry.cs:123-173 | Returns the inherited view of the two fresh walks. On a hit the registry is unchanged. On a miss the type's three cache entries are filled with the fresh walks and the view. The pool is restored: it is unchanged, or holds the one set created when a set was needed and the pool was empty. Nothing else changes. |
| PropertyRegistry.CacheInheritedFrom | src/Avalonia.Base/AvaloniaPropertyRegistry.cs:135-170 | Given the two fresh walks, it collects the inherited view and caches it. A set is rented only when the walks are not both empty. It comes back cleared, so the pool ends as it began, or with one new empty set if it was empty. No other field changes. |
| PropertyRegistry.FindRegistered | src/Avalonia.Base/AvaloniaPropertyRegistry.cs:198-210 | Throws InvalidOperation exactly when the name contains '.', in which case nothing changes. Otherwise it returns the first property with that name in the own-property walk, or null, and only the type's registered-cache entry changes. Attached tables are not searched. |
| PropertyRegistry.FindRegisteredById | src/Avalonia.Base/AvaloniaPropertyRegistry.cs:236-239 | Returns null for an id at or past the index's count, and the indexed property for a present id below it. It fails with KeyNotFound exactly when the id is below the count but not a key. |
| PropertyRegistry.IsRegistered | src/Avalonia.Base/AvaloniaPropertyRegistry.cs:247-254 | True iff some property in the own walk or in the attached walk has the property's id. When the own walk has it, only the registered-cache entry changes. Otherwise the attached-cache entry changes too, and nothing else. |
| PropertyRegistry.CreatePropertyInitializationCache | src/Avalonia.Base/AvaloniaPropertyRegistry.cs:378-426 | Returns the plan built from the two fresh walks and keeps the registry coherent. Only the type's registered, attached and initialized cache entries change, plus the pool, which is restored as for `CacheInheritedFrom`. |
| PropertyRegistry.CachePlanFrom | src/Avalonia.Base/AvaloniaPropertyRegistry.cs:383-425 | Given the two fresh walks, it builds the plan and caches it. A set is rented only when the walks are not both empty and comes back cleared, so the pool is restored. No other field changes. |
| PropertyRegistry.NotifyInitialized | src/Avalonia.Base/AvaloniaPropertyRegistry.cs:343-376 | Takes the type's plan, building it on a miss. On a hit the registry is unchanged, and on a miss only the type's three cache entries and the pool change. It emits exactly one event per plan entry whose property has observers at that moment, in plan order. Each event has old value Unset and priority Unset. Its new value is the object's current value for a direct property, or the plan's default. |
| RegistryViews.CollectAlongBaseTypes | src/Avalonia.Base/AvaloniaPropertyRegistry.cs:65-79 | The loop up the base types equals the recursive walk: the type's own table, then its base type's walk. |
| RegistryViews.CollectInherited | src/Avalonia.Base/AvaloniaPropertyRegistry.cs:139-163 | The two loops, starting from an empty rented set of ids, produce exactly the inherited view. |
| RegistryViews.CollectOwnInherited | src/Avalonia.Base/AvaloniaPropertyRegistry.cs:143-150 | Keeps the inheriting own properties in order. Afterwards the set holds exactly their ids. |
| RegistryViews.CollectAttachedInherited | src/Avalonia.Base/AvaloniaPropertyRegistry.cs:152-161 | Appends, in order, every inheriting attached property whose id is not in the set. It never adds to the set, so repeated attached ids are all kept. |
| RegistryViews.InheritedViewMembers | src/Avalonia.Base/AvaloniaPropertyRegistry.cs:143-161 | A property is in the inherited view iff it inherits and either occurs in the own walk, or occurs in the attached walk while no inheriting own property has its id. |
| RegistryViews.InheritingOfMembers | src/Avalonia.Base/AvaloniaPropertyRegistry.cs:143-150 | The own part holds exactly the inheriting own properties. |
| RegistryViews.InheritingOutsideMembers | src/Avalonia.Base/AvaloniaPropertyRegistry.cs:152-161 | The attached part holds exactly the inheriting attached properties whose id is not excluded. |
| RegistryViews.BuildPlan | src/Avalonia.Base/AvaloniaPropertyRegistry.cs:387-418 | The two plan loops, starting from an empty rented set of ids, produce exactly the reference plan. |
| RegistryViews.PlanOwn | src/Avalonia.Base/AvaloniaPropertyRegistry.cs:391-405 | One entry per own property, in order. Afterwards the set holds exactly the own properties' ids. |
| RegistryViews.PlanAttached | src/Avalonia.Base/AvaloniaPropertyRegistry.cs:407-416 | Appends one styled entry per attached property whose id is neither in the set nor carried by an earlier attached property. Afterwards the set also holds every attached id. |
| RegistryViews.OwnEntries | src/Avalonia.Base/AvaloniaPropertyRegistry.cs:391-405 | One entry per element, at the same position and for the same property. It is a direct entry iff the property is direct, and otherwise a styled entry carrying the default for the type. |
| RegistryViews.StyledEntries | src/Avalonia.Base/AvaloniaPropertyRegistry.cs:482-488 | One styled entry per property, in order, each carrying that property's default for the type. |
| RegistryViews.FirstSeenOutsideMembers | src/Avalonia.Base/AvaloniaPropertyRegistry.cs:407-416 | The attached part of the plan holds only attached properties with ids outside the excluded ones, and its ids are exactly the attached ids outside them. |
| RegistryViews.FirstSeenOutsideDistinct | src/Avalonia.Base/AvaloniaPropertyRegistry.cs:407-416 | No two entries of the attached part share an id. |
| RegistryViews.FirstSeenOutsideKeepsFirst | src/Avalonia.Base/AvaloniaPropertyRegistry.cs:409-415 | The attached property that first carries a non-excluded id is the one kept for that id. |
| RegistryViews.ObservedMembers | src/Avalonia.Base/AvaloniaPropertyRegistry.cs:354-363 | The notified entries are exactly the plan entries whose property has observers under the given predicate. |
| RegistryViews.EventsForEachEntry | src/Avalonia.Base/AvaloniaPropertyRegistry.cs:365-374 | One event per notified entry, the i-th built from the i-th entry. |
| RegistryViews.EmitInitialized | src/Avalonia.Base/AvaloniaPropertyRegistry.cs:354-375 | The loop over the plan emits the events of the observed entries and skips every other entry. |
| RegistryFacts.ViewIsFlattenedAncestors | src/Avalonia.Base/AvaloniaPropertyRegistry.cs:65-79 | The own-property walk is the concatenation of the tables of the type and of each ancestor, most derived first, with no de-duplication. |
| RegistryFacts.AncestorTablesVisible | src/Avalonia.Base/AvaloniaPropertyRegistry.cs:68-78 | Every property in an ancestor's table appears in the walk of each descendant. |
| RegistryFacts.ViewIgnoresOtherTypes | src/Avalonia.Base/AvaloniaPropertyRegistry.cs:68-78 | Changing the table of a type outside the ancestor chain leaves the walk unchanged. |
| RegistryFacts.CreateIsCoherent | src/Avalonia.Base/AvaloniaPropertyRegistry.cs:20-38 | The freshly constructed registry satisfies the invariant, and every walk of it is empty. |
| RegistryFacts.RegisterIsIdempotent | src/Avalonia.Base/AvaloniaPropertyRegistry.cs:285-299 | Registering a second property with the same id on the same type changes neither the tables, nor the index, nor any type's walk. |
| RegistryFacts.RegisterReachesDescendants | src/Avalonia.Base/AvaloniaPropertyRegistry.cs:280-304 | After registering on an ancestor, the property stored under that id is in every descendant's fresh walk. If the id was new, that property is the one just registered. |
| RegistryFacts.RegisterAttachedReachesDescendants | src/Avalonia.Base/AvaloniaPropertyRegistry.cs:316-341 | After a successful attached registration on an ancestor, the property is in every descendant's attached walk. |
| RegistryFacts.RegisterElsewhereKeepsView | src/Avalonia.Base/AvaloniaPropertyRegistry.cs:280-341 | Registering on a type outside the ancestor chain leaves that chain's own and attached walks unchanged. |
| RegistryFacts.InheritingOfCount | src/Avalonia.Base/AvaloniaPropertyRegistry.cs:143-150 | The own part keeps every inheriting property as many times as it occurs. |
| RegistryFacts.AttachedSuppressed | src/Avalonia.Base/AvaloniaPropertyRegistry.cs:152-161 | Once an inheriting property is an own property, the attached side adds nothing under its id. Every property object with that id occurs in the inherited view exactly as often as among the inheriting own properties, and a non-inheriting one not at all. |
| RegistryFacts.PlanShape | src/Avalonia.Base/AvaloniaPropertyRegistry.cs:385-416 | The plan has between `|registered|` and `|registered| + |attached|` entries. It starts with one entry per own property, direct iff that property is direct. The rest are styled entries with the type's default, for attached properties whose ids are outside the own walk, with no id twice. |
| RegistryFacts.PlanKeepsFirstAttached | src/Avalonia.Base/AvaloniaPropertyRegistry.cs:407-416 | For an attached id that no own property has, the plan's entry is for the first attached property carrying it. |
| RegistryFacts.PlanCoversAttached | src/Avalonia.Base/AvaloniaPropertyRegistry.cs:385-416 | Every attached property's id has a plan entry, own or styled. |
| RegistryFacts.SameNameFirstWins | tests/Avalonia.Benchmarks/Base/Properties.cs:16-52 | When every property in the walk has the searched name, the name lookup returns the first one. |
| RegistryFacts.Class1View | tests/Avalonia.Benchmarks/Base/Properties.cs:16-52 | Two properties with the same name and distinct ids, both registered on one type, are both accepted, and the walk holds both in registration order. |
| RegistryFacts.RegisterThenFindById | src/Avalonia.Base/AvaloniaPropertyRegistry.cs:236-239 | After `Register(t, p)`, the id lookup of `p.id` never throws. It returns a property with that id exactly when the id is below the index's count, and that property is `p` when the id was new. |
| RegistryFacts.DenseIdsNeverThrow | src/Avalonia.Base/AvaloniaPropertyRegistry.cs:236-239 | If the index keys are exactly 0 to n-1, the id lookup returns the property below n and null from n on. |
| RegistryFacts.SparseIdsThrow | src/Avalonia.Base/AvaloniaPropertyRegistry.cs:236-239 | An index holding only id 1 makes the lookups of 0 and of -1 throw KeyNotFound. |
| RegistryFacts.WidthAndIsEnabledOnButton | src/Avalonia.Base/AvaloniaPropertyRegistry.cs:56-173 | Two properties registered on Control are seen from the derived Button, in order, and only the inheriting one is in Button's inherited view. |
| RegistryFacts.AttachedThenOwnInheritedOnce | src/Avalonia.Base/AvaloniaPropertyRegistry.cs:143-161 | `Foreground` attached on Control, then a second object with its id registered as an own property of Button: Button's inherited view holds only the own object, once. |
| PropertySetPool.Rent | src/Avalonia.Base/AvaloniaPropertyRegistry.cs:443-451 | Pops the top set and yields it when the pool is non-empty. Otherwise it leaves the pool alone and yields a new empty set. From an all-clear pool the set is empty and the rest stays clear. |
| PropertySetPool.Return | src/Avalonia.Base/AvaloniaPropertyRegistry.cs:454-459 | Pushes the set, cleared, on top of the unchanged pool. |
| PropertySetPool.RentThenReturnRestores | src/Avalonia.Base/AvaloniaPropertyRegistry.cs:443-459 | From an all-clear pool, a rent yields an empty set. Returning it, whatever the renter put in it, gives back the pool unchanged, or holding one empty set if it was empty. |
| SingleOrDictionaries.SingleOrDictionary.Add | src/Avalonia.Base/Utilities/SingleOrDictionary.cs:107-124 | Throws DuplicateKey exactly when the key is already stored, leaving the contents unchanged. Otherwise the contents gain the pair. The first add stores the pair inline, and the second moves to dictionary mode with the inline slot cleared. Dictionary mode is kept. |
| SingleOrDictionaries.SingleOrDictionary.TryGetValue | src/Avalonia.Base/Utilities/SingleOrDictionary.cs:126-145 | Finds a key iff it is in the abstract map, and then returns its value. |
| SingleOrDictionaries.SingleOrDictionary.Values | src/Avalonia.Base/Utilities/SingleOrDictionary.cs:168-185 | Yields the value of each enumerated pair, in enumeration order, so a value stored under two keys appears twice. Hence every stored value, and nothing else. |
| SingleOrDictionaries.SingleOrDictionary.Pairs | src/Avalonia.Base/Utilities/SingleOrDictionary.cs:147-161 | Enumeration yields as many pairs as are stored: each stored pair, and nothing else. |
| SingleOrDictionaries.New | src/Avalonia.Base/Utilities/SingleOrDictionary.cs:102-105 | A new container is valid and empty. |
| SingleOrDictionaries.AddAllRefinesMap | src/Avalonia.Base/Utilities/SingleOrDictionary.cs:107-124 | After any sequence of adds, with exceptions caught, the container holds exactly the map of the pairs whose add succeeded. |
| SingleOrDictionaries.TryGetValueAfterAdds | src/Avalonia.Base/Utilities/SingleOrDictionary.cs:126-145 | Lookups on a container built by adds agree with the abstract map of those adds. |
| SingleOrDictionaries.DictionaryModeIsPermanent | src/Avalonia.Base/Utilities/SingleOrDictionary.cs:107-124 | Once in dictionary mode, no later add returns the container to single mode. |
| SingleOrDictionaries.SingleEnumerator.Current | src/Avalonia.Base/Utilities/SingleOrDictionary.cs:197-210 | Succeeds iff positioned on the element and then yields it. Otherwise it throws InvalidOperation. |
| SingleOrDictionaries.MoveNextTrueExactlyOnce | src/Avalonia.Base/Utilities/SingleOrDictionary.cs:218-222 | From a fresh enumerator, `MoveNext` returns true on the first call, after which `Current` is the element, and false on every later call. |
| SingleOrDictionaries.ExhaustedStaysExhausted | src/Avalonia.Base/Utilities/SingleOrDictionary.cs:218-222 | Past the element, every `MoveNext` returns false. |
| SingleOrDictionaries.ResetRestarts | src/Avalonia.Base/Utilities/SingleOrDictionary.cs:224-227 | `Reset` returns any enumerator to the fresh state. |
| EnumeratorOperations.FirstOrDefault | src/Avalonia.Base/Collections/EnumeratorOperations.cs:7-29 | Returns the first remaining element satisfying the predicate, after which no earlier element satisfies it, or default when none does. The enumerator is disposed on every path. |
| EnumeratorOperations.Any | src/Avalonia.Base/Collections/EnumeratorOperations.cs:31-42 | True iff an element remains. The enumerator advances at most once and is disposed. |
| EnumeratorOperations.AnyMatching | src/Avalonia.Base/Collections/EnumeratorOperations.cs:44-66 | True iff some remaining element satisfies the predicate. It stops on the first match, with none before it, and the enumerator is disposed on every path. |
| ReadOnlyLists.ViewAgreesWithInner | src/Avalonia.Base/Collections/ReadOnlyList.cs:8-40 | `Count` is the wrapped list's count. The indexer yields the wrapped element for a valid index, which is also the element enumeration yields at that position. It fails exactly outside the valid range. |
| ReadOnlyLists.EnumerationYieldsInner | src/Avalonia.Base/Collections/ReadOnlyList.cs:42-64 | Enumerating yields the wrapped elements in index order, and then `MoveNext` returns false. |
| ReadOnlyLists.ResetRestarts | src/Avalonia.Base/Collections/ReadOnlyList.cs:58-62 | After `Reset`, enumeration yields every element from the first one, and `Current` is undefined before the first `MoveNext`. |
| ReadOnlyListExtensions.FirstOrDefault | src/Avalonia.Base/Collections/ReadOnlyListExtensions.cs:5-9 | Returns the first element of the view satisfying the predicate, or default, and agrees with the reference front-to-back search. |
| ReadOnlyListExtensions.Any | src/Avalonia.Base/Collections/ReadOnlyListExtensions.cs:11-14 | True iff `Count > 0`. |
| ReadOnlyListExtensions.AnyMatching | src/Avalonia.Base/Collections/ReadOnlyListExtensions.cs:16-20 | True iff some element of the view satisfies the predicate. |
| ListExtensions.FirstOrDefault | src/Avalonia.Base/Collections/ListExtensions.cs:7-11 | Returns the first list element satisfying the predicate, or default, and agrees with the reference front-to-back search. |
| ListExtensions.Any | src/Avalonia.Base/Collections/ListExtensions.cs:13-16 | True iff the list is non-empty. |
| ListExtensions.AnyMatching | src/Avalonia.Base/Collections/ListExtensions.cs:18-22 | True iff some list element satisfies the predicate. |
| Sequences.FirstMatchIsUnique | src/Avalonia.Base/Collections/EnumeratorOperations.cs:13-23 | Any two results meeting the first-match specification are equal, so the search result is determined. |
| Dictionaries.Dictionary.Add | src/Avalonia.Base/AvaloniaPropertyRegistry.cs:288-298 | `Dictionary.Add` as the registry uses it: it fails with DuplicateKey exactly when the key is present. Otherwise the pair is added and appended to the enumeration order. |
| TypeHierarchy.Hierarchy.Ancestors | src/Avalonia.Base/AvaloniaPropertyRegistry.cs:65-78 | The chain the walk visits: it starts at the type, each next element is the base type of the one before, and it ends at a root. |

## Left out

- Static constructors: `RuntimeHelpers.RunClassConstructor` (AvaloniaPropertyRegistry.cs:71)
  runs host-runtime code that may call `Register` in the middle of a walk. The walk is
  modelled as pure over the current tables, and re-entrant registration is not modelled.
- The property objects' own behaviour is not part of this model. This covers:
  - `property.NotifyInitialized(e)`: the model returns the list of events it would receive;
  - `DirectAccessor.GetValue`: the `directValue` parameter;
  - `GetDefaultValue`: `Host.defaultValue`;
  - `HasNotifyInitializedObservers`: the `hasObservers` parameter;
  - metadata merging.
- The overloads taking an object (`GetRegistered(o)`, `FindRegistered(o, name)`,
  `IsRegistered(object, p)`) are not modelled separately. They forward to the type overloads
  with `o.GetType()`.
- The internal `Properties` getter (`_properties.Values`) is not modelled. It is a direct view
  of the index.
- Aliasing is not modelled. The shared empty lists returned for types with no properties, and
  the lists handed out by `ReadOnlyList.From`, are modelled as values. Mutating a list behind a
  view, and the version checks of `List<T>`'s enumerator, are therefore not modelled.
- Reference identity of pooled sets is not modelled. The pool is a stack of set values.
- `Contract.Requires` null checks are not modelled, because null references do not arise in
  the model.
- `SingleOrDictionaryEx` (SingleOrDictionary.cs:8-95) is left out. It is unfinished code:
  its enumerator's `MoveNext` has no return on the non-dictionary path, and no enumerator
  constructor takes a dictionary. Its `Add` also drops the inline pair when promoting.
- `SingleEnumerator`'s `index++` can overflow after about 2^31 calls to `MoveNext`. The model
  uses an unbounded counter.
- Enumeration order of `Dictionary` is taken to be insertion order, which holds for a
  dictionary without removals.
- The registry benchmark is not modelled. Its duplicate-name case is used only as the scenario
  behind `RegistryFacts.Class1View`.
- PropertyRegistry.GetRegisteredInherited: the returned list is stated to equal the reference
  inherited view. Its membership characterisation is stated once, in
  `RegistryViews.InheritedViewMembers`, rather than repeated on the method.
