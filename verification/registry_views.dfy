/** The views AvaloniaPropertyRegistry derives from its tables, each as a fresh computation
    (a pure function) together with the loop the registry runs to build it. */
module RegistryViews {
  import opened Wrappers
  import opened Sequences
  import opened Dictionaries
  import opened TypeHierarchy
  import opened Properties

  /** What the registry asks of the host: the base-type relation, and a styled property's
      default value for a type (IStyledPropertyAccessor.GetDefaultValue). */
  datatype Host = Host(hierarchy: Hierarchy, defaultValue: (Property, TypeId) -> Value)

  /** One type's table, Dictionary<int, AvaloniaProperty> keyed by property id. */
  type Table = Dictionary<int, Property>

  /** PropertyInitializationData: a direct property's value is read from the object when
      notified; a styled property's default for the type is computed when the plan is built. */
  datatype PropertyInitializationData =
    | DirectEntry(property: Property)
    | StyledEntry(property: Property, value: Value)

  /** Each table is a valid dictionary whose keys are the ids of the properties stored. */
  ghost predicate TablesValid(tables: map<TypeId, Table>) {
    forall t :: t in tables ==>
      && tables[t].Valid()
      && forall id :: id in tables[t].entries ==> tables[t].entries[id].id == id
  }

  /** `tables[t].Values`, or nothing when `t` has no table. */
  function OwnValues(tables: map<TypeId, Table>, t: TypeId): seq<Property>
    requires TablesValid(tables)
  {
    if t in tables then tables[t].Values() else []
  }

  // ---------------------------------------------------------------------------------------
  // GetRegistered / GetRegisteredAttached

  /** The tables of `t`, its base type, ... up to the root, concatenated most-derived first,
      with no de-duplication across levels. */
  function View(h: Hierarchy, tables: map<TypeId, Table>, t: TypeId): seq<Property>
    requires h.Valid() && TablesValid(tables)
    decreases h.Rank(t)
  {
    OwnValues(tables, t) + if t in h.baseType then View(h, tables, h.baseType[t]) else []
  }

  /** One step of the walk: `t`'s table followed by the walk from its base type. */
  lemma {:induction false} ViewStep(h: Hierarchy, tables: map<TypeId, Table>, t: TypeId, prefix: seq<Property>)
    requires h.Valid() && TablesValid(tables)
    ensures t in h.baseType ==>
              prefix + View(h, tables, t) == (prefix + OwnValues(tables, t)) + View(h, tables, h.baseType[t])
    ensures t !in h.baseType ==> prefix + View(h, tables, t) == prefix + OwnValues(tables, t)
  {
    if t in h.baseType {
      var rest := View(h, tables, h.baseType[t]);
      assert View(h, tables, t) == OwnValues(tables, t) + rest;
      assert prefix + (OwnValues(tables, t) + rest) == (prefix + OwnValues(tables, t)) + rest;
    } else {
      assert View(h, tables, t) == OwnValues(tables, t) + [];
    }
  }

  /** The base-type walk of `GetRegistered` / `GetRegisteredAttached`: from `t` to the root,
      appending each type's table values. */
  method CollectAlongBaseTypes(h: Hierarchy, tables: map<TypeId, Table>, t: TypeId) returns (result: seq<Property>)
    requires h.Valid() && TablesValid(tables)
    ensures result == View(h, tables, t)
  {
    var current := Some(t);
    result := [];
    while current.Some?
      invariant current.Some? ==> result + View(h, tables, current.value) == View(h, tables, t)
      invariant current.None? ==> result == View(h, tables, t)
      decreases if current.Some? then h.Rank(current.value) + 1 else 0
    {
      var ty := current.value;
      ghost var before := result;
      if ty in tables {
        result := result + tables[ty].Values();
      }
      assert result == before + OwnValues(tables, ty);
      current := if ty in h.baseType then Some(h.baseType[ty]) else None;
      ViewStep(h, tables, ty, before);
    }
  }

  // ---------------------------------------------------------------------------------------
  // GetRegisteredInherited

  /** The inheriting properties of `s`, in order. */
  function InheritingOf(s: seq<Property>): seq<Property> {
    if |s| == 0 then []
    else
      var init := s[..|s| - 1];
      assert s == init + [s[|s| - 1]];
      InheritingOf(init) + if s[|s| - 1].inherits then [s[|s| - 1]] else []
  }

  /** The inheriting properties of `s` whose id is not in `excluded`, in order. */
  function InheritingOutside(s: seq<Property>, excluded: set<int>): seq<Property> {
    if |s| == 0 then []
    else
      var init := s[..|s| - 1];
      var last := s[|s| - 1];
      assert s == init + [last];
      InheritingOutside(init, excluded) + if last.inherits && last.id !in excluded then [last] else []
  }

  /** `GetRegisteredInherited` from fresh views: the inheriting own properties, then the
      inheriting attached properties that are not the same property (by id) as one of them. */
  function InheritedView(registered: seq<Property>, attached: seq<Property>): seq<Property> {
    InheritingOf(registered) + InheritingOutside(attached, Ids(InheritingOf(registered)))
  }

  lemma {:induction false} InheritingOfMembers(s: seq<Property>)
    ensures forall p :: p in InheritingOf(s) <==> p in s && p.inherits
    decreases |s|
  {
    if |s| > 0 {
      var init := s[..|s| - 1];
      assert s == init + [s[|s| - 1]];
      InheritingOfMembers(init);
    }
  }

  lemma {:induction false} InheritingOutsideMembers(s: seq<Property>, excluded: set<int>)
    ensures forall p :: p in InheritingOutside(s, excluded) <==> p in s && p.inherits && p.id !in excluded
    decreases |s|
  {
    if |s| > 0 {
      var init := s[..|s| - 1];
      assert s == init + [s[|s| - 1]];
      InheritingOutsideMembers(init, excluded);
    }
  }

  /** The inherited view holds the inheriting own properties, and those inheriting attached
      properties that share their id with no inheriting own property. */
  lemma InheritedViewMembers(registered: seq<Property>, attached: seq<Property>)
    ensures forall p :: p in InheritedView(registered, attached) <==>
              && p.inherits
              && (p in registered || (p in attached && forall q :: q in registered && q.inherits ==> q.id != p.id))
  {
    InheritingOfMembers(registered);
    InheritingOutsideMembers(attached, Ids(InheritingOf(registered)));
  }

  lemma {:induction false} InheritingOfStep(s: seq<Property>, i: int)
    requires 0 <= i < |s|
    ensures InheritingOf(s[..i + 1]) == InheritingOf(s[..i]) + if s[i].inherits then [s[i]] else []
  {
    assert s[..i + 1][..i] == s[..i];
  }

  lemma {:induction false} InheritingOutsideStep(s: seq<Property>, excluded: set<int>, i: int)
    requires 0 <= i < |s|
    ensures InheritingOutside(s[..i + 1], excluded)
            == InheritingOutside(s[..i], excluded) + if s[i].inherits && s[i].id !in excluded then [s[i]] else []
  {
    assert s[..i + 1][..i] == s[..i];
  }

  /** The first loop of `GetRegisteredInherited`: the inheriting own properties, each also
      added to `visited`. */
  method CollectOwnInherited(registered: seq<Property>, visited: set<int>)
    returns (inherited: seq<Property>, used: set<int>)
    requires visited == {}
    ensures inherited == InheritingOf(registered)
    ensures used == Ids(inherited)
  {
    inherited := [];
    used := visited;
    var i := 0;
    while i < |registered|
      invariant 0 <= i <= |registered|
      invariant inherited == InheritingOf(registered[..i])
      invariant used == Ids(inherited)
    {
      var property := registered[i];
      InheritingOfStep(registered, i);
      if property.inherits {
        IdsAppend(inherited, property);
        inherited := inherited + [property];
        used := used + {property.id};
      }
      i := i + 1;
    }
    assert registered[..i] == registered;
  }

  /** The second loop of `GetRegisteredInherited`: the inheriting attached properties not
      already in `visited`, appended to `prefix`. Nothing is added to `visited` here. */
  method CollectAttachedInherited(attached: seq<Property>, visited: set<int>, prefix: seq<Property>)
    returns (inherited: seq<Property>)
    ensures inherited == prefix + InheritingOutside(attached, visited)
  {
    inherited := prefix;
    var j := 0;
    while j < |attached|
      invariant 0 <= j <= |attached|
      invariant inherited == prefix + InheritingOutside(attached[..j], visited)
    {
      var property := attached[j];
      InheritingOutsideStep(attached, visited, j);
      if property.inherits {
        if property.id !in visited {
          inherited := inherited + [property];
        }
      }
      j := j + 1;
    }
    assert attached[..j] == attached;
  }

  /** The two loops of `GetRegisteredInherited`, de-duplicating through `visited`, a scratch
      set rented empty. Returns the list and the set to hand back to the pool. */
  method CollectInherited(registered: seq<Property>, attached: seq<Property>, visited: set<int>)
    returns (inherited: seq<Property>, used: set<int>)
    requires visited == {}
    ensures inherited == InheritedView(registered, attached)
  {
    var own;
    own, used := CollectOwnInherited(registered, visited);
    inherited := CollectAttachedInherited(attached, used, own);
  }

  // ---------------------------------------------------------------------------------------
  // The initialisation plan

  /** One plan entry per own property: direct ones flagged direct, the rest styled with the
      type's default. */
  function OwnEntries(host: Host, t: TypeId, registered: seq<Property>): (r: seq<PropertyInitializationData>)
    ensures |r| == |registered|
    ensures forall i :: 0 <= i < |r| ==> r[i].property == registered[i]
    ensures forall i :: 0 <= i < |r| ==> (r[i].DirectEntry? <==> registered[i].isDirect)
    ensures forall i :: 0 <= i < |r| && r[i].StyledEntry? ==> r[i].value == host.defaultValue(registered[i], t)
  {
    if |registered| == 0 then []
    else
      var n := |registered| - 1;
      var p := registered[n];
      OwnEntries(host, t, registered[..n]) + [if p.isDirect then DirectEntry(p) else StyledEntry(p, host.defaultValue(p, t))]
  }

  /** The elements of `s` whose id is neither in `excluded` nor the id of an earlier element,
      in order: the first property of `s` under each id not excluded. */
  function FirstSeenOutside(s: seq<Property>, excluded: set<int>): seq<Property> {
    if |s| == 0 then []
    else
      var init := s[..|s| - 1];
      var last := s[|s| - 1];
      assert s == init + [last];
      FirstSeenOutside(init, excluded) + if last.id !in excluded && last.id !in Ids(init) then [last] else []
  }

  /** The attached part of the plan is drawn from `s` outside `excluded` and covers every id
      of `s` outside `excluded`. */
  lemma {:induction false} FirstSeenOutsideMembers(s: seq<Property>, excluded: set<int>)
    ensures forall p :: p in FirstSeenOutside(s, excluded) ==> p in s && p.id !in excluded
    ensures Ids(FirstSeenOutside(s, excluded)) == Ids(s) - excluded
    decreases |s|
  {
    if |s| > 0 {
      var n := |s| - 1;
      var init := s[..n];
      var last := s[n];
      assert s == init + [last];
      FirstSeenOutsideMembers(init, excluded);
      var r0 := FirstSeenOutside(init, excluded);
      IdsAppend(init, last);
      if last.id !in excluded && last.id !in Ids(init) {
        assert FirstSeenOutside(s, excluded) == r0 + [last];
        IdsAppend(r0, last);
      } else {
        assert FirstSeenOutside(s, excluded) == r0;
      }
    }
  }

  /** The attached part of the plan holds each id at most once. */
  lemma {:induction false} FirstSeenOutsideDistinct(s: seq<Property>, excluded: set<int>)
    ensures forall i, j :: 0 <= i < j < |FirstSeenOutside(s, excluded)| ==>
              FirstSeenOutside(s, excluded)[i].id != FirstSeenOutside(s, excluded)[j].id
    decreases |s|
  {
    if |s| > 0 {
      var n := |s| - 1;
      var init := s[..n];
      var last := s[n];
      assert s == init + [last];
      FirstSeenOutsideDistinct(init, excluded);
      var r0 := FirstSeenOutside(init, excluded);
      var r := FirstSeenOutside(s, excluded);
      if last.id !in excluded && last.id !in Ids(init) {
        assert r == r0 + [last];
        FirstSeenOutsideMembers(init, excluded);
        forall i, j | 0 <= i < j < |r|
          ensures r[i].id != r[j].id
        {
          if j == |r0| {
            assert r[i] == r0[i] && r0[i].id in Ids(r0);
          }
        }
      } else {
        assert r == r0;
      }
    }
  }

  /** The element of `s` that first carries an id outside `excluded` is the one kept for it. */
  lemma {:induction false} FirstSeenOutsideKeepsFirst(s: seq<Property>, excluded: set<int>)
    ensures forall i :: 0 <= i < |s| && s[i].id !in excluded && s[i].id !in Ids(s[..i]) ==>
              s[i] in FirstSeenOutside(s, excluded)
    decreases |s|
  {
    if |s| > 0 {
      var n := |s| - 1;
      var init := s[..n];
      assert s == init + [s[n]];
      FirstSeenOutsideKeepsFirst(init, excluded);
      var r := FirstSeenOutside(s, excluded);
      assert FirstSeenOutside(init, excluded) <= r;
      forall i | 0 <= i < |s| && s[i].id !in excluded && s[i].id !in Ids(s[..i])
        ensures s[i] in r
      {
        if i < n {
          assert s[..i] == init[..i];
          assert init[i] == s[i];
        } else {
          assert s[..i] == init;
        }
      }
    }
  }

  /** One styled entry, with the type's default, per property of `s`. */
  function StyledEntries(host: Host, t: TypeId, s: seq<Property>): (r: seq<PropertyInitializationData>)
    ensures |r| == |s|
    ensures forall i :: 0 <= i < |r| ==> r[i] == StyledEntry(s[i], host.defaultValue(s[i], t))
  {
    if |s| == 0 then []
    else
      var n := |s| - 1;
      StyledEntries(host, t, s[..n]) + [StyledEntry(s[n], host.defaultValue(s[n], t))]
  }

  /** The initialisation plan from fresh views: an entry per own property, then a styled
      entry per attached property whose id has not been seen yet. */
  function Plan(host: Host, t: TypeId, registered: seq<Property>, attached: seq<Property>): seq<PropertyInitializationData> {
    OwnEntries(host, t, registered) + StyledEntries(host, t, FirstSeenOutside(attached, Ids(registered)))
  }

  lemma {:induction false} OwnEntriesStep(host: Host, t: TypeId, s: seq<Property>, i: int)
    requires 0 <= i < |s|
    ensures OwnEntries(host, t, s[..i + 1])
            == OwnEntries(host, t, s[..i]) + [if s[i].isDirect then DirectEntry(s[i]) else StyledEntry(s[i], host.defaultValue(s[i], t))]
  {
    assert s[..i + 1][..i] == s[..i];
  }

  lemma {:induction false} FirstSeenOutsideStep(s: seq<Property>, excluded: set<int>, i: int)
    requires 0 <= i < |s|
    ensures FirstSeenOutside(s[..i + 1], excluded)
            == FirstSeenOutside(s[..i], excluded) + if s[i].id !in excluded && s[i].id !in Ids(s[..i]) then [s[i]] else []
  {
    assert s[..i + 1][..i] == s[..i];
  }

  lemma {:induction false} StyledEntriesAppend(host: Host, t: TypeId, s: seq<Property>, p: Property)
    ensures StyledEntries(host, t, s + [p]) == StyledEntries(host, t, s) + [StyledEntry(p, host.defaultValue(p, t))]
  {
    assert (s + [p])[..|s|] == s;
  }

  /** The first loop of `CreatePropertyInitializationCache`: an entry per own property, each
      also added to `visited`. */
  method PlanOwn(host: Host, t: TypeId, registered: seq<Property>, visited: set<int>)
    returns (plan: seq<PropertyInitializationData>, used: set<int>)
    requires visited == {}
    ensures plan == OwnEntries(host, t, registered)
    ensures used == Ids(registered)
  {
    plan := [];
    used := visited;
    var i := 0;
    while i < |registered|
      invariant 0 <= i <= |registered|
      invariant plan == OwnEntries(host, t, registered[..i])
      invariant used == Ids(registered[..i])
    {
      var property := registered[i];
      OwnEntriesStep(host, t, registered, i);
      IdsStep(registered, i);
      if property.isDirect {
        plan := plan + [DirectEntry(property)];
      } else {
        plan := plan + [StyledEntry(property, host.defaultValue(property, t))];
      }
      used := used + {property.id};
      i := i + 1;
    }
    assert registered[..i] == registered;
  }

  /** The second loop of `CreatePropertyInitializationCache`: a styled entry per attached
      property not yet in `visited`, which then records it. */
  method PlanAttached(host: Host, t: TypeId, attached: seq<Property>, visited: set<int>)
    returns (styled: seq<PropertyInitializationData>, used: set<int>)
    ensures styled == StyledEntries(host, t, FirstSeenOutside(attached, visited))
    ensures used == visited + Ids(attached)
  {
    styled := [];
    used := visited;
    var j := 0;
    ghost var seen: seq<Property> := [];
    while j < |attached|
      invariant 0 <= j <= |attached|
      invariant seen == FirstSeenOutside(attached[..j], visited)
      invariant styled == StyledEntries(host, t, seen)
      invariant used == visited + Ids(attached[..j])
    {
      var property := attached[j];
      FirstSeenOutsideStep(attached, visited, j);
      IdsStep(attached, j);
      if property.id !in used {
        StyledEntriesAppend(host, t, seen, property);
        styled := styled + [StyledEntry(property, host.defaultValue(property, t))];
        seen := seen + [property];
        used := used + {property.id};
      }
      j := j + 1;
    }
    assert attached[..j] == attached;
  }

  /** The two loops of `CreatePropertyInitializationCache`, de-duplicating through `visited`,
      a scratch set rented empty. Returns the plan and the set to hand back to the pool. */
  method BuildPlan(host: Host, t: TypeId, registered: seq<Property>, attached: seq<Property>, visited: set<int>)
    returns (plan: seq<PropertyInitializationData>, used: set<int>)
    requires visited == {}
    ensures plan == Plan(host, t, registered, attached)
  {
    var own, styled;
    own, used := PlanOwn(host, t, registered, visited);
    styled, used := PlanAttached(host, t, attached, used);
    plan := own + styled;
  }

  // ---------------------------------------------------------------------------------------
  // The notification pass

  /** The entries of `plan` whose property has initialisation observers, in plan order.
      `hasObservers` is `HasNotifyInitializedObservers` as it reads during this pass. */
  function Observed(plan: seq<PropertyInitializationData>, hasObservers: Property -> bool): seq<PropertyInitializationData> {
    if |plan| == 0 then []
    else
      var init := plan[..|plan| - 1];
      var last := plan[|plan| - 1];
      assert plan == init + [last];
      Observed(init, hasObservers) + if hasObservers(last.property) then [last] else []
  }

  /** Exactly the plan entries whose property has observers are notified. */
  lemma {:induction false} ObservedMembers(plan: seq<PropertyInitializationData>, hasObservers: Property -> bool)
    ensures forall d :: d in Observed(plan, hasObservers) <==> d in plan && hasObservers(d.property)
    decreases |plan|
  {
    if |plan| > 0 {
      var init := plan[..|plan| - 1];
      assert plan == init + [plan[|plan| - 1]];
      ObservedMembers(init, hasObservers);
    }
  }

  lemma {:induction false} ObservedStep(plan: seq<PropertyInitializationData>, hasObservers: Property -> bool, i: int)
    requires 0 <= i < |plan|
    ensures Observed(plan[..i + 1], hasObservers)
            == Observed(plan[..i], hasObservers) + if hasObservers(plan[i].property) then [plan[i]] else []
  {
    assert plan[..i + 1][..i] == plan[..i];
  }

  /** The event an entry yields for object `o`: old value Unset, priority Unset, and as new
      value the object's current value for a direct property or the plan's default. */
  function EventFor(o: AvaloniaObject, directValue: (AvaloniaObject, Property) -> Value, d: PropertyInitializationData): ChangedEvent {
    ChangedEvent(o, d.property, UnsetValue, if d.DirectEntry? then directValue(o, d.property) else d.value, BindingPriority.Unset)
  }

  /** The events for `entries`, one per entry, in order. */
  function EventsFor(o: AvaloniaObject, directValue: (AvaloniaObject, Property) -> Value, entries: seq<PropertyInitializationData>): seq<ChangedEvent> {
    if |entries| == 0 then []
    else
      var n := |entries| - 1;
      EventsFor(o, directValue, entries[..n]) + [EventFor(o, directValue, entries[n])]
  }

  /** `EventsFor` yields exactly one event per entry, the i-th from the i-th entry. */
  lemma {:induction false} EventsForEachEntry(o: AvaloniaObject, directValue: (AvaloniaObject, Property) -> Value,
                                              entries: seq<PropertyInitializationData>)
    ensures |EventsFor(o, directValue, entries)| == |entries|
    ensures forall i :: 0 <= i < |entries| ==> EventsFor(o, directValue, entries)[i] == EventFor(o, directValue, entries[i])
    decreases |entries|
  {
    if |entries| > 0 {
      EventsForEachEntry(o, directValue, entries[..|entries| - 1]);
    }
  }

  lemma {:induction false} EventsForAppend(o: AvaloniaObject, directValue: (AvaloniaObject, Property) -> Value,
                                           entries: seq<PropertyInitializationData>, d: PropertyInitializationData)
    ensures EventsFor(o, directValue, entries + [d]) == EventsFor(o, directValue, entries) + [EventFor(o, directValue, d)]
  {
    assert (entries + [d])[..|entries|] == entries;
  }

  lemma EmitStep(o: AvaloniaObject, directValue: (AvaloniaObject, Property) -> Value, hasObservers: Property -> bool,
                 plan: seq<PropertyInitializationData>, i: int)
    requires 0 <= i < |plan|
    ensures EventsFor(o, directValue, Observed(plan[..i + 1], hasObservers))
         == EventsFor(o, directValue, Observed(plan[..i], hasObservers))
            + if hasObservers(plan[i].property) then [EventFor(o, directValue, plan[i])] else []
  {
    ObservedStep(plan, hasObservers, i);
    if hasObservers(plan[i].property) {
      EventsForAppend(o, directValue, Observed(plan[..i], hasObservers), plan[i]);
    } else {
      assert Observed(plan[..i + 1], hasObservers) == Observed(plan[..i], hasObservers);
      var events := EventsFor(o, directValue, Observed(plan[..i], hasObservers));
      assert events + [] == events;
    }
  }

  /** The loop of `NotifyInitialized`: walks the plan, skipping entries without observers
      (no value is read for them) and emitting one event for each of the others. */
  method EmitInitialized(o: AvaloniaObject, directValue: (AvaloniaObject, Property) -> Value, hasObservers: Property -> bool,
                         plan: seq<PropertyInitializationData>)
    returns (events: seq<ChangedEvent>)
    ensures events == EventsFor(o, directValue, Observed(plan, hasObservers))
  {
    events := [];
    var index := 0;
    while index < |plan|
      invariant 0 <= index <= |plan|
      invariant events == EventsFor(o, directValue, Observed(plan[..index], hasObservers))
    {
      EmitStep(o, directValue, hasObservers, plan, index);
      if hasObservers(plan[index].property) {
        events := events + [EventFor(o, directValue, plan[index])];
      }
      index := index + 1;
    }
    assert plan[..index] == plan;
  }
}
