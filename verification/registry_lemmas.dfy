/** Properties of the registry that relate several operations, or an operation to an
    independent description of its result. */
module RegistryFacts {
  import opened Wrappers
  import opened Exceptions
  import opened Sequences
  import opened Dictionaries
  import opened TypeHierarchy
  import opened Properties
  import opened RegistryViews
  import opened PropertyRegistry

  // ---------------------------------------------------------------------------------------
  // The ancestor walk

  /** The tables of the types in `chain`, concatenated in chain order. */
  function Flatten(tables: map<TypeId, Table>, chain: seq<TypeId>): seq<Property>
    requires TablesValid(tables)
  {
    if |chain| == 0 then [] else OwnValues(tables, chain[0]) + Flatten(tables, chain[1..])
  }

  /** `GetRegistered(T)` is the tables of T, its base type, ... the root, most-derived
      first, one after the other with nothing dropped. */
  lemma {:induction false} ViewIsFlattenedAncestors(h: Hierarchy, tables: map<TypeId, Table>, t: TypeId)
    requires h.Valid() && TablesValid(tables)
    ensures View(h, tables, t) == Flatten(tables, h.Ancestors(t))
    decreases h.Rank(t)
  {
    if t in h.baseType {
      ViewIsFlattenedAncestors(h, tables, h.baseType[t]);
      assert h.Ancestors(t)[1..] == h.Ancestors(h.baseType[t]);
    }
  }

  /** Everything in the table of an ancestor of `t` is in `t`'s view. */
  lemma {:induction false} AncestorTablesVisible(h: Hierarchy, tables: map<TypeId, Table>, t: TypeId, a: TypeId)
    requires h.Valid() && TablesValid(tables)
    requires a in h.Ancestors(t)
    ensures forall p :: p in OwnValues(tables, a) ==> p in View(h, tables, t)
    decreases h.Rank(t)
  {
    if a != t {
      assert t in h.baseType;
      assert h.Ancestors(t) == [t] + h.Ancestors(h.baseType[t]);
      AncestorTablesVisible(h, tables, h.baseType[t], a);
    }
  }

  /** A change to the table of a type outside `t`'s ancestry leaves `t`'s view unchanged. */
  lemma {:induction false} ViewIgnoresOtherTypes(h: Hierarchy, tables: map<TypeId, Table>, tables': map<TypeId, Table>, t: TypeId, a: TypeId)
    requires h.Valid() && TablesValid(tables) && TablesValid(tables')
    requires tables' - {a} == tables - {a}
    requires a !in h.Ancestors(t)
    ensures View(h, tables', t) == View(h, tables, t)
    decreases h.Rank(t)
  {
    assert t != a;
    assert OwnValues(tables', t) == OwnValues(tables, t) by {
      assert t in tables' <==> t in (tables' - {a});
      assert t in tables <==> t in (tables - {a});
      if t in tables {
        assert tables'[t] == (tables' - {a})[t] == (tables - {a})[t] == tables[t];
      }
    }
    if t in h.baseType {
      assert h.Ancestors(t) == [t] + h.Ancestors(h.baseType[t]);
      ViewIgnoresOtherTypes(h, tables, tables', h.baseType[t], a);
    }
  }

  // ---------------------------------------------------------------------------------------
  // Registration and the views

  /** The registry as constructed satisfies the class invariant and holds nothing. */
  lemma CreateIsCoherent(host: Host)
    requires host.hierarchy.Valid()
    ensures Coherent(host, Create())
    ensures forall t :: FreshRegistered(host, Create(), t) == [] && FreshAttached(host, Create(), t) == []
  {
    forall t
      ensures FreshRegistered(host, Create(), t) == [] && FreshAttached(host, Create(), t) == []
    {
      ViewIsFlattenedAncestors(host.hierarchy, map[], t);
      FlattenOfNothing(host.hierarchy.Ancestors(t));
    }
  }

  lemma {:induction false} FlattenOfNothing(chain: seq<TypeId>)
    ensures Flatten(map[], chain) == []
  {
    if |chain| > 0 {
      FlattenOfNothing(chain[1..]);
    }
  }

  /** Registering the same id on the same type again changes nothing: the first property
      stored under the id stays, both in the type's table and in the global index. */
  lemma RegisterIsIdempotent(host: Host, r: Registry, t: TypeId, p: Property, q: Property)
    requires Coherent(host, r) && q.id == p.id
    ensures var r1 := Register(host, r, t, p);
            var r2 := Register(host, r1, t, q);
            && r2.registered == r1.registered
            && r2.properties == r1.properties
            && forall u :: FreshRegistered(host, r2, u) == FreshRegistered(host, r1, u)
  {
  }

  /** After `Register(A, p)`, the property stored under `p`'s id on A (`p` itself unless
      the id was already there) is in the fresh view of every type deriving from A, so a
      view cached before the registration is never served afterwards. */
  lemma RegisterReachesDescendants(host: Host, r: Registry, a: TypeId, t: TypeId, p: Property)
    requires Coherent(host, r)
    requires a in host.hierarchy.Ancestors(t)
    ensures var r' := Register(host, r, a, p);
            && r'.registered[a].entries[p.id] in FreshRegistered(host, r', t)
            && (!(a in r.registered && p.id in r.registered[a].entries) ==> p in FreshRegistered(host, r', t))
  {
    var r' := Register(host, r, a, p);
    ValuesAreEntries(r'.registered[a]);
    AncestorTablesVisible(host.hierarchy, r'.registered, t, a);
  }

  /** After a successful `RegisterAttached(A, p)`, `p` is in the fresh attached view of every
      type deriving from A. */
  lemma RegisterAttachedReachesDescendants(host: Host, r: Registry, a: TypeId, t: TypeId, p: Property)
    requires Coherent(host, r)
    requires a in host.hierarchy.Ancestors(t)
    ensures var result := RegisterAttached(host, r, a, p);
            result.Success? ==> p in FreshAttached(host, result.value, t)
  {
    var result := RegisterAttached(host, r, a, p);
    if result.Success? {
      var r' := result.value;
      assert p in OwnValues(r'.attached, a);
      AncestorTablesVisible(host.hierarchy, r'.attached, t, a);
    }
  }

  /** Registering on a type outside `t`'s ancestry does not change `t`'s views. */
  lemma RegisterElsewhereKeepsView(host: Host, r: Registry, a: TypeId, t: TypeId, p: Property)
    requires Coherent(host, r)
    requires a !in host.hierarchy.Ancestors(t)
    ensures FreshRegistered(host, Register(host, r, a, p), t) == FreshRegistered(host, r, t)
    ensures var result := RegisterAttached(host, r, a, p);
            result.Success? ==> FreshAttached(host, result.value, t) == FreshAttached(host, r, t)
  {
    ViewIgnoresOtherTypes(host.hierarchy, r.registered, Register(host, r, a, p).registered, t, a);
    var result := RegisterAttached(host, r, a, p);
    if result.Success? {
      ViewIgnoresOtherTypes(host.hierarchy, r.attached, result.value.attached, t, a);
    }
  }

  // ---------------------------------------------------------------------------------------
  // The inherited view

  lemma {:induction false} InheritingOfCount(s: seq<Property>, p: Property)
    requires p.inherits
    ensures multiset(InheritingOf(s))[p] == multiset(s)[p]
    decreases |s|
  {
    if |s| > 0 {
      var init := s[..|s| - 1];
      assert s == init + [s[|s| - 1]];
      InheritingOfCount(init, p);
    }
  }

  /** Once an inheriting property is among the own properties, the attached side contributes
      nothing under its id: every property sharing that id (the same property attached, or
      another object with the same id) occurs in the inherited view exactly as often as among
      the inheriting own properties, so a property registered once is inherited once. */
  lemma AttachedSuppressed(registered: seq<Property>, attached: seq<Property>, p: Property)
    requires p in registered && p.inherits
    ensures forall q: Property :: q.id == p.id ==>
              multiset(InheritedView(registered, attached))[q] == if q.inherits then multiset(registered)[q] else 0
  {
    var own := InheritingOf(registered);
    var outside := InheritingOutside(attached, Ids(own));
    InheritingOfMembers(registered);
    InheritingOutsideMembers(attached, Ids(own));
    assert p.id in Ids(own);
    forall q: Property | q.id == p.id
      ensures multiset(InheritedView(registered, attached))[q] == if q.inherits then multiset(registered)[q] else 0
    {
      assert q !in outside;
      assert multiset(InheritedView(registered, attached))[q] == multiset(own)[q] + multiset(outside)[q];
      if q.inherits {
        InheritingOfCount(registered, q);
      } else {
        assert q !in own;
      }
    }
  }

  // ---------------------------------------------------------------------------------------
  // The initialisation plan

  /** The plan laid out: the own entries, then one styled entry per kept attached property. */
  lemma PlanParts(host: Host, t: TypeId, registered: seq<Property>, attached: seq<Property>)
    ensures var plan := Plan(host, t, registered, attached);
            var seen := FirstSeenOutside(attached, Ids(registered));
            && |plan| == |registered| + |seen|
            && (forall i :: 0 <= i < |registered| ==> plan[i] == OwnEntries(host, t, registered)[i])
            && (forall m :: 0 <= m < |seen| ==> plan[|registered| + m] == StyledEntry(seen[m], host.defaultValue(seen[m], t)))
  {
    var own := OwnEntries(host, t, registered);
    var seen := FirstSeenOutside(attached, Ids(registered));
    var styled := StyledEntries(host, t, seen);
    var plan := own + styled;
    assert Plan(host, t, registered, attached) == plan;
    forall m | 0 <= m < |seen|
      ensures plan[|registered| + m] == StyledEntry(seen[m], host.defaultValue(seen[m], t))
    {
      assert plan[|own| + m] == styled[m];
    }
  }

  /** The plan has an entry per own property, in order, direct ones flagged direct; then
      styled entries for attached properties whose id no own property has, one per id. */
  lemma PlanShape(host: Host, t: TypeId, registered: seq<Property>, attached: seq<Property>)
    ensures var plan := Plan(host, t, registered, attached);
            && |registered| <= |plan| <= |registered| + |attached|
            && (forall i :: 0 <= i < |registered| ==>
                  plan[i].property == registered[i] && (plan[i].DirectEntry? <==> registered[i].isDirect))
            && (forall i :: |registered| <= i < |plan| ==>
                  && plan[i] == StyledEntry(plan[i].property, host.defaultValue(plan[i].property, t))
                  && plan[i].property in attached && plan[i].property.id !in Ids(registered))
            && (forall i, j :: |registered| <= i < j < |plan| ==> plan[i].property.id != plan[j].property.id)
  {
    var plan := Plan(host, t, registered, attached);
    var seen := FirstSeenOutside(attached, Ids(registered));
    PlanParts(host, t, registered, attached);
    FirstSeenOutsideMembers(attached, Ids(registered));
    FirstSeenOutsideDistinct(attached, Ids(registered));
    FirstSeenOutsideLength(attached, Ids(registered));
    forall i | |registered| <= i < |plan|
      ensures plan[i].property == seen[i - |registered|]
    {
      assert plan[|registered| + (i - |registered|)] == plan[i];
    }
  }

  /** Where no own property has an attached property's id, the plan's entry for that id is
      for the first attached property carrying it. */
  lemma PlanKeepsFirstAttached(host: Host, t: TypeId, registered: seq<Property>, attached: seq<Property>)
    ensures var plan := Plan(host, t, registered, attached);
            forall k :: 0 <= k < |attached| && attached[k].id !in Ids(registered) && attached[k].id !in Ids(attached[..k]) ==>
              exists i :: |registered| <= i < |plan| && plan[i].property == attached[k]
  {
    var plan := Plan(host, t, registered, attached);
    var seen := FirstSeenOutside(attached, Ids(registered));
    PlanParts(host, t, registered, attached);
    FirstSeenOutsideKeepsFirst(attached, Ids(registered));
    forall k | 0 <= k < |attached| && attached[k].id !in Ids(registered) && attached[k].id !in Ids(attached[..k])
      ensures exists i :: |registered| <= i < |plan| && plan[i].property == attached[k]
    {
      var m :| 0 <= m < |seen| && seen[m] == attached[k];
      assert plan[|registered| + m].property == attached[k];
    }
  }

  /** Every attached property's id has a plan entry: an own one, or a styled one. */
  lemma PlanCoversAttached(host: Host, t: TypeId, registered: seq<Property>, attached: seq<Property>)
    ensures var plan := Plan(host, t, registered, attached);
            forall p :: p in attached ==> exists i :: 0 <= i < |plan| && plan[i].property.id == p.id
  {
    var plan := Plan(host, t, registered, attached);
    var seen := FirstSeenOutside(attached, Ids(registered));
    PlanParts(host, t, registered, attached);
    FirstSeenOutsideMembers(attached, Ids(registered));
    forall p | p in attached
      ensures exists i :: 0 <= i < |plan| && plan[i].property.id == p.id
    {
      assert p.id in Ids(attached);
      if p.id in Ids(registered) {
        var i := IdIndex(registered, p.id);
        assert plan[i].property.id == p.id;
      } else {
        var m := IdIndex(seen, p.id);
        assert plan[|registered| + m].property.id == p.id;
      }
    }
  }

  lemma {:induction false} FirstSeenOutsideLength(s: seq<Property>, excluded: set<int>)
    ensures |FirstSeenOutside(s, excluded)| <= |s|
    decreases |s|
  {
    if |s| > 0 {
      FirstSeenOutsideLength(s[..|s| - 1], excluded);
    }
  }

  // ---------------------------------------------------------------------------------------
  // Lookup by name

  /** Among properties sharing a name, the name lookup answers with the first in view order;
      no other answer meets its contract. */
  lemma SameNameFirstWins(view: seq<Property>, name: string, found: Option<Property>)
    requires |view| > 0 && forall i :: 0 <= i < |view| ==> view[i].name == name
    requires IsFirstMatch(view, name, HasName, found)
    ensures found == Some(view[0])
  {
    assert IsFirstMatch(view, name, HasName, Some(view[0])) by {
      assert HasName(view[0], name);
    }
    FirstMatchIsUnique(view, name, HasName, found, Some(view[0]));
  }

  // ---------------------------------------------------------------------------------------
  // Lookup by id

  /** The ids 0 .. n-1. */
  function IdsBelow(n: nat): (ids: set<int>)
    ensures forall id :: id in ids <==> 0 <= id < n
    ensures |ids| == n
  {
    if n == 0 then {} else IdsBelow(n - 1) + {n - 1}
  }

  /** When the index holds exactly the ids 0 .. n-1, `FindRegistered(id)` never throws for a
      non-negative id: it returns the property for an indexed id and null past the end. */
  lemma DenseIdsNeverThrow(r: Registry, n: nat, id: int)
    requires r.properties.Keys == IdsBelow(n)
    requires id >= 0
    ensures id < n ==> FindRegisteredById(r, id) == Success(Some(r.properties[id]))
    ensures id >= n ==> FindRegisteredById(r, id) == Success(None)
  {
    assert |r.properties| == |r.properties.Keys|;
  }

  /** After `Register(t, p)` the id lookup of `p.id` never throws, whatever ids were
      registered before: it yields the property stored under that id (`p` unless the id was
      already indexed), or null when the id is not below the index's count. */
  lemma RegisterThenFindById(host: Host, r: Registry, t: TypeId, p: Property)
    requires Coherent(host, r)
    ensures var r' := Register(host, r, t, p);
            var found := FindRegisteredById(r', p.id);
            && found.Success?
            && (found.value.Some? ==> found.value.value.id == p.id)
            && (found.value.Some? && p.id !in r.properties ==> found.value.value == p)
            && (p.id < |r'.properties| <==> found.value.Some?)
  {
  }

  /** Without dense ids the count test does not guard the indexer: an index holding only id
      1 throws for id 0, and any non-empty index throws for a negative id. */
  lemma SparseIdsThrow(p: Property)
    requires p.id == 1
    ensures var r := Create().(properties := map[1 := p]);
            && FindRegisteredById(r, 0) == Failure(KeyNotFound)
            && FindRegisteredById(r, -1) == Failure(KeyNotFound)
  {
    var r := Create().(properties := map[1 := p]);
    assert |r.properties| == 1;
  }

  // ---------------------------------------------------------------------------------------
  // Scenarios

  const Control: TypeId := 1
  const Button: TypeId := 2
  const Class1: TypeId := 3

  /** Button derives from Control; Control and Class1 are roots. */
  function Controls(): (h: Hierarchy)
    ensures h.Valid()
  {
    Hierarchy(map[Button := Control], map[Control := 0, Button := 1])
  }

  const Width := Property(0, "Width", false, false, false)
  const IsEnabled := Property(1, "IsEnabled", false, true, false)
  const Foreground := Property(2, "Foreground", true, true, false)
  /** A second object with `Foreground`'s id, as `AddOwner` makes: the same AvaloniaProperty
      to every hash set and dictionary of the registry. */
  const ForegroundOwner := Property(2, "Foreground", false, true, false)
  const IntName := "Int"
  const Int1 := Property(3, IntName, false, false, false)
  const Int2 := Property(4, IntName, false, false, false)

  /** `Width`, then `IsEnabled`, registered on Control. */
  function ControlRegistry(host: Host): (r: Registry)
    requires host.hierarchy == Controls()
    ensures Coherent(host, r)
    ensures r.attached == map[] && r.registered.Keys == {Control}
    ensures OwnValues(r.registered, Control) == [Width, IsEnabled]
  {
    CreateIsCoherent(host);
    var r1 := Register(host, Create(), Control, Width);
    assert OwnValues(r1.registered, Control) == [Width];
    Register(host, r1, Control, IsEnabled)
  }

  /** Button inherits Control's registrations in registration order, and `IsEnabled` is its
      only inherited property. */
  lemma WidthAndIsEnabledOnButton(host: Host)
    requires host.hierarchy == Controls()
    ensures FreshRegistered(host, ControlRegistry(host), Button) == [Width, IsEnabled]
    ensures FreshInherited(host, ControlRegistry(host), Button) == [IsEnabled]
  {
    var r := ControlRegistry(host);
    assert FreshRegistered(host, r, Control) == [Width, IsEnabled];
    assert FreshAttached(host, r, Control) == [];
    var registered := FreshRegistered(host, r, Button);
    assert registered == [Width, IsEnabled];
    assert FreshAttached(host, r, Button) == [];
    assert InheritingOf(registered) == [IsEnabled] by {
      assert registered[..1] == [Width];
      assert InheritingOf([Width]) == [];
    }
  }

  /** `Foreground` attached on Control, then its owner object (same id) registered as an own
      property of Button. */
  function ForegroundRegistry(host: Host): (r: Registry)
    requires host.hierarchy == Controls()
    ensures Coherent(host, r)
    ensures OwnValues(r.attached, Control) == [Foreground] && r.attached.Keys == {Control}
    ensures OwnValues(r.registered, Button) == [ForegroundOwner] && r.registered.Keys == {Button}
  {
    CreateIsCoherent(host);
    var attached := RegisterAttached(host, Create(), Control, Foreground);
    assert attached.Success?;
    Register(host, attached.value, Button, ForegroundOwner)
  }

  /** A property attached on Control whose id Button also registers as its own appears once in
      Button's inherited view, as the own object, although both of Button's views hold an
      object with that id. */
  lemma AttachedThenOwnInheritedOnce(host: Host)
    requires host.hierarchy == Controls()
    ensures FreshRegistered(host, ForegroundRegistry(host), Button) == [ForegroundOwner]
    ensures FreshAttached(host, ForegroundRegistry(host), Button) == [Foreground]
    ensures FreshInherited(host, ForegroundRegistry(host), Button) == [ForegroundOwner]
  {
    var r := ForegroundRegistry(host);
    assert FreshRegistered(host, r, Control) == [];
    assert FreshAttached(host, r, Control) == [Foreground];
    assert InheritingOf([ForegroundOwner]) == [ForegroundOwner];
    assert Ids([ForegroundOwner]) == {2};
    assert InheritingOutside([Foreground], {2}) == [];
  }

  /** Two properties named "Int" registered on Class1, as the registry benchmark does twelve
      times. */
  function Class1Registry(host: Host): (r: Registry)
    requires host.hierarchy == Controls()
    ensures Coherent(host, r)
    ensures r.registered.Keys == {Class1} && OwnValues(r.registered, Class1) == [Int1, Int2]
  {
    CreateIsCoherent(host);
    var r1 := Register(host, Create(), Class1, Int1);
    assert OwnValues(r1.registered, Class1) == [Int1];
    Register(host, r1, Class1, Int2)
  }

  /** Duplicate names are accepted: both properties named "Int" are in Class1's view, in
      registration order, so by `SameNameFirstWins` a lookup of "Int" finds `Int1`. */
  lemma Class1View(host: Host)
    requires host.hierarchy == Controls()
    ensures FreshRegistered(host, Class1Registry(host), Class1) == [Int1, Int2]
  {
    assert Class1 !in host.hierarchy.baseType;
  }
}
