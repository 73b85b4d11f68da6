/** The values the registry stores and hands out. The AvaloniaProperty class itself, its
    metadata and its observers are not part of this model: a property is the handful of fixed
    facts the registry reads from it. */
module Properties {
  import opened TypeHierarchy

  /** An AvaloniaProperty as the registry sees it. Whether it has initialisation observers is
      not a fixed fact (observers subscribe at any time); the notification pass is given it. */
  datatype Property = Property(
    id: int,
    name: string,
    isAttached: bool,
    inherits: bool,
    isDirect: bool)

  /** AvaloniaProperty's equality (the one `HashSet<AvaloniaProperty>` and
      `EqualityComparer<AvaloniaProperty>.Default` use): the same property means the same id.
      Two values with one id but other differing fields are the same property. */
  predicate SameProperty(a: Property, b: Property) {
    a.id == b.id
  }

  /** What a set of properties can answer under that equality: the ids it holds. */
  function Ids(s: seq<Property>): set<int> {
    set p | p in s :: p.id
  }

  lemma IdsStep(s: seq<Property>, i: int)
    requires 0 <= i < |s|
    ensures Ids(s[..i + 1]) == Ids(s[..i]) + {s[i].id}
  {
    assert s[..i + 1] == s[..i] + [s[i]];
  }

  /** A position in `s` of a property with a given id of `s`. */
  lemma IdIndex(s: seq<Property>, id: int) returns (i: int)
    requires id in Ids(s)
    ensures 0 <= i < |s| && s[i].id == id
  {
    var q :| q in s && q.id == id;
    i :| 0 <= i < |s| && s[i] == q;
  }

  /** `p` is the same property as some element of `s` exactly when its id is among `s`'s ids. */
  lemma IdsByIndex(s: seq<Property>, p: Property)
    ensures p.id in Ids(s) <==> exists i :: 0 <= i < |s| && SameProperty(s[i], p)
  {
    if p.id in Ids(s) {
      var i := IdIndex(s, p.id);
      assert SameProperty(s[i], p);
    }
  }

  lemma IdsAppend(s: seq<Property>, p: Property)
    ensures Ids(s + [p]) == Ids(s) + {p.id}
  {
  }

  /** A boxed property value; `UnsetValue` is AvaloniaProperty.UnsetValue. Other values are
      opaque tokens. */
  datatype Value = UnsetValue | Null | Boxed(token: nat)

  /** Only `Unset` matters to the registry. */
  datatype BindingPriority = Unset | Priority(level: int)

  /** An AvaloniaObject instance: an identity and its runtime type (`GetType()`). */
  datatype AvaloniaObject = AvaloniaObject(handle: nat, runtimeType: TypeId)

  /** AvaloniaPropertyChangedEventArgs. */
  datatype ChangedEvent = ChangedEvent(
    sender: AvaloniaObject,
    property: Property,
    oldValue: Value,
    newValue: Value,
    priority: BindingPriority)
}
