/** The part of the host type system the registry walks: each type's base type. */
module TypeHierarchy {

  type TypeId = nat

  /** `baseType` holds `Type.BaseType` for every type that has one; a type absent from it is a
      root. `depth` is a witness that the base-type chain is finite: it strictly decreases
      from a type to its base type. */
  datatype Hierarchy = Hierarchy(baseType: map<TypeId, TypeId>, depth: map<TypeId, nat>) {

    ghost predicate Valid() {
      forall t :: t in baseType ==> t in depth && baseType[t] in depth && depth[baseType[t]] < depth[t]
    }

    function Rank(t: TypeId): nat {
      if t in depth then depth[t] else 0
    }

    /** `t`, its base type, that type's base type, ... up to the root. */
    function Ancestors(t: TypeId): (chain: seq<TypeId>)
      requires Valid()
      ensures |chain| >= 1 && chain[0] == t
      ensures chain[|chain| - 1] !in baseType
      ensures forall i :: 0 <= i < |chain| - 1 ==> chain[i] in baseType && chain[i + 1] == baseType[chain[i]]
      decreases Rank(t)
    {
      if t in baseType then [t] + Ancestors(baseType[t]) else [t]
    }
  }
}
