/** The CLR types the twin base class and the model library reflect over,
    as a descriptor table: each type's base, its attribute, its properties and
    the answers of the attribute and reflection helpers for it. */
module TypeSystem {
  import opened Wrappers
  import opened Lists

  type TypeId = string

  /** typeof(TwinBase): the ancestor walks stop here. */
  const TwinBaseType: TypeId := "Telstra.Twins.TwinBase"

  /** DigitalTwinAttribute. */
  datatype TwinAttribute = TwinAttribute(displayName: Option<string>, modelType: string, extendsModelId: Option<string>)

  /** A public property (PropertyInfo) and the twin attributes on it. */
  datatype MemberInfo = MemberInfo(name: string, declaringType: TypeId, propertyType: TypeId,
                                   isRelationship: bool, isComponent: bool)

  /** An entry of a TwinModel's relationship dictionary. */
  datatype Relationship = Relationship(name: string, target: string)

  datatype TypeInfo = TypeInfo(
    base: Option<TypeId>,            // Type.BaseType
    isInterface: bool,
    declaresAttribute: bool,         // Attribute.IsDefined(t, DigitalTwinAttribute, inherit: false)
    attribute: Option<TwinAttribute>, // TryGetAttribute<DigitalTwinAttribute>
    fullModelId: string,             // attribute.GetFullModelId(t)
    members: seq<MemberInfo>,        // GetProperties()
    modelPropertyType: TypeId,       // GetModelPropertyType(): a collection's element type, else the type
    modelComponents: seq<TypeId>,    // GetModelComponents(), mapped to their model property types
    interfaces: set<TypeId>,         // the interfaces the type implements
    relationships: seq<Relationship>, // TwinModelFactory.CreateTwinModel(t).Relationships
    depth: nat,                      // number of ancestors: a measure for the base chain
    relRank: nat)                    // a measure for relationship and component targets (RankedTable)

  type TypeTable = map<TypeId, TypeInfo>

  /** The model property types of the relationship and component properties
      a type declares itself (ModelLibrary.TraverseRelationships, lines 119-123). */
  function DirectTargets(tt: TypeTable, mt: TypeId): seq<TypeId>
    requires mt in tt
  {
    Map((m: MemberInfo) => ModelTypeOf(tt, m.propertyType),
        Filter((m: MemberInfo) => m.declaringType == mt && (m.isRelationship || m.isComponent), tt[mt].members))
  }

  function ModelTypeOf(tt: TypeTable, t: TypeId): TypeId {
    if t in tt then tt[t].modelPropertyType else t
  }

  /** One type's entry is consistent with the table. */
  predicate ValidType(tt: TypeTable, t: TypeId)
    requires t in tt
  {
    var ti := tt[t];
    (ti.base.Some? ==> ti.base.value in tt && tt[ti.base.value].depth < ti.depth) &&
    ti.modelPropertyType in tt && tt[ti.modelPropertyType].modelPropertyType == ti.modelPropertyType &&
    (forall m :: m in ti.members ==> m.propertyType in tt) &&
    (forall c :: c in ti.modelComponents ==> c in tt) &&
    (forall i :: i in ti.interfaces ==> i in tt) &&
    (ti.declaresAttribute ==> ti.attribute.Some?) &&
    (forall x :: x in DirectTargets(tt, t) ==> x in tt && tt[x].modelPropertyType == x)
  }

  /** The table is closed and `depth` decreases from a type to its base, so
      every inheritance chain is finite. Relationships between types may form
      cycles: two types may refer to each other. */
  predicate ValidTable(tt: TypeTable) {
    forall t {:trigger ValidType(tt, t)} :: t in tt ==> ValidType(tt, t)
  }

  /** A type's relationship and component targets, other than itself, rank below it. */
  predicate RankedType(tt: TypeTable, t: TypeId)
    requires t in tt
  {
    forall x :: x in DirectTargets(tt, t) && x != t ==> x in tt && tt[x].relRank < tt[t].relRank
  }

  /** A valid table whose relationship graph of types has no cycle other than
      a type referring to itself: what ModelLibrary.TraverseRelationships
      needs to terminate. */
  predicate RankedTable(tt: TypeTable) {
    ValidTable(tt) && forall t {:trigger RankedType(tt, t)} :: t in tt ==> RankedType(tt, t)
  }

  /** TypeDerivationComparer: ancestors sort before descendants. */
  function Depth(tt: TypeTable): TypeId -> int {
    (t: TypeId) => if t in tt then tt[t].depth else 0
  }

  /** The ancestors strictly below TwinBase, farthest first, immediate base last. */
  function AncestorChain(tt: TypeTable, t: TypeId): (r: seq<TypeId>)
    requires ValidTable(tt) && t in tt
    ensures forall x :: x in r ==> x in tt && x != TwinBaseType && tt[x].depth < tt[t].depth
    decreases tt[t].depth
  {
    var b := tt[t].base;
    if b.Some? && b.value != TwinBaseType then
      assert ValidType(tt, t);
      AncestorChain(tt, b.value) + [b.value]
    else []
  }

  /** `a` is `t`'s base, or its base's base, and so on. */
  predicate IsProperAncestor(tt: TypeTable, a: TypeId, t: TypeId)
    requires ValidTable(tt) && t in tt
    decreases tt[t].depth
  {
    var b := tt[t].base;
    b.Some? && (assert ValidType(tt, t); b.value == a || IsProperAncestor(tt, a, b.value))
  }

  /** The chain lists ancestors only, and no type twice. */
  lemma {:induction false} AncestorChainSpec(tt: TypeTable, t: TypeId)
    requires ValidTable(tt) && t in tt
    ensures forall x :: x in AncestorChain(tt, t) ==> IsProperAncestor(tt, x, t)
    ensures NoDup(AncestorChain(tt, t))
    decreases tt[t].depth
  {
    var b := tt[t].base;
    if b.Some? && b.value != TwinBaseType {
      assert ValidType(tt, t);
      var c := AncestorChain(tt, b.value);
      AncestorChainSpec(tt, b.value);
      NoDupSnoc(c, b.value);
    }
  }

  /** Type.IsAssignableFrom: `from` is `target`, derives from it or implements it. */
  predicate IsAssignable(tt: TypeTable, target: TypeId, from: TypeId)
    requires ValidTable(tt) && from in tt
    decreases tt[from].depth
  {
    from == target || target in tt[from].interfaces ||
    (tt[from].base.Some? && (assert ValidType(tt, from); IsAssignable(tt, target, tt[from].base.value)))
  }

  /** A proper ancestor sorts strictly before its descendant. */
  lemma {:induction false} AncestorShallower(tt: TypeTable, a: TypeId, t: TypeId)
    requires ValidTable(tt) && t in tt && IsProperAncestor(tt, a, t)
    ensures a in tt && tt[a].depth < tt[t].depth
    decreases tt[t].depth
  {
    assert ValidType(tt, t);
    var b := tt[t].base.value;
    if b != a {
      AncestorShallower(tt, a, b);
    }
  }

  /** A room type with a relationship to its floor and a floor type with a
      relationship to its rooms, with the relationship ranks `roomRank` and
      `floorRank`. */
  function RoomFloorTypes(roomRank: nat, floorRank: nat): TypeTable {
    var attr := Some(TwinAttribute(None, "Interface", None));
    map[TwinBaseType := TypeInfo(None, false, false, None, "", [], TwinBaseType, [], {}, [], 0, 0),
        "Room" := TypeInfo(Some(TwinBaseType), false, true, attr, "dtmi:example:Room;1",
                           [MemberInfo("Floor", "Room", "Floor", true, false)], "Room", [], {},
                           [Relationship("floor", "dtmi:example:Floor;1")], 1, roomRank),
        "Floor" := TypeInfo(Some(TwinBaseType), false, true, attr, "dtmi:example:Floor;1",
                            [MemberInfo("Rooms", "Floor", "Room", true, false)], "Floor", [], {},
                            [Relationship("rooms", "dtmi:example:Room;1")], 1, floorRank)]
  }

  /** Types that relate to each other form a valid table, though no
      relationship rank can order them. */
  lemma MutualTypesValid(roomRank: nat, floorRank: nat)
    ensures ValidTable(RoomFloorTypes(roomRank, floorRank)) && !RankedTable(RoomFloorTypes(roomRank, floorRank))
  {
    var tt := RoomFloorTypes(roomRank, floorRank);
    assert DirectTargets(tt, TwinBaseType) == [];
    assert DirectTargets(tt, "Room") == ["Floor"];
    assert DirectTargets(tt, "Floor") == ["Room"];
    assert ValidType(tt, TwinBaseType) && ValidType(tt, "Room") && ValidType(tt, "Floor");
    if roomRank <= floorRank {
      assert "Floor" in DirectTargets(tt, "Room");
      assert !RankedType(tt, "Room");
    } else {
      assert "Room" in DirectTargets(tt, "Floor");
      assert !RankedType(tt, "Floor");
    }
  }

  /** List<Type>, shared by reference between the calls that fill it. */
  class TypeList {
    var items: seq<TypeId>

    constructor ()
      ensures items == []
    {
      items := [];
    }

    method Add(t: TypeId)
      modifies this
      ensures items == old(items) + [t]
    {
      items := items + [t];
    }

    /** List.AddRange: copies `other` first, so adding a list to itself doubles it. */
    method AddRange(other: TypeList)
      modifies this
      ensures items == old(items) + old(other.items)
    {
      items := items + other.items;
    }
  }
}
