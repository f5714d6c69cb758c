/** ModelLibrary: the registry of twin types by model id, the twin models
    built for them, and the type queries over the registry. */
module Services {
  import opened Wrappers
  import opened Lists
  import opened TypeSystem

  /** A loaded assembly: its types, or None when GetTypes() throws ReflectionTypeLoadException. */
  datatype Assembly = Assembly(types: Option<seq<TypeId>>)

  /** A TwinModel: its own relationships and those merged from its ancestors,
      each a dictionary kept in insertion order. */
  datatype TwinModel = TwinModel(relationships: seq<Relationship>, extending: seq<Relationship>)

  /** The exceptions Init and GetTwinModel end in. */
  datatype LibraryError =
    | DuplicateModelId(id: string)         // _modelTypes.Add
    | DuplicateTwinModel(t: TypeId)        // _twinModels.Add
    | TypeLoadFailure                      // GetTypes() in the example-provider lookup
    | DuplicateRelationship(name: string)  // ExtendingRelationships.Add
    | MissingTwinModel(t: TypeId)          // GetTwinModel of an unregistered type

  /** The registry's three tables: model id to type, the registered types in
      registration order (the enumeration order of _modelTypes.Values), and
      type to twin model. */
  datatype Index = Index(modelTypes: map<string, TypeId>, all: seq<TypeId>, twinModels: map<TypeId, TwinModel>)

  const EmptyIndex := Index(map[], [], map[])

  // ---------------------------------------------------------------------
  // Discovery and registration

  /** Attribute.IsDefined(t, typeof(DigitalTwinAttribute), inherit: false). */
  predicate DeclaresAttribute(tt: TypeTable, t: TypeId) {
    t in tt && tt[t].declaresAttribute
  }

  /** An assembly's attributed types; none when its listing throws. */
  function AssemblyTypes(tt: TypeTable, a: Assembly): seq<TypeId> {
    if a.types.None? then [] else Filter((t: TypeId) => DeclaresAttribute(tt, t), a.types.value)
  }

  /** Enumerable.SelectMany over the assemblies. */
  function Discovered(tt: TypeTable, assemblies: seq<Assembly>): (r: seq<TypeId>)
    ensures forall t :: t in r ==> DeclaresAttribute(tt, t)
  {
    if assemblies == [] then []
    else AssemblyTypes(tt, assemblies[0]) + Discovered(tt, assemblies[1..])
  }

  /** The discovered types ordered by TypeDerivationComparer, ancestors first. */
  function Candidates(tt: TypeTable, assemblies: seq<Assembly>): (r: seq<TypeId>)
    ensures forall t :: t in r ==> DeclaresAttribute(tt, t)
  {
    var d := Discovered(tt, assemblies);
    var s := SortBy(Depth(tt), d);
    assert forall t :: t in s ==> t in multiset(d);
    s
  }

  predicate Registrable(tt: TypeTable, t: TypeId) {
    t in tt && !tt[t].isInterface
  }

  function IsRegistrable(tt: TypeTable): TypeId -> bool {
    (t: TypeId) => Registrable(tt, t)
  }

  /** attr.GetFullModelId(t). */
  function ModelIdOf(tt: TypeTable): TypeId -> string {
    (t: TypeId) => if t in tt then tt[t].fullModelId else ""
  }

  /** The types Init registers, in registration order. */
  function Registered(tt: TypeTable, assemblies: seq<Assembly>): (r: seq<TypeId>)
    ensures forall t :: t in r ==> Registrable(tt, t)
  {
    Filter(IsRegistrable(tt), Candidates(tt, assemblies))
  }

  /** The tables after the ForEach over `types`: interfaces are skipped;
      Dictionary.Add throws on a model id, then on a type, already present. */
  function Register(tt: TypeTable, types: seq<TypeId>): Result<Index, LibraryError>
    requires forall t :: t in types ==> t in tt
  {
    if types == [] then Ok(EmptyIndex)
    else
      var dt := types[|types| - 1];
      match Register(tt, types[..|types| - 1])
      case Err(e) => Err(e)
      case Ok(ix) =>
        if tt[dt].isInterface then Ok(ix)
        else if tt[dt].fullModelId in ix.modelTypes then Err(DuplicateModelId(tt[dt].fullModelId))
        else if dt in ix.twinModels then Err(DuplicateTwinModel(dt))
        else Ok(Index(ix.modelTypes[tt[dt].fullModelId := dt], ix.all + [dt],
                      ix.twinModels[dt := TwinModel(tt[dt].relationships, [])]))
  }

  function NameOf(r: Relationship): string {
    r.name
  }

  /** The keys of a relationship dictionary. */
  function Names(rels: seq<Relationship>): seq<string> {
    Map(NameOf, rels)
  }

  /** Each relationship added in turn; Dictionary.Add throws on a name already present. */
  function AddRelationships(acc: seq<Relationship>, rels: seq<Relationship>): Result<seq<Relationship>, LibraryError> {
    if rels == [] then Ok(acc)
    else
      var r := rels[|rels| - 1];
      match AddRelationships(acc, rels[..|rels| - 1])
      case Err(e) => Err(e)
      case Ok(e) => if r.name in Names(e) then Err(DuplicateRelationship(r.name)) else Ok(e + [r])
  }

  /** The recursion of InitializeExtendingRelationships: from `b`, while the
      type is registered, its own relationships are added and the walk goes
      on to its base. */
  function Extending(tt: TypeTable, registered: set<TypeId>, b: Option<TypeId>, acc: seq<Relationship>)
    : Result<seq<Relationship>, LibraryError>
    requires ValidTable(tt) && registered <= tt.Keys
    decreases if b.Some? && b.value in tt then tt[b.value].depth + 1 else 0
  {
    if b.None? || b.value !in registered then Ok(acc)
    else
      match AddRelationships(acc, tt[b.value].relationships)
      case Err(e) => Err(e)
      case Ok(acc') => assert ValidType(tt, b.value); Extending(tt, registered, tt[b.value].base, acc')
  }

  /** Every twin model holds its type's own relationships. */
  predicate ModelsFromTable(tt: TypeTable, models: map<TypeId, TwinModel>) {
    forall t :: t in models ==> t in tt && models[t].relationships == tt[t].relationships
  }

  /** Changing one model's extending relationships keeps the keys and the own relationships. */
  lemma ExtendedModel(tt: TypeTable, models: map<TypeId, TwinModel>, t: TypeId, ext: seq<Relationship>)
    requires ModelsFromTable(tt, models) && t in models
    ensures models[t := models[t].(extending := ext)].Keys == models.Keys
    ensures ModelsFromTable(tt, models[t := models[t].(extending := ext)])
  {
  }

  /** The foreach over _twinModels, for the registered types `ts` in order. */
  function ExtendAll(tt: TypeTable, ix: Index, ts: seq<TypeId>): (r: Result<Index, LibraryError>)
    requires ValidTable(tt) && ModelsFromTable(tt, ix.twinModels)
    requires forall t :: t in ts ==> t in ix.twinModels
    ensures r.Ok? ==> r.value.modelTypes == ix.modelTypes && r.value.all == ix.all &&
                      r.value.twinModels.Keys == ix.twinModels.Keys &&
                      ModelsFromTable(tt, r.value.twinModels)
  {
    if ts == [] then Ok(ix)
    else
      var dt := ts[|ts| - 1];
      match ExtendAll(tt, ix, ts[..|ts| - 1])
      case Err(e) => Err(e)
      case Ok(cur) => ExtendStep(tt, cur, dt)
  }

  /** One turn of that foreach: `dt`'s ancestors' relationships are merged into its model. */
  function ExtendStep(tt: TypeTable, cur: Index, dt: TypeId): Result<Index, LibraryError>
    requires ValidTable(tt) && ModelsFromTable(tt, cur.twinModels) && dt in cur.twinModels
  {
    var m := cur.twinModels[dt];
    assert ValidType(tt, dt);
    match Extending(tt, cur.twinModels.Keys, tt[dt].base, m.extending)
    case Err(e) => Err(e)
    case Ok(ext) => Ok(cur.(twinModels := cur.twinModels[dt := m.(extending := ext)]))
  }

  /** The foreach after `k` turns and after one more. */
  lemma ExtendAllAt(tt: TypeTable, ix: Index, ts: seq<TypeId>, k: nat)
    requires ValidTable(tt) && ModelsFromTable(tt, ix.twinModels)
    requires forall t :: t in ts ==> t in ix.twinModels
    requires k < |ts| && ExtendAll(tt, ix, ts[..k]).Ok?
    ensures ts[k] in ExtendAll(tt, ix, ts[..k]).value.twinModels && ts[k] in tt
    ensures ExtendAll(tt, ix, ts[..k + 1]) == ExtendStep(tt, ExtendAll(tt, ix, ts[..k]).value, ts[k])
  {
    assert ts[..k + 1][..k] == ts[..k];
    assert ts[k] in ts;
  }

  /** The shape registration leaves: each registered type once, with a twin
      model built from the table and nothing merged yet. */
  predicate Shaped(tt: TypeTable, ix: Index) {
    ModelsFromTable(tt, ix.twinModels) &&
    (forall t :: t in ix.twinModels ==> t in ix.all) &&
    (forall t :: t in ix.all ==> t in ix.twinModels) &&
    (forall t :: t in ix.twinModels ==> ix.twinModels[t].extending == []) &&
    NoDup(ix.all)
  }

  lemma {:induction false} RegisterShape(tt: TypeTable, types: seq<TypeId>)
    requires forall t :: t in types ==> t in tt
    ensures Register(tt, types).Ok? ==> Shaped(tt, Register(tt, types).value)
  {
    if types != [] {
      var init, dt := types[..|types| - 1], types[|types| - 1];
      RegisterShape(tt, init);
      if Register(tt, init).Ok? {
        NoDupSnoc(Register(tt, init).value.all, dt);
      }
    }
  }

  /** Init: registration, then the example-provider lookup, whose GetTypes
      call on the first assembly has no handler, then the extending
      relationships of every registered type. */
  function InitSpec(tt: TypeTable, assemblies: seq<Assembly>): Result<Index, LibraryError>
    requires ValidTable(tt)
  {
    var types := Candidates(tt, assemblies);
    match Register(tt, types)
    case Err(e) => Err(e)
    case Ok(ix) =>
      if |assemblies| > 0 && assemblies[0].types.None? then Err(TypeLoadFailure)
      else
        RegisterShape(tt, types);
        ExtendAll(tt, ix, ix.all)
  }

  // ---------------------------------------------------------------------
  // Errors persist along the snoc-recursive definitions

  lemma {:induction false} RegisterPrefixErr(tt: TypeTable, types: seq<TypeId>, i: nat)
    requires forall t :: t in types ==> t in tt
    requires i <= |types| && Register(tt, types[..i]).Err?
    ensures Register(tt, types) == Register(tt, types[..i])
    decreases |types|
  {
    if i < |types| {
      var init := types[..|types| - 1];
      assert init[..i] == types[..i];
      RegisterPrefixErr(tt, init, i);
    } else {
      assert types[..i] == types;
    }
  }

  lemma {:induction false} AddRelationshipsPrefixErr(acc: seq<Relationship>, rels: seq<Relationship>, i: nat)
    requires i <= |rels| && AddRelationships(acc, rels[..i]).Err?
    ensures AddRelationships(acc, rels) == AddRelationships(acc, rels[..i])
    decreases |rels|
  {
    if i < |rels| {
      var init := rels[..|rels| - 1];
      assert init[..i] == rels[..i];
      AddRelationshipsPrefixErr(acc, init, i);
    } else {
      assert rels[..i] == rels;
    }
  }

  lemma {:induction false} ExtendAllPrefixErr(tt: TypeTable, ix: Index, ts: seq<TypeId>, i: nat)
    requires ValidTable(tt) && ModelsFromTable(tt, ix.twinModels)
    requires forall t :: t in ts ==> t in ix.twinModels
    requires i <= |ts| && ExtendAll(tt, ix, ts[..i]).Err?
    ensures ExtendAll(tt, ix, ts) == ExtendAll(tt, ix, ts[..i])
    decreases |ts|
  {
    if i < |ts| {
      var init := ts[..|ts| - 1];
      assert init[..i] == ts[..i];
      ExtendAllPrefixErr(tt, ix, init, i);
    } else {
      assert ts[..i] == ts;
    }
  }

  // ---------------------------------------------------------------------
  // What registration and merging compute

  /** Registration, when it completes, registers exactly the non-interface
      types, in order, each under its own full model id. */
  lemma {:induction false} RegisterContents(tt: TypeTable, types: seq<TypeId>)
    requires forall t :: t in types ==> t in tt
    ensures Register(tt, types).Ok? ==>
              var ix := Register(tt, types).value;
              ix.all == Filter(IsRegistrable(tt), types) &&
              (forall id :: id in ix.modelTypes ==> ix.modelTypes[id] in ix.all && tt[ix.modelTypes[id]].fullModelId == id) &&
              (forall t :: t in ix.all ==> tt[t].fullModelId in ix.modelTypes && ix.modelTypes[tt[t].fullModelId] == t)
    decreases |types|
  {
    var p := IsRegistrable(tt);
    if types != [] {
      var init, dt := types[..|types| - 1], types[|types| - 1];
      assert types == init + [dt];
      RegisterContents(tt, init);
      FilterConcat(p, init, [dt]);
      if p(dt) {
        assert Filter(p, [dt]) == [dt];
      } else {
        assert Filter(p, [dt]) == [];
        assert Filter(p, init) + [] == Filter(p, init);
      }
    }
  }

  /** Registration succeeds exactly when the non-interface types carry
      distinct full model ids; a clash is reported as a duplicate model id. */
  lemma {:induction false} RegisterSpec(tt: TypeTable, types: seq<TypeId>)
    requires forall t :: t in types ==> t in tt
    ensures Register(tt, types).Ok? <==> NoDup(Map(ModelIdOf(tt), Filter(IsRegistrable(tt), types)))
    ensures Register(tt, types).Err? ==> Register(tt, types).error.DuplicateModelId?
    decreases |types|
  {
    var p := IsRegistrable(tt);
    if types != [] {
      var init, dt := types[..|types| - 1], types[|types| - 1];
      assert types == init + [dt];
      RegisterSpec(tt, init);
      FilterConcat(p, init, [dt]);
      var f := Filter(p, init);
      var ids := Map(ModelIdOf(tt), f);
      if p(dt) {
        var id := tt[dt].fullModelId;
        assert Filter(p, [dt]) == [dt];
        MapConcat(ModelIdOf(tt), f, [dt]);
        assert Map(ModelIdOf(tt), [dt]) == [id];
        NoDupSnoc(ids, id);
        if Register(tt, init).Ok? {
          RegisterStep(tt, types);
        }
      } else {
        assert Filter(p, [dt]) == [];
        assert f + [] == f;
      }
    }
  }

  /** One registrable type more: registration goes on exactly when its model
      id is new, and otherwise reports that id. */
  lemma RegisterStep(tt: TypeTable, types: seq<TypeId>)
    requires forall t :: t in types ==> t in tt
    requires types != [] && Registrable(tt, types[|types| - 1])
    requires Register(tt, types[..|types| - 1]).Ok?
    ensures var init, dt := types[..|types| - 1], types[|types| - 1];
            (Register(tt, types).Ok? <==> tt[dt].fullModelId !in Map(ModelIdOf(tt), Filter(IsRegistrable(tt), init))) &&
            (Register(tt, types).Err? ==> Register(tt, types).error.DuplicateModelId?)
  {
    var init, dt := types[..|types| - 1], types[|types| - 1];
    RegisterContents(tt, init);
    RegisterShape(tt, init);
    var ix := Register(tt, init).value;
    IdsOfRegistered(tt, ix, Filter(IsRegistrable(tt), init), tt[dt].fullModelId);
    if dt in ix.twinModels {
      assert dt in ix.all;
    }
  }

  lemma IdsOfRegistered(tt: TypeTable, ix: Index, f: seq<TypeId>, id: string)
    requires forall t :: t in f ==> t in tt
    requires ix.all == f
    requires forall i :: i in ix.modelTypes ==> ix.modelTypes[i] in ix.all && tt[ix.modelTypes[i]].fullModelId == i
    requires forall t :: t in ix.all ==> tt[t].fullModelId in ix.modelTypes
    ensures id in Map(ModelIdOf(tt), f) <==> id in ix.modelTypes
  {
    var ids := Map(ModelIdOf(tt), f);
    if id in ids {
      var k :| 0 <= k < |ids| && ids[k] == id;
      assert tt[f[k]].fullModelId == id;
    }
    if id in ix.modelTypes {
      var k :| 0 <= k < |f| && f[k] == ix.modelTypes[id];
      assert ids[k] == id;
    }
  }

  /** Adding to a duplicate-free dictionary succeeds exactly when no name
      repeats; the entries are then appended in order. */
  lemma {:induction false} AddRelationshipsSpec(acc: seq<Relationship>, rels: seq<Relationship>)
    requires NoDup(Names(acc))
    ensures AddRelationships(acc, rels).Ok? <==> NoDup(Names(acc + rels))
    ensures AddRelationships(acc, rels).Ok? ==> AddRelationships(acc, rels).value == acc + rels
    ensures AddRelationships(acc, rels).Err? ==> AddRelationships(acc, rels).error.DuplicateRelationship?
    decreases |rels|
  {
    if rels == [] {
      assert acc + rels == acc;
    } else {
      var init, r := rels[..|rels| - 1], rels[|rels| - 1];
      assert acc + rels == (acc + init) + [r];
      AddRelationshipsSpec(acc, init);
      MapConcat(NameOf, acc + init, [r]);
      assert Names([r]) == [r.name];
      NoDupSnoc(Names(acc + init), r.name);
    }
  }

  /** The relationships of the registered ancestors from `b` on, nearest
      first, up to the first type that is not registered. */
  function ChainRels(tt: TypeTable, registered: set<TypeId>, b: Option<TypeId>): seq<Relationship>
    requires ValidTable(tt) && registered <= tt.Keys
    decreases if b.Some? && b.value in tt then tt[b.value].depth + 1 else 0
  {
    if b.None? || b.value !in registered then []
    else assert ValidType(tt, b.value); tt[b.value].relationships + ChainRels(tt, registered, tt[b.value].base)
  }

  /** The walk adds the whole chain; it fails exactly when a name repeats. */
  lemma {:induction false} ExtendingSpec(tt: TypeTable, registered: set<TypeId>, b: Option<TypeId>, acc: seq<Relationship>)
    requires ValidTable(tt) && registered <= tt.Keys && NoDup(Names(acc))
    ensures var e := Extending(tt, registered, b, acc);
      (e.Ok? <==> NoDup(Names(acc + ChainRels(tt, registered, b)))) &&
      (e.Ok? ==> e.value == acc + ChainRels(tt, registered, b)) &&
      (e.Err? ==> e.error.DuplicateRelationship?)
    decreases if b.Some? && b.value in tt then tt[b.value].depth + 1 else 0
  {
    if b.None? || b.value !in registered {
      assert acc + [] == acc;
    } else {
      assert ValidType(tt, b.value);
      var rels := tt[b.value].relationships;
      var rest := ChainRels(tt, registered, tt[b.value].base);
      assert acc + (rels + rest) == (acc + rels) + rest;
      AddRelationshipsSpec(acc, rels);
      MapConcat(NameOf, acc + rels, rest);
      NoDupConcat(Names(acc + rels), Names(rest));
      if NoDup(Names(acc + rels)) {
        ExtendingSpec(tt, registered, tt[b.value].base, acc + rels);
      }
    }
  }

  /** Every relationship collected comes from a registered proper ancestor. */
  lemma {:induction false} ChainRelsFromAncestors(tt: TypeTable, registered: set<TypeId>, t: TypeId, r: Relationship)
    requires ValidTable(tt) && registered <= tt.Keys && t in tt && r in ChainRels(tt, registered, tt[t].base)
    ensures exists a :: a in tt && a in registered && IsProperAncestor(tt, a, t) && r in tt[a].relationships
    decreases tt[t].depth
  {
    assert ValidType(tt, t);
    var b := tt[t].base.value;
    if r !in tt[b].relationships {
      ChainRelsFromAncestors(tt, registered, b, r);
      var a :| a in tt && a in registered && IsProperAncestor(tt, a, b) && r in tt[a].relationships;
      assert IsProperAncestor(tt, a, t);
    }
  }

  /** Merging every type, starting from fresh models, succeeds exactly when
      no chain repeats a name, and gives each type its chain. */
  lemma {:induction false} ExtendAllSpec(tt: TypeTable, ix: Index, ts: seq<TypeId>)
    requires ValidTable(tt) && Shaped(tt, ix) && NoDup(ts)
    requires forall t :: t in ts ==> t in ix.twinModels
    ensures ExtendAll(tt, ix, ts).Ok? <==>
              forall t :: t in ts ==> NoDup(Names(ChainRels(tt, ix.twinModels.Keys, tt[t].base)))
    ensures ExtendAll(tt, ix, ts).Err? ==> ExtendAll(tt, ix, ts).error.DuplicateRelationship?
    ensures ExtendAll(tt, ix, ts).Ok? ==> forall t :: t in ix.twinModels ==>
              ExtendAll(tt, ix, ts).value.twinModels[t] ==
                (if t in ts then TwinModel(tt[t].relationships, ChainRels(tt, ix.twinModels.Keys, tt[t].base))
                 else ix.twinModels[t])
    decreases |ts|
  {
    if ts != [] {
      var init, dt := ts[..|ts| - 1], ts[|ts| - 1];
      assert ts == init + [dt];
      NoDupSnoc(init, dt);
      ExtendAllSpec(tt, ix, init);
      assert forall t :: t in ts <==> t in init || t == dt;
      if ExtendAll(tt, ix, init).Ok? {
        var cur := ExtendAll(tt, ix, init).value;
        assert cur.twinModels[dt] == ix.twinModels[dt];
        assert ValidType(tt, dt);
        ExtendingSpec(tt, ix.twinModels.Keys, tt[dt].base, []);
        assert [] + ChainRels(tt, ix.twinModels.Keys, tt[dt].base) == ChainRels(tt, ix.twinModels.Keys, tt[dt].base);
      }
    }
  }

  // ---------------------------------------------------------------------
  // Init as a whole

  /** A type is discovered exactly when it declares the attribute and an
      assembly whose listing succeeds lists it. */
  lemma {:induction false} DiscoveredElems(tt: TypeTable, assemblies: seq<Assembly>, t: TypeId)
    ensures t in Discovered(tt, assemblies) <==>
              DeclaresAttribute(tt, t) &&
              exists i :: 0 <= i < |assemblies| && assemblies[i].types.Some? && t in assemblies[i].types.value
  {
    if assemblies != [] {
      DiscoveredElems(tt, assemblies[1..], t);
      if t in Discovered(tt, assemblies[1..]) {
        var i :| 0 <= i < |assemblies[1..]| && assemblies[1..][i].types.Some? && t in assemblies[1..][i].types.value;
        assert assemblies[i + 1] == assemblies[1..][i];
      }
      if DeclaresAttribute(tt, t) {
        if i :| 0 <= i < |assemblies| && assemblies[i].types.Some? && t in assemblies[i].types.value {
          if i > 0 {
            assert assemblies[1..][i - 1] == assemblies[i];
          }
        }
      }
    }
  }

  /** The index holds exactly the non-interface types that declare the
      attribute themselves and are listed by an assembly whose listing
      succeeds. */
  lemma RegisteredElems(tt: TypeTable, assemblies: seq<Assembly>, t: TypeId)
    ensures t in Registered(tt, assemblies) <==>
              Registrable(tt, t) && DeclaresAttribute(tt, t) &&
              exists i :: 0 <= i < |assemblies| && assemblies[i].types.Some? && t in assemblies[i].types.value
  {
    DiscoveredElems(tt, assemblies, t);
    var d := Discovered(tt, assemblies);
    assert multiset(Candidates(tt, assemblies)) == multiset(d);
    assert t in d <==> t in multiset(d);
  }

  function RegisteredSet(tt: TypeTable, assemblies: seq<Assembly>): set<TypeId> {
    set t | t in Registered(tt, assemblies)
  }

  /** The chain of relationships merged into a registered type's twin model. */
  function MergedOf(tt: TypeTable, assemblies: seq<Assembly>, t: TypeId): seq<Relationship>
    requires ValidTable(tt) && t in tt
  {
    assert ValidType(tt, t);
    ChainRels(tt, RegisteredSet(tt, assemblies), tt[t].base)
  }

  lemma InitShape(tt: TypeTable, assemblies: seq<Assembly>)
    requires ValidTable(tt)
    requires Register(tt, Candidates(tt, assemblies)).Ok?
    ensures var ix := Register(tt, Candidates(tt, assemblies)).value;
      Shaped(tt, ix) && ix.all == Registered(tt, assemblies) &&
      ix.twinModels.Keys == RegisteredSet(tt, assemblies)
  {
    RegisterShape(tt, Candidates(tt, assemblies));
    RegisterContents(tt, Candidates(tt, assemblies));
  }

  /** Init completes exactly when the registered types have distinct model
      ids, the first assembly's listing succeeds, and no merged chain repeats
      a relationship name; otherwise it throws one of those three errors. */
  lemma InitOutcome(tt: TypeTable, assemblies: seq<Assembly>)
    requires ValidTable(tt)
    ensures InitSpec(tt, assemblies).Ok? <==>
              NoDup(Map(ModelIdOf(tt), Registered(tt, assemblies))) &&
              !(|assemblies| > 0 && assemblies[0].types.None?) &&
              forall t :: t in Registered(tt, assemblies) ==> NoDup(Names(MergedOf(tt, assemblies, t)))
    ensures InitSpec(tt, assemblies).Err? ==>
              var e := InitSpec(tt, assemblies).error;
              e.DuplicateModelId? || e == TypeLoadFailure || e.DuplicateRelationship?
  {
    var types := Candidates(tt, assemblies);
    RegisterSpec(tt, types);
    if Register(tt, types).Ok? {
      InitShape(tt, assemblies);
      var ix := Register(tt, types).value;
      ExtendAllSpec(tt, ix, ix.all);
    }
  }

  /** After Init, every registered type is found under its own model id, and
      only under it, with the twin model of its own relationships and of its
      registered ancestors' relationships. */
  lemma InitIndex(tt: TypeTable, assemblies: seq<Assembly>)
    requires ValidTable(tt) && InitSpec(tt, assemblies).Ok?
    ensures var ix := InitSpec(tt, assemblies).value;
      ix.all == Registered(tt, assemblies) &&
      ix.twinModels.Keys == RegisteredSet(tt, assemblies) &&
      (forall id :: id in ix.modelTypes ==> ix.modelTypes[id] in ix.all && tt[ix.modelTypes[id]].fullModelId == id) &&
      (forall t :: t in ix.all ==> tt[t].fullModelId in ix.modelTypes && ix.modelTypes[tt[t].fullModelId] == t) &&
      (forall t :: t in ix.twinModels ==>
         ix.twinModels[t] == TwinModel(tt[t].relationships, MergedOf(tt, assemblies, t)))
  {
    var types := Candidates(tt, assemblies);
    RegisterContents(tt, types);
    InitShape(tt, assemblies);
    var ix := Register(tt, types).value;
    ExtendAllSpec(tt, ix, ix.all);
  }

  // ---------------------------------------------------------------------
  // Lookups

  /** _modelTypes lookup: null for an unknown id. */
  function GetById(ix: Index, modelId: string): Option<TypeId> {
    if modelId !in ix.modelTypes then None else Some(ix.modelTypes[modelId])
  }

  /** JsonHelpers.GetModelId is the parameter `modelIdOf`. */
  function GetTypeFromJson(ix: Index, json: string, modelIdOf: string -> string): Option<TypeId> {
    GetById(ix, modelIdOf(json))
  }

  /** _twinModels lookup: throws for an unregistered type. */
  function GetTwinModel(ix: Index, t: TypeId): Result<TwinModel, LibraryError> {
    if t in ix.twinModels then Ok(ix.twinModels[t]) else Err(MissingTwinModel(t))
  }

  /** After Init a model id names a registered type exactly when that type's
      full model id is the id; any other id gives null. */
  lemma GetByIdAfterInit(tt: TypeTable, assemblies: seq<Assembly>, modelId: string, t: TypeId)
    requires ValidTable(tt) && InitSpec(tt, assemblies).Ok?
    ensures GetById(InitSpec(tt, assemblies).value, modelId) == Some(t) <==>
              t in Registered(tt, assemblies) && tt[t].fullModelId == modelId
    ensures GetById(InitSpec(tt, assemblies).value, modelId).None? <==>
              forall u :: u in Registered(tt, assemblies) ==> tt[u].fullModelId != modelId
  {
    InitIndex(tt, assemblies);
  }

  /** The same for the model id read from a JSON document. */
  lemma GetTypeFromJsonAfterInit(tt: TypeTable, assemblies: seq<Assembly>, json: string, modelIdOf: string -> string, t: TypeId)
    requires ValidTable(tt) && InitSpec(tt, assemblies).Ok?
    ensures GetTypeFromJson(InitSpec(tt, assemblies).value, json, modelIdOf) == Some(t) <==>
              t in Registered(tt, assemblies) && tt[t].fullModelId == modelIdOf(json)
  {
    GetByIdAfterInit(tt, assemblies, modelIdOf(json), t);
  }

  /** After Init GetTwinModel succeeds exactly for the registered types, with
      their own and their merged relationships, and throws otherwise. */
  lemma GetTwinModelAfterInit(tt: TypeTable, assemblies: seq<Assembly>, t: TypeId)
    requires ValidTable(tt) && InitSpec(tt, assemblies).Ok?
    ensures var r := GetTwinModel(InitSpec(tt, assemblies).value, t);
      (r.Ok? <==> t in Registered(tt, assemblies)) &&
      (r.Ok? ==> r.value == TwinModel(tt[t].relationships, MergedOf(tt, assemblies, t))) &&
      (r.Err? ==> r.error == MissingTwinModel(t))
  {
    InitIndex(tt, assemblies);
  }

  // ---------------------------------------------------------------------
  // Derived types

  /** The registered types assignable to `t`'s model type, except that type. */
  function GetDerivedTypes(tt: TypeTable, ix: Index, t: TypeId): seq<TypeId>
    requires ValidTable(tt) && t in tt
  {
    var m := tt[t].modelPropertyType;
    Filter((mt: TypeId) => mt in tt && IsAssignable(tt, m, mt) && mt != m, ix.all)
  }

  /** A proper ancestor is assignable from its descendants and differs from them. */
  lemma {:induction false} ProperAncestorAssignable(tt: TypeTable, a: TypeId, t: TypeId)
    requires ValidTable(tt) && t in tt && IsProperAncestor(tt, a, t)
    ensures IsAssignable(tt, a, t) && a != t
    decreases tt[t].depth
  {
    AncestorShallower(tt, a, t);
    assert ValidType(tt, t);
    var b := tt[t].base.value;
    if b != a {
      ProperAncestorAssignable(tt, a, b);
    }
  }

  /** After Init the derived types are, in registration order, the registered
      types assignable to the model type other than itself; every registered
      descendant and every registered implementation of it is among them. */
  lemma GetDerivedTypesSpec(tt: TypeTable, assemblies: seq<Assembly>, t: TypeId, x: TypeId)
    requires ValidTable(tt) && t in tt && InitSpec(tt, assemblies).Ok?
    ensures var d := GetDerivedTypes(tt, InitSpec(tt, assemblies).value, t);
      var m := tt[t].modelPropertyType;
      IsSubseq(d, Registered(tt, assemblies)) &&
      (x in d <==> x in Registered(tt, assemblies) && IsAssignable(tt, m, x) && x != m) &&
      (x in Registered(tt, assemblies) && IsProperAncestor(tt, m, x) ==> x in d) &&
      (x in Registered(tt, assemblies) && m in tt[x].interfaces && x != m ==> x in d)
  {
    InitIndex(tt, assemblies);
    var ix := InitSpec(tt, assemblies).value;
    var m := tt[t].modelPropertyType;
    FilterSubseq((mt: TypeId) => mt in tt && IsAssignable(tt, m, mt) && mt != m, ix.all);
    if x in Registered(tt, assemblies) && IsProperAncestor(tt, m, x) {
      ProperAncestorAssignable(tt, m, x);
    }
  }

  // ---------------------------------------------------------------------
  // Related types

  /** The measure of TraverseRelationships: the rank of the model type. */
  function ModelRank(tt: TypeTable, m: TypeId): nat {
    var mt := ModelTypeOf(tt, m);
    if mt in tt then tt[mt].relRank else 0
  }

  /** The targets one call of TraverseRelationships loops over: model types,
      of smaller rank unless they are `mt` itself. */
  predicate TargetsOf(tt: TypeTable, mt: TypeId, ts: seq<TypeId>) {
    mt in tt &&
    forall x :: x in ts ==> x in tt && tt[x].modelPropertyType == x && (x != mt ==> tt[x].relRank < tt[mt].relRank)
  }

  lemma DirectTargetsOf(tt: TypeTable, m: TypeId)
    requires RankedTable(tt) && m in tt
    ensures tt[m].modelPropertyType in tt
    ensures TargetsOf(tt, tt[m].modelPropertyType, DirectTargets(tt, tt[m].modelPropertyType))
  {
    assert ValidType(tt, m);
    assert ValidType(tt, tt[m].modelPropertyType);
    assert RankedType(tt, tt[m].modelPropertyType);
  }

  /** What TraverseRelationships appends: for each target of the model type
      other than itself, that target's own traversal and then the target. */
  function Related(tt: TypeTable, m: TypeId): seq<TypeId>
    requires RankedTable(tt) && m in tt
    decreases ModelRank(tt, m), 1
  {
    DirectTargetsOf(tt, m);
    var mt := tt[m].modelPropertyType;
    RelatedList(tt, mt, DirectTargets(tt, mt))
  }

  function RelatedList(tt: TypeTable, mt: TypeId, ts: seq<TypeId>): seq<TypeId>
    requires RankedTable(tt) && TargetsOf(tt, mt, ts)
    decreases tt[mt].relRank, 0, |ts|
  {
    if ts == [] then []
    else
      var last := ts[|ts| - 1];
      var pre := RelatedList(tt, mt, ts[..|ts| - 1]);
      if last == mt then pre else pre + Related(tt, last) + [last]
  }

  /** What one target adds: nothing for the model type itself, else the
      target's traversal and then the target. */
  function TargetStep(tt: TypeTable, mt: TypeId, t: TypeId): seq<TypeId>
    requires RankedTable(tt) && t in tt
  {
    if t == mt then [] else Related(tt, t) + [t]
  }

  /** One more target extends the list by that target's traversal and the target. */
  lemma RelatedListStep(tt: TypeTable, mt: TypeId, ts: seq<TypeId>, i: int)
    requires RankedTable(tt) && TargetsOf(tt, mt, ts) && 0 <= i < |ts|
    ensures TargetsOf(tt, mt, ts[..i]) && TargetsOf(tt, mt, ts[..i + 1])
    ensures ts[i] in tt && tt[ts[i]].modelPropertyType == ts[i] && (ts[i] != mt ==> tt[ts[i]].relRank < tt[mt].relRank)
    ensures RelatedList(tt, mt, ts[..i + 1]) == RelatedList(tt, mt, ts[..i]) + TargetStep(tt, mt, ts[i])
  {
    assert ts[..i + 1][..i] == ts[..i];
    assert ts[..i + 1][i] == ts[i];
  }

  /** The reference for the traversal: the types reachable from `a` over the
      relationship and component properties each type declares, a type's
      references to itself left out. */
  predicate TypeReaches(tt: TypeTable, a: TypeId, x: TypeId)
    requires RankedTable(tt)
    decreases if a in tt then tt[a].relRank else 0
  {
    a in tt &&
    (assert ValidType(tt, a) && RankedType(tt, a);
     exists y :: y in DirectTargets(tt, a) && y != a && (y == x || TypeReaches(tt, y, x)))
  }

  /** TraverseRelationships lists exactly the reachable types. */
  lemma {:induction false} RelatedReach(tt: TypeTable, m: TypeId, x: TypeId)
    requires RankedTable(tt) && m in tt
    ensures x in Related(tt, m) <==> TypeReaches(tt, ModelTypeOf(tt, m), x)
    decreases ModelRank(tt, m), 1
  {
    DirectTargetsOf(tt, m);
    var mt := tt[m].modelPropertyType;
    RelatedListReach(tt, mt, DirectTargets(tt, mt), x);
  }

  lemma {:induction false} RelatedListReach(tt: TypeTable, mt: TypeId, ts: seq<TypeId>, x: TypeId)
    requires RankedTable(tt) && TargetsOf(tt, mt, ts)
    ensures x in RelatedList(tt, mt, ts) <==> exists y :: y in ts && y != mt && (y == x || TypeReaches(tt, y, x))
    decreases tt[mt].relRank, 0, |ts|
  {
    if ts != [] {
      var init, last := ts[..|ts| - 1], ts[|ts| - 1];
      assert ts == init + [last];
      RelatedListReach(tt, mt, init, x);
      if last != mt {
        RelatedReach(tt, last, x);
      }
      assert forall y :: y in ts <==> y in init || y == last;
    }
  }

  /** The entry at `i` comes right after its own traversal, which starts at `j`. */
  predicate AfterTraversal(tt: TypeTable, s: seq<TypeId>, i: int, j: int)
    requires RankedTable(tt)
  {
    0 <= j <= i < |s| && s[i] in tt && s[j..i] == Related(tt, s[i])
  }

  ghost predicate HasTraversal(tt: TypeTable, s: seq<TypeId>, i: int)
    requires RankedTable(tt)
  {
    exists j :: AfterTraversal(tt, s, i, j)
  }

  /** Each entry comes right after its own traversal. */
  ghost predicate PostOrdered(tt: TypeTable, s: seq<TypeId>)
    requires RankedTable(tt)
  {
    forall i :: 0 <= i < |s| ==> HasTraversal(tt, s, i)
  }

  lemma AfterTraversalConcat(tt: TypeTable, a: seq<TypeId>, b: seq<TypeId>, i: int, j: int)
    requires RankedTable(tt)
    ensures AfterTraversal(tt, a, i, j) ==> AfterTraversal(tt, a + b, i, j)
    ensures AfterTraversal(tt, b, i, j) ==> AfterTraversal(tt, a + b, |a| + i, |a| + j)
  {
    if AfterTraversal(tt, a, i, j) {
      assert (a + b)[j..i] == a[j..i] && (a + b)[i] == a[i];
    }
    if AfterTraversal(tt, b, i, j) {
      assert (a + b)[|a| + j..|a| + i] == b[j..i] && (a + b)[|a| + i] == b[i];
    }
  }

  lemma PostOrderedConcat(tt: TypeTable, a: seq<TypeId>, b: seq<TypeId>)
    requires RankedTable(tt) && PostOrdered(tt, a) && PostOrdered(tt, b)
    ensures PostOrdered(tt, a + b)
  {
    forall i | 0 <= i < |a + b| ensures HasTraversal(tt, a + b, i) {
      if i < |a| {
        assert HasTraversal(tt, a, i);
        var j :| AfterTraversal(tt, a, i, j);
        AfterTraversalConcat(tt, a, b, i, j);
      } else {
        assert HasTraversal(tt, b, i - |a|);
        var j :| AfterTraversal(tt, b, i - |a|, j);
        AfterTraversalConcat(tt, a, b, i - |a|, j);
      }
    }
  }

  /** A traversal followed by its own type is post-ordered. */
  lemma PostOrderedClose(tt: TypeTable, r: seq<TypeId>, last: TypeId)
    requires RankedTable(tt) && last in tt && PostOrdered(tt, r) && r == Related(tt, last)
    ensures PostOrdered(tt, r + [last])
  {
    var s := r + [last];
    forall i | 0 <= i < |s| ensures HasTraversal(tt, s, i) {
      if i < |r| {
        assert HasTraversal(tt, r, i);
        var j :| AfterTraversal(tt, r, i, j);
        AfterTraversalConcat(tt, r, [last], i, j);
      } else {
        assert s[0..i] == r;
        assert AfterTraversal(tt, s, i, 0);
      }
    }
  }

  /** A type's traversal, and with it every nested traversal, is post-ordered. */
  lemma {:induction false} RelatedPostOrdered(tt: TypeTable, m: TypeId)
    requires RankedTable(tt) && m in tt
    ensures PostOrdered(tt, Related(tt, m))
    decreases ModelRank(tt, m), 1
  {
    DirectTargetsOf(tt, m);
    var mt := tt[m].modelPropertyType;
    RelatedListPostOrdered(tt, mt, DirectTargets(tt, mt));
  }

  lemma {:induction false} RelatedListPostOrdered(tt: TypeTable, mt: TypeId, ts: seq<TypeId>)
    requires RankedTable(tt) && TargetsOf(tt, mt, ts)
    ensures PostOrdered(tt, RelatedList(tt, mt, ts))
    decreases tt[mt].relRank, 0, |ts|
  {
    if ts != [] {
      var init, last := ts[..|ts| - 1], ts[|ts| - 1];
      var pre := RelatedList(tt, mt, init);
      RelatedListPostOrdered(tt, mt, init);
      if last != mt {
        var r := Related(tt, last);
        RelatedPostOrdered(tt, last);
        PostOrderedClose(tt, r, last);
        PostOrderedConcat(tt, pre, r + [last]);
        assert pre + r + [last] == pre + (r + [last]);
      }
    }
  }

  /** The registered types whose traversal contains `t`. */
  function GetRelatedTypes(tt: TypeTable, ix: Index, t: TypeId): seq<TypeId>
    requires RankedTable(tt)
  {
    Filter((mt: TypeId) => mt in tt && t in Related(tt, mt), ix.all)
  }

  /** A registered type is related to `t` exactly when `t` is reachable from
      its model type; the order of registration is kept. */
  lemma GetRelatedTypesSpec(tt: TypeTable, ix: Index, t: TypeId, x: TypeId)
    requires RankedTable(tt) && forall u :: u in ix.all ==> u in tt
    ensures IsSubseq(GetRelatedTypes(tt, ix, t), ix.all)
    ensures x in GetRelatedTypes(tt, ix, t) <==> x in ix.all && TypeReaches(tt, ModelTypeOf(tt, x), t)
  {
    FilterSubseq((mt: TypeId) => mt in tt && t in Related(tt, mt), ix.all);
    if x in ix.all {
      RelatedReach(tt, x, t);
    }
  }

  /** The derived types followed by the related types, without de-duplication. */
  function GetDependendentTypes(tt: TypeTable, ix: Index, t: TypeId): seq<TypeId>
    requires RankedTable(tt) && t in tt
  {
    GetDerivedTypes(tt, ix, t) + GetRelatedTypes(tt, ix, t)
  }

  /** The dependents are the derived and the related types, each list whole
      and in order, so a type that is both appears twice. */
  lemma GetDependendentTypesSpec(tt: TypeTable, ix: Index, t: TypeId, x: TypeId)
    requires RankedTable(tt) && t in tt
    ensures var d := GetDependendentTypes(tt, ix, t);
      d[..|GetDerivedTypes(tt, ix, t)|] == GetDerivedTypes(tt, ix, t) &&
      d[|GetDerivedTypes(tt, ix, t)|..] == GetRelatedTypes(tt, ix, t) &&
      (x in d <==> x in GetDerivedTypes(tt, ix, t) || x in GetRelatedTypes(tt, ix, t)) &&
      (x in GetDerivedTypes(tt, ix, t) && x in GetRelatedTypes(tt, ix, t) ==> !NoDup(d))
  {
    NoDupConcat(GetDerivedTypes(tt, ix, t), GetRelatedTypes(tt, ix, t));
  }

  /** TraverseRelationships: a null list is replaced by a fresh one, which
      the recursive calls then share. */
  method TraverseRelationships(tt: TypeTable, modelType: TypeId, list: TypeList?) returns (result: TypeList)
    requires RankedTable(tt) && modelType in tt
    modifies list
    ensures list != null ==> result == list
    ensures list == null ==> fresh(result)
    ensures result.items == (if list == null then [] else old(list.items)) + Related(tt, modelType)
  {
    if list == null {
      result := new TypeList();
    } else {
      result := list;
    }
    TraverseInto(tt, modelType, result);
  }

  /** The body of TraverseRelationships once the list exists. */
  method TraverseInto(tt: TypeTable, modelType: TypeId, list: TypeList)
    requires RankedTable(tt) && modelType in tt
    modifies list
    ensures list.items == old(list.items) + Related(tt, modelType)
    decreases ModelRank(tt, modelType), 2
  {
    DirectTargetsOf(tt, modelType);
    var mt := tt[modelType].modelPropertyType;
    TraverseTargets(tt, mt, DirectTargets(tt, mt), list);
  }

  /** The ForEach over the model type's relationship and component targets. */
  method TraverseTargets(tt: TypeTable, mt: TypeId, props: seq<TypeId>, list: TypeList)
    requires RankedTable(tt) && TargetsOf(tt, mt, props)
    modifies list
    ensures list.items == old(list.items) + RelatedList(tt, mt, props)
    decreases tt[mt].relRank, 1
  {
    var i := 0;
    while i < |props|
      invariant 0 <= i <= |props| && TargetsOf(tt, mt, props[..i])
      invariant list.items == old(list.items) + RelatedList(tt, mt, props[..i])
    {
      RelatedListStep(tt, mt, props, i);
      TraverseTarget(tt, mt, props[i], list);
      i := i + 1;
    }
    assert props[..|props|] == props;
  }

  /** One step of the ForEach: a target other than the model type is
      traversed, then added. */
  method TraverseTarget(tt: TypeTable, mt: TypeId, t: TypeId, list: TypeList)
    requires RankedTable(tt) && mt in tt && t in tt && tt[t].modelPropertyType == t
    requires t != mt ==> tt[t].relRank < tt[mt].relRank
    modifies list
    ensures list.items == old(list.items) + TargetStep(tt, mt, t)
    decreases tt[mt].relRank, 0
  {
    if t != mt {
      TraverseInto(tt, t, list);
      list.Add(t);
    }
  }

  // ---------------------------------------------------------------------
  // TraverseRelationships on types that refer to each other

  /** Every type in `ts` is in the table. */
  predicate InTable(tt: TypeTable, ts: seq<TypeId>) {
    forall t :: t in ts ==> t in tt
  }

  /** TraverseRelationships as written (lines 113-135), on any valid table,
      given how many nested calls the stack can hold: None when the recursion
      needs more. */
  function RelatedDepth(tt: TypeTable, m: TypeId, depth: nat): Option<seq<TypeId>>
    requires ValidTable(tt) && m in tt
    decreases depth, 0, 0
  {
    if depth == 0 then None
    else
      assert ValidType(tt, m);
      var mt := tt[m].modelPropertyType;
      assert ValidType(tt, mt);
      RelatedListDepth(tt, mt, DirectTargets(tt, mt), depth - 1)
  }

  function RelatedListDepth(tt: TypeTable, mt: TypeId, ts: seq<TypeId>, depth: nat): Option<seq<TypeId>>
    requires ValidTable(tt) && InTable(tt, ts)
    decreases depth, 1, |ts|
  {
    if ts == [] then Some([])
    else
      var last := ts[|ts| - 1];
      match RelatedListDepth(tt, mt, ts[..|ts| - 1], depth)
      case None => None
      case Some(pre) =>
        if last == mt then Some(pre)
        else
          match RelatedDepth(tt, last, depth)
          case None => None
          case Some(sub) => Some(pre + sub + [last])
  }

  /** On a ranked table the recursion as written ends once the stack holds
      more calls than the model type's rank, with the traversal Related defines. */
  lemma {:induction false} RelatedDepthAgrees(tt: TypeTable, m: TypeId, depth: nat)
    requires RankedTable(tt) && m in tt && depth > ModelRank(tt, m)
    ensures RelatedDepth(tt, m, depth) == Some(Related(tt, m))
    decreases ModelRank(tt, m), 1
  {
    DirectTargetsOf(tt, m);
    var mt := tt[m].modelPropertyType;
    assert ValidType(tt, m) && ValidType(tt, mt);
    RelatedListDepthAgrees(tt, mt, DirectTargets(tt, mt), depth - 1);
  }

  lemma {:induction false} RelatedListDepthAgrees(tt: TypeTable, mt: TypeId, ts: seq<TypeId>, depth: nat)
    requires RankedTable(tt) && TargetsOf(tt, mt, ts) && depth >= tt[mt].relRank
    ensures InTable(tt, ts) && RelatedListDepth(tt, mt, ts, depth) == Some(RelatedList(tt, mt, ts))
    decreases tt[mt].relRank, 0, |ts|
  {
    if ts != [] {
      var last := ts[|ts| - 1];
      assert last in ts;
      RelatedListDepthAgrees(tt, mt, ts[..|ts| - 1], depth);
      if last != mt {
        RelatedDepthAgrees(tt, last, depth);
      }
    }
  }

  /** A room type and a floor type that relate to each other: the recursion
      as written, from either, never returns, whatever the stack depth. */
  lemma {:induction false} MutualTypesNeverReturn(depth: nat)
    ensures ValidTable(RoomFloorTypes(0, 0))
    ensures RelatedDepth(RoomFloorTypes(0, 0), "Room", depth).None?
    ensures RelatedDepth(RoomFloorTypes(0, 0), "Floor", depth).None?
    decreases depth
  {
    var tt := RoomFloorTypes(0, 0);
    MutualTypesValid(0, 0);
    if depth > 0 {
      MutualTypesNeverReturn(depth - 1);
      assert DirectTargets(tt, "Room") == ["Floor"];
      assert DirectTargets(tt, "Floor") == ["Room"];
      assert ["Floor"][..0] == [] && ["Room"][..0] == [];
    }
  }

  /** The types of the table not in `seen`: the measure of the visited walk. */
  function TypesLeft(tt: TypeTable, seen: seq<TypeId>): set<TypeId> {
    tt.Keys - set x | x in seen
  }

  lemma TypesLeftShrinks(tt: TypeTable, seen: seq<TypeId>, t: TypeId)
    requires t in tt && t !in seen
    ensures |TypesLeft(tt, seen + [t])| < |TypesLeft(tt, seen)|
  {
    assert TypesLeft(tt, seen + [t]) == TypesLeft(tt, seen) - {t};
    assert t in TypesLeft(tt, seen);
  }

  /** `s` continues `seen` and stays in the table. */
  predicate TypesExtend(tt: TypeTable, seen: seq<TypeId>, s: seq<TypeId>) {
    |seen| <= |s| && s[..|seen|] == seen && InTable(tt, s)
  }

  lemma TypesLeftExtends(tt: TypeTable, seen: seq<TypeId>, s: seq<TypeId>)
    requires TypesExtend(tt, seen, s)
    ensures |TypesLeft(tt, s)| <= |TypesLeft(tt, seen)|
  {
    var a := TypesLeft(tt, seen);
    var b := TypesLeft(tt, s);
    forall x | x in seen ensures x in s {
      var i :| 0 <= i < |seen| && seen[i] == x;
      assert s[i] == x;
    }
    assert b <= a;
    assert a == b + (a - b);
    assert b * (a - b) == {};
  }

  /** What a walk entered from a new type lists continues the list, with
      fewer types left. */
  lemma TypesEntered(tt: TypeTable, seen: seq<TypeId>, t: TypeId, s1: seq<TypeId>)
    requires t in tt && t !in seen && TypesExtend(tt, seen + [t], s1)
    ensures TypesExtend(tt, seen, s1) && |TypesLeft(tt, s1)| < |TypesLeft(tt, seen)|
  {
    TypesLeftShrinks(tt, seen, t);
    assert s1[..|seen|] == (s1[..|seen| + 1])[..|seen|];
    TypesLeftExtends(tt, seen + [t], s1);
  }

  lemma TypesExtendTrans(tt: TypeTable, a: seq<TypeId>, b: seq<TypeId>, c: seq<TypeId>)
    requires TypesExtend(tt, a, b) && TypesExtend(tt, b, c)
    ensures TypesExtend(tt, a, c)
  {
    assert c[..|a|] == (c[..|b|])[..|a|];
  }

  /** TraverseRelationships as evidently intended: the walk over relationship
      and component targets that leaves out a type already met instead of
      entering it again, so it ends on every valid table. `seen` holds the
      types met so far; a type's reference to itself is one of them. */
  function VisitType(tt: TypeTable, t: TypeId, seen: seq<TypeId>): (s: seq<TypeId>)
    requires ValidTable(tt) && t in tt && InTable(tt, seen)
    ensures TypesExtend(tt, seen, s)
    decreases |TypesLeft(tt, seen)|, 1, 0
  {
    assert ValidType(tt, t);
    VisitTypes(tt, DirectTargets(tt, t), seen)
  }

  function VisitTypes(tt: TypeTable, ts: seq<TypeId>, seen: seq<TypeId>): (s: seq<TypeId>)
    requires ValidTable(tt) && InTable(tt, ts) && InTable(tt, seen)
    ensures TypesExtend(tt, seen, s)
    decreases |TypesLeft(tt, seen)|, 0, |ts|
  {
    if ts == [] then seen
    else if ts[0] in seen then VisitTypes(tt, ts[1..], seen)
    else
      TypesLeftShrinks(tt, seen, ts[0]);
      var s1 := VisitType(tt, ts[0], seen + [ts[0]]);
      TypesEntered(tt, seen, ts[0], s1);
      var s := VisitTypes(tt, ts[1..], s1);
      TypesExtendTrans(tt, seen, s1, s);
      s
  }

  /** The intended traversal of `m`: the types met from its model type, the
      model type itself left out. */
  function RelatedVisited(tt: TypeTable, m: TypeId): seq<TypeId>
    requires ValidTable(tt) && m in tt
  {
    assert ValidType(tt, m);
    var mt := tt[m].modelPropertyType;
    VisitType(tt, mt, [mt])[1..]
  }

  /** `w` follows declared relationship and component targets. */
  predicate TypeWalk(tt: TypeTable, w: seq<TypeId>) {
    (forall i :: 0 <= i < |w| ==> w[i] in tt) &&
    forall i :: 0 < i < |w| ==> w[i] in DirectTargets(tt, w[i - 1])
  }

  /** `x` is `a` or is reached from it by following targets, on any table. */
  ghost predicate TypeLeads(tt: TypeTable, a: TypeId, x: TypeId) {
    exists w :: TypeWalk(tt, w) && |w| > 0 && w[0] == a && w[|w| - 1] == x
  }

  /** Every target `y` declares is listed in `s`. */
  predicate TypeTargetsListed(tt: TypeTable, y: TypeId, s: seq<TypeId>)
    requires y in tt
  {
    forall z :: z in DirectTargets(tt, y) ==> z in s
  }

  lemma TypeKeptIn(a: seq<TypeId>, b: seq<TypeId>, x: TypeId)
    requires |a| <= |b| && b[..|a|] == a && x in a
    ensures x in b
  {
    var i :| 0 <= i < |a| && a[i] == x;
    assert b[i] == x;
  }

  /** The walk lists no type twice when the list it starts from has none. */
  lemma {:induction false} VisitTypeNoDup(tt: TypeTable, t: TypeId, seen: seq<TypeId>)
    requires ValidTable(tt) && t in tt && InTable(tt, seen) && NoDup(seen)
    ensures NoDup(VisitType(tt, t, seen))
    decreases |TypesLeft(tt, seen)|, 1, 0
  {
    assert ValidType(tt, t);
    VisitTypesNoDup(tt, DirectTargets(tt, t), seen);
  }

  lemma {:induction false} VisitTypesNoDup(tt: TypeTable, ts: seq<TypeId>, seen: seq<TypeId>)
    requires ValidTable(tt) && InTable(tt, ts) && InTable(tt, seen) && NoDup(seen)
    ensures NoDup(VisitTypes(tt, ts, seen))
    decreases |TypesLeft(tt, seen)|, 0, |ts|
  {
    if ts != [] {
      if ts[0] in seen {
        VisitTypesNoDup(tt, ts[1..], seen);
      } else {
        TypesLeftShrinks(tt, seen, ts[0]);
        NoDupSnoc(seen, ts[0]);
        var s1 := VisitType(tt, ts[0], seen + [ts[0]]);
        VisitTypeNoDup(tt, ts[0], seen + [ts[0]]);
        TypesEntered(tt, seen, ts[0], s1);
        VisitTypesNoDup(tt, ts[1..], s1);
      }
    }
  }

  /** The walk lists every target it was given, and every type it adds has
      its own targets listed. */
  lemma {:induction false} VisitTypeCovers(tt: TypeTable, t: TypeId, seen: seq<TypeId>)
    requires ValidTable(tt) && t in tt && InTable(tt, seen)
    ensures TypeTargetsListed(tt, t, VisitType(tt, t, seen))
    ensures forall y :: y in VisitType(tt, t, seen) && y !in seen ==> TypeTargetsListed(tt, y, VisitType(tt, t, seen))
    decreases |TypesLeft(tt, seen)|, 1, 0
  {
    assert ValidType(tt, t);
    VisitTypesCovers(tt, DirectTargets(tt, t), seen);
  }

  lemma {:induction false} VisitTypesCovers(tt: TypeTable, ts: seq<TypeId>, seen: seq<TypeId>)
    requires ValidTable(tt) && InTable(tt, ts) && InTable(tt, seen)
    ensures forall t :: t in ts ==> t in VisitTypes(tt, ts, seen)
    ensures forall y :: y in VisitTypes(tt, ts, seen) && y !in seen ==> TypeTargetsListed(tt, y, VisitTypes(tt, ts, seen))
    decreases |TypesLeft(tt, seen)|, 0, |ts|
  {
    if ts != [] {
      var s := VisitTypes(tt, ts, seen);
      var t := ts[0];
      if t in seen {
        VisitTypesCovers(tt, ts[1..], seen);
        TypeKeptIn(seen, s, t);
      } else {
        TypesLeftShrinks(tt, seen, t);
        var p := seen + [t];
        var s1 := VisitType(tt, t, p);
        VisitTypeCovers(tt, t, p);
        TypesEntered(tt, seen, t, s1);
        VisitTypesCovers(tt, ts[1..], s1);
        assert s == VisitTypes(tt, ts[1..], s1);
        assert t in p && p[|seen|] == t;
        TypeKeptIn(p, s1, t);
        TypeKeptIn(s1, s, t);
        forall y | y in s && y !in seen ensures TypeTargetsListed(tt, y, s) {
          if y in s1 {
            if y !in p {
              assert TypeTargetsListed(tt, y, s1);
            }
            forall z | z in DirectTargets(tt, y) ensures z in s {
              assert z in s1;
              TypeKeptIn(s1, s, z);
            }
          }
        }
      }
    }
  }

  lemma TypeWalkCons(tt: TypeTable, a: TypeId, w: seq<TypeId>)
    requires TypeWalk(tt, w) && |w| > 0 && a in tt && w[0] in DirectTargets(tt, a)
    ensures TypeWalk(tt, [a] + w) && ([a] + w)[0] == a
  {
    var p := [a] + w;
    forall i | 0 < i < |p| ensures p[i] in DirectTargets(tt, p[i - 1]) {
      if i > 1 {
        assert p[i] == w[i - 1] && p[i - 1] == w[i - 2];
      }
    }
  }

  /** All the types the walk adds are reached from the type it entered. */
  lemma {:induction false} VisitTypeFrom(tt: TypeTable, t: TypeId, seen: seq<TypeId>, x: TypeId)
    requires ValidTable(tt) && t in tt && InTable(tt, seen)
    requires x in VisitType(tt, t, seen) && x !in seen
    ensures TypeLeads(tt, t, x)
    decreases |TypesLeft(tt, seen)|, 1, 0
  {
    assert ValidType(tt, t);
    var y := VisitTypesFrom(tt, DirectTargets(tt, t), seen, x);
    var w :| TypeWalk(tt, w) && |w| > 0 && w[0] == y && w[|w| - 1] == x;
    TypeWalkCons(tt, t, w);
    assert ([t] + w)[|[t] + w| - 1] == x;
  }

  lemma {:induction false} VisitTypesFrom(tt: TypeTable, ts: seq<TypeId>, seen: seq<TypeId>, x: TypeId) returns (t: TypeId)
    requires ValidTable(tt) && InTable(tt, ts) && InTable(tt, seen)
    requires x in VisitTypes(tt, ts, seen) && x !in seen
    ensures t in ts && TypeLeads(tt, t, x)
    decreases |TypesLeft(tt, seen)|, 0, |ts|
  {
    var t0 := ts[0];
    if t0 in seen {
      t := VisitTypesFrom(tt, ts[1..], seen, x);
    } else {
      TypesLeftShrinks(tt, seen, t0);
      var p := seen + [t0];
      var s1 := VisitType(tt, t0, p);
      TypesEntered(tt, seen, t0, s1);
      if x in s1 {
        t := t0;
        if x == t0 {
          var w := [t0];
          assert TypeWalk(tt, w) && |w| > 0 && w[0] == t0 && w[|w| - 1] == x;
        } else {
          assert x !in p;
          VisitTypeFrom(tt, t0, p, x);
        }
      } else {
        t := VisitTypesFrom(tt, ts[1..], s1, x);
      }
    }
  }

  /** A walk that starts in a list closed under targets stays in it. */
  lemma {:induction false} TypeWalkStays(tt: TypeTable, s: seq<TypeId>, w: seq<TypeId>, i: nat)
    requires TypeWalk(tt, w) && |w| > 0 && w[0] in s && i < |w|
    requires forall y :: y in s ==> y in tt && TypeTargetsListed(tt, y, s)
    ensures w[i] in s
  {
    if i > 0 {
      TypeWalkStays(tt, s, w, i - 1);
    }
  }

  /** On any valid table, types that refer to each other included, the
      intended traversal lists no type twice, leaves out the model type, and
      lists exactly the other types its model type leads to. */
  lemma RelatedVisitedSpec(tt: TypeTable, m: TypeId)
    requires ValidTable(tt) && m in tt
    ensures var r, mt := RelatedVisited(tt, m), ModelTypeOf(tt, m);
      NoDup(r) && mt !in r && forall x :: x in r <==> x != mt && TypeLeads(tt, mt, x)
  {
    assert ValidType(tt, m);
    var mt := tt[m].modelPropertyType;
    var f := VisitType(tt, mt, [mt]);
    var r := f[1..];
    assert NoDup([mt]);
    VisitTypeNoDup(tt, mt, [mt]);
    VisitTypeCovers(tt, mt, [mt]);
    assert f[..1] == [mt];
    assert f[0] == f[..1][0] == mt;
    assert f == [mt] + r;
    forall x ensures x in r <==> x != mt && TypeLeads(tt, mt, x) {
      if x in r {
        var k :| 0 <= k < |r| && r[k] == x;
        assert f[k + 1] == x;
        assert x != mt;
        VisitTypeFrom(tt, mt, [mt], x);
      }
      if x != mt && TypeLeads(tt, mt, x) {
        var w :| TypeWalk(tt, w) && |w| > 0 && w[0] == mt && w[|w| - 1] == x;
        forall y | y in f ensures y in tt && TypeTargetsListed(tt, y, f) {
          if y != mt {
            assert y !in [mt];
          }
        }
        TypeWalkStays(tt, f, w, |w| - 1);
        assert x in f;
      }
    }
  }

  /** A type reached by following targets has a smaller rank. */
  lemma {:induction false} ReachesLower(tt: TypeTable, a: TypeId, x: TypeId)
    requires RankedTable(tt) && TypeReaches(tt, a, x)
    ensures x in tt && tt[x].relRank < tt[a].relRank
    decreases tt[a].relRank
  {
    assert ValidType(tt, a) && RankedType(tt, a);
    var y :| y in DirectTargets(tt, a) && y != a && (y == x || TypeReaches(tt, y, x));
    if y != x {
      ReachesLower(tt, y, x);
    }
  }

  /** On a ranked table, reaching a type is having a walk to it. */
  lemma {:induction false} ReachesWalk(tt: TypeTable, a: TypeId, x: TypeId)
    requires RankedTable(tt) && TypeReaches(tt, a, x)
    ensures TypeLeads(tt, a, x)
    decreases tt[a].relRank
  {
    assert ValidType(tt, a) && RankedType(tt, a);
    var y :| y in DirectTargets(tt, a) && y != a && (y == x || TypeReaches(tt, y, x));
    var w := [y];
    if y != x {
      ReachesWalk(tt, y, x);
      w :| TypeWalk(tt, w) && |w| > 0 && w[0] == y && w[|w| - 1] == x;
    }
    TypeWalkCons(tt, a, w);
    assert ([a] + w)[|[a] + w| - 1] == x;
  }

  lemma {:induction false} WalkReaches(tt: TypeTable, w: seq<TypeId>)
    requires RankedTable(tt) && TypeWalk(tt, w) && |w| > 0
    ensures w[|w| - 1] == w[0] || TypeReaches(tt, w[0], w[|w| - 1])
    decreases |w|
  {
    if |w| > 1 {
      var a, y, x := w[0], w[1], w[|w| - 1];
      var v := w[1..];
      assert forall i :: 0 < i < |v| ==> v[i] == w[i + 1] && v[i - 1] == w[i];
      WalkReaches(tt, v);
      assert v[0] == y && v[|v| - 1] == x;
      if y != a {
        assert y in DirectTargets(tt, a) && a in tt;
        assert ValidType(tt, a) && RankedType(tt, a);
        assert y != a && (y == x || TypeReaches(tt, y, x));
      }
    }
  }

  /** On a ranked table, the traversal with a visited list lists the same
      types as the recursion as written. */
  lemma RelatedVisitedRanked(tt: TypeTable, m: TypeId, x: TypeId)
    requires RankedTable(tt) && m in tt
    ensures x in RelatedVisited(tt, m) <==> x in Related(tt, m)
  {
    var mt := ModelTypeOf(tt, m);
    RelatedVisitedSpec(tt, m);
    RelatedReach(tt, m, x);
    if x in Related(tt, m) {
      assert ValidType(tt, m) && mt in tt;
      ReachesLower(tt, mt, x);
      ReachesWalk(tt, mt, x);
    }
    if x in RelatedVisited(tt, m) {
      var w :| TypeWalk(tt, w) && |w| > 0 && w[0] == mt && w[|w| - 1] == x;
      WalkReaches(tt, w);
    }
  }

  // ---------------------------------------------------------------------
  // The library object

  class ModelLibrary {
    const tt: TypeTable
    var modelTypes: map<string, TypeId>
    /** _modelTypes.Values in their enumeration (insertion) order. */
    var all: seq<TypeId>
    var twinModels: map<TypeId, TwinModel>

    function State(): Index
      reads this
    {
      Index(modelTypes, all, twinModels)
    }

    /** The descriptor table stands for the loaded types; the tables start empty. */
    constructor (tt: TypeTable)
      ensures this.tt == tt && State() == EmptyIndex
    {
      this.tt := tt;
      modelTypes, all, twinModels := map[], [], map[];
    }

    /** new ModelLibrary(): construction runs Init, and an exception from
        Init leaves no library behind. */
    static method New(tt: TypeTable, assemblies: seq<Assembly>) returns (r: Result<ModelLibrary, LibraryError>)
      requires ValidTable(tt)
      ensures r.Ok? <==> InitSpec(tt, assemblies).Ok?
      ensures r.Ok? ==> fresh(r.value) && r.value.tt == tt && r.value.State() == InitSpec(tt, assemblies).value
      ensures r.Err? ==> r.error == InitSpec(tt, assemblies).error
    {
      var lib := new ModelLibrary(tt);
      var o := lib.Init(assemblies);
      if o.Fail? {
        return Err(o.error);
      }
      return Ok(lib);
    }

    method Init(assemblies: seq<Assembly>) returns (res: Outcome<LibraryError>)
      requires ValidTable(tt)
      modifies this
      ensures res.Pass? <==> InitSpec(tt, assemblies).Ok?
      ensures res.Pass? ==> State() == InitSpec(tt, assemblies).value
      ensures res.Fail? ==> res.error == InitSpec(tt, assemblies).error
    {
      modelTypes, all, twinModels := map[], [], map[];
      var types := Candidates(tt, assemblies);
      res := RegisterTypes(types);
      if res.Fail? {
        return;
      }
      if |assemblies| > 0 && assemblies[0].types.None? {
        return Fail(TypeLoadFailure);
      }
      RegisterShape(tt, types);
      res := ExtendRegistered();
    }

    /** The ForEach that fills _modelTypes and _twinModels. */
    method RegisterTypes(types: seq<TypeId>) returns (res: Outcome<LibraryError>)
      requires forall t :: t in types ==> t in tt
      requires State() == EmptyIndex
      modifies this
      ensures res.Pass? <==> Register(tt, types).Ok?
      ensures res.Pass? ==> State() == Register(tt, types).value
      ensures res.Fail? ==> res.error == Register(tt, types).error
    {
      var i := 0;
      while i < |types|
        invariant 0 <= i <= |types|
        invariant Register(tt, types[..i]) == Ok(State())
      {
        var dt := types[i];
        assert types[..i + 1][..i] == types[..i];
        if !tt[dt].isInterface {
          var id := tt[dt].fullModelId;
          if id in modelTypes {
            RegisterPrefixErr(tt, types, i + 1);
            return Fail(DuplicateModelId(id));
          }
          modelTypes := modelTypes[id := dt];
          all := all + [dt];
          if dt in twinModels {
            RegisterPrefixErr(tt, types, i + 1);
            return Fail(DuplicateTwinModel(dt));
          }
          twinModels := twinModels[dt := TwinModel(tt[dt].relationships, [])];
        }
        i := i + 1;
      }
      assert types[..|types|] == types;
      return Pass;
    }

    /** The foreach over _twinModels that merges each type's ancestors' relationships. */
    method ExtendRegistered() returns (res: Outcome<LibraryError>)
      requires ValidTable(tt) && Shaped(tt, State())
      modifies this
      ensures var e := ExtendAll(tt, old(State()), old(all));
        (res.Pass? <==> e.Ok?) && (res.Pass? ==> State() == e.value) && (res.Fail? ==> res.error == e.error)
    {
      ghost var ix := State();
      var k := 0;
      while k < |all|
        invariant 0 <= k <= |all| && all == ix.all
        invariant ExtendAll(tt, ix, all[..k]) == Ok(State())
      {
        var dt := all[k];
        ExtendAllAt(tt, ix, all, k);
        var o := InitializeExtendingRelationships(tt[dt].base, dt);
        if o.Fail? {
          ExtendAllPrefixErr(tt, ix, all, k + 1);
          return o;
        }
        k := k + 1;
      }
      assert all[..|all|] == all;
      return Pass;
    }

    /** Adds the relationships of `dt` and of its registered ancestors to the
        extending relationships of `target`'s twin model. */
    method InitializeExtendingRelationships(dt: Option<TypeId>, target: TypeId) returns (res: Outcome<LibraryError>)
      requires ValidTable(tt) && target in twinModels && ModelsFromTable(tt, twinModels)
      modifies this
      ensures modelTypes == old(modelTypes) && all == old(all)
      ensures var e := Extending(tt, old(twinModels).Keys, dt, old(twinModels)[target].extending);
        (res.Pass? <==> e.Ok?) &&
        (res.Pass? ==> twinModels == old(twinModels)[target := old(twinModels)[target].(extending := e.value)]) &&
        (res.Fail? ==> res.error == e.error)
      decreases if dt.Some? && dt.value in tt then tt[dt.value].depth + 1 else 0
    {
      if dt.None? || dt.value !in twinModels {
        assert twinModels == twinModels[target := twinModels[target]];
        return Pass;
      }
      ghost var m0 := twinModels;
      var b := dt.value;
      var model := GetTwinModel(State(), b);
      ghost var added := AddRelationships(m0[target].extending, tt[b].relationships);
      res := AddToExtending(target, model.value.relationships);
      if res.Fail? {
        return;
      }
      assert ValidType(tt, b);
      ExtendedModel(tt, m0, target, added.value);
      res := InitializeExtendingRelationships(tt[b].base, target);
      if res.Pass? {
        assert twinModels == m0[target := twinModels[target]];
      }
    }

    /** The ForEach that adds each relationship to the extending
        relationships of `target`'s twin model. */
    method AddToExtending(target: TypeId, rels: seq<Relationship>) returns (res: Outcome<LibraryError>)
      requires target in twinModels
      modifies this
      ensures modelTypes == old(modelTypes) && all == old(all)
      ensures var e := AddRelationships(old(twinModels)[target].extending, rels);
        (res.Pass? <==> e.Ok?) &&
        (res.Pass? ==> twinModels == old(twinModels)[target := old(twinModels)[target].(extending := e.value)]) &&
        (res.Fail? ==> res.error == e.error)
    {
      ghost var models0 := twinModels;
      ghost var acc0 := twinModels[target].extending;
      var j := 0;
      while j < |rels|
        invariant 0 <= j <= |rels|
        invariant modelTypes == old(modelTypes) && all == old(all)
        invariant target in twinModels
        invariant AddRelationships(acc0, rels[..j]) == Ok(twinModels[target].extending)
        invariant twinModels == models0[target := models0[target].(extending := twinModels[target].extending)]
      {
        var r := rels[j];
        assert rels[..j + 1][..j] == rels[..j];
        var m := twinModels[target];
        if r.name in Names(m.extending) {
          AddRelationshipsPrefixErr(acc0, rels, j + 1);
          return Fail(DuplicateRelationship(r.name));
        }
        twinModels := twinModels[target := m.(extending := m.extending + [r])];
        j := j + 1;
      }
      assert rels[..|rels|] == rels;
      return Pass;
    }
  }
}
