/** The state side of TwinBase: the model id kept in step with the twin's
    metadata, the attribute information read at construction, and the
    Contents dictionary rebuilt from the twin's properties with nulls removed. */
module TwinContents {
  import opened Wrappers
  import opened Lists
  import opened TwinData
  import opened TypeSystem

  /** The ArgumentException that ToDictionary or IDictionary.Add throws on a key met twice. */
  datatype ContentsError = DuplicateContentsKey

  const DefaultModelType: string := "Interface"
  const DefaultContext: string := "dtmi:dtdl:context;2"
  const SystemPrefix: string := "System."
  const ComponentTypeName: string := "Azure.DigitalTwins.Core.BasicDigitalTwinComponent"

  /** A fresh component's Metadata object; its own properties are not modelled. */
  const ComponentMetadata: Value := Obj("Azure.DigitalTwins.Core.DigitalTwinComponentMetadata", true, [])

  // ---------------------------------------------------------------------
  // RefreshContents and ToTwinComponent (lines 184-208)

  /** The camel-cased names of a list of properties, in order. */
  function Keys(camel: string -> string, fields: seq<Field>): seq<string> {
    Map((f: Field) => camel(f.name), fields)
  }

  /** The Select/ToDictionary over the twin properties: camel-cased name to
      value, a twin-valued property becoming a component. */
  function BuildContents(camel: string -> string, fields: seq<Field>): Result<map<string, Value>, ContentsError>
    decreases fields
  {
    if fields == [] then Ok(map[])
    else
      var last := fields[|fields| - 1];
      match BuildContents(camel, fields[..|fields| - 1])
      case Err(e) => Err(e)
      case Ok(m) =>
        match ComponentOf(camel, last.value)
        case Err(e) => Err(e)
        case Ok(v) => if camel(last.name) in m then Err(DuplicateContentsKey) else Ok(m[camel(last.name) := v])
  }

  /** `c.value is TwinBase twinBase ? twinBase.ToTwinComponent() : c.value`. */
  function ComponentOf(camel: string -> string, v: Value): Result<Value, ContentsError>
    decreases v
  {
    if v.TwinObj? then ToTwinComponent(camel, v) else Ok(v)
  }

  /** ToTwinComponent (lines 195-208): a component holding the twin's properties. */
  function ToTwinComponent(camel: string -> string, v: Value): Result<Value, ContentsError>
    requires v.TwinObj?
    decreases v, 0
  {
    match BuildContents(camel, v.twinProps)
    case Err(e) => Err(e)
    case Ok(m) => Ok(Component(m))
  }

  /** The dictionary is built exactly when the camel-cased names are distinct
      and every nested twin converts; it then maps each name to its converted value. */
  lemma {:induction false} BuildContentsSpec(camel: string -> string, fields: seq<Field>)
    ensures BuildContents(camel, fields).Ok? <==>
              NoDup(Keys(camel, fields)) && forall i :: 0 <= i < |fields| ==> ComponentOf(camel, fields[i].value).Ok?
    ensures BuildContents(camel, fields).Ok? ==>
              (forall k :: k in BuildContents(camel, fields).value <==> k in Keys(camel, fields)) &&
              forall i :: 0 <= i < |fields| ==>
                BuildContents(camel, fields).value[camel(fields[i].name)] == ComponentOf(camel, fields[i].value).value
    decreases |fields|
  {
    if fields != [] {
      var init, last := fields[..|fields| - 1], fields[|fields| - 1];
      BuildContentsSpec(camel, init);
      FieldsSnoc(camel, fields);
      NoDupSnoc(Keys(camel, init), camel(last.name));
      var r := BuildContents(camel, init);
      if r.Ok? && ComponentOf(camel, last.value).Ok? && camel(last.name) !in r.value {
        EntriesSnoc(camel, fields, r.value, ComponentOf(camel, last.value).value);
      }
    }
  }

  /** Adding the last field's entry keeps the entries of the earlier fields. */
  lemma EntriesSnoc(camel: string -> string, fields: seq<Field>, r: map<string, Value>, v: Value)
    requires fields != [] && camel(fields[|fields| - 1].name) !in r
    requires forall i :: 0 <= i < |fields| ==> ComponentOf(camel, fields[i].value).Ok?
    requires forall i :: 0 <= i < |fields| - 1 ==>
               camel(fields[i].name) in r && r[camel(fields[i].name)] == ComponentOf(camel, fields[i].value).value
    requires v == ComponentOf(camel, fields[|fields| - 1].value).value
    ensures forall i :: 0 <= i < |fields| ==>
              r[camel(fields[|fields| - 1].name) := v][camel(fields[i].name)] == ComponentOf(camel, fields[i].value).value
  {
  }

  /** The keys and the component conditions of a list with one more field. */
  lemma FieldsSnoc(camel: string -> string, fields: seq<Field>)
    requires fields != []
    ensures var init, last := fields[..|fields| - 1], fields[|fields| - 1];
            Keys(camel, fields) == Keys(camel, init) + [camel(last.name)] &&
            ((forall i :: 0 <= i < |fields| ==> ComponentOf(camel, fields[i].value).Ok?) <==>
             (forall i :: 0 <= i < |init| ==> ComponentOf(camel, init[i].value).Ok?) && ComponentOf(camel, last.value).Ok?)
  {
    var init, last := fields[..|fields| - 1], fields[|fields| - 1];
    assert fields == init + [last];
    MapConcat((f: Field) => camel(f.name), init, [last]);
    assert forall i :: 0 <= i < |init| ==> init[i] == fields[i];
  }

  /** A component lists its twin's camel-cased property names and nothing else. */
  lemma ToTwinComponentKeys(camel: string -> string, v: Value)
    requires v.TwinObj? && ToTwinComponent(camel, v).Ok?
    ensures ToTwinComponent(camel, v).value.Component?
    ensures forall k :: k in ToTwinComponent(camel, v).value.contents <==> k in Keys(camel, v.twinProps)
  {
    BuildContentsSpec(camel, v.twinProps);
  }

  // ---------------------------------------------------------------------
  // CleanupDigitalTwinContents and RemoveNullPropertiesFromObject (lines 211-242)

  /** ASCII case folding; the invariant culture's full Unicode folding is not modelled. */
  function Lower(c: char): char {
    if 'A' <= c <= 'Z' then (c as int + 32) as char else c
  }

  predicate StartsWithIgnoreCase(s: string, prefix: string) {
    |prefix| <= |s| && forall i :: 0 <= i < |prefix| ==> Lower(s[i]) == Lower(prefix[i])
  }

  /** The full name of a value's runtime type when that type is a class. */
  function ClassName(v: Value): Option<string> {
    match v
    case Str(_) => Some("System.String")
    case Nested(k, _) => if k.KClass? then Some(k.className) else None
    case TwinObj(n, _, _) => Some(n)
    case Obj(n, isClass, _) => if isClass then Some(n) else None
    case Component(_) => Some(ComponentTypeName)
    case Dict(_) => Some("System.Collections.Generic.Dictionary`2")
    case Expando(_) => Some("System.Dynamic.ExpandoObject")
    case _ => None
  }

  /** Lines 221-222: a class whose full name does not start with "System.", ignoring case. */
  predicate NeedsFlattening(v: Value) {
    ClassName(v).Some? && !StartsWithIgnoreCase(ClassName(v).value, SystemPrefix)
  }

  /** Type.GetProperties() of a value, with their values. */
  function PropsOf(v: Value): seq<Field> {
    match v
    case TwinObj(_, props, _) => props
    case Obj(_, _, props) => props
    case Component(c) => [Field("Metadata", ComponentMetadata), Field("Contents", Dict(c))]
    case _ => []
  }

  /** The Expando's entries after the loop over `fs`: each non-null value
      added under its camel-cased name; Add throws on a name already present. */
  function AddNonNull(camel: string -> string, fs: seq<Field>): Result<map<string, Value>, ContentsError> {
    if fs == [] then Ok(map[])
    else
      var last := fs[|fs| - 1];
      match AddNonNull(camel, fs[..|fs| - 1])
      case Err(e) => Err(e)
      case Ok(m) =>
        if last.value == Null then Ok(m)
        else if camel(last.name) in m then Err(DuplicateContentsKey)
        else Ok(m[camel(last.name) := last.value])
  }

  function RemoveNulls(camel: string -> string, v: Value): Result<Value, ContentsError> {
    match AddNonNull(camel, PropsOf(v))
    case Err(e) => Err(e)
    case Ok(m) => Ok(Expando(m))
  }

  /** RemoveNullPropertiesFromObject (lines 229-242), on the map it fills. */
  method RemoveNullPropertiesFromObject(camel: string -> string, v: Value) returns (r: Result<Value, ContentsError>)
    ensures r == RemoveNulls(camel, v)
  {
    var props := PropsOf(v);
    var entries: map<string, Value> := map[];
    assert props[..0] == [];
    for i := 0 to |props|
      invariant AddNonNull(camel, props[..i]) == Ok(entries)
    {
      assert props[..i + 1][..i] == props[..i];
      var p := props[i];
      if p.value != Null {
        var key := camel(p.name);
        if key in entries {
          NullsErrStays(camel, props, i + 1);
          return Err(DuplicateContentsKey);
        }
        entries := entries[key := p.value];
      }
    }
    assert props[..|props|] == props;
    return Ok(Expando(entries));
  }

  /** Once the loop has thrown, the whole list throws. */
  lemma {:induction false} NullsErrStays(camel: string -> string, fs: seq<Field>, n: nat)
    requires n <= |fs| && AddNonNull(camel, fs[..n]).Err?
    ensures AddNonNull(camel, fs) == Err(DuplicateContentsKey)
    decreases |fs| - n
  {
    if n == |fs| {
      assert fs[..n] == fs;
      NullsErrIsDuplicate(camel, fs);
    } else {
      assert fs[..n + 1][..n] == fs[..n];
      NullsErrStays(camel, fs, n + 1);
    }
  }

  lemma {:induction false} NullsErrIsDuplicate(camel: string -> string, fs: seq<Field>)
    ensures AddNonNull(camel, fs).Err? ==> AddNonNull(camel, fs).error == DuplicateContentsKey
  {
    if fs != [] {
      NullsErrIsDuplicate(camel, fs[..|fs| - 1]);
    }
  }

  /** The Expando holds exactly the non-null properties, under their
      camel-cased names, and Add throws exactly when two non-null properties
      share a camel-cased name. */
  lemma {:induction false} AddNonNullSpec(camel: string -> string, fs: seq<Field>)
    ensures AddNonNull(camel, fs).Ok? <==> DistinctNonNullNames(camel, fs)
    decreases |fs|
  {
    if fs != [] {
      var n := |fs| - 1;
      var init, last := fs[..n], fs[n];
      AddNonNullSpec(camel, init);
      AddNonNullContents(camel, init);
      DistinctNonNullNamesSnoc(camel, fs);
      var r := AddNonNull(camel, init);
      if r.Ok? && last.value != Null && camel(last.name) in r.value {
        var i :| 0 <= i < n && init[i].value != Null && camel(init[i].name) == camel(last.name);
      }
    }
  }

  /** One more field keeps the names distinct exactly when the earlier fields
      had distinct names and the new field, when not null, has a new name. */
  lemma DistinctNonNullNamesSnoc(camel: string -> string, fs: seq<Field>)
    requires fs != []
    ensures var init, last := fs[..|fs| - 1], fs[|fs| - 1];
            DistinctNonNullNames(camel, fs) <==>
              DistinctNonNullNames(camel, init) &&
              (last.value != Null ==>
                 forall i :: 0 <= i < |init| && init[i].value != Null ==> camel(init[i].name) != camel(last.name))
  {
    var init := fs[..|fs| - 1];
    assert forall i :: 0 <= i < |init| ==> init[i] == fs[i];
  }

  /** The Expando holds exactly the non-null properties, under their camel-cased names. */
  predicate NonNullEntriesOf(camel: string -> string, fs: seq<Field>, m: map<string, Value>) {
    (forall k :: k in m ==> m[k] != Null) &&
    (forall i :: 0 <= i < |fs| && fs[i].value != Null ==> camel(fs[i].name) in m && m[camel(fs[i].name)] == fs[i].value) &&
    (forall k :: k in m ==> exists i :: 0 <= i < |fs| && fs[i].value != Null && camel(fs[i].name) == k)
  }

  lemma {:induction false} AddNonNullContents(camel: string -> string, fs: seq<Field>)
    ensures AddNonNull(camel, fs).Ok? ==> NonNullEntriesOf(camel, fs, AddNonNull(camel, fs).value)
    decreases |fs|
  {
    if fs != [] && AddNonNull(camel, fs).Ok? {
      var init := fs[..|fs| - 1];
      AddNonNullContents(camel, init);
      NonNullEntriesSnoc(camel, fs, AddNonNull(camel, init).value, AddNonNull(camel, fs).value);
    }
  }

  /** The entries after one more property: its value under its name when not null. */
  lemma NonNullEntriesSnoc(camel: string -> string, fs: seq<Field>, r: map<string, Value>, m: map<string, Value>)
    requires fs != [] && NonNullEntriesOf(camel, fs[..|fs| - 1], r)
    requires var last := fs[|fs| - 1];
             if last.value == Null then m == r
             else camel(last.name) !in r && m == r[camel(last.name) := last.value]
    ensures NonNullEntriesOf(camel, fs, m)
  {
    var n := |fs| - 1;
    var init, last := fs[..n], fs[n];
    assert forall i :: 0 <= i < n ==> init[i] == fs[i];
    forall k | k in m ensures exists i :: 0 <= i < |fs| && fs[i].value != Null && camel(fs[i].name) == k {
      if k in r {
        var i :| 0 <= i < n && init[i].value != Null && camel(init[i].name) == k;
        assert fs[i] == init[i];
      } else {
        assert fs[n] == last;
      }
    }
    forall i | 0 <= i < |fs| && fs[i].value != Null
      ensures camel(fs[i].name) in m && m[camel(fs[i].name)] == fs[i].value
    {
      if i < n {
        assert init[i] == fs[i];
        assert camel(fs[i].name) in r;
      }
    }
  }

  /** No two non-null properties share a camel-cased name. */
  predicate DistinctNonNullNames(camel: string -> string, fs: seq<Field>) {
    forall i, j :: 0 <= i < j < |fs| && fs[i].value != Null && fs[j].value != Null ==>
      camel(fs[i].name) != camel(fs[j].name)
  }

  /** Line 216-218: the entries whose value is not null. */
  function NonNullEntries(c: map<string, Value>): map<string, Value> {
    map k | k in c && c[k] != Null :: c[k]
  }

  predicate FlattenFails(camel: string -> string, v: Value) {
    NeedsFlattening(v) && RemoveNulls(camel, v).Err?
  }

  function Cleaned(camel: string -> string, v: Value): Value
    requires !FlattenFails(camel, v)
  {
    if NeedsFlattening(v) then RemoveNulls(camel, v).value else v
  }

  /** CleanupDigitalTwinContents: nulls dropped, every entry that needs it flattened. */
  function Cleanup(camel: string -> string, c: map<string, Value>): Result<map<string, Value>, ContentsError> {
    var d := NonNullEntries(c);
    if exists k :: k in d && FlattenFails(camel, d[k]) then Err(DuplicateContentsKey)
    else Ok(map k | k in d :: Cleaned(camel, d[k]))
  }

  /** CleanupDigitalTwinContents (lines 211-227). The loop overwrites the
      entries it enumerates; overwriting an existing key leaves a
      Dictionary's enumeration valid, and each key is met once, with the value
      it had after the null filter. */
  method CleanupDigitalTwinContents(camel: string -> string, c: map<string, Value>)
    returns (r: Result<map<string, Value>, ContentsError>)
    ensures r == Cleanup(camel, c)
  {
    var d := NonNullEntries(c);
    var pending := set k | k in d && NeedsFlattening(d[k]);
    var result := d;
    while pending != {}
      invariant CleanupProgress(camel, d, pending, result)
      decreases pending
    {
      var k :| k in pending;
      var flat := FlattenEntry(camel, result[k]);
      if flat.Err? {
        return Err(flat.error);
      }
      CleanupProgressStep(camel, d, pending, result, k);
      result := result[k := flat.value];
      pending := pending - {k};
    }
    assert result == map k | k in d :: Cleaned(camel, d[k]);
    return Ok(result);
  }

  /** The loop's state: the entries still pending need flattening and keep
      their value, the others are cleaned and did not fail. */
  ghost predicate CleanupProgress(camel: string -> string, d: map<string, Value>, pending: set<string>, result: map<string, Value>) {
    pending <= d.Keys && result.Keys == d.Keys &&
    (forall k :: k in pending ==> NeedsFlattening(d[k])) &&
    (forall k :: k in d && k !in pending ==> !FlattenFails(camel, d[k])) &&
    (forall k :: k in d ==> result[k] == if k in pending then d[k] else Cleaned(camel, d[k]))
  }

  lemma CleanupProgressStep(camel: string -> string, d: map<string, Value>, pending: set<string>, result: map<string, Value>, k: string)
    requires CleanupProgress(camel, d, pending, result) && k in pending && !FlattenFails(camel, d[k])
    ensures CleanupProgress(camel, d, pending - {k}, result[k := Cleaned(camel, d[k])])
    ensures pending - {k} < pending
  {
  }

  /** Line 224 for one entry that needs flattening. */
  method FlattenEntry(camel: string -> string, v: Value) returns (r: Result<Value, ContentsError>)
    requires NeedsFlattening(v)
    ensures r.Err? <==> FlattenFails(camel, v)
    ensures r.Err? ==> r.error == DuplicateContentsKey
    ensures r.Ok? ==> r.value == Cleaned(camel, v)
  {
    r := RemoveNullPropertiesFromObject(camel, v);
    if r.Err? {
      NullsErrIsDuplicate(camel, PropsOf(v));
    }
  }

  /** After the cleanup no entry is null, the keys are exactly those of the
      non-null entries, a flattened entry is an Expando without nulls, and
      every other entry keeps its value. */
  lemma CleanupSpec(camel: string -> string, c: map<string, Value>)
    requires Cleanup(camel, c).Ok?
    ensures forall k :: k in Cleanup(camel, c).value <==> k in c && c[k] != Null
    ensures forall k :: k in Cleanup(camel, c).value ==> Cleanup(camel, c).value[k] != Null
    ensures forall k :: k in Cleanup(camel, c).value && !NeedsFlattening(c[k]) ==>
              Cleanup(camel, c).value[k] == c[k]
    ensures forall k :: k in Cleanup(camel, c).value && NeedsFlattening(c[k]) ==>
              Cleanup(camel, c).value[k].Expando? &&
              forall e :: e in Cleanup(camel, c).value[k].entries ==> Cleanup(camel, c).value[k].entries[e] != Null
  {
    forall k | k in Cleanup(camel, c).value && NeedsFlattening(c[k])
      ensures forall e :: e in Cleanup(camel, c).value[k].entries ==> Cleanup(camel, c).value[k].entries[e] != Null
    {
      AddNonNullContents(camel, PropsOf(c[k]));
    }
  }

  /** What the cleanup produces needs no further cleaning: it is idempotent. */
  lemma CleanupIdempotent(camel: string -> string, c: map<string, Value>)
    requires Cleanup(camel, c).Ok?
    ensures Cleanup(camel, Cleanup(camel, c).value) == Cleanup(camel, c)
  {
    var r := Cleanup(camel, c).value;
    CleanedEntriesFinal(camel, c);
    assert NonNullEntries(r) == r;
    assert (map k | k in r :: Cleaned(camel, r[k])) == r;
  }

  /** No entry of a cleaned dictionary is null or needs flattening. */
  lemma CleanedEntriesFinal(camel: string -> string, c: map<string, Value>)
    requires Cleanup(camel, c).Ok?
    ensures forall k :: k in Cleanup(camel, c).value ==>
              Cleanup(camel, c).value[k] != Null && !NeedsFlattening(Cleanup(camel, c).value[k])
  {
    var d := NonNullEntries(c);
    var r := Cleanup(camel, c).value;
    assert r == map k | k in d :: Cleaned(camel, d[k]);
    forall k | k in r ensures r[k] != Null && !NeedsFlattening(r[k]) {
      assert d[k] != Null;
      if NeedsFlattening(d[k]) {
        var e := RemoveNulls(camel, d[k]).value;
        assert e.Expando?;
        ExpandoIsSystem(e.entries);
      }
    }
  }

  /** An ExpandoObject's type is in the System namespace. */
  lemma ExpandoIsSystem(m: map<string, Value>)
    ensures !NeedsFlattening(Expando(m))
  {
    assert StartsWithIgnoreCase("System.Dynamic.ExpandoObject", SystemPrefix);
  }

  /** RefreshContents' result: the built dictionary, then its cleanup. */
  function Refreshed(camel: string -> string, fields: seq<Field>): Result<map<string, Value>, ContentsError> {
    match BuildContents(camel, fields)
    case Err(e) => Err(e)
    case Ok(m) => Cleanup(camel, m)
  }

  /** After a successful refresh no top-level entry is null, and its keys are
      the camel-cased names of the twin properties whose value is not null. */
  lemma RefreshedSpec(camel: string -> string, fields: seq<Field>)
    requires Refreshed(camel, fields).Ok?
    ensures forall k :: k in Refreshed(camel, fields).value ==> Refreshed(camel, fields).value[k] != Null
    ensures forall i :: 0 <= i < |fields| && fields[i].value != Null ==> camel(fields[i].name) in Refreshed(camel, fields).value
    ensures forall k :: k in Refreshed(camel, fields).value ==> k in Keys(camel, fields)
  {
    var m := BuildContents(camel, fields).value;
    BuildContentsSpec(camel, fields);
    CleanupSpec(camel, m);
    forall i | 0 <= i < |fields| && fields[i].value != Null
      ensures camel(fields[i].name) in Refreshed(camel, fields).value
    {
      assert m[camel(fields[i].name)] == ComponentOf(camel, fields[i].value).value;
      assert camel(fields[i].name) in Keys(camel, fields);
    }
  }

  /** The nested-object twin of the tests: one twin property holding an
      object with Name = "name", Value = null and an enum State. Its contents
      hold one entry, an Expando with two keys. */
  lemma NestedObjectExample(camel: string -> string, objType: string, enumName: string, state: int)
    requires camel("NestedObj") == "nestedObj" && camel("Name") == "name" && camel("State") == "state"
    requires !StartsWithIgnoreCase(objType, SystemPrefix)
    ensures var nested := Obj(objType, true, [Field("Name", Str("name")), Field("Value", Null), Field("State", EnumVal(enumName, state))]);
            Refreshed(camel, [Field("NestedObj", nested)]) ==
              Ok(map["nestedObj" := Expando(map["name" := Str("name"), "state" := EnumVal(enumName, state)])])
  {
    var props := [Field("Name", Str("name")), Field("Value", Null), Field("State", EnumVal(enumName, state))];
    var nested := Obj(objType, true, props);
    var fields := [Field("NestedObj", nested)];
    assert fields[..0] == [];
    assert BuildContents(camel, fields) == Ok(map["nestedObj" := nested]);
    NestedPropsExample(camel, enumName, state);
    var c := map["nestedObj" := nested];
    assert NonNullEntries(c) == c;
    assert Cleaned(camel, nested) == Expando(map["name" := Str("name"), "state" := EnumVal(enumName, state)]);
    assert (map k | k in c :: Cleaned(camel, c[k])) ==
           map["nestedObj" := Expando(map["name" := Str("name"), "state" := EnumVal(enumName, state)])];
  }

  /** The nested object's Expando: the null Value is dropped. */
  lemma NestedPropsExample(camel: string -> string, enumName: string, state: int)
    requires camel("Name") == "name" && camel("State") == "state"
    ensures AddNonNull(camel, [Field("Name", Str("name")), Field("Value", Null), Field("State", EnumVal(enumName, state))]) ==
            Ok(map["name" := Str("name"), "state" := EnumVal(enumName, state)])
  {
    var props := [Field("Name", Str("name")), Field("Value", Null), Field("State", EnumVal(enumName, state))];
    assert props[..2][..1][..0] == [] && props[..2][..1] == [props[0]] && props[..2] == props[..1] + [props[1]];
    assert AddNonNull(camel, props[..1]) == Ok(map["name" := Str("name")]);
    assert AddNonNull(camel, props[..2]) == Ok(map["name" := Str("name")]);
  }

  // ---------------------------------------------------------------------
  // ReadAttributeInfo (lines 162-182)

  /** The ExtendsModelId that lines 172-180 leave: the attribute's explicit
      value, else the base's full model id when the base has the attribute,
      else the current value. */
  function ChosenExtends(tt: TypeTable, t: TypeId, current: Option<string>): Option<string>
    requires ValidTable(tt) && t in tt
  {
    var ti := tt[t];
    if ti.attribute.None? then current
    else if ti.attribute.value.extendsModelId.Some? then ti.attribute.value.extendsModelId
    else if ti.base.Some? && (assert ValidType(tt, t); tt[ti.base.value].attribute.Some?) then
      Some(tt[ti.base.value].fullModelId)
    else current
  }

  /** A freshly constructed twin extends a model exactly when its type has
      the attribute and either names one explicitly or derives from a type
      with the attribute; without an explicit name it extends its base's model. */
  lemma ExtendsOfNewTwin(tt: TypeTable, t: TypeId)
    requires ValidTable(tt) && t in tt
    ensures ChosenExtends(tt, t, None).Some? <==>
              tt[t].attribute.Some? &&
              (tt[t].attribute.value.extendsModelId.Some? ||
               (tt[t].base.Some? && tt[t].base.value in tt && tt[tt[t].base.value].attribute.Some?))
    ensures tt[t].attribute.Some? && tt[t].attribute.value.extendsModelId.None? && ChosenExtends(tt, t, None).Some? ==>
              tt[t].base.Some? && tt[t].base.value in tt &&
              ChosenExtends(tt, t, None) == Some(tt[tt[t].base.value].fullModelId)
  {
    assert ValidType(tt, t);
  }

  /** Reading the attribute information twice changes nothing the first read did not. */
  lemma ChosenExtendsIdempotent(tt: TypeTable, t: TypeId, current: Option<string>)
    requires ValidTable(tt) && t in tt
    ensures ChosenExtends(tt, t, ChosenExtends(tt, t, current)) == ChosenExtends(tt, t, current)
  {
  }

  /** DigitalTwinMetadata: only its ModelId is modelled. */
  class TwinMetadata {
    var modelId: Option<string>

    constructor ()
      ensures modelId == None
    {
      modelId := None;
    }
  }

  /** A twin instance: the TwinBase fields and the BasicDigitalTwin fields it
      sets. `twinProps` are the values of the properties GetTwinProperties
      reports for its type. */
  class Twin {
    const typ: TypeId
    const twinProps: seq<Field>
    var modelId: Option<string>
    var metadata: TwinMetadata?
    var modelType: string
    var extendsModelId: Option<string>
    var context: string
    var displayName: Option<string>
    var contents: map<string, Value>

    /** The metadata, when present, carries the twin's model id. */
    predicate ModelIdSynced()
      reads this, metadata
    {
      metadata != null ==> metadata.modelId == modelId
    }

    /** The protected constructor (lines 17-22): field initialisers, then ReadAttributeInfo. */
    constructor (tt: TypeTable, typ: TypeId, twinProps: seq<Field>)
      requires ValidTable(tt) && typ in tt
      ensures this.typ == typ && this.twinProps == twinProps
      ensures fresh(metadata) && ModelIdSynced()
      ensures contents == map[] && context == DefaultContext
      ensures tt[typ].attribute.None? ==>
                modelId == None && modelType == DefaultModelType && displayName == None
      ensures tt[typ].attribute.Some? ==>
                modelId == Some(tt[typ].fullModelId) && modelType == tt[typ].attribute.value.modelType &&
                displayName == tt[typ].attribute.value.displayName
      ensures extendsModelId == ChosenExtends(tt, typ, None)
    {
      this.typ := typ;
      this.twinProps := twinProps;
      modelId := None;
      metadata := new TwinMetadata();
      modelType := DefaultModelType;
      extendsModelId := None;
      context := DefaultContext;
      displayName := None;
      contents := map[];
      new;
      ReadAttributeInfo(tt);
    }

    /** The ModelId setter (lines 136-148). */
    method SetModelId(v: Option<string>)
      modifies this, metadata
      ensures modelId == v && ModelIdSynced()
      ensures metadata == old(metadata)
      ensures modelType == old(modelType) && extendsModelId == old(extendsModelId) &&
              context == old(context) && displayName == old(displayName) && contents == old(contents)
    {
      modelId := v;
      var twinMetadata := metadata;
      if twinMetadata != null {
        twinMetadata.modelId := modelId;
      }
    }

    /** ReadAttributeInfo (lines 162-182). */
    method ReadAttributeInfo(tt: TypeTable)
      requires ValidTable(tt) && typ in tt
      modifies this, metadata
      ensures metadata == old(metadata) && context == old(context) && contents == old(contents)
      ensures tt[typ].attribute.None? ==>
                modelId == old(modelId) && modelType == old(modelType) && displayName == old(displayName) &&
                (metadata != null ==> metadata.modelId == old(metadata.modelId))
      ensures tt[typ].attribute.Some? ==>
                modelId == Some(tt[typ].fullModelId) && ModelIdSynced() &&
                modelType == tt[typ].attribute.value.modelType &&
                displayName == tt[typ].attribute.value.displayName
      ensures extendsModelId == ChosenExtends(tt, typ, old(extendsModelId))
    {
      var ti := tt[typ];
      if ti.attribute.Some? {
        var twinAttribute := ti.attribute.value;
        displayName := twinAttribute.displayName;
        SetModelId(Some(ti.fullModelId));
        modelType := twinAttribute.modelType;
        assert ValidType(tt, typ);
        if twinAttribute.extendsModelId.Some? {
          extendsModelId := twinAttribute.extendsModelId;
        } else if ti.base.Some? && tt[ti.base.value].attribute.Some? {
          extendsModelId := Some(tt[ti.base.value].fullModelId);
        }
      }
    }

    /** RefreshContents (lines 184-193). When the cleanup throws, Contents
        keeps the uncleaned dictionary assigned on line 188. */
    method RefreshContents(camel: string -> string) returns (r: Outcome<ContentsError>)
      modifies this
      ensures r.Pass? <==> Refreshed(camel, twinProps).Ok?
      ensures r.Pass? ==> contents == Refreshed(camel, twinProps).value
      ensures BuildContents(camel, twinProps).Err? ==> contents == old(contents)
      ensures BuildContents(camel, twinProps).Ok? && r.Fail? ==> contents == BuildContents(camel, twinProps).value
      ensures modelId == old(modelId) && metadata == old(metadata) && modelType == old(modelType) &&
              extendsModelId == old(extendsModelId) && context == old(context) && displayName == old(displayName)
    {
      var built := BuildContents(camel, twinProps);
      if built.Err? {
        return Fail(built.error);
      }
      contents := built.value;
      var cleaned := CleanupDigitalTwinContents(camel, contents);
      if cleaned.Err? {
        return Fail(cleaned.error);
      }
      contents := cleaned.value;
      return Pass;
    }
  }
}
