/** ObjectToTwinConverter<T>: writes a twin as one JSON object (reserved
    properties, then normal properties, then components) and reads one back
    into a new instance through a closed dispatch on the property's type.
    Reflection is replaced by a descriptor table per twin type. */
module TwinConverter {
  import opened Wrappers
  import opened Lists
  import opened TwinData
  import opened JsonIO
  import Enums

  // DigitalTwinsJsonPropertyNames of the Azure SDK.
  const DigitalTwinId: string := "$dtId"
  const DigitalTwinETag: string := "$etag"
  const DigitalTwinMetadata: string := "$metadata"

  /** The default SpecialTwinPropertyNames. */
  const DefaultSpecialNames: seq<string> :=
    [DigitalTwinId, DigitalTwinETag, DigitalTwinMetadata, "@context", "displayName"]

  /** The default TwinPropertyNamesToExclude. */
  const DefaultExcludedNames: seq<string> := ["@id", "@type", "extends", "@context", "displayName"]

  /** A property of the twin type: its member name, its wire name
      (GetTwinPropertyName), its declared type and whether it has a setter. */
  datatype Prop = Prop(member: string, twinName: string, kind: Kind, canWrite: bool)

  /** The property lists the reflection helpers report for one twin type, each
      in declaration order. */
  datatype PropertyTable = PropertyTable(
    basic: seq<Prop>,      // GetBasicDigitalTwinProperties()
    twinOnly: seq<Prop>,   // GetTwinProperties<TwinOnlyPropertyAttribute>
    marked: seq<Prop>,     // GetTwinProperties<TwinPropertyAttribute>(specialNames, …)
    telemetry: seq<Prop>,  // GetTwinProperties<TwinTelemetryAttribute>
    components: seq<Prop>) // GetTwinProperties<TwinComponentAttribute>, that is GetComponentTwinProperties()

  /** A converter for one twin type; the two name lists are virtual in the source. */
  datatype Converter = Converter(special: seq<string>, exclude: seq<string>, table: PropertyTable)

  function DefaultConverter(table: PropertyTable): Converter {
    Converter(DefaultSpecialNames, DefaultExcludedNames, table)
  }

  function TwinName(p: Prop): string { p.twinName }

  function Names(ps: seq<Prop>): seq<string> { Map(TwinName, ps) }

  // ---------------------------------------------------------------------
  // Property classification
  // ---------------------------------------------------------------------

  /** GetTwinOnlyProperties: the basic and twin-only properties whose wire name
      is one of `names`, less those named in `exclude` when it is given. */
  function GetTwinOnlyProperties(table: PropertyTable, names: seq<string>, exclude: Option<seq<string>>): (r: seq<Prop>)
    ensures forall p :: p in r <==>
      p in table.basic + table.twinOnly && p.twinName in names &&
      (exclude.Some? ==> p.twinName !in exclude.value)
    ensures IsSubseq(r, table.basic + table.twinOnly)
  {
    var keep := (p: Prop) => p.twinName in names && (exclude.Some? ==> p.twinName !in exclude.value);
    FilterSubseq(keep, table.basic + table.twinOnly);
    Filter(keep, table.basic + table.twinOnly)
  }

  /** GetNormalTwinProperties: the telemetry properties followed by the
      property-marked ones, less those named in `exclude` when it is given. */
  function GetNormalTwinProperties(table: PropertyTable, exclude: Option<seq<string>>): (r: seq<Prop>)
    ensures exclude.None? ==> r == table.telemetry + table.marked
    ensures exclude.Some? ==>
      var keep := (p: Prop) => p.twinName !in exclude.value;
      r == Filter(keep, table.telemetry) + Filter(keep, table.marked)
    ensures forall p :: p in r <==>
      p in table.telemetry + table.marked && (exclude.Some? ==> p.twinName !in exclude.value)
    ensures IsSubseq(r, table.telemetry + table.marked)
  {
    var all := table.telemetry + table.marked;
    if exclude.None? then
      SubseqRefl(all);
      all
    else
      var keep := (p: Prop) => p.twinName !in exclude.value;
      FilterConcat(keep, table.telemetry, table.marked);
      FilterSubseq(keep, all);
      Filter(keep, all)
  }

  /** The reserved properties Write emits. */
  function ReservedProps(conv: Converter): seq<Prop> {
    GetTwinOnlyProperties(conv.table, conv.special, Some(conv.exclude))
  }

  /** The normal properties Write emits. */
  function NormalProps(conv: Converter): seq<Prop> {
    GetNormalTwinProperties(conv.table, Some(conv.exclude))
  }

  /** Everything Write emits, in order. */
  function WrittenProps(conv: Converter): seq<Prop> {
    ReservedProps(conv) + NormalProps(conv) + conv.table.components
  }

  /** With the default name lists a reserved key can only be `$dtId`, `$etag` or `$metadata`. */
  lemma DefaultReservedNames(table: PropertyTable)
    ensures forall p :: p in ReservedProps(DefaultConverter(table)) ==>
      p.twinName in {DigitalTwinId, DigitalTwinETag, DigitalTwinMetadata}
  {
    forall p | p in ReservedProps(DefaultConverter(table))
      ensures p.twinName in {DigitalTwinId, DigitalTwinETag, DigitalTwinMetadata}
    {
      assert p.twinName in DefaultSpecialNames && p.twinName !in DefaultExcludedNames;
    }
  }

  // ---------------------------------------------------------------------
  // Write
  // ---------------------------------------------------------------------

  /** The value of a member of the instance; a member the map does not hold is null. */
  function ValueOf(values: map<string, Value>, member: string): Value {
    if member in values then values[member] else Null
  }

  function PairOf(values: map<string, Value>): Prop -> Field {
    (p: Prop) => Field(p.twinName, ValueOf(values, p.member))
  }

  /** ToNameValueDictionary: (wire name, value) for each property, in order. */
  function NameValuePairs(ps: seq<Prop>, values: map<string, Value>): seq<Field> {
    Map(PairOf(values), ps)
  }

  /** One member of a JSON object: a key and the token of its value. */
  datatype Entry = Entry(key: string, token: Token)

  function KeyOf(e: Entry): string { e.key }

  function Keys(es: seq<Entry>): seq<string> { Map(KeyOf, es) }

  /** The tokens of a sequence of object members. */
  function Layout(es: seq<Entry>): seq<Token> {
    if es == [] then [] else [PropertyName(es[0].key), es[0].token] + Layout(es[1..])
  }

  /** The tokens of a JSON object with the given members. */
  function Document(es: seq<Entry>): seq<Token> {
    [StartObject] + Layout(es) + [EndObject]
  }

  lemma {:induction false} LayoutConcat(a: seq<Entry>, b: seq<Entry>)
    ensures Layout(a + b) == Layout(a) + Layout(b)
  {
    if a == [] {
      assert a + b == b;
    } else {
      assert (a + b)[0] == a[0] && (a + b)[1..] == a[1..] + b;
      LayoutConcat(a[1..], b);
    }
  }

  lemma LayoutMapStep<T>(f: T -> Entry, s: seq<T>, i: nat)
    requires i < |s|
    ensures Layout(Map(f, s[..i + 1])) == Layout(Map(f, s[..i])) + [PropertyName(f(s[i]).key), f(s[i]).token]
  {
    assert s[..i + 1] == s[..i] + [s[i]];
    MapConcat(f, s[..i], [s[i]]);
    LayoutConcat(Map(f, s[..i]), Map(f, [s[i]]));
  }

  /** ETag.ToString().TrimStart('"').TrimEnd('"'). */
  function TrimStartQuotes(s: string): string {
    if s != [] && s[0] == '"' then TrimStartQuotes(s[1..]) else s
  }

  function TrimEndQuotes(s: string): string {
    if s != [] && s[|s| - 1] == '"' then TrimEndQuotes(s[..|s| - 1]) else s
  }

  function TrimQuotes(s: string): string {
    TrimEndQuotes(TrimStartQuotes(s))
  }

  function Quotes(n: nat): string {
    if n == 0 then [] else ['"'] + Quotes(n - 1)
  }

  predicate NoEdgeQuote(s: string) {
    s == [] || (s[0] != '"' && s[|s| - 1] != '"')
  }

  lemma {:induction false} TrimStartSpec(s: string)
    ensures var r := TrimStartQuotes(s);
      (r == [] || r[0] != '"') && exists a: nat :: s == Quotes(a) + r
  {
    var r := TrimStartQuotes(s);
    if s != [] && s[0] == '"' {
      TrimStartSpec(s[1..]);
      var a: nat :| s[1..] == Quotes(a) + r;
      assert s == Quotes(a + 1) + r;
    } else {
      assert s == Quotes(0) + r;
    }
  }

  lemma {:induction false} TrimEndSpec(s: string)
    ensures var r := TrimEndQuotes(s);
      (r == [] || r[|r| - 1] != '"') && (s != [] && s[0] != '"' ==> r == [] || r[0] == s[0]) &&
      exists b: nat :: s == r + Quotes(b)
    decreases |s|
  {
    var r := TrimEndQuotes(s);
    if s != [] && s[|s| - 1] == '"' {
      var init := s[..|s| - 1];
      TrimEndSpec(init);
      var b: nat :| init == r + Quotes(b);
      QuotesSnoc(b);
      assert s == init + ['"'];
      assert s == r + Quotes(b + 1);
      if s[0] != '"' && init != [] {
        assert init[0] == s[0];
      }
    } else {
      assert s == r + Quotes(0);
    }
  }

  lemma {:induction false} QuotesSnoc(n: nat)
    ensures Quotes(n + 1) == Quotes(n) + ['"']
  {
    if n > 0 {
      QuotesSnoc(n - 1);
    }
  }

  /** The ETag text Write emits has no quote at either end and is what lies
      between a run of leading and a run of trailing quotes of the tag. */
  lemma TrimQuotesSpec(s: string)
    ensures NoEdgeQuote(TrimQuotes(s))
    ensures exists a: nat, b: nat :: s == Quotes(a) + TrimQuotes(s) + Quotes(b)
  {
    var m := TrimStartQuotes(s);
    TrimStartSpec(s);
    TrimEndSpec(m);
    var a: nat :| s == Quotes(a) + m;
    var b: nat :| m == TrimQuotes(s) + Quotes(b);
    assert s == Quotes(a) + TrimQuotes(s) + Quotes(b);
  }

  /** A tag with no quote at either end is written unchanged. */
  lemma TrimQuotesKeeps(s: string)
    requires NoEdgeQuote(s)
    ensures TrimQuotes(s) == s
  {
  }

  /** The token Write puts after a reserved key (lines 36-62). */
  function ReservedToken(v: Value): Token {
    match v
    case Str(s) => JString(s)
    case IntVal(Int32, n) => JInteger(n)
    case DecVal(d) => JReal(d)
    case BoolVal(b) => JBool(b)
    case ETagVal(t) => JString(TrimQuotes(t))
    case _ => SerializedToken(v)
  }

  /** The token Write puts after a normal key (lines 74-96): no ETag case. */
  function NormalToken(v: Value): Token {
    match v
    case Str(s) => JString(s)
    case IntVal(Int32, n) => JInteger(n)
    case DecVal(d) => JReal(d)
    case BoolVal(b) => JBool(b)
    case _ => SerializedToken(v)
  }

  /** What JsonSerializer.Serialize writes: the null literal for null. */
  function SerializedToken(v: Value): Token {
    if v == Null then JNull else Serialized(v)
  }

  /** The token Write puts after a component key: null, or the component converter's JSON. */
  function ComponentToken(v: Value): Token {
    if v == Null then JNull else Embedded(v)
  }

  function ReservedEntry(f: Field): Entry { Entry(f.name, ReservedToken(f.value)) }

  function NormalEntry(f: Field): Entry { Entry(f.name, NormalToken(f.value)) }

  function ComponentEntry(f: Field): Entry { Entry(f.name, ComponentToken(f.value)) }

  function ReservedEntries(conv: Converter, values: map<string, Value>): seq<Entry> {
    Map(ReservedEntry, NameValuePairs(ReservedProps(conv), values))
  }

  function NormalEntries(conv: Converter, values: map<string, Value>): seq<Entry> {
    Map(NormalEntry, NameValuePairs(NormalProps(conv), values))
  }

  function ComponentEntries(conv: Converter, values: map<string, Value>): seq<Entry> {
    Map(ComponentEntry, NameValuePairs(conv.table.components, values))
  }

  /** The members of the object Write emits for an instance. */
  function WireEntries(conv: Converter, values: map<string, Value>): seq<Entry> {
    ReservedEntries(conv, values) + NormalEntries(conv, values) + ComponentEntries(conv, values)
  }

  /** One reserved property (lines 36-62). */
  method WriteReservedEntry(writer: JsonWriter, f: Field)
    modifies writer
    ensures writer.tokens == old(writer.tokens) + Layout([ReservedEntry(f)])
  {
    var name, v := f.name, f.value;
    if v.Str? {
      writer.WriteString(name, v.s);
    } else if v.IntVal? && v.width == Int32 {
      writer.WriteInteger(name, v.n);
    } else if v.DecVal? {
      writer.WriteDecimal(name, v.d);
    } else if v.BoolVal? {
      writer.WriteBoolean(name, v.b);
    } else if v.ETagVal? {
      writer.WriteString(name, TrimQuotes(v.tag));
    } else {
      writer.WritePropertyName(name);
      if v == Null { writer.WriteNullValue(); } else { writer.Serialize(v); }
    }
  }

  /** One normal property (lines 74-96). */
  method WriteNormalEntry(writer: JsonWriter, f: Field)
    modifies writer
    ensures writer.tokens == old(writer.tokens) + Layout([NormalEntry(f)])
  {
    var name, v := f.name, f.value;
    if v.Str? {
      writer.WriteString(name, v.s);
    } else if v.IntVal? && v.width == Int32 {
      writer.WriteInteger(name, v.n);
    } else if v.DecVal? {
      writer.WriteDecimal(name, v.d);
    } else if v.BoolVal? {
      writer.WriteBoolean(name, v.b);
    } else {
      writer.WritePropertyName(name);
      if v == Null { writer.WriteNullValue(); } else { writer.Serialize(v); }
    }
  }

  /** One component (lines 106-125), with the null case writing one null value. */
  method WriteComponentEntry(writer: JsonWriter, f: Field)
    modifies writer
    ensures writer.tokens == old(writer.tokens) + Layout([ComponentEntry(f)])
  {
    writer.WritePropertyName(f.name);
    if f.value == Null {
      writer.WriteNullValue();
    } else {
      writer.SerializeComponent(f.value);
    }
  }

  lemma LayoutSingle(e: Entry)
    ensures Layout([e]) == [PropertyName(e.key), e.token]
  {
  }

  /** The loop over the reserved properties. */
  method WriteReserved(writer: JsonWriter, fields: seq<Field>)
    modifies writer
    ensures writer.tokens == old(writer.tokens) + Layout(Map(ReservedEntry, fields))
  {
    for i := 0 to |fields|
      invariant writer.tokens == old(writer.tokens) + Layout(Map(ReservedEntry, fields[..i]))
    {
      WriteReservedEntry(writer, fields[i]);
      LayoutSingle(ReservedEntry(fields[i]));
      LayoutMapStep(ReservedEntry, fields, i);
    }
    assert fields[..|fields|] == fields;
  }

  /** The loop over the normal properties. */
  method WriteNormal(writer: JsonWriter, fields: seq<Field>)
    modifies writer
    ensures writer.tokens == old(writer.tokens) + Layout(Map(NormalEntry, fields))
  {
    for i := 0 to |fields|
      invariant writer.tokens == old(writer.tokens) + Layout(Map(NormalEntry, fields[..i]))
    {
      WriteNormalEntry(writer, fields[i]);
      LayoutSingle(NormalEntry(fields[i]));
      LayoutMapStep(NormalEntry, fields, i);
    }
    assert fields[..|fields|] == fields;
  }

  /** The loop over the components. */
  method WriteComponents(writer: JsonWriter, fields: seq<Field>)
    modifies writer
    ensures writer.tokens == old(writer.tokens) + Layout(Map(ComponentEntry, fields))
  {
    for i := 0 to |fields|
      invariant writer.tokens == old(writer.tokens) + Layout(Map(ComponentEntry, fields[..i]))
    {
      WriteComponentEntry(writer, fields[i]);
      LayoutSingle(ComponentEntry(fields[i]));
      LayoutMapStep(ComponentEntry, fields, i);
    }
    assert fields[..|fields|] == fields;
  }

  /** Write: one JSON object holding the reserved, then the normal, then the
      component properties, each written by the closed type dispatch. */
  method Write(writer: JsonWriter, conv: Converter, values: map<string, Value>)
    modifies writer
    ensures writer.tokens == old(writer.tokens) + Document(WireEntries(conv, values))
  {
    WriteAssembled(writer.tokens, conv, values);
    writer.WriteStartObject();
    WriteReserved(writer, NameValuePairs(ReservedProps(conv), values));
    WriteNormal(writer, NameValuePairs(NormalProps(conv), values));
    WriteComponents(writer, NameValuePairs(conv.table.components, values));
    writer.WriteEndObject();
  }

  lemma DocumentParts(r: seq<Entry>, n: seq<Entry>, c: seq<Entry>)
    ensures Document(r + n + c) == [StartObject] + (Layout(r) + Layout(n) + Layout(c) + [EndObject])
  {
    LayoutConcat(r, n);
    LayoutConcat(r + n, c);
  }

  lemma Glue<T>(t0: seq<T>, s: T, a: seq<T>, b: seq<T>, c: seq<T>, e: T, d: seq<T>)
    requires d == [s] + (a + b + c + [e])
    ensures t0 + [s] + a + b + c + [e] == t0 + d
  {
  }

  /** The three groups written one after the other make up the document. */
  lemma WriteAssembled(t0: seq<Token>, conv: Converter, values: map<string, Value>)
    ensures t0 + [StartObject] + Layout(ReservedEntries(conv, values)) + Layout(NormalEntries(conv, values))
      + Layout(ComponentEntries(conv, values)) + [EndObject] == t0 + Document(WireEntries(conv, values))
  {
    var r, n, c := ReservedEntries(conv, values), NormalEntries(conv, values), ComponentEntries(conv, values);
    DocumentParts(r, n, c);
    Glue(t0, StartObject, Layout(r), Layout(n), Layout(c), EndObject, Document(r + n + c));
  }

  /** The keys of the written object are the wire names of the reserved, then
      the normal, then the component properties, each group in its order. */
  lemma WriteKeyOrder(conv: Converter, values: map<string, Value>)
    ensures Keys(WireEntries(conv, values)) ==
      Names(ReservedProps(conv)) + Names(NormalProps(conv)) + Names(conv.table.components)
  {
    var r, n, c := ReservedEntries(conv, values), NormalEntries(conv, values), ComponentEntries(conv, values);
    MapConcat(KeyOf, r + n, c);
    MapConcat(KeyOf, r, n);
    assert Keys(r) == Names(ReservedProps(conv));
    assert Keys(n) == Names(NormalProps(conv));
    assert Keys(c) == Names(conv.table.components);
  }

  /** Every reserved key written is a special name and not an excluded one. */
  lemma WriteReservedKeys(conv: Converter, values: map<string, Value>)
    ensures forall k :: k in Keys(ReservedEntries(conv, values)) ==> k in conv.special && k !in conv.exclude
  {
    forall k | k in Keys(ReservedEntries(conv, values))
      ensures k in conv.special && k !in conv.exclude
    {
      var i :| 0 <= i < |Keys(ReservedEntries(conv, values))| && Keys(ReservedEntries(conv, values))[i] == k;
      assert ReservedProps(conv)[i] in ReservedProps(conv);
    }
  }

  /** A reserved ETag is written as a string: the tag with its edge quotes trimmed. */
  lemma WriteETagTrimmed(tag: string)
    ensures ReservedToken(ETagVal(tag)) == JString(TrimQuotes(tag))
    ensures NoEdgeQuote(TrimQuotes(tag))
  {
    TrimQuotesSpec(tag);
  }

  /** A run of object members: keys at even, plain value tokens at odd positions. */
  predicate WellFormedMembers(ts: seq<Token>) {
    |ts| % 2 == 0 &&
    (forall i | 0 <= i < |ts| && i % 2 == 0 :: ts[i].PropertyName?) &&
    (forall i | 0 <= i < |ts| && i % 2 == 1 :: !ts[i].PropertyName? && !ts[i].IsStructural())
  }

  predicate FlatValue(t: Token) { !t.PropertyName? && !t.IsStructural() }

  lemma {:induction false} LayoutWellFormed(es: seq<Entry>)
    requires AllFlat(es)
    ensures WellFormedMembers(Layout(es))
  {
    if es != [] {
      LayoutWellFormed(es[1..]);
      var rest := Layout(es[1..]);
      assert Layout(es) == [PropertyName(es[0].key), es[0].token] + rest;
      forall i | 2 <= i < |Layout(es)|
        ensures Layout(es)[i] == rest[i - 2]
      {
      }
    }
  }

  predicate AllFlat(es: seq<Entry>) {
    forall i :: 0 <= i < |es| ==> FlatValue(es[i].token)
  }

  lemma AllFlatConcat(a: seq<Entry>, b: seq<Entry>)
    requires AllFlat(a) && AllFlat(b)
    ensures AllFlat(a + b)
  {
    forall i | 0 <= i < |a + b| ensures FlatValue((a + b)[i].token) {
      if i >= |a| { assert (a + b)[i] == b[i - |a|]; }
    }
  }

  lemma MapFlat(f: Field -> Entry, fs: seq<Field>)
    requires forall x :: FlatValue(f(x).token)
    ensures AllFlat(Map(f, fs))
  {
  }

  lemma WireEntriesFlat(conv: Converter, values: map<string, Value>)
    ensures AllFlat(WireEntries(conv, values))
  {
    var r, n, c := ReservedEntries(conv, values), NormalEntries(conv, values), ComponentEntries(conv, values);
    ReservedEntriesFlat(conv, values);
    NormalEntriesFlat(conv, values);
    ComponentEntriesFlat(conv, values);
    AllFlatConcat(r, n);
    AllFlatConcat(r + n, c);
  }

  lemma ReservedEntriesFlat(conv: Converter, values: map<string, Value>)
    ensures AllFlat(ReservedEntries(conv, values))
  {
    assert forall f :: FlatValue(ReservedEntry(f).token);
    MapFlat(ReservedEntry, NameValuePairs(ReservedProps(conv), values));
  }

  lemma NormalEntriesFlat(conv: Converter, values: map<string, Value>)
    ensures AllFlat(NormalEntries(conv, values))
  {
    assert forall f :: FlatValue(NormalEntry(f).token);
    MapFlat(NormalEntry, NameValuePairs(NormalProps(conv), values));
  }

  lemma ComponentEntriesFlat(conv: Converter, values: map<string, Value>)
    ensures AllFlat(ComponentEntries(conv, values))
  {
    assert forall f :: FlatValue(ComponentEntry(f).token);
    MapFlat(ComponentEntry, NameValuePairs(conv.table.components, values));
  }

  /** Write emits exactly one flat object: one opening token, name/value
      pairs, one closing token; nested values are opaque single tokens. */
  lemma WriteSingleObject(conv: Converter, values: map<string, Value>)
    ensures var d := Document(WireEntries(conv, values));
      d[0] == StartObject && d[|d| - 1] == EndObject &&
      WellFormedMembers(d[1..|d| - 1])
  {
    var es := WireEntries(conv, values);
    WireEntriesFlat(conv, values);
    LayoutWellFormed(es);
    var d := Document(es);
    assert d[1..|d| - 1] == Layout(es);
  }

  /** Lines 108-111 as written for a null component: WritePropertyName(name)
      and then WriteNull(name), which writes the name a second time. */
  function NullComponentAsWritten(name: string): seq<Token> {
    [PropertyName(name)] + [PropertyName(name), JNull]
  }

  /** The as-written tokens are not an object member: a name follows a name,
      which a validating Utf8JsonWriter refuses with an exception. */
  lemma NullComponentAsWrittenMalformed(name: string)
    ensures !WellFormedMembers(NullComponentAsWritten(name))
    ensures WellFormedMembers([PropertyName(name), JNull])
  {
    assert NullComponentAsWritten(name)[1].PropertyName?;
  }

  // ---------------------------------------------------------------------
  // Read
  // ---------------------------------------------------------------------

  /** Enumerable.Union: the distinct elements of both, first-seen order. */
  function Union<T(==)>(a: seq<T>, b: seq<T>): seq<T> {
    Distinct(a + b)
  }

  /** The properties Read knows, without any exclusion list (lines 133-142). */
  function ReadProps(conv: Converter): seq<Prop> {
    Union(Union(GetTwinOnlyProperties(conv.table, conv.special, None),
                GetNormalTwinProperties(conv.table, None)),
          conv.table.components)
  }

  /** ToDictionary keyed by wire name: fails at the first repeated name. */
  function PropMap(ps: seq<Prop>): (r: Result<map<string, Prop>, JsonError>)
    decreases |ps|
  {
    if ps == [] then Ok(map[])
    else
      match PropMap(ps[..|ps| - 1])
      case Err(e) => Err(e)
      case Ok(m) =>
        var p := ps[|ps| - 1];
        if p.twinName in m then Err(DuplicateKey(p.twinName)) else Ok(m[p.twinName := p])
  }

  lemma NamesSnoc(init: seq<Prop>, last: Prop)
    ensures Names(init + [last]) == Names(init) + [last.twinName]
  {
    MapConcat(TwinName, init, [last]);
  }

  lemma NamesElems(ps: seq<Prop>)
    ensures forall k :: k in Names(ps) <==> exists p :: p in ps && p.twinName == k
  {
    forall k | k in Names(ps) ensures exists p :: p in ps && p.twinName == k {
      var i :| 0 <= i < |ps| && Names(ps)[i] == k;
      assert ps[i] in ps;
    }
    forall p | p in ps ensures p.twinName in Names(ps) {
      var i :| 0 <= i < |ps| && ps[i] == p;
      assert Names(ps)[i] == p.twinName;
    }
  }

  /** The dictionary is built exactly when the wire names are distinct, and then
      maps each name of the list, and nothing else, to its property. */
  lemma {:induction false} PropMapSpec(ps: seq<Prop>)
    ensures PropMap(ps).Ok? <==> NoDup(Names(ps))
    ensures PropMap(ps).Ok? ==>
      (forall k :: k in PropMap(ps).value <==> k in Names(ps)) &&
      forall p :: p in ps ==> PropMap(ps).value[p.twinName] == p
    decreases |ps|
  {
    if ps != [] {
      var init, last := ps[..|ps| - 1], ps[|ps| - 1];
      assert ps == init + [last];
      PropMapSpec(init);
      NamesSnoc(init, last);
      NoDupSnoc(Names(init), last.twinName);
      if PropMap(init).Ok? {
        var m := PropMap(init).value;
        assert last.twinName in m <==> last.twinName in Names(init);
        if last.twinName !in m {
          NamesElems(init);
          forall p | p in ps ensures m[last.twinName := last][p.twinName] == p {
            if p != last {
              assert p in init;
            }
          }
        }
      }
    }
  }

  /** The property map of Read, or the error ToDictionary throws. */
  function PropMapOf(conv: Converter): Result<map<string, Prop>, JsonError> {
    PropMap(ReadProps(conv))
  }

  /** Enum.Parse(propertyType, text) as the enum value of that property. */
  function EnumValue(enumName: string, w: IntKind, members: seq<EnumMember>, text: string): Result<Option<Value>, JsonError> {
    match Enums.ParseEnum(w, members, text)
    case Err(e) => Err(e)
    case Ok(n) => Ok(Some(EnumVal(enumName, n)))
  }

  /** `v` is a value of the (non-nullable) type `kind`: what SetValue accepts. */
  predicate HasKind(v: Value, kind: Kind) {
    match v
    case Str(_) => kind == KString
    case IntVal(w, n) => kind == KInt(w) && InRange(w, n)
    case DecVal(_) => kind == KDecimal
    case BoolVal(_) => kind == KBool
    case CharVal(_) => kind == KChar
    case ETagVal(_) => kind == KETag
    case EnumVal(name, n) => kind.KEnum? && kind.enumName == name && InRange(kind.underlying, n)
    case Platform(k, _) => k == kind
    case Nested(k, _) => k == kind
    case _ => false
  }

  /** The scalar part of the type dispatch (lines 162-269): what SetValue
      receives for a value token, None when SetValue is not called. Class
      types are handled by the nested converter instead. */
  function ConvertScalar(kind: Kind, t: Token): Result<Option<Value>, JsonError> {
    match kind
    case KString =>
      (match GetString(t)
       case Err(e) => Err(e)
       case Ok(None) => Ok(None)
       case Ok(Some(s)) => Ok(Some(Str(s))))
    case KInt(w) =>
      (match GetInteger(w, t)
       case Err(e) => Err(e)
       case Ok(n) => Ok(Some(IntVal(w, n))))
    case KDouble => if t.IsNumber() then Ok(Some(Platform(kind, t))) else Err(InvalidOperation)
    case KSingle => if t.IsNumber() then Ok(Some(Platform(kind, t))) else Err(InvalidOperation)
    case KDecimal =>
      (match GetDecimal(t)
       case Err(e) => Err(e)
       case Ok(d) => Ok(Some(DecVal(d))))
    case KBool =>
      (match GetBoolean(t)
       case Err(e) => Err(e)
       case Ok(b) => Ok(Some(BoolVal(b))))
    case KChar =>
      (match GetString(t)
       case Err(e) => Err(e)
       case Ok(None) => Ok(None)
       case Ok(Some(s)) => if s == [] then Err(EmptySequence) else Ok(Some(CharVal(s[0]))))
    case KGuid => if t.JString? then Ok(Some(Platform(kind, t))) else Err(InvalidOperation)
    case KDateTimeOffset => if t.JString? then Ok(Some(Platform(kind, t))) else Err(InvalidOperation)
    case KDateTime => if t.JString? then Ok(Some(Platform(kind, t))) else Err(InvalidOperation)
    case KETag =>
      (match GetString(t)
       case Err(e) => Err(e)
       case Ok(s) => Ok(Some(ETagVal(match s case Some(x) => x case None => ""))))
    case KEnum(name, w, members) =>
      if t.IsNumber() then
        (match GetInteger(Int32, t)
         case Err(e) => Err(e)
         case Ok(n) => EnumValue(name, w, members, IntToString(n)))
      else
        (match GetString(t)
         case Err(e) => Err(e)
         case Ok(None) => Ok(None)
         case Ok(Some(s)) => EnumValue(name, w, members, s))
    case KClass(_) => Ok(None)
    case KStruct(_) => Ok(None)
  }

  /** The dispatch hands SetValue only values of the property's own type, and
      skips SetValue only for a null string, char or enum, or for a type it
      does not handle. */
  lemma ConvertScalarTyped(kind: Kind, t: Token)
    ensures var r := ConvertScalar(kind, t);
      (r.Ok? && r.value.Some? ==> HasKind(r.value.value, kind)) &&
      (r == Ok(None) <==> kind.KClass? || kind.KStruct? || (t == JNull && (kind.KString? || kind.KChar? || kind.KEnum?)))
  {
  }

  /** A conversion's outcome: the value to set, if any, and the token the reader ends on. */
  datatype Converted = Converted(value: Option<Value>, end: nat)

  /** The conversion of the value starting at `q`: class types go to a nested
      converter, which consumes the whole value. */
  function Convert(kind: Kind, tokens: seq<Token>, q: nat): (r: Result<Converted, JsonError>)
    requires q < |tokens|
    ensures r.Ok? ==> q <= r.value.end < |tokens|
    ensures r.Ok? && !kind.KClass? ==> r.value.end == q
    ensures kind.KClass? ==> (r.Ok? <==> ValueEnd(tokens, q).Ok?)
    ensures kind.KClass? && r.Ok? ==> r.value.value == Some(Nested(kind, tokens[q..r.value.end + 1]))
  {
    if kind.KClass? then
      match ValueEnd(tokens, q)
      case Err(e) => Err(e)
      case Ok(e) => Ok(Converted(Some(Nested(kind, tokens[q..e + 1])), e))
    else
      match ConvertScalar(kind, tokens[q])
      case Err(e) => Err(e)
      case Ok(v) => Ok(Converted(v, q))
  }

  function Apply(values: map<string, Value>, member: string, v: Option<Value>): map<string, Value> {
    if v.Some? then values[member := v.value] else values
  }

  /** The reading loop (lines 148-285) from the token at `pos`, with the
      instance holding `values`. */
  function ReadFrom(tokens: seq<Token>, pos: nat, pm: map<string, Prop>, values: map<string, Value>)
    : Result<map<string, Value>, JsonError>
    requires pos < |tokens|
    decreases |tokens| - pos
  {
    if pos + 1 == |tokens| then Ok(values)
    else
      var p := pos + 1;
      match tokens[p]
      case PropertyName(name) =>
        if p + 1 == |tokens| then Err(JsonException)
        else
          var q := p + 1;
          if tokens[q] != JNull && name in pm && pm[name].canWrite then
            match Convert(pm[name].kind, tokens, q)
            case Err(e) => Err(e)
            case Ok(c) => ReadFrom(tokens, c.end, pm, Apply(values, pm[name].member, c.value))
          else ReadFrom(tokens, q, pm, values)
      case _ => ReadFrom(tokens, p, pm, values)
  }

  /** What Read makes of the text with the reader on `pos`, starting from the
      values the constructor left in the new instance. */
  function ReadSpec(conv: Converter, tokens: seq<Token>, pos: nat, initial: map<string, Value>)
    : Result<map<string, Value>, JsonError>
    requires pos < |tokens|
  {
    match PropMapOf(conv)
    case Err(e) => Err(e)
    case Ok(pm) => ReadFrom(tokens, pos, pm, initial)
  }

  /** The instance Read fills through PropertyInfo.SetValue. */
  class TwinObject {
    var values: map<string, Value>

    constructor (initial: map<string, Value>)
      ensures values == initial
    {
      values := initial;
    }

    method SetValue(member: string, v: Value)
      modifies this
      ensures values == old(values)[member := v]
    {
      values := values[member := v];
    }
  }

  /** Read: creates the instance and walks the tokens, setting each writable
      known property from the value that follows its name. */
  method Read(reader: JsonReader, conv: Converter, initial: map<string, Value>) returns (r: Result<TwinObject, JsonError>)
    requires reader.Valid()
    modifies reader
    ensures var spec := ReadSpec(conv, reader.tokens, old(reader.pos), initial);
      (r.Ok? <==> spec.Ok?) &&
      (r.Ok? ==> fresh(r.value) && r.value.values == spec.value) &&
      (r.Err? ==> r.error == spec.error)
  {
    var pmr := PropMapOf(conv);
    if pmr.Err? {
      return Err(pmr.error);
    }
    var pm := pmr.value;
    var twin := new TwinObject(initial);
    var err := ReadMembers(reader, pm, twin);
    if err.Some? {
      return Err(err.value);
    }
    return Ok(twin);
  }

  /** The reading loop (lines 148-285), filling `twin`. */
  method ReadMembers(reader: JsonReader, pm: map<string, Prop>, twin: TwinObject) returns (err: Option<JsonError>)
    requires reader.Valid()
    modifies reader, twin
    ensures var spec := ReadFrom(reader.tokens, old(reader.pos), pm, old(twin.values));
      (err.None? <==> spec.Ok?) &&
      (err.Some? ==> err.value == spec.error) &&
      (err.None? ==> twin.values == spec.value)
  {
    ghost var expected := ReadFrom(reader.tokens, reader.pos, pm, twin.values);
    while true
      invariant reader.Valid()
      invariant ReadFrom(reader.tokens, reader.pos, pm, twin.values) == expected
      decreases |reader.tokens| - reader.pos
    {
      var stop;
      stop, err := ReadTurn(reader, pm, twin);
      if stop {
        return;
      }
    }
  }

  /** One turn of the reading loop: the end of the text, a property name and
      its value, or any other token, which is skipped. */
  method ReadTurn(reader: JsonReader, pm: map<string, Prop>, twin: TwinObject) returns (stop: bool, err: Option<JsonError>)
    requires reader.Valid()
    modifies reader, twin
    ensures reader.Valid()
    ensures var before := ReadFrom(reader.tokens, old(reader.pos), pm, old(twin.values));
      (stop && err.None? ==> before == Ok(twin.values)) &&
      (stop && err.Some? ==> before == Err(err.value)) &&
      (!stop ==> old(reader.pos) < reader.pos && before == ReadFrom(reader.tokens, reader.pos, pm, twin.values))
  {
    ghost var p0, v0 := reader.pos, twin.values;
    var more := reader.Read();
    if !more {
      return true, None;
    }
    var token := reader.Current();
    if token.PropertyName? {
      var name := token.name;
      more := reader.Read();
      if !more {
        ReadFromCutAfterName(reader.tokens, p0, pm, v0);
        return true, Some(JsonException);
      }
      ReadFromName(reader.tokens, p0, pm, v0);
      err := ReadMemberValue(reader, pm, name, twin);
      return err.Some?, err;
    } else {
      ReadFromOther(reader.tokens, p0, pm, v0);
      return false, None;
    }
  }

  lemma ReadFromCutAfterName(tokens: seq<Token>, pos: nat, pm: map<string, Prop>, values: map<string, Value>)
    requires pos + 2 == |tokens| && tokens[pos + 1].PropertyName?
    ensures ReadFrom(tokens, pos, pm, values) == Err(JsonException)
  {
  }

  lemma ReadFromOther(tokens: seq<Token>, pos: nat, pm: map<string, Prop>, values: map<string, Value>)
    requires pos + 1 < |tokens| && !tokens[pos + 1].PropertyName?
    ensures ReadFrom(tokens, pos, pm, values) == ReadFrom(tokens, pos + 1, pm, values)
  {
  }

  lemma ReadFromName(tokens: seq<Token>, pos: nat, pm: map<string, Prop>, values: map<string, Value>)
    requires pos + 2 < |tokens| && tokens[pos + 1].PropertyName?
    ensures ReadFrom(tokens, pos, pm, values) ==
      match MemberStep(tokens, pos + 2, tokens[pos + 1].name, pm, values)
      case Err(e) => Err(e)
      case Ok(s) => ReadFrom(tokens, s.0, pm, s.1)
  {
  }

  /** Lines 160-278 for the value after a property name: converted and set
      when the property is known and writable and the value is not null; the
      loop goes on from the value's last token. */
  function MemberStep(tokens: seq<Token>, q: nat, name: string, pm: map<string, Prop>, values: map<string, Value>)
    : (r: Result<(nat, map<string, Value>), JsonError>)
    requires q < |tokens|
    ensures r.Ok? ==> q <= r.value.0 < |tokens|
    ensures r.Err? ==> tokens[q] != JNull && name in pm && pm[name].canWrite
    ensures r.Ok? && (tokens[q] == JNull || name !in pm || !pm[name].canWrite) ==> r.value == (q, values)
    ensures r.Ok? ==> forall m :: (name !in pm || m != pm[name].member) ==> ValueOf(r.value.1, m) == ValueOf(values, m)
  {
    if tokens[q] != JNull && name in pm && pm[name].canWrite then
      match Convert(pm[name].kind, tokens, q)
      case Err(e) => Err(e)
      case Ok(c) => Ok((c.end, Apply(values, pm[name].member, c.value)))
    else Ok((q, values))
  }

  /** One value of the reading loop, read from the cursor into the instance. */
  method ReadMemberValue(reader: JsonReader, pm: map<string, Prop>, name: string, twin: TwinObject)
    returns (err: Option<JsonError>)
    requires reader.Valid()
    modifies reader, twin
    ensures reader.Valid()
    ensures var step := MemberStep(reader.tokens, old(reader.pos), name, pm, old(twin.values));
      (err.None? <==> step.Ok?) &&
      (err.Some? ==> err.value == step.error) &&
      (err.None? ==> reader.pos == step.value.0 && twin.values == step.value.1)
  {
    if reader.Current() != JNull && name in pm && pm[name].canWrite {
      var property := pm[name];
      var converted := ReadPropertyValue(reader, property.kind);
      if converted.Err? {
        return Some(converted.error);
      }
      if converted.value.Some? {
        twin.SetValue(property.member, converted.value.value);
      }
    }
    return None;
  }

  /** The value of one property, read from the cursor by the type dispatch or
      by a nested converter, which leaves the cursor on the value's last token. */
  method ReadPropertyValue(reader: JsonReader, kind: Kind) returns (r: Result<Option<Value>, JsonError>)
    requires reader.Valid()
    modifies reader
    ensures reader.Valid()
    ensures var c := Convert(kind, reader.tokens, old(reader.pos));
      (r.Ok? <==> c.Ok?) &&
      (r.Ok? ==> r.value == c.value.value && reader.pos == c.value.end) &&
      (r.Err? ==> r.error == c.error)
  {
    if kind.KClass? {
      var nested := reader.ConsumeValue();
      if nested.Err? {
        return Err(nested.error);
      }
      return Ok(Some(Nested(kind, nested.value)));
    }
    r := ConvertScalar(kind, reader.Current());
  }

  // ---------------------------------------------------------------------
  // Properties of Read
  // ---------------------------------------------------------------------

  /** Whether Read calls the converter for an object member: a non-null value
      under a known, writable property. */
  predicate Sets(pm: map<string, Prop>, e: Entry) {
    e.token != JNull && e.key in pm && pm[e.key].canWrite
  }

  /** The conversion of a single-token value; a nested converter reads it whole. */
  function ConvertToken(kind: Kind, t: Token): Result<Option<Value>, JsonError> {
    if kind.KClass? then Ok(Some(Nested(kind, [t]))) else ConvertScalar(kind, t)
  }

  /** Read's effect on a run of object members whose values are single tokens:
      the members applied left to right, stopping at the first failure. */
  function ApplyEntries(pm: map<string, Prop>, es: seq<Entry>, values: map<string, Value>)
    : Result<map<string, Value>, JsonError>
    decreases |es|
  {
    if es == [] then Ok(values)
    else
      match ApplyOne(pm, es[0], values)
      case Err(e) => Err(e)
      case Ok(v) => ApplyEntries(pm, es[1..], v)
  }

  /** One member's effect on the instance. */
  function ApplyOne(pm: map<string, Prop>, e: Entry, values: map<string, Value>): Result<map<string, Value>, JsonError> {
    if Sets(pm, e) then
      match ConvertToken(pm[e.key].kind, e.token)
      case Err(x) => Err(x)
      case Ok(v) => Ok(Apply(values, pm[e.key].member, v))
    else Ok(values)
  }

  lemma ConvertFlat(kind: Kind, tokens: seq<Token>, q: nat)
    requires q < |tokens| && FlatValue(tokens[q])
    ensures Convert(kind, tokens, q) ==
      match ConvertToken(kind, tokens[q])
      case Err(e) => Err(e)
      case Ok(v) => Ok(Converted(v, q))
  {
    if kind.KClass? {
      assert tokens[q..q + 1] == [tokens[q]];
    }
  }

  /** One member: its name, then its single-token value. */
  lemma ReadStep(tokens: seq<Token>, pos: nat, pm: map<string, Prop>, values: map<string, Value>, e: Entry)
    requires pos + 2 < |tokens| && tokens[pos + 1] == PropertyName(e.key) && tokens[pos + 2] == e.token
    requires FlatValue(e.token)
    ensures ReadFrom(tokens, pos, pm, values) ==
      match ApplyOne(pm, e, values)
      case Err(x) => Err(x)
      case Ok(v) => ReadFrom(tokens, pos + 2, pm, v)
  {
    if Sets(pm, e) {
      ConvertFlat(pm[e.key].kind, tokens, pos + 2);
    }
  }

  lemma LayoutCons(es: seq<Entry>)
    requires es != []
    ensures Layout(es) == [PropertyName(es[0].key), es[0].token] + Layout(es[1..])
    ensures |Layout(es)| == 2 + |Layout(es[1..])|
  {
  }

  lemma AllFlatTail(es: seq<Entry>)
    requires es != [] && AllFlat(es)
    ensures AllFlat(es[1..]) && FlatValue(es[0].token)
  {
    forall i | 0 <= i < |es[1..]| ensures FlatValue(es[1..][i].token) {
      assert es[1..][i] == es[i + 1];
    }
  }

  lemma SplitLayout(pre: seq<Token>, es: seq<Entry>, tail: seq<Token>)
    requires es != []
    ensures var tokens, pre2 := pre + Layout(es) + tail, pre + [PropertyName(es[0].key), es[0].token];
      tokens == pre2 + Layout(es[1..]) + tail &&
      |pre2| + |Layout(es[1..])| == |pre| + |Layout(es)| &&
      tokens[|pre|] == PropertyName(es[0].key) && tokens[|pre| + 1] == es[0].token
  {
    LayoutCons(es);
    Regroup(pre, PropertyName(es[0].key), es[0].token, Layout(es[1..]), tail);
  }

  lemma Regroup<T>(pre: seq<T>, x: T, y: T, rest: seq<T>, tail: seq<T>)
    ensures pre + ([x, y] + rest) + tail == pre + [x, y] + rest + tail
    ensures (pre + ([x, y] + rest) + tail)[|pre|] == x
    ensures (pre + ([x, y] + rest) + tail)[|pre| + 1] == y
  {
  }

  /** Reading across a run of flat members applies them, then goes on after them. */
  lemma {:induction false} ReadFromLayout(tokens: seq<Token>, pre: seq<Token>, es: seq<Entry>, tail: seq<Token>,
                                          pm: map<string, Prop>, values: map<string, Value>)
    requires |pre| > 0 && AllFlat(es) && tokens == pre + Layout(es) + tail
    ensures |pre| + |Layout(es)| - 1 < |tokens|
    ensures ReadFrom(tokens, |pre| - 1, pm, values) ==
      match ApplyEntries(pm, es, values)
      case Err(e) => Err(e)
      case Ok(v) => ReadFrom(tokens, |pre| + |Layout(es)| - 1, pm, v)
    decreases |es|
  {
    if es != [] {
      var e := es[0];
      var pre2 := pre + [PropertyName(e.key), e.token];
      SplitLayout(pre, es, tail);
      AllFlatTail(es);
      ReadStep(tokens, |pre| - 1, pm, values, e);
      match ApplyOne(pm, e, values)
      case Err(x) =>
        assert ApplyEntries(pm, es, values) == Err(x);
      case Ok(v) =>
        assert ApplyEntries(pm, es, values) == ApplyEntries(pm, es[1..], v);
        assert ReadFrom(tokens, |pre| - 1, pm, values) == ReadFrom(tokens, |pre2| - 1, pm, v);
        ReadFromLayout(tokens, pre2, es[1..], tail, pm, v);
    }
  }

  /** On a flat document Read is the left-to-right application of its members. */
  lemma ReadFlatDocument(pm: map<string, Prop>, es: seq<Entry>, values: map<string, Value>)
    requires AllFlat(es)
    ensures ReadFrom(Document(es), 0, pm, values) == ApplyEntries(pm, es, values)
  {
    var tokens := Document(es);
    ReadFromLayout(tokens, [StartObject], es, [EndObject], pm, values);
    var k := 1 + |Layout(es)| - 1;
    assert tokens[k + 1] == EndObject;
  }

  /** A document cut off right after a property name fails with a JsonException
      (unless an earlier member already failed). */
  lemma ReadTruncated(pm: map<string, Prop>, es: seq<Entry>, name: string, values: map<string, Value>)
    requires AllFlat(es)
    ensures var r := ReadFrom([StartObject] + Layout(es) + [PropertyName(name)], 0, pm, values);
      r.Err? && (ApplyEntries(pm, es, values).Ok? ==> r.error == JsonException)
  {
    var tokens := [StartObject] + Layout(es) + [PropertyName(name)];
    ReadFromLayout(tokens, [StartObject], es, [PropertyName(name)], pm, values);
    var k := 1 + |Layout(es)| - 1;
    assert tokens[k + 1] == PropertyName(name);
  }

  /** Whether a member can change the instance's member `m`. */
  predicate Touches(pm: map<string, Prop>, e: Entry, m: string) {
    Sets(pm, e) && pm[e.key].member == m
  }

  /** A property keeps the value the constructor gave it unless a member with a
      non-null value under its wire name is read and the property is writable:
      an absent key, a null value and a read-only property all leave it alone. */
  lemma {:induction false} ReadLeavesUntouched(pm: map<string, Prop>, es: seq<Entry>, values: map<string, Value>, m: string)
    requires forall i :: 0 <= i < |es| ==> !Touches(pm, es[i], m)
    requires ApplyEntries(pm, es, values).Ok?
    ensures ValueOf(ApplyEntries(pm, es, values).value, m) == ValueOf(values, m)
    decreases |es|
  {
    if es != [] {
      assert !Touches(pm, es[0], m);
      forall i | 0 <= i < |es[1..]| ensures !Touches(pm, es[1..][i], m) {
        assert es[1..][i] == es[i + 1];
      }
      ReadLeavesUntouched(pm, es[1..], ApplyOne(pm, es[0], values).value, m);
    }
  }

  /** The value a member leaves in its property, given the value before. */
  function Effect(pm: map<string, Prop>, e: Entry, before: Value): Value
    requires e.key in pm
  {
    if Sets(pm, e) then
      match ConvertToken(pm[e.key].kind, e.token)
      case Ok(Some(v)) => v
      case _ => before
    else before
  }

  /** Members with distinct keys for distinct properties: each property ends
      with the value its own member gives it. */
  lemma {:induction false} ReadDistinctMembers(pm: map<string, Prop>, es: seq<Entry>, values: map<string, Value>)
    requires forall i :: 0 <= i < |es| && Sets(pm, es[i]) ==> ConvertToken(pm[es[i].key].kind, es[i].token).Ok?
    requires forall i, j :: 0 <= i < j < |es| && es[i].key in pm && es[j].key in pm ==>
      pm[es[i].key].member != pm[es[j].key].member
    ensures ApplyEntries(pm, es, values).Ok?
    ensures forall i :: 0 <= i < |es| && es[i].key in pm ==>
      ValueOf(ApplyEntries(pm, es, values).value, pm[es[i].key].member) ==
        Effect(pm, es[i], ValueOf(values, pm[es[i].key].member))
    decreases |es|
  {
    if es != [] {
      var e, rest := es[0], es[1..];
      var after := ApplyOne(pm, e, values).value;
      forall i, j | 0 <= i < j < |rest| && rest[i].key in pm && rest[j].key in pm
        ensures pm[rest[i].key].member != pm[rest[j].key].member
      {
        assert rest[i] == es[i + 1] && rest[j] == es[j + 1];
      }
      forall i | 0 <= i < |rest| && Sets(pm, rest[i])
        ensures ConvertToken(pm[rest[i].key].kind, rest[i].token).Ok?
      {
        assert rest[i] == es[i + 1];
      }
      ReadDistinctMembers(pm, rest, after);
      var result := ApplyEntries(pm, rest, after).value;
      forall i | 0 <= i < |es| && es[i].key in pm
        ensures ValueOf(result, pm[es[i].key].member) == Effect(pm, es[i], ValueOf(values, pm[es[i].key].member))
      {
        var m := pm[es[i].key].member;
        if i == 0 {
          forall j | 0 <= j < |rest| ensures !Touches(pm, rest[j], m) {
            assert rest[j] == es[j + 1];
          }
          ReadLeavesUntouched(pm, rest, after, m);
        } else {
          assert rest[i - 1] == es[i];
          assert e.key in pm ==> pm[e.key].member != m;
        }
      }
    }
  }

  /** An unknown key's object value is not skipped: the members inside it are
      read as if they belonged to the twin. */
  lemma ReadDescendsIntoUnknownValue()
    ensures var quantity := Prop("Quantity", "quantity", KInt(Int32), true);
      ReadFrom([StartObject, PropertyName("extra"), StartObject, PropertyName("quantity"), JInteger(5),
                EndObject, EndObject], 0, map["quantity" := quantity], map[]) ==
        Ok(map["Quantity" := IntVal(Int32, 5)])
  {
    var quantity := Prop("Quantity", "quantity", KInt(Int32), true);
    var pm := map["quantity" := quantity];
    var tokens := [StartObject, PropertyName("extra"), StartObject, PropertyName("quantity"), JInteger(5),
                   EndObject, EndObject];
    assert ReadFrom(tokens, 4, pm, map["Quantity" := IntVal(Int32, 5)]) == Ok(map["Quantity" := IntVal(Int32, 5)]);
    assert ReadFrom(tokens, 2, pm, map[]) == ReadFrom(tokens, 4, pm, map["Quantity" := IntVal(Int32, 5)]);
  }

  /** An Int32 number read into an enum property is parsed from its decimal
      text, so the enum holds that number when the enum's underlying type can
      hold it, whether or not a member has that value; a number outside Int32
      fails in GetInt32, one outside the underlying type in Enum.Parse. */
  lemma EnumFromNumber(name: string, w: IntKind, members: seq<EnumMember>, n: int)
    ensures ConvertScalar(KEnum(name, w, members), JInteger(n)) ==
      if !InRange(Int32, n) then Err(Format)
      else if InRange(w, n) then Ok(Some(EnumVal(name, n)))
      else Err(EnumOverflow)
  {
    var kind := KEnum(name, w, members);
    assert JInteger(n).IsNumber();
    if InRange(Int32, n) {
      assert GetInteger(Int32, JInteger(n)) == Ok(n);
      assert ConvertScalar(kind, JInteger(n)) == EnumValue(name, w, members, IntToString(n));
      Enums.ParseNumberText(w, members, "", n, "");
      assert "" + IntToString(n) + "" == IntToString(n);
    } else {
      assert GetInteger(Int32, JInteger(n)) == Err(Format);
    }
  }

  /** A string holding one member name, with white space around it, sets the
      enum to that member's value; any other name fails with EnumParse. */
  lemma EnumFromName(name: string, w: IntKind, members: seq<EnumMember>, ws: string, memberName: string, ws2: string)
    requires Enums.AllWhiteSpace(ws) && Enums.AllWhiteSpace(ws2) && Enums.PlainName(memberName)
    ensures var r := ConvertScalar(KEnum(name, w, members), JString(ws + memberName + ws2));
      (r.Ok? <==> exists m :: m in members && m.name == memberName) &&
      (r.Err? ==> r.error == EnumParse) &&
      (r.Ok? && Enums.ValuesFit(w, members) ==>
         r.value == Some(EnumVal(name, Enums.LookupMember(members, memberName).value)))
  {
    Enums.ParseOneName(w, members, ws, memberName, ws2);
  }

  /** A string holding a comma-separated list of member names sets the enum
      to their values ORed together; one unknown name fails the whole list. */
  lemma EnumFromNames(name: string, w: IntKind, members: seq<EnumMember>, ws: string, pieces: seq<string>)
    requires |pieces| > 0 && Enums.PaddedNames(pieces) && Enums.AllWhiteSpace(ws)
    requires !Enums.IsWhiteSpace(pieces[0][0])
    ensures var r := ConvertScalar(KEnum(name, w, members), JString(ws + Enums.JoinCommas(pieces)));
      var bits := Enums.OrNames(w, members, pieces, 0);
      (r.Ok? <==> bits.Some?) &&
      (r.Err? ==> r.error == EnumParse) &&
      (r.Ok? ==> r.value == Some(EnumVal(name, Enums.FromStorage(w, bits.value)))) &&
      (r.Ok? <==> forall i :: 0 <= i < |pieces| ==> exists m :: m in members && m.name == Enums.Trim(pieces[i]))
  {
    Enums.ParseNameList(w, members, ws, pieces);
  }

  // ---------------------------------------------------------------------
  // Round trip
  // ---------------------------------------------------------------------

  /** A non-null value Write emits as a plain JSON scalar that the reader's
      dispatch for `kind` turns back into the same value. */
  predicate WireScalar(kind: Kind, v: Value, reserved: bool) {
    match v
    case Str(_) => kind == KString
    case IntVal(w, n) => w == Int32 && kind == KInt(Int32) && InRange(Int32, n)
    case DecVal(_) => kind == KDecimal
    case BoolVal(_) => kind == KBool
    case ETagVal(t) => reserved && kind == KETag && NoEdgeQuote(t)
    case _ => false
  }

  /** An ETag with a quote at one end does not come back: the weak tag
      `W/"x"` is written and read back as `W/"x`. */
  lemma ETagEdgeQuoteLost()
    ensures ConvertToken(KETag, ReservedToken(ETagVal("W/\"x\""))) == Ok(Some(ETagVal("W/\"x")))
  {
    var tag := "W/\"x\"";
    assert TrimStartQuotes(tag) == tag;
    assert tag[..|tag| - 1] == "W/\"x";
    assert TrimEndQuotes("W/\"x") == "W/\"x";
  }

  /** The reader's dispatch inverts the writer's for scalar values. */
  lemma ScalarRoundTrip(kind: Kind, v: Value, reserved: bool)
    requires WireScalar(kind, v, reserved)
    ensures ConvertToken(kind, if reserved then ReservedToken(v) else NormalToken(v)) == Ok(Some(v))
  {
    if v.ETagVal? {
      TrimQuotesKeeps(v.tag);
    }
  }

  /** Write emits the null literal exactly for a null value. */
  lemma TokenNull(v: Value)
    ensures ReservedToken(v) == JNull <==> v == Null
    ensures NormalToken(v) == JNull <==> v == Null
    ensures ComponentToken(v) == JNull <==> v == Null
  {
  }

  /** Everything Write emits is a property Read knows. */
  lemma WrittenAreRead(conv: Converter)
    ensures forall p :: p in WrittenProps(conv) ==> p in ReadProps(conv)
  {
    var a := GetTwinOnlyProperties(conv.table, conv.special, None);
    var b := GetNormalTwinProperties(conv.table, None);
    DistinctElems(a + b);
    DistinctElems(Union(a, b) + conv.table.components);
  }

  /** The value Read should leave in a written property. */
  function RoundTripValue(conv: Converter, p: Prop, values: map<string, Value>, initial: map<string, Value>): Value {
    var v := ValueOf(values, p.member);
    if v == Null || !p.canWrite then ValueOf(initial, p.member)
    else if p in ReservedProps(conv) || p in NormalProps(conv) then v
    else Nested(p.kind, [Embedded(v)])
  }

  lemma PairsAt(f: Field -> Entry, ps: seq<Prop>, values: map<string, Value>, i: nat)
    requires i < |ps|
    ensures |Map(f, NameValuePairs(ps, values))| == |ps|
    ensures Map(f, NameValuePairs(ps, values))[i] == f(Field(ps[i].twinName, ValueOf(values, ps[i].member)))
  {
  }

  lemma WireEntriesLength(conv: Converter, values: map<string, Value>)
    ensures |WireEntries(conv, values)| == |WrittenProps(conv)|
  {
  }

  /** The entry Write emits for the i-th written property. */
  lemma EntryAt(conv: Converter, values: map<string, Value>, i: nat)
    requires i < |WrittenProps(conv)|
    ensures |WireEntries(conv, values)| == |WrittenProps(conv)|
    ensures var p, v := WrittenProps(conv)[i], ValueOf(values, WrittenProps(conv)[i].member);
      var nr, nn := |ReservedProps(conv)|, |NormalProps(conv)|;
      WireEntries(conv, values)[i] ==
        Entry(p.twinName,
              if i < nr then ReservedToken(v) else if i < nr + nn then NormalToken(v) else ComponentToken(v)) &&
      (i < nr ==> p in ReservedProps(conv)) &&
      (nr <= i < nr + nn ==> p in NormalProps(conv)) &&
      (nr + nn <= i ==> p in conv.table.components)
  {
    EntriesAt(ReservedProps(conv), NormalProps(conv), conv.table.components, values, i);
  }

  lemma EntriesAt(rp: seq<Prop>, np: seq<Prop>, cp: seq<Prop>, values: map<string, Value>, i: nat)
    requires i < |rp| + |np| + |cp|
    ensures var es := Map(ReservedEntry, NameValuePairs(rp, values)) + Map(NormalEntry, NameValuePairs(np, values)) +
                      Map(ComponentEntry, NameValuePairs(cp, values));
      var p := (rp + np + cp)[i];
      var v := ValueOf(values, p.member);
      |es| == |rp + np + cp| &&
      (i < |rp| ==> p in rp && es[i] == ReservedEntry(Field(p.twinName, v))) &&
      (|rp| <= i < |rp| + |np| ==> p in np && es[i] == NormalEntry(Field(p.twinName, v))) &&
      (|rp| + |np| <= i ==> p in cp && es[i] == ComponentEntry(Field(p.twinName, v)))
  {
    MapMap3At(PairOf(values), ReservedEntry, NormalEntry, ComponentEntry, rp, np, cp, i);
  }

  /** What the round trip needs: distinct wire names among the written
      properties, distinct members among the known ones, component types that
      are classes, and written values the scalar dispatch handles. */
  predicate RoundTripReady(conv: Converter, values: map<string, Value>) {
    PropMapOf(conv).Ok? &&
    NoDup(Names(WrittenProps(conv))) &&
    (forall p, q :: p in ReadProps(conv) && q in ReadProps(conv) && p.member == q.member ==> p == q) &&
    (forall p :: p in ReservedProps(conv) && p.canWrite && ValueOf(values, p.member) != Null ==>
       WireScalar(p.kind, ValueOf(values, p.member), true)) &&
    (forall p :: p in NormalProps(conv) && p.canWrite && ValueOf(values, p.member) != Null ==>
       WireScalar(p.kind, ValueOf(values, p.member), false)) &&
    (forall p :: p in conv.table.components ==> p.kind.KClass?)
  }

  /** Each written member's key leads the property map to the property written. */
  lemma RoundTripKeys(conv: Converter, values: map<string, Value>)
    requires RoundTripReady(conv, values)
    ensures var pm, es, w := PropMapOf(conv).value, WireEntries(conv, values), WrittenProps(conv);
      |es| == |w| &&
      forall i :: 0 <= i < |es| ==> es[i].key == w[i].twinName && es[i].key in pm && pm[es[i].key] == w[i]
  {
    var pm, es, w := PropMapOf(conv).value, WireEntries(conv, values), WrittenProps(conv);
    PropMapSpec(ReadProps(conv));
    WrittenAreRead(conv);
    NamesElems(ReadProps(conv));
    WireEntriesLength(conv, values);
    forall i | 0 <= i < |es| ensures es[i].key == w[i].twinName && es[i].key in pm && pm[es[i].key] == w[i] {
      EntryAt(conv, values, i);
      assert w[i] in w;
    }
  }

  /** Members with distinct keys that lead to known properties with distinct
      members set distinct instance members. */
  lemma DistinctMembers(pm: map<string, Prop>, es: seq<Entry>, w: seq<Prop>, known: seq<Prop>)
    requires |es| == |w| && NoDup(Names(w))
    requires forall i :: 0 <= i < |es| ==> es[i].key == w[i].twinName && es[i].key in pm && pm[es[i].key] == w[i]
    requires forall p :: p in w ==> p in known
    requires forall p, q :: p in known && q in known && p.member == q.member ==> p == q
    ensures forall i, j :: 0 <= i < j < |es| && es[i].key in pm && es[j].key in pm ==>
      pm[es[i].key].member != pm[es[j].key].member
  {
    forall i, j | 0 <= i < j < |es| && es[i].key in pm && es[j].key in pm
      ensures pm[es[i].key].member != pm[es[j].key].member
    {
      assert Names(w)[i] == w[i].twinName && Names(w)[j] == w[j].twinName;
      assert w[i] in w && w[j] in w;
    }
  }

  /** Distinct written members set distinct instance members. */
  lemma RoundTripMembers(conv: Converter, values: map<string, Value>)
    requires RoundTripReady(conv, values)
    ensures var pm, es := PropMapOf(conv).value, WireEntries(conv, values);
      forall i, j :: 0 <= i < j < |es| && es[i].key in pm && es[j].key in pm ==>
        pm[es[i].key].member != pm[es[j].key].member
  {
    RoundTripKeys(conv, values);
    WrittenAreRead(conv);
    DistinctMembers(PropMapOf(conv).value, WireEntries(conv, values), WrittenProps(conv), ReadProps(conv));
  }

  /** With distinct wire names, a property in the third group is in neither of
      the first two. */
  lemma NamesDisjoint(a: seq<Prop>, b: seq<Prop>, c: seq<Prop>, i: nat)
    requires NoDup(Names(a + b + c))
    requires |a| + |b| <= i < |a + b + c|
    ensures (a + b + c)[i] !in a && (a + b + c)[i] !in b
  {
    var w := a + b + c;
    var p := w[i];
    assert Names(w)[i] == p.twinName;
    forall k | 0 <= k < |a| ensures a[k] != p {
      assert w[k] == a[k] && Names(w)[k] == w[k].twinName;
    }
    forall k | 0 <= k < |b| ensures b[k] != p {
      assert w[|a| + k] == b[k] && Names(w)[|a| + k] == w[|a| + k].twinName;
    }
  }

  /** The i-th written member, when Read converts it, gives the promised value. */
  lemma ConvertsAt(conv: Converter, values: map<string, Value>, initial: map<string, Value>, i: nat)
    requires RoundTripReady(conv, values)
    requires i < |WrittenProps(conv)|
    ensures |WireEntries(conv, values)| == |WrittenProps(conv)|
    ensures var pm, e, p := PropMapOf(conv).value, WireEntries(conv, values)[i], WrittenProps(conv)[i];
      e.key in pm && pm[e.key] == p &&
      (e.token == JNull <==> ValueOf(values, p.member) == Null) &&
      (Sets(pm, e) ==> ConvertToken(p.kind, e.token) == Ok(Some(RoundTripValue(conv, p, values, initial))))
  {
    RoundTripKeys(conv, values);
    EntryAt(conv, values, i);
    var p, v := WrittenProps(conv)[i], ValueOf(values, WrittenProps(conv)[i].member);
    var nr, nn := |ReservedProps(conv)|, |NormalProps(conv)|;
    TokenNull(v);
    if v != Null && p.canWrite {
      if i < nr {
        ScalarRoundTrip(p.kind, v, true);
      } else if i < nr + nn {
        ScalarRoundTrip(p.kind, v, false);
      } else {
        NamesDisjoint(ReservedProps(conv), NormalProps(conv), conv.table.components, i);
      }
    }
  }

  /** Read after Write: every written, writable property with a value comes
      back unchanged (a component as what its converter reads from what it
      wrote), and every other written property keeps the constructor's value. */
  lemma RoundTrip(conv: Converter, values: map<string, Value>, initial: map<string, Value>)
    requires RoundTripReady(conv, values)
    ensures var r := ReadSpec(conv, Document(WireEntries(conv, values)), 0, initial);
      r.Ok? &&
      forall p :: p in WrittenProps(conv) ==> ValueOf(r.value, p.member) == RoundTripValue(conv, p, values, initial)
  {
    WireEntriesFlat(conv, values);
    ReadFlatDocument(PropMapOf(conv).value, WireEntries(conv, values), initial);
    ApplyWritten(conv, values, initial);
  }

  /** Applying the written members to the initial values sets each written
      property to the value it round-trips to. */
  lemma ApplyWritten(conv: Converter, values: map<string, Value>, initial: map<string, Value>)
    requires RoundTripReady(conv, values)
    ensures var r := ApplyEntries(PropMapOf(conv).value, WireEntries(conv, values), initial);
      r.Ok? &&
      forall p :: p in WrittenProps(conv) ==> ValueOf(r.value, p.member) == RoundTripValue(conv, p, values, initial)
  {
    var pm, es, w := PropMapOf(conv).value, WireEntries(conv, values), WrittenProps(conv);
    RoundTripMembers(conv, values);
    AllWrittenConvert(conv, values, initial);
    ReadDistinctMembers(pm, es, initial);
    var result := ApplyEntries(pm, es, initial).value;
    forall p | p in w ensures ValueOf(result, p.member) == RoundTripValue(conv, p, values, initial) {
      var i :| 0 <= i < |w| && w[i] == p;
      EffectAt(conv, values, initial, i);
      assert ValueOf(result, pm[es[i].key].member) == Effect(pm, es[i], ValueOf(initial, pm[es[i].key].member));
    }
  }

  /** The written member at `i` leaves its property at its round-trip value. */
  lemma EffectAt(conv: Converter, values: map<string, Value>, initial: map<string, Value>, i: nat)
    requires RoundTripReady(conv, values)
    requires i < |WrittenProps(conv)|
    ensures |WireEntries(conv, values)| == |WrittenProps(conv)|
    ensures var pm, e, p := PropMapOf(conv).value, WireEntries(conv, values)[i], WrittenProps(conv)[i];
      e.key in pm && pm[e.key] == p &&
      Effect(pm, e, ValueOf(initial, p.member)) == RoundTripValue(conv, p, values, initial)
  {
    ConvertsAt(conv, values, initial, i);
  }

  lemma AllWrittenConvert(conv: Converter, values: map<string, Value>, initial: map<string, Value>)
    requires RoundTripReady(conv, values)
    ensures var pm, es := PropMapOf(conv).value, WireEntries(conv, values);
      forall i :: 0 <= i < |es| && Sets(pm, es[i]) ==> ConvertToken(pm[es[i].key].kind, es[i].token).Ok?
  {
    var pm, es := PropMapOf(conv).value, WireEntries(conv, values);
    WireEntriesLength(conv, values);
    forall i | 0 <= i < |es| && Sets(pm, es[i])
      ensures ConvertToken(pm[es[i].key].kind, es[i].token).Ok?
    {
      ConvertsAt(conv, values, initial, i);
    }
  }
}
