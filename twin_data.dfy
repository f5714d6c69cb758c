/** The runtime world the converter and the twin base class work on: the CLR
    type of a property, the values an object can hold and the tokens of the
    JSON text. Values and tokens refer to each other (a value read by a
    nested converter keeps the tokens it came from; a token written by the
    general serializer stands for a value), so they share one module. */
module TwinData {

  /** The fixed-width integer types the reader has a getter for. */
  datatype IntKind = Int16 | Int32 | Int64 | Byte | SByte | UInt16 | UInt32 | UInt64

  datatype EnumMember = EnumMember(name: string, value: int)

  /** The (underlying, non-nullable) declared type of a property, as the
      converter's type dispatch tells them apart. */
  datatype Kind =
    | KString
    | KInt(width: IntKind)
    | KDouble
    | KSingle
    | KDecimal
    | KBool
    | KChar
    | KGuid
    | KDateTimeOffset
    | KDateTime
    | KETag
    | KEnum(enumName: string, underlying: IntKind, members: seq<EnumMember>)
    | KClass(className: string)   // any other reference type
    | KStruct(structName: string) // any other value type

  datatype Field = Field(name: string, value: Value)

  /** A runtime value, tagged with its CLR type where the source dispatches on it. */
  datatype Value =
    | Null
    | Str(s: string)
    | IntVal(width: IntKind, n: int)
    | DecVal(d: real)
    | BoolVal(b: bool)
    | CharVal(c: char)
    | ETagVal(tag: string)
    | EnumVal(enumName: string, n: int)
      /** A double, float, Guid or date parsed by the platform from `token`. */
    | Platform(kind: Kind, token: Token)
      /** What a nested converter for `kind` builds from `tokens`. */
    | Nested(kind: Kind, tokens: seq<Token>)
      /** An instance of a twin type: `props` are all its public properties
          (Type.GetProperties), `twinProps` those GetTwinProperties reports. */
    | TwinObj(fullName: string, props: seq<Field>, twinProps: seq<Field>)
      /** An instance of any other type with properties. */
    | Obj(fullName: string, isClass: bool, props: seq<Field>)
      /** Azure's BasicDigitalTwinComponent, holding `contents`. */
    | Component(contents: map<string, Value>)
      /** A System.Collections.Generic dictionary. */
    | Dict(entries: map<string, Value>)
      /** A System.Dynamic.ExpandoObject. */
    | Expando(entries: map<string, Value>)

  /** A token of the JSON text, as Utf8JsonReader reports them and as
      Utf8JsonWriter produces them. Numbers are split by their literal form:
      an integer literal, or one with a fraction or exponent. */
  datatype Token =
    | StartObject
    | EndObject
    | StartArray
    | EndArray
    | PropertyName(name: string)
    | JString(s: string)
    | JInteger(i: int)
    | JReal(r: real)
    | JBool(b: bool)
    | JNull
      /** The JSON JsonSerializer.Serialize writes for a value; not modelled further. */
    | Serialized(v: Value)
      /** The JSON the twin component converter writes for a value; not modelled further. */
    | Embedded(v: Value)
  {
    /** A number token (TokenType Number). */
    predicate IsNumber() { JInteger? || JReal? }

    /** A token that opens or closes a container. */
    predicate IsStructural() { StartObject? || EndObject? || StartArray? || EndArray? }
  }

  /** The inclusive range of an integer type. */
  function MinOf(w: IntKind): int {
    match w
    case Int16 => -0x8000
    case Int32 => -0x8000_0000
    case Int64 => -0x8000_0000_0000_0000
    case Byte => 0
    case SByte => -0x80
    case UInt16 => 0
    case UInt32 => 0
    case UInt64 => 0
  }

  function MaxOf(w: IntKind): int {
    match w
    case Int16 => 0x7FFF
    case Int32 => 0x7FFF_FFFF
    case Int64 => 0x7FFF_FFFF_FFFF_FFFF
    case Byte => 0xFF
    case SByte => 0x7F
    case UInt16 => 0xFFFF
    case UInt32 => 0xFFFF_FFFF
    case UInt64 => 0xFFFF_FFFF_FFFF_FFFF
  }

  predicate InRange(w: IntKind, n: int) {
    MinOf(w) <= n <= MaxOf(w)
  }
}
