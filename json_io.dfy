/** Utf8JsonWriter and Utf8JsonReader as far as the converter uses them: a
    writer that appends tokens, a reader with a cursor, and the reader's
    typed getters with the exceptions they throw. */
module JsonIO {
  import opened Wrappers
  import opened TwinData

  /** The exceptions a conversion can end in. */
  datatype JsonError =
    | JsonException            // malformed structure: a property name with nothing after it, an unclosed container
    | InvalidOperation         // a getter called on a token of the wrong type
    | Format                   // a number the getter's type cannot hold
    | EmptySequence            // First() of an empty string
    | EnumParse                // Enum.Parse: nothing to parse, or a name that is no member
    | EnumOverflow             // Enum.Parse: a number outside the enum's underlying type
    | DuplicateKey(key: string) // ToDictionary met a key twice

  /** Utf8JsonWriter: every call appends to the text written so far. */
  class JsonWriter {
    var tokens: seq<Token>

    constructor ()
      ensures tokens == []
    {
      tokens := [];
    }

    method WriteStartObject()
      modifies this
      ensures tokens == old(tokens) + [StartObject]
    {
      tokens := tokens + [StartObject];
    }

    method WriteEndObject()
      modifies this
      ensures tokens == old(tokens) + [EndObject]
    {
      tokens := tokens + [EndObject];
    }

    method WritePropertyName(name: string)
      modifies this
      ensures tokens == old(tokens) + [PropertyName(name)]
    {
      tokens := tokens + [PropertyName(name)];
    }

    method WriteString(name: string, s: string)
      modifies this
      ensures tokens == old(tokens) + [PropertyName(name), JString(s)]
    {
      tokens := tokens + [PropertyName(name), JString(s)];
    }

    /** WriteNumber(string, int). */
    method WriteInteger(name: string, i: int)
      modifies this
      ensures tokens == old(tokens) + [PropertyName(name), JInteger(i)]
    {
      tokens := tokens + [PropertyName(name), JInteger(i)];
    }

    /** WriteNumber(string, decimal). */
    method WriteDecimal(name: string, d: real)
      modifies this
      ensures tokens == old(tokens) + [PropertyName(name), JReal(d)]
    {
      tokens := tokens + [PropertyName(name), JReal(d)];
    }

    method WriteBoolean(name: string, b: bool)
      modifies this
      ensures tokens == old(tokens) + [PropertyName(name), JBool(b)]
    {
      tokens := tokens + [PropertyName(name), JBool(b)];
    }

    method WriteNull(name: string)
      modifies this
      ensures tokens == old(tokens) + [PropertyName(name), JNull]
    {
      tokens := tokens + [PropertyName(name), JNull];
    }

    method WriteNullValue()
      modifies this
      ensures tokens == old(tokens) + [JNull]
    {
      tokens := tokens + [JNull];
    }

    /** JsonSerializer.Serialize(writer, v, options). */
    method Serialize(v: Value)
      modifies this
      ensures tokens == old(tokens) + [Serialized(v)]
    {
      tokens := tokens + [Serialized(v)];
    }

    /** JsonSerializer.Serialize with the twin component converter for v's runtime type. */
    method SerializeComponent(v: Value)
      modifies this
      ensures tokens == old(tokens) + [Embedded(v)]
    {
      tokens := tokens + [Embedded(v)];
    }
  }

  /** The index of the last token of the JSON value that starts at `i`. */
  function ValueEnd(tokens: seq<Token>, i: nat): (r: Result<nat, JsonError>)
    requires i < |tokens|
    ensures r.Ok? ==> i <= r.value < |tokens|
  {
    if tokens[i].StartObject? || tokens[i].StartArray? then CloseOf(tokens, i + 1, 1) else Ok(i)
  }

  /** The index of the token that closes a container, scanning from `j` at nesting `depth`. */
  function CloseOf(tokens: seq<Token>, j: nat, depth: nat): (r: Result<nat, JsonError>)
    requires 1 <= depth && j <= |tokens|
    ensures r.Ok? ==> j <= r.value < |tokens|
    decreases |tokens| - j
  {
    if j == |tokens| then Err(JsonException)
    else if tokens[j].StartObject? || tokens[j].StartArray? then CloseOf(tokens, j + 1, depth + 1)
    else if tokens[j].EndObject? || tokens[j].EndArray? then
      (if depth == 1 then Ok(j) else CloseOf(tokens, j + 1, depth - 1))
    else CloseOf(tokens, j + 1, depth)
  }

  /** Utf8JsonReader over a complete JSON text: a cursor on the current token. */
  class JsonReader {
    const tokens: seq<Token>
    var pos: nat

    ghost predicate Valid()
      reads this
    {
      pos < |tokens|
    }

    constructor (tokens: seq<Token>)
      requires |tokens| > 0
      ensures this.tokens == tokens && pos == 0 && Valid()
    {
      this.tokens := tokens;
      pos := 0;
    }

    /** The current token. */
    function Current(): Token
      reads this
      requires Valid()
    {
      tokens[pos]
    }

    /** Reader.Read: advances to the next token; false at the end of the text. */
    method Read() returns (more: bool)
      requires Valid()
      modifies this
      ensures Valid()
      ensures more <==> old(pos) + 1 < |tokens|
      ensures pos == if more then old(pos) + 1 else old(pos)
    {
      more := pos + 1 < |tokens|;
      if more {
        pos := pos + 1;
      }
    }

    /** What JsonSerializer.Deserialize(ref reader, …) consumes: the value at
        the cursor, after which the cursor is on its last token. */
    method ConsumeValue() returns (r: Result<seq<Token>, JsonError>)
      requires Valid()
      modifies this
      ensures Valid()
      ensures r.Ok? <==> ValueEnd(tokens, old(pos)).Ok?
      ensures r.Ok? ==> pos == ValueEnd(tokens, old(pos)).value &&
                        r.value == tokens[old(pos)..pos + 1]
      ensures r.Err? ==> pos == old(pos) && ValueEnd(tokens, old(pos)) == Err(r.error)
    {
      var e := ValueEnd(tokens, pos);
      if e.Err? {
        return Err(e.error);
      }
      r := Ok(tokens[pos..e.value + 1]);
      pos := e.value;
    }
  }

  /** Reader.GetString: the text of a string or property-name token, null for a null token. */
  function GetString(t: Token): (r: Result<Option<string>, JsonError>)
    ensures r == Ok(None) <==> t == JNull
    ensures r.Err? <==> !(t.JString? || t.PropertyName? || t.JNull?)
  {
    match t
    case JString(s) => Ok(Some(s))
    case PropertyName(n) => Ok(Some(n))
    case JNull => Ok(None)
    case _ => Err(InvalidOperation)
  }

  /** Reader.GetInt16 … GetUInt64: an integer literal within the type's range. */
  function GetInteger(w: IntKind, t: Token): (r: Result<int, JsonError>)
    ensures r.Ok? <==> t.JInteger? && InRange(w, t.i)
    ensures r.Ok? ==> r.value == t.i
    ensures r.Err? ==> r.error == (if t.IsNumber() then Format else InvalidOperation)
  {
    match t
    case JInteger(i) => if InRange(w, i) then Ok(i) else Err(Format)
    case JReal(_) => Err(Format)
    case _ => Err(InvalidOperation)
  }

  /** Reader.GetDecimal: any number token (decimal precision is not modelled). */
  function GetDecimal(t: Token): (r: Result<real, JsonError>)
    ensures r.Ok? <==> t.IsNumber()
  {
    match t
    case JInteger(i) => Ok(i as real)
    case JReal(d) => Ok(d)
    case _ => Err(InvalidOperation)
  }

  /** Reader.GetBoolean. */
  function GetBoolean(t: Token): (r: Result<bool, JsonError>)
    ensures r.Ok? <==> t.JBool?
    ensures r.Ok? ==> r.value == t.b
  {
    if t.JBool? then Ok(t.b) else Err(InvalidOperation)
  }

  // Int32.ToString() and the numeric part of Enum.Parse.

  function DigitChar(d: nat): char
    requires d < 10
  {
    "0123456789"[d]
  }

  predicate IsDigit(c: char) { '0' <= c <= '9' }

  function DigitValue(c: char): nat
    requires IsDigit(c)
  {
    (c as int - '0' as int) as nat
  }

  /** The decimal digits of `n`, most significant first, without leading zeros. */
  function NatToString(n: nat): (s: string)
    ensures |s| > 0 && forall i :: 0 <= i < |s| ==> IsDigit(s[i])
  {
    if n < 10 then [DigitChar(n)] else NatToString(n / 10) + [DigitChar(n % 10)]
  }

  /** Int32.ToString() in the invariant culture. */
  function IntToString(n: int): string {
    if n < 0 then "-" + NatToString(-n) else NatToString(n)
  }

  /** The value of a non-empty run of decimal digits. */
  function ParseDigits(s: string): (r: Option<nat>)
    ensures r.Some? <==> |s| > 0 && forall i :: 0 <= i < |s| ==> IsDigit(s[i])
    decreases |s|
  {
    if s == [] || !IsDigit(s[|s| - 1]) then None
    else if |s| == 1 then Some(DigitValue(s[0]))
    else
      match ParseDigits(s[..|s| - 1])
      case None => None
      case Some(p) => Some(p * 10 + DigitValue(s[|s| - 1]))
  }

  /** The digits NatToString prints parse back to the number. */
  lemma {:induction false} ParseNatToString(n: nat)
    ensures ParseDigits(NatToString(n)) == Some(n)
  {
    if n >= 10 {
      ParseNatToString(n / 10);
      var s := NatToString(n);
      assert s[..|s| - 1] == NatToString(n / 10);
      assert DigitValue(DigitChar(n % 10)) == n % 10;
    } else {
      assert DigitValue(DigitChar(n)) == n;
    }
  }
}
