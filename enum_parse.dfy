/** Enum.Parse(Type, string) of .NET, which the reader calls for an enum
    property: leading white space is skipped; text that starts like a number
    is parsed as the enum's underlying integer type; anything else is a list
    of member names separated by commas, each trimmed, whose values are ORed
    together. */
module Enums {
  import opened Wrappers
  import opened TwinData
  import opened JsonIO

  // ---------------------------------------------------------------------
  // White space

  /** char.IsWhiteSpace: the controls U+0009 to U+000D and U+0085, and the
      Unicode space, line and paragraph separators. */
  predicate IsWhiteSpace(c: char) {
    c == ' ' || ('\t' <= c <= '\r') || c == '\U{0085}' || c == '\U{00A0}' || c == '\U{1680}' ||
    ('\U{2000}' <= c <= '\U{200A}') || c == '\U{2028}' || c == '\U{2029}' || c == '\U{202F}' ||
    c == '\U{205F}' || c == '\U{3000}'
  }

  /** The white space the integer parser accepts after the digits: space and U+0009 to U+000D. */
  predicate IsNumberWhite(c: char) {
    c == ' ' || ('\t' <= c <= '\r')
  }

  function TrimStart(s: string): (r: string)
    ensures r == [] || !IsWhiteSpace(r[0])
    ensures |r| <= |s|
  {
    if s != [] && IsWhiteSpace(s[0]) then TrimStart(s[1..]) else s
  }

  function TrimEnd(s: string): (r: string)
    ensures r == [] || !IsWhiteSpace(r[|r| - 1])
    ensures |r| <= |s|
  {
    if s != [] && IsWhiteSpace(s[|s| - 1]) then TrimEnd(s[..|s| - 1]) else s
  }

  /** TrimEnd keeps a prefix. */
  lemma {:induction false} TrimEndPrefix(s: string)
    ensures TrimEnd(s) == s[..|TrimEnd(s)|]
    decreases |s|
  {
    if s != [] && IsWhiteSpace(s[|s| - 1]) {
      TrimEndPrefix(s[..|s| - 1]);
    }
  }

  function Trim(s: string): string {
    TrimEnd(TrimStart(s))
  }

  predicate AllWhiteSpace(s: string) {
    forall i :: 0 <= i < |s| ==> IsWhiteSpace(s[i])
  }

  /** White space before text that does not start with it is what TrimStart removes. */
  lemma {:induction false} TrimStartPrefix(ws: string, s: string)
    requires AllWhiteSpace(ws) && (s == [] || !IsWhiteSpace(s[0]))
    ensures TrimStart(ws + s) == s
    decreases |ws|
  {
    if ws != [] {
      assert (ws + s)[0] == ws[0] && (ws + s)[1..] == ws[1..] + s;
      TrimStartPrefix(ws[1..], s);
    }
  }

  /** White space after text that does not end with it is what TrimEnd removes. */
  lemma {:induction false} TrimEndSuffix(s: string, ws: string)
    requires AllWhiteSpace(ws) && (s == [] || !IsWhiteSpace(s[|s| - 1]))
    ensures TrimEnd(s + ws) == s
    decreases |ws|
  {
    if ws != [] {
      var t := s + ws;
      assert t[|t| - 1] == ws[|ws| - 1] && t[..|t| - 1] == s + ws[..|ws| - 1];
      TrimEndSuffix(s, ws[..|ws| - 1]);
    } else {
      assert s + ws == s;
    }
  }

  /** A name padded with white space trims to the name. */
  lemma TrimPadded(ws: string, name: string, ws2: string)
    requires AllWhiteSpace(ws) && AllWhiteSpace(ws2) && PlainName(name)
    ensures TrimStart(ws + name + ws2) == name + ws2
    ensures Trim(ws + name + ws2) == name
  {
    assert ws + name + ws2 == ws + (name + ws2);
    assert (name + ws2)[0] == name[0];
    TrimStartPrefix(ws, name + ws2);
    TrimEndSuffix(name, ws2);
  }

  // ---------------------------------------------------------------------
  // The integer syntax

  /** The length of the run of decimal digits `s` starts with. */
  function LeadingDigits(s: string): (k: nat)
    ensures k <= |s| && (forall i :: 0 <= i < k ==> IsDigit(s[i])) && (k < |s| ==> !IsDigit(s[k]))
  {
    if s != [] && IsDigit(s[0]) then 1 + LeadingDigits(s[1..]) else 0
  }

  function SkipNumberWhite(s: string): string {
    if s != [] && IsNumberWhite(s[0]) then SkipNumberWhite(s[1..]) else s
  }

  /** What may follow the digits: white space, then NUL characters. */
  predicate TrailingOk(s: string) {
    var rest := SkipNumberWhite(s);
    forall i :: 0 <= i < |rest| ==> rest[i] == '\0'
  }

  /** A run of digits followed by what may trail it, as a natural number. */
  function ParseUnsigned(body: string): Option<nat> {
    var k := LeadingDigits(body);
    if k == 0 || !TrailingOk(body[k..]) then None else ParseDigits(body[..k])
  }

  /** An optionally signed run of digits with what may trail it
      (NumberStyles.AllowLeadingSign and AllowTrailingWhite, invariant
      culture), as an unbounded integer; None when the text is malformed. */
  function ParseEnumNumber(s: string): Option<int> {
    if |s| > 0 && s[0] == '-' then
      match ParseUnsigned(s[1..])
      case None => None
      case Some(n) => Some(-(n as int))
    else if |s| > 0 && s[0] == '+' then
      match ParseUnsigned(s[1..])
      case None => None
      case Some(n) => Some(n)
    else
      match ParseUnsigned(s)
      case None => None
      case Some(n) => Some(n)
  }

  /** Printed integers, with white space after them, parse back. */
  lemma NumberOfIntToString(n: int, tw: string)
    requires forall i :: 0 <= i < |tw| ==> IsNumberWhite(tw[i])
    ensures ParseEnumNumber(IntToString(n) + tw) == Some(n)
  {
    if n < 0 {
      NumberOfNegative(n, tw);
    } else {
      var digits := NatToString(n);
      ParseNatToString(n);
      UnsignedOfDigits(digits, tw);
      assert IntToString(n) + tw == digits + tw;
      UnsignedNumber(digits + tw);
    }
  }

  lemma NumberOfNegative(n: int, tw: string)
    requires forall i :: 0 <= i < |tw| ==> IsNumberWhite(tw[i])
    requires n < 0
    ensures ParseEnumNumber(IntToString(n) + tw) == Some(n)
  {
    var m: nat := -n;
    NegativeDigits(m, tw);
    NegativeText(n, tw);
    assert IntToString(n) + tw == "-" + (NatToString(m) + tw);
  }

  lemma NegativeDigits(m: nat, tw: string)
    requires forall i :: 0 <= i < |tw| ==> IsNumberWhite(tw[i])
    ensures ParseEnumNumber("-" + (NatToString(m) + tw)) == Some(-(m as int))
  {
    ParseNatToString(m);
    UnsignedOfDigits(NatToString(m), tw);
    NegativeNumber(NatToString(m) + tw);
  }

  lemma NegativeText(n: int, tw: string)
    requires n < 0
    ensures IntToString(n) + tw == "-" + (NatToString(-n) + tw)
  {
  }

  lemma UnsignedNumber(s: string)
    requires |s| > 0 && IsDigit(s[0])
    ensures ParseEnumNumber(s) == match ParseUnsigned(s) case None => None case Some(n) => Some(n as int)
  {
  }

  lemma NegativeNumber(x: string)
    ensures ParseEnumNumber("-" + x) == match ParseUnsigned(x) case None => None case Some(n) => Some(-(n as int))
  {
    var s := "-" + x;
    assert s[0] == '-' && s[1..] == x;
  }

  lemma UnsignedOfDigits(digits: string, tw: string)
    requires |digits| > 0 && forall i :: 0 <= i < |digits| ==> IsDigit(digits[i])
    requires forall i :: 0 <= i < |tw| ==> IsNumberWhite(tw[i])
    ensures ParseUnsigned(digits + tw) == ParseDigits(digits)
  {
    var body := digits + tw;
    DigitsThenWhite(digits, tw);
    assert body[..|digits|] == digits;
    assert body[|digits|..] == tw;
    SkipAllWhite(tw);
  }

  lemma DigitsThenWhite(digits: string, tw: string)
    requires |digits| > 0 && forall i :: 0 <= i < |digits| ==> IsDigit(digits[i])
    requires forall i :: 0 <= i < |tw| ==> IsNumberWhite(tw[i])
    ensures LeadingDigits(digits + tw) == |digits|
    decreases |digits|
  {
    var s := digits + tw;
    assert s[0] == digits[0] && s[1..] == digits[1..] + tw;
    if |digits| > 1 {
      DigitsThenWhite(digits[1..], tw);
    } else {
      assert s[1..] == tw;
      if tw != [] {
        assert !IsDigit(tw[0]);
      }
    }
  }

  lemma {:induction false} SkipAllWhite(tw: string)
    requires forall i :: 0 <= i < |tw| ==> IsNumberWhite(tw[i])
    ensures SkipNumberWhite(tw) == []
    decreases |tw|
  {
    if tw != [] {
      SkipAllWhite(tw[1..]);
    }
  }

  // ---------------------------------------------------------------------
  // The underlying integer type

  /** The number of values of the storage type. */
  function Modulus(w: IntKind): nat {
    match w
    case Int16 => 0x1_0000
    case Int32 => 0x1_0000_0000
    case Int64 => 0x1_0000_0000_0000_0000
    case Byte => 0x100
    case SByte => 0x100
    case UInt16 => 0x1_0000
    case UInt32 => 0x1_0000_0000
    case UInt64 => 0x1_0000_0000_0000_0000
  }

  /** A value as the bits of the unsigned storage type of its width. */
  function ToStorage(w: IntKind, v: int): nat {
    v % Modulus(w)
  }

  /** The storage bits read back as the underlying type. */
  function FromStorage(w: IntKind, u: nat): (r: int)
    ensures InRange(w, r)
  {
    var b := u % Modulus(w);
    if b > MaxOf(w) then b - Modulus(w) else b
  }

  lemma StorageRoundTrip(w: IntKind, v: int)
    requires InRange(w, v)
    ensures FromStorage(w, ToStorage(w, v)) == v
  {
  }

  /** Bitwise OR of two storage values. */
  function BitOr(a: nat, b: nat): nat
    decreases a + b
  {
    if a == 0 then b
    else if b == 0 then a
    else 2 * BitOr(a / 2, b / 2) + (if a % 2 == 1 || b % 2 == 1 then 1 else 0)
  }

  // ---------------------------------------------------------------------
  // Names

  /** The value of the first member with that name. */
  function LookupMember(members: seq<EnumMember>, name: string): (r: Option<int>)
    ensures r.Some? <==> exists m :: m in members && m.name == name
    ensures r.Some? ==> exists m :: m in members && m.name == name && m.value == r.value
  {
    if members == [] then None
    else if members[0].name == name then Some(members[0].value)
    else LookupMember(members[1..], name)
  }

  /** The first comma in `s`. */
  function IndexOfComma(s: string): (r: Option<nat>)
    ensures r.Some? ==> r.value < |s| && s[r.value] == ',' && ',' !in s[..r.value]
    ensures r.None? <==> ',' !in s
  {
    if s == [] then None
    else if s[0] == ',' then Some(0)
    else
      match IndexOfComma(s[1..])
      case None => None
      case Some(i) => assert s[..i + 1] == [s[0]] + s[1..][..i]; Some(i + 1)
  }

  /** TryParseByName: while text remains, the piece up to the next comma (or
      the rest) is trimmed and must be a member name, whose value is ORed into
      the result; a comma as the last character fails. */
  function ParseNames(w: IntKind, members: seq<EnumMember>, s: string, acc: nat): Option<nat>
    decreases |s|
  {
    if s == [] then Some(acc)
    else
      match IndexOfComma(s)
      case None =>
        (match LookupMember(members, Trim(s))
         case None => None
         case Some(v) => Some(BitOr(acc, ToStorage(w, v))))
      case Some(i) =>
        if i == |s| - 1 then None
        else
          match LookupMember(members, Trim(s[..i]))
          case None => None
          case Some(v) => ParseNames(w, members, s[i + 1..], BitOr(acc, ToStorage(w, v)))
  }

  function ParseByName(w: IntKind, members: seq<EnumMember>, s: string): Result<int, JsonError> {
    match ParseNames(w, members, s, 0)
    case None => Err(EnumParse)
    case Some(u) => Ok(FromStorage(w, u))
  }

  /** Enum.Parse(type, text) for an enum with underlying type `w`: after the
      leading white space, a digit or sign means a number, which must fit
      `w`; text that is not a well-formed number falls back to the names. */
  function ParseEnum(w: IntKind, members: seq<EnumMember>, text: string): (r: Result<int, JsonError>)
    ensures r.Ok? ==> InRange(w, r.value)
    ensures r.Err? ==> r.error == EnumParse || r.error == EnumOverflow
  {
    var s := TrimStart(text);
    if s == [] then Err(EnumParse)
    else if !(IsDigit(s[0]) || s[0] == '-' || s[0] == '+') then ParseByName(w, members, s)
    else
      match ParseEnumNumber(s)
      case Some(n) => if InRange(w, n) then Ok(n) else Err(EnumOverflow)
      case None => ParseByName(w, members, s)
  }

  // ---------------------------------------------------------------------
  // What Enum.Parse gives

  /** A member name as C# allows it: not empty, no comma, no white space at
      either end, not starting like a number. */
  predicate PlainName(name: string) {
    |name| > 0 && ',' !in name && !IsWhiteSpace(name[0]) && !IsWhiteSpace(name[|name| - 1]) &&
    !IsDigit(name[0]) && name[0] != '-' && name[0] != '+'
  }

  /** Every member's value fits the underlying type, as the compiler ensures. */
  predicate ValuesFit(w: IntKind, members: seq<EnumMember>) {
    forall m :: m in members ==> InRange(w, m.value)
  }

  /** A printed integer, possibly with white space around it, is that number
      when it fits the underlying type and an overflow otherwise, whether or
      not a member has that value. */
  lemma ParseNumberText(w: IntKind, members: seq<EnumMember>, ws: string, n: int, tw: string)
    requires AllWhiteSpace(ws) && forall i :: 0 <= i < |tw| ==> IsNumberWhite(tw[i])
    ensures ParseEnum(w, members, ws + IntToString(n) + tw) == if InRange(w, n) then Ok(n) else Err(EnumOverflow)
  {
    var x := IntToString(n) + tw;
    assert ws + IntToString(n) + tw == ws + x;
    var digits := if n < 0 then NatToString(-n) else NatToString(n);
    assert x[0] == '-' || IsDigit(x[0]) by {
      if n < 0 {
        assert x[0] == '-';
      } else {
        assert x[0] == digits[0];
      }
    }
    TrimStartPrefix(ws, x);
    NumberOfIntToString(n, tw);
  }

  /** Text that does not start like a number, once trimmed, is read as names. */
  lemma ByNameWhenNotNumber(w: IntKind, members: seq<EnumMember>, text: string)
    requires TrimStart(text) != []
    requires var c := TrimStart(text)[0]; !IsDigit(c) && c != '-' && c != '+'
    ensures ParseEnum(w, members, text) == ParseByName(w, members, TrimStart(text))
  {
  }

  /** The last piece: no comma is left. */
  lemma LastName(w: IntKind, members: seq<EnumMember>, s: string, acc: nat)
    requires s != [] && ',' !in s
    ensures ParseNames(w, members, s, acc) ==
      match LookupMember(members, Trim(s))
      case None => None
      case Some(v) => Some(BitOr(acc, ToStorage(w, v)))
  {
  }

  /** A piece followed by a comma and more text. */
  lemma CommaStep(w: IntKind, members: seq<EnumMember>, p: string, rest: string, acc: nat)
    requires ',' !in p && rest != []
    ensures ParseNames(w, members, p + "," + rest, acc) ==
      match LookupMember(members, Trim(p))
      case None => None
      case Some(v) => ParseNames(w, members, rest, BitOr(acc, ToStorage(w, v)))
  {
    var s := p + "," + rest;
    assert s[..|p|] == p && s[|p| + 1..] == rest;
    FirstComma(p, rest);
  }

  lemma {:induction false} FirstComma(p: string, rest: string)
    requires ',' !in p
    ensures IndexOfComma(p + "," + rest) == Some(|p|)
    decreases |p|
  {
    var s := p + "," + rest;
    if p != [] {
      assert s[0] == p[0] && s[1..] == p[1..] + "," + rest;
      FirstComma(p[1..], rest);
    }
  }

  lemma NoCommaPadded(name: string, ws2: string)
    requires ',' !in name && AllWhiteSpace(ws2)
    ensures ',' !in name + ws2
  {
    var s := name + ws2;
    assert forall i :: 0 <= i < |name| ==> s[i] == name[i];
    assert forall i :: |name| <= i < |s| ==> s[i] == ws2[i - |name|];
  }

  /** A single padded name as the rest of the text. */
  lemma ByOneName(w: IntKind, members: seq<EnumMember>, s: string, name: string)
    requires s != [] && ',' !in s && Trim(s) == name
    ensures ParseByName(w, members, s) ==
      match LookupMember(members, name)
      case None => Err(EnumParse)
      case Some(v) => Ok(FromStorage(w, ToStorage(w, v)))
  {
    LastName(w, members, s, 0);
  }

  /** One name with white space around it: found exactly when a member has
      that name, with that member's value. */
  lemma ParseOneName(w: IntKind, members: seq<EnumMember>, ws: string, name: string, ws2: string)
    requires AllWhiteSpace(ws) && AllWhiteSpace(ws2) && PlainName(name)
    ensures var r := ParseEnum(w, members, ws + name + ws2);
      (r.Ok? <==> exists m :: m in members && m.name == name) &&
      (r.Err? ==> r.error == EnumParse) &&
      (r.Ok? && ValuesFit(w, members) ==> r.value == LookupMember(members, name).value)
  {
    var text := ws + name + ws2;
    var s := name + ws2;
    TrimPadded(ws, name, ws2);
    assert TrimStart(text) == s;
    assert s[0] == name[0];
    ByNameWhenNotNumber(w, members, text);
    assert ParseEnum(w, members, text) == ParseByName(w, members, s);
    NoCommaPadded(name, ws2);
    ByOneName(w, members, s, name);
    var v := LookupMember(members, name);
    if v.Some? && ValuesFit(w, members) {
      var m :| m in members && m.name == name && m.value == v.value;
      StorageRoundTrip(w, v.value);
    }
  }

  /** Pieces between commas, joined back together. */
  function JoinCommas(pieces: seq<string>): string
    requires |pieces| > 0
  {
    if |pieces| == 1 then pieces[0] else pieces[0] + "," + JoinCommas(pieces[1..])
  }

  /** Each piece is a plain name with white space around it. */
  predicate PaddedNames(pieces: seq<string>) {
    forall i :: 0 <= i < |pieces| ==> ',' !in pieces[i] && PlainName(Trim(pieces[i]))
  }

  /** The storage value of a list of names: their values ORed onto `acc`. */
  function OrNames(w: IntKind, members: seq<EnumMember>, pieces: seq<string>, acc: nat): Option<nat> {
    if pieces == [] then Some(acc)
    else
      match LookupMember(members, Trim(pieces[0]))
      case None => None
      case Some(v) => OrNames(w, members, pieces[1..], BitOr(acc, ToStorage(w, v)))
  }

  lemma {:induction false} ParseNamesJoined(w: IntKind, members: seq<EnumMember>, pieces: seq<string>, acc: nat)
    requires |pieces| > 0 && PaddedNames(pieces)
    ensures ParseNames(w, members, JoinCommas(pieces), acc) == OrNames(w, members, pieces, acc)
    decreases |pieces|
  {
    var p := pieces[0];
    assert ',' !in p && PlainName(Trim(p));
    JoinNonEmpty(pieces);
    if |pieces| == 1 {
      LastName(w, members, p, acc);
      assert OrNames(w, members, pieces[1..], acc) == Some(acc);
      match LookupMember(members, Trim(p))
      case None =>
      case Some(v) =>
        assert OrNames(w, members, pieces[1..], BitOr(acc, ToStorage(w, v))) == Some(BitOr(acc, ToStorage(w, v)));
    } else {
      assert forall i :: 0 <= i < |pieces| - 1 ==> pieces[1..][i] == pieces[i + 1];
      assert PaddedNames(pieces[1..]);
      JoinNonEmpty(pieces[1..]);
      CommaStep(w, members, p, JoinCommas(pieces[1..]), acc);
      match LookupMember(members, Trim(p))
      case None =>
      case Some(v) =>
        ParseNamesJoined(w, members, pieces[1..], BitOr(acc, ToStorage(w, v)));
    }
  }

  /** The names OR together exactly when every one of them is a member name. */
  lemma {:induction false} OrNamesDefined(w: IntKind, members: seq<EnumMember>, pieces: seq<string>, acc: nat)
    ensures OrNames(w, members, pieces, acc).Some? <==>
              forall i :: 0 <= i < |pieces| ==> exists m :: m in members && m.name == Trim(pieces[i])
    decreases |pieces|
  {
    if pieces != [] {
      match LookupMember(members, Trim(pieces[0]))
      case None =>
      case Some(v) =>
        var acc2 := BitOr(acc, ToStorage(w, v));
        OrNamesDefined(w, members, pieces[1..], acc2);
        assert forall i :: 1 <= i < |pieces| ==> pieces[1..][i - 1] == pieces[i];
    }
  }

  lemma JoinNonEmpty(pieces: seq<string>)
    requires |pieces| > 0 && PaddedNames(pieces)
    ensures |JoinCommas(pieces)| > 0 && JoinCommas(pieces)[0] == pieces[0][0]
  {
    assert PlainName(Trim(pieces[0]));
    assert |Trim(pieces[0])| <= |TrimStart(pieces[0])| <= |pieces[0]|;
  }

  /** A comma-separated list of names, each padded with white space, ORs the
      values of its names in the storage type (so `"A, B"` is `A | B`), and
      fails when one of them is not a member name. */
  lemma ParseNameList(w: IntKind, members: seq<EnumMember>, ws: string, pieces: seq<string>)
    requires |pieces| > 0 && PaddedNames(pieces) && AllWhiteSpace(ws)
    requires !IsWhiteSpace(pieces[0][0])
    ensures var r := ParseEnum(w, members, ws + JoinCommas(pieces));
      (r.Ok? <==> OrNames(w, members, pieces, 0).Some?) &&
      (r.Err? ==> r.error == EnumParse) &&
      (r.Ok? ==> r.value == FromStorage(w, OrNames(w, members, pieces, 0).value)) &&
      (r.Ok? <==> forall i :: 0 <= i < |pieces| ==> exists m :: m in members && m.name == Trim(pieces[i]))
  {
    OrNamesDefined(w, members, pieces, 0);
    var text := JoinCommas(pieces);
    JoinNonEmpty(pieces);
    TrimStartPrefix(ws, text);
    FirstPieceNotNumber(pieces[0]);
    ByNameWhenNotNumber(w, members, ws + text);
    ParseNamesJoined(w, members, pieces, 0);
  }

  lemma FirstPieceNotNumber(p: string)
    requires ',' !in p && PlainName(Trim(p)) && p != [] && !IsWhiteSpace(p[0])
    ensures !IsDigit(p[0]) && p[0] != '-' && p[0] != '+'
  {
    assert TrimStart(p) == p;
    assert Trim(p) == TrimEnd(p);
    TrimEndPrefix(p);
  }

  /** A flags enum with members A = 1 and B = 2. */
  function FlagsAB(): seq<EnumMember> {
    [EnumMember("A", 1), EnumMember("B", 2)]
  }

  /** Enum.Parse trims and ORs: `" A"` is A, `"A, B"` is 3, `"A,"` fails;
      `"256"` overflows a byte enum, and 2147483648 printed overflows Int32. */
  lemma EnumParseExamples()
    ensures ParseEnum(Int32, FlagsAB(), " A") == Ok(1)
    ensures ParseEnum(Int32, FlagsAB(), "A, B") == Ok(3)
    ensures ParseEnum(Int32, FlagsAB(), "A,") == Err(EnumParse)
    ensures ParseEnum(Int32, FlagsAB(), IntToString(0x8000_0000)) == Err(EnumOverflow)
    ensures ParseEnum(Byte, FlagsAB(), "256") == Err(EnumOverflow)
  {
    OneSpaceA();
    TwoNames();
    TrailingComma();
    WideInt32();
    WideByte();
  }

  lemma WideInt32()
    ensures ParseEnum(Int32, FlagsAB(), IntToString(0x8000_0000)) == Err(EnumOverflow)
  {
    ParseNumberText(Int32, FlagsAB(), "", 0x8000_0000, "");
    assert "" + IntToString(0x8000_0000) + "" == IntToString(0x8000_0000);
  }

  lemma WideByte()
    ensures ParseEnum(Byte, FlagsAB(), "256") == Err(EnumOverflow)
  {
    ParseNumberText(Byte, FlagsAB(), "", 256, "");
    assert NatToString(2) == "2";
    assert NatToString(25) == NatToString(2) + "5";
    assert NatToString(256) == NatToString(25) + "6";
    assert "" + IntToString(256) + "" == "256";
  }

  lemma OneSpaceA()
    ensures ParseEnum(Int32, FlagsAB(), " A") == Ok(1)
  {
    var members := FlagsAB();
    assert AllWhiteSpace(" ") && PlainName("A");
    assert LookupMember(members, "A") == Some(1);
    assert members[0] in members && members[0].name == "A";
    assert ValuesFit(Int32, members);
    ParseOneName(Int32, members, " ", "A", "");
    assert " " + "A" + "" == " A";
  }

  lemma TwoNames()
    ensures ParseEnum(Int32, FlagsAB(), "A, B") == Ok(3)
  {
    var pieces := ["A", " B"];
    PaddedAB();
    OrAB();
    ParseNameList(Int32, FlagsAB(), "", pieces);
    JoinAB();
    assert "" + JoinCommas(pieces) == "A, B";
  }

  lemma JoinAB()
    ensures JoinCommas(["A", " B"]) == "A, B" && FromStorage(Int32, 3) == 3
  {
    assert JoinCommas(["A", " B"]) == "A" + "," + JoinCommas([" B"]);
  }

  lemma PaddedAB()
    ensures PaddedNames(["A", " B"]) && !IsWhiteSpace("A"[0])
    ensures Trim("A") == "A" && Trim(" B") == "B"
  {
    assert AllWhiteSpace(" ") && PlainName("A") && PlainName("B");
    TrimPadded("", "A", "");
    assert "" + "A" + "" == "A";
    TrimPadded(" ", "B", "");
    assert " " + "B" + "" == " B";
  }

  lemma OrAB()
    requires Trim("A") == "A" && Trim(" B") == "B"
    ensures OrNames(Int32, FlagsAB(), ["A", " B"], 0) == Some(3)
  {
    var pieces := ["A", " B"];
    assert LookupMember(FlagsAB(), "A") == Some(1) && LookupMember(FlagsAB(), "B") == Some(2);
    assert BitOr(0, 1) == 1;
    assert BitOr(1, 2) == 2 * BitOr(0, 1) + 1;
    assert pieces[1..] == [" B"] && pieces[1..][1..] == [];
  }

  lemma TrailingComma()
    ensures ParseEnum(Int32, FlagsAB(), "A,") == Err(EnumParse)
  {
    var text := "A,";
    assert text == "A" + "," + "";
    FirstComma("A", "");
    assert TrimStart(text) == text;
    ByNameWhenNotNumber(Int32, FlagsAB(), text);
    assert ParseNames(Int32, FlagsAB(), text, 0) == None;
  }
}
