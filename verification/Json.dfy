/** JSON values, the printed form, and the parser as functions on the text still to be read. */
module Json {
  import opened Digits
  import opened SortedMap
  import opened Wrappers

  /** `i64`. */
  type Int64 = i: int | -0x8000_0000_0000_0000 <= i < 0x8000_0000_0000_0000

  /** Display of a finite `f64`: a sign, an integer without superfluous zeros, and perhaps a fraction. */
  predicate FiniteText(s: string) {
    var t := if s != "" && s[0] == '-' then s[1..] else s;
    var n := DigitCount(t);
    && n >= 1 && (t[0] == '0' ==> n == 1)
    && (n == |t| || (t[n] == '.' && n + 1 < |t| && AllDigits(t[n + 1..])))
  }

  /** An `f64`, known by the text written for it: `null` when it is not finite. */
  type Float64 = shown: string | shown == "null" || FiniteText(shown) witness "0"

  /** `str::parse::<f64>`, which this model does not look into. */
  type FloatReader = string -> Option<Float64>

  /** Objects are sorted maps: see `Proper`. */
  datatype Json =
    | Null
    | Bool(b: bool)
    | Int(i: Int64)
    | Float(f: Float64)
    | Str(s: string)
    | Arr(items: seq<Json>)
    | Obj(members: seq<Entry<Json>>)

  /** Object keys are unique and in order at every level, as a `BTreeMap` keeps them. */
  ghost predicate Proper(v: Json)
    decreases v
  {
    match v
    case Arr(items) => forall i | 0 <= i < |items| :: Proper(items[i])
    case Obj(members) => Sorted(members) && forall i | 0 <= i < |members| :: Proper(members[i].value)
    case _ => true
  }

  ghost predicate FloatFree(v: Json)
    decreases v
  {
    match v
    case Float(_) => false
    case Arr(items) => forall i | 0 <= i < |items| :: FloatFree(items[i])
    case Obj(members) => forall i | 0 <= i < |members| :: FloatFree(members[i].value)
    case _ => true
  }

  // ----- printing -----

  function HexDigit(d: nat): (c: char)
    requires d < 16
    ensures ' ' <= c
  {
    if d < 10 then ('0' as int + d) as char else ('a' as int + (d - 10)) as char
  }

  /** `{:04x}` of a control character. */
  function Hex4(n: nat): (s: string)
    requires n < 0x20
    ensures |s| == 4
  {
    ['0', '0', HexDigit(n / 16), HexDigit(n % 16)]
  }

  function EscapeChar(c: char): (s: string)
    ensures |s| > 0
  {
    match c
    case '"' => "\\\""
    case '\\' => "\\\\"
    case '\n' => "\\n"
    case '\r' => "\\r"
    case '\t' => "\\t"
    case _ => if c < ' ' then "\\u" + Hex4(c as int) else [c]
  }

  function Escape(s: string): string {
    if s == "" then "" else EscapeChar(s[0]) + Escape(s[1..])
  }

  function Quote(s: string): string {
    "\"" + Escape(s) + "\""
  }

  function PrintInt(i: int): string {
    if i < 0 then "-" + Decimal(-i) else Decimal(i)
  }

  function Print(v: Json): string
    decreases v, 0
  {
    match v
    case Null => "null"
    case Bool(b) => if b then "true" else "false"
    case Int(i) => PrintInt(i)
    case Float(f) => f
    case Str(s) => Quote(s)
    case Arr(items) => "[" + PrintItems(items, true) + "]"
    case Obj(members) => "{" + PrintMembers(members, true) + "}"
  }

  function PrintItems(items: seq<Json>, first: bool): string
    decreases items, 1
  {
    if items == [] then ""
    else (if first then "" else ",") + Print(items[0]) + PrintItems(items[1..], false)
  }

  function PrintMembers(members: seq<Entry<Json>>, first: bool): string
    decreases members, 1
  {
    if members == [] then ""
    else (if first then "" else ",") + Quote(members[0].key) + ":" + Print(members[0].value)
         + PrintMembers(members[1..], false)
  }

  // ----- parsing -----

  datatype ParseError =
    | UnexpectedEnd
    | TrailingData
    | InvalidLiteral
    | InvalidNumber
    | ExpectedString
    | UnterminatedString
    | InvalidEscape
    | BadUnicodeEscape
    | BadSurrogate
    | ExpectedCommaOrBracket
    | ExpectedColon
    | ExpectedCommaOrBrace

  /** A value together with the text after it. */
  datatype Parsed<+T> = Done(value: T, rest: string) | Fail(error: ParseError)

  predicate IsSpace(c: char) {
    c == ' ' || c == '\t' || c == '\n' || c == '\r'
  }

  function SkipSpace(s: string): (r: string)
    ensures |r| <= |s|
  {
    if s != "" && IsSpace(s[0]) then SkipSpace(s[1..]) else s
  }

  predicate StartsWith(s: string, c: char) {
    s != "" && s[0] == c
  }

  function ParseLiteral(s: string, word: string, value: Json): Parsed<Json> {
    if word <= s then Done(value, s[|word|..]) else Fail(InvalidLiteral)
  }

  predicate NumberChar(c: char) {
    IsDigit(c) || c == '.' || c == 'e' || c == 'E' || c == '+' || c == '-'
  }

  /** How many characters the number loop consumes. */
  function NumberLength(s: string): (n: nat)
    ensures n <= |s| && forall i | 0 <= i < n :: NumberChar(s[i])
    ensures n < |s| ==> !NumberChar(s[n])
  {
    if s == "" || !NumberChar(s[0]) then 0 else 1 + NumberLength(s[1..])
  }

  function FloatResult(read: FloatReader, text: string, rest: string): Parsed<Json> {
    match read(text)
    case Some(f) => Done(Float(f), rest)
    case None => Fail(InvalidNumber)
  }

  function SignLength(s: string): (n: nat)
    ensures n <= |s|
  {
    if StartsWith(s, '-') then 1 else 0
  }

  function ParseNumber(read: FloatReader, s: string): Parsed<Json> {
    var sign := SignLength(s);
    var n := sign + NumberLength(s[sign..]);
    var text, rest := s[..n], s[n..];
    if text == "" || text == "-" then Fail(InvalidNumber)
    else if !AllDigits(text[sign..]) then FloatResult(read, text, rest)
    else
      var i: int := if sign == 1 then 0 - Value(text[sign..]) else Value(text);
      if -0x8000_0000_0000_0000 <= i < 0x8000_0000_0000_0000 then Done(Int(i), rest)
      else FloatResult(read, text, rest)
  }

  function HexValue(c: char): (r: Option<nat>)
    ensures r.Some? ==> r.value < 16
  {
    if '0' <= c <= '9' then Some(c as int - '0' as int)
    else if 'a' <= c <= 'f' then Some(c as int - 'a' as int + 10)
    else if 'A' <= c <= 'F' then Some(c as int - 'A' as int + 10)
    else None
  }

  /** `u32::from_str_radix(_, 16)` on four characters: a leading plus sign is allowed. */
  function HexNumber(s: string): (r: Option<nat>)
    requires |s| == 4
    ensures r.Some? ==> r.value < 0x1_0000
  {
    match (if s[0] == '+' then Some(0) else HexValue(s[0]), HexValue(s[1]), HexValue(s[2]), HexValue(s[3]))
    case (Some(a), Some(b), Some(c), Some(d)) => Some(a * 4096 + b * 256 + c * 16 + d)
    case _ => None
  }

  const REPLACEMENT := '\U{FFFD}'

  /** `char::from_u32`, with the replacement character for surrogates. */
  function CharOf(code: nat): char
    requires code < 0x1_0000
  {
    if 0xd800 <= code < 0xe000 then REPLACEMENT else code as char
  }

  function ParseUnicode(s: string): (p: Parsed<char>)
    ensures p.Done? ==> |p.rest| < |s|
  {
    if |s| < 4 || HexNumber(s[..4]).None? then Fail(BadUnicodeEscape) else
    var code, rest := HexNumber(s[..4]).value, s[4..];
    if !(0xd800 <= code < 0xdc00) then Done(CharOf(code), rest)
    else if !("\\u" <= rest) then Done(REPLACEMENT, rest)
    else if |rest| < 6 || HexNumber(rest[2..6]).None? then Fail(BadSurrogate)
    else
      var low := HexNumber(rest[2..6]).value;
      if 0xdc00 <= low < 0xe000
      then Done((0x10000 + (code - 0xd800) * 0x400 + (low - 0xdc00)) as char, rest[6..])
      else Done(REPLACEMENT, rest)
  }

  function ParseEscape(s: string): (p: Parsed<char>)
    ensures p.Done? ==> |p.rest| < |s|
  {
    if s == "" then Fail(InvalidEscape) else
    match s[0]
    case '"' => Done('"', s[1..])
    case '\\' => Done('\\', s[1..])
    case '/' => Done('/', s[1..])
    case 'b' => Done('\U{0008}', s[1..])
    case 'f' => Done('\U{000C}', s[1..])
    case 'n' => Done('\n', s[1..])
    case 'r' => Done('\r', s[1..])
    case 't' => Done('\t', s[1..])
    case 'u' => ParseUnicode(s[1..])
    case _ => Fail(InvalidEscape)
  }

  function ParseChars(s: string, out: string): (p: Parsed<string>)
    ensures p.Done? ==> |p.rest| < |s|
    decreases |s|
  {
    if s == "" then Fail(UnterminatedString)
    else if s[0] == '"' then Done(out, s[1..])
    else if s[0] == '\\' then
      match ParseEscape(s[1..])
      case Fail(e) => Fail(e)
      case Done(c, rest) => ParseChars(rest, out + [c])
    else ParseChars(s[1..], out + [s[0]])
  }

  function ParseString(s: string): (p: Parsed<string>)
    ensures p.Done? ==> |p.rest| < |s|
  {
    if !StartsWith(s, '"') then Fail(ExpectedString) else ParseChars(s[1..], "")
  }

  function ParseValue(read: FloatReader, s: string): (p: Parsed<Json>)
    ensures p.Done? ==> |p.rest| < |s|
    decreases |s|, 2
  {
    var t := SkipSpace(s);
    if t == "" then Fail(UnexpectedEnd) else
    match t[0]
    case '{' => ParseObject(read, t)
    case '[' => ParseArray(read, t)
    case '"' => (match ParseString(t) case Done(x, rest) => Done(Str(x), rest) case Fail(e) => Fail(e))
    case 't' => ParseLiteral(t, "true", Bool(true))
    case 'f' => ParseLiteral(t, "false", Bool(false))
    case 'n' => ParseLiteral(t, "null", Null)
    case _ => ParseNumber(read, t)
  }

  function ParseArray(read: FloatReader, s: string): (p: Parsed<Json>)
    requires s != ""
    ensures p.Done? ==> |p.rest| < |s|
    decreases |s|, 1
  {
    var t := SkipSpace(s[1..]);
    if StartsWith(t, ']') then Done(Arr([]), t[1..]) else ParseItems(read, t, [])
  }

  function ParseItems(read: FloatReader, s: string, items: seq<Json>): (p: Parsed<Json>)
    ensures p.Done? ==> |p.rest| < |s|
    decreases |s|, 3
  {
    match ParseValue(read, s)
    case Fail(e) => Fail(e)
    case Done(v, rest) =>
      var t := SkipSpace(rest);
      if StartsWith(t, ',') then ParseItems(read, t[1..], items + [v])
      else if StartsWith(t, ']') then Done(Arr(items + [v]), t[1..])
      else Fail(ExpectedCommaOrBracket)
  }

  function ParseObject(read: FloatReader, s: string): (p: Parsed<Json>)
    requires s != ""
    ensures p.Done? ==> |p.rest| < |s|
    decreases |s|, 1
  {
    var t := SkipSpace(s[1..]);
    if StartsWith(t, '}') then Done(Obj([]), t[1..]) else ParseMembers(read, t, [])
  }

  function ParseMembers(read: FloatReader, s: string, members: seq<Entry<Json>>): (p: Parsed<Json>)
    ensures p.Done? ==> |p.rest| < |s|
    decreases |s|, 3
  {
    match ParseString(SkipSpace(s))
    case Fail(e) => Fail(e)
    case Done(key, afterKey) =>
      var colon := SkipSpace(afterKey);
      if !StartsWith(colon, ':') then Fail(ExpectedColon) else
      match ParseValue(read, colon[1..])
      case Fail(e) => Fail(e)
      case Done(v, rest) =>
        var t := SkipSpace(rest);
        var more := Insert(members, key, v);
        if StartsWith(t, ',') then ParseMembers(read, t[1..], more)
        else if StartsWith(t, '}') then Done(Obj(more), t[1..])
        else Fail(ExpectedCommaOrBrace)
  }

  function Parse(read: FloatReader, input: string): Result<Json, ParseError> {
    match ParseValue(read, input)
    case Fail(e) => Err(e)
    case Done(v, rest) => if SkipSpace(rest) == "" then Ok(v) else Err(TrailingData)
  }

  // ----- accessors -----

  /** `get`. */
  function Member(v: Json, key: string): Option<Json> {
    if v.Obj? then Get(v.members, key) else None
  }

  /** `get` and `as_str`. */
  function StringMember(v: Json, key: string): Option<string> {
    var m := Member(v, key);
    if m.Some? && m.value.Str? then Some(m.value.s) else None
  }

  /** `get` and `as_i64`. */
  function IntMember(v: Json, key: string): Option<Int64> {
    var m := Member(v, key);
    if m.Some? && m.value.Int? then Some(m.value.i) else None
  }
}
