/**
 The parser and the serializer as the program runs them: loops over a text with a moving position,
 and a buffer that is appended to. Each is proved to compute what `Json` defines.
 */
module JsonCursor {
  import opened Digits
  import opened Json
  import opened SortedMap
  import opened Wrappers

  /** The position after a step stands for the text left over. */
  ghost predicate At<T>(p: Parsed<T>, r: Result<T, ParseError>, text: string, next: nat) {
    match p
    case Done(v, rest) => r == Ok(v) && next <= |text| && rest == text[next..]
    case Fail(e) => r == Err(e)
  }

  lemma Tail(text: string, pos: nat)
    requires pos < |text|
    ensures text[pos..] != "" && text[pos..][0] == text[pos] && text[pos..][1..] == text[pos + 1..]
  {
  }

  method SkipWs(text: string, pos: nat) returns (next: nat)
    requires pos <= |text|
    ensures pos <= next <= |text| && text[next..] == SkipSpace(text[pos..])
    ensures next < |text| ==> !IsSpace(text[next])
  {
    next := pos;
    while next < |text| && IsSpace(text[next])
      invariant pos <= next <= |text| && SkipSpace(text[next..]) == SkipSpace(text[pos..])
    {
      Tail(text, next);
      next := next + 1;
    }
    if next < |text| { Tail(text, next); }
  }

  lemma PrefixAt(text: string, pos: nat, word: string)
    requires pos <= |text|
    ensures word <= text[pos..] <==> |word| <= |text| - pos && text[pos..pos + |word|] == word
    ensures |word| <= |text| - pos ==> text[pos..][|word|..] == text[pos + |word|..]
  {
    if word <= text[pos..] { assert text[pos..pos + |word|] == text[pos..][..|word|]; }
  }

  method ReadLiteral(text: string, pos: nat, word: string, value: Json) returns (r: Result<Json, ParseError>, next: nat)
    requires pos <= |text|
    ensures At(ParseLiteral(text[pos..], word, value), r, text, next)
  {
    PrefixAt(text, pos, word);
    if |word| <= |text| - pos && text[pos..pos + |word|] == word {
      r, next := Ok(value), pos + |word|;
    } else {
      r, next := Err(InvalidLiteral), pos;
    }
  }

  /** What the scanned text of a number converts to. */
  ghost function Converted(read: FloatReader, number: string, sign: nat): Parsed<Json>
    requires sign <= |number|
  {
    if number == "" || number == "-" then Fail(InvalidNumber)
    else if !AllDigits(number[sign..]) then FloatResult(read, number, "")
    else
      var i: int := if sign == 1 then 0 - Value(number[sign..]) else Value(number[sign..]);
      if -0x8000_0000_0000_0000 <= i < 0x8000_0000_0000_0000 then Done(Int(i), "") else FloatResult(read, number, "")
  }

  lemma ParseNumberConverts(read: FloatReader, s: string, sign: nat, number: string, rest: string)
    returns (p: Parsed<Json>)
    requires sign == SignLength(s) && |number| == sign + NumberLength(s[sign..])
    requires number == s[..|number|] && rest == s[|number|..]
    ensures p == ParseNumber(read, s)
    ensures Converted(read, number, sign).Done? ==> p == Done(Converted(read, number, sign).value, rest)
    ensures Converted(read, number, sign).Fail? ==> p == Fail(Converted(read, number, sign).error)
  {
    p := ParseNumber(read, s);
    assert number[0..] == number;
  }

  method ConvertNumber(read: FloatReader, number: string, isFloat: bool, ghost sign: nat)
    returns (r: Result<Json, ParseError>)
    requires sign <= |number| && sign <= 1 && (isFloat <==> !AllDigits(number[sign..]))
    requires !isFloat && number != "" ==> (number[0] == '-' <==> sign == 1)
    ensures r.Ok? ==> Converted(read, number, sign) == Done(r.value, "")
    ensures r.Err? ==> Converted(read, number, sign) == Fail(r.error)
  {
    if number == "" || number == "-" { return Err(InvalidNumber); }
    if isFloat {
      r := ReadFloat(read, number);
      return;
    }
    var i: int := if number[0] == '-' then 0 - Value(number[1..]) else Value(number[0..]);
    if -0x8000_0000_0000_0000 <= i < 0x8000_0000_0000_0000 {
      r := Ok(Int(i));
    } else {
      r := ReadFloat(read, number);
    }
  }

  method ReadNumber(read: FloatReader, text: string, pos: nat) returns (r: Result<Json, ParseError>, next: nat)
    requires pos <= |text|
    ensures At(ParseNumber(read, text[pos..]), r, text, next)
  {
    next := pos;
    if next < |text| && text[next] == '-' { next := next + 1; }
    ghost var first := next;
    var end, isFloat := SkipNumber(text, next);
    next := end;
    var number := text[pos..next];
    NumberText(text, pos, first, next);
    r := ConvertNumber(read, number, isFloat, first - pos);
    NumberAt(read, text, pos, first, next, r);
  }

  lemma NumberAt(read: FloatReader, text: string, pos: nat, first: nat, next: nat, r: Result<Json, ParseError>)
    requires pos <= first <= next <= |text| && first - pos == SignLength(text[pos..])
    requires NumberLength(text[first..]) == next - first
    requires r.Ok? ==> Converted(read, text[pos..next], first - pos) == Done(r.value, "")
    requires r.Err? ==> Converted(read, text[pos..next], first - pos) == Fail(r.error)
    ensures At(ParseNumber(read, text[pos..]), r, text, next)
  {
    Slice(text, pos, first, next);
    var p := ParseNumberConverts(read, text[pos..], first - pos, text[pos..next], text[next..]);
  }

  lemma NumberText(text: string, pos: nat, first: nat, next: nat)
    requires pos <= first <= next <= |text| && first - pos == SignLength(text[pos..])
    ensures text[pos..][first - pos..] == text[first..]
    ensures text[pos..][..next - pos] == text[pos..next] && text[pos..][next - pos..] == text[next..]
    ensures text[pos..next][first - pos..] == text[first..next]
    ensures pos < next && AllDigits(text[first..next]) ==> (text[pos] == '-' <==> first == pos + 1)
  {
    Slice(text, pos, first, next);
    if first < next { assert text[first..next][0] == text[first]; }
  }

  lemma Slice(text: string, pos: nat, first: nat, next: nat)
    requires pos <= first <= next <= |text|
    ensures text[pos..][first - pos..] == text[first..]
    ensures text[pos..][..next - pos] == text[pos..next] && text[pos..][next - pos..] == text[next..]
    ensures text[pos..next][first - pos..] == text[first..next]
  {
  }

  /** The number loop, noting whether anything but a digit went by. */
  method SkipNumber(text: string, pos: nat) returns (next: nat, isFloat: bool)
    requires pos <= |text|
    ensures pos <= next <= |text| && next - pos == NumberLength(text[pos..])
    ensures isFloat <==> !AllDigits(text[pos..next])
  {
    next, isFloat := pos, false;
    while next < |text| && NumberChar(text[next])
      invariant pos <= next <= |text|
      invariant (next - pos) + NumberLength(text[next..]) == NumberLength(text[pos..])
      invariant isFloat <==> !AllDigits(text[pos..next])
    {
      NumberStep(text, pos, next);
      if !IsDigit(text[next]) { isFloat := true; }
      next := next + 1;
    }
    if next < |text| { Tail(text, next); }
  }

  lemma NumberStep(text: string, pos: nat, next: nat)
    requires pos <= next < |text| && NumberChar(text[next])
    ensures NumberLength(text[next..]) == 1 + NumberLength(text[next + 1..])
    ensures AllDigits(text[pos..next + 1]) <==> AllDigits(text[pos..next]) && IsDigit(text[next])
  {
    Tail(text, next);
    var s, t := text[pos..next], text[pos..next + 1];
    assert t[|s|] == text[next];
    assert forall i | 0 <= i < |s| :: t[i] == s[i];
  }

  method ReadFloat(read: FloatReader, number: string) returns (r: Result<Json, ParseError>)
    ensures r == match read(number) case Some(f) => Ok(Float(f)) case None => Err(InvalidNumber)
  {
    match read(number)
    case Some(f) => r := Ok(Float(f));
    case None => r := Err(InvalidNumber);
  }

  method ReadString(text: string, pos: nat) returns (r: Result<string, ParseError>, next: nat)
    requires pos <= |text|
    ensures At(ParseString(text[pos..]), r, text, next)
  {
    if pos == |text| || text[pos] != '"' { return Err(ExpectedString), pos; }
    Tail(text, pos);
    next := pos + 1;
    var out := "";
    ghost var p := ParseChars(text[next..], out);
    while true
      invariant next <= |text| && ParseChars(text[next..], out) == p
      decreases |text| - next
    {
      if next == |text| { return Err(UnterminatedString), next; }
      if text[next] == '"' {
        CharsStep(text, next, out);
        return Ok(out), next + 1;
      }
      var c, after := ReadChar(text, next, out);
      if c.Err? { return Err(c.error), after; }
      out, next := out + [c.value], after;
    }
  }

  /** One character of a string, escaped or not. */
  method ReadChar(text: string, pos: nat, ghost out: string) returns (r: Result<char, ParseError>, next: nat)
    requires pos < |text| && text[pos] != '"'
    ensures r.Ok? ==> pos < next <= |text| && ParseChars(text[pos..], out) == ParseChars(text[next..], out + [r.value])
    ensures r.Err? ==> ParseChars(text[pos..], out) == Fail(r.error)
  {
    CharsStep(text, pos, out);
    if text[pos] == '\\' {
      r, next := ReadEscape(text, pos + 1);
    } else {
      r, next := Ok(text[pos]), pos + 1;
    }
  }

  /** One turn of the string loop. */
  lemma {:induction false} CharsStep(text: string, pos: nat, out: string)
    requires pos < |text|
    ensures var s, t := text[pos..], text[pos + 1..];
            && (text[pos] == '"' ==> ParseChars(s, out) == Done(out, t))
            && (text[pos] == '\\' && ParseEscape(t).Fail? ==> ParseChars(s, out) == Fail(ParseEscape(t).error))
            && (text[pos] == '\\' && ParseEscape(t).Done? ==>
                  ParseChars(s, out) == ParseChars(ParseEscape(t).rest, out + [ParseEscape(t).value]))
            && (text[pos] != '"' && text[pos] != '\\' ==> ParseChars(s, out) == ParseChars(t, out + [text[pos]]))
  {
    Tail(text, pos);
  }

  method ReadEscape(text: string, pos: nat) returns (r: Result<char, ParseError>, next: nat)
    requires pos <= |text|
    ensures At(ParseEscape(text[pos..]), r, text, next)
    ensures r.Ok? ==> pos < next
  {
    if pos == |text| { return Err(InvalidEscape), pos; }
    Tail(text, pos);
    next := pos + 1;
    match text[pos]
    case '"' => r := Ok('"');
    case '\\' => r := Ok('\\');
    case '/' => r := Ok('/');
    case 'b' => r := Ok('\U{0008}');
    case 'f' => r := Ok('\U{000C}');
    case 'n' => r := Ok('\n');
    case 'r' => r := Ok('\r');
    case 't' => r := Ok('\t');
    case 'u' => r, next := ReadUnicode(text, pos + 1);
    case _ => r := Err(InvalidEscape);
  }

  method ReadUnicode(text: string, pos: nat) returns (r: Result<char, ParseError>, next: nat)
    requires pos <= |text|
    ensures At(ParseUnicode(text[pos..]), r, text, next)
    ensures r.Ok? ==> pos < next
  {
    next := pos;
    if |text| < pos + 4 { return Err(BadUnicodeEscape), next; }
    assert text[pos..][..4] == text[pos..pos + 4] && text[pos..][4..] == text[pos + 4..];
    var hex := HexNumber(text[pos..pos + 4]);
    if hex.None? { return Err(BadUnicodeEscape), next; }
    next := pos + 4;
    var code := hex.value;
    if !(0xd800 <= code < 0xdc00) { return Ok(CharOf(code)), next; }
    ghost var rest := text[next..];
    PrefixAt(text, next, "\\u");
    if |text| < next + 2 || text[next..next + 2] != "\\u" {
      return Ok(REPLACEMENT), next;
    }
    if |text| < next + 6 { return Err(BadSurrogate), next; }
    assert rest[2..6] == text[next + 2..next + 6] && rest[6..] == text[next + 6..];
    var lowHex := HexNumber(text[next + 2..next + 6]);
    if lowHex.None? { return Err(BadSurrogate), next; }
    var low := lowHex.value;
    if 0xdc00 <= low < 0xe000 {
      r, next := Ok((0x10000 + (code - 0xd800) * 0x400 + (low - 0xdc00)) as char), next + 6;
    } else {
      r := Ok(REPLACEMENT);
    }
  }

  method ReadValue(read: FloatReader, text: string, pos: nat) returns (r: Result<Json, ParseError>, next: nat)
    requires pos <= |text|
    ensures At(ParseValue(read, text[pos..]), r, text, next)
    decreases |text| - pos, 1
  {
    next := SkipWs(text, pos);
    if next == |text| { return Err(UnexpectedEnd), next; }
    Tail(text, next);
    match text[next]
    case '{' => r, next := ReadObject(read, text, next);
    case '[' => r, next := ReadArray(read, text, next);
    case '"' =>
      var s, after := ReadString(text, next);
      next := after;
      match s {
        case Ok(x) => r := Ok(Str(x));
        case Err(e) => r := Err(e);
      }
    case 't' => r, next := ReadLiteral(text, next, "true", Bool(true));
    case 'f' => r, next := ReadLiteral(text, next, "false", Bool(false));
    case 'n' => r, next := ReadLiteral(text, next, "null", Null);
    case _ => r, next := ReadNumber(read, text, next);
  }

  method ReadArray(read: FloatReader, text: string, pos: nat) returns (r: Result<Json, ParseError>, next: nat)
    requires pos < |text|
    ensures At(ParseArray(read, text[pos..]), r, text, next)
    decreases |text| - pos, 0
  {
    Tail(text, pos);
    next := SkipWs(text, pos + 1);
    if next < |text| && text[next] == ']' {
      Tail(text, next);
      return Ok(Arr([])), next + 1;
    }
    r, next := ReadItems(read, text, next);
  }

  /** The loop over the items of an array. */
  method ReadItems(read: FloatReader, text: string, pos: nat) returns (r: Result<Json, ParseError>, next: nat)
    requires pos <= |text|
    ensures At(ParseItems(read, text[pos..], []), r, text, next)
    decreases |text| - pos, 3
  {
    var items: seq<Json> := [];
    next := pos;
    ghost var p := ParseItems(read, text[pos..], items);
    while true
      invariant pos <= next <= |text|
      invariant ParseItems(read, text[next..], items) == p
      decreases |text| - next
    {
      var more, after := ReadItem(read, text, next, items);
      if more.Err? { return Err(more.error), after; }
      items := more.value;
      next := SkipWs(text, after);
      if next < |text| { Tail(text, next); }
      if next < |text| && text[next] == ',' {
        next := next + 1;
      } else if next < |text| && text[next] == ']' {
        return Ok(Arr(items)), next + 1;
      } else {
        return Err(ExpectedCommaOrBracket), next;
      }
    }
  }

  /** One item, pushed onto the list. */
  method ReadItem(read: FloatReader, text: string, pos: nat, items: seq<Json>)
    returns (r: Result<seq<Json>, ParseError>, next: nat)
    requires pos <= |text|
    ensures r.Err? ==> ParseItems(read, text[pos..], items) == Fail(r.error)
    ensures r.Ok? ==> pos < next <= |text|
                      && ParseItems(read, text[pos..], items) == AfterItem(read, SkipSpace(text[next..]), r.value)
    decreases |text| - pos, 2
  {
    ItemsStep(read, text[pos..], items);
    var v, after := ReadValue(read, text, pos);
    next := after;
    if v.Err? { return Err(v.error), next; }
    assert |text[next..]| < |text[pos..]|;
    r := Ok(items + [v.value]);
  }

  ghost function AfterItem(read: FloatReader, t: string, items: seq<Json>): Parsed<Json> {
    if StartsWith(t, ',') then ParseItems(read, t[1..], items)
    else if StartsWith(t, ']') then Done(Arr(items), t[1..])
    else Fail(ExpectedCommaOrBracket)
  }

  /** One turn of the array loop. */
  lemma {:induction false} ItemsStep(read: FloatReader, s: string, items: seq<Json>)
    ensures var v := ParseValue(read, s);
            && (v.Fail? ==> ParseItems(read, s, items) == Fail(v.error))
            && (v.Done? ==> ParseItems(read, s, items) == AfterItem(read, SkipSpace(v.rest), items + [v.value]))
  {
  }

  method ReadObject(read: FloatReader, text: string, pos: nat) returns (r: Result<Json, ParseError>, next: nat)
    requires pos < |text|
    ensures At(ParseObject(read, text[pos..]), r, text, next)
    decreases |text| - pos, 0
  {
    Tail(text, pos);
    next := SkipWs(text, pos + 1);
    if next < |text| && text[next] == '}' {
      Tail(text, next);
      return Ok(Obj([])), next + 1;
    }
    var members: seq<Entry<Json>> := [];
    ghost var p := ParseMembers(read, text[next..], members);
    while true
      invariant pos < next <= |text|
      invariant ParseMembers(read, text[next..], members) == p
      decreases |text| - next
    {
      var more, after := ReadMember(read, text, next, members);
      if more.Err? { return Err(more.error), after; }
      members := more.value;
      next := SkipWs(text, after);
      if next < |text| { Tail(text, next); }
      if next < |text| && text[next] == ',' {
        next := next + 1;
      } else if next < |text| && text[next] == '}' {
        return Ok(Obj(members)), next + 1;
      } else {
        return Err(ExpectedCommaOrBrace), next;
      }
    }
  }

  /** One key and value, inserted into the map. */
  method ReadMember(read: FloatReader, text: string, pos: nat, members: seq<Entry<Json>>)
    returns (r: Result<seq<Entry<Json>>, ParseError>, next: nat)
    requires pos <= |text|
    ensures r.Err? ==> ParseMembers(read, text[pos..], members) == Fail(r.error)
    ensures r.Ok? ==> pos < next <= |text|
                      && ParseMembers(read, text[pos..], members) == AfterMember(read, SkipSpace(text[next..]), r.value)
    decreases |text| - pos, 2
  {
    MembersStep(read, text[pos..], members);
    var key, afterColon := ReadKey(text, pos);
    if key.Err? { return Err(key.error), afterColon; }
    assert |text[afterColon..]| < |text[pos..]|;
    var v, after := ReadValue(read, text, afterColon);
    if v.Err? { return Err(v.error), after; }
    assert |text[after..]| < |text[afterColon..]|;
    r, next := Ok(Insert(members, key.value, v.value)), after;
  }

  /** A key and its colon, on the text. */
  ghost function ParseKey(s: string): (p: Parsed<string>)
    ensures p.Done? ==> |p.rest| < |s|
  {
    match ParseString(SkipSpace(s))
    case Fail(e) => Fail(e)
    case Done(key, afterKey) =>
      var colon := SkipSpace(afterKey);
      if StartsWith(colon, ':') then Done(key, colon[1..]) else Fail(ExpectedColon)
  }

  method ReadKey(text: string, pos: nat) returns (r: Result<string, ParseError>, next: nat)
    requires pos <= |text|
    ensures At(ParseKey(text[pos..]), r, text, next)
  {
    next := SkipWs(text, pos);
    var key, afterKey := ReadString(text, next);
    if key.Err? { return Err(key.error), afterKey; }
    next := SkipWs(text, afterKey);
    if next == |text| || text[next] != ':' {
      if next < |text| { Tail(text, next); }
      return Err(ExpectedColon), next;
    }
    Tail(text, next);
    r, next := key, next + 1;
  }

  /** One turn of the object loop. */
  lemma {:induction false} MembersStep(read: FloatReader, s: string, members: seq<Entry<Json>>)
    ensures var k := ParseKey(s);
            && (k.Fail? ==> ParseMembers(read, s, members) == Fail(k.error))
            && (k.Done? ==>
                  var v := ParseValue(read, k.rest);
                  && (v.Fail? ==> ParseMembers(read, s, members) == Fail(v.error))
                  && (v.Done? ==> ParseMembers(read, s, members)
                                  == AfterMember(read, SkipSpace(v.rest), Insert(members, k.value, v.value))))
  {
  }

  ghost function AfterMember(read: FloatReader, t: string, members: seq<Entry<Json>>): Parsed<Json> {
    if StartsWith(t, ',') then ParseMembers(read, t[1..], members)
    else if StartsWith(t, '}') then Done(Obj(members), t[1..])
    else Fail(ExpectedCommaOrBrace)
  }

  /** `parse`: the whole text must be one value. */
  method ReadDocument(read: FloatReader, text: string) returns (r: Result<Json, ParseError>)
    ensures r == Parse(read, text)
  {
    assert text[0..] == text;
    var v, pos := ReadValue(read, text, 0);
    if v.Err? { return Err(v.error); }
    pos := SkipWs(text, pos);
    if pos != |text| { return Err(TrailingData); }
    r := v;
  }

  // ----- the serializer -----

  method WriteEscaped(out: string, s: string) returns (result: string)
    ensures result == out + Quote(s)
  {
    result := out + "\"";
    for i := 0 to |s|
      invariant result + Escape(s[i..]) == out + "\"" + Escape(s)
    {
      assert s[i..][1..] == s[i + 1..];
      assert result + EscapeChar(s[i]) + Escape(s[i + 1..]) == result + Escape(s[i..]);
      result := result + EscapeChar(s[i]);
    }
    assert s[|s|..] == "";
    Bracketed(out, "\"", Escape(s), "\"");
    result := result + "\"";
  }

  /** `write`: append the printed value to the buffer. */
  method Write(out: string, v: Json) returns (result: string)
    ensures result == out + Print(v)
    decreases v, 1
  {
    match v
    case Null => result := out + "null";
    case Bool(true) => result := out + "true";
    case Bool(false) => result := out + "false";
    case Int(i) => result := out + PrintInt(i);
    case Float(f) => result := out + f;
    case Str(s) => result := WriteEscaped(out, s);
    case Arr(items) => result := WriteItems(out, items);
    case Obj(members) => result := WriteMembers(out, members);
  }

  method WriteItems(out: string, items: seq<Json>) returns (result: string)
    ensures result == out + ("[" + PrintItems(items, true) + "]")
    decreases items, 2
  {
    result := out + "[";
    for i := 0 to |items|
      invariant result + PrintItems(items[i..], i == 0) == out + "[" + PrintItems(items, true)
    {
      assert items[i..][1..] == items[i + 1..];
      ghost var before := result;
      if i > 0 { result := result + ","; }
      result := Write(result, items[i]);
      WriteStep(before, if i == 0 then "" else ",", Print(items[i]), PrintItems(items[i + 1..], false));
    }
    assert items[|items|..] == [];
    Bracketed(out, "[", PrintItems(items, true), "]");
    result := result + "]";
  }

  method WriteMembers(out: string, members: seq<Entry<Json>>) returns (result: string)
    ensures result == out + ("{" + PrintMembers(members, true) + "}")
    decreases members, 2
  {
    result := out + "{";
    for i := 0 to |members|
      invariant result + PrintMembers(members[i..], i == 0) == out + "{" + PrintMembers(members, true)
    {
      assert members[i..][1..] == members[i + 1..];
      ghost var before := result;
      if i > 0 { result := result + ","; }
      result := WriteEscaped(result, members[i].key);
      result := result + ":";
      result := Write(result, members[i].value);
      WriteMember(before, if i == 0 then "" else ",", Quote(members[i].key), Print(members[i].value),
                  PrintMembers(members[i + 1..], false));
    }
    assert members[|members|..] == [];
    Bracketed(out, "{", PrintMembers(members, true), "}");
    result := result + "}";
  }

  lemma Bracketed(out: string, open: string, body: string, close: string)
    ensures out + open + body + close == out + (open + body + close)
    ensures body + "" == body
  {
  }

  lemma WriteStep(before: string, comma: string, text: string, rest: string)
    ensures before + comma + text + rest == before + (comma + text + rest)
    ensures before + "" == before
  {
  }

  lemma WriteMember(before: string, comma: string, key: string, value: string, rest: string)
    ensures before + comma + key + ":" + value + rest == before + (comma + key + ":" + value + rest)
    ensures before + "" == before
  {
  }
}
