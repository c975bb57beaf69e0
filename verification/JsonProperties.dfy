/** What holds of every text the parser accepts and every text the printer writes. */
module JsonProperties {
  import opened Json
  import opened JsonRoundTrip
  import opened SortedMap

  // ----- parsed objects are sorted maps -----

  lemma {:induction false} ParsedProper(read: FloatReader, s: string)
    ensures var p := ParseValue(read, s); p.Done? ==> Proper(p.value)
    decreases |s|, 2
  {
    var t := SkipSpace(s);
    if StartsWith(t, '[') {
      var u := SkipSpace(t[1..]);
      if !StartsWith(u, ']') { ParsedItemsProper(read, u, []); }
    } else if StartsWith(t, '{') {
      var u := SkipSpace(t[1..]);
      if !StartsWith(u, '}') { ParsedMembersProper(read, u, []); }
    } else {
      ParsedScalar(read, s);
    }
  }

  lemma {:induction false} ParsedScalar(read: FloatReader, s: string)
    requires !StartsWith(SkipSpace(s), '[') && !StartsWith(SkipSpace(s), '{')
    ensures var p := ParseValue(read, s); p.Done? ==> !p.value.Arr? && !p.value.Obj?
  {
  }

  lemma {:induction false} ParsedItemsProper(read: FloatReader, s: string, items: seq<Json>)
    requires forall i | 0 <= i < |items| :: Proper(items[i])
    ensures var p := ParseItems(read, s, items); p.Done? ==> Proper(p.value)
    decreases |s|, 3
  {
    ParsedProper(read, s);
    match ParseValue(read, s)
    case Fail(_) =>
    case Done(v, rest) =>
      if StartsWith(SkipSpace(rest), ',') { ParsedItemsProper(read, SkipSpace(rest)[1..], items + [v]); }
  }

  ghost predicate ProperMembers(members: seq<Entry<Json>>) {
    Sorted(members) && forall i | 0 <= i < |members| :: Proper(members[i].value)
  }

  lemma {:induction false} InsertProper(members: seq<Entry<Json>>, key: string, v: Json)
    requires ProperMembers(members) && Proper(v)
    ensures ProperMembers(Insert(members, key, v))
  {
    InsertSorted(members, key, v);
    InsertValues(members, key, v);
  }

  /** An insertion brings in no other value. */
  lemma {:induction false} InsertValues(members: seq<Entry<Json>>, key: string, v: Json)
    ensures var r := Insert(members, key, v);
            forall i | 0 <= i < |r| :: r[i].value == v || r[i] in members
  {
    var r := Insert(members, key, v);
    forall i | 0 <= i < |r|
      ensures r[i].value == v || r[i] in members
    {
      InsertValue(members, key, v, i);
    }
  }

  lemma {:induction false} InsertValue(members: seq<Entry<Json>>, key: string, v: Json, i: nat)
    requires i < |Insert(members, key, v)|
    ensures Insert(members, key, v)[i].value == v || Insert(members, key, v)[i] in members
  {
    if members != [] && members[0].key != key && !Less(key, members[0].key) {
      var rest := Insert(members[1..], key, v);
      assert Insert(members, key, v) == [members[0]] + rest;
      if i > 0 {
        InsertValue(members[1..], key, v, i - 1);
        assert rest[i - 1] in members[1..] ==> rest[i - 1] in members;
      }
    } else if members != [] && members[0].key == key {
      assert Insert(members, key, v) == [Entry(key, v)] + members[1..];
    } else {
      assert Insert(members, key, v) == [Entry(key, v)] + members;
    }
  }

  lemma {:induction false} ParsedMembersProper(read: FloatReader, s: string, members: seq<Entry<Json>>)
    requires ProperMembers(members)
    ensures var p := ParseMembers(read, s, members); p.Done? ==> Proper(p.value)
    decreases |s|, 3
  {
    match ParseString(SkipSpace(s))
    case Fail(_) =>
    case Done(key, afterKey) =>
      var colon := SkipSpace(afterKey);
      if StartsWith(colon, ':') {
        ParsedProper(read, colon[1..]);
        match ParseValue(read, colon[1..])
        case Fail(_) =>
        case Done(v, rest) =>
          var more := Insert(members, key, v);
          InsertProper(members, key, v);
          if StartsWith(SkipSpace(rest), ',') { ParsedMembersProper(read, SkipSpace(rest)[1..], more); }
      }
  }

  // ----- parsed floats read back -----

  /** Reading the display of a number that was read gives that number again. */
  ghost predicate Settled(read: FloatReader) {
    forall text :: read(text).Some? && read(text).value != "null" ==> read(read(text).value) == read(text)
  }

  lemma NumberReadsBack(read: FloatReader, s: string)
    requires Settled(read)
    ensures var p := ParseNumber(read, s); p.Done? ==> ReadsBack(read, p.value)
  {
    var text := s[..SignLength(s) + NumberLength(s[SignLength(s)..])];
    if read(text).Some? && read(text).value != "null" { assert read(read(text).value) == read(text); }
  }

  lemma {:induction false} ScalarReadsBack(read: FloatReader, s: string)
    requires Settled(read) && !StartsWith(SkipSpace(s), '[') && !StartsWith(SkipSpace(s), '{')
    ensures var p := ParseValue(read, s); p.Done? ==> ReadsBack(read, p.value)
  {
    NumberReadsBack(read, SkipSpace(s));
  }

  /** So every float in a parsed value reads back, as the round trip asks. */
  lemma {:induction false} ParsedReadsBack(read: FloatReader, s: string)
    requires Settled(read)
    ensures var p := ParseValue(read, s); p.Done? ==> ReadsBack(read, p.value)
    decreases |s|, 2
  {
    var t := SkipSpace(s);
    if StartsWith(t, '[') {
      var u := SkipSpace(t[1..]);
      if !StartsWith(u, ']') { ParsedItemsReadBack(read, u, []); }
    } else if StartsWith(t, '{') {
      var u := SkipSpace(t[1..]);
      if !StartsWith(u, '}') { ParsedMembersReadBack(read, u, []); }
    } else {
      ScalarReadsBack(read, s);
    }
  }

  lemma {:induction false} ParsedItemsReadBack(read: FloatReader, s: string, items: seq<Json>)
    requires Settled(read) && forall i | 0 <= i < |items| :: ReadsBack(read, items[i])
    ensures var p := ParseItems(read, s, items); p.Done? ==> ReadsBack(read, p.value)
    decreases |s|, 3
  {
    ParsedReadsBack(read, s);
    match ParseValue(read, s)
    case Fail(_) =>
    case Done(v, rest) =>
      if StartsWith(SkipSpace(rest), ',') { ParsedItemsReadBack(read, SkipSpace(rest)[1..], items + [v]); }
  }

  lemma {:induction false} InsertReadsBack(read: FloatReader, members: seq<Entry<Json>>, key: string, v: Json)
    requires ReadsBack(read, Obj(members)) && ReadsBack(read, v)
    ensures ReadsBack(read, Obj(Insert(members, key, v)))
  {
    InsertValues(members, key, v);
  }

  lemma {:induction false} ParsedMembersReadBack(read: FloatReader, s: string, members: seq<Entry<Json>>)
    requires Settled(read) && ReadsBack(read, Obj(members))
    ensures var p := ParseMembers(read, s, members); p.Done? ==> ReadsBack(read, p.value)
    decreases |s|, 3
  {
    match ParseString(SkipSpace(s))
    case Fail(_) =>
    case Done(key, afterKey) =>
      var colon := SkipSpace(afterKey);
      if StartsWith(colon, ':') {
        ParsedReadsBack(read, colon[1..]);
        match ParseValue(read, colon[1..])
        case Fail(_) =>
        case Done(v, rest) =>
          InsertReadsBack(read, members, key, v);
          if StartsWith(SkipSpace(rest), ',') {
            ParsedMembersReadBack(read, SkipSpace(rest)[1..], Insert(members, key, v));
          }
      }
  }

  // ----- printed text has no control characters -----

  predicate Visible(s: string) {
    forall i | 0 <= i < |s| :: ' ' <= s[i]
  }

  lemma VisibleConcat(a: string, b: string)
    requires Visible(a) && Visible(b)
    ensures Visible(a + b)
  {
  }

  lemma {:induction false} EscapeVisible(s: string)
    ensures Visible(Escape(s))
  {
    if s != "" {
      EscapeVisible(s[1..]);
      assert Visible(EscapeChar(s[0]));
      VisibleConcat(EscapeChar(s[0]), Escape(s[1..]));
    }
  }

  lemma QuoteVisible(s: string)
    ensures Visible(Quote(s))
  {
    EscapeVisible(s);
  }

  lemma FloatVisible(f: Float64)
    ensures Visible(f) && f != ""
  {
    if f != "null" { FiniteIsNumber(f); }
  }

  /** No printed value contains a newline or any other control character, and none is empty. */
  lemma {:induction false} PrintVisible(v: Json)
    ensures Visible(Print(v)) && Print(v) != ""
    decreases v, 0
  {
    match v
    case Float(f) => FloatVisible(f);
    case Str(s) => QuoteVisible(s);
    case Arr(items) =>
      ItemsVisible(items, true);
      VisibleBetween("[", PrintItems(items, true), "]");
    case Obj(members) =>
      MembersVisible(members, true);
      VisibleBetween("{", PrintMembers(members, true), "}");
    case _ => WordVisible(v);
  }

  lemma VisibleBetween(open: string, body: string, close: string)
    requires Visible(open) && Visible(body) && Visible(close)
    ensures Visible(open + body + close)
  {
  }

  lemma {:induction false} WordVisible(v: Json)
    requires v.Null? || v.Bool? || v.Int?
    ensures Visible(Print(v)) && Print(v) != ""
  {
  }

  lemma {:induction false} ItemsVisible(items: seq<Json>, first: bool)
    ensures Visible(PrintItems(items, first))
    decreases items, 1
  {
    if items != [] {
      PrintVisible(items[0]);
      ItemsVisible(items[1..], false);
    }
  }

  lemma {:induction false} MembersVisible(members: seq<Entry<Json>>, first: bool)
    ensures Visible(PrintMembers(members, first))
    decreases members, 1
  {
    if members != [] {
      QuoteVisible(members[0].key);
      PrintVisible(members[0].value);
      MembersVisible(members[1..], false);
    }
  }

  // ----- the parser is self-delimiting -----

  lemma Split(s: string, more: string, k: nat)
    requires k <= |s|
    ensures (s + more)[k..] == s[k..] + more && (s + more)[..k] == s[..k]
  {
  }

  lemma {:induction false} SkipSpaceExtend(s: string, more: string)
    requires SkipSpace(s) != ""
    ensures SkipSpace(s + more) == SkipSpace(s) + more
  {
    if s != "" && IsSpace(s[0]) {
      Split(s, more, 1);
      SkipSpaceExtend(s[1..], more);
    }
  }

  lemma {:induction false} NumberLengthExtend(s: string, more: string)
    requires NumberLength(s) < |s|
    ensures NumberLength(s + more) == NumberLength(s)
  {
    if NumberChar(s[0]) {
      Split(s, more, 1);
      NumberLengthExtend(s[1..], more);
    }
  }

  lemma NumberExtend(read: FloatReader, s: string, more: string)
    requires ParseNumber(read, s).Done? && ParseNumber(read, s).rest != ""
    ensures ParseNumber(read, s + more) == Done(ParseNumber(read, s).value, ParseNumber(read, s).rest + more)
  {
    var sign := SignLength(s);
    assert SignLength(s + more) == sign;
    Split(s, more, sign);
    NumberLengthExtend(s[sign..], more);
    Split(s, more, sign + NumberLength(s[sign..]));
  }

  /** What is left after an escape inside a string that does end. */
  predicate NotCutShort(rest: string) {
    rest != "" && rest != "\\"
  }

  lemma UnicodeExtend(s: string, more: string)
    requires ParseUnicode(s).Done? && NotCutShort(ParseUnicode(s).rest)
    ensures ParseUnicode(s + more) == Done(ParseUnicode(s).value, ParseUnicode(s).rest + more)
  {
    Split(s, more, 4);
    var rest := s[4..];
    if 6 <= |rest| {
      Split(rest, more, 6);
      assert (rest + more)[2..6] == rest[2..6];
    }
    if 2 <= |rest| {
      assert "\\u" <= rest + more <==> "\\u" <= rest;
    } else if 1 == |rest| {
      assert (rest + more)[0] == rest[0];
    }
  }

  lemma EscapeExtend(s: string, more: string)
    requires ParseEscape(s).Done? && NotCutShort(ParseEscape(s).rest)
    ensures ParseEscape(s + more) == Done(ParseEscape(s).value, ParseEscape(s).rest + more)
  {
    Split(s, more, 1);
    if s[0] == 'u' { UnicodeExtend(s[1..], more); }
  }

  lemma {:induction false} CharsExtend(s: string, more: string, out: string)
    requires ParseChars(s, out).Done?
    ensures ParseChars(s + more, out) == Done(ParseChars(s, out).value, ParseChars(s, out).rest + more)
    decreases |s|
  {
    Split(s, more, 1);
    if s[0] == '"' {
    } else if s[0] == '\\' {
      var p := ParseEscape(s[1..]);
      EscapeExtend(s[1..], more);
      CharsExtend(p.rest, more, out + [p.value]);
    } else {
      CharsExtend(s[1..], more, out + [s[0]]);
    }
  }

  lemma StringExtend(s: string, more: string)
    requires ParseString(s).Done?
    ensures ParseString(s + more) == Done(ParseString(s).value, ParseString(s).rest + more)
  {
    Split(s, more, 1);
    CharsExtend(s[1..], more, "");
  }

  /** Numbers end only where the text shows it. */
  predicate Delimited(p: Parsed<Json>) {
    p.Done? && (p.rest != "" || !(p.value.Int? || p.value.Float?))
  }

  function More(p: Parsed<Json>, more: string): Parsed<Json> {
    match p
    case Done(v, rest) => Done(v, rest + more)
    case Fail(e) => Fail(e)
  }

  lemma {:induction false} ScalarExtend(read: FloatReader, s: string, more: string)
    requires Delimited(ParseValue(read, s))
    requires !StartsWith(SkipSpace(s), '[') && !StartsWith(SkipSpace(s), '{')
    ensures ParseValue(read, s + more) == More(ParseValue(read, s), more)
  {
    var t := SkipSpace(s);
    SkipSpaceExtend(s, more);
    assert (t + more)[0] == t[0];
    match t[0]
    case '"' => StringExtend(t, more);
    case 't' => Split(t, more, 4);
    case 'f' => Split(t, more, 5);
    case 'n' => Split(t, more, 4);
    case _ => NumberExtend(read, t, more);
  }

  /**
   If a value is read from a text, any continuation gives the same value and stops at the same
   place; only a number that reaches the end of the text is excepted.
   */
  lemma {:induction false} ValueExtend(read: FloatReader, s: string, more: string)
    requires Delimited(ParseValue(read, s))
    ensures ParseValue(read, s + more) == More(ParseValue(read, s), more)
    decreases |s|, 2
  {
    var t := SkipSpace(s);
    if StartsWith(t, '[') {
      SkipSpaceExtend(s, more);
      ArrayExtend(read, t, more);
    } else if StartsWith(t, '{') {
      SkipSpaceExtend(s, more);
      ObjectExtend(read, t, more);
    } else {
      ScalarExtend(read, s, more);
    }
  }

  lemma {:induction false} ArrayExtend(read: FloatReader, t: string, more: string)
    requires t != "" && ParseArray(read, t).Done?
    ensures ParseArray(read, t + more) == More(ParseArray(read, t), more)
    decreases |t|, 1
  {
    Split(t, more, 1);
    var u := SkipSpace(t[1..]);
    if u != "" {
      SkipSpaceExtend(t[1..], more);
      Split(u, more, 1);
      if !StartsWith(u, ']') { ItemsExtend(read, u, [], more); }
    }
  }

  lemma {:induction false} ItemsExtend(read: FloatReader, s: string, items: seq<Json>, more: string)
    requires ParseItems(read, s, items).Done?
    ensures ParseItems(read, s + more, items) == More(ParseItems(read, s, items), more)
    decreases |s|, 3
  {
    var p := ParseValue(read, s);
    var t := SkipSpace(p.rest);
    assert p.rest != "";
    ValueExtend(read, s, more);
    SkipSpaceExtend(p.rest, more);
    Split(t, more, 1);
    if StartsWith(t, ',') { ItemsExtend(read, t[1..], items + [p.value], more); }
  }

  lemma {:induction false} ObjectExtend(read: FloatReader, t: string, more: string)
    requires t != "" && ParseObject(read, t).Done?
    ensures ParseObject(read, t + more) == More(ParseObject(read, t), more)
    decreases |t|, 1
  {
    Split(t, more, 1);
    var u := SkipSpace(t[1..]);
    if u != "" {
      SkipSpaceExtend(t[1..], more);
      Split(u, more, 1);
      if !StartsWith(u, '}') { MembersExtend(read, u, [], more); }
    }
  }

  lemma {:induction false} MembersExtend(read: FloatReader, s: string, members: seq<Entry<Json>>, more: string)
    requires ParseMembers(read, s, members).Done?
    ensures ParseMembers(read, s + more, members) == More(ParseMembers(read, s, members), more)
    decreases |s|, 3
  {
    var k := ParseString(SkipSpace(s));
    var colon := SkipSpace(k.rest);
    SkipSpaceExtend(s, more);
    StringExtend(SkipSpace(s), more);
    SkipSpaceExtend(k.rest, more);
    Split(colon, more, 1);
    var p := ParseValue(read, colon[1..]);
    var t := SkipSpace(p.rest);
    assert p.rest != "";
    ValueExtend(read, colon[1..], more);
    SkipSpaceExtend(p.rest, more);
    Split(t, more, 1);
    if StartsWith(t, ',') { MembersExtend(read, t[1..], Insert(members, k.value, p.value), more); }
  }

  /** No proper prefix of a printed object or array is a complete document. */
  lemma {:induction false} NoPrefixParses(read: FloatReader, v: Json, prefix: string)
    requires Readable(read, v) && (v.Arr? || v.Obj?)
    requires prefix <= Print(v) && prefix != Print(v)
    ensures Parse(read, prefix).Err?
  {
    var whole := Print(v);
    var more := whole[|prefix|..];
    assert whole == prefix + more;
    ParsePrinted(read, v, "");
    assert whole + "" == whole;
    if Parse(read, prefix).Ok? {
      assert prefix[0] == whole[0];
      BracketStart(read, prefix);
      ValueExtend(read, prefix, more);
    }
  }

  lemma {:induction false} BracketStart(read: FloatReader, s: string)
    requires s != "" && (s[0] == '[' || s[0] == '{') && ParseValue(read, s).Done?
    ensures ParseValue(read, s).value.Arr? || ParseValue(read, s).value.Obj?
  {
    assert SkipSpace(s) == s;
    var u := SkipSpace(s[1..]);
    if s[0] == '[' { ItemsAreArray(read, u, []); } else { MembersAreObject(read, u, []); }
  }

  lemma {:induction false} ItemsAreArray(read: FloatReader, s: string, items: seq<Json>)
    ensures ParseItems(read, s, items).Done? ==> ParseItems(read, s, items).value.Arr?
    decreases |s|
  {
    match ParseValue(read, s)
    case Fail(_) =>
    case Done(v, rest) =>
      if StartsWith(SkipSpace(rest), ',') { ItemsAreArray(read, SkipSpace(rest)[1..], items + [v]); }
  }

  lemma {:induction false} MembersAreObject(read: FloatReader, s: string, members: seq<Entry<Json>>)
    ensures ParseMembers(read, s, members).Done? ==> ParseMembers(read, s, members).value.Obj?
    decreases |s|
  {
    match ParseString(SkipSpace(s))
    case Fail(_) =>
    case Done(key, afterKey) =>
      var colon := SkipSpace(afterKey);
      if StartsWith(colon, ':') {
        match ParseValue(read, colon[1..])
        case Fail(_) =>
        case Done(v, rest) =>
          if StartsWith(SkipSpace(rest), ',') {
            MembersAreObject(read, SkipSpace(rest)[1..], Insert(members, key, v));
          }
      }
  }
}
