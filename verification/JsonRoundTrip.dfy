/** Printing then parsing gives the value back, whatever follows in the text and whatever white space is in it. */
module JsonRoundTrip {
  import opened Digits
  import opened Json
  import opened JsonReread
  import opened JsonSpelling
  import opened JsonText
  import opened SortedMap
  import opened Wrappers

  // ----- the printed form as a document -----

  /** How the printer spells a character. */
  function SpellingOf(c: char): (x: Spelled)
    ensures WellSpelled(x) && SpelledChar(x) == c && SpelledText(x) == EscapeChar(c)
  {
    match c
    case '"' => Short('"')
    case '\\' => Short('\\')
    case '\n' => Short('n')
    case '\r' => Short('r')
    case '\t' => Short('t')
    case _ => if c < ' ' then ControlSpelling(c) else Raw(c)
  }

  function ControlSpelling(c: char): (x: Spelled)
    requires c < ' '
    ensures WellSpelled(x) && SpelledChar(x) == c && SpelledText(x) == "\\u" + Hex4(c as int)
  {
    HexOfControl(c as int);
    Unicode(c as int, Hex4(c as int))
  }

  lemma HexOfDigit(d: nat)
    requires d < 16
    ensures IsHex(HexDigit(d), d)
  {
  }

  lemma HexOfControl(n: nat)
    requires n < 0x20
    ensures HexText(Hex4(n), n)
  {
    HexOfDigit(n / 16);
    HexOfDigit(n % 16);
    HexOfDigit(0);
    assert n / 4096 == 0 && n / 256 % 16 == 0 && n / 16 % 16 == n / 16;
  }

  function Spellings(s: string): (q: seq<Spelled>)
    ensures AllWellSpelled(q) && |q| == |s|
  {
    if s == "" then [] else [SpellingOf(s[0])] + Spellings(s[1..])
  }

  lemma {:induction false} SpellingsRead(s: string)
    ensures Chars(Spellings(s)) == s && Text(Spellings(s)) == Escape(s)
  {
    if s != "" {
      var x, q := SpellingOf(s[0]), Spellings(s[1..]);
      SpellingsRead(s[1..]);
      assert Spellings(s) == [x] + q;
      ConsRead(x, q);
      assert s == [s[0]] + s[1..];
    }
  }

  lemma {:induction false} ConsRead(x: Spelled, q: seq<Spelled>)
    requires AllWellSpelled(q) && AllWellSpelled([x] + q)
    ensures WellSpelled(x) && Text([x] + q) == SpelledText(x) + Text(q)
    ensures Chars([x] + q) == [SpelledChar(x)] + Chars(q)
  {
    assert ([x] + q)[0] == x && ([x] + q)[1..] == q;
  }

  function Written(v: Json): Doc
    decreases v, 0
  {
    match v
    case Null => NullWord
    case Bool(b) => if b then TrueWord else FalseWord
    case Int(i) => Number(PrintInt(i), v)
    case Float(f) => if f == "null" then NullWord else Number(f, RereadFloat(f))
    case Str(s) => Quoted(Spellings(s))
    case Arr(items) => Array(WrittenItems(items))
    case Obj(members) => Object(WrittenFields(members))
  }

  function WrittenItems(items: seq<Json>): (ds: seq<Doc>)
    ensures |ds| == |items| && forall i | 0 <= i < |ds| :: ds[i] == Written(items[i])
    decreases items, 1
  {
    if items == [] then [] else [Written(items[0])] + WrittenItems(items[1..])
  }

  function WrittenFields(members: seq<Entry<Json>>): (fs: seq<Field>)
    ensures |fs| == |members|
    ensures forall i | 0 <= i < |fs| :: fs[i] == Field(Spellings(members[i].key), Written(members[i].value))
    decreases members, 1
  {
    if members == [] then []
    else [Field(Spellings(members[0].key), Written(members[0].value))] + WrittenFields(members[1..])
  }

  /** The tokens of the printed form. */
  function PrintTokens(v: Json): seq<string> {
    Tokens(Written(v))
  }

  function Concat(toks: seq<string>): string {
    if toks == [] then "" else toks[0] + Concat(toks[1..])
  }

  lemma {:induction false} ConcatOf(a: seq<string>, b: seq<string>)
    ensures Concat(a + b) == Concat(a) + Concat(b)
  {
    if a == [] {
      assert a + b == b;
    } else {
      assert (a + b)[1..] == a[1..] + b;
      ConcatOf(a[1..], b);
    }
  }

  lemma {:induction false} ConcatCons(tok: string, toks: seq<string>)
    ensures Concat([tok] + toks) == tok + Concat(toks)
  {
  }

  lemma ConcatOne(tok: string)
    ensures Concat([tok]) == tok
  {
    ConcatCons(tok, []);
    assert [tok] + [] == [tok];
  }

  lemma {:induction false} PrintIsTokens(v: Json)
    ensures Concat(PrintTokens(v)) == Print(v)
    decreases v, 0
  {
    match v
    case Arr(items) =>
      ItemsAreTokens(items, true);
      Bracketed("[", Closed(ItemTokens(WrittenItems(items)), "]"), PrintItems(items, true), "]");
    case Obj(members) =>
      MembersAreTokens(members, true);
      Bracketed("{", Closed(FieldTokens(WrittenFields(members)), "}"), PrintMembers(members, true), "}");
    case _ => ScalarIsToken(v);
  }

  lemma {:induction false} ScalarIsToken(v: Json)
    requires !v.Arr? && !v.Obj?
    ensures Concat(PrintTokens(v)) == Print(v)
  {
    if v.Str? { SpellingsRead(v.s); }
    assert PrintTokens(v) == [Print(v)];
    ConcatOne(Print(v));
  }

  lemma {:induction false} Bracketed(open: string, toks: seq<string>, body: string, close: string)
    requires Concat(toks) == body + close
    ensures Concat([open] + toks) == open + body + close
  {
    ConcatCons(open, toks);
    Wrapped(open, body, close);
  }

  lemma Wrapped(open: string, body: string, close: string)
    ensures open + (body + close) == open + body + close
  {
  }

  /** One part, with a comma before it unless it is the first. */
  lemma PartConcat(first: bool, part: seq<string>, rest: seq<string>, text: string, more: string)
    requires Concat(part) == text && Concat(rest) == more
    ensures Concat(if first then part + rest else [","] + (part + rest)) == (if first then "" else ",") + text + more
  {
    ConcatOf(part, rest);
    if first {
      assert "" + text + more == text + more;
    } else {
      ConcatCons(",", part + rest);
      assert "," + text + more == "," + (text + more);
    }
  }

  lemma {:induction false} ItemsAreTokens(items: seq<Json>, first: bool)
    ensures var parts := ItemTokens(WrittenItems(items));
            Concat(if first then Closed(parts, "]") else Others(parts, "]")) == PrintItems(items, first) + "]"
    decreases items, 1
  {
    var parts := ItemTokens(WrittenItems(items));
    if items == [] {
      ConcatOne("]");
    } else {
      var rest := ItemTokens(WrittenItems(items[1..]));
      PrintIsTokens(items[0]);
      ItemsAreTokens(items[1..], false);
      assert parts[0] == PrintTokens(items[0]) && parts[1..] == rest;
      PartConcat(first, parts[0], Others(rest, "]"), Print(items[0]), PrintItems(items[1..], false) + "]");
      Wrapped((if first then "" else ",") + Print(items[0]), PrintItems(items[1..], false), "]");
    }
  }

  lemma {:induction false} FieldConcat(key: string, v: Json)
    requires Concat(PrintTokens(v)) == Print(v)
    ensures Concat(KeyTokens(Spellings(key), PrintTokens(v))) == Quote(key) + ":" + Print(v)
  {
    var toks, quoted := PrintTokens(v), Quote(key);
    SpellingsRead(key);
    assert KeyTokens(Spellings(key), toks) == [quoted, ":"] + toks;
    KeyConcat(quoted, toks, Print(v));
  }

  lemma KeyConcat(quoted: string, toks: seq<string>, text: string)
    requires Concat(toks) == text
    ensures Concat([quoted, ":"] + toks) == quoted + ":" + text
  {
    ConcatCons(":", toks);
    ConcatCons(quoted, [":"] + toks);
    assert [quoted, ":"] + toks == [quoted] + ([":"] + toks);
    Wrapped(quoted, ":", text);
  }

  lemma {:induction false} MembersAreTokens(members: seq<Entry<Json>>, first: bool)
    ensures var parts := FieldTokens(WrittenFields(members));
            Concat(if first then Closed(parts, "}") else Others(parts, "}")) == PrintMembers(members, first) + "}"
    decreases members, 1
  {
    var parts := FieldTokens(WrittenFields(members));
    if members == [] {
      ConcatOne("}");
    } else {
      var m, more := members[0], PrintMembers(members[1..], false);
      var rest := FieldTokens(WrittenFields(members[1..]));
      PrintIsTokens(m.value);
      FieldConcat(m.key, m.value);
      MembersAreTokens(members[1..], false);
      assert parts[0] == KeyTokens(Spellings(m.key), PrintTokens(m.value)) && parts[1..] == rest;
      PartConcat(first, parts[0], Others(rest, "}"), Quote(m.key) + ":" + Print(m.value), more + "}");
      MemberText(if first then "" else ",", Quote(m.key), Print(m.value), more);
    }
  }

  lemma MemberText(comma: string, key: string, value: string, more: string)
    ensures comma + (key + ":" + value) + (more + "}") == comma + key + ":" + value + more + "}"
  {
  }

  // ----- what the printed form means -----

  /** A finite float is written in number characters and starts with a sign or a digit. */
  lemma FiniteIsNumber(f: Float64)
    requires f != "null"
    ensures NumberChars(f) && f != "" && f != "-" && (f[0] == '-' || IsDigit(f[0]))
  {
    var t := f[SignLength(f)..];
    var n := DigitCount(t);
    forall i | 0 <= i < |f|
      ensures NumberChar(f[i])
    {
      var k := i - SignLength(f);
      if 0 <= k < n {
        assert t[..n][k] == f[i];
      } else if n < k {
        assert t[n + 1..][k - n - 1] == f[i];
      }
    }
    assert t[..n][0] == t[0];
  }

  /**
   The reader reads this display as the number displayed, which a program's reader does for every
   `f64`. A number displayed as an integer within `i64` is not read as a float at all.
   */
  ghost predicate ReadsFloat(read: FloatReader, f: Float64) {
    f == "null" || IntegerOf(f).Some? || read(f) == Some(f)
  }

  /** Float-free, with sorted unique keys at every level. */
  ghost predicate Plain(v: Json) {
    FloatFree(v) && Proper(v)
  }

  ghost predicate AllPlain(items: seq<Json>) {
    forall i | 0 <= i < |items| :: Plain(items[i])
  }

  /** The reader reads back every float in this value. */
  ghost predicate ReadsBack(read: FloatReader, v: Json)
    decreases v
  {
    match v
    case Float(f) => ReadsFloat(read, f)
    case Arr(items) => forall i | 0 <= i < |items| :: ReadsBack(read, items[i])
    case Obj(members) => forall i | 0 <= i < |members| :: ReadsBack(read, members[i].value)
    case _ => true
  }

  lemma {:induction false} FloatFreeReadsBack(read: FloatReader, v: Json)
    requires FloatFree(v)
    ensures ReadsBack(read, v)
    decreases v
  {
    match v
    case Arr(items) =>
      forall i | 0 <= i < |items| {
        FloatFreeReadsBack(read, items[i]);
      }
    case Obj(members) =>
      forall i | 0 <= i < |members| {
        FloatFreeReadsBack(read, members[i].value);
      }
    case _ =>
  }

  ghost predicate Readable(read: FloatReader, v: Json) {
    Proper(v) && ReadsBack(read, v)
  }

  lemma AllInAlphabet(text: string)
    requires NumberChars(text)
    ensures forall i | 0 <= i < |text| :: text[i] in "0123456789+-.eE"
  {
    forall i | 0 <= i < |text|
      ensures text[i] in "0123456789+-.eE"
    {
      AlphabetOf(text[i]);
    }
  }

  lemma PrintedIntMeans(read: FloatReader, i: Int64)
    ensures NumberMeans(read, PrintInt(i), Int(i))
  {
    var digits := Decimal(if i < 0 then 0 - i else i);
    ValueOfPadded(if i < 0 then 0 - i else i, 0);
    assert i < 0 ==> PrintInt(i)[1..] == digits;
    AllInAlphabet(PrintInt(i));
  }

  lemma IntegerIsDecimal(f: Float64, i: Int64)
    requires f != "null" && f != "" && f != "-"
    ensures DecimalText(f, i) <==> IntegerOf(f) == Some(i)
  {
    DecimalIs(f, i);
  }

  lemma PrintedFloatMeans(read: FloatReader, f: Float64)
    requires ReadsFloat(read, f) && f != "null"
    ensures NumberMeans(read, f, RereadFloat(f))
  {
    FiniteIsNumber(f);
    AllInAlphabet(f);
    match IntegerOf(f)
    case Some(i) => IntegerIsDecimal(f, i);
    case None =>
      forall i: Int64
        ensures !DecimalText(f, i)
      {
        IntegerIsDecimal(f, i);
      }
  }

  /** What is written well, and means what the value comes back as. */
  lemma {:induction false} WrittenMeans(read: FloatReader, v: Json)
    requires Readable(read, v)
    ensures WellWritten(read, Written(v)) && Meaning(read, Written(v)) == Reread(v)
    decreases v
  {
    match v
    case Int(i) => PrintedIntMeans(read, i);
    case Float(f) => if f != "null" { PrintedFloatMeans(read, f); }
    case Str(s) => SpellingsRead(s);
    case Arr(items) =>
      forall i | 0 <= i < |items|
        ensures WrittenAs(read, items[i])
      {
        WrittenMeans(read, items[i]);
      }
      ItemsMean(read, items);
    case Obj(members) =>
      forall i | 0 <= i < |members|
        ensures WrittenAs(read, members[i].value)
      {
        WrittenMeans(read, members[i].value);
      }
      MembersMean(read, members);
    case _ =>
  }

  ghost predicate WrittenAs(read: FloatReader, v: Json) {
    WellWritten(read, Written(v)) && Meaning(read, Written(v)) == Reread(v)
  }

  lemma {:induction false} ItemsMean(read: FloatReader, items: seq<Json>)
    requires forall i | 0 <= i < |items| :: WrittenAs(read, items[i])
    ensures WellWritten(read, Array(WrittenItems(items))) && Meanings(read, WrittenItems(items)) == RereadItems(items)
  {
    var ds := WrittenItems(items);
    forall i | 0 <= i < |items|
      ensures WellWritten(read, ds[i]) && Meaning(read, ds[i]) == Reread(items[i])
    {
      assert WrittenAs(read, items[i]);
    }
  }

  lemma {:induction false} MembersMean(read: FloatReader, members: seq<Entry<Json>>)
    requires Sorted(members) && forall i | 0 <= i < |members| :: WrittenAs(read, members[i].value)
    ensures WellWritten(read, Object(WrittenFields(members)))
    ensures Collected(Given(read, WrittenFields(members))) == RereadMembers(members)
  {
    var fs := WrittenFields(members);
    forall i | 0 <= i < |members|
      ensures AllWellSpelled(fs[i].key) && Chars(fs[i].key) == members[i].key
      ensures WellWritten(read, fs[i].value) && Meaning(read, fs[i].value) == Reread(members[i].value)
    {
      assert WrittenAs(read, members[i].value);
      SpellingsRead(members[i].key);
    }
    assert Given(read, fs) == RereadMembers(members);
    RereadSorted(members);
    CollectedSorted([], RereadMembers(members));
  }

  lemma {:induction false} RereadSorted(members: seq<Entry<Json>>)
    requires Sorted(members)
    ensures Sorted([] + RereadMembers(members)) && [] + RereadMembers(members) == RereadMembers(members)
  {
  }

  /** Members given in order are inserted one behind the other. */
  lemma {:induction false} CollectedSorted(before: seq<Entry<Json>>, given: seq<Entry<Json>>)
    requires Sorted(before + given)
    ensures Folded(InsertEntry, before, given) == before + given
    decreases |given|
  {
    if given == [] {
      assert before + given == before;
    } else {
      BelowNext(before, given);
      InsertLast(before, given[0].key, given[0].value);
      assert before + [Entry(given[0].key, given[0].value)] == before + [given[0]];
      assert before + [given[0]] + given[1..] == before + given;
      CollectedSorted(before + [given[0]], given[1..]);
    }
  }

  lemma BelowNext(before: seq<Entry<Json>>, members: seq<Entry<Json>>)
    requires members != [] && Sorted(before + members)
    ensures AllBelow(before, members[0].key)
  {
    forall i | 0 <= i < |before|
      ensures Less(before[i].key, members[0].key)
    {
      assert (before + members)[i] == before[i] && (before + members)[|before|] == members[0];
    }
  }

  // ----- the round trip -----

  function NoGap(k: nat): string {
    ""
  }

  lemma {:induction false} WeaveNoGap(k: nat, toks: seq<string>, post: string)
    ensures Weave(NoGap, k, toks, post) == Concat(toks) + post
    decreases |toks|
  {
    if toks != [] { WeaveNoGap(k + 1, toks[1..], post); }
  }

  /**
   The printed form of a value, followed by any text that does not extend a number, parses to what
   the value comes back as, and parsing stops exactly at its end.
   */
  lemma {:induction false} ParsePrinted(read: FloatReader, v: Json, post: string)
    requires Readable(read, v) && (v.Int? || v.Float? ==> EndsNumber(post))
    ensures ParseValue(read, Print(v) + post) == Done(Reread(v), post)
  {
    WrittenMeans(read, v);
    PrintIsTokens(v);
    WeaveNoGap(0, PrintTokens(v), post);
    ParseDoc(read, NoGap, Written(v), 0, post);
  }

  /** A printed string, whatever its characters, parses back and stops at its closing quote. */
  lemma ParsePrintedString(s: string, post: string)
    ensures ParseString(Quote(s) + post) == Done(s, post)
  {
    SpellingsRead(s);
    ParseQuoted(Spellings(s), post);
  }

  lemma {:induction false} ParsePrintedInt(read: FloatReader, i: Int64, post: string)
    requires EndsNumber(post)
    ensures ParseValue(read, PrintInt(i) + post) == Done(Int(i), post)
  {
    ParsePrinted(read, Int(i), post);
  }

  /** A float comes back as `RereadFloat` says. */
  lemma {:induction false} ParsePrintedFloat(read: FloatReader, f: Float64, post: string)
    requires ReadsFloat(read, f) && EndsNumber(post)
    ensures ParseValue(read, f + post) == Done(RereadFloat(f), post)
  {
    ParsePrinted(read, Float(f), post);
  }

  /** White space before, between and after the tokens of a printed document changes nothing. */
  lemma {:induction false} ParsesSpaced(read: FloatReader, v: Json, gap: nat -> string)
    requires Readable(read, v) && AllWhite(gap)
    ensures Parse(read, Spaced(gap, PrintTokens(v))) == Ok(Reread(v)) && Concat(PrintTokens(v)) == Print(v)
  {
    WrittenMeans(read, v);
    PrintIsTokens(v);
    ParseSpaced(read, gap, Written(v));
  }

  /** Parsing a printed document gives what its value comes back as. */
  lemma {:induction false} ParseOfPrint(read: FloatReader, v: Json)
    requires Readable(read, v)
    ensures Parse(read, Print(v)) == Ok(Reread(v))
  {
    ParsePrinted(read, v, "");
    assert Print(v) + "" == Print(v);
  }

  /** `parse(v.to_string())` is `Ok(v)` for every float-free value. */
  lemma {:induction false} RoundTrip(read: FloatReader, v: Json)
    requires Plain(v)
    ensures Parse(read, Print(v)) == Ok(v)
  {
    FloatFreeReadsBack(read, v);
    ParseOfPrint(read, v);
    RereadFloatFree(v);
  }

  /** An integral float comes back as an integer, though its text stays the same. */
  lemma IntegralFloatChanges(read: FloatReader)
    ensures Parse(read, Print(Float("5"))) == Ok(Int(5)) && Print(Int(5)) == Print(Float("5"))
  {
    assert "5"[..0] == "" && DigitCount("5") == 1;
    ParseOfPrint(read, Float("5"));
  }

  /** A negative zero comes back as zero, and even its text changes. */
  lemma NegativeZeroChanges(read: FloatReader)
    ensures Parse(read, Print(Float("-0"))) == Ok(Int(0)) && Print(Int(0)) != Print(Float("-0"))
  {
    assert "-0"[1..] == "0" && "0"[..0] == "" && DigitCount("0") == 1;
    ParseOfPrint(read, Float("-0"));
  }

  /**
   Over all values the round trip holds exactly when every float is finite and keeps a fraction or is
   beyond `i64`.
   */
  lemma {:induction false} RoundTripExactly(read: FloatReader, v: Json)
    requires Readable(read, v)
    ensures Parse(read, Print(v)) == Ok(v) <==> Stable(v)
  {
    ParseOfPrint(read, v);
    RereadStable(v);
  }

  // ----- examples -----

  lemma EscapeExamples()
    ensures EscapeChar('"') == "\\\"" && EscapeChar('\\') == "\\\\" && EscapeChar('\n') == "\\n"
    ensures EscapeChar('\r') == "\\r" && EscapeChar('\t') == "\\t" && EscapeChar('/') == "/"
    ensures EscapeChar('\U{1}') == "\\u0001" && EscapeChar('\U{1F}') == "\\u001f" && EscapeChar('\U{E9}') == "\U{E9}"
  {
    assert Hex4(0x1f) == "001f" && Hex4(1) == "0001";
  }

  lemma NumberExamples()
    ensures PrintInt(1) == "1" && PrintInt(-42) == "-42"
  {
    assert Padded(4, 0) == "4";
    assert Decimal(42) == "42";
  }
}
