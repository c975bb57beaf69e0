/** What the parser accepts: the texts of documents as `JsonText` has them, and nothing else. */
module JsonGrammar {
  import opened Digits
  import opened Json
  import opened JsonSpelling
  import opened JsonText
  import opened SortedMap
  import opened Wrappers

  // ----- strings -----

  lemma HexBack(c: char, d: nat)
    requires HexValue(c) == Some(d)
    ensures IsHex(c, d) && c != '+'
  {
  }

  lemma HexDigitsBack(h: string) returns (a: nat, b: nat, c: nat, d: nat)
    requires |h| == 4 && HexNumber(h).Some?
    ensures HexDigits(h, a, b, c, d) && HexNumber(h).value == a * 4096 + b * 256 + c * 16 + d
  {
    a := if h[0] == '+' then 0 else HexValue(h[0]).value;
    b, c, d := HexValue(h[1]).value, HexValue(h[2]).value, HexValue(h[3]).value;
    if h[0] != '+' { HexBack(h[0], a); }
    HexBack(h[1], b);
    HexBack(h[2], c);
    HexBack(h[3], d);
  }

  lemma DigitsOfSum(a: nat, b: nat, c: nat, d: nat)
    requires a < 16 && b < 16 && c < 16 && d < 16
    ensures var n := a * 4096 + b * 256 + c * 16 + d;
            n < 0x1_0000 && n / 4096 == a && n / 256 % 16 == b && n / 16 % 16 == c && n % 16 == d
  {
    var n := a * 4096 + b * 256 + c * 16 + d;
    assert n / 16 == a * 256 + b * 16 + c;
    assert n / 256 == a * 16 + b;
  }

  lemma HexTextBack(h: string)
    requires |h| == 4 && HexNumber(h).Some?
    ensures HexText(h, HexNumber(h).value)
  {
    var a, b, c, d := HexDigitsBack(h);
    DigitsOfSum(a, b, c, d);
  }

  lemma Quarters(s: string) returns (h: string, tail: string)
    requires |s| >= 4
    ensures |h| == 4 && h == s[..4] && tail == s[4..] && s == h + tail
  {
    h, tail := s[..4], s[4..];
  }

  /** The text `text` is a well-spelled character read as `c`, up to `rest`. */
  ghost predicate IsSpelling(x: Spelled, text: string, c: char, rest: string) {
    && WellSpelled(x) && SpelledChar(x) == c && text == SpelledText(x) + rest
    && (x.Unicode? && IsHighSurrogate(x.n) ==> NoLow(rest))
  }

  lemma PairBack(h: string, high: nat, l: string, low: nat, tail: string) returns (x: Spelled)
    requires HexText(h, high) && IsHighSurrogate(high) && HexText(l, low) && IsLowSurrogate(low)
    ensures WellSpelled(x) && ParseUnicode(h + ("\\u" + (l + tail))) == Done(SpelledChar(x), tail)
    ensures IsSpelling(x, "\\u" + (h + ("\\u" + (l + tail))), SpelledChar(x), tail)
  {
    x := Surrogates(high, low, h, l);
    HexNumberIs(h, high);
    HexNumberIs(l, low);
    var rest := Second(h, l, tail);
    TwoUnicodes(high, low, h, rest);
  }

  lemma SecondBack(rest: string) returns (l: string, low: nat, tail: string)
    requires |rest| >= 6 && "\\u" <= rest && HexNumber(rest[2..6]).Some? && IsLowSurrogate(HexNumber(rest[2..6]).value)
    ensures HexText(l, low) && IsLowSurrogate(low) && rest == "\\u" + (l + tail)
  {
    l, tail := rest[2..6], rest[6..];
    low := HexNumber(l).value;
    HexTextBack(l);
  }

  lemma BrokenPair(h: string, rest: string)
    requires |h| == 4 && HexNumber(h).Some? && IsHighSurrogate(HexNumber(h).value) && "\\u" <= rest
    requires ParseUnicode(h + rest).Done?
    ensures |rest| >= 6 && HexNumber(rest[2..6]).Some?
  {
    assert (h + rest)[..4] == h && (h + rest)[4..] == rest;
  }

  /** A `\u` escape that was read, as one or two escapes. */
  lemma UnicodeBack(s: string) returns (x: Spelled)
    requires ParseUnicode(s).Done?
    ensures IsSpelling(x, "\\u" + s, ParseUnicode(s).value, ParseUnicode(s).rest)
  {
    var h, rest := Quarters(s);
    var n := HexNumber(h).value;
    HexTextBack(h);
    if IsHighSurrogate(n) && !NoLow(rest) {
      BrokenPair(h, rest);
      var l, low, tail := SecondBack(rest);
      x := PairBack(h, n, l, low, tail);
    } else {
      OneUnicode(n, h, rest);
      x := Unicode(n, h);
      Assoc("\\u", h, rest);
    }
  }

  lemma ShortBack(letter: char, tail: string)
    requires letter != 'u' && ParseEscape([letter] + tail).Done?
    ensures letter in "\"\\/bfnrt" && ParseEscape([letter] + tail) == Done(SpelledChar(Short(letter)), tail)
  {
    DropFirst(letter, tail);
  }

  lemma LongIs(tail: string)
    ensures ParseEscape("u" + tail) == ParseUnicode(tail)
  {
    DropFirst('u', tail);
  }

  lemma LongBack(tail: string) returns (x: Spelled)
    requires ParseEscape("u" + tail).Done?
    ensures IsSpelling(x, "\\u" + tail, ParseEscape("u" + tail).value, ParseEscape("u" + tail).rest)
  {
    LongIs(tail);
    x := UnicodeBack(tail);
  }

  /** An escape that was read, after its backslash. */
  lemma EscapeBack(s: string) returns (x: Spelled)
    requires ParseEscape(s).Done?
    ensures IsSpelling(x, "\\" + s, ParseEscape(s).value, ParseEscape(s).rest)
  {
    var letter, tail := s[0], s[1..];
    assert s == [letter] + tail;
    Backslash(letter, tail);
    if letter == 'u' {
      x := LongBack(tail);
    } else {
      ShortBack(letter, tail);
      x := Short(letter);
    }
  }

  lemma Backslash(letter: char, tail: string)
    ensures "\\" + ([letter] + tail) == ['\\', letter] + tail
    ensures letter == 'u' ==> [letter] + tail == "u" + tail && "\\" + ([letter] + tail) == "\\u" + tail
  {
  }

  /** What follows a lone high surrogate is spelled without a low one. */
  lemma {:induction false} StartsHigh(x: Spelled, q: seq<Spelled>, post: string)
    requires x.Unicode? && IsHighSurrogate(x.n) && AllWellSpelled(q) && NoLow(Text(q) + ("\"" + post))
    ensures q != [] ==> !Pairs(x, q[0])
  {
    if q != [] && q[0].Unicode? {
      var tail := TextCons(q, post);
      HexNumberIs(q[0].h, q[0].n);
      assert (SpelledText(q[0]) + tail)[2..6] == q[0].h;
    }
  }

  lemma {:induction false} Prepended(x: Spelled, q: seq<Spelled>)
    requires WellSpelled(x) && AllWellSpelled(q) && (q != [] ==> !Pairs(x, q[0]))
    ensures AllWellSpelled([x] + q) && Text([x] + q) == SpelledText(x) + Text(q)
    ensures Chars([x] + q) == [SpelledChar(x)] + Chars(q)
  {
    assert ([x] + q)[1..] == q;
  }

  /** The characters of a string that was read. */
  lemma {:induction false} CharsBack(s: string, out: string) returns (q: seq<Spelled>)
    requires ParseChars(s, out).Done?
    ensures var p := ParseChars(s, out);
            AllWellSpelled(q) && s == Text(q) + ("\"" + p.rest) && p.value == out + Chars(q)
    decreases |s|
  {
    var p := ParseChars(s, out);
    if s[0] == '"' {
      q := [];
      TextNil(q, p.rest);
      assert out + Chars(q) == out;
    } else {
      var x, rest := FirstBack(s, out);
      var more := CharsBack(rest, out + [SpelledChar(x)]);
      q := MoreBack(x, more, s, out, p.rest);
    }
  }

  lemma MoreBack(x: Spelled, more: seq<Spelled>, s: string, out: string, rest: string) returns (q: seq<Spelled>)
    requires AllWellSpelled(more) && WellSpelled(x) && IsSpelling(x, s, SpelledChar(x), Text(more) + ("\"" + rest))
    ensures AllWellSpelled(q) && s == Text(q) + ("\"" + rest)
    ensures out + [SpelledChar(x)] + Chars(more) == out + Chars(q)
  {
    if x.Unicode? && IsHighSurrogate(x.n) { StartsHigh(x, more, rest); }
    Prepended(x, more);
    q := [x] + more;
    Assoc(SpelledText(x), Text(more), "\"" + rest);
    Assoc(out, [SpelledChar(x)], Chars(more));
  }

  lemma Assoc<T>(a: seq<T>, b: seq<T>, c: seq<T>)
    ensures a + (b + c) == a + b + c
  {
  }

  /** The first character of a string that was read. */
  lemma FirstBack(s: string, out: string) returns (x: Spelled, rest: string)
    requires ParseChars(s, out).Done? && s[0] != '"'
    ensures WellSpelled(x) && IsSpelling(x, s, SpelledChar(x), rest) && |rest| < |s|
    ensures ParseChars(s, out) == ParseChars(rest, out + [SpelledChar(x)])
  {
    if s[0] == '\\' {
      x := EscapeBack(s[1..]);
      rest := ParseEscape(s[1..]).rest;
      assert s == "\\" + s[1..];
    } else {
      x, rest := Raw(s[0]), s[1..];
      assert s == [s[0]] + rest;
    }
  }

  lemma StringBack(s: string) returns (q: seq<Spelled>)
    requires ParseString(s).Done?
    ensures var p := ParseString(s);
            AllWellSpelled(q) && s == QuotedText(q) + p.rest && p.value == Chars(q)
  {
    q := CharsBack(s[1..], "");
    var rest := ParseString(s).rest;
    assert s == "\"" + s[1..] && "" + Chars(q) == Chars(q);
    Assoc("\"", Text(q), "\"" + rest);
    Assoc("\"" + Text(q), "\"", rest);
  }

  // ----- numbers -----

  lemma NumberBack(read: FloatReader, s: string) returns (text: string)
    requires ParseNumber(read, s).Done?
    ensures var p := ParseNumber(read, s);
            NumberMeans(read, text, p.value) && s == text + p.rest && EndsNumber(p.rest)
  {
    var sign := SignLength(s);
    var n := sign + NumberLength(s[sign..]);
    text := s[..n];
    var rest := s[n..];
    assert s == text + rest;
    forall i | 0 <= i < |text|
      ensures text[i] in "0123456789+-.eE"
    {
      if i >= sign { assert text[i] == s[sign..][i - sign]; }
      AlphabetOf(text[i]);
    }
    assert SignLength(text) == sign;
    forall i: int
      ensures DecimalText(text, i) <==>
              (AllDigits(text[sign..]) && i == if sign == 1 then 0 - Value(text[sign..]) else Value(text[sign..]))
    {
      DecimalIs(text, i);
      assert sign == 0 ==> text[0..] == text;
    }
  }

  // ----- tokens -----

  function Woven(gs: seq<string>, toks: seq<string>): string
    requires |gs| == |toks|
  {
    if toks == [] then "" else gs[0] + (toks[0] + Woven(gs[1..], toks[1..]))
  }

  /** The text begins with these tokens, each after white space, and then `rest`. */
  ghost predicate IsWoven(gs: seq<string>, toks: seq<string>, text: string, rest: string) {
    |gs| == |toks| && (forall i | 0 <= i < |gs| :: White(gs[i])) && text == Woven(gs, toks) + rest
  }

  lemma {:induction false} WovenConcat(ga: seq<string>, ta: seq<string>, gb: seq<string>, tb: seq<string>)
    requires |ga| == |ta| && |gb| == |tb|
    ensures Woven(ga + gb, ta + tb) == Woven(ga, ta) + Woven(gb, tb)
    decreases |ga|
  {
    if ga == [] {
      assert ga + gb == gb && ta + tb == tb;
    } else {
      assert (ga + gb)[1..] == ga[1..] + gb && (ta + tb)[1..] == ta[1..] + tb;
      WovenConcat(ga[1..], ta[1..], gb, tb);
    }
  }

  lemma Then(
    ga: seq<string>, ta: seq<string>, gb: seq<string>, tb: seq<string>, text: string, mid: string, rest: string
  )
    requires IsWoven(ga, ta, text, mid) && IsWoven(gb, tb, mid, rest)
    ensures IsWoven(ga + gb, ta + tb, text, rest)
  {
    WovenConcat(ga, ta, gb, tb);
    Assoc(Woven(ga, ta), Woven(gb, tb), rest);
  }

  lemma One(g: string, tok: string, rest: string)
    requires White(g)
    ensures IsWoven([g], [tok], g + (tok + rest), rest)
  {
    assert Woven([g], [tok]) == g + (tok + "");
    Assoc(g, tok, rest);
  }

  lemma {:induction false} SpaceBack(s: string) returns (g: string)
    ensures White(g) && s == g + SkipSpace(s)
  {
    if s != "" && IsSpace(s[0]) {
      g := SpaceBack(s[1..]);
      g := [s[0]] + g;
    } else {
      g := "";
    }
  }

  /** One token, after the white space before it. */
  lemma TokenBack(s: string, tok: string, rest: string) returns (g: string)
    requires SkipSpace(s) == tok + rest
    ensures IsWoven([g], [tok], s, rest)
  {
    g := SpaceBack(s);
    One(g, tok, rest);
  }

  lemma CharBack(s: string, c: char) returns (g: string)
    requires StartsWith(SkipSpace(s), c)
    ensures IsWoven([g], [[c]], s, SkipSpace(s)[1..])
  {
    assert SkipSpace(s) == [c] + SkipSpace(s)[1..];
    g := TokenBack(s, [c], SkipSpace(s)[1..]);
  }

  // ----- documents -----

  /** The document `d` is written at the start of `s` and stands for `v`. */
  ghost predicate IsDoc(read: FloatReader, d: Doc, gs: seq<string>, s: string, v: Json, rest: string) {
    WellWritten(read, d) && Meaning(read, d) == v && IsWoven(gs, Tokens(d), s, rest)
  }

  ghost predicate AreItems(
    read: FloatReader, ds: seq<Doc>, gs: seq<string>, s: string, vs: seq<Json>, rest: string
  ) {
    && ds != [] && WellWritten(read, Array(ds)) && Meanings(read, ds) == vs
    && IsWoven(gs, Closed(ItemTokens(ds), "]"), s, rest)
  }

  ghost predicate AreFields(
    read: FloatReader, fs: seq<Field>, gs: seq<string>, s: string, es: seq<Entry<Json>>, rest: string
  ) {
    && fs != [] && WellWritten(read, Object(fs)) && Given(read, fs) == es
    && IsWoven(gs, Closed(FieldTokens(fs), "}"), s, rest)
  }

  lemma ScalarBack(read: FloatReader, t: string) returns (d: Doc)
    requires t != "" && !IsSpace(t[0]) && t[0] != '[' && t[0] != '{' && ParseValue(read, t).Done?
    ensures WellWritten(read, d) && Meaning(read, d) == ParseValue(read, t).value
    ensures |Tokens(d)| == 1 && t == Tokens(d)[0] + ParseValue(read, t).rest
  {
    assert SkipSpace(t) == t;
    match t[0]
    case '"' =>
      var q := StringBack(t);
      d := Quoted(q);
    case 't' =>
      d := TrueWord;
      assert t == "true" + t[4..];
    case 'f' =>
      d := FalseWord;
      assert t == "false" + t[5..];
    case 'n' =>
      d := NullWord;
      assert t == "null" + t[4..];
    case _ =>
      var text := NumberBack(read, t);
      d := Number(text, ParseValue(read, t).value);
  }

  lemma {:induction false} AfterSpace(read: FloatReader, s: string)
    ensures ParseValue(read, SkipSpace(s)) == ParseValue(read, s)
    ensures SkipSpace(s) != "" ==> !IsSpace(SkipSpace(s)[0])
  {
    SkipTwice(s);
    Skipped(s);
  }

  lemma {:induction false} Skipped(s: string)
    ensures SkipSpace(s) != "" ==> !IsSpace(SkipSpace(s)[0])
  {
    if s != "" && IsSpace(s[0]) { Skipped(s[1..]); }
  }

  lemma {:induction false} ValueBack(read: FloatReader, s: string) returns (d: Doc, gs: seq<string>)
    requires ParseValue(read, s).Done?
    ensures IsDoc(read, d, gs, s, ParseValue(read, s).value, ParseValue(read, s).rest)
    decreases |s|, 2
  {
    var t := SkipSpace(s);
    AfterSpace(read, s);
    if t[0] == '[' {
      var g := CharBack(s, '[');
      var ds, gs1 := ArrayBack(read, t[1..]);
      d, gs := Array(ds), [g] + gs1;
      Then([g], ["["], gs1, Closed(ItemTokens(ds), "]"), s, t[1..], ParseValue(read, s).rest);
    } else if t[0] == '{' {
      var g := CharBack(s, '{');
      var fs, gs1 := ObjectBack(read, t[1..]);
      d, gs := Object(fs), [g] + gs1;
      Then([g], ["{"], gs1, Closed(FieldTokens(fs), "}"), s, t[1..], ParseValue(read, s).rest);
    } else {
      d := ScalarBack(read, t);
      var g := TokenBack(s, Tokens(d)[0], ParseValue(read, s).rest);
      gs := [g];
      assert Tokens(d) == [Tokens(d)[0]];
    }
  }

  /** The rest of an array, after its bracket. */
  lemma {:induction false} ArrayBack(read: FloatReader, s: string) returns (ds: seq<Doc>, gs: seq<string>)
    requires ParseArray(read, "[" + s).Done?
    ensures var p := ParseArray(read, "[" + s);
            && WellWritten(read, Array(ds)) && p.value == Arr(Meanings(read, ds))
            && IsWoven(gs, Closed(ItemTokens(ds), "]"), s, p.rest)
    decreases |s|, 4
  {
    DropFirst('[', s);
    if StartsWith(SkipSpace(s), ']') {
      var g := CharBack(s, ']');
      ds, gs := [], [g];
    } else {
      SpaceBeforeItems(read, s, []);
      var vs;
      ds, gs, vs := ItemsBack(read, s, []);
      assert [] + vs == vs;
    }
  }

  lemma {:induction false} ItemsBack(read: FloatReader, s: string, before: seq<Json>)
    returns (ds: seq<Doc>, gs: seq<string>, vs: seq<Json>)
    requires ParseItems(read, s, before).Done?
    ensures var p := ParseItems(read, s, before);
            p.value == Arr(before + vs) && AreItems(read, ds, gs, s, vs, p.rest)
    decreases |s|, 3
  {
    var v, rest := ParseValue(read, s).value, ParseValue(read, s).rest;
    var d, gs1 := ValueBack(read, s);
    var t := SkipSpace(rest);
    if StartsWith(t, ',') {
      var g := CharBack(rest, ',');
      var ds1, gs2, vs1 := ItemsBack(read, t[1..], before + [v]);
      ds, gs, vs := [d] + ds1, gs1 + ([g] + gs2), [v] + vs1;
      MoreItems(read, s, d, gs1, v, rest, g, t[1..], ds1, gs2, vs1, ParseItems(read, s, before).rest);
      Assoc(before, [v], vs1);
    } else {
      var g := CharBack(rest, ']');
      ds, gs, vs := [d], gs1 + [g], [v];
      LastItem(read, s, d, gs1, v, rest, g, t[1..]);
    }
  }

  lemma LastItem(
    read: FloatReader, s: string, d: Doc, gs: seq<string>, v: Json, rest: string, g: string, after: string
  )
    requires IsDoc(read, d, gs, s, v, rest) && IsWoven([g], ["]"], rest, after)
    ensures AreItems(read, [d], gs + [g], s, [v], after)
  {
    Then(gs, Tokens(d), [g], ["]"], s, rest, after);
  }

  lemma MoreItems(
    read: FloatReader, s: string, d: Doc, gs: seq<string>, v: Json, rest: string, g: string, t: string,
    ds: seq<Doc>, gs2: seq<string>, vs: seq<Json>, after: string
  )
    requires IsDoc(read, d, gs, s, v, rest) && IsWoven([g], [","], rest, t) && AreItems(read, ds, gs2, t, vs, after)
    ensures AreItems(read, [d] + ds, gs + ([g] + gs2), s, [v] + vs, after)
  {
    var toks := Closed(ItemTokens(ds), "]");
    Then([g], [","], gs2, toks, rest, t, after);
    Then(gs, Tokens(d), [g] + gs2, [","] + toks, s, rest, after);
    assert ([d] + ds)[1..] == ds;
  }

  /** A key and its colon, at the start of a field. */
  lemma KeyBack(s: string) returns (q: seq<Spelled>, gs: seq<string>)
    requires ParseString(SkipSpace(s)).Done? && StartsWith(SkipSpace(ParseString(SkipSpace(s)).rest), ':')
    ensures AllWellSpelled(q) && Chars(q) == ParseString(SkipSpace(s)).value
    ensures IsWoven(gs, [QuotedText(q), ":"], s, SkipSpace(ParseString(SkipSpace(s)).rest)[1..])
  {
    var afterKey := ParseString(SkipSpace(s)).rest;
    q := StringBack(SkipSpace(s));
    var g := TokenBack(s, QuotedText(q), afterKey);
    var h := CharBack(afterKey, ':');
    Then([g], [QuotedText(q)], [h], [":"], s, afterKey, SkipSpace(afterKey)[1..]);
    gs := [g] + [h];
    assert [QuotedText(q)] + [":"] == [QuotedText(q), ":"];
  }

  /** The rest of an object, after its brace. */
  lemma {:induction false} ObjectBack(read: FloatReader, s: string) returns (fs: seq<Field>, gs: seq<string>)
    requires ParseObject(read, "{" + s).Done?
    ensures var p := ParseObject(read, "{" + s);
            && WellWritten(read, Object(fs)) && p.value == Obj(Collected(Given(read, fs)))
            && IsWoven(gs, Closed(FieldTokens(fs), "}"), s, p.rest)
    decreases |s|, 4
  {
    DropFirst('{', s);
    if StartsWith(SkipSpace(s), '}') {
      var g := CharBack(s, '}');
      fs, gs := [], [g];
    } else {
      SpaceBeforeMembers(read, s, []);
      var es;
      fs, gs, es := FieldsBack(read, s, []);
    }
  }

  /** The field `f`, written at the start of `s`, gives the entry `e`. */
  ghost predicate IsField(read: FloatReader, f: Field, gs: seq<string>, s: string, e: Entry<Json>, rest: string) {
    && AllWellSpelled(f.key) && WellWritten(read, f.value) && e == Entry(Chars(f.key), Meaning(read, f.value))
    && IsWoven(gs, KeyTokens(f.key, Tokens(f.value)), s, rest)
  }

  lemma {:induction false} FieldBack(
    read: FloatReader, s: string, q: seq<Spelled>, kgs: seq<string>, text: string, d: Doc, gs: seq<string>, v: Json,
    rest: string
  )
    requires AllWellSpelled(q) && IsWoven(kgs, [QuotedText(q), ":"], s, text) && IsDoc(read, d, gs, text, v, rest)
    ensures IsField(read, Field(q, d), kgs + gs, s, Entry(Chars(q), v), rest)
  {
    Then(kgs, [QuotedText(q), ":"], gs, Tokens(d), s, text, rest);
  }

  lemma {:induction false} FieldsBack(read: FloatReader, s: string, before: seq<Entry<Json>>)
    returns (fs: seq<Field>, gs: seq<string>, es: seq<Entry<Json>>)
    requires ParseMembers(read, s, before).Done?
    ensures var p := ParseMembers(read, s, before);
            p.value == Obj(Folded(InsertEntry, before, es)) && AreFields(read, fs, gs, s, es, p.rest)
    decreases |s|, 3
  {
    var key, colon := ParseString(SkipSpace(s)).value, SkipSpace(ParseString(SkipSpace(s)).rest);
    var v, rest := ParseValue(read, colon[1..]).value, ParseValue(read, colon[1..]).rest;
    var q, kgs := KeyBack(s);
    var d, vgs := ValueBack(read, colon[1..]);
    FieldBack(read, s, q, kgs, colon[1..], d, vgs, v, rest);
    var f, e, t := Field(q, d), Entry(key, v), SkipSpace(rest);
    if StartsWith(t, ',') {
      var g := CharBack(rest, ',');
      var fs1, gs2, es1 := FieldsBack(read, t[1..], InsertEntry(before, e));
      fs, gs, es := [f] + fs1, kgs + vgs + ([g] + gs2), [e] + es1;
      MoreFields(read, s, f, kgs + vgs, e, rest, g, t[1..], fs1, gs2, es1, ParseMembers(read, s, before).rest);
      assert ([e] + es1)[1..] == es1;
    } else {
      var g := CharBack(rest, '}');
      fs, gs, es := [f], kgs + vgs + [g], [e];
      LastField(read, s, f, kgs + vgs, e, rest, g, t[1..]);
      assert [e][1..] == [];
    }
  }

  lemma LastField(
    read: FloatReader, s: string, f: Field, gs: seq<string>, e: Entry<Json>, rest: string, g: string, after: string
  )
    requires IsField(read, f, gs, s, e, rest) && IsWoven([g], ["}"], rest, after)
    ensures AreFields(read, [f], gs + [g], s, [e], after)
  {
    Then(gs, KeyTokens(f.key, Tokens(f.value)), [g], ["}"], s, rest, after);
  }

  lemma MoreFields(
    read: FloatReader, s: string, f: Field, gs: seq<string>, e: Entry<Json>, rest: string, g: string, t: string,
    fs: seq<Field>, gs2: seq<string>, es: seq<Entry<Json>>, after: string
  )
    requires IsField(read, f, gs, s, e, rest) && IsWoven([g], [","], rest, t) && AreFields(read, fs, gs2, t, es, after)
    ensures AreFields(read, [f] + fs, gs + ([g] + gs2), s, [e] + es, after)
  {
    var toks := Closed(FieldTokens(fs), "}");
    Then([g], [","], gs2, toks, rest, t, after);
    Then(gs, KeyTokens(f.key, Tokens(f.value)), [g] + gs2, [","] + toks, s, rest, after);
    assert ([f] + fs)[1..] == fs;
  }

  // ----- the language -----

  function GapsOf(gs: seq<string>): nat -> string {
    (k: nat) => if k < |gs| then gs[k] else ""
  }

  lemma {:induction false} WovenIsWeave(all: seq<string>, k: nat, toks: seq<string>, post: string)
    requires k + |toks| <= |all|
    ensures Weave(GapsOf(all), k, toks, post) == Woven(all[k..k + |toks|], toks) + post
    decreases |toks|
  {
    if toks != [] {
      var gs := all[k..k + |toks|];
      assert gs[1..] == all[k + 1..k + 1 + |toks[1..]|];
      WovenIsWeave(all, k + 1, toks[1..], post);
      Assoc(toks[0], Woven(gs[1..], toks[1..]), post);
      Assoc(gs[0], toks[0] + Woven(gs[1..], toks[1..]), post);
    }
  }

  lemma {:induction false} OnlySpace(s: string)
    requires SkipSpace(s) == ""
    ensures White(s)
  {
    if s != "" { OnlySpace(s[1..]); }
  }

  /** What was parsed was a document, spaced in some way. */
  lemma ParsedIsSpaced(read: FloatReader, s: string) returns (d: Doc, gap: nat -> string)
    requires Parse(read, s).Ok?
    ensures WellWritten(read, d) && AllWhite(gap) && s == Spaced(gap, Tokens(d))
    ensures Parse(read, s) == Ok(Meaning(read, d))
  {
    var rest := ParseValue(read, s).rest;
    var gs;
    d, gs := ValueBack(read, s);
    OnlySpace(rest);
    gap := SpacedBack(gs, Tokens(d), s, rest);
  }

  lemma SpacedBack(gs: seq<string>, toks: seq<string>, s: string, rest: string) returns (gap: nat -> string)
    requires IsWoven(gs, toks, s, rest) && White(rest)
    ensures AllWhite(gap) && s == Spaced(gap, toks)
  {
    var all := gs + [rest];
    gap := GapsOf(all);
    WovenIsWeave(all, 0, toks, rest);
    assert all[0..|toks|] == gs && gap(|toks|) == rest;
  }

  /** The text is a document that stands for `v`, with white space before, between and after its tokens. */
  ghost predicate IsTextOf(read: FloatReader, s: string, v: Json) {
    exists d, gap :: WellWritten(read, d) && AllWhite(gap) && s == Spaced(gap, Tokens(d)) && Meaning(read, d) == v
  }

  /** A text parses to a value exactly when it is the text of a document that stands for the value. */
  lemma ParsesExactly(read: FloatReader, s: string, v: Json)
    ensures Parse(read, s) == Ok(v) <==> IsTextOf(read, s, v)
  {
    if Parse(read, s) == Ok(v) {
      var d, gap := ParsedIsSpaced(read, s);
      assert Meaning(read, d) == v;
    }
    if IsTextOf(read, s, v) {
      var d, gap :| WellWritten(read, d) && AllWhite(gap) && s == Spaced(gap, Tokens(d)) && Meaning(read, d) == v;
      ParseSpaced(read, gap, d);
    }
  }
}
