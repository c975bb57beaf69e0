/**
 JSON documents as they may be written: white space anywhere between the tokens, members in any order
 and more than once, and the characters of strings in any of their forms (RFC 8259).
 */
module JsonText {
  import opened Digits
  import opened Json
  import opened JsonSpelling
  import opened SortedMap
  import opened Wrappers

  // ----- numbers -----

  /** The text is this number in decimal digits. */
  predicate DecimalText(text: string, i: int) {
    || (AllDigits(text) && i == Value(text))
    || ("-" <= text && AllDigits(text[1..]) && i == 0 - Value(text[1..]))
  }

  /** An integer where the digits denote one of `i64`; otherwise a float, whatever the reader makes of it. */
  ghost predicate NumberMeans(read: FloatReader, text: string, v: Json) {
    && text != "" && text != "-" && (forall i | 0 <= i < |text| :: text[i] in "0123456789+-.eE")
    && match v
       case Int(i) => DecimalText(text, i)
       case Float(f) => read(text) == Some(f) && forall i: Int64 :: !DecimalText(text, i)
       case _ => false
  }


  /** The text after a number does not continue it. */
  predicate EndsNumber(post: string) {
    post == "" || !NumberChar(post[0])
  }

  predicate NumberChars(s: string) {
    forall i | 0 <= i < |s| :: NumberChar(s[i])
  }

  lemma {:induction false} NumberLengthOf(number: string, post: string)
    requires NumberChars(number) && EndsNumber(post)
    ensures NumberLength(number + post) == |number|
  {
    if number == "" {
      assert number + post == post;
    } else {
      assert (number + post)[1..] == number[1..] + post;
      NumberLengthOf(number[1..], post);
    }
  }

  /** The number loop stops at the end of the number's text. */
  lemma NumberScanned(text: string, post: string)
    requires text != "" && text != "-" && NumberChars(text) && EndsNumber(post)
    ensures var s, sign := text + post, SignLength(text);
            && SignLength(s) == sign && sign + NumberLength(s[sign..]) == |text|
            && s[..|text|] == text && s[|text|..] == post
  {
    var s, sign := text + post, SignLength(text);
    assert s[0] == text[0];
    assert s[sign..] == text[sign..] + post;
    NumberLengthOf(text[sign..], post);
  }

  lemma {:induction false} DecimalIs(text: string, i: int)
    requires text != "" && text != "-"
    ensures var sign := SignLength(text);
            DecimalText(text, i) <==>
            (AllDigits(text[sign..]) && i == if sign == 1 then 0 - Value(text[sign..]) else Value(text))
  {
    if SignLength(text) == 1 {
      assert !IsDigit(text[0]);
    } else {
      assert text[0..] == text;
    }
  }

  lemma ParseDecimal(read: FloatReader, text: string, i: Int64, post: string)
    requires text != "" && text != "-" && NumberChars(text) && EndsNumber(post) && DecimalText(text, i)
    ensures ParseNumber(read, text + post) == Done(Int(i), post)
  {
    NumberScanned(text, post);
    DecimalIs(text, i);
  }

  lemma ParseOther(read: FloatReader, text: string, post: string)
    requires text != "" && text != "-" && NumberChars(text) && EndsNumber(post)
    requires forall i: Int64 :: !DecimalText(text, i)
    ensures ParseNumber(read, text + post) == FloatResult(read, text, post)
  {
    NumberScanned(text, post);
    var sign := SignLength(text);
    if AllDigits(text[sign..]) {
      if sign == 0 { assert text[0..] == text; }
      var n: int := if sign == 1 then 0 - Value(text[sign..]) else Value(text);
      DecimalIs(text, n);
    }
  }

  lemma NumberCharIs(c: char)
    requires c in "0123456789+-.eE"
    ensures NumberChar(c)
  {
  }

  lemma AlphabetOf(c: char)
    requires NumberChar(c)
    ensures c in "0123456789+-.eE"
  {
  }

  lemma ParseNumberText(read: FloatReader, text: string, v: Json, post: string)
    requires NumberMeans(read, text, v) && EndsNumber(post)
    ensures ParseNumber(read, text + post) == Done(v, post)
  {
    forall i | 0 <= i < |text|
      ensures NumberChar(text[i])
    {
      NumberCharIs(text[i]);
    }
    match v
    case Int(i) => ParseDecimal(read, text, i, post);
    case Float(f) => ParseOther(read, text, post);
    case _ =>
  }

  // ----- documents -----

  datatype Doc =
    | NullWord
    | TrueWord
    | FalseWord
    | Number(text: string, value: Json)
    | Quoted(chars: seq<Spelled>)
    | Array(items: seq<Doc>)
    | Object(fields: seq<Field>)

  datatype Field = Field(key: seq<Spelled>, value: Doc)

  ghost predicate WellWritten(read: FloatReader, d: Doc)
    decreases d
  {
    match d
    case Number(text, v) => NumberMeans(read, text, v)
    case Quoted(q) => AllWellSpelled(q)
    case Array(items) => forall i | 0 <= i < |items| :: WellWritten(read, items[i])
    case Object(fields) =>
      forall i | 0 <= i < |fields| :: AllWellSpelled(fields[i].key) && WellWritten(read, fields[i].value)
    case _ => true
  }

  /** Parts between brackets: commas between them, and the closing bracket. */
  function Closed(parts: seq<seq<string>>, close: string): seq<string> {
    if parts == [] then [close] else parts[0] + Others(parts[1..], close)
  }

  function Others(parts: seq<seq<string>>, close: string): seq<string> {
    if parts == [] then [close] else [","] + (parts[0] + Others(parts[1..], close))
  }

  function Tokens(d: Doc): seq<string>
    decreases d, 0
  {
    match d
    case NullWord => ["null"]
    case TrueWord => ["true"]
    case FalseWord => ["false"]
    case Number(text, _) => [text]
    case Quoted(q) => [QuotedText(q)]
    case Array(items) => ["["] + Closed(ItemTokens(items), "]")
    case Object(fields) => ["{"] + Closed(FieldTokens(fields), "}")
  }

  function ItemTokens(items: seq<Doc>): (parts: seq<seq<string>>)
    ensures |parts| == |items| && forall i | 0 <= i < |parts| :: parts[i] == Tokens(items[i])
    decreases items, 1
  {
    if items == [] then [] else [Tokens(items[0])] + ItemTokens(items[1..])
  }

  function KeyTokens(q: seq<Spelled>, toks: seq<string>): seq<string> {
    [QuotedText(q), ":"] + toks
  }

  function FieldTokens(fields: seq<Field>): (parts: seq<seq<string>>)
    ensures |parts| == |fields|
    ensures forall i | 0 <= i < |parts| :: parts[i] == KeyTokens(fields[i].key, Tokens(fields[i].value))
    decreases fields, 1
  {
    if fields == [] then []
    else [KeyTokens(fields[0].key, Tokens(fields[0].value))] + FieldTokens(fields[1..])
  }

  /** What a document stands for. Of fields with the same key the last one counts. */
  function Meaning(read: FloatReader, d: Doc): Json
    requires WellWritten(read, d)
    decreases d, 0
  {
    match d
    case NullWord => Null
    case TrueWord => Bool(true)
    case FalseWord => Bool(false)
    case Number(_, v) => v
    case Quoted(q) => Str(Chars(q))
    case Array(items) => Arr(Meanings(read, items))
    case Object(fields) => Obj(Collected(Given(read, fields)))
  }

  function Meanings(read: FloatReader, items: seq<Doc>): (vs: seq<Json>)
    requires WellWritten(read, Array(items))
    ensures |vs| == |items| && forall i | 0 <= i < |vs| :: vs[i] == Meaning(read, items[i])
    decreases items, 1
  {
    if items == [] then [] else [Meaning(read, items[0])] + Meanings(read, items[1..])
  }

  function Given(read: FloatReader, fields: seq<Field>): (es: seq<Entry<Json>>)
    requires WellWritten(read, Object(fields))
    ensures |es| == |fields|
    ensures forall i | 0 <= i < |es| :: es[i] == Entry(Chars(fields[i].key), Meaning(read, fields[i].value))
    decreases fields, 1
  {
    if fields == [] then []
    else [Entry(Chars(fields[0].key), Meaning(read, fields[0].value))] + Given(read, fields[1..])
  }

  function Folded<M, E>(add: (M, E) -> M, m: M, es: seq<E>): M
    decreases |es|
  {
    if es == [] then m else Folded(add, add(m, es[0]), es[1..])
  }

  function InsertEntry(m: seq<Entry<Json>>, e: Entry<Json>): seq<Entry<Json>> {
    Insert(m, e.key, e.value)
  }

  function Collected(given: seq<Entry<Json>>): seq<Entry<Json>> {
    Folded(InsertEntry, [], given)
  }

  // ----- white space -----

  predicate White(s: string) {
    forall i | 0 <= i < |s| :: s[i] in " \t\n\r"
  }

  ghost predicate AllWhite(gap: nat -> string) {
    forall k :: White(gap(k))
  }

  /** The tokens with a gap before each, numbered from `k` on, and then `post`. */
  function Weave(gap: nat -> string, k: nat, toks: seq<string>, post: string): string
    decreases |toks|
  {
    if toks == [] then post else gap(k) + (toks[0] + Weave(gap, k + 1, toks[1..], post))
  }

  /** A whole document, with gaps before, between and after its tokens. */
  function Spaced(gap: nat -> string, toks: seq<string>): string {
    Weave(gap, 0, toks, gap(|toks|))
  }

  lemma {:induction false} WeaveConcat(gap: nat -> string, k: nat, a: seq<string>, b: seq<string>, post: string)
    ensures Weave(gap, k, a + b, post) == Weave(gap, k, a, Weave(gap, k + |a|, b, post))
    decreases |a|
  {
    if a == [] {
      assert a + b == b;
    } else {
      assert (a + b)[1..] == a[1..] + b;
      WeaveConcat(gap, k + 1, a[1..], b, post);
    }
  }

  lemma {:induction false} WeaveOne(gap: nat -> string, k: nat, tok: string, post: string)
    ensures Weave(gap, k, [tok], post) == gap(k) + (tok + post)
  {
    assert [tok][1..] == [];
  }

  /** A token and then more of them. */
  lemma {:induction false} WeaveCons(gap: nat -> string, k: nat, tok: string, b: seq<string>, post: string)
    ensures Weave(gap, k, [tok] + b, post) == gap(k) + (tok + Weave(gap, k + 1, b, post))
  {
    WeaveConcat(gap, k, [tok], b, post);
    WeaveOne(gap, k, tok, Weave(gap, k + 1, b, post));
  }

  lemma {:induction false} SkipWhite(g: string, t: string)
    requires White(g)
    ensures SkipSpace(g + t) == SkipSpace(t)
  {
    if g == "" {
      assert g + t == t;
    } else {
      assert g[0] in " \t\n\r" && (g + t)[1..] == g[1..] + t;
      SkipWhite(g[1..], t);
    }
  }

  predicate Solid(tok: string) {
    tok != "" && !IsSpace(tok[0])
  }

  lemma {:induction false} SkipToToken(g: string, tok: string, post: string)
    requires White(g) && Solid(tok)
    ensures SkipSpace(g + (tok + post)) == tok + post
  {
    SkipWhite(g, tok + post);
    assert (tok + post)[0] == tok[0];
  }

  /** White space before a value is passed over. */
  lemma {:induction false} ValueAfterWhite(read: FloatReader, g: string, t: string)
    requires White(g)
    ensures ParseValue(read, g + t) == ParseValue(read, t)
  {
    SkipWhite(g, t);
    SkipTwice(t);
  }

  lemma {:induction false} SkipTwice(t: string)
    ensures SkipSpace(SkipSpace(t)) == SkipSpace(t)
  {
    if t != "" && IsSpace(t[0]) { SkipTwice(t[1..]); }
  }

  // ----- reading documents -----

  lemma {:induction false} ValueIs(read: FloatReader, tok: string, post: string)
    requires Solid(tok)
    ensures SkipSpace(tok + post) == tok + post && (tok + post)[0] == tok[0]
  {
  }

  lemma {:induction false} WordIs(read: FloatReader, word: string, v: Json, post: string)
    requires || (word == "null" && v == Null) || (word == "true" && v == Bool(true))
             || (word == "false" && v == Bool(false))
    ensures ParseValue(read, word + post) == Done(v, post)
  {
    ValueIs(read, word, post);
    assert word <= word + post && (word + post)[|word|..] == post;
  }

  lemma NumberStart(c: char)
    requires c in "0123456789+-.eE"
    ensures !IsSpace(c) && c !in "[]{}\"tfn"
  {
  }

  lemma {:induction false} ValueIsNumber(read: FloatReader, s: string)
    requires s != "" && s[0] in "0123456789+-.eE"
    ensures ParseValue(read, s) == ParseNumber(read, s)
  {
    NumberStart(s[0]);
    assert SkipSpace(s) == s;
  }

  lemma {:induction false} NumberIs(read: FloatReader, text: string, v: Json, post: string)
    requires NumberMeans(read, text, v) && EndsNumber(post)
    ensures ParseValue(read, text + post) == Done(v, post)
  {
    assert (text + post)[0] == text[0];
    ValueIsNumber(read, text + post);
    ParseNumberText(read, text, v, post);
  }

  lemma {:induction false} StringIs(read: FloatReader, q: seq<Spelled>, post: string)
    requires AllWellSpelled(q)
    ensures ParseValue(read, QuotedText(q) + post) == Done(Str(Chars(q)), post)
  {
    ValueIs(read, QuotedText(q), post);
    ParseQuoted(q, post);
  }

  lemma {:induction false} ParseScalar(read: FloatReader, d: Doc, post: string)
    requires WellWritten(read, d) && !d.Array? && !d.Object? && (d.Number? ==> EndsNumber(post))
    ensures |Tokens(d)| == 1 && ParseValue(read, Tokens(d)[0] + post) == Done(Meaning(read, d), post)
  {
    match d
    case NullWord => WordIs(read, "null", Null, post);
    case TrueWord => WordIs(read, "true", Bool(true), post);
    case FalseWord => WordIs(read, "false", Bool(false), post);
    case Number(text, v) => NumberIs(read, text, v, post);
    case Quoted(q) => StringIs(read, q, post);
  }

  // ----- brackets -----

  /** A gap and then a comma or a closing bracket end a number. */
  lemma GapEndsNumber(g: string, c: char, post: string)
    requires White(g) && c in ",]}"
    ensures EndsNumber(g + ([c] + post))
  {
    if g != "" { assert (g + ([c] + post))[0] == g[0] && g[0] in " \t\n\r"; }
  }

  /** What follows a value inside brackets, after any gap. */
  lemma {:induction false} Follows(g: string, c: char, post: string)
    requires White(g) && c in ",:]}"
    ensures SkipSpace(g + ([c] + post)) == [c] + post && ([c] + post)[1..] == post
  {
    SkipToToken(g, [c], post);
    DropFirst(c, post);
  }

  lemma {:induction false} BracketIs(read: FloatReader, c: char, tail: string)
    requires c == '[' || c == '{'
    ensures c == '[' ==> ParseValue(read, [c] + tail) == ParseArray(read, [c] + tail)
    ensures c == '{' ==> ParseValue(read, [c] + tail) == ParseObject(read, [c] + tail)
    ensures ([c] + tail)[1..] == tail
  {
    ValueIs(read, [c], tail);
    DropFirst(c, tail);
  }

  lemma {:induction false} StartIs(gap: nat -> string, k: nat, toks: seq<string>, post: string)
    requires AllWhite(gap) && toks != [] && Solid(toks[0])
    ensures StartsWith(SkipSpace(Weave(gap, k, toks, post)), toks[0][0])
  {
    SkipToToken(gap(k), toks[0], Weave(gap, k + 1, toks[1..], post));
  }

  lemma {:induction false} SpaceBeforeItems(read: FloatReader, s: string, before: seq<Json>)
    ensures ParseItems(read, SkipSpace(s), before) == ParseItems(read, s, before)
  {
    SkipTwice(s);
    assert ParseValue(read, SkipSpace(s)) == ParseValue(read, s);
  }

  lemma {:induction false} SpaceBeforeMembers(read: FloatReader, s: string, before: seq<Entry<Json>>)
    ensures ParseMembers(read, SkipSpace(s), before) == ParseMembers(read, s, before)
  {
    SkipTwice(s);
  }

  /** Tokens that begin with a comma, a colon or a closing bracket, and what is left after it. */
  lemma Tail(gap: nat -> string, i: nat, c: char, toks: seq<string>, post: string) returns (tail: string, more: string)
    requires AllWhite(gap) && c in ",:]}"
    ensures tail == Weave(gap, i, [[c]] + toks, post) && more == Weave(gap, i + 1, toks, post)
    ensures SkipSpace(tail) == [c] + more && (c != ':' ==> EndsNumber(tail))
  {
    tail, more := Weave(gap, i, [[c]] + toks, post), Weave(gap, i + 1, toks, post);
    WeaveCons(gap, i, [c], toks, post);
    Follows(gap(i), c, more);
    if c != ':' { GapEndsNumber(gap(i), c, more); }
  }

  // ----- parts between brackets -----

  lemma OthersStart(parts: seq<seq<string>>, close: char) returns (c: char, toks: seq<string>)
    ensures Others(parts, [close]) == [[c]] + toks
    ensures parts == [] ==> c == close && toks == []
    ensures parts != [] ==> c == ',' && toks == Closed(parts, [close])
  {
    c := if parts == [] then close else ',';
    toks := if parts == [] then [] else Closed(parts, [close]);
    assert [[close]] == [[close]] + [];
  }

  /** The bracket or comma after the first part, and the text after that. */
  lemma AfterFirst(gap: nat -> string, k: nat, parts: seq<seq<string>>, close: char, post: string)
    returns (s: string, tail: string, c: char, more: string)
    requires parts != [] && AllWhite(gap) && close in "]}"
    ensures s == Weave(gap, k, parts[0], tail) == Weave(gap, k, Closed(parts, [close]), post)
    ensures EndsNumber(tail) && SkipSpace(tail) == [c] + more
    ensures |parts| == 1 ==> c == close && more == post
    ensures |parts| > 1 ==> c == ',' && more == Weave(gap, k + |parts[0]| + 1, Closed(parts[1..], [close]), post)
  {
    var toks;
    c, toks := OthersStart(parts[1..], close);
    tail, more := Tail(gap, k + |parts[0]|, c, toks, post);
    WeaveConcat(gap, k, parts[0], [[c]] + toks, post);
    s := Weave(gap, k, parts[0], tail);
  }

  /** The parser takes the part at the start of `s`, and then goes on after a comma or stops after the bracket. */
  ghost predicate TakesOne<M, E>(
    close: char, parse: (string, M) -> Parsed<Json>, add: (M, E) -> M, wrap: M -> Json, s: string, m: M, e: E,
    c: char, more: string
  ) {
    && (c == ',' ==> parse(s, m) == parse(more, add(m, e)))
    && (c == close ==> parse(s, m) == Done(wrap(add(m, e)), more))
  }

  ghost predicate TakesPart<M(!new), E>(
    gap: nat -> string, close: char, parse: (string, M) -> Parsed<Json>, add: (M, E) -> M, wrap: M -> Json,
    toks: seq<string>, e: E
  ) {
    forall k: nat, tail, c, more, m | EndsNumber(tail) && SkipSpace(tail) == [c] + more ::
      TakesOne(close, parse, add, wrap, Weave(gap, k, toks, tail), m, e, c, more)
  }

  ghost predicate TakesParts<M(!new), E>(
    gap: nat -> string, close: char, parse: (string, M) -> Parsed<Json>, add: (M, E) -> M, wrap: M -> Json,
    parts: seq<seq<string>>, es: seq<E>
  ) {
    |parts| == |es| && forall i | 0 <= i < |parts| :: TakesPart(gap, close, parse, add, wrap, parts[i], es[i])
  }

  /** So it takes all of them in order. */
  lemma {:induction false} TakesAll<M(!new), E>(
    gap: nat -> string, close: char, parse: (string, M) -> Parsed<Json>, add: (M, E) -> M, wrap: M -> Json,
    parts: seq<seq<string>>, es: seq<E>, m: M, k: nat, post: string
  )
    requires parts != [] && AllWhite(gap) && close in "]}" && TakesParts(gap, close, parse, add, wrap, parts, es)
    ensures parse(Weave(gap, k, Closed(parts, [close]), post), m) == Done(wrap(Folded(add, m, es)), post)
    decreases |parts|
  {
    var s, tail, c, more := AfterFirst(gap, k, parts, close, post);
    assert TakesPart(gap, close, parse, add, wrap, parts[0], es[0]);
    assert TakesOne(close, parse, add, wrap, s, m, es[0], c, more);
    if |parts| == 1 {
      assert Folded(add, m, es) == add(m, es[0]);
    } else {
      TakesAll(gap, close, parse, add, wrap, parts[1..], es[1..], add(m, es[0]), k + |parts[0]| + 1, post);
    }
  }

  // ----- arrays -----

  /** These tokens, with any white space before them and any end of a number after, are read as `v`. */
  ghost predicate Reads(read: FloatReader, gap: nat -> string, toks: seq<string>, v: Json) {
    && toks != [] && Solid(toks[0]) && toks[0][0] != ']'
    && forall k: nat, post | EndsNumber(post) :: ParseValue(read, Weave(gap, k, toks, post)) == Done(v, post)
  }

  ghost predicate AllRead(read: FloatReader, gap: nat -> string, parts: seq<seq<string>>, vs: seq<Json>) {
    |parts| == |vs| && forall i | 0 <= i < |parts| :: Reads(read, gap, parts[i], vs[i])
  }

  lemma {:induction false} ItemsStep(
    read: FloatReader, s: string, before: seq<Json>, v: Json, tail: string, c: char, more: string
  )
    requires ParseValue(read, s) == Done(v, tail) && SkipSpace(tail) == [c] + more
    ensures c == ',' ==> ParseItems(read, s, before) == ParseItems(read, more, before + [v])
    ensures c == ']' ==> ParseItems(read, s, before) == Done(Arr(before + [v]), more)
  {
    DropFirst(c, more);
  }

  function Append(vs: seq<Json>, v: Json): seq<Json> {
    vs + [v]
  }

  lemma {:induction false} FoldedAppend(before: seq<Json>, vs: seq<Json>)
    ensures Folded(Append, before, vs) == before + vs
    decreases |vs|
  {
    if vs == [] {
      assert before + vs == before;
    } else {
      FoldedAppend(Append(before, vs[0]), vs[1..]);
      assert before + [vs[0]] + vs[1..] == before + vs;
    }
  }

  lemma TakesItem(read: FloatReader, gap: nat -> string, toks: seq<string>, v: Json)
    requires Reads(read, gap, toks, v)
    ensures TakesPart(gap, ']', (s, m) => ParseItems(read, s, m), Append, m => Arr(m), toks, v)
  {
    var parse, wrap := (s, m) => ParseItems(read, s, m), m => Arr(m);
    forall k: nat, tail, c, more, before | EndsNumber(tail) && SkipSpace(tail) == [c] + more
      ensures TakesOne(']', parse, Append, wrap, Weave(gap, k, toks, tail), before, v, c, more)
    {
      ItemsStep(read, Weave(gap, k, toks, tail), before, v, tail, c, more);
    }
  }

  lemma {:induction false} ParseAllItems(
    read: FloatReader, gap: nat -> string, parts: seq<seq<string>>, vs: seq<Json>, k: nat, post: string
  )
    requires parts != [] && AllRead(read, gap, parts, vs) && AllWhite(gap)
    ensures ParseItems(read, Weave(gap, k, Closed(parts, "]"), post), []) == Done(Arr(vs), post)
  {
    forall i | 0 <= i < |parts|
      ensures TakesPart(gap, ']', (s, m) => ParseItems(read, s, m), Append, m => Arr(m), parts[i], vs[i])
    {
      TakesItem(read, gap, parts[i], vs[i]);
    }
    TakesAll(gap, ']', (s, m) => ParseItems(read, s, m), Append, m => Arr(m), parts, vs, [], k, post);
    FoldedAppend([], vs);
    assert [] + vs == vs;
  }

  // ----- objects -----

  lemma KeyIs(q: seq<Spelled>, toks: seq<string>, gap: nat -> string, k: nat, post: string) returns (afterKey: string)
    requires AllWellSpelled(q) && AllWhite(gap)
    ensures ParseString(SkipSpace(Weave(gap, k, KeyTokens(q, toks), post))) == Done(Chars(q), afterKey)
    ensures SkipSpace(afterKey) == ":" + Weave(gap, k + 2, toks, post)
  {
    var more;
    afterKey, more := Tail(gap, k + 1, ':', toks, post);
    assert KeyTokens(q, toks) == [QuotedText(q)] + ([":"] + toks);
    WeaveCons(gap, k, QuotedText(q), [":"] + toks, post);
    SkipToToken(gap(k), QuotedText(q), afterKey);
    ParseQuoted(q, afterKey);
  }

  lemma {:induction false} MembersStep(
    read: FloatReader, s: string, before: seq<Entry<Json>>, e: Entry<Json>, afterKey: string, text: string,
    tail: string, c: char, more: string
  )
    requires ParseString(SkipSpace(s)) == Done(e.key, afterKey) && SkipSpace(afterKey) == ":" + text
    requires ParseValue(read, text) == Done(e.value, tail) && SkipSpace(tail) == [c] + more
    ensures c == ',' ==> ParseMembers(read, s, before) == ParseMembers(read, more, Insert(before, e.key, e.value))
    ensures c == '}' ==> ParseMembers(read, s, before) == Done(Obj(Insert(before, e.key, e.value)), more)
  {
    DropFirst(':', text);
    DropFirst(c, more);
  }

  /** The tokens of a field: a key, a colon and a value. */
  ghost predicate ReadsField(read: FloatReader, gap: nat -> string, toks: seq<string>, e: Entry<Json>) {
    exists q, vtoks ::
      toks == KeyTokens(q, vtoks) && AllWellSpelled(q) && Chars(q) == e.key && Reads(read, gap, vtoks, e.value)
  }

  ghost predicate AllFieldsRead(
    read: FloatReader, gap: nat -> string, parts: seq<seq<string>>, es: seq<Entry<Json>>
  ) {
    |parts| == |es| && forall i | 0 <= i < |parts| :: ReadsField(read, gap, parts[i], es[i])
  }

  lemma {:induction false} FieldStep(
    read: FloatReader, gap: nat -> string, k: nat, toks: seq<string>, e: Entry<Json>, before: seq<Entry<Json>>,
    tail: string, c: char, more: string
  )
    requires ReadsField(read, gap, toks, e) && AllWhite(gap) && EndsNumber(tail) && SkipSpace(tail) == [c] + more
    ensures var p := ParseMembers(read, Weave(gap, k, toks, tail), before);
            && (c == ',' ==> p == ParseMembers(read, more, InsertEntry(before, e)))
            && (c == '}' ==> p == Done(Obj(InsertEntry(before, e)), more))
  {
    var q, vtoks :|
      toks == KeyTokens(q, vtoks) && AllWellSpelled(q) && Chars(q) == e.key && Reads(read, gap, vtoks, e.value);
    var afterKey := KeyIs(q, vtoks, gap, k, tail);
    MembersStep(read, Weave(gap, k, toks, tail), before, e, afterKey, Weave(gap, k + 2, vtoks, tail), tail, c, more);
  }

  lemma TakesField(read: FloatReader, gap: nat -> string, toks: seq<string>, e: Entry<Json>)
    requires ReadsField(read, gap, toks, e) && AllWhite(gap)
    ensures TakesPart(gap, '}', (s, m) => ParseMembers(read, s, m), InsertEntry, m => Obj(m), toks, e)
  {
    var parse, wrap := (s, m) => ParseMembers(read, s, m), m => Obj(m);
    forall k: nat, tail, c, more, before | EndsNumber(tail) && SkipSpace(tail) == [c] + more
      ensures TakesOne('}', parse, InsertEntry, wrap, Weave(gap, k, toks, tail), before, e, c, more)
    {
      FieldStep(read, gap, k, toks, e, before, tail, c, more);
    }
  }

  lemma {:induction false} ParseAllMembers(
    read: FloatReader, gap: nat -> string, parts: seq<seq<string>>, es: seq<Entry<Json>>, k: nat, post: string
  )
    requires parts != [] && AllFieldsRead(read, gap, parts, es) && AllWhite(gap)
    ensures ParseMembers(read, Weave(gap, k, Closed(parts, "}"), post), []) == Done(Obj(Collected(es)), post)
  {
    forall i | 0 <= i < |parts|
      ensures TakesPart(gap, '}', (s, m) => ParseMembers(read, s, m), InsertEntry, m => Obj(m), parts[i], es[i])
    {
      TakesField(read, gap, parts[i], es[i]);
    }
    TakesAll(gap, '}', (s, m) => ParseMembers(read, s, m), InsertEntry, m => Obj(m), parts, es, [], k, post);
  }

  // ----- documents, read -----

  lemma OpenBracket(read: FloatReader, c: char, gap: nat -> string, k: nat, toks: seq<string>, post: string)
    returns (tail: string)
    requires (c == '[' || c == '{') && AllWhite(gap)
    ensures tail == Weave(gap, k + 1, toks, post) && ([c] + tail)[1..] == tail
    ensures c == '[' ==> ParseValue(read, Weave(gap, k, ["["] + toks, post)) == ParseArray(read, [c] + tail)
    ensures c == '{' ==> ParseValue(read, Weave(gap, k, ["{"] + toks, post)) == ParseObject(read, [c] + tail)
  {
    tail := Weave(gap, k + 1, toks, post);
    WeaveCons(gap, k, [c], toks, post);
    ValueAfterWhite(read, gap(k), [c] + tail);
    BracketIs(read, c, tail);
  }

  lemma {:induction false} ParseArrayTokens(
    read: FloatReader, gap: nat -> string, parts: seq<seq<string>>, vs: seq<Json>, k: nat, post: string
  )
    requires AllRead(read, gap, parts, vs) && AllWhite(gap)
    ensures ParseValue(read, Weave(gap, k, ["["] + Closed(parts, "]"), post)) == Done(Arr(vs), post)
  {
    var toks := Closed(parts, "]");
    var tail := OpenBracket(read, '[', gap, k, toks, post);
    if parts == [] {
      assert toks == [[']']] + [];
      var t, more := Tail(gap, k + 1, ']', [], post);
      DropFirst(']', more);
    } else {
      assert Reads(read, gap, parts[0], vs[0]);
      StartIs(gap, k + 1, toks, post);
      SpaceBeforeItems(read, tail, []);
      ParseAllItems(read, gap, parts, vs, k + 1, post);
    }
  }

  lemma {:induction false} ParseObjectTokens(
    read: FloatReader, gap: nat -> string, parts: seq<seq<string>>, es: seq<Entry<Json>>, k: nat, post: string
  )
    requires AllFieldsRead(read, gap, parts, es) && AllWhite(gap)
    ensures ParseValue(read, Weave(gap, k, ["{"] + Closed(parts, "}"), post)) == Done(Obj(Collected(es)), post)
  {
    var toks := Closed(parts, "}");
    var tail := OpenBracket(read, '{', gap, k, toks, post);
    if parts == [] {
      assert toks == [['}']] + [];
      var t, more := Tail(gap, k + 1, '}', [], post);
      DropFirst('}', more);
    } else {
      assert ReadsField(read, gap, parts[0], es[0]);
      StartIs(gap, k + 1, toks, post);
      SpaceBeforeMembers(read, tail, []);
      ParseAllMembers(read, gap, parts, es, k + 1, post);
    }
  }

  /** No token starts with white space, and no value with a closing bracket. */
  lemma {:induction false} Solids(read: FloatReader, d: Doc)
    requires WellWritten(read, d)
    ensures Tokens(d) != [] && Solid(Tokens(d)[0]) && Tokens(d)[0][0] != ']'
  {
    if d.Number? { NumberStart(d.text[0]); }
  }

  lemma {:induction false} DocReads(read: FloatReader, gap: nat -> string, d: Doc)
    requires WellWritten(read, d) && AllWhite(gap)
    ensures Reads(read, gap, Tokens(d), Meaning(read, d))
    decreases d, 1
  {
    Solids(read, d);
    forall k: nat, post | EndsNumber(post)
      ensures ParseValue(read, Weave(gap, k, Tokens(d), post)) == Done(Meaning(read, d), post)
    {
      ParseDoc(read, gap, d, k, post);
    }
  }

  /**
   A document, with any white space before each token, followed by any text that does not extend a
   number, parses to what it stands for, and parsing stops exactly at its end.
   */
  lemma {:induction false} ParseDoc(read: FloatReader, gap: nat -> string, d: Doc, k: nat, post: string)
    requires WellWritten(read, d) && AllWhite(gap) && (d.Number? ==> EndsNumber(post))
    ensures ParseValue(read, Weave(gap, k, Tokens(d), post)) == Done(Meaning(read, d), post)
    decreases d, 0
  {
    match d
    case Array(items) =>
      forall i | 0 <= i < |items|
        ensures Reads(read, gap, ItemTokens(items)[i], Meanings(read, items)[i])
      {
        DocReads(read, gap, items[i]);
      }
      ParseArrayTokens(read, gap, ItemTokens(items), Meanings(read, items), k, post);
    case Object(fields) =>
      forall i | 0 <= i < |fields|
        ensures ReadsField(read, gap, FieldTokens(fields)[i], Given(read, fields)[i])
      {
        DocReads(read, gap, fields[i].value);
      }
      ParseObjectTokens(read, gap, FieldTokens(fields), Given(read, fields), k, post);
    case _ =>
      ParseScalar(read, d, post);
      WeaveOne(gap, k, Tokens(d)[0], post);
      ValueAfterWhite(read, gap(k), Tokens(d)[0] + post);
  }

  /**
   Every document parses to what it stands for, whatever white space is before, between and after its
   tokens and however its strings are spelled.
   */
  lemma {:induction false} ParseSpaced(read: FloatReader, gap: nat -> string, d: Doc)
    requires WellWritten(read, d) && AllWhite(gap)
    ensures Parse(read, Spaced(gap, Tokens(d))) == Ok(Meaning(read, d))
  {
    var last := gap(|Tokens(d)|);
    assert last + "" == last;
    SkipWhite(last, "");
    if last != "" { assert last[0] in " \t\n\r"; }
    ParseDoc(read, gap, d, 0, last);
  }
}
