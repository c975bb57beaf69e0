/** The forms in which a character of a JSON string may be written (RFC 8259, section 7), and how each is read. */
module JsonSpelling {
  import opened Json
  import opened Wrappers

  // ----- the characters of a string -----

  /** A character as written: itself, a letter after a backslash, or one or two escapes of four digits. */
  datatype Spelled =
    | Raw(c: char)
    | Short(letter: char)
    | Unicode(n: nat, h: string)
    | Surrogates(high: nat, low: nat, h: string, l: string)

  predicate IsHex(c: char, d: nat) {
    d < 16 && (c == "0123456789abcdef"[d] || c == "0123456789ABCDEF"[d])
  }

  predicate HexDigits(h: string, a: nat, b: nat, c: nat, d: nat) {
    |h| == 4 && (IsHex(h[0], a) || (h[0] == '+' && a == 0)) && IsHex(h[1], b) && IsHex(h[2], c) && IsHex(h[3], d)
  }

  /** Four hexadecimal digits, of which a leading zero may be a plus sign. */
  predicate HexText(h: string, n: nat) {
    n < 0x1_0000 && HexDigits(h, n / 4096, n / 256 % 16, n / 16 % 16, n % 16)
  }

  predicate IsHighSurrogate(n: nat) {
    0xd800 <= n <= 0xdbff
  }

  predicate IsLowSurrogate(n: nat) {
    0xdc00 <= n <= 0xdfff
  }

  predicate WellSpelled(x: Spelled) {
    match x
    case Raw(c) => c != '"' && c != '\\'
    case Short(letter) => letter in "\"\\/bfnrt"
    case Unicode(n, h) => HexText(h, n)
    case Surrogates(high, low, h, l) =>
      HexText(h, high) && HexText(l, low) && IsHighSurrogate(high) && IsLowSurrogate(low)
  }

  function SpelledText(x: Spelled): string {
    match x
    case Raw(c) => [c]
    case Short(letter) => ['\\', letter]
    case Unicode(_, h) => "\\u" + h
    case Surrogates(_, _, h, l) => "\\u" + h + "\\u" + l
  }

  /** What it stands for. A surrogate alone is replaced. */
  function SpelledChar(x: Spelled): char
    requires WellSpelled(x)
  {
    match x
    case Raw(c) => c
    case Short(letter) =>
      if letter == 'b' then '\U{0008}'
      else if letter == 'f' then '\U{000C}'
      else if letter == 'n' then '\U{000A}'
      else if letter == 'r' then '\U{000D}'
      else if letter == 't' then '\U{0009}'
      else letter
    case Unicode(n, _) => if IsHighSurrogate(n) || IsLowSurrogate(n) then '\U{FFFD}' else n as char
    case Surrogates(high, low, _, _) => (0x10000 + 0x400 * (high - 0xd800) + (low - 0xdc00)) as char
  }

  /** A high and a low surrogate that would be read as a pair. */
  predicate Pairs(x: Spelled, y: Spelled) {
    x.Unicode? && y.Unicode? && IsHighSurrogate(x.n) && IsLowSurrogate(y.n)
  }

  predicate AllWellSpelled(q: seq<Spelled>) {
    && (forall i | 0 <= i < |q| :: WellSpelled(q[i]))
    && (forall i | 0 <= i < |q| - 1 :: !Pairs(q[i], q[i + 1]))
  }

  function Text(q: seq<Spelled>): string {
    if q == [] then "" else SpelledText(q[0]) + Text(q[1..])
  }

  function Chars(q: seq<Spelled>): (s: string)
    requires AllWellSpelled(q)
    ensures |s| == |q|
  {
    if q == [] then "" else [SpelledChar(q[0])] + Chars(q[1..])
  }

  function QuotedText(q: seq<Spelled>): string {
    "\"" + Text(q) + "\""
  }

  // ----- reading them -----

  lemma DropFirst(c: char, t: string)
    ensures ([c] + t)[0] == c && ([c] + t)[1..] == t
  {
  }

  lemma HexIs(c: char, d: nat)
    requires IsHex(c, d)
    ensures HexValue(c) == Some(d) && c != '+'
  {
  }

  lemma HexDigitsRead(h: string, a: nat, b: nat, c: nat, d: nat)
    requires HexDigits(h, a, b, c, d)
    ensures HexNumber(h) == Some(a * 4096 + b * 256 + c * 16 + d)
  {
    if h[0] != '+' { HexIs(h[0], a); }
    HexIs(h[1], b);
    HexIs(h[2], c);
    HexIs(h[3], d);
  }

  lemma HexNumberIs(h: string, n: nat)
    requires HexText(h, n)
    ensures HexNumber(h) == Some(n)
  {
    var a, b, c, d := DigitsOf(h, n);
    HexDigitsRead(h, a, b, c, d);
  }

  lemma DigitsOf(h: string, n: nat) returns (a: nat, b: nat, c: nat, d: nat)
    requires HexText(h, n)
    ensures HexDigits(h, a, b, c, d) && n == a * 4096 + b * 256 + c * 16 + d
  {
    a, b, c, d := n / 4096, n / 256 % 16, n / 16 % 16, n % 16;
    FourDigits(n);
  }

  lemma FourDigits(n: nat)
    ensures n == n / 4096 * 4096 + n / 256 % 16 * 256 + n / 16 % 16 * 16 + n % 16
  {
    Sixteenth(n, 1);
    Sixteenth(n, 16);
    Sixteenth(n, 256);
  }

  lemma Sixteenth(n: nat, m: nat)
    requires m == 1 || m == 16 || m == 256
    ensures n / m == n / (16 * m) * 16 + n / m % 16
  {
    assert n / (16 * m) == n / m / 16;
  }

  /** This text does not begin with the escape of a low surrogate, nor with a broken escape. */
  predicate NoLow(tail: string) {
    "\\u" <= tail ==> |tail| >= 6 && HexNumber(tail[2..6]).Some? && !IsLowSurrogate(HexNumber(tail[2..6]).value)
  }

  lemma OneUnicode(n: nat, h: string, tail: string)
    requires HexText(h, n) && (IsHighSurrogate(n) ==> NoLow(tail))
    ensures ParseUnicode(h + tail) == Done(SpelledChar(Unicode(n, h)), tail)
  {
    assert (h + tail)[..4] == h && (h + tail)[4..] == tail;
    HexNumberIs(h, n);
  }

  lemma TwoUnicodes(high: nat, low: nat, h: string, rest: string)
    requires |h| == 4 && HexNumber(h) == Some(high) && IsHighSurrogate(high)
    requires |rest| >= 6 && "\\u" <= rest && HexNumber(rest[2..6]) == Some(low) && IsLowSurrogate(low)
    ensures ParseUnicode(h + rest) == Done((0x10000 + 0x400 * (high - 0xd800) + (low - 0xdc00)) as char, rest[6..])
  {
    assert (h + rest)[..4] == h && (h + rest)[4..] == rest;
  }

  lemma {:induction false} ParsePair(x: Spelled, tail: string, out: string)
    requires x.Surrogates? && WellSpelled(x)
    ensures ParseChars(SpelledText(x) + tail, out) == ParseChars(tail, out + [SpelledChar(x)])
  {
    var rest := Second(x.h, x.l, tail);
    HexNumberIs(x.h, x.high);
    HexNumberIs(x.l, x.low);
    TwoUnicodes(x.high, x.low, x.h, rest);
    LongEscape(x.h + rest, SpelledChar(x), tail, out);
  }

  lemma Second(h: string, l: string, tail: string) returns (rest: string)
    requires |l| == 4
    ensures |rest| >= 6 && "\\u" <= rest && rest[2..6] == l && rest[6..] == tail && rest == "\\u" + (l + tail)
    ensures "\\u" + h + "\\u" + l + tail == "\\u" + (h + rest)
  {
    rest := "\\u" + (l + tail);
    assert (l + tail)[..4] == l && (l + tail)[4..] == tail;
  }

  lemma {:induction false} ParseShort(letter: char, tail: string, out: string)
    requires letter in "\"\\/bfnrt"
    ensures ParseChars(['\\', letter] + tail, out) == ParseChars(tail, out + [SpelledChar(Short(letter))])
  {
    ShortEscape(letter, tail);
    ParseBackslash([letter] + tail, SpelledChar(Short(letter)), tail, out);
    assert ['\\', letter] + tail == "\\" + ([letter] + tail);
  }

  lemma {:induction false} ParseBackslash(text: string, c: char, tail: string, out: string)
    requires ParseEscape(text) == Done(c, tail)
    ensures ParseChars("\\" + text, out) == ParseChars(tail, out + [c])
  {
    DropFirst('\\', text);
  }

  lemma ShortEscape(letter: char, tail: string)
    requires letter in "\"\\/bfnrt"
    ensures ParseEscape([letter] + tail) == Done(SpelledChar(Short(letter)), tail)
  {
    DropFirst(letter, tail);
  }

  lemma {:induction false} LongEscape(text: string, c: char, tail: string, out: string)
    requires ParseUnicode(text) == Done(c, tail)
    ensures ParseChars("\\u" + text, out) == ParseChars(tail, out + [c])
  {
    DropFirst('u', text);
    ParseBackslash("u" + text, c, tail, out);
    assert "\\u" + text == "\\" + ("u" + text);
  }

  /** Every form of a character is read as that character. */
  lemma {:induction false} ParseSpelled(x: Spelled, tail: string, out: string)
    requires WellSpelled(x) && (x.Unicode? && IsHighSurrogate(x.n) ==> NoLow(tail))
    ensures ParseChars(SpelledText(x) + tail, out) == ParseChars(tail, out + [SpelledChar(x)])
  {
    match x
    case Raw(c) => DropFirst(c, tail);
    case Short(letter) => ParseShort(letter, tail, out);
    case Unicode(n, h) =>
      OneUnicode(n, h, tail);
      LongEscape(h + tail, SpelledChar(x), tail, out);
      assert SpelledText(x) + tail == "\\u" + (h + tail);
    case Surrogates(_, _, _, _) => ParsePair(x, tail, out);
  }

  lemma EscapeFollows(h: string, n: nat, more: string)
    requires HexText(h, n) && !IsLowSurrogate(n)
    ensures NoLow("\\u" + (h + more))
  {
    HexNumberIs(h, n);
    assert (h + more)[..4] == h;
  }

  lemma PairFollows(h: string, l: string, n: nat, more: string)
    requires HexText(h, n) && !IsLowSurrogate(n)
    ensures NoLow("\\u" + h + "\\u" + l + more)
  {
    EscapeFollows(h, n, "\\u" + l + more);
    assert "\\u" + (h + ("\\u" + l + more)) == "\\u" + h + "\\u" + l + more;
  }

  /** Nothing but an escape can be taken for the second half of a pair. */
  lemma SpelledIsNoLow(x: Spelled, more: string)
    requires WellSpelled(x) && (x.Unicode? ==> !IsLowSurrogate(x.n))
    ensures NoLow(SpelledText(x) + more)
  {
    match x
    case Raw(c) => assert (SpelledText(x) + more)[0] == c;
    case Short(letter) => assert (SpelledText(x) + more)[1] == letter;
    case Unicode(n, h) =>
      EscapeFollows(h, n, more);
      assert SpelledText(x) + more == "\\u" + (h + more);
    case Surrogates(high, _, h, l) => PairFollows(h, l, high, more);
  }

  lemma QuoteIsNoLow(post: string)
    ensures NoLow("\"" + post)
  {
    assert ("\"" + post)[0] == '"';
  }

  /** A text of well-spelled characters, taken apart. */
  lemma TextCons(q: seq<Spelled>, post: string) returns (tail: string)
    requires q != []
    ensures tail == Text(q[1..]) + ("\"" + post) && Text(q) + ("\"" + post) == SpelledText(q[0]) + tail
  {
    tail := Text(q[1..]) + ("\"" + post);
  }

  lemma {:induction false} NextIsNoLow(q: seq<Spelled>, post: string)
    requires AllWellSpelled(q) && (q != [] && q[0].Unicode? ==> !IsLowSurrogate(q[0].n))
    ensures NoLow(Text(q) + ("\"" + post))
  {
    if q != [] {
      var tail := TextCons(q, post);
      SpelledIsNoLow(q[0], tail);
    } else {
      QuoteIsNoLow(post);
      TextNil(q, post);
    }
  }

  lemma {:induction false} TextNil(q: seq<Spelled>, post: string)
    requires q == []
    ensures Text(q) + ("\"" + post) == "\"" + post
  {
  }

  lemma {:induction false} ParseText(q: seq<Spelled>, post: string, out: string)
    requires AllWellSpelled(q)
    ensures ParseChars(Text(q) + ("\"" + post), out) == Done(out + Chars(q), post)
    decreases |q|
  {
    if q == [] {
      TextNil(q, post);
      DropFirst('"', post);
      assert out + Chars(q) == out;
    } else {
      var tail := TextCons(q, post);
      if q[0].Unicode? && IsHighSurrogate(q[0].n) {
        assert |q| > 1 ==> !Pairs(q[0], q[1]);
        NextIsNoLow(q[1..], post);
      }
      ParseSpelled(q[0], tail, out);
      ParseText(q[1..], post, out + [SpelledChar(q[0])]);
      assert out + [SpelledChar(q[0])] + Chars(q[1..]) == out + Chars(q);
    }
  }

  /** A string parses to its characters, however they are written, and parsing stops at its closing quote. */
  lemma {:induction false} ParseQuoted(q: seq<Spelled>, post: string)
    requires AllWellSpelled(q)
    ensures ParseString(QuotedText(q) + post) == Done(Chars(q), post)
  {
    var inner := Text(q) + ("\"" + post);
    QuotedParts(Text(q), post);
    DropFirst('"', inner);
    ParseText(q, post, "");
    assert "" + Chars(q) == Chars(q);
  }

  lemma QuotedParts(text: string, post: string)
    ensures "\"" + text + "\"" + post == "\"" + (text + ("\"" + post))
  {
  }
}
