/** Base64 (RFC 4648, section 4): encoding and decoding by groups. */
module Base64 {
  import opened Bytes
  import opened Wrappers

  /** Entry `v` of the alphabet: capitals, small letters, digits, `+` and `/`. */
  function Symbol(v: nat): char
    requires v < 64
  {
    if v < 26 then ('A' as int + v) as char
    else if v < 52 then ('a' as int + (v - 26)) as char
    else if v < 62 then ('0' as int + (v - 52)) as char
    else if v == 62 then '+'
    else '/'
  }

  function SymbolValue(c: char): (v: Option<nat>)
    ensures v.Some? ==> v.value < 64
  {
    if 'A' <= c <= 'Z' then Some(c as int - 'A' as int)
    else if 'a' <= c <= 'z' then Some(c as int - 'a' as int + 26)
    else if '0' <= c <= '9' then Some(c as int - '0' as int + 52)
    else if c == '+' then Some(62)
    else if c == '/' then Some(63)
    else None
  }

  lemma SymbolBack(v: nat)
    requires v < 64
    ensures SymbolValue(Symbol(v)) == Some(v)
  {
  }

  /** The alphabet of RFC 4648, table 1. */
  lemma AlphabetIs(v: nat)
    requires v < 64
    ensures Symbol(v) == ("ABCDEFGHIJKLMNOPQRSTUVWXYZ" + "abcdefghijklmnopqrstuvwxyz" + "0123456789" + "+/")[v]
  {
    if v < 26 {
      CapitalAt(v);
    } else if v < 52 {
      SmallAt(v - 26);
    }
  }

  lemma CapitalAt(v: nat)
    requires v < 26
    ensures "ABCDEFGHIJKLMNOPQRSTUVWXYZ"[v] == ('A' as int + v) as char
  {
    var c := "ABCDEFGHIJKLMNOPQRSTUVWXYZ"[v];
    assert c as int == 65 + v;
    assert (c as int) as char == c;
  }

  lemma SmallAt(v: nat)
    requires v < 26
    ensures "abcdefghijklmnopqrstuvwxyz"[v] == ('a' as int + v) as char
  {
    var c := "abcdefghijklmnopqrstuvwxyz"[v];
    assert c as int == 97 + v;
    assert (c as int) as char == c;
  }

  lemma SymbolValueExactly(c: char, v: nat)
    requires v < 64
    ensures SymbolValue(c) == Some(v) <==> c == Symbol(v)
  {
    if c == Symbol(v) { SymbolBack(v); }
    if SymbolValue(c) == Some(v) { ValueBack(c, v); }
  }

  lemma ValueBack(c: char, v: nat)
    requires v < 64 && SymbolValue(c) == Some(v)
    ensures c == Symbol(v)
  {
    assert (c as int) as char == c;
    if 'A' <= c <= 'Z' {
      assert 'A' as int + v == c as int;
    } else if 'a' <= c <= 'z' {
      assert 'a' as int + (v - 26) == c as int;
    } else if '0' <= c <= '9' {
      assert '0' as int + (v - 52) == c as int;
    }
  }

  /** `is_ascii_whitespace`. */
  predicate AsciiSpace(c: char) {
    var n := c as int;
    n == 0x20 || n == 0x09 || n == 0x0a || n == 0x0c || n == 0x0d
  }

  // ----- one group -----

  type Chunk = s: seq<Octet> | 1 <= |s| <= 3 witness [0]

  type Quartet = s: string | |s| == 4 witness "AAAA"

  /** Three bytes as one number; their bits do not overlap. */
  function Join(b0: Octet, b1: Octet, b2: Octet): (n: nat)
    ensures n < 0x100_0000
  {
    0x1_0000 * b0 + 0x100 * b1 + b2
  }

  datatype Sextets = Sextets(v0: nat, v1: nat, v2: nat, v3: nat)

  /** Shifts by 18, 12, 6 and 0 bits, each masked to six. */
  function Cut(n: nat): (x: Sextets)
    ensures x.v0 < 64 && x.v1 < 64 && x.v2 < 64 && x.v3 < 64
  {
    Sextets(n / 64 / 64 / 64 % 64, n / 64 / 64 % 64, n / 64 % 64, n % 64)
  }

  /** One to three bytes as four characters, padded with `=`. */
  function EncodeGroup(chunk: Chunk): Quartet
  {
    var x := Cut(Join(chunk[0], if |chunk| > 1 then chunk[1] else 0, if |chunk| > 2 then chunk[2] else 0));
    [Symbol(x.v0), Symbol(x.v1), if |chunk| > 1 then Symbol(x.v2) else '=', if |chunk| > 2 then Symbol(x.v3) else '=']
  }

  /** A character of a group; padding is a zero, in the last two places only. */
  function PlaceValue(c: char, i: nat): Option<nat> {
    if c == '=' && i >= 2 then Some(0) else SymbolValue(c)
  }

  function Pads(s: Quartet): nat
  {
    (if s[2] == '=' then 1 else 0) + (if s[3] == '=' then 1 else 0)
  }

  function GroupBytes(n: nat, pads: nat): seq<Octet>
    requires n < 0x100_0000
  {
    [n / 0x1_0000]
    + (if pads < 2 then [n / 0x100 % 0x100] else [])
    + (if pads < 1 then [n % 0x100] else [])
  }

  function DecodeGroup(s: Quartet): Option<seq<Octet>>
  {
    var v0, v1, v2, v3 := PlaceValue(s[0], 0), PlaceValue(s[1], 1), PlaceValue(s[2], 2), PlaceValue(s[3], 3);
    if v0.None? || v1.None? || v2.None? || v3.None? then None
    else Some(GroupBytes(64 * (64 * (64 * v0.value + v1.value) + v2.value) + v3.value, Pads(s)))
  }

  /** The character in this place of a group stands for `v`. */
  predicate StandsFor(c: char, v: nat, i: nat) {
    v < 64 && (c == Symbol(v) || (c == '=' && v == 0 && i >= 2))
  }

  /** What a group decodes to: its twenty-four bits in three bytes, less one byte for each padding character. */
  lemma GroupExactly(s: Quartet, v0: nat, v1: nat, v2: nat, v3: nat)
    requires StandsFor(s[0], v0, 0) && StandsFor(s[1], v1, 1) && StandsFor(s[2], v2, 2) && StandsFor(s[3], v3, 3)
    ensures var n := 262144 * v0 + 4096 * v1 + 64 * v2 + v3;
            var pads := (if s[2] == '=' then 1 else 0) + (if s[3] == '=' then 1 else 0);
            n < 0x100_0000 && DecodeGroup(s) == Some([n / 65536, n / 256 % 256, n % 256][..3 - pads])
  {
    PlaceIs(s[0], v0, 0);
    PlaceIs(s[1], v1, 1);
    PlaceIs(s[2], v2, 2);
    PlaceIs(s[3], v3, 3);
    var n := 64 * (64 * (64 * v0 + v1) + v2) + v3;
    BytesLess(n, Pads(s));
    assert n == 262144 * v0 + 4096 * v1 + 64 * v2 + v3;
  }

  lemma BytesLess(n: nat, pads: nat)
    requires n < 0x100_0000 && pads <= 2
    ensures GroupBytes(n, pads) == [n / 65536, n / 256 % 256, n % 256][..3 - pads]
  {
  }

  lemma PlaceIs(c: char, v: nat, i: nat)
    requires StandsFor(c, v, i)
    ensures PlaceValue(c, i) == Some(v)
  {
    SymbolValueExactly(c, v);
    SymbolIsNotPad(v);
  }

  /** Any other group is refused. */
  lemma GroupRefused(s: Quartet)
    ensures DecodeGroup(s).None? <==> exists i :: 0 <= i < 4 && !exists v :: StandsFor(s[i], v, i)
  {
    forall i | 0 <= i < 4
      ensures PlaceValue(s[i], i).Some? <==> exists v :: StandsFor(s[i], v, i)
    {
      PlaceKnown(s[i], i);
    }
  }

  lemma PlaceKnown(c: char, i: nat)
    ensures PlaceValue(c, i).Some? <==> exists v :: StandsFor(c, v, i)
  {
    if PlaceValue(c, i).Some? {
      var v := PlaceValue(c, i).value;
      if !(c == '=' && i >= 2) { SymbolValueExactly(c, v); }
      assert StandsFor(c, v, i);
    }
    if v :| StandsFor(c, v, i) {
      PlaceIs(c, v, i);
    }
  }

  lemma CutJoins(n: nat)
    requires n < 0x100_0000
    ensures var x := Cut(n); 64 * (64 * (64 * x.v0 + x.v1) + x.v2) + x.v3 == n
  {
    assert n / 64 / 64 / 64 < 64;
  }

  lemma JoinBack(b0: Octet, b1: Octet, b2: Octet)
    ensures var n := Join(b0, b1, b2); n / 0x1_0000 == b0 && n / 0x100 % 0x100 == b1 && n % 0x100 == b2
  {
    assert (0x1_0000 * b0 + 0x100 * b1 + b2) / 0x100 == 0x100 * b0 + b1;
  }

  /** Zero bytes at the end of a group leave zeros where the padding goes. */
  lemma OnePadIsZero(a: nat, b: nat)
    ensures (0x1_0000 * a + 0x100 * b) % 64 == 0
  {
    assert 0x1_0000 * a + 0x100 * b == 64 * (0x400 * a + 4 * b);
  }

  lemma TwoPadsAreZero(a: nat)
    ensures 0x1_0000 * a % 64 == 0 && 0x1_0000 * a / 64 % 64 == 0
  {
    assert 0x1_0000 * a / 64 == 64 * (0x10 * a);
  }

  lemma SymbolIsNotPad(v: nat)
    requires v < 64
    ensures Symbol(v) != '=' && ' ' < Symbol(v) <= 'z'
  {
  }

  /** Four characters that stand for the sextets of `n`. */
  lemma DecodeSymbols(s: Quartet, n: nat, pads: nat)
    requires n < 0x100_0000 && Pads(s) == pads
    requires var x := Cut(n);
             && PlaceValue(s[0], 0) == Some(x.v0) && PlaceValue(s[1], 1) == Some(x.v1)
             && PlaceValue(s[2], 2) == Some(x.v2) && PlaceValue(s[3], 3) == Some(x.v3)
    ensures DecodeGroup(s) == Some(GroupBytes(n, pads))
  {
    CutJoins(n);
  }

  lemma SymbolPlaces(x: Sextets)
    requires x.v0 < 64 && x.v1 < 64 && x.v2 < 64 && x.v3 < 64
    ensures PlaceValue(Symbol(x.v0), 0) == Some(x.v0) && PlaceValue(Symbol(x.v1), 1) == Some(x.v1)
    ensures PlaceValue(Symbol(x.v2), 2) == Some(x.v2) && PlaceValue(Symbol(x.v3), 3) == Some(x.v3)
  {
    SymbolBack(x.v0);
    SymbolBack(x.v1);
    SymbolBack(x.v2);
    SymbolBack(x.v3);
    SymbolIsNotPad(x.v2);
    SymbolIsNotPad(x.v3);
  }

  /** The characters that encode `n`, the last `pads` of them padding. */
  lemma DecodePadded(n: nat, pads: nat)
    requires n < 0x100_0000 && pads <= 2
    requires (pads >= 1 ==> n % 64 == 0) && (pads == 2 ==> n / 64 % 64 == 0)
    ensures var x := Cut(n);
            DecodeGroup([Symbol(x.v0), Symbol(x.v1), if pads < 2 then Symbol(x.v2) else '=',
                         if pads < 1 then Symbol(x.v3) else '=']) == Some(GroupBytes(n, pads))
  {
    var x := Cut(n);
    var s := [Symbol(x.v0), Symbol(x.v1),
              if pads < 2 then Symbol(x.v2) else '=', if pads < 1 then Symbol(x.v3) else '='];
    SymbolPlaces(x);
    SymbolIsNotPad(x.v2);
    SymbolIsNotPad(x.v3);
    DecodeSymbols(s, n, pads);
  }

  lemma GroupRoundTrip(chunk: Chunk)
    ensures DecodeGroup(EncodeGroup(chunk)) == Some(chunk)
  {
    var b1, b2 := if |chunk| > 1 then chunk[1] else 0, if |chunk| > 2 then chunk[2] else 0;
    var n := Join(chunk[0], b1, b2);
    JoinBack(chunk[0], b1, b2);
    if |chunk| == 1 {
      TwoPadsAreZero(chunk[0]);
    } else if |chunk| == 2 {
      OnePadIsZero(chunk[0], b1);
    }
    DecodePadded(n, 3 - |chunk|);
    assert GroupBytes(n, 3 - |chunk|) == chunk;
    SameGroup(chunk, Cut(n));
  }

  lemma SameGroup(chunk: Chunk, x: Sextets)
    requires x == Cut(Join(chunk[0], if |chunk| > 1 then chunk[1] else 0, if |chunk| > 2 then chunk[2] else 0))
    ensures EncodeGroup(chunk) == [Symbol(x.v0), Symbol(x.v1), if 3 - |chunk| < 2 then Symbol(x.v2) else '=',
                                   if 3 - |chunk| < 1 then Symbol(x.v3) else '=']
  {
  }

  // ----- whole texts -----

  function GroupLength(data: seq<Octet>): (n: nat)
    requires data != []
    ensures 1 <= n <= 3 && n <= |data|
  {
    if |data| < 3 then |data| else 3
  }

  /** Three bytes at a time through `enc`, the last group with what is left. */
  function EncodeBy(enc: Chunk -> Quartet, data: seq<Octet>): string {
    if data == [] then ""
    else enc(data[..GroupLength(data)]) + EncodeBy(enc, data[GroupLength(data)..])
  }

  function Encode(data: Bytes): string {
    EncodeBy(EncodeGroup, Octets(data))
  }

  function Clean(text: string): string {
    if text == "" then ""
    else if AsciiSpace(text[0]) then Clean(text[1..])
    else [text[0]] + Clean(text[1..])
  }

  /** Four characters at a time through `dec`; one bad group refuses the text. */
  function DecodeBy(dec: Quartet -> Option<seq<Octet>>, s: string): Option<seq<Octet>>
    requires |s| % 4 == 0
  {
    if s == "" then Some([])
    else
      match dec(s[..4])
      case None => None
      case Some(front) =>
        match DecodeBy(dec, s[4..])
        case None => None
        case Some(rest) => Some(front + rest)
  }

  /** White space is skipped; padding is accepted in any group. */
  function Decode(text: string): Option<Bytes> {
    var s := Clean(text);
    if |s| % 4 != 0 then None
    else
      match DecodeBy(DecodeGroup, s)
      case None => None
      case Some(data) => Some(FromOctets(data))
  }

  lemma CountGroups(n: nat, k: nat)
    requires 1 <= k <= 3 && k <= n && (k == 3 || k == n)
    ensures (n + 2) / 3 == 1 + (n - k + 2) / 3
  {
  }

  /** Four characters for every three bytes begun. */
  lemma {:induction false} EncodedLength(enc: Chunk -> Quartet, data: seq<Octet>)
    ensures |EncodeBy(enc, data)| == 4 * ((|data| + 2) / 3)
  {
    if data != [] {
      CountGroups(|data|, GroupLength(data));
      EncodedLength(enc, data[GroupLength(data)..]);
    }
  }

  /** Only the alphabet and padding: printing characters above the space. */
  predicate Printable(s: string) {
    forall i | 0 <= i < |s| :: ' ' < s[i] <= 'z'
  }

  lemma GroupPrintable(chunk: Chunk)
    ensures Printable(EncodeGroup(chunk))
  {
    forall v: nat | v < 64
      ensures ' ' < Symbol(v) <= 'z'
    {
      SymbolIsNotPad(v);
    }
  }

  lemma {:induction false} EncodedPrintable(enc: Chunk -> Quartet, data: seq<Octet>)
    requires forall chunk: Chunk :: Printable(enc(chunk))
    ensures Printable(EncodeBy(enc, data))
  {
    if data != [] {
      assert Printable(enc(data[..GroupLength(data)]));
      EncodedPrintable(enc, data[GroupLength(data)..]);
    }
  }

  lemma {:induction false} CleanNothing(s: string)
    requires Printable(s)
    ensures Clean(s) == s
  {
    if s != "" {
      assert Printable(s[1..]) by {
        assert forall i | 0 <= i < |s| - 1 :: s[1..][i] == s[i + 1];
      }
      CleanNothing(s[1..]);
    }
  }

  /** Exactly these five characters are skipped, wherever they are. */
  lemma {:induction false} CleanExactly(s: string, t: string, c: char)
    ensures c in " \t\n\U{C}\r" ==> Clean(s + [c] + t) == Clean(s) + Clean(t)
    ensures c !in " \t\n\U{C}\r" ==> Clean(s + [c] + t) == Clean(s) + [c] + Clean(t)
  {
    if s == "" {
      assert s + [c] + t == [c] + t && ([c] + t)[1..] == t;
      assert AsciiSpace(c) <==> c in " \t\n\U{C}\r";
    } else {
      assert (s + [c] + t)[1..] == s[1..] + [c] + t;
      CleanExactly(s[1..], t, c);
    }
  }

  /** Groups are decoded in order. */
  lemma {:induction false} DecodeConcat(dec: Quartet -> Option<seq<Octet>>, s: string, t: string)
    requires |s| % 4 == 0 && |t| % 4 == 0
    ensures |s + t| % 4 == 0
    ensures var a, b := DecodeBy(dec, s), DecodeBy(dec, t);
            DecodeBy(dec, s + t) == if a.Some? && b.Some? then Some(a.value + b.value) else None
    decreases |s|
  {
    if s == "" {
      assert s + t == t;
      if DecodeBy(dec, t).Some? { assert [] + DecodeBy(dec, t).value == DecodeBy(dec, t).value; }
    } else {
      assert (s + t)[..4] == s[..4] && (s + t)[4..] == s[4..] + t;
      DecodeConcat(dec, s[4..], t);
      if dec(s[..4]).Some? && DecodeBy(dec, s[4..]).Some? && DecodeBy(dec, t).Some? {
        var x, y, z := dec(s[..4]).value, DecodeBy(dec, s[4..]).value, DecodeBy(dec, t).value;
        assert x + (y + z) == x + y + z;
      }
    }
  }

  lemma {:induction false} DecodeStep(
    dec: Quartet -> Option<seq<Octet>>, front: seq<Octet>, s: Quartet, t: string, rest: seq<Octet>
  )
    requires |t| % 4 == 0 && dec(s) == Some(front) && DecodeBy(dec, t) == Some(rest)
    ensures |s + t| % 4 == 0 && DecodeBy(dec, s + t) == Some(front + rest)
  {
    assert (s + t)[..4] == s && (s + t)[4..] == t;
  }

  lemma {:induction false} RoundTripBy(enc: Chunk -> Quartet, dec: Quartet -> Option<seq<Octet>>, data: seq<Octet>)
    requires forall chunk: Chunk :: dec(enc(chunk)) == Some(chunk)
    ensures |EncodeBy(enc, data)| % 4 == 0 && DecodeBy(dec, EncodeBy(enc, data)) == Some(data)
  {
    if data != [] {
      var k := GroupLength(data);
      var first: Chunk, rest := data[..k], data[k..];
      RoundTripBy(enc, dec, rest);
      DecodeStep(dec, first, enc(first), EncodeBy(enc, rest), rest);
      assert first + rest == data;
    }
  }

  lemma EncodeIsPrintable(data: Bytes)
    ensures Printable(Encode(data)) && Clean(Encode(data)) == Encode(data)
  {
    forall chunk: Chunk
      ensures Printable(EncodeGroup(chunk))
    {
      GroupPrintable(chunk);
    }
    EncodedPrintable(EncodeGroup, Octets(data));
    CleanNothing(Encode(data));
  }

  /** Decoding an encoded text gives the data back. */
  lemma RoundTrip(data: Bytes)
    ensures Decode(Encode(data)) == Some(data)
  {
    EncodeIsPrintable(data);
    forall chunk: Chunk
      ensures DecodeGroup(EncodeGroup(chunk)) == Some(chunk)
    {
      GroupRoundTrip(chunk);
    }
    RoundTripBy(EncodeGroup, DecodeGroup, Octets(data));
    OctetsBack(data);
  }

  // ----- the examples of RFC 4648, section 10 -----

  /** A number cut into the four sextets that make it up. */
  lemma CutIs(n: nat, v0: nat, v1: nat, v2: nat, v3: nat)
    requires v0 < 64 && v1 < 64 && v2 < 64 && v3 < 64 && n == 262144 * v0 + 4096 * v1 + 64 * v2 + v3
    ensures Cut(n) == Sextets(v0, v1, v2, v3)
  {
    assert n / 64 == 4096 * v0 + 64 * v1 + v2;
    assert n / 64 / 64 == 64 * v0 + v1;
  }

  lemma GroupExamples()
    ensures EncodeGroup([0x66, 0x6f, 0x6f]) == "Zm9v"
    ensures EncodeGroup([0x62]) == "Yg==" && EncodeGroup([0x62, 0x61]) == "YmE="
    ensures EncodeGroup([0x62, 0x61, 0x72]) == "YmFy"
  {
    CutIs(0x66_6f6f, 25, 38, 61, 47);
    CutIs(0x62_0000, 24, 32, 0, 0);
    CutIs(0x62_6100, 24, 38, 4, 0);
    CutIs(0x62_6172, 24, 38, 5, 50);
  }

  lemma {:induction false} OneGroup(enc: Chunk -> Quartet, data: seq<Octet>)
    requires 1 <= |data| <= 3
    ensures EncodeBy(enc, data) == enc(data)
  {
    assert data[..|data|] == data && enc(data) + "" == enc(data);
  }

  lemma {:induction false} TwoGroups(enc: Chunk -> Quartet, a: Chunk, b: Chunk)
    requires |a| == 3
    ensures EncodeBy(enc, a + b) == enc(a) + enc(b)
  {
    assert (a + b)[..3] == a && (a + b)[3..] == b;
    OneGroup(enc, b);
  }

  lemma Rfc4648Examples()
    ensures EncodeBy(EncodeGroup, [0x66, 0x6f, 0x6f, 0x62]) == "Zm9vYg=="
    ensures EncodeBy(EncodeGroup, [0x66, 0x6f, 0x6f, 0x62, 0x61]) == "Zm9vYmE="
    ensures EncodeBy(EncodeGroup, [0x66, 0x6f, 0x6f, 0x62, 0x61, 0x72]) == "Zm9vYmFy"
  {
    GroupExamples();
    var foo: Chunk, b: Chunk, ba: Chunk, bar: Chunk := [0x66, 0x6f, 0x6f], [0x62], [0x62, 0x61], [0x62, 0x61, 0x72];
    TwoGroups(EncodeGroup, foo, b);
    TwoGroups(EncodeGroup, foo, ba);
    TwoGroups(EncodeGroup, foo, bar);
    assert foo + b == [0x66, 0x6f, 0x6f, 0x62] && foo + ba == [0x66, 0x6f, 0x6f, 0x62, 0x61];
    assert foo + bar == [0x66, 0x6f, 0x6f, 0x62, 0x61, 0x72];
    assert "Zm9v" + "Yg==" == "Zm9vYg==" && "Zm9v" + "YmE=" == "Zm9vYmE=" && "Zm9v" + "YmFy" == "Zm9vYmFy";
  }

  // ----- the loops -----

  lemma {:induction false} EncodeStep(enc: Chunk -> Quartet, out: string, data: seq<Octet>, k: nat)
    requires data != [] && k == GroupLength(data)
    ensures out + enc(data[..k]) + EncodeBy(enc, data[k..]) == out + EncodeBy(enc, data)
  {
  }

  /** `base64_encode`. */
  method EncodeText(data: Bytes) returns (out: string)
    ensures out == Encode(data)
  {
    ghost var enc := EncodeGroup;
    var rest := Octets(data);
    out := "";
    while rest != []
      invariant out + EncodeBy(enc, rest) == EncodeBy(enc, Octets(data))
      decreases |rest|
    {
      var k := GroupLength(rest);
      EncodeStep(enc, out, rest, k);
      out := out + EncodeGroup(rest[..k]);
      rest := rest[k..];
    }
  }

  lemma {:induction false} CleanSnoc(text: string, c: char)
    ensures Clean(text + [c]) == Clean(text) + (if AsciiSpace(c) then "" else [c])
  {
    if text != "" {
      assert (text + [c])[1..] == text[1..] + [c];
      CleanSnoc(text[1..], c);
    } else {
      assert text + [c] == [c];
    }
  }

  method CleanText(text: string) returns (out: string)
    ensures out == Clean(text)
  {
    out := "";
    for i := 0 to |text|
      invariant out == Clean(text[..i])
    {
      CleanSnoc(text[..i], text[i]);
      assert text[..i + 1] == text[..i] + [text[i]];
      if !AsciiSpace(text[i]) { out := out + [text[i]]; }
    }
    assert text[..|text|] == text;
  }

  /** The four values of a group and the number of padding characters among them. */
  method DecodeQuartet(chunk: Quartet) returns (r: Option<seq<Octet>>)
    ensures r == DecodeGroup(chunk)
  {
    var vals := new nat[4](_ => 0);
    var pad := 0;
    for i := 0 to 4
      invariant forall j | 0 <= j < i :: PlaceValue(chunk[j], j) == Some(vals[j])
      invariant pad == (if i > 2 && chunk[2] == '=' then 1 else 0) + (if i > 3 && chunk[3] == '=' then 1 else 0)
    {
      if chunk[i] == '=' && i >= 2 {
        pad := pad + 1;
        vals[i] := 0;
      } else {
        var v := SymbolValue(chunk[i]);
        if v.None? { return None; }
        vals[i] := v.value;
      }
    }
    assert PlaceValue(chunk[0], 0) == Some(vals[0]) && PlaceValue(chunk[1], 1) == Some(vals[1]);
    assert PlaceValue(chunk[2], 2) == Some(vals[2]) && PlaceValue(chunk[3], 3) == Some(vals[3]);
    r := Some(GroupBytes(64 * (64 * (64 * vals[0] + vals[1]) + vals[2]) + vals[3], pad));
  }

  /** What decoding the rest of a text adds to the bytes already out. */
  function Onto(out: seq<Octet>, rest: Option<seq<Octet>>): Option<seq<Octet>> {
    match rest
    case None => None
    case Some(more) => Some(out + more)
  }

  lemma OntoEnds(out: seq<Octet>, rest: Option<seq<Octet>>)
    ensures Onto([], rest) == rest && Onto(out, Some([])) == Some(out)
  {
    assert out + [] == out;
    if rest.Some? { assert [] + rest.value == rest.value; }
  }

  lemma {:induction false} DecodeLoopStep(dec: Quartet -> Option<seq<Octet>>, out: seq<Octet>, s: string)
    requires |s| % 4 == 0 && s != ""
    ensures dec(s[..4]).None? ==> Onto(out, DecodeBy(dec, s)).None?
    ensures dec(s[..4]).Some? ==>
              Onto(out, DecodeBy(dec, s)) == Onto(out + dec(s[..4]).value, DecodeBy(dec, s[4..]))
  {
    if dec(s[..4]).Some? && DecodeBy(dec, s[4..]).Some? {
      var front, rest := dec(s[..4]).value, DecodeBy(dec, s[4..]).value;
      assert out + front + rest == out + (front + rest);
    }
  }

  method DecodeQuartets(s: string) returns (r: Option<seq<Octet>>)
    requires |s| % 4 == 0
    ensures r == DecodeBy(DecodeGroup, s)
  {
    ghost var dec := DecodeGroup;
    var out, rest := [], s;
    OntoEnds(out, DecodeBy(dec, s));
    while rest != ""
      invariant |rest| % 4 == 0
      invariant Onto(out, DecodeBy(dec, rest)) == DecodeBy(dec, s)
      decreases |rest|
    {
      DecodeLoopStep(dec, out, rest);
      var bytes := DecodeQuartet(rest[..4]);
      if bytes.None? { return None; }
      out := out + bytes.value;
      rest := rest[4..];
    }
    OntoEnds(out, Some([]));
    r := Some(out);
  }

  /** `base64_decode`. */
  method DecodeText(text: string) returns (r: Option<Bytes>)
    ensures r == Decode(text)
  {
    var cleaned := CleanText(text);
    if |cleaned| % 4 != 0 { return None; }
    var data := DecodeQuartets(cleaned);
    match data {
      case None => r := None;
      case Some(d) => r := Some(FromOctets(d));
    }
  }
}
