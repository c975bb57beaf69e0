/** UTF-8 encoding of Unicode scalars (RFC 3629, section 3): what `as_bytes` and `len` see. */
module Utf8 {
  import opened Bytes

  /** The code units of one scalar, as numbers. */
  function Units(n: nat): (u: seq<nat>)
    requires n < 0x11_0000
    ensures 1 <= |u| <= 4 && forall i | 0 <= i < |u| :: u[i] < 256
  {
    if n < 0x80 then [n]
    else if n < 0x800 then [0xc0 + n / 64, 0x80 + n % 64]
    else if n < 0x1_0000 then [0xe0 + n / 64 / 64, 0x80 + n / 64 % 64, 0x80 + n % 64]
    else [0xf0 + n / 64 / 64 / 64, 0x80 + n / 64 / 64 % 64, 0x80 + n / 64 % 64, 0x80 + n % 64]
  }

  function Cast(u: seq<nat>): (b: Bytes)
    requires forall i | 0 <= i < |u| :: u[i] < 256
    ensures |b| == |u|
  {
    if u == [] then [] else [u[0] as bv8] + Cast(u[1..])
  }

  function EncodeChar(c: char): Bytes {
    Cast(Units(c as int))
  }

  function Encode(s: string): Bytes {
    if s == "" then [] else EncodeChar(s[0]) + Encode(s[1..])
  }

  /** `str::len`. */
  function Length(s: string): nat {
    if s == "" then 0 else |Units(s[0] as int)| + Length(s[1..])
  }

  lemma {:induction false} LengthIsBytes(s: string)
    ensures |Encode(s)| == Length(s)
  {
    if s != "" { LengthIsBytes(s[1..]); }
  }

  lemma SameByte(x: nat, y: nat)
    requires x < 256 && y < 256 && x as bv8 == y as bv8
    ensures x == y
  {
    ByteOfInt(x);
    ByteOfInt(y);
  }

  lemma {:induction false} CastAt(u: seq<nat>, k: nat)
    requires (forall i | 0 <= i < |u| :: u[i] < 256) && k < |u|
    ensures Cast(u)[k] == u[k] as bv8
  {
    if k > 0 { CastAt(u[1..], k - 1); }
  }

  lemma {:induction false} CastPrefix(u: seq<nat>, v: seq<nat>, a: Bytes, b: Bytes, k: nat)
    requires forall i | 0 <= i < |u| :: u[i] < 256
    requires forall i | 0 <= i < |v| :: v[i] < 256
    requires Cast(u) + a == Cast(v) + b && k < |u| && k < |v|
    ensures u[k] == v[k]
  {
    assert (Cast(u) + a)[k] == Cast(u)[k] && (Cast(v) + b)[k] == Cast(v)[k];
    CastAt(u, k);
    CastAt(v, k);
    SameByte(u[k], v[k]);
  }

  /** The first unit tells how many follow. */
  lemma LeadTellsLength(n: nat, m: nat)
    requires n < 0x11_0000 && m < 0x11_0000 && Units(n)[0] == Units(m)[0]
    ensures |Units(n)| == |Units(m)|
  {
  }

  /** The scalar that units stand for. */
  function UnitsValue(u: seq<int>): int
    requires 1 <= |u| <= 4
  {
    if |u| == 1 then u[0]
    else if |u| == 2 then (u[0] - 0xc0) * 64 + (u[1] - 0x80)
    else if |u| == 3 then ((u[0] - 0xe0) * 64 + (u[1] - 0x80)) * 64 + (u[2] - 0x80)
    else (((u[0] - 0xf0) * 64 + (u[1] - 0x80)) * 64 + (u[2] - 0x80)) * 64 + (u[3] - 0x80)
  }

  lemma ValueOfUnits(n: nat)
    requires n < 0x11_0000
    ensures UnitsValue(Units(n)) == n
  {
    var q := n / 64;
    assert n == q * 64 + n % 64;
    assert q == q / 64 * 64 + q % 64;
    assert q / 64 == q / 64 / 64 * 64 + q / 64 % 64;
  }

  /** The first and last scalars of each length (RFC 3629, section 3). */
  lemma UnitsExamples()
    ensures Units(0) == [0] && Units(0x7f) == [0x7f]
    ensures Units(0x80) == [0xc2, 0x80] && Units(0x7ff) == [0xdf, 0xbf]
    ensures Units(0x800) == [0xe0, 0xa0, 0x80] && Units(0xffff) == [0xef, 0xbf, 0xbf]
    ensures Units(0x1_0000) == [0xf0, 0x90, 0x80, 0x80] && Units(0x10_ffff) == [0xf4, 0x8f, 0xbf, 0xbf]
  {
  }

  /** Each byte of a character is its unit. */
  lemma EncodeCharAt(c: char, k: nat)
    requires k < |Units(c as int)|
    ensures |EncodeChar(c)| == |Units(c as int)| && EncodeChar(c)[k] as int == Units(c as int)[k]
  {
    CastAt(Units(c as int), k);
    ByteOfInt(Units(c as int)[k]);
  }

  /** Characters are encoded one after the other. */
  lemma {:induction false} EncodeConcat(s: string, t: string)
    ensures Encode(s + t) == Encode(s) + Encode(t)
  {
    if s == "" {
      assert s + t == t;
    } else {
      assert (s + t)[1..] == s[1..] + t;
      EncodeConcat(s[1..], t);
    }
  }

  lemma EncodeCharPrefixFree(c: char, d: char, a: Bytes, b: Bytes)
    requires EncodeChar(c) + a == EncodeChar(d) + b
    ensures c == d && a == b
  {
    var u, v := Units(c as int), Units(d as int);
    CastPrefix(u, v, a, b, 0);
    LeadTellsLength(c as int, d as int);
    forall k | 0 <= k < |u|
      ensures u[k] == v[k]
    {
      CastPrefix(u, v, a, b, k);
    }
    assert u == v;
    ValueOfUnits(c as int);
    ValueOfUnits(d as int);
    assert a == (EncodeChar(c) + a)[|u|..] && b == (EncodeChar(d) + b)[|v|..];
  }

  lemma {:induction false} SomeBytes(s: string)
    ensures s != "" ==> |Encode(s)| > 0
  {
  }

  /** Different strings have different bytes. */
  lemma {:induction false} EncodeInjective(s: string, t: string)
    requires Encode(s) == Encode(t)
    ensures s == t
    decreases |s|
  {
    if s != "" && t != "" {
      EncodeCharPrefixFree(s[0], t[0], Encode(s[1..]), Encode(t[1..]));
      EncodeInjective(s[1..], t[1..]);
      assert s == [s[0]] + s[1..] && t == [t[0]] + t[1..];
    } else {
      SomeBytes(s);
      SomeBytes(t);
    }
  }

  lemma UnitNotNewline(n: nat, k: nat)
    requires n < 0x11_0000 && k < |Units(n)| && n != 10
    ensures Units(n)[k] != 10
  {
  }

  lemma CharNoNewline(c: char)
    requires c != '\n'
    ensures NEWLINE !in EncodeChar(c)
  {
    var u := Units(c as int);
    forall k | 0 <= k < |u|
      ensures EncodeChar(c)[k] != NEWLINE
    {
      UnitNotNewline(c as int, k);
      CastAt(u, k);
      if u[k] as bv8 == NEWLINE { SameByte(u[k], 10); }
    }
  }

  /** A newline byte comes only from a newline character. */
  lemma {:induction false} NoNewlineBytes(s: string)
    requires '\n' !in s
    ensures NEWLINE !in Encode(s)
  {
    if s != "" {
      CharNoNewline(s[0]);
      assert '\n' !in s[1..];
      NoNewlineBytes(s[1..]);
    }
  }
}
