/** Bytes, and the UTF-8 encoding that `as_bytes` exposes. */
module Bytes {

  type byte = bv8

  type Bytes = seq<byte>

  const NEWLINE: byte := 0x0A

  lemma AddOne(b: byte)
    requires b != 255
    ensures (b + 1) as int == b as int + 1
  {
  }

  lemma Below(b: byte)
    ensures b as int < 255 <==> b != 255
  {
  }

  lemma IntOfByte(b: byte)
    ensures (b as int) as bv8 == b
  {
  }

  lemma {:induction false} ByteWithValue(x: int) returns (b: byte)
    requires 0 <= x < 256
    ensures b as int == x
  {
    if x == 0 {
      b := 0;
    } else {
      b := ByteWithValue(x - 1);
      Below(b);
      AddOne(b);
      b := b + 1;
    }
  }

  /** Casting a small number to a byte loses nothing. */
  lemma ByteOfInt(x: int)
    requires 0 <= x < 256
    ensures (x as bv8) as int == x
  {
    var b := ByteWithValue(x);
    IntOfByte(b);
  }

  // ----- bytes as numbers -----

  type Octet = n: nat | n < 256

  function Octets(s: Bytes): (r: seq<Octet>)
    ensures |r| == |s|
  {
    if s == [] then [] else [s[0] as int] + Octets(s[1..])
  }

  function FromOctets(r: seq<Octet>): (s: Bytes)
    ensures |s| == |r|
  {
    if r == [] then [] else [r[0] as bv8] + FromOctets(r[1..])
  }

  lemma {:induction false} OctetsBack(s: Bytes)
    ensures FromOctets(Octets(s)) == s
  {
    if s != [] {
      IntOfByte(s[0]);
      OctetsBack(s[1..]);
      assert Octets(s)[1..] == Octets(s[1..]);
    }
  }
}
