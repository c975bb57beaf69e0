/** Numbers as fixed-width big-endian byte strings (`to_be_bytes`). */
module BigEndian {
  import opened Bytes

  function Pow256(n: nat): (p: nat)
    ensures p >= 1
  {
    if n == 0 then 1 else 256 * Pow256(n - 1)
  }

  function Encode(x: nat, n: nat): (s: Bytes)
    ensures |s| == n
  {
    if n == 0 then [] else Encode(x / 256, n - 1) + [(x % 256) as bv8]
  }

  function Value(s: Bytes): nat {
    if s == [] then 0 else 256 * Value(s[..|s| - 1]) + ByteValue(s[|s| - 1])
  }

  function ByteValue(b: byte): (n: nat)
    ensures n < 256
  {
    b as int
  }

  /** Decoding gives the number back, reduced to the width. */
  lemma {:induction false} ValueOfEncode(x: nat, n: nat)
    ensures x < Pow256(n) ==> Value(Encode(x, n)) == x
  {
    if n > 0 {
      ValueOfEncode(x / 256, n - 1);
      ByteOfInt(x % 256);
      assert Encode(x, n)[..n - 1] == Encode(x / 256, n - 1);
    }
  }

  lemma ValueSnoc(s: Bytes, b: byte)
    ensures Value(s + [b]) == 256 * Value(s) + ByteValue(b)
  {
    assert (s + [b])[..|s|] == s;
  }

  lemma Regroup(x: nat, p: nat, y: nat)
    ensures 256 * (x * p + y) == x * (256 * p) + 256 * y
  {
  }

  /** Whatever value is built up from the last digit is led by the first. */
  lemma {:induction false} FirstLeads<D(!new)>(value: seq<D> -> nat, digit: D -> nat, b: D, s: seq<D>)
    requires value([]) == 0 && forall t, c :: value(t + [c]) == 256 * value(t) + digit(c)
    ensures value([b] + s) == digit(b) * Pow256(|s|) + value(s)
    decreases |s|
  {
    if s == [] {
      assert [b] + s == [] + [b];
      assert value([] + [b]) == 256 * value([]) + digit(b);
    } else {
      var n := |s| - 1;
      var t, c := s[..n], s[n];
      FirstLeads(value, digit, b, t);
      assert [b] + s == [b] + t + [c] && s == t + [c];
      Regroup(digit(b), Pow256(n), value(t));
    }
  }

  /** The first byte is the most significant. */
  lemma FirstByteLeads(b: byte, s: Bytes)
    ensures Value([b] + s) == ByteValue(b) * Pow256(|s|) + Value(s)
  {
    forall t, c
      ensures Value(t + [c]) == 256 * Value(t) + ByteValue(c)
    {
      ValueSnoc(t, c);
    }
    FirstLeads(Value, ByteValue, b, s);
  }

  lemma {:induction false} Injective(x: nat, y: nat, n: nat)
    requires x < Pow256(n) && y < Pow256(n) && Encode(x, n) == Encode(y, n)
    ensures x == y
  {
    ValueOfEncode(x, n);
    ValueOfEncode(y, n);
  }
}
