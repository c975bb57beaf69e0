/** `padded_blocks`: the padding of section 5.1.1 of FIPS 180-4, in bytes. */
module MessagePadding {
  import BigEndian
  import opened Bytes

  const WORD64: nat := 0x1_0000_0000_0000_0000

  /** Zero bytes between the end marker and the length. */
  function Zeros(n: nat): (k: nat)
    ensures k < 64 && (n + 1 + k) % 64 == 56 && (n + 9 + k) % 64 == 0
  {
    (119 - n % 64) % 64
  }

  function ZeroBytes(k: nat): (s: Bytes)
    ensures |s| == k && forall i | 0 <= i < k :: s[i] == 0
  {
    seq(k, i requires 0 <= i < k => 0)
  }

  /** The message, the end marker and the zeros: all but the length. */
  function Marked(data: Bytes): (m: Bytes)
    ensures |m| == |data| + 1 + Zeros(|data|)
  {
    data + [0x80] + ZeroBytes(Zeros(|data|))
  }

  /** The bit length as the sixty-four bit number the program computes. */
  function BitLength(n: nat): nat {
    8 * n % WORD64
  }

  function Padded(data: Bytes): (p: Bytes)
    ensures |p| % 64 == 0 && |p| == |data| + 9 + Zeros(|data|)
  {
    Marked(data) + BigEndian.Encode(BitLength(|data|), 8)
  }

  /** No shorter run of zeros leaves exactly the length field to the end of a block. */
  lemma LeastPadding(n: nat, k: nat)
    requires (n + 1 + k) % 64 == 56
    ensures Zeros(n) <= k
  {
  }

  /**
   What is where: the message, a byte 0x80, zeros up to the last eight bytes, and in those the number
   of bits, most significant byte first.
   */
  lemma Layout(data: Bytes)
    ensures var p, n := Padded(data), |data|;
            && p[..n] == data && p[n] == 0x80 && (forall i | n < i < |p| - 8 :: p[i] == 0)
            && BigEndian.Value(p[|p| - 8..]) == 8 * n % 0x1_0000_0000_0000_0000
            && p[|p| - 8..] == BigEndian.Encode(BitLength(n), 8)
  {
    var p, m, n := Padded(data), Marked(data), |data|;
    assert p[..|m|] == m && p[|m|..] == BigEndian.Encode(BitLength(n), 8);
    MarkedLayout(data);
    assert forall i | 0 <= i < |m| :: p[i] == m[i];
    BitLengthFits(n);
    BigEndian.ValueOfEncode(BitLength(n), 8);
  }

  lemma MarkedLayout(data: Bytes)
    ensures var m, n := Marked(data), |data|;
            m[..n] == data && m[n] == 0x80 && forall i | n < i < |m| :: m[i] == 0
  {
    var z := ZeroBytes(Zeros(|data|));
    assert Marked(data) == data + [0x80] + z;
    assert forall i | |data| < i < |Marked(data)| :: Marked(data)[i] == z[i - |data| - 1];
  }

  /** The last `n` bytes tell the length, and so where the rest ends. */
  lemma {:induction false} SplitUnique(a: Bytes, b: Bytes, x: nat, y: nat, n: nat)
    requires x < BigEndian.Pow256(n) && y < BigEndian.Pow256(n)
    requires a + BigEndian.Encode(x, n) == b + BigEndian.Encode(y, n)
    ensures a == b && x == y
  {
    var p := a + BigEndian.Encode(x, n);
    assert p[..|p| - n] == a && p[|p| - n..] == BigEndian.Encode(x, n);
    BigEndian.Injective(x, y, n);
  }

  lemma MarkedData(data: Bytes)
    ensures Marked(data)[..|data|] == data
  {
  }

  lemma MarkedUnique(a: Bytes, b: Bytes)
    requires Marked(a) == Marked(b) && |a| == |b|
    ensures a == b
  {
    MarkedData(a);
    MarkedData(b);
  }

  lemma BitLengthFits(n: nat)
    ensures BitLength(n) < BigEndian.Pow256(8)
  {
    EightBytes();
  }

  /** Lengths that wrap to one number are equal or very far apart. */
  lemma WrapsFarApart(n: nat, m: nat)
    requires BitLength(n) == BitLength(m) && -64 < n - m < 64
    ensures n == m
  {
    assert 8 * n - 8 * m == WORD64 * (8 * n / WORD64 - 8 * m / WORD64);
  }

  /** Different messages have different padded forms, even where the bit length wraps around. */
  lemma Injective(a: Bytes, b: Bytes)
    requires Padded(a) == Padded(b)
    ensures a == b
  {
    BitLengthFits(|a|);
    BitLengthFits(|b|);
    SplitUnique(Marked(a), Marked(b), BitLength(|a|), BitLength(|b|), 8);
    WrapsFarApart(|a|, |b|);
    MarkedUnique(a, b);
  }

  lemma EightBytes()
    ensures BigEndian.Pow256(8) == WORD64
  {
    assert BigEndian.Pow256(4) == 0x1_0000_0000;
    assert BigEndian.Pow256(8) == 256 * (256 * (256 * (256 * BigEndian.Pow256(4))));
  }

  function Blocks(p: Bytes): (bs: seq<Bytes>)
    requires |p| % 64 == 0
    ensures |bs| == |p| / 64 && forall i | 0 <= i < |bs| :: |bs[i]| == 64 && bs[i] == p[64 * i..64 * i + 64]
  {
    seq(|p| / 64, i requires 0 <= i < |p| / 64 => p[64 * i..64 * i + 64])
  }

  /** The loop that appends zeros until a block has room for the length only. */
  method PadZeros(data: Bytes) returns (padded: Bytes)
    ensures padded == Marked(data)
  {
    padded := data + [0x80];
    ghost var k := 0;
    while |padded| % 64 != 56
      invariant padded == data + [0x80] + ZeroBytes(k)
      invariant k <= Zeros(|data|)
      decreases Zeros(|data|) - k
    {
      assert ZeroBytes(k) + [0] == ZeroBytes(k + 1);
      padded := padded + [0];
      k := k + 1;
    }
    LeastPadding(|data|, k);
  }

  method Chunks(padded: Bytes) returns (blocks: seq<Bytes>)
    requires |padded| % 64 == 0
    ensures blocks == Blocks(padded)
  {
    blocks := [];
    for i := 0 to |padded| / 64
      invariant blocks == Blocks(padded)[..i]
    {
      blocks := blocks + [padded[64 * i..64 * i + 64]];
    }
  }

  /** `padded_blocks`. */
  method PaddedBlocks(data: Bytes) returns (blocks: seq<Bytes>)
    ensures blocks == Blocks(Padded(data))
  {
    var bitLen := BitLength(|data|);
    var padded := PadZeros(data);
    blocks := Chunks(padded + BigEndian.Encode(bitLen, 8));
  }
}
