/** The one padded block of the message "abc", which both hash functions' published examples start from. */
module AbcBlock {
  import opened Bytes
  import opened Sha2
  import BigEndian
  import MessagePadding

  const ABC: Bytes := [0x61, 0x62, 0x63]

  /** The padded message: the marker, zeros, and the length in bits, 24. */
  ghost predicate IsBlock(block: Bytes) {
    && |block| == 64 && block[0] == 0x61 && block[1] == 0x62 && block[2] == 0x63 && block[3] == 0x80
    && (forall i | 4 <= i < 63 :: block[i] == 0) && block[63] == 0x18
  }

  lemma {:induction false} ZeroBytes(n: nat, i: nat)
    requires i < n
    ensures BigEndian.Encode(0, n)[i] == 0
  {
    if i < n - 1 { ZeroBytes(n - 1, i); }
  }

  /** A small number is zeros and then one byte. */
  lemma {:induction false} SmallEncoded(x: nat, n: nat, i: nat)
    requires x < 256 && i < n
    ensures BigEndian.Encode(x, n)[i] == if i == n - 1 then x as bv8 else 0
  {
    assert x / 256 == 0 && x % 256 == x;
    if i < n - 1 { ZeroBytes(n - 1, i); }
  }

  /** A message of three bytes is one block. */
  lemma OneBlock(data: Bytes) returns (p: Bytes, bits: nat)
    requires |data| == 3
    ensures MessageBlocks(data) == [p]
    ensures |p| == 64 && p[..3] == data && p[3] == 0x80 && forall i | 3 < i < 56 :: p[i] == 0
    ensures bits == 24 && p[56..] == BigEndian.Encode(bits, 8)
  {
    bits := MessagePadding.BitLength(|data|);
    ThreeBytes(|data|);
    MessagePadding.Layout(data);
    p := OnlyBlock(MessagePadding.Padded(data));
  }

  lemma ThreeBytes(n: nat)
    requires n == 3
    ensures MessagePadding.Zeros(n) == 52 && MessagePadding.BitLength(n) == 24
  {
  }

  lemma OnlyBlock(padded: Bytes) returns (p: Bytes)
    requires |padded| == 64
    ensures p == padded && MessagePadding.Blocks(padded) == [p]
  {
    p := padded;
    assert padded[0..64] == padded;
  }

  lemma {:induction false} LengthField(p: Bytes, x: nat)
    requires |p| == 64 && x == 24 && p[56..] == BigEndian.Encode(x, 8)
    ensures p[63] == 0x18 && forall i | 56 <= i < 63 :: p[i] == 0
  {
    forall i: nat | 56 <= i < 63
      ensures p[i] == 0
    {
      assert p[i] == p[56..][i - 56];
      SmallEncoded(x, 8, i - 56);
    }
    assert p[63] == p[56..][7];
    SmallEncoded(x, 8, 7);
    TwentyFour(x, p[63]);
  }

  lemma TwentyFour(x: nat, b: byte)
    requires x == 24 && b == x as bv8
    ensures b == 0x18
  {
  }

  lemma {:induction false} PaddedAbc(p: Bytes, bits: nat)
    requires |p| == 64 && p[..3] == ABC && p[3] == 0x80 && forall i | 3 < i < 56 :: p[i] == 0
    requires bits == 24 && p[56..] == BigEndian.Encode(bits, 8)
    ensures IsBlock(p)
  {
    LengthField(p, bits);
    assert p[0] == p[..3][0] && p[1] == p[..3][1] && p[2] == p[..3][2];
  }
}
