/** Cipher block chaining (SP 800-38A, section 6.2) with PKCS#7 padding, over any sixteen byte block cipher. */
module Cbc {
  import opened AesCipher
  import opened AesRounds
  import opened Bytes
  import opened Wrappers

  datatype Error = BadLength | BadPadding

  // ----- chaining -----

  predicate Aligned(data: Bytes) {
    |data| % 16 == 0
  }

  lemma Shorter(data: Bytes)
    requires Aligned(data) && data != []
    ensures |data| >= 16 && Aligned(data[16..])
  {
  }

  function First(data: Bytes): Block
    requires Aligned(data) && data != []
  {
    Shorter(data);
    data[..16]
  }

  function Rest(data: Bytes): (r: Bytes)
    requires Aligned(data) && data != []
    ensures Aligned(r) && |r| < |data| && First(data) + r == data
  {
    Shorter(data);
    data[16..]
  }

  lemma Joined(b: Block, data: Bytes)
    requires Aligned(data)
    ensures Aligned(b + data) && First(b + data) == b && Rest(b + data) == data
  {
  }

  function Chain(enc: Block -> Block, prev: Block, data: Bytes): (c: Bytes)
    requires Aligned(data)
    ensures |c| == |data|
    decreases |data|
  {
    if data == [] then []
    else
      var block := enc(AddKey(First(data), prev));
      block + Chain(enc, block, Rest(data))
  }

  function Unchain(dec: Block -> Block, prev: Block, data: Bytes): (p: Bytes)
    requires Aligned(data)
    ensures |p| == |data|
    decreases |data|
  {
    if data == [] then [] else AddKey(dec(First(data)), prev) + Unchain(dec, First(data), Rest(data))
  }

  /** One pass of a decryption loop that has produced `out` so far. */
  lemma {:induction false} UnchainStep(dec: Block -> Block, prev: Block, data: Bytes, out: Bytes, block: Block)
    requires Aligned(data) && data != [] && block == AddKey(dec(First(data)), prev)
    ensures out + Unchain(dec, prev, data) == out + block + Unchain(dec, First(data), Rest(data))
  {
  }

  /** Block `i` is the block cipher's answer to that block of the data, added to the block before it. */
  lemma {:induction false} ChainAt(enc: Block -> Block, prev: Block, data: Bytes, i: nat)
    requires Aligned(data) && 16 * i + 16 <= |data|
    ensures var c := Chain(enc, prev, data);
            var before: Block := if i == 0 then prev else c[16 * i - 16..16 * i];
            c[16 * i..16 * i + 16] == enc(AddKey(data[16 * i..16 * i + 16], before))
    decreases |data|
  {
    var block := enc(AddKey(First(data), prev));
    var rest := Chain(enc, block, Rest(data));
    var c := Chain(enc, prev, data);
    assert c[..16] == block && c[16..] == rest;
    if i > 0 {
      ChainAt(enc, block, Rest(data), i - 1);
      assert c[16 * i..16 * i + 16] == rest[16 * (i - 1)..16 * (i - 1) + 16];
      assert data[16 * i..16 * i + 16] == Rest(data)[16 * (i - 1)..16 * (i - 1) + 16];
      if i > 1 { assert c[16 * i - 16..16 * i] == rest[16 * (i - 1) - 16..16 * (i - 1)]; }
    }
  }

  ghost predicate Inverses(enc: Block -> Block, dec: Block -> Block) {
    (forall b: Block :: dec(enc(b)) == b) && (forall b: Block :: enc(dec(b)) == b)
  }

  lemma {:induction false} UnchainOfChain(enc: Block -> Block, dec: Block -> Block, prev: Block, data: Bytes)
    requires Aligned(data) && Inverses(enc, dec)
    ensures Unchain(dec, prev, Chain(enc, prev, data)) == data
    decreases |data|
  {
    if data != [] {
      var block := enc(AddKey(First(data), prev));
      Joined(block, Chain(enc, block, Rest(data)));
      AddKeyInverse(First(data), prev);
      UnchainOfChain(enc, dec, block, Rest(data));
    }
  }

  lemma {:induction false} ChainOfUnchain(enc: Block -> Block, dec: Block -> Block, prev: Block, data: Bytes)
    requires Aligned(data) && Inverses(enc, dec)
    ensures Chain(enc, prev, Unchain(dec, prev, data)) == data
    decreases |data|
  {
    if data != [] {
      var first := First(data);
      Joined(AddKey(dec(first), prev), Unchain(dec, first, Rest(data)));
      AddKeyInverse(dec(first), prev);
      ChainOfUnchain(enc, dec, first, Rest(data));
    }
  }

  // ----- padding -----

  function PadLength(n: nat): (k: nat)
    ensures 1 <= k <= 16 && (n + k) % 16 == 0
  {
    16 - n % 16
  }

  function Repeat(b: byte, n: nat): (s: Bytes)
    ensures |s| == n && forall i | 0 <= i < n :: s[i] == b
  {
    seq(n, i requires 0 <= i < n => b)
  }

  function Pad(data: Bytes): (r: Bytes)
    ensures Aligned(r) && |r| > 0
  {
    data + Repeat(PadLength(|data|) as bv8, PadLength(|data|))
  }

  function Unpad(data: Bytes): Result<Bytes, Error>
    requires |data| > 0
  {
    var pad := data[|data| - 1] as int;
    if pad == 0 || pad > 16 || |data| < pad then Err(BadPadding)
    else if exists i | |data| - pad <= i < |data| :: data[i] as int != pad then Err(BadPadding)
    else Ok(data[..|data| - pad])
  }

  /** One to sixteen bytes that each say how many there are, up to the next multiple of sixteen. */
  lemma PadIs(p: Bytes)
    ensures var q, k := Pad(p), |Pad(p)| - |p|;
            && 1 <= k <= 16 && |q| % 16 == 0 && q[..|p|] == p
            && forall i | |p| <= i < |q| :: q[i] as int == k
  {
    ByteOfInt(PadLength(|p|));
  }

  lemma UnpadOfPad(p: Bytes)
    ensures Unpad(Pad(p)) == Ok(p)
  {
    ByteOfInt(PadLength(|p|));
    assert Pad(p)[..|p|] == p;
  }

  lemma PadLengthBack(n: nat, pad: nat)
    requires n % 16 == 0 && 1 <= pad <= 16 && pad <= n
    ensures PadLength(n - pad) == pad
  {
  }

  lemma PadOfUnpad(d: Bytes, p: Bytes)
    requires |d| > 0 && Aligned(d) && Unpad(d) == Ok(p)
    ensures Pad(p) == d
  {
    var last := d[|d| - 1];
    var pad := last as int;
    IntOfByte(last);
    PadLengthBack(|d|, pad);
    assert p == d[..|d| - pad];
    forall i | |d| - pad <= i < |d|
      ensures d[i] == last
    {
      IntOfByte(d[i]);
    }
    assert d[|d| - pad..] == Repeat(last, pad);
  }

  /** `Unpad` as the decoder tests it: every one of the last bytes, in turn. */
  method StripPadding(data: Bytes) returns (r: Result<Bytes, Error>)
    requires |data| > 0
    ensures r == Unpad(data)
  {
    var pad := data[|data| - 1] as int;
    if pad == 0 || pad > 16 || |data| < pad {
      return Err(BadPadding);
    }
    for i := |data| - pad to |data|
      invariant forall j | |data| - pad <= j < i :: data[j] as int == pad
    {
      if data[i] as int != pad { return Err(BadPadding); }
    }
    return Ok(data[..|data| - pad]);
  }

  // ----- both -----

  function Encrypt(enc: Block -> Block, iv: Block, p: Bytes): Bytes {
    Chain(enc, iv, Pad(p))
  }

  function Decrypt(dec: Block -> Block, iv: Block, c: Bytes): Result<Bytes, Error> {
    if |c| == 0 || |c| % 16 != 0 then Err(BadLength) else Unpad(Unchain(dec, iv, c))
  }

  /** Decryption accepts exactly what encryption produces, and returns what was encrypted. */
  lemma DecryptExactly(enc: Block -> Block, dec: Block -> Block, iv: Block, p: Bytes, c: Bytes)
    requires Inverses(enc, dec)
    ensures Decrypt(dec, iv, c) == Ok(p) <==> Encrypt(enc, iv, p) == c
  {
    if Encrypt(enc, iv, p) == c {
      UnchainOfChain(enc, dec, iv, Pad(p));
      UnpadOfPad(p);
    }
    if Decrypt(dec, iv, c) == Ok(p) {
      PadOfUnpad(Unchain(dec, iv, c), p);
      ChainOfUnchain(enc, dec, iv, c);
    }
  }
}
