/** `aes128_cbc_encrypt` and `aes128_cbc_decrypt`. */
module AesCbc {
  import opened AesBlock
  import opened AesBox
  import opened AesCipher
  import opened AesField
  import opened AesInPlace
  import opened AesKey
  import opened AesRounds
  import opened Bytes
  import opened Wrappers
  import Cbc

  // ----- what they compute -----

  ghost function KeysOf(key: Block): Keys {
    seq(11, r requires 0 <= r < 11 => RoundKey(Box(), key, r))
  }

  ghost function EncWith(keys: Keys): Block -> Block {
    (b: Block) => EncryptBlock(keys, b)
  }

  ghost function DecWith(keys: Keys): Block -> Block {
    (b: Block) => DecryptBlock(keys, b)
  }

  ghost function Encrypted(key: Block, iv: Block, p: Bytes): Bytes {
    Cbc.Encrypt(EncWith(KeysOf(key)), iv, p)
  }

  ghost function Decrypted(key: Block, iv: Block, c: Bytes): Result<Bytes, Cbc.Error> {
    Cbc.Decrypt(DecWith(KeysOf(key)), iv, c)
  }

  lemma BlockBack(keys: Keys, b: Block)
    ensures DecWith(keys)(EncWith(keys)(b)) == b && EncWith(keys)(DecWith(keys)(b)) == b
  {
    BlockInverse(keys, b);
  }

  lemma BlocksInverse(keys: Keys)
    ensures Cbc.Inverses(EncWith(keys), DecWith(keys))
  {
    forall b: Block
      ensures DecWith(keys)(EncWith(keys)(b)) == b && EncWith(keys)(DecWith(keys)(b)) == b
    {
      BlockBack(keys, b);
    }
  }

  /** Decryption accepts a ciphertext, with `p`, exactly when it is the encryption of `p`. */
  lemma DecryptsExactly(key: Block, iv: Block, p: Bytes, c: Bytes)
    ensures Decrypted(key, iv, c) == Ok(p) <==> Encrypted(key, iv, p) == c
  {
    BlocksInverse(KeysOf(key));
    Cbc.DecryptExactly(EncWith(KeysOf(key)), DecWith(KeysOf(key)), iv, p, c);
  }

  /**
   Each block of a ciphertext is the cipher's answer, under the schedule of the key, to that block of the
   padded text added to the block before it, or to the vector for the first.
   */
  lemma EncryptedAt(key: Block, iv: Block, p: Bytes, i: nat)
    requires 16 * i + 16 <= |Cbc.Pad(p)|
    ensures |Encrypted(key, iv, p)| == |Cbc.Pad(p)|
    ensures var c, padded := Encrypted(key, iv, p), Cbc.Pad(p);
            var before: Block := if i == 0 then iv else c[16 * i - 16..16 * i];
            c[16 * i..16 * i + 16] == EncryptBlock(KeysOf(key), AddKey(padded[16 * i..16 * i + 16], before))
  {
    Cbc.ChainAt(EncWith(KeysOf(key)), iv, Cbc.Pad(p), i);
  }

  // ----- the loops -----

  method Keys128(key: Block) returns (keys: Keys)
    ensures keys == KeysOf(key)
  {
    keys := ExpandKey(Box(), key);
  }

  /** One pass of the encryption loop: add the previous block, then encrypt in place. */
  method EncryptChunk(chunk: Block, prev: Block, keys: Keys) returns (out: Block)
    ensures out == EncryptBlock(keys, AddKey(chunk, prev))
  {
    var block := new byte[16](_ => 0);
    for i := 0 to 16
      invariant forall j | 0 <= j < i :: block[j] == Add(chunk[j], prev[j])
    {
      block[i] := Add(chunk[i], prev[i]);
    }
    assert block[..] == AddKey(chunk, prev);
    EncryptInPlace(block, Box(), keys);
    out := block[..];
  }

  /** One pass of the decryption loop. */
  method DecryptChunk(chunk: Block, prev: Block, keys: Keys, inv: Table) returns (out: Block)
    requires inv == InvBox()
    ensures out == AddKey(DecWith(keys)(chunk), prev)
  {
    var block := new byte[16](i requires 0 <= i < 16 => chunk[i]);
    assert block[..] == chunk;
    DecryptInPlace(block, keys, inv);
    XorInto(block, prev);
    out := block[..];
  }

  method EncryptChain(keys: Keys, iv: Block, data: Bytes) returns (out: Bytes)
    requires Cbc.Aligned(data)
    ensures out == Cbc.Chain(EncWith(keys), iv, data)
  {
    ghost var enc := EncWith(keys);
    var prev, rest := iv, data;
    out := [];
    while rest != []
      invariant Cbc.Aligned(rest)
      invariant out + Cbc.Chain(enc, prev, rest) == Cbc.Chain(enc, iv, data)
      decreases |rest|
    {
      prev := EncryptChunk(Cbc.First(rest), prev, keys);
      out := out + prev;
      rest := Cbc.Rest(rest);
    }
  }

  method DecryptChain(keys: Keys, inv: Table, iv: Block, data: Bytes) returns (out: Bytes)
    requires Cbc.Aligned(data) && inv == InvBox()
    ensures out == Cbc.Unchain(DecWith(keys), iv, data)
  {
    ghost var dec := DecWith(keys);
    var prev, rest := iv, data;
    out := [];
    while rest != []
      invariant Cbc.Aligned(rest)
      invariant out + Cbc.Unchain(dec, prev, rest) == Cbc.Unchain(dec, iv, data)
      decreases |rest|
    {
      var block := DecryptChunk(Cbc.First(rest), prev, keys, inv);
      Cbc.UnchainStep(dec, prev, rest, out, block);
      out := out + block;
      prev := Cbc.First(rest);
      rest := Cbc.Rest(rest);
    }
  }

  /** `aes128_cbc_encrypt`. */
  method EncryptData(key: Block, iv: Block, plaintext: Bytes) returns (out: Bytes)
    ensures out == Encrypted(key, iv, plaintext)
  {
    var keys := Keys128(key);
    out := EncryptChain(keys, iv, Cbc.Pad(plaintext));
  }

  /** `aes128_cbc_decrypt`. */
  method DecryptData(key: Block, iv: Block, ciphertext: Bytes) returns (r: Result<Bytes, Cbc.Error>)
    ensures r == Decrypted(key, iv, ciphertext)
  {
    if |ciphertext| == 0 || |ciphertext| % 16 != 0 {
      return Err(Cbc.BadLength);
    }
    var keys := Keys128(key);
    SboxInverse();
    var inv := InvSbox(Box(), InvBox());
    var out := DecryptChain(keys, inv, iv, ciphertext);
    r := Cbc.StripPadding(out);
  }
}
