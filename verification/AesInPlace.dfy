/** `encrypt_block` and `decrypt_block`: the round loops over one block, in place. */
module AesInPlace {
  import opened AesBlock
  import opened AesBox
  import opened AesCipher
  import opened AesRounds
  import opened Bytes
  import Rounds

  method SubShiftInPlace(block: array<byte>, box: Table)
    requires block.Length == 16
    modifies block
    ensures block[..] == SubShift(box, old(block[..]))
  {
    Substitute(block, box);
    ShiftInPlace(block);
  }

  method MixUnlessLast(block: array<byte>, last: bool)
    requires block.Length == 16
    modifies block
    ensures block[..] == MixUnless(last, old(block[..]))
  {
    if !last { MixInPlace(block); }
  }

  method MixAndAdd(block: array<byte>, keys: Keys, round: nat)
    requires block.Length == 16 && 1 <= round < 11
    modifies block
    ensures block[..] == AddRound(keys, MixUnless(round == Last(keys), old(block[..])), round)
  {
    MixUnlessLast(block, round == 10);
    XorInto(block, keys[round]);
  }

  method RoundInPlace(block: array<byte>, box: Table, keys: Keys, round: nat)
    requires block.Length == 16 && 1 <= round < 11
    modifies block
    ensures block[..] == EncRound(box, keys, old(block[..]), round)
  {
    SubShiftInPlace(block, box);
    MixAndAdd(block, keys, round);
  }

  method EncryptInPlace(block: array<byte>, box: Table, keys: Keys)
    requires block.Length == 16 && box == Box()
    modifies block
    ensures block[..] == EncryptBlock(keys, old(block[..]))
  {
    ghost var s: Block := block[..];
    ghost var l := AesLayers(box, InvBox(), keys);
    XorInto(block, keys[0]);
    for round := 1 to 11
      invariant block[..] == Rounds.Encrypted(l, Last(keys), s, round - 1)
    {
      RoundIsEncRound(box, InvBox(), keys, block[..], round);
      RoundInPlace(block, box, keys, round);
    }
  }

  method UnshiftSubInPlace(block: array<byte>, inv: Table)
    requires block.Length == 16
    modifies block
    ensures block[..] == UnshiftSub(inv, old(block[..]))
  {
    UnshiftInPlace(block);
    Substitute(block, inv);
  }

  method UnmixUnlessFirst(block: array<byte>, last: bool)
    requires block.Length == 16
    modifies block
    ensures block[..] == UnmixUnless(last, old(block[..]))
  {
    if !last { UnmixInPlace(block); }
  }

  method AddAndUnmix(block: array<byte>, keys: Keys, round: nat)
    requires block.Length == 16 && 1 <= round < 11
    modifies block
    ensures block[..] == UnmixUnless(round == 1, AddRound(keys, old(block[..]), round - 1))
  {
    XorInto(block, keys[round - 1]);
    UnmixUnlessFirst(block, round == 1);
  }

  method InvRoundInPlace(block: array<byte>, inv: Table, keys: Keys, round: nat)
    requires block.Length == 16 && 1 <= round < 11
    modifies block
    ensures block[..] == DecRound(inv, keys, old(block[..]), round)
  {
    UnshiftSubInPlace(block, inv);
    AddAndUnmix(block, keys, round);
  }

  /** What decryption still has to do to a block as it enters round `r`. */
  ghost function Remaining(inv: Table, keys: Keys, s: Block, r: nat): Block {
    Rounds.Decrypted(AesLayers(Box(), inv, keys), s, r, 0)
  }

  lemma LastKeyed(t: Table, u: Table, keys: Keys, s: Block)
    ensures AesLayers(t, u, keys).add(s, Last(keys)) == AddKey(s, keys[Last(keys)])
  {
  }

  lemma RemainingAll(keys: Keys, s: Block)
    ensures Remaining(InvBox(), keys, AddKey(s, keys[Last(keys)]), Last(keys)) == DecryptBlock(keys, s)
  {
    LastKeyed(Box(), InvBox(), keys, s);
    Rounds.DecryptIs(AesLayers(Box(), InvBox(), keys), Last(keys), s, AddKey(s, keys[Last(keys)]));
  }

  lemma RemainingStep(inv: Table, keys: Keys, s: Block, r: nat)
    requires 1 <= r
    ensures Remaining(inv, keys, s, r) == Remaining(inv, keys, DecRound(inv, keys, s, r), r - 1)
  {
    RoundIsDecRound(Box(), inv, keys, s, r);
    Rounds.DecryptedFirst(AesLayers(Box(), inv, keys), s, r, DecRound(inv, keys, s, r));
  }

  lemma RemainingNone(inv: Table, keys: Keys, s: Block)
    ensures Remaining(inv, keys, s, 0) == s
  {
  }

  method DecryptPass(block: array<byte>, inv: Table, keys: Keys, round: nat)
    requires block.Length == 16 && 1 <= round < 11
    modifies block
    ensures Remaining(inv, keys, block[..], round - 1) == Remaining(inv, keys, old(block[..]), round)
  {
    ghost var entered: Block := block[..];
    InvRoundInPlace(block, inv, keys, round);
    RemainingStep(inv, keys, entered, round);
  }

  method DecryptPasses(block: array<byte>, inv: Table, keys: Keys)
    requires block.Length == 16
    modifies block
    ensures Remaining(inv, keys, block[..], 0) == Remaining(inv, keys, old(block[..]), Last(keys))
  {
    for round := |keys| downto 1
      invariant Remaining(inv, keys, block[..], round - 1) == Remaining(inv, keys, old(block[..]), Last(keys))
    {
      DecryptPass(block, inv, keys, round);
    }
  }

  method DecryptInPlace(block: array<byte>, keys: Keys, inv: Table)
    requires block.Length == 16 && inv == InvBox()
    modifies block
    ensures block[..] == DecryptBlock(keys, old(block[..]))
  {
    ghost var s: Block := block[..];
    XorInto(block, keys[10]);
    RemainingAll(keys, s);
    DecryptPasses(block, inv, keys);
    RemainingNone(inv, keys, block[..]);
  }
}
