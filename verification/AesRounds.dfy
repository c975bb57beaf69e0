/** AES-128 as an instance of the round structure (FIPS 197, sections 5.1 and 5.3). */
module AesRounds {
  import opened AesBox
  import opened AesCipher
  import opened AesField
  import Rounds

  // ----- state transformations -----

  function SubBytes(t: Table, s: Block): (r: Block)
    ensures forall i {:trigger r[i]} | 0 <= i < 16 :: r[i] == At(t, s[i])
  {
    seq(16, i requires 0 <= i < 16 => At(t, s[i]))
  }

  /** The byte of a column and row. */
  function Place(col: nat, row: nat): (i: nat)
    requires col < 4 && row < 4
    ensures i < 16 && i / 4 == col && i % 4 == row
  {
    col * 4 + row
  }

  /** The column `row` places to the right, around the end. */
  function Right(col: nat, row: nat): (c: nat)
    requires col < 4 && row < 4
    ensures c < 4
  {
    if col + row < 4 then col + row else col + row - 4
  }

  function Left(col: nat, row: nat): (c: nat)
    requires col < 4 && row < 4
    ensures c < 4
  {
    if row <= col then col - row else col + 4 - row
  }

  /** Row `i % 4` moves left by `i % 4` columns. */
  function ShiftIndex(i: nat): (j: nat)
    requires i < 16
    ensures j < 16
  {
    Place(Right(i / 4, i % 4), i % 4)
  }

  function UnshiftIndex(i: nat): (j: nat)
    requires i < 16
    ensures j < 16
  {
    Place(Left(i / 4, i % 4), i % 4)
  }

  function ShiftRows(s: Block): (r: Block)
    ensures forall i {:trigger r[i]} | 0 <= i < 16 :: r[i] == s[ShiftIndex(i)]
  {
    seq(16, i requires 0 <= i < 16 => s[ShiftIndex(i)])
  }

  function InvShiftRows(s: Block): (r: Block)
    ensures forall i {:trigger r[i]} | 0 <= i < 16 :: r[i] == s[UnshiftIndex(i)]
  {
    seq(16, i requires 0 <= i < 16 => s[UnshiftIndex(i)])
  }

  function AddKey(s: Block, k: Block): (r: Block)
    ensures forall i {:trigger r[i]} | 0 <= i < 16 :: r[i] == Add(s[i], k[i])
  {
    seq(16, i requires 0 <= i < 16 => Add(s[i], k[i]))
  }

  function ColumnOf(s: Block, j: nat): Column
    requires j < 4
  {
    Column(s[4 * j], s[4 * j + 1], s[4 * j + 2], s[4 * j + 3])
  }

  function FromColumns(c0: Column, c1: Column, c2: Column, c3: Column): Block {
    [c0.b0, c0.b1, c0.b2, c0.b3, c1.b0, c1.b1, c1.b2, c1.b3,
     c2.b0, c2.b1, c2.b2, c2.b3, c3.b0, c3.b1, c3.b2, c3.b3]
  }

  function MixColumns(s: Block): Block {
    FromColumns(MixColumn(ColumnOf(s, 0)), MixColumn(ColumnOf(s, 1)),
                MixColumn(ColumnOf(s, 2)), MixColumn(ColumnOf(s, 3)))
  }

  function InvMixColumns(s: Block): Block {
    FromColumns(InvMixColumn(ColumnOf(s, 0)), InvMixColumn(ColumnOf(s, 1)),
                InvMixColumn(ColumnOf(s, 2)), InvMixColumn(ColumnOf(s, 3)))
  }

  // ----- each has an inverse -----

  lemma SubInverse(t: Table, u: Table, s: Block)
    requires Inverse(t, u)
    ensures SubBytes(u, SubBytes(t, s)) == s && SubBytes(t, SubBytes(u, s)) == s
  {
  }

  lemma IndexInverse(i: nat)
    requires i < 16
    ensures ShiftIndex(UnshiftIndex(i)) == i && UnshiftIndex(ShiftIndex(i)) == i
  {
    assert i == Place(i / 4, i % 4);
  }

  lemma ShiftInverse(s: Block)
    ensures InvShiftRows(ShiftRows(s)) == s && ShiftRows(InvShiftRows(s)) == s
  {
    forall i: nat | i < 16
      ensures InvShiftRows(ShiftRows(s))[i] == s[i] && ShiftRows(InvShiftRows(s))[i] == s[i]
    {
      IndexInverse(i);
    }
  }

  lemma AddKeyInverse(s: Block, k: Block)
    ensures AddKey(AddKey(s, k), k) == s
  {
    forall i | 0 <= i < 16
      ensures AddKey(AddKey(s, k), k)[i] == s[i]
    {
      AddFacts(s[i], k[i], k[i]);
      AddFacts(k[i], 0, 0);
      AddFacts(s[i], 0, 0);
    }
  }

  lemma ColumnsBack(c0: Column, c1: Column, c2: Column, c3: Column)
    ensures var s := FromColumns(c0, c1, c2, c3);
            ColumnOf(s, 0) == c0 && ColumnOf(s, 1) == c1 && ColumnOf(s, 2) == c2 && ColumnOf(s, 3) == c3
  {
  }

  lemma BlockOfColumns(s: Block)
    ensures FromColumns(ColumnOf(s, 0), ColumnOf(s, 1), ColumnOf(s, 2), ColumnOf(s, 3)) == s
  {
  }

  lemma MixInverse(s: Block)
    ensures InvMixColumns(MixColumns(s)) == s && MixColumns(InvMixColumns(s)) == s
  {
    var c0, c1, c2, c3 := ColumnOf(s, 0), ColumnOf(s, 1), ColumnOf(s, 2), ColumnOf(s, 3);
    ColumnsBack(MixColumn(c0), MixColumn(c1), MixColumn(c2), MixColumn(c3));
    ColumnsBack(InvMixColumn(c0), InvMixColumn(c1), InvMixColumn(c2), InvMixColumn(c3));
    InvMixOfMix(c0);
    InvMixOfMix(c1);
    InvMixOfMix(c2);
    InvMixOfMix(c3);
    MixOfInvMix(c0);
    MixOfInvMix(c1);
    MixOfInvMix(c2);
    MixOfInvMix(c3);
    BlockOfColumns(s);
  }

  // ----- the cipher -----

  /** The round after which encryption stops: ten, one fewer than there are keys. */
  function Last(keys: Keys): nat {
    |keys| - 1
  }

  /** Adding the key of a round. */
  function AddRound(keys: Keys, s: Block, r: nat): Block {
    if r <= Last(keys) then AddKey(s, keys[r]) else s
  }

  /** Substituting bytes and then shifting rows. */
  function SubShift(t: Table, s: Block): Block {
    ShiftRows(SubBytes(t, s))
  }

  function UnshiftSub(u: Table, s: Block): Block {
    SubBytes(u, InvShiftRows(s))
  }

  lemma SubShiftInverse(t: Table, u: Table, s: Block)
    requires Inverse(t, u)
    ensures UnshiftSub(u, SubShift(t, s)) == s && SubShift(t, UnshiftSub(u, s)) == s
  {
    ShiftInverse(SubBytes(t, s));
    SubInverse(t, u, s);
    SubInverse(t, u, InvShiftRows(s));
    ShiftInverse(s);
  }

  lemma AddRoundInverse(keys: Keys, s: Block, r: nat)
    ensures AddRound(keys, AddRound(keys, s, r), r) == s
  {
    if r <= Last(keys) { AddKeyInverse(s, keys[r]); }
  }

  function AesLayers(t: Table, u: Table, keys: Keys): Rounds.Layers<Block> {
    Rounds.Layers(
      (s: Block) => SubShift(t, s),
      (s: Block) => UnshiftSub(u, s),
      MixColumns,
      InvMixColumns,
      (s: Block, r: nat) => AddRound(keys, s, r))
  }

  /** What a pass of the encryption loop does. */
  function EncRound(t: Table, keys: Keys, s: Block, r: nat): Block {
    AddRound(keys, MixUnless(r == Last(keys), SubShift(t, s)), r)
  }

  /** The last round does not mix. */
  function MixUnless(last: bool, s: Block): Block {
    if last then s else MixColumns(s)
  }

  /** What a pass of the decryption loop does. */
  function DecRound(u: Table, keys: Keys, s: Block, r: nat): Block
    requires 1 <= r
  {
    UnmixUnless(r == 1, AddRound(keys, UnshiftSub(u, s), r - 1))
  }

  function UnmixUnless(last: bool, s: Block): Block {
    if last then s else InvMixColumns(s)
  }

  lemma LayerMeaning(t: Table, u: Table, keys: Keys, s: Block, r: nat)
    ensures var l := AesLayers(t, u, keys);
            && l.sub(s) == SubShift(t, s) && l.unsub(s) == UnshiftSub(u, s)
            && l.mix(s) == MixColumns(s) && l.unmix(s) == InvMixColumns(s) && l.add(s, r) == AddRound(keys, s, r)
  {
  }

  lemma RoundIsEncRound(t: Table, u: Table, keys: Keys, s: Block, r: nat)
    ensures Rounds.Round(AesLayers(t, u, keys), Last(keys), s, r) == EncRound(t, keys, s, r)
  {
  }

  lemma RoundIsDecRound(t: Table, u: Table, keys: Keys, s: Block, r: nat)
    requires 1 <= r
    ensures Rounds.InvRound(AesLayers(t, u, keys), s, r) == DecRound(u, keys, s, r)
  {
    LayerMeaning(t, u, keys, s, r);
    LayerMeaning(t, u, keys, UnshiftSub(u, s), r - 1);
    LayerMeaning(t, u, keys, AddRound(keys, UnshiftSub(u, s), r - 1), r);
  }

  lemma SubLayerBack(t: Table, u: Table, keys: Keys, s: Block)
    requires Inverse(t, u)
    ensures var l := AesLayers(t, u, keys); l.unsub(l.sub(s)) == s && l.sub(l.unsub(s)) == s
  {
    SubShiftInverse(t, u, s);
  }

  lemma MixLayerBack(t: Table, u: Table, keys: Keys, s: Block)
    ensures var l := AesLayers(t, u, keys); l.unmix(l.mix(s)) == s && l.mix(l.unmix(s)) == s
  {
    MixInverse(s);
  }

  lemma AddLayerBack(t: Table, u: Table, keys: Keys, s: Block, r: nat)
    ensures var l := AesLayers(t, u, keys); l.add(l.add(s, r), r) == s
  {
    AddRoundInverse(keys, s, r);
  }

  lemma AesInvertible(t: Table, u: Table, keys: Keys)
    requires Inverse(t, u)
    ensures Rounds.Invertible(AesLayers(t, u, keys))
  {
    var l := AesLayers(t, u, keys);
    forall s: Block
      ensures l.unsub(l.sub(s)) == s && l.sub(l.unsub(s)) == s
      ensures l.unmix(l.mix(s)) == s && l.mix(l.unmix(s)) == s
    {
      SubLayerBack(t, u, keys, s);
      MixLayerBack(t, u, keys, s);
    }
    forall s: Block, r: nat
      ensures l.add(l.add(s, r), r) == s
    {
      AddLayerBack(t, u, keys, s, r);
    }
  }

  lemma LayersUndone(t: Table, u: Table, keys: Keys, n: nat, s: Block)
    requires Inverse(t, u) && 1 <= n
    ensures var l := AesLayers(t, u, keys);
            Rounds.Decrypt(l, n, Rounds.Encrypt(l, n, s)) == s && Rounds.Encrypt(l, n, Rounds.Decrypt(l, n, s)) == s
  {
    AesInvertible(t, u, keys);
    Rounds.DecryptOfEncrypt(AesLayers(t, u, keys), n, s);
    Rounds.EncryptOfDecrypt(AesLayers(t, u, keys), n, s);
  }

  ghost function EncryptBlock(keys: Keys, s: Block): Block {
    Rounds.Encrypt(AesLayers(Box(), InvBox(), keys), Last(keys), s)
  }

  ghost function DecryptBlock(keys: Keys, s: Block): Block {
    Rounds.Decrypt(AesLayers(Box(), InvBox(), keys), Last(keys), s)
  }

  /** Block encryption and decryption are two-sided inverses, whatever the round keys. */
  lemma BlockInverse(keys: Keys, s: Block)
    ensures DecryptBlock(keys, EncryptBlock(keys, s)) == s
    ensures EncryptBlock(keys, DecryptBlock(keys, s)) == s
  {
    SboxInverse();
    LayersUndone(Box(), InvBox(), keys, Last(keys), s);
  }
}
