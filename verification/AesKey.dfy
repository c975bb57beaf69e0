/** The AES-128 key schedule: `expand_key` against the word recurrence of FIPS 197, section 5.2. */
module AesKey {
  import opened AesBox
  import opened AesCipher
  import opened AesField
  import opened AesRounds
  import opened Bytes

  // ----- the recurrence -----

  function AddWord(a: Column, b: Column): Column {
    Column(Add(a.b0, b.b0), Add(a.b1, b.b1), Add(a.b2, b.b2), Add(a.b3, b.b3))
  }

  function SubWord(t: Table, w: Column): Column {
    Column(At(t, w.b0), At(t, w.b1), At(t, w.b2), At(t, w.b3))
  }

  function RotWord(w: Column): Column {
    Column(w.b1, w.b2, w.b3, w.b0)
  }

  /** x to the power `j - 1`. */
  function Rcon(j: nat): byte {
    if j <= 1 then 1 else Xtime(Rcon(j - 1))
  }

  /** What the first word of round `r` adds to the first word of the round before. */
  function Twist(t: Table, last: Column, r: nat): Column {
    AddWord(SubWord(t, RotWord(last)), Column(Rcon(r), 0, 0, 0))
  }

  /** Word `4 * r + j` of the expanded key. */
  function Word(t: Table, key: Block, r: nat, j: nat): Column
    requires j < 4
    decreases r, j
  {
    if r == 0 then ColumnOf(key, j)
    else AddWord(Word(t, key, r - 1, j),
                 if j == 0 then Twist(t, Word(t, key, r - 1, 3), r) else Word(t, key, r, j - 1))
  }

  function RoundKey(t: Table, key: Block, r: nat): Block {
    FromColumns(Word(t, key, r, 0), Word(t, key, r, 1), Word(t, key, r, 2), Word(t, key, r, 3))
  }

  // ----- one row -----

  function ByteOf(w: Column, i: nat): byte
    requires i < 4
  {
    if i == 0 then w.b0 else if i == 1 then w.b1 else if i == 2 then w.b2 else w.b3
  }

  /** Byte `i` of a row, from the row before, the word that starts it and the bytes already there. */
  ghost predicate Follows(prev: Block, w: Column, next: seq<byte>, i: nat)
    requires i < 16 && |next| == 16
  {
    next[i] == Add(prev[i], if i < 4 then ByteOf(w, i) else next[i - 4])
  }

  /** The first `n` bytes of a row are in place. */
  ghost predicate Filled(prev: Block, w: Column, row: seq<byte>, n: nat)
    requires |row| == 16
  {
    forall i: nat | i < n && i < 16 :: Follows(prev, w, row, i)
  }

  lemma RowWords(prev: Block, w: Column, next: Block)
    requires Filled(prev, w, next, 16)
    ensures ColumnOf(next, 0) == AddWord(ColumnOf(prev, 0), w)
    ensures forall j: nat | 1 <= j < 4 :: ColumnOf(next, j) == AddWord(ColumnOf(prev, j), ColumnOf(next, j - 1))
  {
    assert Follows(prev, w, next, 0) && Follows(prev, w, next, 1);
    assert Follows(prev, w, next, 2) && Follows(prev, w, next, 3);
    forall j: nat | 1 <= j < 4
      ensures ColumnOf(next, j) == AddWord(ColumnOf(prev, j), ColumnOf(next, j - 1))
    {
      assert Follows(prev, w, next, 4 * j) && Follows(prev, w, next, 4 * j + 1);
      assert Follows(prev, w, next, 4 * j + 2) && Follows(prev, w, next, 4 * j + 3);
    }
  }

  lemma RowIsRoundKey(t: Table, key: Block, prev: Block, next: Block, r: nat)
    requires r >= 1 && prev == RoundKey(t, key, r - 1)
    requires Filled(prev, Twist(t, ColumnOf(prev, 3), r), next, 16)
    ensures next == RoundKey(t, key, r)
  {
    RowWords(prev, Twist(t, ColumnOf(prev, 3), r), next);
    ColumnsBack(Word(t, key, r - 1, 0), Word(t, key, r - 1, 1), Word(t, key, r - 1, 2), Word(t, key, r - 1, 3));
    BlockOfColumns(next);
    assert ColumnOf(next, 0) == Word(t, key, r, 0);
    assert ColumnOf(next, 1) == Word(t, key, r, 1);
    assert ColumnOf(next, 2) == Word(t, key, r, 2);
  }

  /** Rotate and substitute the last word, then add the round constant. */
  method FirstWord(t: Table, prev: Block, rcon: byte) returns (word: array<byte>)
    ensures fresh(word) && word.Length == 4
    ensures Column(word[0], word[1], word[2], word[3])
            == AddWord(SubWord(t, RotWord(ColumnOf(prev, 3))), Column(rcon, 0, 0, 0))
  {
    word := new byte[4] [prev[13], prev[14], prev[15], prev[12]];
    for i := 0 to 4
      invariant forall j | 0 <= j < i :: word[j] == At(t, prev[12 + (j + 1) % 4])
      invariant forall j | i <= j < 4 :: word[j] == prev[12 + (j + 1) % 4]
    {
      word[i] := At(t, word[i]);
    }
    forall b: byte
      ensures Add(b, 0) == b
    {
      AddFacts(b, 0, 0);
    }
    word[0] := Add(word[0], rcon);
  }

  lemma FilledNext(prev: Block, w: Column, row: seq<byte>, n: nat, b: byte)
    requires |row| == 16 && n < 16 && Filled(prev, w, row, n)
    requires b == Add(prev[n], if n < 4 then ByteOf(w, n) else row[n - 4])
    ensures Filled(prev, w, row[n := b], n + 1)
  {
    var next := row[n := b];
    forall i: nat | i < n + 1 && i < 16
      ensures Follows(prev, w, next, i)
    {
      if i < n { assert Follows(prev, w, row, i); }
    }
  }

  method NextRow(prev: Block, word: array<byte>) returns (next: Block)
    requires word.Length == 4
    ensures Filled(prev, Column(word[0], word[1], word[2], word[3]), next, 16)
  {
    ghost var w := Column(word[0], word[1], word[2], word[3]);
    var row := new byte[16](_ => 0);
    for i := 0 to 4
      invariant Filled(prev, w, row[..], i)
    {
      FilledNext(prev, w, row[..], i, Add(prev[i], word[i]));
      row[i] := Add(prev[i], word[i]);
    }
    for i := 4 to 16
      invariant Filled(prev, w, row[..], i)
    {
      FilledNext(prev, w, row[..], i, Add(prev[i], row[i - 4]));
      row[i] := Add(prev[i], row[i - 4]);
    }
    next := row[..];
  }

  ghost function Schedule(t: Table, key: Block): nat -> Block {
    r => RoundKey(t, key, r)
  }

  /** One pass of the schedule's outer loop. */
  method NextKey(t: Table, prev: Block, rcon: byte) returns (next: Block)
    ensures Filled(prev, AddWord(SubWord(t, RotWord(ColumnOf(prev, 3))), Column(rcon, 0, 0, 0)), next, 16)
  {
    var word := FirstWord(t, prev, rcon);
    next := NextRow(prev, word);
  }

  /** Such a pass takes one round key of the schedule to the next. */
  lemma NextIsScheduled(t: Table, key: Block, prev: Block, next: Block, r: nat)
    requires r >= 1 && prev == Schedule(t, key)(r - 1) && Filled(prev, Twist(t, ColumnOf(prev, 3), r), next, 16)
    ensures next == Schedule(t, key)(r)
  {
    RowIsRoundKey(t, key, prev, next, r);
  }

  lemma FirstKey(t: Table, key: Block)
    ensures key == Schedule(t, key)(0)
  {
    BlockOfColumns(key);
  }

  /** The first `n` blocks are those `f` gives. */
  ghost predicate Agree(blocks: seq<Block>, f: nat -> Block, n: nat) {
    n <= |blocks| && forall r: nat | r < n :: blocks[r] == f(r)
  }

  lemma AgreeStep(blocks: seq<Block>, f: nat -> Block, n: nat)
    requires n < |blocks| && Agree(blocks, f, n)
    ensures Agree(blocks[n := f(n)], f, n + 1)
  {
  }

  /** `expand_key`. */
  method ExpandKey(t: Table, key: Block) returns (keys: Keys)
    ensures Agree(keys, Schedule(t, key), 11)
  {
    var roundKeys := new Block[11](_ => ZEROS);
    roundKeys[0] := key;
    FirstKey(t, key);
    var rcon: byte := 1;
    for round := 1 to 11
      invariant rcon == Rcon(round)
      invariant Agree(roundKeys[..], Schedule(t, key), round)
    {
      var next := NextKey(t, roundKeys[round - 1], rcon);
      NextIsScheduled(t, key, roundKeys[round - 1], next, round);
      rcon := Xtime(rcon);
      AgreeStep(roundKeys[..], Schedule(t, key), round);
      roundKeys[round] := next;
    }
    keys := roundKeys[..];
  }
}
