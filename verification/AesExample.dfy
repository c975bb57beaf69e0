/**
 AES-128 by columns of bytes (FIPS 197, sections 5.1 and 5.2), and the example of appendix C.1, which
 the program's tests pin the block cipher to.
 */
module AesExample {
  import opened AesBox
  import opened AesCbc
  import opened AesCipher
  import opened AesField
  import opened AesKey
  import opened AesRounds
  import opened Bytes
  import Rounds

  /** A block as its four columns. */
  datatype Columns = Columns(c0: Column, c1: Column, c2: Column, c3: Column)

  function Flat(s: Columns): Block {
    FromColumns(s.c0, s.c1, s.c2, s.c3)
  }

  // ----- a round -----

  lemma Doubled(b: byte)
    ensures Mul(b, 0x02) == Xtime(b) && Mul(b, 0x03) == Add(b, Xtime(b))
  {
    Two(b, BITS);
    Three(b, BITS);
  }

  /** The column matrix of section 5.1.3, its products as doublings. */
  function Mixed(a: byte, b: byte, c: byte, d: byte): Column {
    Column(Sum4(Xtime(a), Add(b, Xtime(b)), c, d), Sum4(a, Xtime(b), Add(c, Xtime(c)), d),
           Sum4(a, b, Xtime(c), Add(d, Xtime(d))), Sum4(Add(a, Xtime(a)), b, c, Xtime(d)))
  }

  lemma MixedIs(a: byte, b: byte, c: byte, d: byte)
    ensures MixColumn(Column(a, b, c, d)) == Mixed(a, b, c, d)
  {
    Doubled(a);
    Doubled(b);
    Doubled(c);
    Doubled(d);
  }

  /** Each row of the state moves left by its number, so a new column is an old diagonal. */
  lemma RowsShifted(s: Columns)
    ensures var r := ShiftRows(Flat(s));
            && ColumnOf(r, 0) == Column(s.c0.b0, s.c1.b1, s.c2.b2, s.c3.b3)
            && ColumnOf(r, 1) == Column(s.c1.b0, s.c2.b1, s.c3.b2, s.c0.b3)
            && ColumnOf(r, 2) == Column(s.c2.b0, s.c3.b1, s.c0.b2, s.c1.b3)
            && ColumnOf(r, 3) == Column(s.c3.b0, s.c0.b1, s.c1.b2, s.c2.b3)
  {
  }

  lemma ColumnSubstituted(s: Block, j: nat)
    requires j < 4
    ensures var c := ColumnOf(s, j);
            ColumnOf(SubBytes(Box(), s), j) == Column(Sub(c.b0), Sub(c.b1), Sub(c.b2), Sub(c.b3))
  {
    SboxAt(s[4 * j]);
    SboxAt(s[4 * j + 1]);
    SboxAt(s[4 * j + 2]);
    SboxAt(s[4 * j + 3]);
  }

  function SubColumn(c: Column): Column {
    Column(Sub(c.b0), Sub(c.b1), Sub(c.b2), Sub(c.b3))
  }

  lemma Substituted(s: Columns)
    ensures SubBytes(Box(), Flat(s))
            == Flat(Columns(SubColumn(s.c0), SubColumn(s.c1), SubColumn(s.c2), SubColumn(s.c3)))
  {
    ColumnsBack(s.c0, s.c1, s.c2, s.c3);
    BlockOfColumns(SubBytes(Box(), Flat(s)));
    ColumnSubstituted(Flat(s), 0);
    ColumnSubstituted(Flat(s), 1);
    ColumnSubstituted(Flat(s), 2);
    ColumnSubstituted(Flat(s), 3);
  }

  lemma ColumnAdded(s: Block, k: Block, j: nat)
    requires j < 4
    ensures ColumnOf(AddKey(s, k), j) == AddWord(ColumnOf(s, j), ColumnOf(k, j))
  {
  }

  function Sum(s: Columns, k: Columns): Columns {
    Columns(AddWord(s.c0, k.c0), AddWord(s.c1, k.c1), AddWord(s.c2, k.c2), AddWord(s.c3, k.c3))
  }

  lemma KeyAdded(s: Columns, k: Columns)
    ensures AddKey(Flat(s), Flat(k)) == Flat(Sum(s, k))
  {
    ColumnsBack(s.c0, s.c1, s.c2, s.c3);
    ColumnsBack(k.c0, k.c1, k.c2, k.c3);
    ColumnAdded(Flat(s), Flat(k), 0);
    ColumnAdded(Flat(s), Flat(k), 1);
    ColumnAdded(Flat(s), Flat(k), 2);
    ColumnAdded(Flat(s), Flat(k), 3);
    BlockOfColumns(AddKey(Flat(s), Flat(k)));
  }

  /** The substituted diagonals, as columns. */
  function Diagonals(s: Columns): Columns {
    Columns(SubColumn(Column(s.c0.b0, s.c1.b1, s.c2.b2, s.c3.b3)),
            SubColumn(Column(s.c1.b0, s.c2.b1, s.c3.b2, s.c0.b3)),
            SubColumn(Column(s.c2.b0, s.c3.b1, s.c0.b2, s.c1.b3)),
            SubColumn(Column(s.c3.b0, s.c0.b1, s.c1.b2, s.c2.b3)))
  }

  function MixedColumn(c: Column): Column {
    Mixed(c.b0, c.b1, c.b2, c.b3)
  }

  function AllMixed(s: Columns): Columns {
    Columns(MixedColumn(s.c0), MixedColumn(s.c1), MixedColumn(s.c2), MixedColumn(s.c3))
  }

  lemma ShiftedIs(s: Columns)
    ensures SubShift(Box(), Flat(s)) == Flat(Diagonals(s))
  {
    var u := Columns(SubColumn(s.c0), SubColumn(s.c1), SubColumn(s.c2), SubColumn(s.c3));
    Substituted(s);
    RowsShifted(u);
    BlockOfColumns(ShiftRows(Flat(u)));
  }

  lemma MixedAll(s: Columns)
    ensures MixColumns(Flat(s)) == Flat(AllMixed(s))
  {
    ColumnsBack(s.c0, s.c1, s.c2, s.c3);
    MixedIs(s.c0.b0, s.c0.b1, s.c0.b2, s.c0.b3);
    MixedIs(s.c1.b0, s.c1.b1, s.c1.b2, s.c1.b3);
    MixedIs(s.c2.b0, s.c2.b1, s.c2.b2, s.c2.b3);
    MixedIs(s.c3.b0, s.c3.b1, s.c3.b2, s.c3.b3);
  }

  /** The state after a round, from the state before it and the round's key. */
  function NextState(s: Columns, k: Columns, last: bool): Columns {
    if last then Sum(Diagonals(s), k) else Sum(AllMixed(Diagonals(s)), k)
  }

  ghost predicate StateIs(keys: Keys, input: Block, r: nat, s: Columns) {
    Rounds.Encrypted(AesLayers(Box(), InvBox(), keys), Last(keys), input, r) == Flat(s)
  }

  lemma RoundIs(keys: Keys, s: Columns, k: Columns, r: nat)
    requires 1 <= r <= 10 && keys[r] == Flat(k)
    ensures EncRound(Box(), keys, Flat(s), r) == Flat(NextState(s, k, r == 10))
  {
    ShiftedIs(s);
    MixedAll(Diagonals(s));
    KeyAdded(if r == 10 then Diagonals(s) else AllMixed(Diagonals(s)), k);
  }

  lemma RoundTaken(keys: Keys, input: Block, r: nat, s: Columns, k: Columns, next: Columns)
    requires r < 10 && StateIs(keys, input, r, s) && keys[r + 1] == Flat(k) && NextState(s, k, r == 9) == next
    ensures StateIs(keys, input, r + 1, next)
  {
    RoundIs(keys, s, k, r + 1);
    NextRound(keys, input, r, Flat(s), Flat(next));
  }

  lemma NextRound(keys: Keys, input: Block, r: nat, s: Block, next: Block)
    requires r < 10 && EncRound(Box(), keys, s, r + 1) == next
    requires Rounds.Encrypted(AesLayers(Box(), InvBox(), keys), Last(keys), input, r) == s
    ensures Rounds.Encrypted(AesLayers(Box(), InvBox(), keys), Last(keys), input, r + 1) == next
  {
    RoundIsEncRound(Box(), InvBox(), keys, s, r + 1);
  }

  // ----- a step of the key schedule -----

  function NextKeys(k: Columns, rcon: byte): Columns {
    var w := AddWord(Column(Sub(k.c3.b1), Sub(k.c3.b2), Sub(k.c3.b3), Sub(k.c3.b0)), Column(rcon, 0, 0, 0));
    var c0 := AddWord(k.c0, w);
    var c1 := AddWord(k.c1, c0);
    var c2 := AddWord(k.c2, c1);
    Columns(c0, c1, c2, AddWord(k.c3, c2))
  }

  ghost predicate KeyIs(key: Block, r: nat, k: Columns) {
    && Word(Box(), key, r, 0) == k.c0 && Word(Box(), key, r, 1) == k.c1
    && Word(Box(), key, r, 2) == k.c2 && Word(Box(), key, r, 3) == k.c3
  }

  lemma {:induction false} KeyTaken(key: Block, r: nat, k: Columns, rcon: byte, next: Columns)
    requires KeyIs(key, r, k) && Rcon(r + 1) == rcon && NextKeys(k, rcon) == next
    ensures KeyIs(key, r + 1, next)
  {
    SboxAt(k.c3.b0);
    SboxAt(k.c3.b1);
    SboxAt(k.c3.b2);
    SboxAt(k.c3.b3);
  }

  // ----- the example of appendix C.1: the states -----

  function S0(): Columns {
    Columns(Column(0x00, 0x10, 0x20, 0x30), Column(0x40, 0x50, 0x60, 0x70),
            Column(0x80, 0x90, 0xa0, 0xb0), Column(0xc0, 0xd0, 0xe0, 0xf0))
  }

  function S1(): Columns {
    Columns(Column(0x89, 0xd8, 0x10, 0xe8), Column(0x85, 0x5a, 0xce, 0x68),
            Column(0x2d, 0x18, 0x43, 0xd8), Column(0xcb, 0x12, 0x8f, 0xe4))
  }

  function S2(): Columns {
    Columns(Column(0x49, 0x15, 0x59, 0x8f), Column(0x55, 0xe5, 0xd7, 0xa0),
            Column(0xda, 0xca, 0x94, 0xfa), Column(0x1f, 0x0a, 0x63, 0xf7))
  }

  function S3(): Columns {
    Columns(Column(0xfa, 0x63, 0x6a, 0x28), Column(0x25, 0xb3, 0x39, 0xc9),
            Column(0x40, 0x66, 0x8a, 0x31), Column(0x57, 0x24, 0x4d, 0x17))
  }

  function S4(): Columns {
    Columns(Column(0x24, 0x72, 0x40, 0x23), Column(0x69, 0x66, 0xb3, 0xfa),
            Column(0x6e, 0xd2, 0x75, 0x32), Column(0x88, 0x42, 0x5b, 0x6c))
  }

  function S5(): Columns {
    Columns(Column(0xc8, 0x16, 0x77, 0xbc), Column(0x9b, 0x7a, 0xc9, 0x3b),
            Column(0x25, 0x02, 0x79, 0x92), Column(0xb0, 0x26, 0x19, 0x96))
  }

  function S6(): Columns {
    Columns(Column(0xc6, 0x2f, 0xe1, 0x09), Column(0xf7, 0x5e, 0xed, 0xc3),
            Column(0xcc, 0x79, 0x39, 0x5d), Column(0x84, 0xf9, 0xcf, 0x5d))
  }

  function S7(): Columns {
    Columns(Column(0xd1, 0x87, 0x6c, 0x0f), Column(0x79, 0xc4, 0x30, 0x0a),
            Column(0xb4, 0x55, 0x94, 0xad), Column(0xd6, 0x6f, 0xf4, 0x1f))
  }

  function S8(): Columns {
    Columns(Column(0xfd, 0xe3, 0xba, 0xd2), Column(0x05, 0xe5, 0xd0, 0xd7),
            Column(0x35, 0x47, 0x96, 0x4e), Column(0xf1, 0xfe, 0x37, 0xf1))
  }

  function S9(): Columns {
    Columns(Column(0xbd, 0x6e, 0x7c, 0x3d), Column(0xf2, 0xb5, 0x77, 0x9e),
            Column(0x0b, 0x61, 0x21, 0x6e), Column(0x8b, 0x10, 0xb6, 0x89))
  }

  function S10(): Columns {
    Columns(Column(0x69, 0xc4, 0xe0, 0xd8), Column(0x6a, 0x7b, 0x04, 0x30),
            Column(0xd8, 0xcd, 0xb7, 0x80), Column(0x70, 0xb4, 0xc5, 0x5a))
  }

  // ----- the round keys -----

  function K0(): Columns {
    Columns(Column(0x00, 0x01, 0x02, 0x03), Column(0x04, 0x05, 0x06, 0x07),
            Column(0x08, 0x09, 0x0a, 0x0b), Column(0x0c, 0x0d, 0x0e, 0x0f))
  }

  function K1(): Columns {
    Columns(Column(0xd6, 0xaa, 0x74, 0xfd), Column(0xd2, 0xaf, 0x72, 0xfa),
            Column(0xda, 0xa6, 0x78, 0xf1), Column(0xd6, 0xab, 0x76, 0xfe))
  }

  function K2(): Columns {
    Columns(Column(0xb6, 0x92, 0xcf, 0x0b), Column(0x64, 0x3d, 0xbd, 0xf1),
            Column(0xbe, 0x9b, 0xc5, 0x00), Column(0x68, 0x30, 0xb3, 0xfe))
  }

  function K3(): Columns {
    Columns(Column(0xb6, 0xff, 0x74, 0x4e), Column(0xd2, 0xc2, 0xc9, 0xbf),
            Column(0x6c, 0x59, 0x0c, 0xbf), Column(0x04, 0x69, 0xbf, 0x41))
  }

  function K4(): Columns {
    Columns(Column(0x47, 0xf7, 0xf7, 0xbc), Column(0x95, 0x35, 0x3e, 0x03),
            Column(0xf9, 0x6c, 0x32, 0xbc), Column(0xfd, 0x05, 0x8d, 0xfd))
  }

  function K5(): Columns {
    Columns(Column(0x3c, 0xaa, 0xa3, 0xe8), Column(0xa9, 0x9f, 0x9d, 0xeb),
            Column(0x50, 0xf3, 0xaf, 0x57), Column(0xad, 0xf6, 0x22, 0xaa))
  }

  function K6(): Columns {
    Columns(Column(0x5e, 0x39, 0x0f, 0x7d), Column(0xf7, 0xa6, 0x92, 0x96),
            Column(0xa7, 0x55, 0x3d, 0xc1), Column(0x0a, 0xa3, 0x1f, 0x6b))
  }

  function K7(): Columns {
    Columns(Column(0x14, 0xf9, 0x70, 0x1a), Column(0xe3, 0x5f, 0xe2, 0x8c),
            Column(0x44, 0x0a, 0xdf, 0x4d), Column(0x4e, 0xa9, 0xc0, 0x26))
  }

  function K8(): Columns {
    Columns(Column(0x47, 0x43, 0x87, 0x35), Column(0xa4, 0x1c, 0x65, 0xb9),
            Column(0xe0, 0x16, 0xba, 0xf4), Column(0xae, 0xbf, 0x7a, 0xd2))
  }

  function K9(): Columns {
    Columns(Column(0x54, 0x99, 0x32, 0xd1), Column(0xf0, 0x85, 0x57, 0x68),
            Column(0x10, 0x93, 0xed, 0x9c), Column(0xbe, 0x2c, 0x97, 0x4e))
  }

  function K10(): Columns {
    Columns(Column(0x13, 0x11, 0x1d, 0x7f), Column(0xe3, 0x94, 0x4a, 0x17),
            Column(0xf3, 0x07, 0xa7, 0x8b), Column(0x4d, 0x2b, 0x30, 0xc5))
  }

  // ----- each from the one before -----

  lemma Step1()
    ensures NextState(S0(), K1(), false) == S1() && NextKeys(K0(), 0x01) == K1()
  {
  }

  lemma Step2()
    ensures NextState(S1(), K2(), false) == S2() && NextKeys(K1(), 0x02) == K2()
  {
  }

  lemma Step3()
    ensures NextState(S2(), K3(), false) == S3() && NextKeys(K2(), 0x04) == K3()
  {
  }

  lemma Step4()
    ensures NextState(S3(), K4(), false) == S4() && NextKeys(K3(), 0x08) == K4()
  {
  }

  lemma Step5()
    ensures NextState(S4(), K5(), false) == S5() && NextKeys(K4(), 0x10) == K5()
  {
  }

  lemma Step6()
    ensures NextState(S5(), K6(), false) == S6() && NextKeys(K5(), 0x20) == K6()
  {
  }

  lemma Step7()
    ensures NextState(S6(), K7(), false) == S7() && NextKeys(K6(), 0x40) == K7()
  {
  }

  lemma Step8()
    ensures NextState(S7(), K8(), false) == S8() && NextKeys(K7(), 0x80) == K8()
  {
  }

  lemma Step9()
    ensures NextState(S8(), K9(), false) == S9() && NextKeys(K8(), 0x1b) == K9()
  {
  }

  lemma Step10()
    ensures NextState(S9(), K10(), true) == S10() && NextKeys(K9(), 0x36) == K10()
  {
  }

  // ----- the whole block -----

  /** The state after round `r`, and the key of that round. */
  ghost predicate At(key: Block, input: Block, r: nat, s: Columns, k: Columns) {
    StateIs(KeysOf(key), input, r, s) && KeyIs(key, r, k)
  }

  lemma KeyListed(key: Block, r: nat, k: Columns)
    requires r <= 10 && KeyIs(key, r, k)
    ensures KeysOf(key)[r] == Flat(k)
  {
  }

  lemma {:induction false} Taken(
    key: Block, input: Block, r: nat, s: Columns, k: Columns, rcon: byte, nextState: Columns, nextKey: Columns
  )
    requires r < 10 && At(key, input, r, s, k) && Rcon(r + 1) == rcon
    requires NextKeys(k, rcon) == nextKey && NextState(s, nextKey, r == 9) == nextState
    ensures At(key, input, r + 1, nextState, nextKey)
  {
    KeyTaken(key, r, k, rcon, nextKey);
    KeyListed(key, r + 1, nextKey);
    RoundTaken(KeysOf(key), input, r, s, nextKey, nextState);
  }

  /** Closed under rounds. */
  ghost predicate Steps(at: (nat, Columns, Columns) -> bool) {
    forall r: nat, s, k, rcon | r < 10 && at(r, s, k) && Rcon(r + 1) == rcon ::
      at(r + 1, NextState(s, NextKeys(k, rcon), r == 9), NextKeys(k, rcon))
  }

  lemma Round1(at: (nat, Columns, Columns) -> bool, r: nat)
    requires Steps(at) && r == 0 && at(r, S0(), K0())
    ensures at(r + 1, S1(), K1())
  {
    Step1();
    assert Rcon(r + 1) == 0x01;
  }

  lemma Round2(at: (nat, Columns, Columns) -> bool, r: nat)
    requires Steps(at) && r == 1 && at(r, S1(), K1())
    ensures at(r + 1, S2(), K2())
  {
    Step2();
    assert Rcon(r + 1) == 0x02;
  }

  lemma Round3(at: (nat, Columns, Columns) -> bool, r: nat)
    requires Steps(at) && r == 2 && at(r, S2(), K2())
    ensures at(r + 1, S3(), K3())
  {
    Step3();
    assert Rcon(r + 1) == 0x04;
  }

  lemma Round4(at: (nat, Columns, Columns) -> bool, r: nat)
    requires Steps(at) && r == 3 && at(r, S3(), K3())
    ensures at(r + 1, S4(), K4())
  {
    Step4();
    assert Rcon(r + 1) == 0x08;
  }

  lemma Round5(at: (nat, Columns, Columns) -> bool, r: nat)
    requires Steps(at) && r == 4 && at(r, S4(), K4())
    ensures at(r + 1, S5(), K5())
  {
    Step5();
    assert Rcon(r + 1) == 0x10;
  }

  lemma Round6(at: (nat, Columns, Columns) -> bool, r: nat)
    requires Steps(at) && r == 5 && at(r, S5(), K5())
    ensures at(r + 1, S6(), K6())
  {
    Step6();
    assert Rcon(r + 1) == 0x20;
  }

  lemma Round7(at: (nat, Columns, Columns) -> bool, r: nat)
    requires Steps(at) && r == 6 && at(r, S6(), K6())
    ensures at(r + 1, S7(), K7())
  {
    Step7();
    assert Rcon(r + 1) == 0x40;
  }

  lemma Round8(at: (nat, Columns, Columns) -> bool, r: nat)
    requires Steps(at) && r == 7 && at(r, S7(), K7())
    ensures at(r + 1, S8(), K8())
  {
    Step8();
    assert Rcon(r + 1) == 0x80;
  }

  lemma Round9(at: (nat, Columns, Columns) -> bool, r: nat)
    requires Steps(at) && r == 8 && at(r, S8(), K8())
    ensures at(r + 1, S9(), K9())
  {
    Step9();
    assert Rcon(r + 1) == 0x1b;
  }

  lemma Round10(at: (nat, Columns, Columns) -> bool, r: nat)
    requires Steps(at) && r == 9 && at(r, S9(), K9())
    ensures at(r + 1, S10(), K10())
  {
    Step10();
    assert Rcon(r + 1) == 0x36;
  }

  lemma AllRounds(at: (nat, Columns, Columns) -> bool, r: nat)
    requires Steps(at) && r == 0 && at(r, S0(), K0())
    ensures at(r + 10, S10(), K10())
  {
    Round1(at, r + 0);
    Round2(at, r + 1);
    Round3(at, r + 2);
    Round4(at, r + 3);
    Round5(at, r + 4);
    Round6(at, r + 5);
    Round7(at, r + 6);
    Round8(at, r + 7);
    Round9(at, r + 8);
    Round10(at, r + 9);
  }

  lemma AtSteps(key: Block, input: Block)
    ensures Steps((r: nat, s: Columns, k: Columns) => At(key, input, r, s, k))
  {
    forall r: nat, s, k, rcon | r < 10 && At(key, input, r, s, k) && Rcon(r + 1) == rcon
      ensures At(key, input, r + 1, NextState(s, NextKeys(k, rcon), r == 9), NextKeys(k, rcon))
    {
      Taken(key, input, r, s, k, rcon, NextState(s, NextKeys(k, rcon), r == 9), NextKeys(k, rcon));
    }
  }

  lemma Start(key: Block, input: Block)
    requires key == Flat(K0()) && AddKey(input, key) == Flat(S0())
    ensures At(key, input, 0, S0(), K0())
  {
    ColumnsBack(K0().c0, K0().c1, K0().c2, K0().c3);
    KeyListed(key, 0, K0());
  }

  lemma Ends(key: Block, input: Block, r: nat, s: Columns, k: Columns)
    requires r == 10 && At(key, input, r, s, k)
    ensures EncryptBlock(KeysOf(key), input) == Flat(s)
  {
  }

  lemma Run(key: Block, input: Block)
    requires key == Flat(K0()) && AddKey(input, key) == Flat(S0())
    ensures EncryptBlock(KeysOf(key), input) == Flat(S10())
  {
    var at := (r: nat, s: Columns, k: Columns) => At(key, input, r, s, k);
    Start(key, input);
    AtSteps(key, input);
    AllRounds(at, 0);
    Ends(key, input, 10, S10(), K10());
  }

  function Input(): Columns {
    Columns(Column(0x00, 0x11, 0x22, 0x33), Column(0x44, 0x55, 0x66, 0x77),
            Column(0x88, 0x99, 0xaa, 0xbb), Column(0xcc, 0xdd, 0xee, 0xff))
  }

  /** The example. */
  lemma EncryptExample(key: Block, input: Block)
    requires key == [0x00, 0x01, 0x02, 0x03, 0x04, 0x05, 0x06, 0x07, 0x08, 0x09, 0x0a, 0x0b, 0x0c, 0x0d, 0x0e, 0x0f]
    requires input == [0x00, 0x11, 0x22, 0x33, 0x44, 0x55, 0x66, 0x77, 0x88, 0x99, 0xaa, 0xbb, 0xcc, 0xdd, 0xee, 0xff]
    ensures EncryptBlock(KeysOf(key), input) ==
            [0x69, 0xc4, 0xe0, 0xd8, 0x6a, 0x7b, 0x04, 0x30, 0xd8, 0xcd, 0xb7, 0x80, 0x70, 0xb4, 0xc5, 0x5a]
  {
    KeyAdded(Input(), K0());
    assert Sum(Input(), K0()) == S0();
    Run(key, input);
  }
}
