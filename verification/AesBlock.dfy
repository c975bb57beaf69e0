/** The in-place transformations of a sixteen byte block that `encrypt_block` and `decrypt_block` run. */
module AesBlock {
  import opened AesBox
  import opened AesCipher
  import opened AesField
  import opened AesRounds
  import opened Bytes

  /** Add sixteen bytes to the block, one by one. */
  method XorInto(block: array<byte>, k: Block)
    requires block.Length == 16
    modifies block
    ensures block[..] == AddKey(old(block[..]), k)
  {
    for i := 0 to 16
      invariant forall j | 0 <= j < i :: block[j] == Add(old(block[j]), k[j])
      invariant forall j | i <= j < 16 :: block[j] == old(block[j])
    {
      block[i] := Add(block[i], k[i]);
    }
  }

  /** Replace every byte by its entry in a table. */
  method Substitute(block: array<byte>, t: Table)
    requires block.Length == 16
    modifies block
    ensures block[..] == SubBytes(t, old(block[..]))
  {
    for i := 0 to 16
      invariant forall j | 0 <= j < i :: block[j] == At(t, old(block[j]))
      invariant forall j | i <= j < 16 :: block[j] == old(block[j])
    {
      block[i] := At(t, block[i]);
    }
  }

  // ----- ShiftRows -----

  /** The row loop has finished the rows below `row`, and `col` columns of that one. */
  predicate Done(i: nat, row: nat, col: nat) {
    i % 4 < row || (i % 4 == row && i / 4 < col)
  }

  ghost predicate Shifted(b: Block, s: Block, row: nat, col: nat) {
    forall i: nat | i < 16 :: b[i] == if Done(i, row, col) then s[ShiftIndex(i)] else s[i]
  }

  lemma PlaceUnique(i: nat, col: nat, row: nat)
    requires i < 16 && col < 4 && row < 4
    ensures i == Place(col, row) <==> i / 4 == col && i % 4 == row
  {
  }

  lemma RightIsMod(col: nat, row: nat)
    requires col < 4 && row < 4
    ensures Right(col, row) == (col + row) % 4
  {
  }

  lemma ShiftStep(b: Block, s: Block, row: nat, col: nat) returns (i: nat)
    requires row < 4 && col < 4 && Shifted(b, s, row, col)
    ensures i == col * 4 + row < 16 && ShiftIndex(i) == Right(col, row) * 4 + row
    ensures Shifted(b[i := s[ShiftIndex(i)]], s, row, col + 1)
  {
    i := Place(col, row);
    forall j: nat | j < 16
      ensures j == i <==> j / 4 == col && j % 4 == row
    {
      PlaceUnique(j, col, row);
    }
  }

  /** Row 0 is in its place from the start, and the end of a row is the start of the next. */
  lemma DoneRows(i: nat)
    requires i < 16
    ensures i % 4 == 0 ==> ShiftIndex(i) == i
    ensures forall row: nat :: Done(i, row, 4) == Done(i, row + 1, 0)
    ensures Done(i, 4, 0)
  {
    assert i % 4 == 0 ==> i == Place(i / 4, 0);
  }

  lemma ShiftBounds(b: Block, s: Block)
    ensures Shifted(s, s, 1, 0)
    ensures forall row: nat :: Shifted(b, s, row, 4) ==> Shifted(b, s, row + 1, 0)
    ensures Shifted(b, s, 4, 0) ==> b == ShiftRows(s)
  {
    forall i: nat | i < 16 {
      DoneRows(i);
    }
  }

  method ShiftRow(block: array<byte>, s: Block, row: nat)
    requires block.Length == 16 && 1 <= row < 4 && Shifted(block[..], s, row, 0)
    modifies block
    ensures Shifted(block[..], s, row, 4)
  {
    for col := 0 to 4
      invariant Shifted(block[..], s, row, col)
    {
      ghost var b: Block := block[..];
      ghost var i := ShiftStep(b, s, row, col);
      RightIsMod(col, row);
      block[col * 4 + row] := s[(col + row) % 4 * 4 + row];
      assert block[..] == b[i := s[ShiftIndex(i)]];
    }
  }

  method ShiftInPlace(block: array<byte>)
    requires block.Length == 16
    modifies block
    ensures block[..] == ShiftRows(old(block[..]))
  {
    var s: Block := block[..];
    ShiftBounds(s, s);
    for row := 1 to 4
      invariant Shifted(block[..], s, row, 0)
    {
      ShiftRow(block, s, row);
      ShiftBounds(block[..], s);
    }
    ShiftBounds(block[..], s);
  }

  /** The inverse loop has put back the finished bytes. */
  ghost predicate Unshifted(b: Block, s: Block, row: nat, col: nat) {
    forall i: nat | i < 16 && Done(i, row, col) :: b[ShiftIndex(i)] == s[i]
  }

  /** A byte finished before stays, as no other byte moves to its place. */
  lemma UnshiftKeeps(b: Block, s: Block, i: nat, j: nat)
    requires i < 16 && j < 16 && (j == i || b[ShiftIndex(j)] == s[j])
    ensures b[ShiftIndex(i) := s[i]][ShiftIndex(j)] == s[j]
  {
    IndexInverse(i);
    IndexInverse(j);
  }

  lemma UnshiftStep(b: Block, s: Block, row: nat, col: nat) returns (i: nat)
    requires row < 4 && col < 4 && Unshifted(b, s, row, col)
    ensures i == col * 4 + row < 16 && ShiftIndex(i) == Right(col, row) * 4 + row
    ensures Unshifted(b[ShiftIndex(i) := s[i]], s, row, col + 1)
  {
    i := Place(col, row);
    forall j: nat | j < 16 && Done(j, row, col + 1)
      ensures b[ShiftIndex(i) := s[i]][ShiftIndex(j)] == s[j]
    {
      PlaceUnique(j, col, row);
      UnshiftKeeps(b, s, i, j);
    }
  }

  lemma UnshiftBounds(b: Block, s: Block)
    ensures Unshifted(s, s, 1, 0)
    ensures forall row: nat :: Unshifted(b, s, row, 4) ==> Unshifted(b, s, row + 1, 0)
  {
    forall i: nat | i < 16 {
      DoneRows(i);
    }
  }

  lemma UnshiftedAll(b: Block, s: Block)
    requires Unshifted(b, s, 4, 0)
    ensures b == InvShiftRows(s)
  {
    forall i: nat | i < 16
      ensures b[i] == s[UnshiftIndex(i)]
    {
      IndexInverse(i);
      DoneRows(UnshiftIndex(i));
    }
  }

  method UnshiftRow(block: array<byte>, s: Block, row: nat)
    requires block.Length == 16 && 1 <= row < 4 && Unshifted(block[..], s, row, 0)
    modifies block
    ensures Unshifted(block[..], s, row, 4)
  {
    for col := 0 to 4
      invariant Unshifted(block[..], s, row, col)
    {
      ghost var b: Block := block[..];
      ghost var i := UnshiftStep(b, s, row, col);
      RightIsMod(col, row);
      block[(col + row) % 4 * 4 + row] := s[col * 4 + row];
      assert block[..] == b[ShiftIndex(i) := s[i]];
    }
  }

  method UnshiftInPlace(block: array<byte>)
    requires block.Length == 16
    modifies block
    ensures block[..] == InvShiftRows(old(block[..]))
  {
    var s: Block := block[..];
    UnshiftBounds(s, s);
    for row := 1 to 4
      invariant Unshifted(block[..], s, row, 0)
    {
      UnshiftRow(block, s, row);
      UnshiftBounds(block[..], s);
    }
    UnshiftedAll(block[..], s);
  }

  // ----- MixColumns -----

  method SetColumn(block: array<byte>, col: nat, c: Column)
    requires block.Length == 16 && col < 4
    modifies block
    ensures ColumnOf(block[..], col) == c
    ensures forall j: nat | j < 4 && j != col :: ColumnOf(block[..], j) == old(ColumnOf(block[..], j))
  {
    block[4 * col] := c.b0;
    block[4 * col + 1] := c.b1;
    block[4 * col + 2] := c.b2;
    block[4 * col + 3] := c.b3;
  }

  /** One column times the fixed matrix. */
  method Mixed(c: Column) returns (r: Column)
    ensures r == MixColumn(c)
  {
    var a0 := Gmul(c.b0, 2);
    var a1 := Gmul(c.b1, 3);
    var b1 := Gmul(c.b1, 2);
    var b2 := Gmul(c.b2, 3);
    var c2 := Gmul(c.b2, 2);
    var c3 := Gmul(c.b3, 3);
    var d0 := Gmul(c.b0, 3);
    var d3 := Gmul(c.b3, 2);
    r := Column(Sum4(a0, a1, c.b2, c.b3), Sum4(c.b0, b1, b2, c.b3), Sum4(c.b0, c.b1, c2, c3), Sum4(d0, c.b1, c.b2, d3));
  }

  /** A row of the inverse matrix times a column. */
  method InvMixedRow(c: Column, k0: byte, k1: byte, k2: byte, k3: byte) returns (r: byte)
    ensures r == Sum4(Mul(c.b0, k0), Mul(c.b1, k1), Mul(c.b2, k2), Mul(c.b3, k3))
  {
    var a := Gmul(c.b0, k0);
    var b := Gmul(c.b1, k1);
    var d := Gmul(c.b2, k2);
    var e := Gmul(c.b3, k3);
    r := Sum4(a, b, d, e);
  }

  method InvMixed(c: Column) returns (r: Column)
    ensures r == InvMixColumn(c)
  {
    var r0 := InvMixedRow(c, 0x0e, 0x0b, 0x0d, 0x09);
    var r1 := InvMixedRow(c, 0x09, 0x0e, 0x0b, 0x0d);
    var r2 := InvMixedRow(c, 0x0d, 0x09, 0x0e, 0x0b);
    var r3 := InvMixedRow(c, 0x0b, 0x0d, 0x09, 0x0e);
    r := Column(r0, r1, r2, r3);
  }

  /** The first `n` columns of `b` are `f` of those of `s`. */
  ghost predicate Mapped(b: Block, s: Block, f: Column -> Column, n: nat) {
    forall j: nat | j < 4 && j < n :: ColumnOf(b, j) == f(ColumnOf(s, j))
  }

  lemma MappedAll(b: Block, s: Block, f: Column -> Column)
    requires Mapped(b, s, f, 4)
    ensures b == FromColumns(f(ColumnOf(s, 0)), f(ColumnOf(s, 1)), f(ColumnOf(s, 2)), f(ColumnOf(s, 3)))
  {
    BlockOfColumns(b);
  }

  method MixInPlace(block: array<byte>)
    requires block.Length == 16
    modifies block
    ensures block[..] == MixColumns(old(block[..]))
  {
    var s: Block := block[..];
    for col := 0 to 4
      invariant Mapped(block[..], s, MixColumn, col)
    {
      var c := Mixed(ColumnOf(s, col));
      SetColumn(block, col, c);
    }
    MappedAll(block[..], s, MixColumn);
  }

  method UnmixInPlace(block: array<byte>)
    requires block.Length == 16
    modifies block
    ensures block[..] == InvMixColumns(old(block[..]))
  {
    var s: Block := block[..];
    for col := 0 to 4
      invariant Mapped(block[..], s, InvMixColumn, col)
    {
      var c := InvMixed(ColumnOf(s, col));
      SetColumn(block, col, c);
    }
    MappedAll(block[..], s, InvMixColumn);
  }
}
