/** The AES-128 block transformations (FIPS 197, sections 5.1 and 5.3) and that they undo each other. */
module AesCipher {
  import opened AesField
  import opened Bytes

  /** Sixteen bytes, column by column. */
  type Block = s: seq<byte> | |s| == 16 witness ZEROS

  const ZEROS: seq<byte> := [0, 0, 0, 0, 0, 0, 0, 0, 0, 0, 0, 0, 0, 0, 0, 0]

  /** Eleven round keys. */
  type Keys = k: seq<Block> | |k| == 11 witness seq(11, i => ZEROS)

  // ----- columns -----

  datatype Column = Column(b0: byte, b1: byte, b2: byte, b3: byte)

  function MixColumn(c: Column): Column {
    Column(Sum4(Mul(c.b0, 0x02), Mul(c.b1, 0x03), c.b2, c.b3),
           Sum4(c.b0, Mul(c.b1, 0x02), Mul(c.b2, 0x03), c.b3),
           Sum4(c.b0, c.b1, Mul(c.b2, 0x02), Mul(c.b3, 0x03)),
           Sum4(Mul(c.b0, 0x03), c.b1, c.b2, Mul(c.b3, 0x02)))
  }

  function InvMixColumn(c: Column): Column {
    Column(Sum4(Mul(c.b0, 0x0e), Mul(c.b1, 0x0b), Mul(c.b2, 0x0d), Mul(c.b3, 0x09)),
           Sum4(Mul(c.b0, 0x09), Mul(c.b1, 0x0e), Mul(c.b2, 0x0b), Mul(c.b3, 0x0d)),
           Sum4(Mul(c.b0, 0x0d), Mul(c.b1, 0x09), Mul(c.b2, 0x0e), Mul(c.b3, 0x0b)),
           Sum4(Mul(c.b0, 0x0b), Mul(c.b1, 0x0d), Mul(c.b2, 0x09), Mul(c.b3, 0x0e)))
  }

  /** A row of the inverse matrix applied to a mixed column, rearranged by input byte. */
  lemma InvRowOfMixed(c: Column, i0: byte, i1: byte, i2: byte, i3: byte)
    ensures var m := MixColumn(c);
            Sum4(Mul(m.b0, i0), Mul(m.b1, i1), Mul(m.b2, i2), Mul(m.b3, i3))
            == Sum4(Sum4(Mul(Mul(c.b0, 0x02), i0), Mul(c.b0, i1), Mul(c.b0, i2), Mul(Mul(c.b0, 0x03), i3)),
                    Sum4(Mul(Mul(c.b1, 0x03), i0), Mul(Mul(c.b1, 0x02), i1), Mul(c.b1, i2), Mul(c.b1, i3)),
                    Sum4(Mul(c.b2, i0), Mul(Mul(c.b2, 0x03), i1), Mul(Mul(c.b2, 0x02), i2), Mul(c.b2, i3)),
                    Sum4(Mul(c.b3, i0), Mul(c.b3, i1), Mul(Mul(c.b3, 0x03), i2), Mul(Mul(c.b3, 0x02), i3)))
  {
    MulSum4(Mul(c.b0, 0x02), Mul(c.b1, 0x03), c.b2, c.b3, i0);
    MulSum4(c.b0, Mul(c.b1, 0x02), Mul(c.b2, 0x03), c.b3, i1);
    MulSum4(c.b0, c.b1, Mul(c.b2, 0x02), Mul(c.b3, 0x03), i2);
    MulSum4(Mul(c.b0, 0x03), c.b1, c.b2, Mul(c.b3, 0x02), i3);
    Transpose(Mul(Mul(c.b0, 0x02), i0), Mul(Mul(c.b1, 0x03), i0), Mul(c.b2, i0), Mul(c.b3, i0),
              Mul(c.b0, i1), Mul(Mul(c.b1, 0x02), i1), Mul(Mul(c.b2, 0x03), i1), Mul(c.b3, i1),
              Mul(c.b0, i2), Mul(c.b1, i2), Mul(Mul(c.b2, 0x02), i2), Mul(Mul(c.b3, 0x03), i2),
              Mul(Mul(c.b0, 0x03), i3), Mul(c.b1, i3), Mul(c.b2, i3), Mul(Mul(c.b3, 0x02), i3));
  }

  lemma OneByte(c: byte)
    ensures Sum4(c, 0, 0, 0) == c && Sum4(0, c, 0, 0) == c && Sum4(0, 0, c, 0) == c && Sum4(0, 0, 0, c) == c
  {
  }

  /** The four sums of `Undo`, started at each of their terms. */
  lemma UndoRotated(c: byte, a: byte, b: byte, d: byte, e: byte, r: byte)
    requires Sum4(a, b, d, e) == r
    ensures Sum4(e, a, b, d) == r && Sum4(d, e, a, b) == r && Sum4(b, d, e, a) == r
  {
    Rotate(e, a, b, d);
    Rotate(d, e, a, b);
    Rotate(a, b, d, e);
  }

  lemma UndoAll(c: byte)
    ensures var d, t := Mul(c, 0x02), Mul(c, 0x03);
            && Sum4(Mul(d, 0x0e), Mul(c, 0x0b), Mul(c, 0x0d), Mul(t, 0x09)) == c
            && Sum4(Mul(t, 0x09), Mul(d, 0x0e), Mul(c, 0x0b), Mul(c, 0x0d)) == c
            && Sum4(Mul(c, 0x0d), Mul(t, 0x09), Mul(d, 0x0e), Mul(c, 0x0b)) == c
            && Sum4(Mul(c, 0x0b), Mul(c, 0x0d), Mul(t, 0x09), Mul(d, 0x0e)) == c
  {
    var d, t := Mul(c, 0x02), Mul(c, 0x03);
    Undo(c);
    UndoRotated(c, Mul(d, 0x0e), Mul(c, 0x0b), Mul(c, 0x0d), Mul(t, 0x09), c);
  }

  lemma UndoNone(c: byte)
    ensures var d, t := Mul(c, 0x02), Mul(c, 0x03);
            && Sum4(Mul(d, 0x09), Mul(c, 0x0e), Mul(c, 0x0b), Mul(t, 0x0d)) == 0
            && Sum4(Mul(t, 0x0d), Mul(d, 0x09), Mul(c, 0x0e), Mul(c, 0x0b)) == 0
            && Sum4(Mul(c, 0x0b), Mul(t, 0x0d), Mul(d, 0x09), Mul(c, 0x0e)) == 0
            && Sum4(Mul(c, 0x0e), Mul(c, 0x0b), Mul(t, 0x0d), Mul(d, 0x09)) == 0
    ensures var d, t := Mul(c, 0x02), Mul(c, 0x03);
            && Sum4(Mul(d, 0x0d), Mul(c, 0x09), Mul(c, 0x0e), Mul(t, 0x0b)) == 0
            && Sum4(Mul(t, 0x0b), Mul(d, 0x0d), Mul(c, 0x09), Mul(c, 0x0e)) == 0
            && Sum4(Mul(c, 0x0e), Mul(t, 0x0b), Mul(d, 0x0d), Mul(c, 0x09)) == 0
            && Sum4(Mul(c, 0x09), Mul(c, 0x0e), Mul(t, 0x0b), Mul(d, 0x0d)) == 0
    ensures var d, t := Mul(c, 0x02), Mul(c, 0x03);
            && Sum4(Mul(d, 0x0b), Mul(c, 0x0d), Mul(c, 0x09), Mul(t, 0x0e)) == 0
            && Sum4(Mul(t, 0x0e), Mul(d, 0x0b), Mul(c, 0x0d), Mul(c, 0x09)) == 0
            && Sum4(Mul(c, 0x09), Mul(t, 0x0e), Mul(d, 0x0b), Mul(c, 0x0d)) == 0
            && Sum4(Mul(c, 0x0d), Mul(c, 0x09), Mul(t, 0x0e), Mul(d, 0x0b)) == 0
  {
    var d, t := Mul(c, 0x02), Mul(c, 0x03);
    Undo(c);
    UndoRotated(c, Mul(d, 0x09), Mul(c, 0x0e), Mul(c, 0x0b), Mul(t, 0x0d), 0);
    UndoRotated(c, Mul(d, 0x0d), Mul(c, 0x09), Mul(c, 0x0e), Mul(t, 0x0b), 0);
    UndoRotated(c, Mul(d, 0x0b), Mul(c, 0x0d), Mul(c, 0x09), Mul(t, 0x0e), 0);
  }

  lemma InvMixOfMix(c: Column)
    ensures InvMixColumn(MixColumn(c)) == c
  {
    InvRowOfMixed(c, 0x0e, 0x0b, 0x0d, 0x09);
    InvRowOfMixed(c, 0x09, 0x0e, 0x0b, 0x0d);
    InvRowOfMixed(c, 0x0d, 0x09, 0x0e, 0x0b);
    InvRowOfMixed(c, 0x0b, 0x0d, 0x09, 0x0e);
    UndoAll(c.b0);
    UndoAll(c.b1);
    UndoAll(c.b2);
    UndoAll(c.b3);
    UndoNone(c.b0);
    UndoNone(c.b1);
    UndoNone(c.b2);
    UndoNone(c.b3);
    OneByte(c.b0);
    OneByte(c.b1);
    OneByte(c.b2);
    OneByte(c.b3);
  }

  /** Reading a sum of four from its first term the other way round. */
  lemma Mirror(a: byte, b: byte, c: byte, d: byte)
    ensures Sum4(a, b, c, d) == Sum4(a, d, c, b)
  {
    AddFacts(b, 0, 0);
    Swap(a, b, c, d);
    Swap(a, d, c, b);
    AddFacts(b, d, 0);
  }

  lemma CommuteAll(c: byte)
    ensures Mul(Mul(c, 0x09), 0x02) == Mul(Mul(c, 0x02), 0x09) && Mul(Mul(c, 0x09), 0x03) == Mul(Mul(c, 0x03), 0x09)
    ensures Mul(Mul(c, 0x0b), 0x02) == Mul(Mul(c, 0x02), 0x0b) && Mul(Mul(c, 0x0b), 0x03) == Mul(Mul(c, 0x03), 0x0b)
    ensures Mul(Mul(c, 0x0d), 0x02) == Mul(Mul(c, 0x02), 0x0d) && Mul(Mul(c, 0x0d), 0x03) == Mul(Mul(c, 0x03), 0x0d)
    ensures Mul(Mul(c, 0x0e), 0x02) == Mul(Mul(c, 0x02), 0x0e) && Mul(Mul(c, 0x0e), 0x03) == Mul(Mul(c, 0x03), 0x0e)
  {
    Commute(c, 0x09);
    Commute(c, 0x0b);
    Commute(c, 0x0d);
    Commute(c, 0x0e);
  }

  lemma MixRow0OfInv(c: Column)
    ensures MixColumn(InvMixColumn(c)).b0 == c.b0
  {
    var n := InvMixColumn(c);
    CommuteAll(c.b0);
    CommuteAll(c.b1);
    CommuteAll(c.b2);
    CommuteAll(c.b3);
    MulSum4(Mul(c.b0, 0x0e), Mul(c.b1, 0x0b), Mul(c.b2, 0x0d), Mul(c.b3, 0x09), 0x02);
    MulSum4(Mul(c.b0, 0x09), Mul(c.b1, 0x0e), Mul(c.b2, 0x0b), Mul(c.b3, 0x0d), 0x03);
    Transpose(Mul(Mul(c.b0, 0x02), 0x0e), Mul(Mul(c.b1, 0x02), 0x0b),
              Mul(Mul(c.b2, 0x02), 0x0d), Mul(Mul(c.b3, 0x02), 0x09),
              Mul(Mul(c.b0, 0x03), 0x09), Mul(Mul(c.b1, 0x03), 0x0e),
              Mul(Mul(c.b2, 0x03), 0x0b), Mul(Mul(c.b3, 0x03), 0x0d),
              Mul(c.b0, 0x0d), Mul(c.b1, 0x09), Mul(c.b2, 0x0e), Mul(c.b3, 0x0b),
              Mul(c.b0, 0x0b), Mul(c.b1, 0x0d), Mul(c.b2, 0x09), Mul(c.b3, 0x0e));
    Mirror(Mul(Mul(c.b0, 0x02), 0x0e), Mul(Mul(c.b0, 0x03), 0x09), Mul(c.b0, 0x0d), Mul(c.b0, 0x0b));
    Mirror(Mul(Mul(c.b1, 0x02), 0x0b), Mul(Mul(c.b1, 0x03), 0x0e), Mul(c.b1, 0x09), Mul(c.b1, 0x0d));
    Mirror(Mul(Mul(c.b2, 0x02), 0x0d), Mul(Mul(c.b2, 0x03), 0x0b), Mul(c.b2, 0x0e), Mul(c.b2, 0x09));
    Mirror(Mul(Mul(c.b3, 0x02), 0x09), Mul(Mul(c.b3, 0x03), 0x0d), Mul(c.b3, 0x0b), Mul(c.b3, 0x0e));
    UndoAll(c.b0);
    UndoNone(c.b1);
    UndoNone(c.b2);
    UndoNone(c.b3);
    OneByte(c.b0);
  }

  lemma MixRow1OfInv(c: Column)
    ensures MixColumn(InvMixColumn(c)).b1 == c.b1
  {
    var n := InvMixColumn(c);
    CommuteAll(c.b0);
    CommuteAll(c.b1);
    CommuteAll(c.b2);
    CommuteAll(c.b3);
    MulSum4(Mul(c.b0, 0x09), Mul(c.b1, 0x0e), Mul(c.b2, 0x0b), Mul(c.b3, 0x0d), 0x02);
    MulSum4(Mul(c.b0, 0x0d), Mul(c.b1, 0x09), Mul(c.b2, 0x0e), Mul(c.b3, 0x0b), 0x03);
    Transpose(Mul(c.b0, 0x0e), Mul(c.b1, 0x0b), Mul(c.b2, 0x0d), Mul(c.b3, 0x09),
              Mul(Mul(c.b0, 0x02), 0x09), Mul(Mul(c.b1, 0x02), 0x0e),
              Mul(Mul(c.b2, 0x02), 0x0b), Mul(Mul(c.b3, 0x02), 0x0d),
              Mul(Mul(c.b0, 0x03), 0x0d), Mul(Mul(c.b1, 0x03), 0x09),
              Mul(Mul(c.b2, 0x03), 0x0e), Mul(Mul(c.b3, 0x03), 0x0b),
              Mul(c.b0, 0x0b), Mul(c.b1, 0x0d), Mul(c.b2, 0x09), Mul(c.b3, 0x0e));
    Mirror(Mul(c.b0, 0x0e), Mul(Mul(c.b0, 0x02), 0x09), Mul(Mul(c.b0, 0x03), 0x0d), Mul(c.b0, 0x0b));
    Mirror(Mul(c.b1, 0x0b), Mul(Mul(c.b1, 0x02), 0x0e), Mul(Mul(c.b1, 0x03), 0x09), Mul(c.b1, 0x0d));
    Mirror(Mul(c.b2, 0x0d), Mul(Mul(c.b2, 0x02), 0x0b), Mul(Mul(c.b2, 0x03), 0x0e), Mul(c.b2, 0x09));
    Mirror(Mul(c.b3, 0x09), Mul(Mul(c.b3, 0x02), 0x0d), Mul(Mul(c.b3, 0x03), 0x0b), Mul(c.b3, 0x0e));
    UndoNone(c.b0);
    UndoAll(c.b1);
    UndoNone(c.b2);
    UndoNone(c.b3);
    OneByte(c.b1);
  }

  lemma MixRow2OfInv(c: Column)
    ensures MixColumn(InvMixColumn(c)).b2 == c.b2
  {
    var n := InvMixColumn(c);
    CommuteAll(c.b0);
    CommuteAll(c.b1);
    CommuteAll(c.b2);
    CommuteAll(c.b3);
    MulSum4(Mul(c.b0, 0x0d), Mul(c.b1, 0x09), Mul(c.b2, 0x0e), Mul(c.b3, 0x0b), 0x02);
    MulSum4(Mul(c.b0, 0x0b), Mul(c.b1, 0x0d), Mul(c.b2, 0x09), Mul(c.b3, 0x0e), 0x03);
    Transpose(Mul(c.b0, 0x0e), Mul(c.b1, 0x0b), Mul(c.b2, 0x0d), Mul(c.b3, 0x09),
              Mul(c.b0, 0x09), Mul(c.b1, 0x0e), Mul(c.b2, 0x0b), Mul(c.b3, 0x0d),
              Mul(Mul(c.b0, 0x02), 0x0d), Mul(Mul(c.b1, 0x02), 0x09),
              Mul(Mul(c.b2, 0x02), 0x0e), Mul(Mul(c.b3, 0x02), 0x0b),
              Mul(Mul(c.b0, 0x03), 0x0b), Mul(Mul(c.b1, 0x03), 0x0d),
              Mul(Mul(c.b2, 0x03), 0x09), Mul(Mul(c.b3, 0x03), 0x0e));
    Mirror(Mul(c.b0, 0x0e), Mul(c.b0, 0x09), Mul(Mul(c.b0, 0x02), 0x0d), Mul(Mul(c.b0, 0x03), 0x0b));
    Mirror(Mul(c.b1, 0x0b), Mul(c.b1, 0x0e), Mul(Mul(c.b1, 0x02), 0x09), Mul(Mul(c.b1, 0x03), 0x0d));
    Mirror(Mul(c.b2, 0x0d), Mul(c.b2, 0x0b), Mul(Mul(c.b2, 0x02), 0x0e), Mul(Mul(c.b2, 0x03), 0x09));
    Mirror(Mul(c.b3, 0x09), Mul(c.b3, 0x0d), Mul(Mul(c.b3, 0x02), 0x0b), Mul(Mul(c.b3, 0x03), 0x0e));
    UndoNone(c.b0);
    UndoNone(c.b1);
    UndoAll(c.b2);
    UndoNone(c.b3);
    OneByte(c.b2);
  }

  lemma MixRow3OfInv(c: Column)
    ensures MixColumn(InvMixColumn(c)).b3 == c.b3
  {
    var n := InvMixColumn(c);
    CommuteAll(c.b0);
    CommuteAll(c.b1);
    CommuteAll(c.b2);
    CommuteAll(c.b3);
    MulSum4(Mul(c.b0, 0x0e), Mul(c.b1, 0x0b), Mul(c.b2, 0x0d), Mul(c.b3, 0x09), 0x03);
    MulSum4(Mul(c.b0, 0x0b), Mul(c.b1, 0x0d), Mul(c.b2, 0x09), Mul(c.b3, 0x0e), 0x02);
    Transpose(Mul(Mul(c.b0, 0x03), 0x0e), Mul(Mul(c.b1, 0x03), 0x0b),
              Mul(Mul(c.b2, 0x03), 0x0d), Mul(Mul(c.b3, 0x03), 0x09),
              Mul(c.b0, 0x09), Mul(c.b1, 0x0e), Mul(c.b2, 0x0b), Mul(c.b3, 0x0d),
              Mul(c.b0, 0x0d), Mul(c.b1, 0x09), Mul(c.b2, 0x0e), Mul(c.b3, 0x0b),
              Mul(Mul(c.b0, 0x02), 0x0b), Mul(Mul(c.b1, 0x02), 0x0d),
              Mul(Mul(c.b2, 0x02), 0x09), Mul(Mul(c.b3, 0x02), 0x0e));
    Mirror(Mul(Mul(c.b0, 0x03), 0x0e), Mul(c.b0, 0x09), Mul(c.b0, 0x0d), Mul(Mul(c.b0, 0x02), 0x0b));
    Mirror(Mul(Mul(c.b1, 0x03), 0x0b), Mul(c.b1, 0x0e), Mul(c.b1, 0x09), Mul(Mul(c.b1, 0x02), 0x0d));
    Mirror(Mul(Mul(c.b2, 0x03), 0x0d), Mul(c.b2, 0x0b), Mul(c.b2, 0x0e), Mul(Mul(c.b2, 0x02), 0x09));
    Mirror(Mul(Mul(c.b3, 0x03), 0x09), Mul(c.b3, 0x0d), Mul(c.b3, 0x0b), Mul(Mul(c.b3, 0x02), 0x0e));
    UndoNone(c.b0);
    UndoNone(c.b1);
    UndoNone(c.b2);
    UndoAll(c.b3);
    OneByte(c.b3);
  }

  lemma MixOfInvMix(c: Column)
    ensures MixColumn(InvMixColumn(c)) == c
  {
    MixRow0OfInv(c);
    MixRow1OfInv(c);
    MixRow2OfInv(c);
    MixRow3OfInv(c);
  }
}
