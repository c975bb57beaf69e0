/** Arithmetic in GF(2^8) modulo x^8 + x^4 + x^3 + x + 1 (FIPS 197, section 4.2). */
module AesField {
  import opened Bytes

  /** Addition in the field. */
  function Add(a: byte, b: byte): byte {
    a ^ b
  }

  /** Multiplication by x. */
  function Xtime(b: byte): byte {
    (b << 1) ^ (if b & 0x80 != 0 then 0x1b else 0)
  }

  /** `p` plus `a` times the low `k` bits of `b`. */
  function Accumulate(p: byte, a: byte, b: byte, k: nat): byte
    decreases k, a
  {
    if k == 0 then p
    else Accumulate(if b & 1 != 0 then Add(p, a) else p, Xtime(a), b >> 1, k - 1)
  }

  const BITS: nat := 8

  /** The product of two field elements. */
  function Mul(a: byte, b: byte): byte {
    Accumulate(0, a, b, BITS)
  }

  /** `gmul`. */
  method Gmul(x: byte, y: byte) returns (p: byte)
    ensures p == Mul(x, y)
  {
    var a, b := x, y;
    p := 0;
    for i := 0 to BITS
      invariant Accumulate(p, a, b, BITS - i) == Mul(x, y)
    {
      if b & 1 != 0 { p := Add(p, a); }
      a := Xtime(a);
      b := b >> 1;
    }
  }

  // ----- addition -----

  lemma AddFacts(a: byte, b: byte, c: byte)
    ensures Add(a, b) == Add(b, a) && Add(Add(a, b), c) == Add(a, Add(b, c))
    ensures Add(a, 0) == a && Add(0, a) == a && Add(a, a) == 0
  {
  }

  lemma Swap(a: byte, b: byte, c: byte, d: byte)
    ensures Add(Add(a, b), Add(c, d)) == Add(Add(a, c), Add(b, d))
  {
    AddFacts(a, b, Add(c, d));
    AddFacts(b, c, d);
    AddFacts(c, b, d);
    AddFacts(a, c, Add(b, d));
  }

  function Sum4(a: byte, b: byte, c: byte, d: byte): byte {
    Add(Add(a, b), Add(c, d))
  }

  lemma SumAdd(a: byte, b: byte, c: byte, d: byte, e: byte, f: byte, g: byte, h: byte)
    ensures Add(Sum4(a, b, c, d), Sum4(e, f, g, h)) == Sum4(Add(a, e), Add(b, f), Add(c, g), Add(d, h))
  {
    Swap(Add(a, b), Add(c, d), Add(e, f), Add(g, h));
    Swap(a, b, e, f);
    Swap(c, d, g, h);
  }

  lemma Rotate(a: byte, b: byte, c: byte, d: byte)
    ensures Sum4(a, b, c, d) == Sum4(b, c, d, a)
  {
  }

  /** A sum of rows is a sum of columns. */
  lemma Transpose(
    a0: byte, a1: byte, a2: byte, a3: byte, b0: byte, b1: byte, b2: byte, b3: byte,
    c0: byte, c1: byte, c2: byte, c3: byte, d0: byte, d1: byte, d2: byte, d3: byte
  )
    ensures Sum4(Sum4(a0, a1, a2, a3), Sum4(b0, b1, b2, b3), Sum4(c0, c1, c2, c3), Sum4(d0, d1, d2, d3))
            == Sum4(Sum4(a0, b0, c0, d0), Sum4(a1, b1, c1, d1), Sum4(a2, b2, c2, d2), Sum4(a3, b3, c3, d3))
  {
    SumAdd(a0, a1, a2, a3, b0, b1, b2, b3);
    SumAdd(c0, c1, c2, c3, d0, d1, d2, d3);
    SumAdd(Add(a0, b0), Add(a1, b1), Add(a2, b2), Add(a3, b3), Add(c0, d0), Add(c1, d1), Add(c2, d2), Add(c3, d3));
  }

  // ----- distributivity -----

  lemma ShiftXor(a: byte, b: byte)
    ensures (a ^ b) << 1 == (a << 1) ^ (b << 1)
  {
  }

  lemma HighXor(a: byte, b: byte)
    ensures (a ^ b) & 0x80 == (a & 0x80) ^ (b & 0x80)
    ensures a & 0x80 == 0 || a & 0x80 == 0x80
  {
  }

  lemma XtimeXor(a: byte, b: byte)
    ensures Xtime(a ^ b) == Xtime(a) ^ Xtime(b)
  {
    ShiftXor(a, b);
    HighXor(a, b);
    HighXor(b, a);
  }

  lemma XtimeAdd(a: byte, b: byte)
    ensures Xtime(Add(a, b)) == Add(Xtime(a), Xtime(b))
  {
    XtimeXor(a, b);
  }

  lemma Odd(p: byte, a: byte, b: byte, k: nat)
    requires k > 0 && b & 1 != 0
    ensures Accumulate(p, a, b, k) == Accumulate(Add(p, a), Xtime(a), b >> 1, k - 1)
  {
  }

  lemma Even(p: byte, a: byte, b: byte, k: nat)
    requires k > 0 && b & 1 == 0
    ensures Accumulate(p, a, b, k) == Accumulate(p, Xtime(a), b >> 1, k - 1)
  {
  }

  lemma {:induction false} AccumulateAdd(p: byte, q: byte, a: byte, b: byte, c: byte, k: nat)
    ensures Accumulate(Add(p, q), Add(a, b), c, k) == Add(Accumulate(p, a, c, k), Accumulate(q, b, c, k))
    decreases k
  {
    if k > 0 {
      XtimeAdd(a, b);
      if c & 1 != 0 {
        Odd(Add(p, q), Add(a, b), c, k);
        Odd(p, a, c, k);
        Odd(q, b, c, k);
        Swap(p, q, a, b);
        AccumulateAdd(Add(p, a), Add(q, b), Xtime(a), Xtime(b), c >> 1, k - 1);
      } else {
        Even(Add(p, q), Add(a, b), c, k);
        Even(p, a, c, k);
        Even(q, b, c, k);
        AccumulateAdd(p, q, Xtime(a), Xtime(b), c >> 1, k - 1);
      }
    }
  }

  /** Multiplication distributes over addition. */
  lemma MulAdd(a: byte, b: byte, c: byte)
    ensures Mul(Add(a, b), c) == Add(Mul(a, c), Mul(b, c))
  {
    AccumulateAdd(0, 0, a, b, c, BITS);
    AddFacts(0, 0, 0);
  }

  lemma MulSum4(a: byte, b: byte, c: byte, d: byte, k: byte)
    ensures Mul(Sum4(a, b, c, d), k) == Sum4(Mul(a, k), Mul(b, k), Mul(c, k), Mul(d, k))
  {
    MulAdd(Add(a, b), Add(c, d), k);
    MulAdd(a, b, k);
    MulAdd(c, d, k);
  }

  // ----- the constants that AES multiplies by -----

  lemma {:induction false} Zero(p: byte, a: byte, k: nat)
    ensures Accumulate(p, a, 0, k) == p
    decreases k
  {
    if k > 0 {
      Even(p, a, 0, k);
      Zero(p, Xtime(a), k - 1);
    }
  }

  lemma {:induction false} Two(a: byte, k: nat)
    requires k >= 2
    ensures Accumulate(0, a, 0x02, k) == Xtime(a)
  {
    var d := Xtime(a);
    Even(0, a, 2, k);
    Odd(0, d, 1, k - 1);
    AddFacts(d, 0, 0);
    Zero(d, Xtime(d), k - 2);
  }

  lemma {:induction false} Three(a: byte, k: nat)
    requires k >= 2
    ensures Accumulate(0, a, 0x03, k) == Add(a, Xtime(a))
  {
    var d := Xtime(a);
    Odd(0, a, 3, k);
    AddFacts(a, 0, 0);
    Odd(a, d, 1, k - 1);
    Zero(Add(a, d), Xtime(d), k - 2);
  }

  lemma {:induction false} High(p: byte, a: byte, d1: byte, d2: byte, k: nat)
    requires k >= 3 && d1 == Xtime(a) && d2 == Xtime(d1)
    ensures Accumulate(p, a, 0x04, k) == Add(p, d2)
    ensures Accumulate(p, a, 0x05, k) == Add(Add(p, a), d2)
    ensures Accumulate(p, a, 0x06, k) == Add(Add(p, d1), d2)
    ensures Accumulate(p, a, 0x07, k) == Add(Add(Add(p, a), d1), d2)
  {
    HighEven(p, d1, d2, k - 1);
    HighEven(Add(p, a), d1, d2, k - 1);
    Even(p, a, 4, k);
    Odd(p, a, 5, k);
    Even(p, a, 6, k);
    Odd(p, a, 7, k);
  }

  lemma {:induction false} HighEven(p: byte, d1: byte, d2: byte, k: nat)
    requires k >= 2 && d2 == Xtime(d1)
    ensures Accumulate(p, d1, 0x02, k) == Add(p, d2)
    ensures Accumulate(p, d1, 0x03, k) == Add(Add(p, d1), d2)
  {
    Even(p, d1, 2, k);
    Odd(p, d1, 3, k);
    Odd(p, d2, 1, k - 1);
    Odd(Add(p, d1), d2, 1, k - 1);
    Zero(Add(p, d2), Xtime(d2), k - 2);
    Zero(Add(Add(p, d1), d2), Xtime(d2), k - 2);
  }

  /** Products by the matrix constants, in terms of repeated doubling. */
  lemma Constants(a: byte) returns (d1: byte, d2: byte, d3: byte)
    ensures Mul(a, 0x02) == d1 && Mul(d1, 0x02) == d2 && Mul(d2, 0x02) == d3
    ensures Mul(a, 0x03) == Add(a, d1)
    ensures Mul(a, 0x09) == Add(a, d3)
    ensures Mul(a, 0x0b) == Add(Add(a, d1), d3)
    ensures Mul(a, 0x0d) == Add(Add(a, d2), d3)
    ensures Mul(a, 0x0e) == Add(Add(d1, d2), d3)
  {
    d1 := Xtime(a);
    d2 := Xtime(d1);
    d3 := Xtime(d2);
    Two(a, BITS);
    Two(d1, BITS);
    Two(d2, BITS);
    Three(a, BITS);
    HighConstants(a, d1, d2, d3, BITS);
  }

  lemma {:induction false} HighConstants(a: byte, d1: byte, d2: byte, d3: byte, k: nat)
    requires k >= 4 && d1 == Xtime(a) && d2 == Xtime(d1) && d3 == Xtime(d2)
    ensures Accumulate(0, a, 0x09, k) == Add(a, d3)
    ensures Accumulate(0, a, 0x0b, k) == Add(Add(a, d1), d3)
    ensures Accumulate(0, a, 0x0d, k) == Add(Add(a, d2), d3)
    ensures Accumulate(0, a, 0x0e, k) == Add(Add(d1, d2), d3)
  {
    AddFacts(a, 0, 0);
    AddFacts(d1, 0, 0);
    High(a, d1, d2, d3, k - 1);
    High(0, d1, d2, d3, k - 1);
    Odd(0, a, 0x09, k);
    Odd(0, a, 0x0b, k);
    Odd(0, a, 0x0d, k);
    Even(0, a, 0x0e, k);
  }

  // ----- the two column matrices undo each other -----

  lemma CancelLeft(c: byte, d1: byte, d2: byte, d3: byte, d4: byte)
    ensures Add(Add(Add(d2, d3), d4), Add(Add(c, d1), d3)) == Add(Add(c, d1), Add(d2, d4))
  {
  }

  lemma CancelRight(c: byte, d1: byte, d2: byte, d3: byte, d4: byte)
    ensures Add(Add(Add(c, d2), d3), Add(Add(c, d3), Add(d1, d4))) == Add(d1, Add(d2, d4))
  {
  }

  lemma CancelDiagonal(c: byte, d1: byte, d2: byte, d3: byte, d4: byte)
    ensures Sum4(Add(Add(d2, d3), d4), Add(Add(c, d1), d3), Add(Add(c, d2), d3), Add(Add(c, d3), Add(d1, d4))) == c
  {
    var e := Add(d2, d4);
    CancelLeft(c, d1, d2, d3, d4);
    CancelRight(c, d1, d2, d3, d4);
    AddFacts(c, d1, e);
    AddFacts(c, Add(d1, e), Add(d1, e));
    AddFacts(Add(d1, e), 0, 0);
    AddFacts(c, 0, 0);
  }

  lemma CancelFirst(c: byte, d1: byte, d2: byte, d3: byte, d4: byte)
    ensures Sum4(Add(d1, d4), Add(Add(d1, d2), d3), Add(Add(c, d1), d3),
                 Add(Add(Add(c, d2), d3), Add(Add(d1, d3), d4))) == 0
  {
  }

  lemma CancelSecond(c: byte, d1: byte, d2: byte, d3: byte, d4: byte)
    ensures Sum4(Add(Add(d1, d3), d4), Add(c, d3), Add(Add(d1, d2), d3),
                 Add(Add(Add(c, d1), d3), Add(Add(d1, d2), d4))) == 0
  {
  }

  lemma CancelThird(c: byte, d1: byte, d2: byte, d3: byte, d4: byte)
    ensures Sum4(Add(Add(d1, d2), d4), Add(Add(c, d2), d3), Add(c, d3),
                 Add(Add(Add(d1, d2), d3), Add(Add(d2, d3), d4))) == 0
  {
  }

  /** One byte's contribution, through both matrices, to each byte of its column. */
  lemma Undo(c: byte)
    ensures Sum4(Mul(Mul(c, 0x02), 0x0e), Mul(c, 0x0b), Mul(c, 0x0d), Mul(Mul(c, 0x03), 0x09)) == c
    ensures Sum4(Mul(Mul(c, 0x02), 0x09), Mul(c, 0x0e), Mul(c, 0x0b), Mul(Mul(c, 0x03), 0x0d)) == 0
    ensures Sum4(Mul(Mul(c, 0x02), 0x0d), Mul(c, 0x09), Mul(c, 0x0e), Mul(Mul(c, 0x03), 0x0b)) == 0
    ensures Sum4(Mul(Mul(c, 0x02), 0x0b), Mul(c, 0x0d), Mul(c, 0x09), Mul(Mul(c, 0x03), 0x0e)) == 0
  {
    var d1, d2, d3 := Constants(c);
    var e1, e2, d4 := Constants(d1);
    MulAdd(c, d1, 0x09);
    MulAdd(c, d1, 0x0b);
    MulAdd(c, d1, 0x0d);
    MulAdd(c, d1, 0x0e);
    CancelDiagonal(c, d1, d2, d3, d4);
    CancelFirst(c, d1, d2, d3, d4);
    CancelSecond(c, d1, d2, d3, d4);
    CancelThird(c, d1, d2, d3, d4);
  }

  /** Doubling and tripling commute with the inverse matrix's constants. */
  lemma Commute(c: byte, k: byte)
    requires k == 0x09 || k == 0x0b || k == 0x0d || k == 0x0e
    ensures Mul(Mul(c, k), 0x02) == Mul(Mul(c, 0x02), k)
    ensures Mul(Mul(c, k), 0x03) == Mul(Mul(c, 0x03), k)
  {
    var d1, d2, d3 := Constants(c);
    var e1, e2, d4 := Constants(d1);
    var f1, f2, f3 := Constants(Mul(c, k));
    MulAdd(c, d1, k);
    DoubleSums(c, d1, d2, d3);
  }

  lemma DoubleSums(c: byte, d1: byte, d2: byte, d3: byte)
    ensures Mul(Add(c, d3), 0x02) == Add(Mul(c, 0x02), Mul(d3, 0x02))
    ensures Mul(Add(Add(c, d1), d3), 0x02) == Add(Add(Mul(c, 0x02), Mul(d1, 0x02)), Mul(d3, 0x02))
    ensures Mul(Add(Add(c, d2), d3), 0x02) == Add(Add(Mul(c, 0x02), Mul(d2, 0x02)), Mul(d3, 0x02))
    ensures Mul(Add(Add(d1, d2), d3), 0x02) == Add(Add(Mul(d1, 0x02), Mul(d2, 0x02)), Mul(d3, 0x02))
  {
    MulAdd(c, d3, 0x02);
    MulAdd(Add(c, d1), d3, 0x02);
    MulAdd(c, d1, 0x02);
    MulAdd(Add(c, d2), d3, 0x02);
    MulAdd(c, d2, 0x02);
    MulAdd(Add(d1, d2), d3, 0x02);
    MulAdd(d1, d2, 0x02);
  }
}
