/**
 The substitution box is the one section 5.1.1 of FIPS 197 defines: the inverse in the field, then a
 fixed sum of bits. Inverses are unique because multiplications by different bytes commute.
 */
module AesSbox {
  import opened AesBox
  import opened AesField
  import opened Bytes

  // ----- products, bit by bit -----

  /** What one bit of the multiplier adds. */
  function Term(b: byte, mask: byte, a: byte): byte {
    if b & mask != 0 then a else 0
  }

  /** `p` plus the products of `a` by the low two bits of `b`, and so on for four. */
  function AddTwo(p: byte, a: byte, b: byte): byte {
    p ^ Term(b, 1, a) ^ Term(b, 2, Xtime(a))
  }

  function AddFour(p: byte, a: byte, b: byte): byte {
    AddTwo(AddTwo(p, a, b), Xtime(Xtime(a)), b >> 2)
  }

  function Product(a: byte, b: byte): byte {
    AddFour(AddFour(0, a, b), Xtime(Xtime(Xtime(Xtime(a)))), b >> 4)
  }

  lemma ShiftedOnce(b: byte)
    ensures b >> 1 >> 1 == b >> 2 && b >> 2 >> 2 == b >> 4
    ensures (b >> 1) & 1 != 0 <==> b & 2 != 0
  {
  }

  lemma NextTerm(b: byte, a: byte)
    ensures Term(b >> 1, 1, a) == Term(b, 2, a)
  {
    ShiftedOnce(b);
  }

  lemma OneBit(p: byte, a: byte, b: byte, k: nat)
    requires k > 0
    ensures Accumulate(p, a, b, k) == Accumulate(p ^ Term(b, 1, a), Xtime(a), b >> 1, k - 1)
  {
    assert p ^ 0 == p;
  }

  lemma TwoBits(p: byte, a: byte, b: byte, k: nat)
    requires k > 1
    ensures Accumulate(p, a, b, k) == Accumulate(AddTwo(p, a, b), Xtime(Xtime(a)), b >> 2, k - 2)
  {
    OneBit(p, a, b, k);
    OneBit(p ^ Term(b, 1, a), Xtime(a), b >> 1, k - 1);
    ShiftedOnce(b);
    TwoTerms(p, a, b);
  }

  lemma TwoTerms(p: byte, a: byte, b: byte)
    ensures AddTwo(p, a, b) == p ^ Term(b, 1, a) ^ Term(b >> 1, 1, Xtime(a))
  {
    NextTerm(b, Xtime(a));
  }

  lemma FourBits(p: byte, a: byte, b: byte, k: nat)
    requires k > 3
    ensures Accumulate(p, a, b, k) == Accumulate(AddFour(p, a, b), Xtime(Xtime(Xtime(Xtime(a)))), b >> 4, k - 4)
  {
    TwoBits(p, a, b, k);
    TwoBits(AddTwo(p, a, b), Xtime(Xtime(a)), b >> 2, k - 2);
    ShiftedOnce(b);
  }

  lemma MulIsProduct(a: byte, b: byte)
    ensures Mul(a, b) == Product(a, b)
  {
    FourBits(0, a, b, BITS);
    FourBits(AddFour(0, a, b), Xtime(Xtime(Xtime(Xtime(a)))), b >> 4, BITS - 4);
  }

  lemma MulOne(b: byte)
    ensures Mul(1, b) == b && Mul(0, b) == 0
  {
    MulIsProduct(1, b);
    MulIsProduct(0, b);
  }

  // ----- multiplications commute -----

  lemma {:induction false} AccumulateXtime(p: byte, a: byte, c: byte, k: nat)
    ensures Xtime(Accumulate(p, a, c, k)) == Accumulate(Xtime(p), Xtime(a), c, k)
    decreases k
  {
    if k > 0 {
      XtimeAdd(p, a);
      if c & 1 != 0 {
        Odd(p, a, c, k);
        Odd(Xtime(p), Xtime(a), c, k);
        AccumulateXtime(Add(p, a), Xtime(a), c >> 1, k - 1);
      } else {
        Even(p, a, c, k);
        Even(Xtime(p), Xtime(a), c, k);
        AccumulateXtime(p, Xtime(a), c >> 1, k - 1);
      }
    }
  }

  lemma MulXtime(a: byte, b: byte)
    ensures Mul(Xtime(a), b) == Xtime(Mul(a, b))
  {
    AccumulateXtime(0, a, b, BITS);
    AddFacts(0, 0, 0);
    assert Xtime(0) == 0;
  }

  /** Multiplying by `b` may be done before a product is accumulated. */
  lemma {:induction false} AccumulateMul(p: byte, y: byte, a: byte, b: byte, k: nat)
    ensures Mul(Accumulate(p, y, a, k), b) == Accumulate(Mul(p, b), Mul(y, b), a, k)
    decreases k
  {
    if k > 0 {
      MulAdd(p, y, b);
      MulXtime(y, b);
      if a & 1 != 0 {
        Odd(p, y, a, k);
        Odd(Mul(p, b), Mul(y, b), a, k);
        AccumulateMul(Add(p, y), Xtime(y), a >> 1, b, k - 1);
      } else {
        Even(p, y, a, k);
        Even(Mul(p, b), Mul(y, b), a, k);
        AccumulateMul(p, Xtime(y), a >> 1, b, k - 1);
      }
    }
  }

  /** Factors on the right may change places. */
  lemma MulSwap(y: byte, a: byte, b: byte)
    ensures Mul(Mul(y, a), b) == Mul(Mul(y, b), a)
  {
    AccumulateMul(0, y, a, b, BITS);
    MulOne(b);
  }

  /** The field is commutative. */
  lemma MulCommutes(a: byte, b: byte)
    ensures Mul(a, b) == Mul(b, a)
  {
    MulSwap(1, a, b);
    MulOne(a);
    MulOne(b);
  }

  /** Two inverses of a byte are the same. */
  lemma InverseUnique(b: byte, x: byte, y: byte)
    requires Mul(b, x) == 1 && Mul(b, y) == 1
    ensures x == y
  {
    MulSwap(b, x, y);
    MulOne(x);
    MulOne(y);
  }

  // ----- the box -----

  /** Bit `i` of a byte, bit 0 the lowest. */
  function Bit(b: byte, i: bv3): byte {
    (b >> i) & 1
  }

  /** The affine transformation that follows the inverse. */
  function Affine(x: byte): byte {
    x ^ x.RotateLeft(1) ^ x.RotateLeft(2) ^ x.RotateLeft(3) ^ x.RotateLeft(4) ^ 0x63
  }

  lemma AffineBit(x: byte, i: bv3)
    ensures Bit(Affine(x), i) ==
            Bit(x, i) ^ Bit(x, i + 4) ^ Bit(x, i + 5) ^ Bit(x, i + 6) ^ Bit(x, i + 7) ^ Bit(0x63, i)
  {
  }

  /** What undoes it. */
  function Unaffine(y: byte): byte {
    y.RotateLeft(1) ^ y.RotateLeft(3) ^ y.RotateLeft(6) ^ 0x05
  }

  lemma AffineUn(y: byte)
    ensures Affine(Unaffine(y)) == y
  {
  }

  lemma LowInverse(b: byte)
    requires 0 < b < 0x80
    ensures Product(b, Unaffine(Sub(b))) == 1
  {
  }

  lemma HighInverse(b: byte)
    requires 0x80 <= b
    ensures Product(b, Unaffine(Sub(b))) == 1
  {
  }

  /** Every byte but zero has an inverse. */
  lemma HasInverse(b: byte) returns (x: byte)
    requires b != 0
    ensures Mul(b, x) == 1 && Affine(x) == Sub(b)
  {
    x := Unaffine(Sub(b));
    if b < 0x80 { LowInverse(b); } else { HighInverse(b); }
    MulIsProduct(b, x);
    AffineUn(Sub(b));
  }

  /**
   The box without its table: with `x` the inverse of `b`, or zero for zero, each bit of the entry
   for `b` is the sum of five bits of `x`, their places counted around eight, and a bit of 0x63.
   */
  lemma SubDefined(b: byte, x: byte, i: bv3)
    requires Mul(b, x) == 1 || b == x == 0
    ensures Bit(Sub(b), i) ==
            Bit(x, i) ^ Bit(x, i + 4) ^ Bit(x, i + 5) ^ Bit(x, i + 6) ^ Bit(x, i + 7) ^ Bit(0x63, i)
  {
    if b == 0 {
      MulOne(x);
    } else {
      var y := HasInverse(b);
      InverseUnique(b, x, y);
    }
    AffineBit(x, i);
  }
}
