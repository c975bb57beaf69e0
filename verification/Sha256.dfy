/** SHA-256 (FIPS 180-4). */
module Sha256 {
  import opened Bytes
  import opened Sha2
  import opened Words

  // ----- the functions of section 4.1.2 -----

  function SmallSigma0(x: word): word {
    x.RotateRight(7) ^ x.RotateRight(18) ^ (x >> 3)
  }

  function SmallSigma1(x: word): word {
    x.RotateRight(17) ^ x.RotateRight(19) ^ (x >> 10)
  }

  function BigSigma0(x: word): word {
    x.RotateRight(2) ^ x.RotateRight(13) ^ x.RotateRight(22)
  }

  function BigSigma1(x: word): word {
    x.RotateRight(6) ^ x.RotateRight(11) ^ x.RotateRight(25)
  }

  function Ch(x: word, y: word, z: word): word {
    (x & y) ^ (!x & z)
  }

  function Maj(x: word, y: word, z: word): word {
    (x & y) ^ (x & z) ^ (y & z)
  }

  /** The sixty-four constants of section 4.2.2, eight to a row. */
  function Row(r: nat): (ks: seq<word>)
    ensures |ks| == 8
  {
    if r == 0 then [0x428a2f98, 0x71374491, 0xb5c0fbcf, 0xe9b5dba5, 0x3956c25b, 0x59f111f1, 0x923f82a4, 0xab1c5ed5]
    else if r == 1 then [0xd807aa98, 0x12835b01, 0x243185be, 0x550c7dc3, 0x72be5d74, 0x80deb1fe, 0x9bdc06a7, 0xc19bf174]
    else if r == 2 then [0xe49b69c1, 0xefbe4786, 0x0fc19dc6, 0x240ca1cc, 0x2de92c6f, 0x4a7484aa, 0x5cb0a9dc, 0x76f988da]
    else if r == 3 then [0x983e5152, 0xa831c66d, 0xb00327c8, 0xbf597fc7, 0xc6e00bf3, 0xd5a79147, 0x06ca6351, 0x14292967]
    else if r == 4 then [0x27b70a85, 0x2e1b2138, 0x4d2c6dfc, 0x53380d13, 0x650a7354, 0x766a0abb, 0x81c2c92e, 0x92722c85]
    else if r == 5 then [0xa2bfe8a1, 0xa81a664b, 0xc24b8b70, 0xc76c51a3, 0xd192e819, 0xd6990624, 0xf40e3585, 0x106aa070]
    else if r == 6 then [0x19a4c116, 0x1e376c08, 0x2748774c, 0x34b0bcb5, 0x391c0cb3, 0x4ed8aa4a, 0x5b9cca4f, 0x682e6ff3]
    else [0x748f82ee, 0x78a5636f, 0x84c87814, 0x8cc70208, 0x90befffa, 0xa4506ceb, 0xbef9a3f7, 0xc67178f2]
  }

  function Constant(t: nat): word {
    if t < 64 then Row(t / 8)[t % 8] else 0
  }

  function Plus(x: word, y: word): word {
    x + y
  }

  function Words256(): Algebra<word> {
    Algebra(0, Plus, SmallSigma0, SmallSigma1, BigSigma0, BigSigma1, Ch, Maj, Constant, FromBytes)
  }

  /** Sums of the same four words, one from each end. */
  lemma TermOrder(p: word, q: word, r: word, s: word, pq: word, pqr: word, pqrs: word, sr: word, srq: word, srqp: word)
    requires pq == p + q && pqr == pq + r && pqrs == pqr + s
    requires sr == s + r && srq == sr + q && srqp == srq + p
    ensures pqrs == srqp
  {
    calc {
      pqrs;
      pqr + s;
      pq + r + s;
      p + q + r + s;
      s + r + q + p;
      sr + q + p;
      srq + p;
      srqp;
    }
  }

  /** A sum under a name of its own. */
  lemma Sum(x: word, y: word) returns (z: word)
    ensures z == x + y && z == Plus(x, y)
  {
    z := x + y;
  }

  lemma PlusOrder(p: word, q: word, r: word, s: word)
    ensures Plus(Plus(Plus(p, q), r), s) == Plus(Plus(Plus(s, r), q), p)
  {
    var pq := Sum(p, q);
    var pqr := Sum(pq, r);
    var pqrs := Sum(pqr, s);
    var sr := Sum(s, r);
    var srq := Sum(sr, q);
    var srqp := Sum(srq, p);
    TermOrder(p, q, r, s, pq, pqr, pqrs, sr, srq, srqp);
  }

  /** The program adds the four terms of the schedule in another order than the standard. */
  lemma WordsReorder()
    ensures Reorders(Plus)
  {
    forall p, q, r, s | Terms(p, q, r, s)
      ensures Plus(Plus(Plus(p, q), r), s) == Plus(Plus(Plus(s, r), q), p)
    {
      PlusOrder(p, q, r, s);
    }
  }

  const INITIAL: seq<word> := [
    0x6a09e667, 0xbb67ae85, 0x3c6ef372, 0xa54ff53a, 0x510e527f, 0x9b05688c, 0x1f83d9ab, 0x5be0cd19]

  ghost function Of(data: Bytes): (d: Bytes)
    ensures |d| == 32
  {
    Digest(Words256(), ToBytes, INITIAL, data)
  }

  /** `sha256`. */
  method Compute(data: Bytes) returns (out: Bytes)
    ensures out == Of(data)
  {
    WordsReorder();
    out := ComputeDigest(Words256(), ToBytes, INITIAL, data);
  }
}
