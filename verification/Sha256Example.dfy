/** The example of SHA-256 that the program's tests pin it to: the message "abc", of one block (FIPS 180-4). */
module Sha256Example {
  import opened AbcBlock
  import opened Bytes
  import opened Sha2
  import opened Sha256
  import opened Words

  // ----- eight at a time -----

  /** Four passes of a step, each with a constant and a schedule word. */
  function Four<V>(
    step: (V, word, word) -> V, v: V, k0: word, k1: word, k2: word, k3: word, w0: word, w1: word, w2: word, w3: word
  ): V {
    step(step(step(step(v, k0, w0), k1, w1), k2, w2), k3, w3)
  }

  function Eight<V>(step: (V, word, word) -> V, v: V, k: seq<word>, w: seq<word>): V
    requires |k| == 8 && |w| == 8
  {
    var u := Four(step, v, k[0], k[1], k[2], k[3], w[0], w[1], w[2], w[3]);
    Four(step, u, k[4], k[5], k[6], k[7], w[4], w[5], w[6], w[7])
  }

  function OneStep(): (Vars<word>, word, word) -> Vars<word> {
    (v, k, w) => Step(Words256(), v, k, w)
  }

  /** The schedule words `c` that follow `a` and then `b`. */
  predicate Extended(a: seq<word>, b: seq<word>, c: seq<word>) {
    && |a| == 8 && |b| == 8 && |c| == 8
    && c[0] == Plus(Plus(Plus(SmallSigma1(b[6]), b[1]), SmallSigma0(a[1])), a[0])
    && c[1] == Plus(Plus(Plus(SmallSigma1(b[7]), b[2]), SmallSigma0(a[2])), a[1])
    && c[2] == Plus(Plus(Plus(SmallSigma1(c[0]), b[3]), SmallSigma0(a[3])), a[2])
    && c[3] == Plus(Plus(Plus(SmallSigma1(c[1]), b[4]), SmallSigma0(a[4])), a[3])
    && c[4] == Plus(Plus(Plus(SmallSigma1(c[2]), b[5]), SmallSigma0(a[5])), a[4])
    && c[5] == Plus(Plus(Plus(SmallSigma1(c[3]), b[6]), SmallSigma0(a[6])), a[5])
    && c[6] == Plus(Plus(Plus(SmallSigma1(c[4]), b[7]), SmallSigma0(a[7])), a[6])
    && c[7] == Plus(Plus(Plus(SmallSigma1(c[5]), c[0]), SmallSigma0(b[0])), a[7])
  }

  /** Eight words of the schedule, from word `t` on. */
  ghost predicate WordsAt(block: Bytes, t: nat, w: seq<word>) {
    && |block| == 64 && |w| == 8
    && Schedule(Words256(), block, t) == w[0] && Schedule(Words256(), block, t + 1) == w[1]
    && Schedule(Words256(), block, t + 2) == w[2] && Schedule(Words256(), block, t + 3) == w[3]
    && Schedule(Words256(), block, t + 4) == w[4] && Schedule(Words256(), block, t + 5) == w[5]
    && Schedule(Words256(), block, t + 6) == w[6] && Schedule(Words256(), block, t + 7) == w[7]
  }

  lemma ScheduleIs(block: Bytes, t: nat, w16: word, w15: word, w7: word, w2: word, w: word)
    requires |block| == 64
    requires Schedule(Words256(), block, t) == w16 && Schedule(Words256(), block, t + 1) == w15
    requires Schedule(Words256(), block, t + 9) == w7 && Schedule(Words256(), block, t + 14) == w2
    requires w == Plus(Plus(Plus(SmallSigma1(w2), w7), SmallSigma0(w15)), w16)
    ensures Schedule(Words256(), block, t + 16) == w
  {
  }

  lemma WordsExtend(block: Bytes, t: nat, a: seq<word>, b: seq<word>, c: seq<word>)
    requires WordsAt(block, t, a) && WordsAt(block, t + 8, b) && Extended(a, b, c)
    ensures WordsAt(block, t + 16, c)
  {
    ScheduleIs(block, t, a[0], a[1], b[1], b[6], c[0]);
    ScheduleIs(block, t + 1, a[1], a[2], b[2], b[7], c[1]);
    ScheduleIs(block, t + 2, a[2], a[3], b[3], c[0], c[2]);
    ScheduleIs(block, t + 3, a[3], a[4], b[4], c[1], c[3]);
    ScheduleIs(block, t + 4, a[4], a[5], b[5], c[2], c[4]);
    ScheduleIs(block, t + 5, a[5], a[6], b[6], c[3], c[5]);
    ScheduleIs(block, t + 6, a[6], a[7], b[7], c[4], c[6]);
    ScheduleIs(block, t + 7, a[7], b[0], c[0], c[5], c[7]);
  }

  predicate ConstantsAt(t: nat, k: seq<word>) {
    && |k| == 8
    && Constant(t) == k[0] && Constant(t + 1) == k[1] && Constant(t + 2) == k[2] && Constant(t + 3) == k[3]
    && Constant(t + 4) == k[4] && Constant(t + 5) == k[5] && Constant(t + 6) == k[6] && Constant(t + 7) == k[7]
  }

  lemma Place(r: nat, i: nat)
    requires i < 8
    ensures (8 * r + i) / 8 == r && (8 * r + i) % 8 == i
  {
  }

  lemma ConstantOf(r: nat, k: seq<word>, i: nat)
    requires r < 8 && i < 8 && k == Row(r)
    ensures Constant(8 * r + i) == k[i]
  {
    Place(r, i);
  }

  lemma RowAt(r: nat, k: seq<word>)
    requires r < 8 && k == Row(r)
    ensures ConstantsAt(8 * r, k)
  {
    forall i: nat | i < 8
      ensures Constant(8 * r + i) == k[i]
    {
      ConstantOf(r, k, i);
    }
  }

  ghost predicate Reached(block: Bytes, v0: Vars<word>, t: nat, v: Vars<word>) {
    |block| == 64 && After(Words256(), block, v0, t) == v
  }

  /** Closed under one step on this schedule. */
  ghost predicate OneClosed<V(!new)>(block: Bytes, step: (V, word, word) -> V, at: (nat, V) -> bool) {
    |block| == 64 &&
    forall t: nat, v | at(t, v) :: at(t + 1, step(v, Constant(t), Schedule(Words256(), block, t)))
  }

  lemma FourTaken<V(!new)>(
    block: Bytes, step: (V, word, word) -> V, at: (nat, V) -> bool, t: nat, v: V,
    k0: word, k1: word, k2: word, k3: word, w0: word, w1: word, w2: word, w3: word
  )
    requires OneClosed(block, step, at) && at(t, v)
    requires Constant(t) == k0 && Constant(t + 1) == k1 && Constant(t + 2) == k2 && Constant(t + 3) == k3
    requires Schedule(Words256(), block, t) == w0 && Schedule(Words256(), block, t + 1) == w1
    requires Schedule(Words256(), block, t + 2) == w2 && Schedule(Words256(), block, t + 3) == w3
    ensures at(t + 4, Four(step, v, k0, k1, k2, k3, w0, w1, w2, w3))
  {
    assert at(t + 1, step(v, k0, w0));
    assert at(t + 2, step(step(v, k0, w0), k1, w1));
    assert at(t + 3, step(step(step(v, k0, w0), k1, w1), k2, w2));
  }

  lemma EightTaken<V(!new)>(
    block: Bytes, step: (V, word, word) -> V, at: (nat, V) -> bool, t: nat, v: V, k: seq<word>, w: seq<word>
  )
    requires OneClosed(block, step, at) && at(t, v) && ConstantsAt(t, k) && WordsAt(block, t, w)
    ensures at(t + 8, Eight(step, v, k, w))
  {
    var u := Four(step, v, k[0], k[1], k[2], k[3], w[0], w[1], w[2], w[3]);
    FourTaken(block, step, at, t, v, k[0], k[1], k[2], k[3], w[0], w[1], w[2], w[3]);
    FourTaken(block, step, at, t + 4, u, k[4], k[5], k[6], k[7], w[4], w[5], w[6], w[7]);
  }

  // ----- the schedule of the example -----

  function W0(): seq<word> {
    [0x61626380, 0x00000000, 0x00000000, 0x00000000, 0x00000000, 0x00000000, 0x00000000, 0x00000000]
  }

  function W1(): seq<word> {
    [0x00000000, 0x00000000, 0x00000000, 0x00000000, 0x00000000, 0x00000000, 0x00000000, 0x00000018]
  }

  function W2(): seq<word> {
    [0x61626380, 0x000f0000, 0x7da86405, 0x600003c6, 0x3e9d7b78, 0x0183fc00, 0x12dcbfdb, 0xe2e2c38e]
  }

  function W3(): seq<word> {
    [0xc8215c1a, 0xb73679a2, 0xe5bc3909, 0x32663c5b, 0x9d209d67, 0xec8726cb, 0x702138a4, 0xd3b7973b]
  }

  function W4(): seq<word> {
    [0x93f5997f, 0x3b68ba73, 0xaff4ffc1, 0xf10a5c62, 0x0a8b3996, 0x72af830a, 0x9409e33e, 0x24641522]
  }

  function W5(): seq<word> {
    [0x9f47bf94, 0xf0a64f5a, 0x3e246a79, 0x27333ba3, 0x0c4763f2, 0x840abf27, 0x7a290d5d, 0x065c43da]
  }

  function W6(): seq<word> {
    [0xfb3e89cb, 0xcc7617db, 0xb9e66c34, 0xa9993667, 0x84badedd, 0xc21462bc, 0x1487472c, 0xb20f7a99]
  }

  function W7(): seq<word> {
    [0xef57b9cd, 0xebe6b238, 0x9fe3095e, 0x78bc8d4b, 0xa43fcf15, 0x668b2ff8, 0xeeaba2cc, 0x12b1edeb]
  }

  lemma Extend2()
    ensures Extended(W0(), W1(), W2())
  {
  }

  lemma Extend3()
    ensures Extended(W1(), W2(), W3())
  {
  }

  lemma Extend4()
    ensures Extended(W2(), W3(), W4())
  {
  }

  lemma Extend5()
    ensures Extended(W3(), W4(), W5())
  {
  }

  lemma Extend6()
    ensures Extended(W4(), W5(), W6())
  {
  }

  lemma Extend7()
    ensures Extended(W5(), W6(), W7())
  {
  }

  // ----- its working variables -----

  function V0(): Vars<word> {
    Vars(0x6a09e667, 0xbb67ae85, 0x3c6ef372, 0xa54ff53a, 0x510e527f, 0x9b05688c, 0x1f83d9ab, 0x5be0cd19)
  }

  function V1(): Vars<word> {
    Vars(0x85a07b5f, 0xe5030380, 0x2b4209f5, 0x04409a6a, 0x0c657a79, 0x9b27a401, 0x714260ad, 0x43ada245)
  }

  function V2(): Vars<word> {
    Vars(0xb0fa238e, 0xc0645fde, 0xd932eb16, 0x87912990, 0x07590dcd, 0x0b92f20c, 0x745a48de, 0x1e578218)
  }

  function V3(): Vars<word> {
    Vars(0xc5d53d8d, 0xa7a3623f, 0xc2606d6d, 0x9dc68b63, 0xaa47c347, 0x49f5114a, 0xe1257970, 0x8ada8930)
  }

  function V4(): Vars<word> {
    Vars(0x73b33bf5, 0xea992a22, 0xa0060b30, 0x363482c9, 0xba591112, 0x0109ab3a, 0xade79437, 0x6112a3b7)
  }

  function V5(): Vars<word> {
    Vars(0x79ea687a, 0x6dc57a8a, 0x34df1604, 0x41a65cb1, 0x1efbc0a0, 0xf0781bc8, 0xa507a53d, 0x0772a26b)
  }

  function V6(): Vars<word> {
    Vars(0x4172328d, 0xa14c14b0, 0x72ab4b91, 0x26628815, 0xfecf0bc6, 0xd57b94a9, 0xb7755da1, 0xa80f11f0)
  }

  function V7(): Vars<word> {
    Vars(0x38cc9913, 0x3ec45cdb, 0xf5702fdb, 0x101fd28f, 0x54cb266b, 0xe50e1b4f, 0x9f4787c3, 0x529e7d00)
  }

  function V8(): Vars<word> {
    Vars(0x506e3058, 0xd39a2165, 0x04d24d6c, 0xb85e2ce9, 0x5ef50f24, 0xfb121210, 0x948d25b6, 0x961f4894)
  }

  lemma Steps0()
    ensures Eight(OneStep(), V0(), Row(0), W0()) == V1()
  {
  }

  lemma Steps1()
    ensures Eight(OneStep(), V1(), Row(1), W1()) == V2()
  {
  }

  lemma Steps2()
    ensures Eight(OneStep(), V2(), Row(2), W2()) == V3()
  {
  }

  lemma Steps3()
    ensures Eight(OneStep(), V3(), Row(3), W3()) == V4()
  {
  }

  lemma Steps4()
    ensures Eight(OneStep(), V4(), Row(4), W4()) == V5()
  {
  }

  lemma Steps5()
    ensures Eight(OneStep(), V5(), Row(5), W5()) == V6()
  {
  }

  lemma Steps6()
    ensures Eight(OneStep(), V6(), Row(6), W6()) == V7()
  {
  }

  lemma Steps7()
    ensures Eight(OneStep(), V7(), Row(7), W7()) == V8()
  {
  }

  /** Closed under the schedule's recurrence, and under eight steps. */
  ghost predicate Closed(words: (nat, seq<word>) -> bool, at: (nat, Vars<word>) -> bool) {
    && (forall t: nat, a, b, c | words(t, a) && words(t + 8, b) && Extended(a, b, c) :: words(t + 16, c))
    && (forall t: nat, v, k, w | at(t, v) && ConstantsAt(t, k) && words(t, w) && |w| == 8 ::
          at(t + 8, Eight(OneStep(), v, k, w)))
  }

  lemma AllWords(words: (nat, seq<word>) -> bool, at: (nat, Vars<word>) -> bool, t: nat)
    requires Closed(words, at) && words(t, W0()) && words(t + 8, W1())
    ensures words(t + 16, W2()) && words(t + 24, W3()) && words(t + 32, W4())
    ensures words(t + 40, W5()) && words(t + 48, W6()) && words(t + 56, W7())
  {
    Extend2();
    Extend3();
    Extend4();
    Extend5();
    Extend6();
    Extend7();
  }

  lemma Taken0(words: (nat, seq<word>) -> bool, at: (nat, Vars<word>) -> bool, t: nat)
    requires Closed(words, at) && t == 0 && words(t, W0()) && at(t, V0())
    ensures at(t + 8, V1())
  {
    RowAt(0, Row(0));
    Steps0();
  }

  lemma Taken1(words: (nat, seq<word>) -> bool, at: (nat, Vars<word>) -> bool, t: nat)
    requires Closed(words, at) && t == 8 && words(t, W1()) && at(t, V1())
    ensures at(t + 8, V2())
  {
    RowAt(1, Row(1));
    Steps1();
  }

  lemma Taken2(words: (nat, seq<word>) -> bool, at: (nat, Vars<word>) -> bool, t: nat)
    requires Closed(words, at) && t == 16 && words(t, W2()) && at(t, V2())
    ensures at(t + 8, V3())
  {
    RowAt(2, Row(2));
    Steps2();
  }

  lemma Taken3(words: (nat, seq<word>) -> bool, at: (nat, Vars<word>) -> bool, t: nat)
    requires Closed(words, at) && t == 24 && words(t, W3()) && at(t, V3())
    ensures at(t + 8, V4())
  {
    RowAt(3, Row(3));
    Steps3();
  }

  lemma Taken4(words: (nat, seq<word>) -> bool, at: (nat, Vars<word>) -> bool, t: nat)
    requires Closed(words, at) && t == 32 && words(t, W4()) && at(t, V4())
    ensures at(t + 8, V5())
  {
    RowAt(4, Row(4));
    Steps4();
  }

  lemma Taken5(words: (nat, seq<word>) -> bool, at: (nat, Vars<word>) -> bool, t: nat)
    requires Closed(words, at) && t == 40 && words(t, W5()) && at(t, V5())
    ensures at(t + 8, V6())
  {
    RowAt(5, Row(5));
    Steps5();
  }

  lemma Taken6(words: (nat, seq<word>) -> bool, at: (nat, Vars<word>) -> bool, t: nat)
    requires Closed(words, at) && t == 48 && words(t, W6()) && at(t, V6())
    ensures at(t + 8, V7())
  {
    RowAt(6, Row(6));
    Steps6();
  }

  lemma Taken7(words: (nat, seq<word>) -> bool, at: (nat, Vars<word>) -> bool, t: nat)
    requires Closed(words, at) && t == 56 && words(t, W7()) && at(t, V7())
    ensures at(t + 8, V8())
  {
    RowAt(7, Row(7));
    Steps7();
  }

  lemma AllSteps(words: (nat, seq<word>) -> bool, at: (nat, Vars<word>) -> bool, t: nat)
    requires Closed(words, at) && t == 0 && words(t, W0()) && words(t + 8, W1()) && at(t, V0())
    ensures at(t + 64, V8())
  {
    AllWords(words, at, t);
    Taken0(words, at, t + 0);
    Taken1(words, at, t + 8);
    Taken2(words, at, t + 16);
    Taken3(words, at, t + 24);
    Taken4(words, at, t + 32);
    Taken5(words, at, t + 40);
    Taken6(words, at, t + 48);
    Taken7(words, at, t + 56);
  }

  lemma IsClosed(block: Bytes, v0: Vars<word>)
    requires |block| == 64
    ensures Closed((t: nat, w: seq<word>) => WordsAt(block, t, w), (t: nat, v: Vars<word>) => Reached(block, v0, t, v))
  {
    forall t: nat, a, b, c | WordsAt(block, t, a) && WordsAt(block, t + 8, b) && Extended(a, b, c)
      ensures WordsAt(block, t + 16, c)
    {
      WordsExtend(block, t, a, b, c);
    }
    var at := (t: nat, v: Vars<word>) => Reached(block, v0, t, v);
    StepsClosed(block, v0);
    forall t: nat, v, k, w | at(t, v) && ConstantsAt(t, k) && WordsAt(block, t, w)
      ensures at(t + 8, Eight(OneStep(), v, k, w))
    {
      EightTaken(block, OneStep(), at, t, v, k, w);
    }
  }

  lemma StepsClosed(block: Bytes, v0: Vars<word>)
    requires |block| == 64
    ensures OneClosed(block, OneStep(), (t: nat, v: Vars<word>) => Reached(block, v0, t, v))
  {
  }

  // ----- the digest -----

  lemma FirstWords(block: Bytes)
    requires IsBlock(block)
    ensures WordsAt(block, 0, W0()) && WordsAt(block, 8, W1())
  {
  }

  lemma {:induction false} Compressed(block: Bytes)
    requires IsBlock(block)
    ensures After(Words256(), block, V0(), STEPS) == V8()
  {
    FirstWords(block);
    IsClosed(block, V0());
    AllSteps((t: nat, w: seq<word>) => WordsAt(block, t, w), (t: nat, v: Vars<word>) => Reached(block, V0(), t, v), 0);
  }

  function Final(): Vars<word> {
    Vars(0xba7816bf, 0x8f01cfea, 0x414140de, 0x5dae2223, 0xb00361a3, 0x96177a9c, 0xb410ff61, 0xf20015ad)
  }

  lemma Hashed(block: Bytes)
    requires IsBlock(block)
    ensures Compress(Words256(), V0(), block) == Final()
  {
    Compressed(block);
  }

  lemma DigestExample()
    ensures Of([0x61, 0x62, 0x63]) ==
            [0xba, 0x78, 0x16, 0xbf, 0x8f, 0x01, 0xcf, 0xea, 0x41, 0x41, 0x40, 0xde, 0x5d, 0xae, 0x22, 0x23,
             0xb0, 0x03, 0x61, 0xa3, 0x96, 0x17, 0x7a, 0x9c, 0xb4, 0x10, 0xff, 0x61, 0xf2, 0x00, 0x15, 0xad]
  {
    var block, bits := OneBlock(ABC);
    PaddedAbc(block, bits);
    Hashed(block);
    FinalBytes(Listed(Final()));
  }

  lemma {:induction false} FinalBytes(h: seq<word>)
    requires h == Listed(Final())
    ensures AllBytes(ToBytes, h) ==
            [0xba, 0x78, 0x16, 0xbf, 0x8f, 0x01, 0xcf, 0xea, 0x41, 0x41, 0x40, 0xde, 0x5d, 0xae, 0x22, 0x23,
             0xb0, 0x03, 0x61, 0xa3, 0x96, 0x17, 0x7a, 0x9c, 0xb4, 0x10, 0xff, 0x61, 0xf2, 0x00, 0x15, 0xad]
  {
    EightWords(ToBytes, h);
  }

  lemma {:induction false} EightWords<W>(code: W -> Quad, h: seq<W>)
    requires |h| == 8
    ensures AllBytes(code, h) == Flat(code(h[0])) + Flat(code(h[1])) + Flat(code(h[2])) + Flat(code(h[3]))
                                 + Flat(code(h[4])) + Flat(code(h[5])) + Flat(code(h[6])) + Flat(code(h[7]))
  {
    BytesAt(code, h, 0);
    BytesAt(code, h, 1);
    BytesAt(code, h, 2);
    BytesAt(code, h, 3);
    BytesAt(code, h, 4);
    BytesAt(code, h, 5);
    BytesAt(code, h, 6);
    BytesAt(code, h, 7);
    Assembled(AllBytes(code, h));
  }

  lemma Assembled(d: Bytes)
    requires |d| == 32
    ensures d == d[0..4] + d[4..8] + d[8..12] + d[12..16] + d[16..20] + d[20..24] + d[24..28] + d[28..32]
  {
  }
}
