/** The example of SHA-1 that the program's tests pin it to: the message "abc", of one block (FIPS 180-4). */
module Sha1Example {
  import opened AbcBlock
  import opened Bytes
  import opened Sha1
  import opened Words

  // ----- eight at a time -----

  /** Four passes of a step, from number `t` on, each with a schedule word. */
  function Four<V>(step: (V, nat, word) -> V, t: nat, v: V, w0: word, w1: word, w2: word, w3: word): V {
    step(step(step(step(v, t, w0), t + 1, w1), t + 2, w2), t + 3, w3)
  }

  function Eight<V>(step: (V, nat, word) -> V, t: nat, v: V, w: seq<word>): V
    requires |w| == 8
  {
    Four(step, t + 4, Four(step, t, v, w[0], w[1], w[2], w[3]), w[4], w[5], w[6], w[7])
  }

  function OneStep(): (Vars<word>, nat, word) -> Vars<word> {
    (v: Vars<word>, t: nat, w: word) => Step(Words1(), v, t, w)
  }

  /** The schedule words `c` that follow `a` and then `b`. */
  predicate Extended(a: seq<word>, b: seq<word>, c: seq<word>) {
    && |a| == 8 && |b| == 8 && |c| == 8
    && c[0] == Spread(b[5], b[0], a[2], a[0]) && c[1] == Spread(b[6], b[1], a[3], a[1])
    && c[2] == Spread(b[7], b[2], a[4], a[2]) && c[3] == Spread(c[0], b[3], a[5], a[3])
    && c[4] == Spread(c[1], b[4], a[6], a[4]) && c[5] == Spread(c[2], b[5], a[7], a[5])
    && c[6] == Spread(c[3], b[6], b[0], a[6]) && c[7] == Spread(c[4], b[7], b[1], a[7])
  }

  /** Eight words of the schedule, from word `t` on. */
  ghost predicate WordsAt(block: Bytes, t: nat, w: seq<word>) {
    && |block| == 64 && |w| == 8
    && Schedule(Words1(), block, t) == w[0] && Schedule(Words1(), block, t + 1) == w[1]
    && Schedule(Words1(), block, t + 2) == w[2] && Schedule(Words1(), block, t + 3) == w[3]
    && Schedule(Words1(), block, t + 4) == w[4] && Schedule(Words1(), block, t + 5) == w[5]
    && Schedule(Words1(), block, t + 6) == w[6] && Schedule(Words1(), block, t + 7) == w[7]
  }

  lemma ScheduleIs(block: Bytes, t: nat, w16: word, w14: word, w8: word, w3: word, w: word)
    requires |block| == 64
    requires Schedule(Words1(), block, t) == w16 && Schedule(Words1(), block, t + 2) == w14
    requires Schedule(Words1(), block, t + 8) == w8 && Schedule(Words1(), block, t + 13) == w3
    requires w == Spread(w3, w8, w14, w16)
    ensures Schedule(Words1(), block, t + 16) == w
  {
  }

  lemma WordsExtend(block: Bytes, t: nat, a: seq<word>, b: seq<word>, c: seq<word>)
    requires WordsAt(block, t, a) && WordsAt(block, t + 8, b) && Extended(a, b, c)
    ensures WordsAt(block, t + 16, c)
  {
    ScheduleIs(block, t, a[0], a[2], b[0], b[5], c[0]);
    ScheduleIs(block, t + 1, a[1], a[3], b[1], b[6], c[1]);
    ScheduleIs(block, t + 2, a[2], a[4], b[2], b[7], c[2]);
    ScheduleIs(block, t + 3, a[3], a[5], b[3], c[0], c[3]);
    ScheduleIs(block, t + 4, a[4], a[6], b[4], c[1], c[4]);
    ScheduleIs(block, t + 5, a[5], a[7], b[5], c[2], c[5]);
    ScheduleIs(block, t + 6, a[6], b[0], b[6], c[3], c[6]);
    ScheduleIs(block, t + 7, a[7], b[1], b[7], c[4], c[7]);
  }

  ghost predicate Reached(block: Bytes, v0: Vars<word>, t: nat, v: Vars<word>) {
    |block| == 64 && After(Words1(), block, v0, t) == v
  }

  /** Closed under one step on this schedule. */
  ghost predicate OneClosed<V(!new)>(block: Bytes, step: (V, nat, word) -> V, at: (nat, V) -> bool) {
    |block| == 64 && forall t: nat, v | at(t, v) :: at(t + 1, step(v, t, Schedule(Words1(), block, t)))
  }

  lemma FourTaken<V(!new)>(
    block: Bytes, step: (V, nat, word) -> V, at: (nat, V) -> bool, t: nat, v: V, w0: word, w1: word, w2: word, w3: word
  )
    requires OneClosed(block, step, at) && at(t, v)
    requires Schedule(Words1(), block, t) == w0 && Schedule(Words1(), block, t + 1) == w1
    requires Schedule(Words1(), block, t + 2) == w2 && Schedule(Words1(), block, t + 3) == w3
    ensures at(t + 4, Four(step, t, v, w0, w1, w2, w3))
  {
    assert at(t + 1, step(v, t, w0));
    assert at(t + 2, step(step(v, t, w0), t + 1, w1));
    assert at(t + 3, step(step(step(v, t, w0), t + 1, w1), t + 2, w2));
  }

  lemma EightTaken<V(!new)>(
    block: Bytes, step: (V, nat, word) -> V, at: (nat, V) -> bool, t: nat, v: V, w: seq<word>
  )
    requires OneClosed(block, step, at) && at(t, v) && WordsAt(block, t, w)
    ensures at(t + 8, Eight(step, t, v, w))
  {
    var u := Four(step, t, v, w[0], w[1], w[2], w[3]);
    FourTaken(block, step, at, t, v, w[0], w[1], w[2], w[3]);
    FourTaken(block, step, at, t + 4, u, w[4], w[5], w[6], w[7]);
  }

  lemma StepsClosed(block: Bytes, v0: Vars<word>)
    requires |block| == 64
    ensures OneClosed(block, OneStep(), (t: nat, v: Vars<word>) => Reached(block, v0, t, v))
  {
  }

  // ----- the schedule of the example -----

  function W0(): seq<word> {
    [0x61626380, 0x00000000, 0x00000000, 0x00000000, 0x00000000, 0x00000000, 0x00000000, 0x00000000]
  }

  function W1(): seq<word> {
    [0x00000000, 0x00000000, 0x00000000, 0x00000000, 0x00000000, 0x00000000, 0x00000000, 0x00000018]
  }

  function W2(): seq<word> {
    [0xc2c4c700, 0x00000000, 0x00000030, 0x85898e01, 0x00000000, 0x00000060, 0x0b131c03, 0x00000030]
  }

  function W3(): seq<word> {
    [0x85898ec1, 0x16263806, 0x00000000, 0x00000180, 0x2c4c700c, 0x000000f0, 0x93afb507, 0x5898e048]
  }

  function W4(): seq<word> {
    [0x8e9a9202, 0x00000600, 0xb131c0f0, 0x16263bc6, 0x4ebed41e, 0x626380a1, 0x16263806, 0x000018c0]
  }

  function W5(): seq<word> {
    [0xd2e138c4, 0x00000f00, 0x3afb5079, 0x898e04e5, 0xe2ba3c2b, 0x000060c0, 0x053a37cd, 0x74458547]
  }

  function W6(): seq<word> {
    [0xda9415ed, 0x26380a16, 0x626383a1, 0x4ebf54de, 0x3835b44b, 0x0000f600, 0x1e84c7a3, 0x98e04d98]
  }

  function W7(): seq<word> {
    [0x651d16a0, 0x62658ca1, 0x458544d6, 0x44584cb7, 0x7ba06619, 0x6380aea2, 0x0ae55269, 0x627b49a1]
  }

  function W8(): seq<word> {
    [0x7cd45c9d, 0x000f0000, 0xfb50753a, 0xec6765e8, 0xba3c2be2, 0x0060c000, 0x3a37cd05, 0x458546f4]
  }

  function W9(): seq<word> {
    [0xb8599dd6, 0x380a1a26, 0x01e02203, 0xe7cc3456, 0xe6e60b69, 0x00f60a00, 0x5795ef4f, 0x822e0879]
  }

  lemma Extend2()
    ensures Extended(W0(), W1(), W2())
  {
  }

  lemma Extend3()
    ensures Extended(W1(), W2(), W3())
  {
  }

  lemma Extend4()
    ensures Extended(W2(), W3(), W4())
  {
  }

  lemma Extend5()
    ensures Extended(W3(), W4(), W5())
  {
  }

  lemma Extend6()
    ensures Extended(W4(), W5(), W6())
  {
  }

  lemma Extend7()
    ensures Extended(W5(), W6(), W7())
  {
  }

  lemma Extend8()
    ensures Extended(W6(), W7(), W8())
  {
  }

  lemma Extend9()
    ensures Extended(W7(), W8(), W9())
  {
  }

  // ----- its working variables -----

  function V0(): Vars<word> {
    Vars(0x67452301, 0xefcdab89, 0x98badcfe, 0x10325476, 0xc3d2e1f0)
  }

  function V1(): Vars<word> {
    Vars(0x9e8c07d4, 0x993e30c1, 0x0ff1f290, 0xb3f52677, 0xf3763846)
  }

  function V2(): Vars<word> {
    Vars(0x20bdd62f, 0x196bee77, 0x644a3da5, 0x1181ed99, 0x18c623f9)
  }

  function V3(): Vars<word> {
    Vars(0xd541f12d, 0x21283486, 0x0ce88eff, 0x868dec32, 0x7f67875f)
  }

  function V4(): Vars<word> {
    Vars(0x3b845d33, 0x1267b407, 0x717eebd7, 0xa0dc2d4b, 0xd2aa1365)
  }

  function V5(): Vars<word> {
    Vars(0x32de1cba, 0x4c986405, 0xf718e5cf, 0x03d447f6, 0xf72eec32)
  }

  function V6(): Vars<word> {
    Vars(0xbead02ca, 0xa01b846c, 0x8714787c, 0x503ca382, 0xfb86c6ab)
  }

  function V7(): Vars<word> {
    Vars(0x5e6456af, 0x7b71f76d, 0x09fa7c76, 0x792410db, 0x8e11eb59)
  }

  function V8(): Vars<word> {
    Vars(0x6b61c9e1, 0xb66c020b, 0x9523272c, 0xf5d5b051, 0x8fd4b796)
  }

  function V9(): Vars<word> {
    Vars(0x39859de7, 0xc199f8c7, 0x8fc96230, 0x125c24f0, 0xde37534a)
  }

  function V10(): Vars<word> {
    Vars(0x42541b35, 0x5738d5e1, 0x21834873, 0x681e6df6, 0xd8fdf6ad)
  }

  lemma Steps0()
    ensures Eight(OneStep(), 0, V0(), W0()) == V1()
  {
  }

  lemma Steps1()
    ensures Eight(OneStep(), 8, V1(), W1()) == V2()
  {
  }

  lemma Steps2()
    ensures Eight(OneStep(), 16, V2(), W2()) == V3()
  {
  }

  lemma Steps3()
    ensures Eight(OneStep(), 24, V3(), W3()) == V4()
  {
  }

  lemma Steps4()
    ensures Eight(OneStep(), 32, V4(), W4()) == V5()
  {
  }

  lemma Steps5()
    ensures Eight(OneStep(), 40, V5(), W5()) == V6()
  {
  }

  lemma Steps6()
    ensures Eight(OneStep(), 48, V6(), W6()) == V7()
  {
  }

  lemma Steps7()
    ensures Eight(OneStep(), 56, V7(), W7()) == V8()
  {
  }

  lemma Steps8()
    ensures Eight(OneStep(), 64, V8(), W8()) == V9()
  {
  }

  lemma Steps9()
    ensures Eight(OneStep(), 72, V9(), W9()) == V10()
  {
  }

  /** Closed under the schedule's recurrence, and under eight steps. */
  ghost predicate Closed(words: (nat, seq<word>) -> bool, at: (nat, Vars<word>) -> bool) {
    && (forall t: nat, a, b, c | words(t, a) && words(t + 8, b) && Extended(a, b, c) :: words(t + 16, c))
    && (forall t: nat, v, w | at(t, v) && words(t, w) && |w| == 8 :: at(t + 8, Eight(OneStep(), t, v, w)))
  }

  lemma AllWords(words: (nat, seq<word>) -> bool, at: (nat, Vars<word>) -> bool, t: nat)
    requires Closed(words, at) && words(t, W0()) && words(t + 8, W1())
    ensures words(t + 16, W2()) && words(t + 24, W3()) && words(t + 32, W4()) && words(t + 40, W5())
    ensures words(t + 48, W6()) && words(t + 56, W7()) && words(t + 64, W8()) && words(t + 72, W9())
  {
    Extend2();
    Extend3();
    Extend4();
    Extend5();
    Extend6();
    Extend7();
    Extend8();
    Extend9();
  }

  lemma Taken0(words: (nat, seq<word>) -> bool, at: (nat, Vars<word>) -> bool, t: nat)
    requires Closed(words, at) && t == 0 && words(t, W0()) && at(t, V0())
    ensures at(t + 8, V1())
  {
    Steps0();
  }

  lemma Taken1(words: (nat, seq<word>) -> bool, at: (nat, Vars<word>) -> bool, t: nat)
    requires Closed(words, at) && t == 8 && words(t, W1()) && at(t, V1())
    ensures at(t + 8, V2())
  {
    Steps1();
  }

  lemma Taken2(words: (nat, seq<word>) -> bool, at: (nat, Vars<word>) -> bool, t: nat)
    requires Closed(words, at) && t == 16 && words(t, W2()) && at(t, V2())
    ensures at(t + 8, V3())
  {
    Steps2();
  }

  lemma Taken3(words: (nat, seq<word>) -> bool, at: (nat, Vars<word>) -> bool, t: nat)
    requires Closed(words, at) && t == 24 && words(t, W3()) && at(t, V3())
    ensures at(t + 8, V4())
  {
    Steps3();
  }

  lemma Taken4(words: (nat, seq<word>) -> bool, at: (nat, Vars<word>) -> bool, t: nat)
    requires Closed(words, at) && t == 32 && words(t, W4()) && at(t, V4())
    ensures at(t + 8, V5())
  {
    Steps4();
  }

  lemma Taken5(words: (nat, seq<word>) -> bool, at: (nat, Vars<word>) -> bool, t: nat)
    requires Closed(words, at) && t == 40 && words(t, W5()) && at(t, V5())
    ensures at(t + 8, V6())
  {
    Steps5();
  }

  lemma Taken6(words: (nat, seq<word>) -> bool, at: (nat, Vars<word>) -> bool, t: nat)
    requires Closed(words, at) && t == 48 && words(t, W6()) && at(t, V6())
    ensures at(t + 8, V7())
  {
    Steps6();
  }

  lemma Taken7(words: (nat, seq<word>) -> bool, at: (nat, Vars<word>) -> bool, t: nat)
    requires Closed(words, at) && t == 56 && words(t, W7()) && at(t, V7())
    ensures at(t + 8, V8())
  {
    Steps7();
  }

  lemma Taken8(words: (nat, seq<word>) -> bool, at: (nat, Vars<word>) -> bool, t: nat)
    requires Closed(words, at) && t == 64 && words(t, W8()) && at(t, V8())
    ensures at(t + 8, V9())
  {
    Steps8();
  }

  lemma Taken9(words: (nat, seq<word>) -> bool, at: (nat, Vars<word>) -> bool, t: nat)
    requires Closed(words, at) && t == 72 && words(t, W9()) && at(t, V9())
    ensures at(t + 8, V10())
  {
    Steps9();
  }

  lemma AllSteps(words: (nat, seq<word>) -> bool, at: (nat, Vars<word>) -> bool, t: nat)
    requires Closed(words, at) && t == 0 && words(t, W0()) && words(t + 8, W1()) && at(t, V0())
    ensures at(t + 80, V10())
  {
    AllWords(words, at, t);
    Taken0(words, at, t + 0);
    Taken1(words, at, t + 8);
    Taken2(words, at, t + 16);
    Taken3(words, at, t + 24);
    Taken4(words, at, t + 32);
    Taken5(words, at, t + 40);
    Taken6(words, at, t + 48);
    Taken7(words, at, t + 56);
    Taken8(words, at, t + 64);
    Taken9(words, at, t + 72);
  }

  lemma IsClosed(block: Bytes, v0: Vars<word>)
    requires |block| == 64
    ensures Closed((t: nat, w: seq<word>) => WordsAt(block, t, w), (t: nat, v: Vars<word>) => Reached(block, v0, t, v))
  {
    forall t: nat, a, b, c | WordsAt(block, t, a) && WordsAt(block, t + 8, b) && Extended(a, b, c)
      ensures WordsAt(block, t + 16, c)
    {
      WordsExtend(block, t, a, b, c);
    }
    var at := (t: nat, v: Vars<word>) => Reached(block, v0, t, v);
    StepsClosed(block, v0);
    forall t: nat, v, w | at(t, v) && WordsAt(block, t, w)
      ensures at(t + 8, Eight(OneStep(), t, v, w))
    {
      EightTaken(block, OneStep(), at, t, v, w);
    }
  }

  // ----- the digest -----

  lemma FirstWords(block: Bytes)
    requires IsBlock(block)
    ensures WordsAt(block, 0, W0()) && WordsAt(block, 8, W1())
  {
  }

  lemma {:induction false} Compressed(block: Bytes)
    requires IsBlock(block)
    ensures After(Words1(), block, V0(), STEPS) == V10()
  {
    FirstWords(block);
    IsClosed(block, V0());
    AllSteps((t: nat, w: seq<word>) => WordsAt(block, t, w), (t: nat, v: Vars<word>) => Reached(block, V0(), t, v), 0);
  }

  function Final(): Vars<word> {
    Vars(0xa9993e36, 0x4706816a, 0xba3e2571, 0x7850c26c, 0x9cd0d89d)
  }

  lemma Hashed(block: Bytes)
    requires IsBlock(block)
    ensures Compress(Words1(), V0(), block) == Final()
  {
    Compressed(block);
  }

  /** The digest of "abc". */
  lemma DigestExample()
    ensures Of([0x61, 0x62, 0x63]) ==
            [0xa9, 0x99, 0x3e, 0x36, 0x47, 0x06, 0x81, 0x6a, 0xba, 0x3e, 0x25, 0x71, 0x78, 0x50, 0xc2, 0x6c,
             0x9c, 0xd0, 0xd8, 0x9d]
  {
    var block, bits := OneBlock(ABC);
    PaddedAbc(block, bits);
    Hashed(block);
    FinalBytes(Listed(Final()));
  }

  lemma {:induction false} FinalBytes(h: seq<word>)
    requires h == Listed(Final())
    ensures AllBytes(ToBytes, h) ==
            [0xa9, 0x99, 0x3e, 0x36, 0x47, 0x06, 0x81, 0x6a, 0xba, 0x3e, 0x25, 0x71, 0x78, 0x50, 0xc2, 0x6c,
             0x9c, 0xd0, 0xd8, 0x9d]
  {
    FiveWords(ToBytes, h);
  }

  lemma {:induction false} FiveWords<W>(code: W -> Quad, h: seq<W>)
    requires |h| == 5
    ensures AllBytes(code, h) ==
            Flat(code(h[0])) + Flat(code(h[1])) + Flat(code(h[2])) + Flat(code(h[3])) + Flat(code(h[4]))
  {
    BytesAt(code, h, 0);
    BytesAt(code, h, 1);
    BytesAt(code, h, 2);
    BytesAt(code, h, 3);
    BytesAt(code, h, 4);
    Assembled(AllBytes(code, h));
  }

  lemma Assembled(d: Bytes)
    requires |d| == 20
    ensures d == d[0..4] + d[4..8] + d[8..12] + d[12..16] + d[16..20]
  {
  }
}
