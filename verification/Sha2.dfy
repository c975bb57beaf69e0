/**
 The hash computation of section 6.2.2 of FIPS 180-4 over any algebra of words, and the loops that
 perform it. The loops need one law: that the four terms of the message schedule may be added in
 either order.
 */
module Sha2 {
  import opened Bytes
  import opened Words
  import MessagePadding

  datatype Algebra<!W> = Algebra(
    zero: W,
    add: (W, W) -> W,
    smallSigma0: W -> W,
    smallSigma1: W -> W,
    bigSigma0: W -> W,
    bigSigma1: W -> W,
    ch: (W, W, W) -> W,
    maj: (W, W, W) -> W,
    k: nat -> W,
    fromBytes: (byte, byte, byte, byte) -> W)

  /** Four terms to be added. */
  ghost predicate Terms<W>(p: W, q: W, r: W, s: W) {
    true
  }

  ghost predicate Reorders<W(!new)>(add: (W, W) -> W) {
    forall p, q, r, s {:trigger Terms(p, q, r, s)} ::
      Terms(p, q, r, s) ==> add(add(add(p, q), r), s) == add(add(add(s, r), q), p)
  }

  // ----- the definition -----

  function WordAt<W>(al: Algebra<W>, block: Bytes, t: nat): W
    requires |block| == 64 && t < 16
  {
    al.fromBytes(block[4 * t], block[4 * t + 1], block[4 * t + 2], block[4 * t + 3])
  }

  /** Word `t` of the message schedule. */
  function Schedule<W>(al: Algebra<W>, block: Bytes, t: nat): W
    requires |block| == 64
  {
    if t < 16 then WordAt(al, block, t)
    else al.add(al.add(al.add(al.smallSigma1(Schedule(al, block, t - 2)), Schedule(al, block, t - 7)),
                       al.smallSigma0(Schedule(al, block, t - 15))), Schedule(al, block, t - 16))
  }

  datatype Vars<W> = Vars(a: W, b: W, c: W, d: W, e: W, f: W, g: W, h: W)

  function Step<W>(al: Algebra<W>, v: Vars<W>, k: W, w: W): Vars<W> {
    var t1 := al.add(al.add(al.add(al.add(v.h, al.bigSigma1(v.e)), al.ch(v.e, v.f, v.g)), k), w);
    var t2 := al.add(al.bigSigma0(v.a), al.maj(v.a, v.b, v.c));
    Vars(al.add(t1, t2), v.a, v.b, v.c, al.add(v.d, t1), v.e, v.f, v.g)
  }

  /** The working variables after `t` steps. */
  function After<W>(al: Algebra<W>, block: Bytes, v: Vars<W>, t: nat): Vars<W>
    requires |block| == 64
  {
    if t == 0 then v else Step(al, After(al, block, v, t - 1), al.k(t - 1), Schedule(al, block, t - 1))
  }

  function AddVars<W>(al: Algebra<W>, x: Vars<W>, y: Vars<W>): Vars<W> {
    Vars(al.add(x.a, y.a), al.add(x.b, y.b), al.add(x.c, y.c), al.add(x.d, y.d),
         al.add(x.e, y.e), al.add(x.f, y.f), al.add(x.g, y.g), al.add(x.h, y.h))
  }

  const STEPS: nat := 64

  function Compress<W>(al: Algebra<W>, h: Vars<W>, block: Bytes): Vars<W>
    requires |block| == 64
  {
    AddVars(al, h, After(al, block, h, STEPS))
  }

  predicate AllBlocks(blocks: seq<Bytes>) {
    forall i | 0 <= i < |blocks| :: |blocks[i]| == 64
  }

  /** The hash value after the first `n` blocks. */
  function Hash<W>(al: Algebra<W>, init: Vars<W>, blocks: seq<Bytes>, n: nat): Vars<W>
    requires AllBlocks(blocks) && n <= |blocks|
  {
    if n == 0 then init else Compress(al, Hash(al, init, blocks, n - 1), blocks[n - 1])
  }

  lemma {:induction false} HashPrefix<W>(al: Algebra<W>, init: Vars<W>, a: seq<Bytes>, b: seq<Bytes>, n: nat)
    requires AllBlocks(a) && AllBlocks(b) && n <= |a|
    ensures Hash(al, init, a + b, n) == Hash(al, init, a, n)
  {
    if n > 0 { HashPrefix(al, init, a, b, n - 1); }
  }

  /** Blocks are taken in order: what the first ones leave is where the later ones start. */
  lemma {:induction false} HashContinues<W>(al: Algebra<W>, init: Vars<W>, a: seq<Bytes>, b: seq<Bytes>, n: nat)
    requires AllBlocks(a) && AllBlocks(b) && n <= |b|
    ensures Hash(al, init, a + b, |a| + n) == Hash(al, Hash(al, init, a, |a|), b, n)
  {
    if n == 0 {
      HashPrefix(al, init, a, b, |a|);
    } else {
      HashContinues(al, init, a, b, n - 1);
      assert (a + b)[|a| + n - 1] == b[n - 1];
    }
  }

  function State<W>(h: seq<W>): Vars<W>
    requires |h| == 8
  {
    Vars(h[0], h[1], h[2], h[3], h[4], h[5], h[6], h[7])
  }

  function Listed<W>(v: Vars<W>): (h: seq<W>)
    ensures |h| == 8
  {
    [v.a, v.b, v.c, v.d, v.e, v.f, v.g, v.h]
  }

  function MessageBlocks(data: Bytes): (blocks: seq<Bytes>)
    ensures AllBlocks(blocks)
  {
    MessagePadding.Blocks(MessagePadding.Padded(data))
  }

  /** The message digest: the final hash value as bytes. */
  function Digest<W>(al: Algebra<W>, code: W -> Quad, init: seq<W>, data: Bytes): (d: Bytes)
    requires |init| == 8
    ensures |d| == 32
  {
    var blocks := MessageBlocks(data);
    AllBytes(code, Listed(Hash(al, State(init), blocks, |blocks|)))
  }

  // ----- the loops -----

  lemma ScheduleStep<W(!new)>(al: Algebra<W>, block: Bytes, t: nat, w16: W, w15: W, w7: W, w2: W)
    requires |block| == 64 && t >= 16 && Reorders(al.add)
    requires w16 == Schedule(al, block, t - 16) && w15 == Schedule(al, block, t - 15)
    requires w7 == Schedule(al, block, t - 7) && w2 == Schedule(al, block, t - 2)
    ensures Schedule(al, block, t) == al.add(al.add(al.add(w16, al.smallSigma0(w15)), w7), al.smallSigma1(w2))
  {
    assert Terms(w16, al.smallSigma0(w15), w7, al.smallSigma1(w2));
  }

  ghost predicate Scheduled<W>(al: Algebra<W>, block: Bytes, w: seq<W>, n: nat)
    requires |block| == 64
  {
    n <= |w| && forall t: nat | t < n :: w[t] == Schedule(al, block, t)
  }

  method LoadBlock<W(!new)>(al: Algebra<W>, block: Bytes, w: array<W>)
    requires |block| == 64 && w.Length == STEPS
    modifies w
    ensures Scheduled(al, block, w[..], 16)
  {
    for i := 0 to 16
      invariant Scheduled(al, block, w[..], i)
    {
      w[i] := al.fromBytes(block[4 * i], block[4 * i + 1], block[4 * i + 2], block[4 * i + 3]);
    }
  }

  method ExtendSchedule<W(!new)>(al: Algebra<W>, block: Bytes, w: array<W>)
    requires |block| == 64 && w.Length == STEPS && Scheduled(al, block, w[..], 16) && Reorders(al.add)
    modifies w
    ensures Scheduled(al, block, w[..], STEPS)
  {
    for i := 16 to STEPS
      invariant Scheduled(al, block, w[..], i)
    {
      ScheduleStep(al, block, i, w[i - 16], w[i - 15], w[i - 7], w[i - 2]);
      var s0 := al.smallSigma0(w[i - 15]);
      var s1 := al.smallSigma1(w[i - 2]);
      w[i] := al.add(al.add(al.add(w[i - 16], s0), w[i - 7]), s1);
    }
  }

  /** The sixty-four steps, on eight variables that shift along. */
  method RunSteps<W(!new)>(al: Algebra<W>, block: Bytes, w: array<W>, v0: Vars<W>) returns (v: Vars<W>)
    requires |block| == 64 && w.Length == STEPS && Scheduled(al, block, w[..], STEPS)
    ensures v == After(al, block, v0, STEPS)
  {
    var a, b, c, d, e, f, g, h := v0.a, v0.b, v0.c, v0.d, v0.e, v0.f, v0.g, v0.h;
    for i := 0 to STEPS
      invariant Vars(a, b, c, d, e, f, g, h) == After(al, block, v0, i)
    {
      var s1 := al.bigSigma1(e);
      var ch := al.ch(e, f, g);
      var t1 := al.add(al.add(al.add(al.add(h, s1), ch), al.k(i)), w[i]);
      var s0 := al.bigSigma0(a);
      var maj := al.maj(a, b, c);
      var t2 := al.add(s0, maj);
      h := g;
      g := f;
      f := e;
      e := al.add(d, t1);
      d := c;
      c := b;
      b := a;
      a := al.add(t1, t2);
    }
    v := Vars(a, b, c, d, e, f, g, h);
  }

  method AddInto<W(!new)>(al: Algebra<W>, h: array<W>, v: Vars<W>)
    requires h.Length == 8
    modifies h
    ensures State(h[..]) == AddVars(al, old(State(h[..])), v)
  {
    h[0] := al.add(h[0], v.a);
    h[1] := al.add(h[1], v.b);
    h[2] := al.add(h[2], v.c);
    h[3] := al.add(h[3], v.d);
    h[4] := al.add(h[4], v.e);
    h[5] := al.add(h[5], v.f);
    h[6] := al.add(h[6], v.g);
    h[7] := al.add(h[7], v.h);
  }

  method CompressBlock<W(!new)>(al: Algebra<W>, block: Bytes, h: array<W>)
    requires |block| == 64 && h.Length == 8 && Reorders(al.add)
    modifies h
    ensures State(h[..]) == Compress(al, old(State(h[..])), block)
  {
    var w := new W[STEPS](_ => al.zero);
    LoadBlock(al, block, w);
    ExtendSchedule(al, block, w);
    var v := RunSteps(al, block, w, State(h[..]));
    AddInto(al, h, v);
  }

  method HashBlocks<W(!new)>(al: Algebra<W>, blocks: seq<Bytes>, h: array<W>)
    requires AllBlocks(blocks) && h.Length == 8 && Reorders(al.add)
    modifies h
    ensures State(h[..]) == Hash(al, old(State(h[..])), blocks, |blocks|)
  {
    for i := 0 to |blocks|
      invariant State(h[..]) == Hash(al, old(State(h[..])), blocks, i)
    {
      CompressBlock(al, blocks[i], h);
    }
  }

  lemma ListedState<W>(h: seq<W>)
    requires |h| == 8
    ensures Listed(State(h)) == h
  {
  }

  method HashFrom<W(!new)>(al: Algebra<W>, init: seq<W>, blocks: seq<Bytes>) returns (h: seq<W>)
    requires |init| == 8 && AllBlocks(blocks) && Reorders(al.add)
    ensures h == Listed(Hash(al, State(init), blocks, |blocks|))
  {
    var a := new W[8](i requires 0 <= i < 8 => init[i]);
    assert a[..] == init;
    HashBlocks(al, blocks, a);
    h := a[..];
    ListedState(h);
  }

  /** The whole computation: pad, compress block by block, and write the words out. */
  method ComputeDigest<W(!new)>(al: Algebra<W>, code: W -> Quad, init: seq<W>, data: Bytes) returns (out: Bytes)
    requires |init| == 8 && Reorders(al.add)
    ensures out == Digest(al, code, init, data)
  {
    var blocks := MessagePadding.PaddedBlocks(data);
    var h := HashFrom(al, init, blocks);
    out := CopyWords(code, h);
  }
}
