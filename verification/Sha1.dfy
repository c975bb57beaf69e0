/**
 The hash computation of section 6.1.2 of FIPS 180-4 over any algebra of words, and the loops that
 perform it. The program writes the logical functions with "or" where the standard has "exclusive
 or", so the loops take the program's functions and need only that they have the same values.
 */
module Sha1 {
  import opened Bytes
  import opened Words
  import MessagePadding
  import Sha2

  datatype Algebra<!W> = Algebra(
    zero: W,
    add: (W, W) -> W,
    spread: (W, W, W, W) -> W,
    rotate5: W -> W,
    rotate30: W -> W,
    f: (nat, W, W, W) -> W,
    k: nat -> W,
    fromBytes: (byte, byte, byte, byte) -> W)

  const STEPS: nat := 80

  // ----- the definition -----

  function WordAt<W>(al: Algebra<W>, block: Bytes, t: nat): W
    requires |block| == 64 && t < 16
  {
    al.fromBytes(block[4 * t], block[4 * t + 1], block[4 * t + 2], block[4 * t + 3])
  }

  /** Word `t` of the message schedule. */
  function Schedule<W>(al: Algebra<W>, block: Bytes, t: nat): W
    requires |block| == 64
  {
    if t < 16 then WordAt(al, block, t)
    else al.spread(Schedule(al, block, t - 3), Schedule(al, block, t - 8),
                   Schedule(al, block, t - 14), Schedule(al, block, t - 16))
  }

  datatype Vars<W> = Vars(a: W, b: W, c: W, d: W, e: W)

  function Step<W>(al: Algebra<W>, v: Vars<W>, t: nat, w: W): Vars<W> {
    var temp := al.add(al.add(al.add(al.add(al.rotate5(v.a), al.f(t, v.b, v.c, v.d)), v.e), al.k(t)), w);
    Vars(temp, v.a, al.rotate30(v.b), v.c, v.d)
  }

  /** The working variables after `t` steps. */
  function After<W>(al: Algebra<W>, block: Bytes, v: Vars<W>, t: nat): Vars<W>
    requires |block| == 64
  {
    if t == 0 then v else Step(al, After(al, block, v, t - 1), t - 1, Schedule(al, block, t - 1))
  }

  function AddVars<W>(al: Algebra<W>, x: Vars<W>, y: Vars<W>): Vars<W> {
    Vars(al.add(x.a, y.a), al.add(x.b, y.b), al.add(x.c, y.c), al.add(x.d, y.d), al.add(x.e, y.e))
  }

  function Compress<W>(al: Algebra<W>, h: Vars<W>, block: Bytes): Vars<W>
    requires |block| == 64
  {
    AddVars(al, h, After(al, block, h, STEPS))
  }

  /** The hash value after the first `n` blocks. */
  function Hash<W>(al: Algebra<W>, init: Vars<W>, blocks: seq<Bytes>, n: nat): Vars<W>
    requires Sha2.AllBlocks(blocks) && n <= |blocks|
  {
    if n == 0 then init else Compress(al, Hash(al, init, blocks, n - 1), blocks[n - 1])
  }

  lemma {:induction false} HashPrefix<W>(al: Algebra<W>, init: Vars<W>, a: seq<Bytes>, b: seq<Bytes>, n: nat)
    requires Sha2.AllBlocks(a) && Sha2.AllBlocks(b) && n <= |a|
    ensures Hash(al, init, a + b, n) == Hash(al, init, a, n)
  {
    if n > 0 { HashPrefix(al, init, a, b, n - 1); }
  }

  /** Blocks are taken in order: what the first ones leave is where the later ones start. */
  lemma {:induction false} HashContinues<W>(al: Algebra<W>, init: Vars<W>, a: seq<Bytes>, b: seq<Bytes>, n: nat)
    requires Sha2.AllBlocks(a) && Sha2.AllBlocks(b) && n <= |b|
    ensures Hash(al, init, a + b, |a| + n) == Hash(al, Hash(al, init, a, |a|), b, n)
  {
    if n == 0 {
      HashPrefix(al, init, a, b, |a|);
    } else {
      HashContinues(al, init, a, b, n - 1);
      assert (a + b)[|a| + n - 1] == b[n - 1];
    }
  }

  function State<W>(h: seq<W>): Vars<W>
    requires |h| == 5
  {
    Vars(h[0], h[1], h[2], h[3], h[4])
  }

  function Listed<W>(v: Vars<W>): (h: seq<W>)
    ensures |h| == 5
  {
    [v.a, v.b, v.c, v.d, v.e]
  }

  function Digest<W>(al: Algebra<W>, code: W -> Quad, init: seq<W>, data: Bytes): (d: Bytes)
    requires |init| == 5
    ensures |d| == 20
  {
    var blocks := Sha2.MessageBlocks(data);
    AllBytes(code, Listed(Hash(al, State(init), blocks, |blocks|)))
  }

  // ----- the loops -----

  ghost predicate Scheduled<W>(al: Algebra<W>, block: Bytes, w: seq<W>, n: nat)
    requires |block| == 64
  {
    n <= |w| && forall t: nat | t < n :: w[t] == Schedule(al, block, t)
  }

  method LoadBlock<W(!new)>(al: Algebra<W>, block: Bytes, w: array<W>)
    requires |block| == 64 && w.Length == STEPS
    modifies w
    ensures Scheduled(al, block, w[..], 16)
  {
    for i := 0 to 16
      invariant Scheduled(al, block, w[..], i)
    {
      w[i] := al.fromBytes(block[4 * i], block[4 * i + 1], block[4 * i + 2], block[4 * i + 3]);
    }
  }

  method ExtendSchedule<W(!new)>(al: Algebra<W>, block: Bytes, w: array<W>)
    requires |block| == 64 && w.Length == STEPS && Scheduled(al, block, w[..], 16)
    modifies w
    ensures Scheduled(al, block, w[..], STEPS)
  {
    for i := 16 to STEPS
      invariant Scheduled(al, block, w[..], i)
    {
      w[i] := al.spread(w[i - 3], w[i - 8], w[i - 14], w[i - 16]);
    }
  }

  /** Two ways of writing the logical functions of all eighty steps. */
  ghost predicate SameLogic<W(!new)>(f: (nat, W, W, W) -> W, g: (nat, W, W, W) -> W) {
    forall t: nat, x, y, z :: f(t, x, y, z) == g(t, x, y, z)
  }

  /** The eighty steps, on five variables that shift along. */
  method RunSteps<W(!new)>(
    al: Algebra<W>, f: (nat, W, W, W) -> W, block: Bytes, w: array<W>, v0: Vars<W>) returns (v: Vars<W>)
    requires |block| == 64 && w.Length == STEPS && Scheduled(al, block, w[..], STEPS) && SameLogic(f, al.f)
    ensures v == After(al, block, v0, STEPS)
  {
    var a, b, c, d, e := v0.a, v0.b, v0.c, v0.d, v0.e;
    for i := 0 to STEPS
      invariant Vars(a, b, c, d, e) == After(al, block, v0, i)
    {
      var temp := al.add(al.add(al.add(al.add(al.rotate5(a), f(i, b, c, d)), e), al.k(i)), w[i]);
      e := d;
      d := c;
      c := al.rotate30(b);
      b := a;
      a := temp;
    }
    v := Vars(a, b, c, d, e);
  }

  method AddInto<W(!new)>(al: Algebra<W>, h: array<W>, v: Vars<W>)
    requires h.Length == 5
    modifies h
    ensures State(h[..]) == AddVars(al, old(State(h[..])), v)
  {
    h[0] := al.add(h[0], v.a);
    h[1] := al.add(h[1], v.b);
    h[2] := al.add(h[2], v.c);
    h[3] := al.add(h[3], v.d);
    h[4] := al.add(h[4], v.e);
  }

  method CompressBlock<W(!new)>(al: Algebra<W>, f: (nat, W, W, W) -> W, block: Bytes, h: array<W>)
    requires |block| == 64 && h.Length == 5 && SameLogic(f, al.f)
    modifies h
    ensures State(h[..]) == Compress(al, old(State(h[..])), block)
  {
    var w := new W[STEPS](_ => al.zero);
    LoadBlock(al, block, w);
    ExtendSchedule(al, block, w);
    var v := RunSteps(al, f, block, w, State(h[..]));
    AddInto(al, h, v);
  }

  method HashBlocks<W(!new)>(al: Algebra<W>, f: (nat, W, W, W) -> W, blocks: seq<Bytes>, h: array<W>)
    requires Sha2.AllBlocks(blocks) && h.Length == 5 && SameLogic(f, al.f)
    modifies h
    ensures State(h[..]) == Hash(al, old(State(h[..])), blocks, |blocks|)
  {
    for i := 0 to |blocks|
      invariant State(h[..]) == Hash(al, old(State(h[..])), blocks, i)
    {
      CompressBlock(al, f, blocks[i], h);
    }
  }

  lemma ListedState<W>(h: seq<W>)
    requires |h| == 5
    ensures Listed(State(h)) == h
  {
  }

  method HashFrom<W(!new)>(
    al: Algebra<W>, f: (nat, W, W, W) -> W, init: seq<W>, blocks: seq<Bytes>) returns (h: seq<W>)
    requires |init| == 5 && Sha2.AllBlocks(blocks) && SameLogic(f, al.f)
    ensures h == Listed(Hash(al, State(init), blocks, |blocks|))
  {
    var a := new W[5](i requires 0 <= i < 5 => init[i]);
    assert a[..] == init;
    HashBlocks(al, f, blocks, a);
    h := a[..];
    ListedState(h);
  }

  // ----- the words of SHA-1 -----

  /** The functions of section 4.1.1. */
  function Logic(t: nat, x: word, y: word, z: word): word {
    if t < 20 then (x & y) ^ (!x & z)
    else if t < 40 then x ^ y ^ z
    else if t < 60 then (x & y) ^ (x & z) ^ (y & z)
    else x ^ y ^ z
  }

  /** The same functions as the program writes them. */
  function CodedLogic(t: nat, x: word, y: word, z: word): word {
    if t <= 19 then (x & y) | (!x & z)
    else if t <= 39 then x ^ y ^ z
    else if t <= 59 then (x & y) | (x & z) | (y & z)
    else x ^ y ^ z
  }

  lemma OrIsXor(x: word, y: word, z: word)
    ensures (x & y) | (!x & z) == (x & y) ^ (!x & z)
    ensures (x & y) | (x & z) | (y & z) == (x & y) ^ (x & z) ^ (y & z)
  {
  }

  /** The terms of the first function never overlap; those of the second overlap all three together. */
  lemma LogicSame()
    ensures SameLogic(CodedLogic, Logic)
  {
    forall t: nat, x: word, y: word, z: word
      ensures CodedLogic(t, x, y, z) == Logic(t, x, y, z)
    {
      OrIsXor(x, y, z);
    }
  }

  function Constant(t: nat): word {
    if t < 20 then 0x5a827999 else if t < 40 then 0x6ed9eba1 else if t < 60 then 0x8f1bbcdc else 0xca62c1d6
  }

  function Spread(p: word, q: word, r: word, s: word): word {
    (p ^ q ^ r ^ s).RotateLeft(1)
  }

  function Rotate5(x: word): word {
    x.RotateLeft(5)
  }

  function Rotate30(x: word): word {
    x.RotateLeft(30)
  }

  function Plus(x: word, y: word): word {
    x + y
  }

  function Words1(): Algebra<word> {
    Algebra(0, Plus, Spread, Rotate5, Rotate30, Logic, Constant, FromBytes)
  }

  const INITIAL: seq<word> := [0x67452301, 0xefcdab89, 0x98badcfe, 0x10325476, 0xc3d2e1f0]

  ghost function Of(data: Bytes): (d: Bytes)
    ensures |d| == 20
  {
    Digest(Words1(), ToBytes, INITIAL, data)
  }

  /** `sha1`. */
  method Compute(data: Bytes) returns (out: Bytes)
    ensures out == Of(data)
  {
    LogicSame();
    var blocks := MessagePadding.PaddedBlocks(data);
    var h := HashFrom(Words1(), CodedLogic, INITIAL, blocks);
    out := CopyWords(ToBytes, h);
  }
}
