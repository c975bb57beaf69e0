/** Thirty-two bit words and their bytes. */
module Words {
  import opened Bytes

  type word = bv32

  /** `u32::from_be_bytes`. */
  function FromBytes(b0: byte, b1: byte, b2: byte, b3: byte): word {
    ((b0 as bv32) << 24) | ((b1 as bv32) << 16) | ((b2 as bv32) << 8) | (b3 as bv32)
  }

  function LowByte(w: word): byte {
    (w & 0xff) as bv8
  }

  datatype Quad = Quad(b0: byte, b1: byte, b2: byte, b3: byte)

  /** `u32::to_be_bytes`. */
  function ToBytes(w: word): Quad {
    Quad(LowByte(w >> 24), LowByte(w >> 16), LowByte(w >> 8), LowByte(w))
  }

  function Flat(q: Quad): (s: Bytes)
    ensures |s| == 4
  {
    [q.b0, q.b1, q.b2, q.b3]
  }

  /** The bytes of a list of words, in order. */
  function AllBytes<W>(code: W -> Quad, h: seq<W>): (s: Bytes)
    ensures |s| == 4 * |h|
  {
    if h == [] then [] else AllBytes(code, h[..|h| - 1]) + Flat(code(h[|h| - 1]))
  }

  lemma AllBytesStep<W>(code: W -> Quad, h: seq<W>, n: nat)
    requires n < |h|
    ensures AllBytes(code, h[..n + 1]) == AllBytes(code, h[..n]) + Flat(code(h[n]))
  {
    assert h[..n + 1][..n] == h[..n];
  }

  /** Word `i` is written to bytes `4 * i` on. */
  lemma {:induction false} BytesAt<W>(code: W -> Quad, h: seq<W>, i: nat)
    requires i < |h|
    ensures AllBytes(code, h)[4 * i..4 * i + 4] == Flat(code(h[i]))
  {
    var n := |h| - 1;
    var front := AllBytes(code, h[..n]);
    if i < n {
      BytesAt(code, h[..n], i);
      assert AllBytes(code, h)[4 * i..4 * i + 4] == front[4 * i..4 * i + 4];
    }
  }

  method CopyWord(out: array<byte>, i: nat, q: Quad)
    requires 4 * i + 4 <= out.Length
    modifies out
    ensures out[..4 * i] == old(out[..4 * i]) && out[4 * i..4 * i + 4] == Flat(q)
  {
    out[4 * i] := q.b0;
    out[4 * i + 1] := q.b1;
    out[4 * i + 2] := q.b2;
    out[4 * i + 3] := q.b3;
  }

  /** Copy every word into its place of a fresh buffer. */
  method CopyWords<W>(code: W -> Quad, h: seq<W>) returns (out: Bytes)
    ensures out == AllBytes(code, h)
  {
    var a := new byte[4 * |h|](_ => 0);
    for i := 0 to |h|
      invariant a[..4 * i] == AllBytes(code, h[..i])
    {
      CopyWord(a, i, code(h[i]));
      AllBytesStep(code, h, i);
      assert a[..4 * (i + 1)] == a[..4 * i] + a[4 * i..4 * i + 4];
    }
    assert h[..|h|] == h && a[..4 * |h|] == a[..];
    out := a[..];
  }
}
