/**
 * Bytes, and numbers written most significant byte first.
 */
module Bytes {
  type Byte = x: int | 0 <= x < 256

  function Min(a: int, b: int): int {
    if a < b then a else b
  }

  /** d with src stored from index at on. */
  function Overwrite(d: seq<Byte>, at: nat, src: seq<Byte>): (r: seq<Byte>)
    requires at + |src| <= |d|
    ensures |r| == |d|
  {
    seq(|d|, i requires 0 <= i < |d| => if at <= i < at + |src| then src[i - at] else d[i])
  }

  lemma OverwriteAt(d: seq<Byte>, at: nat, src: seq<Byte>, i: nat)
    requires at + |src| <= |d| && i < |d|
    ensures Overwrite(d, at, src)[i] == if at <= i < at + |src| then src[i - at] else d[i]
  {
  }

  lemma OverwriteTwice(d: seq<Byte>, at: nat, a: seq<Byte>, b: seq<Byte>)
    requires at + |a| + |b| <= |d|
    ensures Overwrite(Overwrite(d, at, a), at + |a|, b) == Overwrite(d, at, a + b)
  {
    forall i | 0 <= i < |d|
      ensures Overwrite(Overwrite(d, at, a), at + |a|, b)[i] == Overwrite(d, at, a + b)[i]
    {
      OverwriteAt(d, at, a, i);
      OverwriteAt(Overwrite(d, at, a), at + |a|, b, i);
      OverwriteAt(d, at, a + b, i);
    }
  }

  /** memcpy. */
  method Copy(dst: array<Byte>, at: nat, src: seq<Byte>)
    requires at + |src| <= dst.Length
    modifies dst
    ensures dst[..] == Overwrite(old(dst[..]), at, src)
  {
    for k := 0 to |src|
      invariant forall i :: 0 <= i < dst.Length ==> dst[i] == if at <= i < at + k then src[i - at] else old(dst[i])
    {
      dst[at + k] := src[k];
    }
  }

  /** The two low bytes of a word, high one first. */
  function Split16(x: nat): (s: seq<Byte>)
    ensures |s| == 2
  {
    [x / 256 % 256, x % 256]
  }

  function Join16(hi: Byte, lo: Byte): nat {
    hi * 256 + lo
  }

  lemma SplitJoin16(x: nat)
    requires x < 0x1_0000
    ensures Join16(Split16(x)[0], Split16(x)[1]) == x
  {
    assert x == x / 256 * 256 + x % 256;
  }

  /** Chunks of a stream, one after the other. */
  function Concat(chunks: seq<seq<Byte>>): seq<Byte> {
    if chunks == [] then [] else Concat(chunks[..|chunks| - 1]) + chunks[|chunks| - 1]
  }
}
