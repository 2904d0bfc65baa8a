/** Bytes, and the two C memory primitives the collector uses on its block buffer. */
module ByteStream {

  type byte = x: int | 0 <= x < 256

  function Zeros(n: nat): (z: seq<byte>)
    ensures |z| == n && forall i :: 0 <= i < n ==> z[i] == 0
  {
    if n == 0 then [] else Zeros(n - 1) + [0]
  }

  /** A padded ending, cut after the first m zeros. */
  lemma {:induction false} CutZeros(s: seq<byte>, t: seq<byte>, m: nat, n: nat, f: seq<byte>)
    ensures s + (t + Zeros(m + n) + f) == (s + t + Zeros(m)) + (Zeros(n) + f)
  {}

  /** memcpy(dst + at, src, |src|); the source never overlaps the destination. */
  method MemCpy(dst: array<byte>, at: nat, src: seq<byte>)
    requires at + |src| <= dst.Length
    modifies dst
    ensures dst[..at + |src|] == old(dst[..at]) + src
    ensures dst[at + |src|..] == old(dst[at + |src|..])
  {
    forall i | 0 <= i < |src| {
      dst[at + i] := src[i];
    }
  }

  /** memset(dst + at, 0, count) */
  method MemZero(dst: array<byte>, at: nat, count: nat)
    requires at + count <= dst.Length
    modifies dst
    ensures dst[..at + count] == old(dst[..at]) + Zeros(count)
    ensures dst[at + count..] == old(dst[at + count..])
  {
    forall i | 0 <= i < count {
      dst[at + i] := 0;
    }
  }
}
