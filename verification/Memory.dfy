/** Byte buffers: what a piece of code leaves alone, `memcpy` and `memset`. */
module Memory {
  import opened Bits

  /** Nothing outside the given bytes has changed. */
  ghost predicate Kept(d: seq<byte>, was: seq<byte>, lo: nat, hi: nat) {
    |d| == |was| && forall q :: 0 <= q < |d| && (q < lo || hi <= q) ==> d[q] == was[q]
  }

  /** Two pieces of work inside the same bytes. */
  lemma KeptBoth(e: seq<byte>, d: seq<byte>, was: seq<byte>, l: nat, h: nat, l': nat, h': nat, lo: nat, hi: nat)
    requires Kept(e, d, l, h) && Kept(d, was, l', h') && lo <= l && lo <= l' && h <= hi && h' <= hi
    ensures Kept(e, was, lo, hi)
  {
  }

  method Copy(dst: array<byte>, p: nat, src: seq<byte>, s: nat, n: nat)
    requires p + n <= dst.Length && s + n <= |src|
    modifies dst
    ensures forall q :: 0 <= q < dst.Length ==> dst[q] == if p <= q < p + n then src[s + (q - p)] else old(dst[q])
  {
    forall k | 0 <= k < n {
      dst[p + k] := src[s + k];
    }
  }

  method Set(dst: array<byte>, p: nat, value: byte, n: nat)
    requires p + n <= dst.Length
    modifies dst
    ensures forall q :: 0 <= q < dst.Length ==> dst[q] == if p <= q < p + n then value else old(dst[q])
  {
    forall k | 0 <= k < n {
      dst[p + k] := value;
    }
  }
}
