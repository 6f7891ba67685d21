/**
 * The XOR primitives of src/lib.rs: `single_xor` combines every byte of a
 * buffer with one key byte; `coll_xor` combines two buffers byte by byte and
 * refuses buffers of different lengths.
 */
module Xor {
  import opened Bytes

  /**
   * single_xor (src/lib.rs:67-69): the buffer mapped through `c ^ k`. The
   * result is as long as the input and byte i is s[i] XOR k.
   */
  function SingleXor(s: seq<byte>, k: byte): (r: seq<byte>)
    ensures |r| == |s|
    ensures forall i :: 0 <= i < |s| ==> r[i] == XorByte(s[i], k)
    decreases |s|
  {
    if s == [] then [] else [XorByte(s[0], k)] + SingleXor(s[1..], k)
  }

  /** Decrypting with the key that encrypted gives the input back. */
  lemma SingleXorInvolution(s: seq<byte>, k: byte)
    ensures SingleXor(SingleXor(s, k), k) == s
  {
    forall i | 0 <= i < |s| ensures SingleXor(SingleXor(s, k), k)[i] == s[i] {
      XorByteInvolution(s[i], k);
    }
  }

  /** Key 0 changes nothing; key 0xFF complements every bit. */
  lemma SingleXorDegenerateKeys(s: seq<byte>)
    ensures SingleXor(s, 0) == s
    ensures forall i :: 0 <= i < |s| ==> SingleXor(s, 0xFF)[i] as int == 0xFF - s[i] as int
  {
    forall i | 0 <= i < |s| ensures SingleXor(s, 0)[i] == s[i] {
      XorByteDegenerate(s[i]);
    }
    forall i | 0 <= i < |s| ensures SingleXor(s, 0xFF)[i] as int == 0xFF - s[i] as int {
      XorByteDegenerate(s[i]);
    }
  }

  /** The byte-by-byte XOR of two buffers of one length. */
  function PairwiseXor(s: seq<byte>, p: seq<byte>): (r: seq<byte>)
    requires |s| == |p|
    ensures |r| == |s|
    ensures forall i :: 0 <= i < |s| ==> r[i] == XorByte(s[i], p[i])
    decreases |s|
  {
    if s == [] then []
    else PairwiseXor(s[..|s| - 1], p[..|p| - 1]) + [XorByte(s[|s| - 1], p[|p| - 1])]
  }

  /**
   * coll_xor (src/lib.rs:71-82): None exactly when the lengths differ, never
   * a truncated result; otherwise the byte-by-byte XOR, built by a loop over
   * the zipped buffers.
   */
  method CollXor(s: seq<byte>, p: seq<byte>) returns (r: Option<seq<byte>>)
    ensures r.None? <==> |s| != |p|
    ensures r.Some? ==> |r.value| == |s| && forall i :: 0 <= i < |s| ==> r.value[i] == XorByte(s[i], p[i])
    ensures r.Some? ==> r.value == PairwiseXor(s, p)
  {
    if |s| != |p| {
      return None;
    }
    var res: seq<byte> := [];
    for i := 0 to |s|
      invariant |res| == i
      invariant forall j :: 0 <= j < i ==> res[j] == XorByte(s[j], p[j])
    {
      res := res + [XorByte(s[i], p[i])];
    }
    return Some(res);
  }

  /** XOR with the same pad twice gives the input back. */
  lemma PairwiseXorInvolution(s: seq<byte>, p: seq<byte>)
    requires |s| == |p|
    ensures PairwiseXor(PairwiseXor(s, p), p) == s
  {
    forall i | 0 <= i < |s| ensures PairwiseXor(PairwiseXor(s, p), p)[i] == s[i] {
      XorByteInvolution(s[i], p[i]);
    }
  }

  /** The order of the two buffers does not matter. */
  lemma PairwiseXorCommutes(s: seq<byte>, p: seq<byte>)
    requires |s| == |p|
    ensures PairwiseXor(s, p) == PairwiseXor(p, s)
  {
    forall i | 0 <= i < |s| ensures PairwiseXor(s, p)[i] == PairwiseXor(p, s)[i] {
      XorByteCommutes(s[i], p[i]);
    }
  }

  /** A buffer of n copies of k. */
  function Repeat(k: byte, n: nat): (r: seq<byte>)
    ensures |r| == n && forall i :: 0 <= i < n ==> r[i] == k
    decreases n
  {
    if n == 0 then [] else [k] + Repeat(k, n - 1)
  }

  /** single_xor with k is coll_xor with a pad of k's as long as the buffer. */
  lemma {:induction false} SingleXorIsPairwiseWithRepeat(s: seq<byte>, k: byte)
    ensures PairwiseXor(s, Repeat(k, |s|)) == SingleXor(s, k)
  {
    var pad := Repeat(k, |s|);
    forall i | 0 <= i < |s| ensures PairwiseXor(s, pad)[i] == SingleXor(s, k)[i] {
      assert pad[i] == k;
    }
  }
}
