/** The byte histogram of src/lib.rs, `calc_char_frequencies`. */
module Frequency {
  import opened Bytes

  /** The count a histogram holds for b; 0 when b has no entry. */
  function CountOf(m: map<byte, nat>, b: byte): nat {
    if b in m then m[b] else 0
  }

  /** The counts of the byte values 0 .. n - 1, added up. */
  function CountSum(m: map<byte, nat>, n: nat): nat
    requires n <= 256
    decreases n
  {
    if n == 0 then 0 else CountSum(m, n - 1) + CountOf(m, (n - 1) as byte)
  }

  /** A histogram without entries counts nothing. */
  lemma {:induction false} CountSumEmpty(n: nat)
    requires n <= 256
    ensures CountSum(map[], n) == 0
    decreases n
  {
    if n > 0 {
      CountSumEmpty(n - 1);
    }
  }

  /**
   * Adding one to the count of x adds one to the sum of the counts of the
   * byte values below n exactly when x is one of them.
   */
  lemma {:induction false} CountSumIncrement(m: map<byte, nat>, x: byte, n: nat)
    requires n <= 256
    ensures CountSum(m[x := CountOf(m, x) + 1], n) == CountSum(m, n) + (if (x as int) < n then 1 else 0)
    decreases n
  {
    if n > 0 {
      CountSumIncrement(m, x, n - 1);
      var b := (n - 1) as byte;
      assert CountOf(m[x := CountOf(m, x) + 1], b) == CountOf(m, b) + (if b == x then 1 else 0);
    }
  }

  /**
   * m is the histogram of t: exactly the bytes of t have entries, and each
   * entry is the number of times its byte occurs in t.
   */
  ghost predicate IsHistogramOf(m: map<byte, nat>, t: seq<byte>) {
    && (forall b :: b in m <==> b in t)
    && (forall b :: b in m ==> m[b] == multiset(t)[b])
  }

  /** Raising the entry of x by one turns the histogram of t into that of t + [x]. */
  lemma HistogramStep(m: map<byte, nat>, t: seq<byte>, x: byte)
    requires IsHistogramOf(m, t)
    ensures IsHistogramOf(m[x := CountOf(m, x) + 1], t + [x])
  {
    var m' := m[x := CountOf(m, x) + 1];
    forall b | b in m' ensures m'[b] == multiset(t + [x])[b] {
      if b == x {
        if x !in t { assert multiset(t)[x] == 0; }
      }
    }
  }

  /**
   * calc_char_frequencies (src/lib.rs:106-118): one pass over the input,
   * raising the entry of each byte by one (a missing entry counts as 0).
   * Afterwards exactly the bytes of the input have entries, each entry is the
   * number of times its byte occurs (so it is positive), and the entries of
   * all 256 byte values add up to the input's length.
   */
  method CalcCharFrequencies(s: seq<byte>) returns (m: map<byte, nat>)
    ensures forall b :: b in m <==> b in s
    ensures forall b :: b in m ==> m[b] == multiset(s)[b] && m[b] > 0
    ensures CountSum(m, 256) == |s|
  {
    m := map[];
    CountSumEmpty(256);
    for i := 0 to |s|
      invariant IsHistogramOf(m, s[..i])
      invariant CountSum(m, 256) == i
    {
      var x := s[i];
      var v := 0;
      if x in m {
        v := m[x];
      }
      CountSumIncrement(m, x, 256);
      HistogramStep(m, s[..i], x);
      m := m[x := v + 1];
      assert s[..i + 1] == s[..i] + [x];
    }
    assert s[..|s|] == s;
  }
}
