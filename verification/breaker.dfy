/**
 * The key search of src/lib.rs: break_single_xor tries every key of one
 * ciphertext and ranks the candidates in a max-heap; detect_single_xor_cipher
 * keeps the best candidate of each ciphertext of a batch and returns the
 * decryption of the best of all.
 */
module Breaker {
  import opened Bytes
  import opened Hex
  import opened Xor
  import opened Weighted

  /**
   * score_buffer_as_text: how much a buffer looks like English text. Its
   * floating-point body is not modelled; any function from buffers to reals
   * stands for it, and every result below holds whichever it is.
   */
  type Scorer = seq<byte> -> real

  /** `for i in 1..255`: the keys tried are 1 through 254. */
  const FIRST_KEY: byte := 1
  const LAST_KEY: byte := 254
  const KEY_COUNT: nat := 254

  predicate IsSearchedKey(k: byte) {
    FIRST_KEY <= k <= LAST_KEY
  }

  /** The candidate break_single_xor pushes for key k. */
  function Candidate(cipher: seq<byte>, score: Scorer, k: byte): WeightedData<byte> {
    WeightedData(score(SingleXor(cipher, k)), k)
  }

  /** The first n candidates break_single_xor pushes: keys 1, 2, ..., n. */
  function CandidatesUpTo(cipher: seq<byte>, score: Scorer, n: nat): (r: seq<WeightedData<byte>>)
    requires n <= KEY_COUNT
    ensures |r| == n
    decreases n
  {
    if n == 0 then [] else CandidatesUpTo(cipher, score, n - 1) + [Candidate(cipher, score, n as byte)]
  }

  /** Everything break_single_xor pushes, in push order: keys 1, 2, ..., 254. */
  function Candidates(cipher: seq<byte>, score: Scorer): seq<WeightedData<byte>> {
    CandidatesUpTo(cipher, score, KEY_COUNT)
  }

  /** Entry i of the first n candidates is the one for key i + 1. */
  lemma {:induction false} CandidatesUpToAt(cipher: seq<byte>, score: Scorer, n: nat, i: nat)
    requires i < n <= KEY_COUNT
    ensures |CandidatesUpTo(cipher, score, n)| == n
    ensures CandidatesUpTo(cipher, score, n)[i] == Candidate(cipher, score, (i + 1) as byte)
    decreases n
  {
    var prefix := CandidatesUpTo(cipher, score, n - 1);
    var last := Candidate(cipher, score, n as byte);
    assert CandidatesUpTo(cipher, score, n) == prefix + [last];
    if i < n - 1 {
      CandidatesUpToAt(cipher, score, n - 1, i);
      assert (prefix + [last])[i] == prefix[i];
    } else {
      assert i + 1 == n;
      assert (prefix + [last])[i] == last;
    }
  }

  /** Entry i of the candidates is the one for key i + 1. */
  lemma CandidateAt(cipher: seq<byte>, score: Scorer, i: nat)
    requires i < KEY_COUNT
    ensures |Candidates(cipher, score)| == KEY_COUNT
    ensures Candidates(cipher, score)[i] == Candidate(cipher, score, (i + 1) as byte)
    ensures IsSearchedKey(Candidates(cipher, score)[i].data)
    ensures Candidates(cipher, score)[i].data as int == i + 1
  {
    CandidatesUpToAt(cipher, score, KEY_COUNT, i);
  }

  /**
   * The ranked set holds 254 entries, one for each key from 1 to 254 (in
   * increasing order, so no key twice) and none for 0 or 255; each weighs
   * what its key's decryption scores.
   */
  lemma CandidatesOnePerKey(cipher: seq<byte>, score: Scorer)
    ensures |Candidates(cipher, score)| == 254
    ensures forall k :: IsSearchedKey(k) ==> Candidates(cipher, score)[k - 1].data == k
    ensures forall i :: 0 <= i < 254 ==> IsSearchedKey(Candidates(cipher, score)[i].data)
    ensures forall i, j :: 0 <= i < j < 254 ==> Candidates(cipher, score)[i].data < Candidates(cipher, score)[j].data
    ensures forall i :: 0 <= i < 254 ==>
      Candidates(cipher, score)[i].weight == score(SingleXor(cipher, Candidates(cipher, score)[i].data))
  {
    var c := Candidates(cipher, score);
    forall i | 0 <= i < 254
      ensures IsSearchedKey(c[i].data) && c[i].data as int == i + 1
      ensures c[i].weight == score(SingleXor(cipher, c[i].data))
    {
      CandidateAt(cipher, score, i);
    }
    forall k | IsSearchedKey(k) ensures c[k - 1].data == k {
      CandidateAt(cipher, score, k as int - 1);
    }
  }

  /**
   * break_single_xor (src/lib.rs:139-148): a new heap holding, for every
   * key from 1 to 254, the score of the ciphertext XORed with the key,
   * pushed in key order.
   */
  method BreakSingleXor(cipher: seq<byte>, score: Scorer) returns (b: WeightedHeap<byte>)
    ensures fresh(b) && b.Valid()
    ensures b.items == Candidates(cipher, score)
  {
    b := new WeightedHeap();
    for i := 1 to 255
      invariant fresh(b) && b.Valid()
      invariant b.items == CandidatesUpTo(cipher, score, i - 1)
    {
      var r := SingleXor(cipher, i as byte);
      var s := score(r);
      b.Push(WeightedData(s, i as byte));
    }
  }

  /** What `peek()` returns on the heap of break_single_xor. */
  function Best(cipher: seq<byte>, score: Scorer): (r: WeightedData<byte>)
    ensures r in Candidates(cipher, score)
  {
    Candidates(cipher, score)[FirstMax(Candidates(cipher, score))]
  }

  /** The peeked candidate scores at least as much as key k. */
  lemma BestAtLeast(cipher: seq<byte>, score: Scorer, k: byte)
    requires IsSearchedKey(k)
    ensures score(SingleXor(cipher, k)) <= Best(cipher, score).weight
  {
    var c := Candidates(cipher, score);
    var m := FirstMax(c);
    CandidateAt(cipher, score, k as int - 1);
    assert AtMost(c[k - 1], c[m]);
    assert c[k - 1].weight <= c[m].weight;
  }

  /** A key below the peeked candidate's scores strictly less. */
  lemma BestBeforeLess(cipher: seq<byte>, score: Scorer, k: byte)
    requires FIRST_KEY <= k < Best(cipher, score).data
    ensures score(SingleXor(cipher, k)) < Best(cipher, score).weight
  {
    var c := Candidates(cipher, score);
    var m := FirstMax(c);
    CandidateAt(cipher, score, m);
    CandidateAt(cipher, score, k as int - 1);
    assert Cmp(c[k - 1], c[m]) == Less;
  }

  /** The peeked candidate is a searched key and weighs what its decryption scores. */
  lemma BestIsCandidate(cipher: seq<byte>, score: Scorer)
    ensures IsSearchedKey(Best(cipher, score).data)
    ensures Best(cipher, score).weight == score(SingleXor(cipher, Best(cipher, score).data))
  {
    var c := Candidates(cipher, score);
    var m := FirstMax(c);
    CandidateAt(cipher, score, m);
    assert Best(cipher, score) == Candidate(cipher, score, (m + 1) as byte);
  }

  /**
   * The peeked candidate is a searched key, weighs what its decryption
   * scores, and scores at least as much as every key from 1 to 254; among
   * keys of equal score it is the smallest.
   */
  lemma BestIsMaximal(cipher: seq<byte>, score: Scorer)
    ensures IsSearchedKey(Best(cipher, score).data)
    ensures Best(cipher, score).weight == score(SingleXor(cipher, Best(cipher, score).data))
    ensures forall k :: IsSearchedKey(k) ==> score(SingleXor(cipher, k)) <= Best(cipher, score).weight
    ensures forall k :: FIRST_KEY <= k < Best(cipher, score).data ==>
      score(SingleXor(cipher, k)) < Best(cipher, score).weight
  {
    BestIsCandidate(cipher, score);
    forall k | IsSearchedKey(k) ensures score(SingleXor(cipher, k)) <= Best(cipher, score).weight {
      BestAtLeast(cipher, score, k);
    }
    forall k | FIRST_KEY <= k < Best(cipher, score).data
      ensures score(SingleXor(cipher, k)) < Best(cipher, score).weight
    {
      BestBeforeLess(cipher, score, k);
    }
  }

  /** Every line of the batch is hex that decode_hex accepts without panicking. */
  predicate AllDecodable(ciphers: seq<seq<byte>>) {
    forall i :: 0 <= i < |ciphers| ==> |ciphers[i]| >= 1 && PairsParse(ciphers[i])
  }

  /** The entry detect_single_xor_cipher pushes for line i: its best candidate, tagged with i. */
  function LineTop(ciphers: seq<seq<byte>>, score: Scorer, i: nat): WeightedData<(nat, byte)>
    requires i < |ciphers| && |ciphers[i]| >= 1 && PairsParse(ciphers[i])
  {
    var t := Best(Decoded(ciphers[i]), score);
    WeightedData(t.weight, (i, t.data))
  }

  /** The entries detect_single_xor_cipher pushes for the first n lines, in line order. */
  function LineTopsUpTo(ciphers: seq<seq<byte>>, score: Scorer, n: nat): (r: seq<WeightedData<(nat, byte)>>)
    requires n <= |ciphers| && AllDecodable(ciphers)
    ensures |r| == n
    decreases n
  {
    if n == 0 then [] else LineTopsUpTo(ciphers, score, n - 1) + [LineTop(ciphers, score, n - 1)]
  }

  /** Everything detect_single_xor_cipher pushes, one entry per line, in line order. */
  function LineTops(ciphers: seq<seq<byte>>, score: Scorer): seq<WeightedData<(nat, byte)>>
    requires AllDecodable(ciphers)
  {
    LineTopsUpTo(ciphers, score, |ciphers|)
  }

  /** Entry i of the first n line tops is the best candidate of line i. */
  lemma {:induction false} LineTopsUpToAt(ciphers: seq<seq<byte>>, score: Scorer, n: nat, i: nat)
    requires AllDecodable(ciphers) && i < n <= |ciphers|
    ensures LineTopsUpTo(ciphers, score, n)[i] == LineTop(ciphers, score, i)
    decreases n
  {
    var prefix := LineTopsUpTo(ciphers, score, n - 1);
    var last := LineTop(ciphers, score, n - 1);
    assert LineTopsUpTo(ciphers, score, n) == prefix + [last];
    if i < n - 1 {
      LineTopsUpToAt(ciphers, score, n - 1, i);
      assert (prefix + [last])[i] == prefix[i];
    } else {
      assert (prefix + [last])[i] == last;
    }
  }

  /** What `peek()` returns on the heap of detect_single_xor_cipher. */
  function Winner(ciphers: seq<seq<byte>>, score: Scorer): (w: WeightedData<(nat, byte)>)
    requires |ciphers| > 0 && AllDecodable(ciphers)
    ensures w.data.0 < |ciphers|
  {
    var tops := LineTops(ciphers, score);
    var m := FirstMax(tops);
    LineTopsAt(ciphers, score, m);
    tops[m]
  }

  /** Entry i of the line tops is the best candidate of line i. */
  lemma LineTopsAt(ciphers: seq<seq<byte>>, score: Scorer, i: nat)
    requires AllDecodable(ciphers) && i < |ciphers|
    ensures |LineTops(ciphers, score)| == |ciphers|
    ensures LineTops(ciphers, score)[i].data.0 == i
    ensures LineTops(ciphers, score)[i].data.1 == Best(Decoded(ciphers[i]), score).data
    ensures LineTops(ciphers, score)[i].weight == Best(Decoded(ciphers[i]), score).weight
  {
    LineTopsUpToAt(ciphers, score, |ciphers|, i);
  }

  /** The winner is the best candidate of the line it names. */
  lemma WinnerIsLineBest(ciphers: seq<seq<byte>>, score: Scorer)
    requires |ciphers| > 0 && AllDecodable(ciphers)
    ensures Winner(ciphers, score).data.0 < |ciphers|
    ensures Winner(ciphers, score).data.1 == Best(Decoded(ciphers[Winner(ciphers, score).data.0]), score).data
    ensures Winner(ciphers, score).weight == Best(Decoded(ciphers[Winner(ciphers, score).data.0]), score).weight
  {
    var tops := LineTops(ciphers, score);
    var m := FirstMax(tops);
    LineTopsAt(ciphers, score, m);
    assert Winner(ciphers, score) == tops[m];
  }

  /** The winner weighs at least as much as the best candidate of line j. */
  lemma WinnerAtLeast(ciphers: seq<seq<byte>>, score: Scorer, j: nat)
    requires |ciphers| > 0 && AllDecodable(ciphers) && j < |ciphers|
    ensures Best(Decoded(ciphers[j]), score).weight <= Winner(ciphers, score).weight
  {
    var tops := LineTops(ciphers, score);
    LineTopsAt(ciphers, score, j);
    assert AtMost(tops[j], tops[FirstMax(tops)]);
  }

  /** The best candidate of a line before the winner's weighs strictly less. */
  lemma WinnerBeforeLess(ciphers: seq<seq<byte>>, score: Scorer, j: nat)
    requires |ciphers| > 0 && AllDecodable(ciphers) && j < Winner(ciphers, score).data.0
    ensures Best(Decoded(ciphers[j]), score).weight < Winner(ciphers, score).weight
  {
    var tops := LineTops(ciphers, score);
    var m := FirstMax(tops);
    LineTopsAt(ciphers, score, m);
    LineTopsAt(ciphers, score, j);
    assert Cmp(tops[j], tops[m]) == Less;
  }

  /**
   * The winner names a line of the batch and a searched key, weighs what
   * that decryption scores, and scores at least as much as every key of
   * every line; every earlier line's best scores strictly less.
   */
  lemma WinnerIsGlobalMax(ciphers: seq<seq<byte>>, score: Scorer)
    requires |ciphers| > 0 && AllDecodable(ciphers)
    ensures Winner(ciphers, score).data.0 < |ciphers|
    ensures IsSearchedKey(Winner(ciphers, score).data.1)
    ensures Winner(ciphers, score).weight ==
      score(SingleXor(Decoded(ciphers[Winner(ciphers, score).data.0]), Winner(ciphers, score).data.1))
    ensures forall j, k :: 0 <= j < |ciphers| && IsSearchedKey(k) ==>
      score(SingleXor(Decoded(ciphers[j]), k)) <= Winner(ciphers, score).weight
    ensures forall j :: 0 <= j < Winner(ciphers, score).data.0 ==>
      Best(Decoded(ciphers[j]), score).weight < Winner(ciphers, score).weight
  {
    var w := Winner(ciphers, score);
    WinnerIsLineBest(ciphers, score);
    BestIsCandidate(Decoded(ciphers[w.data.0]), score);
    forall j, k | 0 <= j < |ciphers| && IsSearchedKey(k)
      ensures score(SingleXor(Decoded(ciphers[j]), k)) <= w.weight
    {
      BestAtLeast(Decoded(ciphers[j]), score, k);
      WinnerAtLeast(ciphers, score, j);
    }
    forall j | 0 <= j < w.data.0 ensures Best(Decoded(ciphers[j]), score).weight < w.weight {
      WinnerBeforeLess(ciphers, score, j);
    }
  }

  /**
   * detect_single_xor_cipher (src/lib.rs:150-163). Each line is decoded and
   * broken; the best candidate of each, tagged with its line number, goes
   * into a second heap; the peeked winner's line is decoded again and
   * XORed with its key. An empty batch panics at `peek().unwrap()`, and a
   * line decode_hex rejects panics too: both are preconditions.
   */
  method DetectSingleXorCipher(ciphers: seq<seq<byte>>, score: Scorer) returns (plain: seq<byte>, weight: real)
    requires |ciphers| > 0 && AllDecodable(ciphers)
    ensures plain == SingleXor(Decoded(ciphers[Winner(ciphers, score).data.0]), Winner(ciphers, score).data.1)
    ensures weight == Winner(ciphers, score).weight
    ensures exists j, k :: 0 <= j < |ciphers| && IsSearchedKey(k) && plain == SingleXor(Decoded(ciphers[j]), k)
    ensures weight == score(plain)
    ensures forall j, k :: 0 <= j < |ciphers| && IsSearchedKey(k) ==> score(SingleXor(Decoded(ciphers[j]), k)) <= weight
  {
    var b := new WeightedHeap<(nat, byte)>();
    for i := 0 to |ciphers|
      invariant fresh(b) && b.Valid()
      invariant b.items == LineTopsUpTo(ciphers, score, i)
    {
      var decoded := DecodeHex(ciphers[i]);
      var heap := BreakSingleXor(decoded, score);
      var peeked := heap.Peek();
      var top := peeked.value;
      b.Push(WeightedData(top.weight, (i, top.data)));
    }
    var winner := b.Peek();
    var best := winner.value;
    WinnerIsGlobalMax(ciphers, score);
    var decoded := DecodeHex(ciphers[best.data.0]);
    plain := SingleXor(decoded, best.data.1);
    weight := best.weight;
  }
}
