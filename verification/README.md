# Single-byte XOR breaker, modelled in Dafny

This project models the core of `src/lib.rs` from a Rust solution to the first
Cryptopals exercises. The core has four parts:

- **Hex codec.** `decode_hex` turns ASCII hex text into bytes, two characters
  per byte. `encode_hex` renders every byte with `{:x}`.
- **XOR primitives.** `single_xor` XORs a buffer with one key byte. `coll_xor`
  XORs two buffers of one length byte by byte, and returns `None` when the
  lengths differ.
- **Byte histogram.** `calc_char_frequencies` counts how often each byte value
  occurs.
- **Key search.** `WeightedData` pairs a payload with a weight and is ordered by
  the weight alone. `break_single_xor` scores the decryption under every key from
  1 to 254 and pushes the results into a max-heap. `detect_single_xor_cipher`
  breaks every line of a batch, collects each line's best candidate in a second
  heap, and returns the decryption of the overall best.

Modules:

- `Bytes` holds the byte type and an arithmetic definition of the bitwise XOR of
  two bytes, with its algebra.
- `Hex` holds the codec.
- `Xor` holds the XOR primitives.
- `Frequency` holds the histogram.
- `Weighted` holds the ordering and the heap.
- `Breaker` holds the key search.

The English-text score is a parameter: `Scorer`, any function from buffers to
reals. Every result about the search holds whatever that function is. The
model fixes one score per buffer, so its results are about the scores computed
in a single run.

The heap is a class, `WeightedHeap`. It records the pushed entries in push order
and the index of the entry at the root. The source only pushes and peeks. Rust's
`BinaryHeap::push` moves a new entry up only past parents it is strictly greater
than. So the root changes only when an entry outweighs it, and `peek` returns the
first pushed entry of maximum weight. `FirstMax` states that choice, and it fixes
which key wins a tie: the smallest key, and within a batch the earliest line.

Where the code and its documentation differ, the model follows the code:

- A trailing odd hex digit is silently dropped, not rejected.
- Keys 0 and 255 are never tried (`1..255` in Rust excludes 255).
- `decode_hex` accepts a sign: `from_str_radix` reads `"-f"` as -15, and
  `as u8` turns that into 0xF1.

## Model

| member | source | states |
|---|---|---|
| Bytes.WrapU8 | src/lib.rs:57 | `num as u8` keeps the value when it is in 0..255, and otherwise agrees with it modulo 256 |
| Bytes.XorByte | src/lib.rs:68 | `a ^ b` on two bytes, bit by bit; it is 0 exactly when a and b are equal |
| Bytes.XorBitsZeroIff | src/lib.rs:68 | two numbers of n bits have XOR 0 exactly when they are equal |
| Bytes.XorByteInvolution | src/lib.rs:68 | XORing a byte twice with the same key gives it back |
| Bytes.XorByteCommutes | src/lib.rs:78 | the byte XOR is commutative |
| Bytes.XorByteDegenerate | src/lib.rs:68 | key 0 leaves a byte unchanged; key 0xFF complements it |
| Bytes.XorByteCollVectorFirstByte | src/lib.rs:222-228 | the first byte of the `collection_xor` vector: 0x68 ^ 0x74 == 0x1c |
| Bytes.XorByteBreakVectorFirstByte | src/lib.rs:231-236 | the first byte of the `test_break_single_cipher` vector: 0x1b under key 'X' (0x58) is 'C' (0x43) |
| Hex.HexVal | src/lib.rs:55 | a radix-16 digit (0-9, a-f, A-F) has a value in 0..15 |
| Hex.LowerDigit | src/lib.rs:63 | a value below 16 has a lowercase digit, which reads back to the value |
| Hex.ParsePair | src/lib.rs:53-55 | `from_str_radix` on one pair succeeds exactly when a digit follows a digit, '+' or '-'; the value lies between -15 and 255 |
| Hex.PairOfDigits | src/lib.rs:53-57 | two hex digits parse to a value below 256, which `as u8` keeps unchanged |
| Hex.PairsParseIff | src/lib.rs:52-55 | the input is accepted exactly when every complete pair the loop reads parses |
| Hex.DecodedAt | src/lib.rs:49-60 | the output has one byte per complete pair, and byte j is pair j's value cast to u8 |
| Hex.Decoded | src/lib.rs:49-60 | the value decode_hex returns; its length is half the input's, rounded down |
| Hex.DecodeHex | src/lib.rs:49-60 | the loop returns one wrapped byte per complete pair, in order; it panics on empty input or a pair that does not parse |
| Hex.DecodeExample | src/lib.rs:201 | "6162" decodes to "ab" |
| Hex.SignedPairs | src/lib.rs:55 | "+f" parses to 15; "-f" parses to -15, which wraps to 0xF1; "f-" is rejected |
| Hex.FormatLowerHex | src/lib.rs:63 | `{:x}` on a byte gives one lowercase digit below 0x10 and two from 0x10 up, and the digits stand for the byte's value |
| Hex.EncodeHex | src/lib.rs:62-65 | the output has one to two lowercase digits per byte, and exactly two per byte if and only if every byte is at least 0x10 |
| Hex.HexDigitsParse | src/lib.rs:52-55 | text made only of hex digits is accepted pair by pair |
| Hex.DecodeEncodeNarrow | src/lib.rs:49-65 | when some byte is below 0x10, the encoding is accepted but decodes to something other than the input, so the round trip holds exactly for the all-wide buffers |
| Hex.DecodedCons | src/lib.rs:52-58 | a parsable pair followed by more text decodes to its byte, then the rest |
| Hex.WideByteRoundTrip | src/lib.rs:55-63 | the two digits of a byte of at least 0x10 decode back to the byte |
| Hex.DecodeEncodeWide | src/lib.rs:49-65 | decode_hex undoes encode_hex when every byte is at least 0x10 |
| Hex.NarrowBytesBreakRoundTrip | src/lib.rs:62-65 | [0x05] encodes to "5", which decodes to []; [0x01, 0x23] encodes to "123", which decodes to [0x12] |
| Hex.FormatLowerHexPadded | src/lib.rs:63 | the corrected `{:02x}` gives two digits that parse back to the byte |
| Hex.EncodeHexPadded | src/lib.rs:62-65 | the corrected encoder gives exactly two lowercase digits per byte |
| Hex.PaddedAgreesOnWide | src/lib.rs:62-65 | the corrected encoder agrees with the original wherever every byte is at least 0x10 |
| Hex.DecodeEncodePadded | src/lib.rs:49-65 | decode_hex undoes the corrected encoder for every byte buffer |
| Xor.SingleXor | src/lib.rs:67-69 | the output is as long as the input, and byte i is input byte i XOR k |
| Xor.SingleXorInvolution | src/lib.rs:67-69 | single_xor with the same key twice gives the buffer back |
| Xor.SingleXorDegenerateKeys | src/lib.rs:67-69 | key 0 changes nothing; key 0xFF complements every byte |
| Xor.PairwiseXor | src/lib.rs:77-79 | the byte-by-byte XOR of two buffers of one length: same length, and byte i is s[i] XOR p[i] |
| Xor.CollXor | src/lib.rs:71-82 | `None` exactly when the lengths differ; otherwise the byte-by-byte XOR |
| Xor.PairwiseXorInvolution | src/lib.rs:71-82 | XORing twice with the same pad gives the buffer back |
| Xor.PairwiseXorCommutes | src/lib.rs:71-82 | the order of the two buffers does not matter |
| Xor.SingleXorIsPairwiseWithRepeat | src/lib.rs:67-82 | single_xor with k equals coll_xor with a pad of k's as long as the buffer |
| Frequency.CountSumEmpty | src/lib.rs:107 | the new, empty map counts nothing |
| Frequency.CountSumIncrement | src/lib.rs:109-115 | raising one byte's count by one raises the total of the counts by one |
| Frequency.HistogramStep | src/lib.rs:108-115 | one loop step turns the histogram of a prefix into the histogram of the prefix extended by the next byte |
| Frequency.CalcCharFrequencies | src/lib.rs:106-118 | exactly the input's bytes have entries; each entry is that byte's occurrence count, so it is positive; the counts add up to the input's length |
| Weighted.Cmp | src/lib.rs:90-94 | Less, Equal or Greater exactly as the first weight is below, equal to or above the second |
| Weighted.PartialCmp | src/lib.rs:95-99 | always Some, and Some(Less) or Some(Greater) exactly as the weights compare |
| Weighted.Eq | src/lib.rs:100-104 | equal exactly when `cmp` says Equal |
| Weighted.AtMost | src/lib.rs:95-99 | `a <= b` through `partial_cmp` holds exactly when a's weight is at most b's |
| Weighted.CmpIsTotalOrder | src/lib.rs:90-94 | `cmp` by weight is antisymmetric, transitive and total |
| Weighted.EqAgreesWithCmp | src/lib.rs:95-104 | `eq` holds exactly when `cmp` says Equal, and exactly when `<=` holds both ways; `<=` is the order of the weights |
| Weighted.EqIgnoresData | src/lib.rs:100-104 | two entries of one weight are equal whatever their data |
| Weighted.FirstMax | src/lib.rs:84-104 | the index of an entry that weighs at least as much as every entry, and strictly more than every earlier one |
| Weighted.FirstMaxUnique | src/lib.rs:84-104 | at most one index has both properties of the first maximum |
| Weighted.WeightedHeap.constructor | src/lib.rs:140 | `BinaryHeap::new()` is empty |
| Weighted.WeightedHeap.Push | src/lib.rs:145 | the entry is appended to the pushed entries, and the root stays the first pushed maximum |
| Weighted.WeightedHeap.Peek | src/lib.rs:155 | None exactly on an empty heap; otherwise a pushed entry that weighs at least as much as every entry, namely the first pushed maximum |
| Breaker.CandidatesUpToAt | src/lib.rs:141-146 | after n pushes, entry i is the candidate for key i + 1 |
| Breaker.CandidateAt | src/lib.rs:141-146 | entry i of all candidates is the one for key i + 1, a searched key |
| Breaker.CandidatesOnePerKey | src/lib.rs:139-148 | there are 254 candidates, one per key from 1 to 254 in increasing order, each weighing its decryption's score |
| Breaker.BreakSingleXor | src/lib.rs:139-148 | a fresh heap holding, in key order, the scored decryption under every key from 1 to 254 |
| Breaker.Best | src/lib.rs:155 | what `peek()` returns on the heap of break_single_xor: one of the candidates |
| Breaker.BestAtLeast | src/lib.rs:139-148 | the peeked candidate scores at least as much as any given searched key |
| Breaker.BestBeforeLess | src/lib.rs:139-148 | every key below the peeked key scores strictly less |
| Breaker.BestIsCandidate | src/lib.rs:139-148 | the peeked key is a searched key and weighs its decryption's score |
| Breaker.BestIsMaximal | src/lib.rs:139-148 | the peeked key scores at least as much as every key from 1 to 254, and it is the smallest key of that score |
| Breaker.LineTopsUpToAt | src/lib.rs:151-158 | after n lines, entry i is line i's best candidate, tagged with i |
| Breaker.LineTopsAt | src/lib.rs:151-158 | entry i of the second heap names line i and carries that line's best key and weight |
| Breaker.Winner | src/lib.rs:160 | the peeked winner names a line of the batch |
| Breaker.WinnerIsLineBest | src/lib.rs:150-162 | the winner is the best candidate of the line it names |
| Breaker.WinnerAtLeast | src/lib.rs:150-162 | the winner weighs at least as much as the best candidate of any given line |
| Breaker.WinnerBeforeLess | src/lib.rs:150-162 | the best candidate of each line before the winner's weighs strictly less |
| Breaker.WinnerIsGlobalMax | src/lib.rs:150-162 | the winner's line and key score at least as much as every key of every line, and no earlier line reaches its score |
| Breaker.DetectSingleXorCipher | src/lib.rs:150-163 | returns the winner's decryption and weight: the decryption of some line under some searched key, weighing its score, and scoring at least as much as every key of every line |

## Left out

- `score_buffer_as_text` (src/lib.rs:120-136) and `english_letter_freq` (src/lib.rs:15-47) are floating-point arithmetic. The score is the parameter `Scorer`, so results about the search hold for any function from buffers to reals; the next line says why the source's score is not quite one.
- The source's score is not one fixed function of the buffer. `score_buffer_as_text` adds up f64 terms in the iteration order of a fresh `HashMap` (src/lib.rs:124-134), and each `HashMap::new()` draws new hash keys. So two calls on the same buffer can round differently. The model fixes one score per buffer: Breaker.DetectSingleXorCipher's `weight == score(plain)` is about the score computed during the search, not about scoring `plain` again.
- `OrderedFloat<f64>` weights are real numbers. NaN, rounding and the total order `OrderedFloat` gives NaN are not modelled.
- The heap's array layout and sift-up are not modelled. Only what `push` and `peek` expose is modelled: the pushed entries, and which entry sits at the root.
- `read_file_as_lines` (src/lib.rs:165-173) is file I/O and is not part of this model.
- Frequency.CalcCharFrequencies: counts are unbounded. The source's `u32` count would overflow, and panic in a debug build, only after 2^32 occurrences of one byte.
- Bytes.XorByteCollVectorFirstByte: states only the first of the 18 bytes of the `collection_xor` vector. Evaluating the XOR of constants costs a long proof per byte; the pointwise contract of Xor.CollXor covers every byte in general.
- Bytes.XorByteBreakVectorFirstByte: states only the first byte of the `test_break_single_cipher` decryption; the key 'X' itself comes from the floating-point score.
- Hex.DecodeHex: the source's panics are preconditions: an empty input, where `s.len() - 1` underflows, and a pair that `from_utf8` or `from_str_radix` rejects.
- Breaker.DetectSingleXorCipher: the source's panics are preconditions: an empty batch (`peek().unwrap()`) and a line that `decode_hex` rejects.
- Five test vectors are not stated:
  - the long `hex_longer` and `hex_enc_simple` strings (src/lib.rs:202-214);
  - the 18-byte `collection_xor` vector (src/lib.rs:222-228), of which only the first byte is stated (see the Bytes.XorByteCollVectorFirstByte line above);
  - the "Cooking MC's" key of `test_break_single_cipher`, which depends on the floating-point score;
  - `test_detect_single_cipher`, which reads an external data file.
- `collection_xor_bad_input` (src/lib.rs:215-221) is covered by the length condition of Xor.CollXor, not stated as its own lemma.

## Findings

| source | as written | input that shows it | evidently intended | confidence | as-written member | corrected member |
|---|---|---|---|---|---|---|
| src/lib.rs:62-65 | each byte is formatted with `{:x}`, which drops the leading zero of bytes below 0x10 | [0x05] encodes to "5", which decode_hex turns into []; [0x01, 0x23] encodes to "123", which decodes to [0x12] | two digits per byte (`{:02x}`), so that decode_hex undoes encode_hex | high for the as-written behaviour; medium that padding was intended; not executed | Hex.NarrowBytesBreakRoundTrip | Hex.DecodeEncodePadded |
