/**
 * The hexadecimal codec of src/lib.rs: `decode_hex` turns ASCII hex text into
 * bytes, two characters per byte; `encode_hex` renders every byte with
 * `format!("{:x}")` and joins the pieces.
 */
module Hex {
  import opened Bytes

  // ASCII codes of the characters the codec reads and writes.
  const DIGIT_0: byte := 0x30
  const DIGIT_9: byte := 0x39
  const UPPER_A: byte := 0x41
  const UPPER_F: byte := 0x46
  const LOWER_A: byte := 0x61
  const LOWER_F: byte := 0x66
  const PLUS: byte := 0x2B
  const MINUS: byte := 0x2D

  /** A digit of radix 16 as `from_str_radix` accepts it: 0-9, a-f or A-F. */
  predicate IsHexDigit(c: byte) {
    DIGIT_0 <= c <= DIGIT_9 || LOWER_A <= c <= LOWER_F || UPPER_A <= c <= UPPER_F
  }

  /** A digit as `{:x}` writes it: 0-9 or a-f. */
  predicate IsLowerHexDigit(c: byte) {
    DIGIT_0 <= c <= DIGIT_9 || LOWER_A <= c <= LOWER_F
  }

  /** The value of one hex digit. */
  function HexVal(c: byte): (v: int)
    requires IsHexDigit(c)
    ensures 0 <= v < 16
  {
    if c <= DIGIT_9 then (c - DIGIT_0) as int
    else if c >= LOWER_A then (c - LOWER_A) as int + 10
    else (c - UPPER_A) as int + 10
  }

  /** The lowercase digit of a value below 16; HexVal reads it back. */
  function LowerDigit(v: int): (c: byte)
    requires 0 <= v < 16
    ensures IsLowerHexDigit(c) && IsHexDigit(c) && HexVal(c) == v
  {
    if v < 10 then DIGIT_0 + v as byte else LOWER_A + (v - 10) as byte
  }

  // ---------------------------------------------------------------- decode_hex

  /**
   * `i64::from_str_radix` in radix 16 on the two bytes of one loop step of
   * decode_hex. The parser accepts an optional sign before the digits, so
   * "+7" gives 7 and "-7" gives -7. None is the error that `unwrap` turns
   * into a panic: a byte that is neither a sign nor a digit where one is
   * needed, or a lone sign.
   */
  function ParsePair(hi: byte, lo: byte): (r: Option<int>)
    ensures r.Some? <==> IsHexDigit(lo) && (hi == PLUS || hi == MINUS || IsHexDigit(hi))
    ensures r.Some? ==> -16 < r.value < 256
  {
    if hi == PLUS && IsHexDigit(lo) then Some(HexVal(lo))
    else if hi == MINUS && IsHexDigit(lo) then Some(-HexVal(lo))
    else if IsHexDigit(hi) && IsHexDigit(lo) then Some(16 * HexVal(hi) + HexVal(lo))
    else None
  }

  /**
   * Two hex digits parse to sixteen times the first plus the second, a value
   * below 256 that `as u8` keeps unchanged.
   */
  lemma PairOfDigits(hi: byte, lo: byte)
    requires IsHexDigit(hi) && IsHexDigit(lo)
    ensures ParsePair(hi, lo) == Some(16 * HexVal(hi) + HexVal(lo))
    ensures 0 <= 16 * HexVal(hi) + HexVal(lo) < 256
    ensures WrapU8(16 * HexVal(hi) + HexVal(lo)) as int == 16 * HexVal(hi) + HexVal(lo)
  {
  }

  /** The j-th pair of s, as the loop of decode_hex reads it at i == 2 * j. */
  function PairAt(s: seq<byte>, j: nat): Option<int>
    requires 2 * j + 1 < |s|
  {
    ParsePair(s[2 * j], s[2 * j + 1])
  }

  /** Every complete pair of s parses (a trailing odd byte is never read). */
  predicate PairsParse(s: seq<byte>)
    decreases |s|
  {
    |s| < 2 || (ParsePair(s[0], s[1]).Some? && PairsParse(s[2..]))
  }

  /** PairsParse says exactly that every pair the loop reads parses. */
  lemma {:induction false} PairsParseIff(s: seq<byte>)
    ensures PairsParse(s) <==> forall j :: 0 <= j < |s| / 2 ==> PairAt(s, j).Some?
    decreases |s|
  {
    if |s| >= 2 {
      PairsParseIff(s[2..]);
      if PairsParse(s) {
        forall j | 0 <= j < |s| / 2 ensures PairAt(s, j).Some? {
          if j > 0 { assert PairAt(s, j) == PairAt(s[2..], j - 1); }
        }
      }
      if forall j :: 0 <= j < |s| / 2 ==> PairAt(s, j).Some? {
        assert PairAt(s, 0).Some?;
        forall j | 0 <= j < |s[2..]| / 2 ensures PairAt(s[2..], j).Some? {
          assert PairAt(s[2..], j) == PairAt(s, j + 1);
        }
      }
    }
  }

  /**
   * What decode_hex returns: one byte per complete pair, in order, each the
   * parsed value cast `as u8`; a trailing odd digit is dropped.
   */
  function Decoded(s: seq<byte>): (r: seq<byte>)
    requires PairsParse(s)
    ensures |r| == |s| / 2
    decreases |s|
  {
    if |s| < 2 then [] else [WrapU8(ParsePair(s[0], s[1]).value)] + Decoded(s[2..])
  }

  /** The output has one byte per pair, and byte j is the value of pair j. */
  lemma {:induction false} DecodedAt(s: seq<byte>, j: nat)
    requires PairsParse(s)
    requires j < |s| / 2
    ensures |Decoded(s)| == |s| / 2
    ensures PairAt(s, j).Some? && Decoded(s)[j] == WrapU8(PairAt(s, j).value)
    decreases |s|
  {
    if j > 0 {
      DecodedAt(s[2..], j - 1);
      assert PairAt(s[2..], j - 1) == PairAt(s, j);
    }
  }

  /**
   * decode_hex (src/lib.rs:49-60). The source panics on an empty input
   * (`s.len() - 1` underflows) and on a pair that does not parse; those are
   * the preconditions. The loop reads pairs at i = 0, 2, 4, ... while
   * i < |s| - 1.
   */
  method DecodeHex(s: seq<byte>) returns (res: seq<byte>)
    requires |s| >= 1 && PairsParse(s)
    ensures |res| == |s| / 2
    ensures forall j :: 0 <= j < |s| / 2 ==> PairAt(s, j).Some? && res[j] == WrapU8(PairAt(s, j).value)
    ensures res == Decoded(s)
  {
    res := [];
    var i := 0;
    while i < |s| - 1
      invariant 0 <= i <= |s| && i % 2 == 0
      invariant PairsParse(s[i..])
      invariant res + Decoded(s[i..]) == Decoded(s)
    {
      assert s[i..][2..] == s[i + 2..];
      var num := ParsePair(s[i], s[i + 1]).value;
      i := i + 2;
      res := res + [WrapU8(num)];
    }
    assert |s[i..]| < 2;
    forall j | 0 <= j < |s| / 2 ensures PairAt(s, j).Some? && res[j] == WrapU8(PairAt(s, j).value) {
      DecodedAt(s, j);
    }
  }

  /** The test vector of src/lib.rs:201: "6162" decodes to "ab". */
  lemma DecodeExample()
    ensures PairsParse([0x36, 0x31, 0x36, 0x32])
    ensures Decoded([0x36, 0x31, 0x36, 0x32]) == [0x61, 0x62]
  {
    var s: seq<byte> := [0x36, 0x31, 0x36, 0x32];
    assert s[2..] == [0x36, 0x32];
    assert s[2..][2..] == [];
  }

  /**
   * A sign followed by a digit parses too: "+f" is 15 and "-f" is -15, which
   * `as u8` wraps to 0xF1; "f-" does not parse.
   */
  lemma SignedPairs()
    ensures ParsePair(PLUS, 0x66) == Some(15) && WrapU8(15) == 0x0F
    ensures ParsePair(MINUS, 0x66) == Some(-15) && WrapU8(-15) == 0xF1
    ensures ParsePair(0x66, MINUS) == None
  {
  }

  // ---------------------------------------------------------------- encode_hex

  /**
   * `format!("{:x}", b)` for a u8: lowercase digits without leading zeros, so
   * one digit below 0x10 and two from there on.
   */
  function FormatLowerHex(b: byte): (r: seq<byte>)
    ensures |r| == (if b < 0x10 then 1 else 2)
    ensures forall i :: 0 <= i < |r| ==> IsLowerHexDigit(r[i]) && IsHexDigit(r[i])
    ensures b < 0x10 ==> HexVal(r[0]) == b as int
    ensures b >= 0x10 ==> 16 * HexVal(r[0]) + HexVal(r[1]) == b as int
  {
    if b < 0x10 then [LowerDigit(b as int)] else [LowerDigit(b as int / 16), LowerDigit(b as int % 16)]
  }

  /** Every byte of s is at least 0x10, so `{:x}` gives it two digits. */
  predicate AllWide(s: seq<byte>) {
    forall i :: 0 <= i < |s| ==> s[i] >= 0x10
  }

  /**
   * encode_hex as written (src/lib.rs:62-65): the `{:x}` renderings of the
   * bytes, joined. The output is between one and two characters per byte,
   * exactly two when every byte is at least 0x10, and only lowercase digits.
   */
  function EncodeHex(s: seq<byte>): (r: seq<byte>)
    ensures |s| <= |r| <= 2 * |s|
    ensures |r| == 2 * |s| <==> AllWide(s)
    ensures forall i :: 0 <= i < |r| ==> IsLowerHexDigit(r[i])
    decreases |s|
  {
    if s == [] then []
    else
      assert AllWide(s) <==> s[0] >= 0x10 && AllWide(s[1..]) by {
        if s[0] >= 0x10 && AllWide(s[1..]) {
          forall i | 0 <= i < |s| ensures s[i] >= 0x10 {
            if i > 0 { assert s[i] == s[1..][i - 1]; }
          }
        }
      }
      FormatLowerHex(s[0]) + EncodeHex(s[1..])
  }

  /** Text made only of hex digits parses pair by pair. */
  lemma {:induction false} HexDigitsParse(t: seq<byte>)
    requires forall i :: 0 <= i < |t| ==> IsHexDigit(t[i])
    ensures PairsParse(t)
    decreases |t|
  {
    if |t| >= 2 {
      assert IsHexDigit(t[0]) && IsHexDigit(t[1]);
      HexDigitsParse(t[2..]);
    }
  }

  /**
   * When some byte is below 0x10, decode_hex does not undo encode_hex: the
   * encoding still parses, but it is shorter than two digits per byte, so it
   * decodes to fewer bytes than were encoded.
   */
  lemma DecodeEncodeNarrow(s: seq<byte>)
    requires !AllWide(s)
    ensures PairsParse(EncodeHex(s)) && Decoded(EncodeHex(s)) != s
  {
    var e := EncodeHex(s);
    HexDigitsParse(e);
  }

  /** Two digits followed by the rest decode to their pair, then the rest. */
  lemma {:induction false} DecodedCons(hi: byte, lo: byte, rest: seq<byte>)
    requires ParsePair(hi, lo).Some? && PairsParse(rest)
    ensures PairsParse([hi, lo] + rest)
    ensures Decoded([hi, lo] + rest) == [WrapU8(ParsePair(hi, lo).value)] + Decoded(rest)
  {
    assert ([hi, lo] + rest)[2..] == rest;
  }

  /** A wide byte's two digits decode back to the byte. */
  lemma WideByteRoundTrip(b: byte)
    requires b >= 0x10
    ensures ParsePair(LowerDigit(b as int / 16), LowerDigit(b as int % 16)).Some?
    ensures WrapU8(ParsePair(LowerDigit(b as int / 16), LowerDigit(b as int % 16)).value) == b
  {
    PairOfDigits(LowerDigit(b as int / 16), LowerDigit(b as int % 16));
  }

  /** When every byte is at least 0x10, decode_hex undoes encode_hex. */
  lemma {:induction false} DecodeEncodeWide(s: seq<byte>)
    requires AllWide(s)
    ensures PairsParse(EncodeHex(s)) && Decoded(EncodeHex(s)) == s
    decreases |s|
  {
    if s != [] {
      assert AllWide(s[1..]) by {
        forall i | 0 <= i < |s[1..]| ensures s[1..][i] >= 0x10 { assert s[1..][i] == s[i + 1]; }
      }
      DecodeEncodeWide(s[1..]);
      WideByteRoundTrip(s[0]);
      DecodedCons(LowerDigit(s[0] as int / 16), LowerDigit(s[0] as int % 16), EncodeHex(s[1..]));
      assert [s[0]] + s[1..] == s;
    }
  }

  /**
   * The as-written encoder loses bytes below 0x10: [0x05] encodes to "5",
   * which decodes to nothing, and [0x01, 0x23] encodes to "123", which
   * decodes to [0x12].
   */
  lemma NarrowBytesBreakRoundTrip()
    ensures EncodeHex([0x05]) == [0x35]
    ensures PairsParse(EncodeHex([0x05])) && Decoded(EncodeHex([0x05])) == []
    ensures EncodeHex([0x01, 0x23]) == [0x31, 0x32, 0x33]
    ensures PairsParse(EncodeHex([0x01, 0x23])) && Decoded(EncodeHex([0x01, 0x23])) == [0x12]
  {
    var t: seq<byte> := [0x01, 0x23];
    assert t[1..] == [0x23];
    assert EncodeHex(t) == [0x31] + [0x32, 0x33];
    var e: seq<byte> := [0x31, 0x32, 0x33];
    assert e[2..] == [0x33];
  }

  /** `format!("{:02x}", b)`: always two lowercase digits. */
  function FormatLowerHexPadded(b: byte): (r: seq<byte>)
    ensures |r| == 2
    ensures ParsePair(r[0], r[1]).Some? && WrapU8(ParsePair(r[0], r[1]).value) == b
  {
    PairOfDigits(LowerDigit(b as int / 16), LowerDigit(b as int % 16));
    [LowerDigit(b as int / 16), LowerDigit(b as int % 16)]
  }

  /** The corrected encoder: two zero-padded lowercase digits per byte. */
  function EncodeHexPadded(s: seq<byte>): (r: seq<byte>)
    ensures |r| == 2 * |s|
    ensures forall i :: 0 <= i < |r| ==> IsLowerHexDigit(r[i])
    decreases |s|
  {
    if s == [] then [] else FormatLowerHexPadded(s[0]) + EncodeHexPadded(s[1..])
  }

  /** The padded encoder agrees with the as-written one wherever that one is two digits wide. */
  lemma {:induction false} PaddedAgreesOnWide(s: seq<byte>)
    requires AllWide(s)
    ensures EncodeHexPadded(s) == EncodeHex(s)
    decreases |s|
  {
    if s != [] {
      assert AllWide(s[1..]) by {
        forall i | 0 <= i < |s[1..]| ensures s[1..][i] >= 0x10 { assert s[1..][i] == s[i + 1]; }
      }
      PaddedAgreesOnWide(s[1..]);
    }
  }

  /** With padding, decode_hex undoes the encoder for every byte buffer. */
  lemma {:induction false} DecodeEncodePadded(s: seq<byte>)
    ensures PairsParse(EncodeHexPadded(s)) && Decoded(EncodeHexPadded(s)) == s
    decreases |s|
  {
    if s != [] {
      DecodeEncodePadded(s[1..]);
      var d := FormatLowerHexPadded(s[0]);
      assert d == [d[0], d[1]];
      DecodedCons(d[0], d[1], EncodeHexPadded(s[1..]));
      assert [s[0]] + s[1..] == s;
    }
  }
}
