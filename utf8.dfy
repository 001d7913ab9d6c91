/** `append_utf8`: the bytes a `\uXXXX` escape turns into, following section 3
    of RFC 3629. */
module Utf8 {
  import opened Bytes

  /** The `uint32_t` code point the function receives. */
  type uint32 = x: int | 0 <= x < 0x1_0000_0000

  /** The bytes `append_utf8` puts in its buffer for `cp`. Each `(char)` cast
      keeps the low 8 bits; below 0x200000 the OR with the marker bits is an
      addition, and above it the cast keeps four bits of `cp >> 18`. */
  function EncodeUtf8(cp: uint32): Bytes {
    if cp <= 0x7F then [cp as char]
    else if cp <= 0x7FF then [(0xC0 + cp / 64) as char, (0x80 + cp % 64) as char]
    else if cp <= 0xFFFF then
      [(0xE0 + cp / 4096) as char, (0x80 + (cp / 64) % 64) as char, (0x80 + cp % 64) as char]
    else
      [(0xF0 + (cp / 262144) % 16) as char, (0x80 + (cp / 4096) % 64) as char,
       (0x80 + (cp / 64) % 64) as char, (0x80 + cp % 64) as char]
  }

  /** A continuation byte `10xxxxxx`. */
  predicate IsContinuation(b: byte) { 0x80 <= b as int < 0xC0 }

  /** The sequence length a lead byte announces: `0xxxxxxx`, `110xxxxx`,
      `1110xxxx`, `11110xxx` (RFC 3629, section 3). */
  function LeadLength(b: byte): nat {
    if b as int < 0x80 then 1
    else if 0xC0 <= b as int < 0xE0 then 2
    else if 0xE0 <= b as int < 0xF0 then 3
    else if 0xF0 <= b as int < 0xF8 then 4
    else 0
  }

  /** The code point a well-formed sequence stands for. */
  function DecodeUtf8(b: Bytes): int
    requires 1 <= |b| <= 4
  {
    if |b| == 1 then b[0] as int
    else if |b| == 2 then (b[0] as int - 0xC0) * 64 + (b[1] as int - 0x80)
    else if |b| == 3 then (b[0] as int - 0xE0) * 4096 + (b[1] as int - 0x80) * 64 + (b[2] as int - 0x80)
    else (b[0] as int - 0xF0) * 262144 + (b[1] as int - 0x80) * 4096 + (b[2] as int - 0x80) * 64 + (b[3] as int - 0x80)
  }

  /** The bytes of a well-formed sequence of the length its lead byte announces. */
  predicate WellFormed(b: Bytes) {
    1 <= |b| <= 4 && LeadLength(b[0]) == |b| && forall k :: 1 <= k < |b| ==> IsContinuation(b[k])
  }

  lemma EncodeOne(cp: uint32)
    requires cp <= 0x7F
    ensures |EncodeUtf8(cp)| == 1 && WellFormed(EncodeUtf8(cp)) && DecodeUtf8(EncodeUtf8(cp)) == cp
  {
  }

  lemma EncodeTwo(cp: uint32)
    requires 0x7F < cp <= 0x7FF
    ensures |EncodeUtf8(cp)| == 2 && WellFormed(EncodeUtf8(cp)) && DecodeUtf8(EncodeUtf8(cp)) == cp
  {
    var b := EncodeUtf8(cp);
    assert b[0] as int == 0xC0 + cp / 64 && b[1] as int == 0x80 + cp % 64;
  }

  lemma EncodeThree(cp: uint32)
    requires 0x7FF < cp <= 0xFFFF
    ensures |EncodeUtf8(cp)| == 3 && WellFormed(EncodeUtf8(cp)) && DecodeUtf8(EncodeUtf8(cp)) == cp
  {
    var b := EncodeUtf8(cp);
    var q1, q2 := cp / 64, cp / 4096;
    DivBy4096(cp);
    assert cp == q1 * 64 + cp % 64 && q1 == q2 * 64 + q1 % 64;
    assert b[0] as int == 0xE0 + q2 && b[1] as int == 0x80 + q1 % 64 && b[2] as int == 0x80 + cp % 64;
  }

  lemma EncodeFour(cp: uint32)
    requires 0xFFFF < cp <= 0x10FFFF
    ensures |EncodeUtf8(cp)| == 4 && WellFormed(EncodeUtf8(cp)) && DecodeUtf8(EncodeUtf8(cp)) == cp
  {
    var b := EncodeUtf8(cp);
    var q1, q2, q3 := cp / 64, cp / 4096, cp / 262144;
    DivBy4096(cp);
    DivBy262144(cp);
    assert cp == q1 * 64 + cp % 64 && q1 == q2 * 64 + q1 % 64 && q2 == q3 * 64 + q2 % 64;
    assert cp == q3 * 262144 + cp % 262144;
    assert 0 <= cp % 262144 < 262144;
    assert 0 <= q3 <= 4;
    assert q3 % 16 == q3;
    assert b[0] as int == 0xF0 + q3 && b[1] as int == 0x80 + q2 % 64;
    assert b[2] as int == 0x80 + q1 % 64 && b[3] as int == 0x80 + cp % 64;
  }

  /** `cp >> 12` is `(cp >> 6) >> 6`. */
  lemma DivBy4096(x: nat)
    ensures x / 4096 == (x / 64) / 64
  {
  }

  /** `cp >> 18` is `(cp >> 12) >> 6`. */
  lemma DivBy262144(x: nat)
    ensures x / 262144 == (x / 4096) / 64
  {
  }

  /** For every Unicode code point, `append_utf8` emits 1 to 4 bytes by range,
      a lead byte announcing that length, continuation bytes after it, and a
      sequence that decodes back to the code point. */
  lemma EncodeUtf8Wellformed(cp: uint32)
    requires cp <= 0x10FFFF
    ensures var b := EncodeUtf8(cp);
      && |b| == (if cp <= 0x7F then 1 else if cp <= 0x7FF then 2 else if cp <= 0xFFFF then 3 else 4)
      && WellFormed(b) && DecodeUtf8(b) == cp
  {
    if cp <= 0x7F { EncodeOne(cp); }
    else if cp <= 0x7FF { EncodeTwo(cp); }
    else if cp <= 0xFFFF { EncodeThree(cp); }
    else { EncodeFour(cp); }
  }

  /** Only the code point 0 produces a NUL byte. */
  lemma EncodeUtf8NoNul(cp: uint32)
    requires cp != 0
    ensures NoNul(EncodeUtf8(cp))
  {
  }
}
