/** SHA-256 as FIPS 180-4 defines it: constants, padding, schedule, compression and digest. */
module Sha256Spec {
  import opened Common
  import opened Words

  /** Eight words: the working variables, or a hash value. */
  datatype Digest = Digest(a: word, b: word, c: word, d: word, e: word, f: word, g: word, h: word)

  /** The round constants (section 4.2.2). */
  function RoundConstant(i: nat): word
    requires i < 64
  {
    var row: seq<word> :=
      match i / 8
      case 0 => [0x428a2f98, 0x71374491, 0xb5c0fbcf, 0xe9b5dba5, 0x3956c25b, 0x59f111f1, 0x923f82a4, 0xab1c5ed5]
      case 1 => [0xd807aa98, 0x12835b01, 0x243185be, 0x550c7dc3, 0x72be5d74, 0x80deb1fe, 0x9bdc06a7, 0xc19bf174]
      case 2 => [0xe49b69c1, 0xefbe4786, 0x0fc19dc6, 0x240ca1cc, 0x2de92c6f, 0x4a7484aa, 0x5cb0a9dc, 0x76f988da]
      case 3 => [0x983e5152, 0xa831c66d, 0xb00327c8, 0xbf597fc7, 0xc6e00bf3, 0xd5a79147, 0x06ca6351, 0x14292967]
      case 4 => [0x27b70a85, 0x2e1b2138, 0x4d2c6dfc, 0x53380d13, 0x650a7354, 0x766a0abb, 0x81c2c92e, 0x92722c85]
      case 5 => [0xa2bfe8a1, 0xa81a664b, 0xc24b8b70, 0xc76c51a3, 0xd192e819, 0xd6990624, 0xf40e3585, 0x106aa070]
      case 6 => [0x19a4c116, 0x1e376c08, 0x2748774c, 0x34b0bcb5, 0x391c0cb3, 0x4ed8aa4a, 0x5b9cca4f, 0x682e6ff3]
      case _ => [0x748f82ee, 0x78a5636f, 0x84c87814, 0x8cc70208, 0x90befffa, 0xa4506ceb, 0xbef9a3f7, 0xc67178f2];
    row[i % 8]
  }

  /** The initial hash value (section 5.3.3). */
  function H0(): Digest {
    Digest(0x6a09e667, 0xbb67ae85, 0x3c6ef372, 0xa54ff53a, 0x510e527f, 0x9b05688c, 0x1f83d9ab, 0x5be0cd19)
  }

  // ----- Section 4.1.2 -----

  function Ch(x: word, y: word, z: word): word { Xor(And(x, y), And(Not(x), z)) }
  function Maj(x: word, y: word, z: word): word { Xor(Xor(And(x, y), And(x, z)), And(y, z)) }
  function BigSigma0(x: word): word { Xor(Xor(Rotr(x, 2), Rotr(x, 13)), Rotr(x, 22)) }
  function BigSigma1(x: word): word { Xor(Xor(Rotr(x, 6), Rotr(x, 11)), Rotr(x, 25)) }
  function SmallSigma0(x: word): word { Xor(Xor(Rotr(x, 7), Rotr(x, 18)), Shr(x, 3)) }
  function SmallSigma1(x: word): word { Xor(Xor(Rotr(x, 17), Rotr(x, 19)), Shr(x, 10)) }

  // ----- Section 6.2.2 -----

  /** Word `t` of the message schedule of a 64-byte block. */
  function Schedule(block: Bytes, t: nat): word
    requires |block| == 64 && t < 64
  {
    if t < 16 then
      BigEndian(block[4 * t], block[4 * t + 1], block[4 * t + 2], block[4 * t + 3])
    else
      Add(Add(Add(SmallSigma1(Schedule(block, t - 2)), Schedule(block, t - 7)),
              SmallSigma0(Schedule(block, t - 15))),
          Schedule(block, t - 16))
  }

  function Round(s: Digest, k: word, w: word): Digest {
    var t1 := Add(Add(Add(Add(s.h, BigSigma1(s.e)), Ch(s.e, s.f, s.g)), k), w);
    var t2 := Add(BigSigma0(s.a), Maj(s.a, s.b, s.c));
    Digest(Add(t1, t2), s.a, s.b, s.c, Add(s.d, t1), s.e, s.f, s.g)
  }

  /** The working variables after the first `t` rounds on a block. */
  function Rounds(s: Digest, block: Bytes, t: nat): Digest
    requires |block| == 64 && t <= 64
  {
    if t == 0 then s else Round(Rounds(s, block, t - 1), RoundConstant(t - 1), Schedule(block, t - 1))
  }

  function Sum(x: Digest, y: Digest): Digest {
    Digest(Add(x.a, y.a), Add(x.b, y.b), Add(x.c, y.c), Add(x.d, y.d),
           Add(x.e, y.e), Add(x.f, y.f), Add(x.g, y.g), Add(x.h, y.h))
  }

  function Compress(s: Digest, block: Bytes): Digest
    requires |block| == 64
  {
    Sum(s, Rounds(s, block, 64))
  }

  /** The hash value after all the blocks of a padded message. */
  function Fold(m: Bytes): Digest
    requires |m| % 64 == 0
    decreases |m|
  {
    if m == [] then H0() else Compress(Fold(m[..|m| - 64]), m[|m| - 64..])
  }

  lemma FoldNothing()
    ensures Fold([]) == H0()
  {
  }

  lemma FoldBlock(m: Bytes, block: Bytes)
    requires |m| % 64 == 0 && |block| == 64
    ensures Fold(m + block) == Compress(Fold(m), block)
  {
    var all := m + block;
    assert all[..|all| - 64] == m && all[|all| - 64..] == block;
  }

  // ----- Section 5.1.1 -----

  function Zeros(n: nat): (r: Bytes)
    ensures |r| == n
  {
    seq(n, i => 0)
  }

  /** The least number of zero bytes that leaves room for the length field at the end of a block. */
  function ZeroCount(n: nat): (k: nat)
    ensures k < 64 && (n + 1 + k) % 64 == 56
  {
    (55 - n) % 64
  }

  /** The `k` low bytes of a number, most significant first. */
  function LengthField(n: nat, k: nat): (r: Bytes)
    ensures |r| == k
  {
    if k == 0 then [] else LengthField(n / 256, k - 1) + [n % 256]
  }

  /** A message followed by the bit 1, zeros, and a 64-bit length field holding `bits`. */
  function Padded(m: Bytes, bits: nat): (r: Bytes)
    ensures |r| % 64 == 0
  {
    m + [0x80] + Zeros(ZeroCount(|m|)) + LengthField(bits, 8)
  }

  // ----- Hexadecimal text of the digest -----

  function HexChar(n: nat): char
    requires n < 16
  {
    "0123456789abcdef"[n]
  }

  /** The `k` low hexadecimal digits of a number, most significant first. */
  function HexDigits(n: nat, k: nat): (r: string)
    ensures |r| == k
  {
    if k == 0 then "" else HexDigits(n / 16, k - 1) + [HexChar(n % 16)]
  }

  function HexWord(w: word): string { HexDigits(w, 8) }

  function HexText(d: Digest): string {
    HexWord(d.a) + HexWord(d.b) + HexWord(d.c) + HexWord(d.d)
    + HexWord(d.e) + HexWord(d.f) + HexWord(d.g) + HexWord(d.h)
  }

  /** The digest of a message whose length field was filled with `bits`. */
  function HexOf(m: Bytes, bits: nat): string {
    HexText(Fold(Padded(m, bits)))
  }

  /** The standard defines the digest for messages of fewer than 2^64 bits. */
  function Hex(m: Bytes): string
    requires |m| < 0x2000_0000_0000_0000
  {
    HexOf(m, 8 * |m|)
  }

  // ----- What the definitions above mean -----

  /** Sixty-four bytes at a time, the padding is as short as it can be. */
  lemma PaddingIsShortest(m: Bytes, bits: nat)
    ensures |m| + 9 <= |Padded(m, bits)| < |m| + 9 + 64
    ensures m <= Padded(m, bits)
  {
  }

  /** The number a big-endian field spells. */
  function FieldValue(b: Bytes): nat {
    if b == [] then 0 else FieldValue(b[..|b| - 1]) * 256 + b[|b| - 1]
  }

  function Power(b: nat, k: nat): nat {
    if k == 0 then 1 else b * Power(b, k - 1)
  }

  lemma {:induction false} FieldRoundTrip(n: nat, k: nat)
    requires n < Power(256, k)
    ensures FieldValue(LengthField(n, k)) == n
  {
    if k > 0 {
      FieldRoundTrip(n / 256, k - 1);
      var r := LengthField(n, k);
      assert r[..|r| - 1] == LengthField(n / 256, k - 1);
    }
  }

  lemma PowerOfLength()
    ensures Power(256, 8) == TWO_64
  {
    assert Power(256, 2) == 0x1_0000;
    assert Power(256, 4) == 0x1_0000_0000;
    assert Power(256, 6) == 0x1_0000_0000_0000;
  }

  /** Padding loses nothing: the length field tells where the message ends. */
  lemma PaddingInjective(m: Bytes, m': Bytes)
    requires |m| < 0x2000_0000_0000_0000 && |m'| < 0x2000_0000_0000_0000
    requires Padded(m, 8 * |m|) == Padded(m', 8 * |m'|)
    ensures m == m'
  {
    PowerOfLength();
    LengthOfPadded(m);
    LengthOfPadded(m');
    assert m == Padded(m, 8 * |m|)[..|m|];
    assert m' == Padded(m', 8 * |m'|)[..|m'|];
  }

  lemma LengthOfPadded(m: Bytes)
    requires 8 * |m| < Power(256, 8)
    ensures FieldValue(Padded(m, 8 * |m|)[|Padded(m, 8 * |m|)| - 8..]) == 8 * |m|
  {
    FieldRoundTrip(8 * |m|, 8);
    assert Padded(m, 8 * |m|)[|Padded(m, 8 * |m|)| - 8..] == LengthField(8 * |m|, 8);
  }

  function HexValue(c: char): nat {
    if '0' <= c <= '9' then c as nat - '0' as nat
    else if 'a' <= c <= 'f' then c as nat - 'a' as nat + 10
    else 0
  }

  function HexNumber(s: string): nat {
    if s == "" then 0 else HexNumber(s[..|s| - 1]) * 16 + HexValue(s[|s| - 1])
  }

  predicate IsHex(s: string) {
    forall i :: 0 <= i < |s| ==> '0' <= s[i] <= '9' || 'a' <= s[i] <= 'f'
  }

  /** The digits are lower-case hexadecimal and spell the number. */
  lemma {:induction false} HexRoundTrip(n: nat, k: nat)
    requires n < Power(16, k)
    ensures IsHex(HexDigits(n, k)) && HexNumber(HexDigits(n, k)) == n
  {
    if k > 0 {
      HexRoundTrip(n / 16, k - 1);
      var r := HexDigits(n, k);
      assert r[..|r| - 1] == HexDigits(n / 16, k - 1);
    }
  }

  lemma HexWordBound()
    ensures Power(16, 8) == TWO_32
  {
    assert Power(16, 2) == 0x100 && Power(16, 4) == 0x1_0000 && Power(16, 6) == 0x100_0000;
  }

  lemma HexWordValue(w: word)
    ensures |HexWord(w)| == 8 && IsHex(HexWord(w)) && HexNumber(HexWord(w)) == w
  {
    HexWordBound();
    HexRoundTrip(w, 8);
  }

  /** A digest prints as 64 lower-case hexadecimal digits, and different digests print differently. */
  lemma HexTextFaithful(d: Digest, d': Digest)
    ensures |HexText(d)| == 64 && IsHex(HexText(d))
    ensures HexText(d) == HexText(d') ==> d == d'
  {
    WordsOfText(d);
    WordsOfText(d');
  }

  /** The eight digits of word `i` in a digest's text. */
  function Slice(s: string, i: nat): string
    requires |s| == 64 && i < 8
  {
    s[8 * i..8 * i + 8]
  }

  lemma WordsOfText(d: Digest)
    ensures |HexText(d)| == 64 && IsHex(HexText(d))
    ensures d == FromText(HexText(d))
  {
    hide HexDigits, HexNumber, HexWord;
    HexWordValue(d.a); HexWordValue(d.b); HexWordValue(d.c); HexWordValue(d.d);
    HexWordValue(d.e); HexWordValue(d.f); HexWordValue(d.g); HexWordValue(d.h);
    var s := HexText(d);
    assert Slice(s, 0) == HexWord(d.a) && Slice(s, 1) == HexWord(d.b);
    assert Slice(s, 2) == HexWord(d.c) && Slice(s, 3) == HexWord(d.d);
    assert Slice(s, 4) == HexWord(d.e) && Slice(s, 5) == HexWord(d.f);
    assert Slice(s, 6) == HexWord(d.g) && Slice(s, 7) == HexWord(d.h);
  }

  function FromText(s: string): Digest
    requires |s| == 64
  {
    Digest(Wrap(HexNumber(Slice(s, 0))), Wrap(HexNumber(Slice(s, 1))),
           Wrap(HexNumber(Slice(s, 2))), Wrap(HexNumber(Slice(s, 3))),
           Wrap(HexNumber(Slice(s, 4))), Wrap(HexNumber(Slice(s, 5))),
           Wrap(HexNumber(Slice(s, 6))), Wrap(HexNumber(Slice(s, 7))))
  }
}
