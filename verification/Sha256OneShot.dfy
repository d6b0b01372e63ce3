/**
 * The simulator's one-shot digest: closed-form padding and signed 32-bit intermediates.
 *
 * JavaScript's bit operations give signed numbers; what counts is that their low 32 bits are the word's.
 */
module Sha256OneShot {
  import opened Common
  import opened Words
  import opened Sha256Spec
  import opened Sha256Stream

  /** From this length on the padded message is longer than an array can be: 2^53 - 1 elements. */
  const TOO_LONG: nat := 0x1f_ffff_ffff_ffb8

  // ----- Padding -----

  /** The closed form gives the length of the padded message. */
  lemma ClosedForm(n: nat)
    ensures var withOne := n + 1;
      withOne + ((56 - (withOne % 64) + 64) % 64) + 8 == n + 1 + ZeroCount(n) + 8
  {
  }

  lemma MaskedByte(x: int)
    ensures JsAnd(x, 0xff) == ToUint(x) % 256
  {
    hide And;
    MaskByte(ToUint(x));
  }

  lemma FieldOfWord(x: word)
    ensures LengthField(x, 4) ==
      [JsUshr(x, 24) % 256, JsUshr(x, 16) % 256, JsUshr(x, 8) % 256, x % 256]
  {
    hide *;
    FourBytes(x);
    ShiftByte(x);
    ShiftByte(x / 256);
    ShiftByte(x / 256 / 256);
    ShiftTwice(x, 8, 8);
    ShiftTwice(x, 16, 8);
    UnsignedShift(x, 8);
    UnsignedShift(x, 16);
    UnsignedShift(x, 24);
  }

  lemma UnsignedShift(x: word, n: nat)
    ensures JsUshr(x, n) == ShiftDown(x, n)
  {
    hide ToUint;
    WordToUint(x);
  }

  lemma FourBytes(x: nat)
    ensures LengthField(x, 4) == [x / 256 / 256 / 256 % 256, x / 256 / 256 % 256, x / 256 % 256, x % 256]
  {
    assert LengthField(x / 256 / 256, 2) == [x / 256 / 256 / 256 % 256, x / 256 / 256 % 256];
    assert LengthField(x, 4) == LengthField(x / 256 / 256, 2) + [x / 256 % 256] + [x % 256];
  }

  /** A 64-bit length is the bytes of its high half, then of its low half. */
  lemma FieldHalves(bits: nat)
    ensures LengthField(bits, 8) == LengthField(bits / 0x1_0000_0000, 4) + LengthField(bits % 0x1_0000_0000, 4)
  {
    hide LengthField;
    FourBytes(bits % 0x1_0000_0000);
    LowFour(bits);
    LowBytes(bits);
  }

  lemma LowFour(x: nat)
    ensures LengthField(x, 8) == LengthField(x / 0x1_0000_0000, 4)
      + [x / 256 / 256 / 256 % 256] + [x / 256 / 256 % 256] + [x / 256 % 256] + [x % 256]
  {
    assert x / 256 / 256 / 256 / 256 == x / 0x1_0000_0000;
    assert LengthField(x / 256 / 256, 6) == LengthField(x / 0x1_0000_0000, 4)
      + [x / 256 / 256 / 256 % 256] + [x / 256 / 256 % 256];
    assert LengthField(x, 8) == LengthField(x / 256 / 256, 6) + [x / 256 % 256] + [x % 256];
  }

  lemma LowBytes(x: nat)
    ensures var y := x % 0x1_0000_0000;
      && y % 256 == x % 256 && y / 256 % 256 == x / 256 % 256
      && y / 256 / 256 % 256 == x / 256 / 256 % 256 && y / 256 / 256 / 256 % 256 == x / 256 / 256 / 256 % 256
  {
    hide *;
    var q, y := x / 0x1_0000_0000, x % 0x1_0000_0000;
    assert x == q * 0x1_0000_0000 + y;
    assert x / 256 == q * 0x100_0000 + y / 256;
    assert x / 256 / 256 == q * 0x1_0000 + y / 256 / 256;
    assert x / 256 / 256 / 256 == q * 0x100 + y / 256 / 256 / 256;
  }

  lemma MaskedField(x: word)
    ensures LengthField(x, 4) ==
      [JsAnd(JsUshr(x, 24), 0xff), JsAnd(JsUshr(x, 16), 0xff), JsAnd(JsUshr(x, 8), 0xff), JsAnd(x, 0xff)]
    ensures 0 <= JsAnd(JsUshr(x, 24), 0xff) < 256 && 0 <= JsAnd(JsUshr(x, 16), 0xff) < 256
    ensures 0 <= JsAnd(JsUshr(x, 8), 0xff) < 256 && 0 <= JsAnd(x, 0xff) < 256
  {
    hide *;
    FieldOfWord(x);
    MaskedWord(JsUshr(x, 24));
    MaskedWord(JsUshr(x, 16));
    MaskedWord(JsUshr(x, 8));
    MaskedWord(x);
  }

  lemma MaskedWord(x: word)
    ensures 0 <= JsAnd(x, 0xff) == x % 256 < 256
  {
    hide JsAnd;
    MaskedByte(x);
    WordToUint(x);
  }

  /** Writes a 32-bit half of the length, most significant byte first. */
  method WriteWord(msg: array<byte>, at: nat, x: word)
    requires at + 4 <= msg.Length
    modifies msg
    ensures msg[..] == old(msg[..at]) + LengthField(x, 4) + old(msg[at + 4..])
  {
    hide *;
    MaskedField(x);
    ghost var was := msg[..];
    msg[at] := JsAnd(JsUshr(x, 24), 0xff);
    msg[at + 1] := JsAnd(JsUshr(x, 16), 0xff);
    msg[at + 2] := JsAnd(JsUshr(x, 8), 0xff);
    msg[at + 3] := JsAnd(x, 0xff);
    assert msg[..] == was[..at] + LengthField(x, 4) + was[at + 4..];
  }

  /** The message and the byte 0x80 at the start of a zeroed buffer. */
  method CopyIn(bytes: Bytes, total: nat) returns (msg: array<byte>)
    requires |bytes| < total
    ensures fresh(msg) && msg[..] == bytes + [0x80] + Zeros(total - |bytes| - 1)
  {
    msg := new byte[total](_ => 0);
    for i := 0 to |bytes|
      invariant msg[..i] == bytes[..i] && forall k :: i <= k < total ==> msg[k] == 0
    {
      msg[i] := bytes[i];
    }
    msg[|bytes|] := 0x80;
  }

  /** The padded message, its length written in two 32-bit halves. */
  method Pad(bytes: Bytes) returns (msg: array<byte>)
    requires |bytes| < TOO_LONG
    ensures fresh(msg) && msg[..] == Padded(bytes, 8 * |bytes|)
  {
    hide *;
    Limit(bytes);
    var bitLen := |bytes| * 8;
    var withOne := |bytes| + 1;
    var total := withOne + ((56 - (withOne % 64) + 64) % 64) + 8;
    ClosedForm(|bytes|);
    msg := CopyIn(bytes, total);
    var hi := bitLen / 0x1_0000_0000;
    var lo := ToUint(bitLen);
    Halves(bitLen);
    WriteWord(msg, total - 8, hi);
    WriteWord(msg, total - 4, lo);
    Assembled(bytes, bitLen, ZeroCount(|bytes|), LengthField(hi, 4), LengthField(lo, 4), msg[..]);
  }

  lemma Limit(bytes: Bytes)
    ensures |bytes| < TOO_LONG <==> |bytes| < 0x1f_ffff_ffff_ffb8
  {
  }

  lemma Assembled(bytes: Bytes, bits: nat, zeros: nat, hi: Bytes, lo: Bytes, all: Bytes)
    requires zeros == ZeroCount(|bytes|) && LengthField(bits, 8) == hi + lo && |hi| == |lo| == 4
    requires var head := bytes + [0x80] + Zeros(zeros + 8);
      var mid := head[..|head| - 8] + hi + head[|head| - 4..];
      all == mid[..|head| - 4] + lo + mid[|head|..]
    ensures all == Padded(bytes, bits)
  {
    hide ZeroCount, LengthField;
    var head := bytes + [0x80] + Zeros(zeros + 8);
    assert head[..|head| - 8] == bytes + [0x80] + Zeros(zeros);
  }

  lemma Halves(bits: nat)
    requires bits < 0x100_0000_0000_0000
    ensures bits / 0x1_0000_0000 < 0x100_0000
    ensures LengthField(bits, 8) == LengthField(bits / 0x1_0000_0000, 4) + LengthField(ToUint(bits), 4)
  {
    hide LengthField;
    FieldHalves(bits);
  }

  // ----- One block -----

  lemma ScheduleWord(block: Bytes, t: nat, w16: word, w15: word, w7: word, w2: word)
    requires |block| == 64 && 16 <= t < 64
    requires w16 == Schedule(block, t - 16) && w15 == Schedule(block, t - 15)
    requires w7 == Schedule(block, t - 7) && w2 == Schedule(block, t - 2)
    ensures
      var s0 := JsXor(JsXor(JsRotr(w15, 7), JsRotr(w15, 18)), JsUshr(w15, 3));
      var s1 := JsXor(JsXor(JsRotr(w2, 17), JsRotr(w2, 19)), JsUshr(w2, 10));
      ToUint(w16 + s0 + w7 + s1) == Schedule(block, t)
  {
    hide *;
    ScheduleStep(block, t, w16, w15, w7, w2);
    SmallSigmas(w15);
    SmallSigmas(w2);
    SignedSigma(w15, 7, 18, 3);
    SignedSigma(w2, 17, 19, 10);
    SumBits(w16, JsXor(JsXor(JsRotr(w15, 7), JsRotr(w15, 18)), JsUshr(w15, 3)), w7,
            JsXor(JsXor(JsRotr(w2, 17), JsRotr(w2, 19)), JsUshr(w2, 10)));
    WordToUint(w16);
    WordToUint(w7);
  }

  lemma SignedSigma(x: word, p: nat, q: nat, n: nat)
    requires p <= 32 && q <= 32
    ensures ToUint(JsXor(JsXor(JsRotr(x, p), JsRotr(x, q)), JsUshr(x, n)))
        == Xor(Xor(Rotr(x, p), Rotr(x, q)), Shr(x, n))
  {
    hide *;
    JsShifts(x, p);
    JsShifts(x, q);
    JsShifts(x, n);
    WordToUint(x);
    JsBits(JsRotr(x, p), JsRotr(x, q));
    JsBits(JsXor(JsRotr(x, p), JsRotr(x, q)), JsUshr(x, n));
  }

  lemma SignedBigSigma(x: word, p: nat, q: nat, r: nat)
    requires p <= 32 && q <= 32 && r <= 32
    ensures ToUint(JsXor(JsXor(JsRotr(x, p), JsRotr(x, q)), JsRotr(x, r)))
        == Xor(Xor(Rotr(x, p), Rotr(x, q)), Rotr(x, r))
  {
    hide *;
    JsShifts(x, p);
    JsShifts(x, q);
    JsShifts(x, r);
    WordToUint(x);
    JsBits(JsRotr(x, p), JsRotr(x, q));
    JsBits(JsXor(JsRotr(x, p), JsRotr(x, q)), JsRotr(x, r));
  }

  lemma SignedCh(e: word, f: word, g: word)
    ensures ToUint(JsXor(JsAnd(e, f), JsAnd(JsNot(e), g))) == Xor(And(e, f), And(Not(e), g))
  {
    hide *;
    WordToUint(e);
    WordToUint(f);
    WordToUint(g);
    JsBits(e, f);
    JsBits(JsNot(e), g);
    JsBits(JsAnd(e, f), JsAnd(JsNot(e), g));
  }

  lemma SignedMaj(a: word, b: word, c: word)
    ensures ToUint(JsXor(JsXor(JsAnd(a, b), JsAnd(a, c)), JsAnd(b, c))) == Xor(Xor(And(a, b), And(a, c)), And(b, c))
  {
    hide *;
    WordToUint(a);
    WordToUint(b);
    WordToUint(c);
    JsBits(a, b);
    JsBits(a, c);
    JsBits(b, c);
    JsBits(JsAnd(a, b), JsAnd(a, c));
    JsBits(JsXor(JsAnd(a, b), JsAnd(a, c)), JsAnd(b, c));
  }

  /** An exact sum reduced once has the bits of the sum reduced at every step. */
  lemma SumBits(x: int, y: int, z: int, t: int)
    ensures ToUint(x + y + z + t) == Add(Add(Add(ToUint(x), ToUint(y)), ToUint(z)), ToUint(t))
  {
    hide *;
    ToUintAdd(x, y);
    ToUintAdd(x + y, z);
    ToUintAdd(x + y + z, t);
  }

  lemma SignedRound(s: Digest, k: word, w: word)
    ensures
      var s1 := JsXor(JsXor(JsRotr(s.e, 6), JsRotr(s.e, 11)), JsRotr(s.e, 25));
      var ch := JsXor(JsAnd(s.e, s.f), JsAnd(JsNot(s.e), s.g));
      var t1 := ToUint(s.h + s1 + ch + k + w);
      var s0 := JsXor(JsXor(JsRotr(s.a, 2), JsRotr(s.a, 13)), JsRotr(s.a, 22));
      var maj := JsXor(JsXor(JsAnd(s.a, s.b), JsAnd(s.a, s.c)), JsAnd(s.b, s.c));
      var t2 := ToUint(s0 + maj);
      Round(s, k, w) == Digest(ToUint(t1 + t2), s.a, s.b, s.c, ToUint(s.d + t1), s.e, s.f, s.g)
  {
    hide *;
    var s1 := JsXor(JsXor(JsRotr(s.e, 6), JsRotr(s.e, 11)), JsRotr(s.e, 25));
    var ch := JsXor(JsAnd(s.e, s.f), JsAnd(JsNot(s.e), s.g));
    var t1 := ToUint(s.h + s1 + ch + k + w);
    var s0 := JsXor(JsXor(JsRotr(s.a, 2), JsRotr(s.a, 13)), JsRotr(s.a, 22));
    var maj := JsXor(JsXor(JsAnd(s.a, s.b), JsAnd(s.a, s.c)), JsAnd(s.b, s.c));
    RoundForm(s, k, w);
    SignedBigSigma(s.e, 6, 11, 25);
    SignedCh(s.e, s.f, s.g);
    SignedBigSigma(s.a, 2, 13, 22);
    SignedMaj(s.a, s.b, s.c);
    SumBits(s.h, s1, ch, k);
    ToUintAdd(s.h + s1 + ch + k, w);
    ToUintAdd(s0, maj);
    ToUintAdd(t1, ToUint(s0 + maj));
    ToUintAdd(s.d, t1);
    WordToUint(s.h);
    WordToUint(k);
    WordToUint(w);
    WordToUint(s.d);
    WordToUint(t1);
    WordToUint(ToUint(s0 + maj));
  }

  lemma SignedBytes(b0: byte, b1: byte, b2: byte, b3: byte)
    ensures ToUint(JsOr(JsOr(JsOr(JsShl(b0, 24), JsShl(b1, 16)), JsShl(b2, 8)), b3)) == BigEndian(b0, b1, b2, b3)
  {
    hide *;
    PackedBytes(b0, b1, b2, b3);
    JsShifts(b0, 24);
    JsShifts(b1, 16);
    JsShifts(b2, 8);
    WordToUint(b0);
    WordToUint(b1);
    WordToUint(b2);
    WordToUint(b3);
    JsBits(JsShl(b0, 24), JsShl(b1, 16));
    JsBits(JsOr(JsShl(b0, 24), JsShl(b1, 16)), JsShl(b2, 8));
    JsBits(JsOr(JsOr(JsShl(b0, 24), JsShl(b1, 16)), JsShl(b2, 8)), b3);
  }

  /** The message schedule of the block at `off`, written over the last one. */
  method Expand(msg: array<byte>, off: nat, w: array<word>)
    requires off + 64 <= msg.Length && w.Length == 64
    modifies w
    ensures forall t :: 0 <= t < 64 ==> w[t] == Schedule(msg[off..off + 64], t)
  {
    hide *;
    ghost var block := msg[off..off + 64];
    for i := 0 to 16
      invariant block == msg[off..off + 64]
      invariant forall t :: 0 <= t < i ==> w[t] == Schedule(block, t)
    {
      var j := off + i * 4;
      ScheduleStart(block, i);
      SignedBytes(msg[j], msg[j + 1], msg[j + 2], msg[j + 3]);
      w[i] := ToUint(JsOr(JsOr(JsOr(JsShl(msg[j], 24), JsShl(msg[j + 1], 16)), JsShl(msg[j + 2], 8)), msg[j + 3]));
    }
    for i := 16 to 64
      invariant forall t :: 0 <= t < i ==> w[t] == Schedule(block, t)
    {
      ScheduleWord(block, i, w[i - 16], w[i - 15], w[i - 7], w[i - 2]);
      var s0 := JsXor(JsXor(JsRotr(w[i - 15], 7), JsRotr(w[i - 15], 18)), JsUshr(w[i - 15], 3));
      var s1 := JsXor(JsXor(JsRotr(w[i - 2], 17), JsRotr(w[i - 2], 19)), JsUshr(w[i - 2], 10));
      w[i] := ToUint(w[i - 16] + s0 + w[i - 7] + s1);
    }
  }

  /** The 64 rounds on a schedule, from the values `v`. */
  method Mix(v: Digest, w: array<word>, ghost block: Bytes) returns (r: Digest)
    requires |block| == 64 && w.Length == 64 && forall t :: 0 <= t < 64 ==> w[t] == Schedule(block, t)
    ensures r == Rounds(v, block, 64)
  {
    hide *;
    RoundsStart(v, block);
    var a: word, b: word, c: word, d: word := v.a, v.b, v.c, v.d;
    var e: word, f: word, g: word, h: word := v.e, v.f, v.g, v.h;
    for i := 0 to 64
      invariant Digest(a, b, c, d, e, f, g, h) == Rounds(v, block, i)
    {
      RoundsStep(v, block, i);
      SignedRound(Digest(a, b, c, d, e, f, g, h), RoundConstant(i), w[i]);
      var s1 := JsXor(JsXor(JsRotr(e, 6), JsRotr(e, 11)), JsRotr(e, 25));
      var ch := JsXor(JsAnd(e, f), JsAnd(JsNot(e), g));
      var t1: word := ToUint(h + s1 + ch + RoundConstant(i) + w[i]);
      var s0 := JsXor(JsXor(JsRotr(a, 2), JsRotr(a, 13)), JsRotr(a, 22));
      var maj := JsXor(JsXor(JsAnd(a, b), JsAnd(a, c)), JsAnd(b, c));
      var t2: word := ToUint(s0 + maj);
      h := g;
      g := f;
      f := e;
      e := ToUint(d + t1);
      d := c;
      c := b;
      b := a;
      a := ToUint(t1 + t2);
    }
    r := Digest(a, b, c, d, e, f, g, h);
  }

  // ----- Text -----

  /** The digits of a number without leading zeros. */
  function ToHex(n: nat): (s: string)
    ensures s != ""
  {
    if n < 16 then [HexChar(n)] else ToHex(n / 16) + [HexChar(n % 16)]
  }

  function PadStart(s: string, k: nat): string {
    seq(if |s| < k then k - |s| else 0, i => '0') + s
  }

  /** Padding the digits on the left gives the fixed-width form. */
  lemma {:induction false} PaddedDigits(n: nat, k: nat)
    requires k > 0 && n < Power(16, k)
    ensures |ToHex(n)| <= k && PadStart(ToHex(n), k) == HexDigits(n, k)
  {
    if n < 16 {
      ZeroDigits(k - 1);
      assert n / 16 == 0;
    } else {
      PaddedDigits(n / 16, k - 1);
    }
  }

  lemma {:induction false} ZeroDigits(k: nat)
    ensures HexDigits(0, k) == seq(k, i => '0')
  {
    if k > 0 { ZeroDigits(k - 1); }
  }

  lemma PaddedWord(w: word)
    ensures PadStart(ToHex(ToUint(w)), 8) == HexWord(w)
  {
    hide ToUint, PadStart, HexDigits;
    HexWordBound();
    WordToUint(w);
    PaddedDigits(w, 8);
  }

  method Print(out: Digest) returns (hex: string)
    ensures hex == HexText(out)
  {
    hide HexText, ToUint, ToHex, PadStart, HexWord, TextOf;
    var words := [out.a, out.b, out.c, out.d, out.e, out.f, out.g, out.h];
    TextNone();
    hex := "";
    for i := 0 to 8
      invariant hex == TextOf(words[..i])
    {
      PaddedWord(words[i]);
      TextMore(words[..i], words[i]);
      assert words[..i + 1] == words[..i] + [words[i]];
      hex := hex + PadStart(ToHex(ToUint(words[i])), 8);
    }
    assert words[..8] == words;
    TextAll(words);
  }

  lemma ReducedSum(x: Digest, y: Digest)
    ensures Sum(x, y) == Digest(ToUint(x.a + y.a), ToUint(x.b + y.b), ToUint(x.c + y.c), ToUint(x.d + y.d),
                                ToUint(x.e + y.e), ToUint(x.f + y.f), ToUint(x.g + y.g), ToUint(x.h + y.h))
  {
    hide Wrap;
  }

  /** The same digest as the streaming form's, for every message that can be padded at all. */
  method Sha256Hex(bytes: Bytes) returns (hex: string)
    requires |bytes| < TOO_LONG
    ensures hex == Hex(bytes)
  {
    hide Padded, Fold, HexText, Schedule, Rounds, Sum;
    var h := H0();
    var msg := Pad(bytes);
    var w := new word[64];
    FoldNothing();
    var off := 0;
    while off < msg.Length
      invariant 0 <= off <= msg.Length && off % 64 == 0
      invariant msg[..] == Padded(bytes, 8 * |bytes|)
      invariant h == Fold(msg[..off])
    {
      Expand(msg, off, w);
      var r := Mix(h, w, msg[off..off + 64]);
      FoldBlock(msg[..off], msg[off..off + 64]);
      assert msg[..off + 64] == msg[..off] + msg[off..off + 64];
      ReducedSum(h, r);
      h := Digest(ToUint(h.a + r.a), ToUint(h.b + r.b), ToUint(h.c + r.c), ToUint(h.d + r.d),
                  ToUint(h.e + r.e), ToUint(h.f + r.f), ToUint(h.g + r.g), ToUint(h.h + r.h));
      off := off + 64;
    }
    assert msg[..off] == msg[..];
    hex := Print(h);
  }
}
