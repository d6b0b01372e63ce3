/** The streaming digest: a 64-byte buffer compressed each time it fills. */
module Sha256Stream {
  import opened Common
  import opened Words
  import opened Sha256Spec

  function Loaded(state: seq<word>): Digest
    requires |state| == 8
  {
    Digest(state[0], state[1], state[2], state[3], state[4], state[5], state[6], state[7])
  }

  lemma ScheduleLater(block: Bytes, t: nat)
    requires |block| == 64 && 16 <= t < 64
    ensures Schedule(block, t) ==
      Add(Add(Add(SmallSigma1(Schedule(block, t - 2)), Schedule(block, t - 7)),
              SmallSigma0(Schedule(block, t - 15))),
          Schedule(block, t - 16))
  {
    hide SmallSigma0, SmallSigma1, BigEndian, Add;
  }

  /** The code adds the four terms in the opposite order, reducing after each. */
  lemma ScheduleStep(block: Bytes, t: nat, w16: word, w15: word, w7: word, w2: word)
    requires |block| == 64 && 16 <= t < 64
    requires w16 == Schedule(block, t - 16) && w15 == Schedule(block, t - 15)
    requires w7 == Schedule(block, t - 7) && w2 == Schedule(block, t - 2)
    ensures Schedule(block, t) == Add(Add(Add(w16, SmallSigma0(w15)), w7), SmallSigma1(w2))
  {
    hide *;
    ScheduleLater(block, t);
    AddOrder(w16, SmallSigma0(w15), w7, SmallSigma1(w2));
  }

  lemma SmallSigmas(x: word)
    ensures SmallSigma0(x) == Xor(Xor(Rotr(x, 7), Rotr(x, 18)), Shr(x, 3))
    ensures SmallSigma1(x) == Xor(Xor(Rotr(x, 17), Rotr(x, 19)), Shr(x, 10))
  {
    hide Xor, Rotr, Shr;
  }

  lemma ScheduleStart(block: Bytes, t: nat)
    requires |block| == 64 && t < 16
    ensures Schedule(block, t) == BigEndian(block[4 * t], block[4 * t + 1], block[4 * t + 2], block[4 * t + 3])
  {
  }

  lemma RoundsStep(s: Digest, block: Bytes, t: nat)
    requires |block| == 64 && t < 64
    ensures Rounds(s, block, t + 1) == Round(Rounds(s, block, t), RoundConstant(t), Schedule(block, t))
  {
    hide Round, Schedule, RoundConstant;
  }

  lemma RoundForm(s: Digest, k: word, w: word)
    ensures
      var s1 := Xor(Xor(Rotr(s.e, 6), Rotr(s.e, 11)), Rotr(s.e, 25));
      var ch := Xor(And(s.e, s.f), And(Not(s.e), s.g));
      var t1 := Add(Add(Add(Add(s.h, s1), ch), k), w);
      var s0 := Xor(Xor(Rotr(s.a, 2), Rotr(s.a, 13)), Rotr(s.a, 22));
      var maj := Xor(Xor(And(s.a, s.b), And(s.a, s.c)), And(s.b, s.c));
      Round(s, k, w) == Digest(Add(t1, Add(s0, maj)), s.a, s.b, s.c, Add(s.d, t1), s.e, s.f, s.g)
  {
    hide Xor, Rotr, And, Not, Add;
  }

  lemma RoundsStart(s: Digest, block: Bytes)
    requires |block| == 64
    ensures Rounds(s, block, 0) == s
  {
  }

  lemma TotalBits(whole: nat, rest: nat)
    ensures Wrap64(Wrap64(8 * whole) + Wrap64(rest * 8)) == Wrap64(8 * (whole + rest))
  {
  }

  lemma ZerosJoin(a: nat, b: nat)
    ensures Zeros(a) + Zeros(b) == Zeros(a + b)
  {
  }

  /** How many zeros each branch writes, for a message leaving `n` bytes in the buffer. */
  lemma ZeroBranches(length: nat, n: nat)
    requires n < 64 && (length - n) % 64 == 0 && n <= length
    ensures ZeroCount(length) == if n < 56 then 55 - n else (63 - n) + 56
  {
  }

  lemma FieldStart(bits: nat)
    ensures LengthField(ShiftDown(bits, 64), 0) == [] && ShiftDown(bits, 0) == bits
  {
  }

  lemma FieldStep(bits: nat, i: nat)
    requires i < 8
    ensures Bits(AndBit, ShiftDown(bits, 8 * i), 0xff, 64) < 256
    ensures LengthField(ShiftDown(bits, 8 * i), 8 - i)
      == LengthField(ShiftDown(bits, 8 * (i + 1)), 7 - i) + [Bits(AndBit, ShiftDown(bits, 8 * i), 0xff, 64)]
  {
    Pow2Values();
    MaskLow(ShiftDown(bits, 8 * i), 8, 64);
    ShiftNextByte(bits, i);
  }

  lemma HexStart(w: word)
    ensures HexDigits(ShiftDown(w, 32), 0) == "" && ShiftDown(w, 0) == w
  {
  }

  /** One byte of a word prints as its two digits. */
  lemma HexStep(w: word, j: nat)
    requires j < 4
    ensures var b := And(Shr(w, j * 8), 0xff);
      && b < 256 && Shr(b, 4) < 16 && And(b, 0x0f) < 16
      && HexDigits(ShiftDown(w, 8 * j), 2 * (4 - j))
         == HexDigits(ShiftDown(w, 8 * (j + 1)), 2 * (3 - j)) + [HexChar(Shr(b, 4))] + [HexChar(And(b, 0x0f))]
  {
    hide Bits, ShiftDown;
    var y := Shr(w, j * 8);
    MaskByte(y);
    MaskByte(y % 256);
    ShiftNibble(y % 256);
    ShiftNextByte(w, j);
    TwoDigits(y, 2 * (3 - j));
  }

  lemma TwoDigits(y: nat, k: nat)
    ensures HexDigits(y, k + 2) == HexDigits(y / 256, k) + [HexChar(y % 256 / 16)] + [HexChar(y % 256 % 16)]
  {
    assert y / 16 / 16 == y / 256 && y / 16 % 16 == y % 256 / 16 && y % 256 % 16 == y % 16;
  }

  function TextOf(ws: seq<word>): string {
    if ws == [] then "" else TextOf(ws[..|ws| - 1]) + HexWord(ws[|ws| - 1])
  }

  lemma TextMore(ws: seq<word>, w: word)
    ensures TextOf(ws + [w]) == TextOf(ws) + HexWord(w)
  {
    hide HexWord;
    assert (ws + [w])[..|ws|] == ws;
  }

  lemma TextAll(ws: seq<word>)
    requires |ws| == 8
    ensures TextOf(ws) == HexText(Loaded(ws))
  {
    hide *;
    TextForm(ws);
    assert ws[..1] == [] + [ws[0]] && ws == ws[..7] + [ws[7]];
    forall k | 0 < k < 8 ensures ws[..k + 1] == ws[..k] + [ws[k]] {}
    TextNone();
    TextMore([], ws[0]);
    TextMore(ws[..1], ws[1]);
    TextMore(ws[..2], ws[2]);
    TextMore(ws[..3], ws[3]);
    TextMore(ws[..4], ws[4]);
    TextMore(ws[..5], ws[5]);
    TextMore(ws[..6], ws[6]);
    TextMore(ws[..7], ws[7]);
  }

  lemma TextForm(ws: seq<word>)
    requires |ws| == 8
    ensures HexText(Loaded(ws)) == "" + HexWord(ws[0]) + HexWord(ws[1]) + HexWord(ws[2]) + HexWord(ws[3])
                                   + HexWord(ws[4]) + HexWord(ws[5]) + HexWord(ws[6]) + HexWord(ws[7])
  {
    hide HexWord;
  }

  lemma TextNone()
    ensures TextOf([]) == ""
  {
  }

  lemma BitsMore(n: nat)
    ensures Wrap64(Wrap64(8 * n) + 512) == Wrap64(8 * (n + 64))
  {
  }

  class Sha256 {
    const state: array<word>
    const buffer: array<byte>
    var bufferLen: nat
    /** The bits compressed so far, in a 64-bit counter. */
    var bitLen: nat
    /** The whole blocks compressed so far. */
    ghost var blocks: Bytes

    /** The state is the fold of the full blocks, and the buffer holds what is left. */
    ghost predicate Folded()
      reads this, state, buffer
    {
      && state.Length == 8 && buffer.Length == 64 && bufferLen <= 64
      && |blocks| % 64 == 0
      && Loaded(state[..]) == Fold(blocks)
    }

    ghost predicate Valid()
      reads this, state, buffer
    {
      Folded() && bufferLen < 64 && bitLen == Wrap64(8 * |blocks|)
    }

    /** Everything taken in so far. */
    ghost function Stream(): Bytes
      reads this, buffer
      requires bufferLen <= buffer.Length
    {
      blocks + buffer[..bufferLen]
    }

    constructor ()
      ensures Valid() && Stream() == [] && fresh(state) && fresh(buffer)
    {
      state := new word[8];
      buffer := new byte[64];
      bitLen, bufferLen, blocks := 0, 0, [];
      new;
      state[0], state[1], state[2], state[3] := 0x6a09e667, 0xbb67ae85, 0x3c6ef372, 0xa54ff53a;
      state[4], state[5], state[6], state[7] := 0x510e527f, 0x9b05688c, 0x1f83d9ab, 0x5be0cd19;
    }

    /** Expands a block into its message schedule. */
    static method Expand(chunk: array<byte>) returns (w: array<word>)
      requires chunk.Length == 64
      ensures fresh(w) && w.Length == 64
      ensures forall t :: 0 <= t < 64 ==> w[t] == Schedule(chunk[..], t)
    {
      hide *;
      ghost var block := chunk[..];
      w := new word[64];
      for i := 0 to 16
        invariant forall t :: 0 <= t < i ==> w[t] == Schedule(block, t)
      {
        ScheduleStart(block, i);
        PackedBytes(chunk[i * 4], chunk[i * 4 + 1], chunk[i * 4 + 2], chunk[i * 4 + 3]);
        w[i] := Or(Or(Or(Shl(chunk[i * 4], 24), Shl(chunk[i * 4 + 1], 16)), Shl(chunk[i * 4 + 2], 8)),
                   chunk[i * 4 + 3]);
      }
      for i := 16 to 64
        invariant forall t :: 0 <= t < i ==> w[t] == Schedule(block, t)
      {
        ScheduleStep(block, i, w[i - 16], w[i - 15], w[i - 7], w[i - 2]);
        SmallSigmas(w[i - 15]);
        SmallSigmas(w[i - 2]);
        var s0 := Xor(Xor(Rotr(w[i - 15], 7), Rotr(w[i - 15], 18)), Shr(w[i - 15], 3));
        var s1 := Xor(Xor(Rotr(w[i - 2], 17), Rotr(w[i - 2], 19)), Shr(w[i - 2], 10));
        w[i] := Add(Add(Add(w[i - 16], s0), w[i - 7]), s1);
      }
    }

    /** The 64 rounds on a schedule, from the values `v`. */
    static method Mix(v: Digest, w: array<word>, ghost block: Bytes) returns (r: Digest)
      requires |block| == 64 && w.Length == 64 && forall t :: 0 <= t < 64 ==> w[t] == Schedule(block, t)
      ensures r == Rounds(v, block, 64)
    {
      hide *;
      RoundsStart(v, block);
      var a, b, c, d, e, f, g, h := v.a, v.b, v.c, v.d, v.e, v.f, v.g, v.h;
      for i := 0 to 64
        invariant Digest(a, b, c, d, e, f, g, h) == Rounds(v, block, i)
      {
        RoundsStep(v, block, i);
        RoundForm(Digest(a, b, c, d, e, f, g, h), RoundConstant(i), w[i]);
        var s1 := Xor(Xor(Rotr(e, 6), Rotr(e, 11)), Rotr(e, 25));
        var ch := Xor(And(e, f), And(Not(e), g));
        var t1 := Add(Add(Add(Add(h, s1), ch), RoundConstant(i)), w[i]);
        var s0 := Xor(Xor(Rotr(a, 2), Rotr(a, 13)), Rotr(a, 22));
        var maj := Xor(Xor(And(a, b), And(a, c)), And(b, c));
        var t2 := Add(s0, maj);
        h := g;
        g := f;
        f := e;
        e := Add(d, t1);
        d := c;
        c := b;
        b := a;
        a := Add(t1, t2);
      }
      r := Digest(a, b, c, d, e, f, g, h);
    }

    /** Compresses the buffered block into the state. */
    method Transform()
      requires state.Length == 8 && buffer.Length == 64
      modifies state
      ensures Loaded(state[..]) == Compress(old(Loaded(state[..])), buffer[..])
    {
      hide Rounds, Sum, Add;
      var w := Expand(buffer);
      var v := Digest(state[0], state[1], state[2], state[3], state[4], state[5], state[6], state[7]);
      var r := Mix(v, w, buffer[..]);
      AddInto(r);
    }

    /** Compresses the buffer and starts filling it again. */
    method Flush()
      requires Folded() && bufferLen == 64
      modifies this`blocks, this`bufferLen, state
      ensures Folded() && bufferLen == 0 && Stream() == old(Stream())
      ensures blocks == old(blocks) + buffer[..]
    {
      hide Compress, Fold;
      Transform();
      FoldBlock(blocks, buffer[..]);
      blocks, bufferLen := blocks + buffer[..], 0;
    }

    method AddInto(r: Digest)
      requires state.Length == 8
      modifies state
      ensures Loaded(state[..]) == Sum(old(Loaded(state[..])), r)
    {
      hide Add;
      state[0], state[1] := Add(state[0], r.a), Add(state[1], r.b);
      state[2], state[3] := Add(state[2], r.c), Add(state[3], r.d);
      state[4], state[5] := Add(state[4], r.e), Add(state[5], r.f);
      state[6], state[7] := Add(state[6], r.g), Add(state[7], r.h);
    }

    /** Puts one byte in the buffer. */
    method Append(x: byte)
      requires Folded() && bufferLen < 64
      modifies this`bufferLen, buffer
      ensures Folded() && bufferLen == old(bufferLen) + 1
      ensures Stream() == old(Stream()) + [x]
    {
      hide Fold;
      buffer[bufferLen] := x;
      bufferLen := bufferLen + 1;
    }

    /** Takes in more bytes; how a message is cut into updates makes no difference. */
    method Update(data: Bytes)
      requires Valid()
      modifies this, state, buffer
      ensures Valid() && Stream() == old(Stream()) + data
    {
      hide Fold, Wrap64;
      for i := 0 to |data|
        invariant Valid() && Stream() == old(Stream()) + data[..i]
      {
        assert data[..i + 1] == data[..i] + [data[i]];
        ghost var n := |blocks|;
        Append(data[i]);
        if bufferLen == 64 {
          Flush();
          BitsMore(n);
          bitLen := Wrap64(bitLen + 512);
        }
      }
      assert data[..|data|] == data;
    }

    /** Puts zero bytes in the buffer up to a limit. */
    method FillZeros(limit: nat)
      requires Folded() && bufferLen <= limit <= 64
      modifies this`bufferLen, buffer
      ensures Folded() && bufferLen == limit && Stream() == old(Stream()) + Zeros(limit - old(bufferLen))
    {
      hide Fold;
      while bufferLen < limit
        invariant Folded() && old(bufferLen) <= bufferLen <= limit
        invariant Stream() == old(Stream()) + Zeros(bufferLen - old(bufferLen))
      {
        Append(0);
      }
    }

    /** Puts the 64-bit length in the buffer, most significant byte first. */
    method AppendLength(bits: nat)
      requires Folded() && bufferLen == 56
      modifies this`bufferLen, buffer
      ensures Folded() && bufferLen == 64 && Stream() == old(Stream()) + LengthField(bits, 8)
    {
      hide Fold, ShiftDown, LengthField, Bits;
      FieldStart(bits);
      for i := 8 downto 0
        invariant Folded() && bufferLen == 64 - i
        invariant Stream() == old(Stream()) + LengthField(ShiftDown(bits, 8 * i), 8 - i)
      {
        FieldStep(bits, i);
        Append(Bits(AndBit, ShiftDown(bits, 8 * i), 0xff, 64));
      }
      FieldStart(bits);
    }

    /** The two padding branches: the length fits behind the message's last byte, or needs a block of its own. */
    method Pad()
      requires Valid()
      modifies this`bufferLen, this`blocks, state, buffer
      ensures Folded() && bufferLen == 0
      ensures blocks == Padded(old(Stream()), Wrap64(8 * |old(Stream())|))
    {
      hide Fold, Wrap64, LengthField, Zeros, ZeroCount;
      ghost var m, n := Stream(), bufferLen;
      TotalBits(|blocks|, bufferLen);
      var totalBits := Wrap64(bitLen + Wrap64(bufferLen * 8));
      ZeroBranches(|m|, n);
      Append(0x80);
      if bufferLen > 56 {
        FillZeros(64);
        Flush();
        ZerosJoin(63 - n, 56);
      }
      FillZeros(56);
      assert Stream() == m + [0x80] + Zeros(ZeroCount(|m|));
      AppendLength(totalBits);
      Flush();
      assert Stream() == blocks;
    }

    /** The state as text, two digits a byte. */
    method Print() returns (out: string)
      requires state.Length == 8
      ensures out == HexText(Loaded(state[..]))
    {
      hide HexDigits, ShiftDown, Bits, HexText, Shr, And, TextOf;
      TextNone();
      out := "";
      for i := 0 to 8
        invariant out == TextOf(state[..i])
      {
        ghost var start := out;
        HexStart(state[i]);
        for j := 4 downto 0
          invariant out == start + HexDigits(ShiftDown(state[i], 8 * j), 2 * (4 - j))
        {
          HexStep(state[i], j);
          var b := And(Shr(state[i], j * 8), 0xff);
          out := out + [HexChar(Shr(b, 4))];
          out := out + [HexChar(And(b, 0x0f))];
        }
        TextMore(state[..i], state[i]);
        assert state[..i + 1] == state[..i] + [state[i]];
      }
      assert state[..8] == state[..];
      TextAll(state[..]);
    }

    /** The digest of everything taken in; the object is spent. */
    method HexDigest() returns (out: string)
      requires Valid()
      modifies this`bufferLen, this`blocks, state, buffer
      ensures out == HexOf(old(Stream()), Wrap64(8 * |old(Stream())|))
      ensures |old(Stream())| < 0x2000_0000_0000_0000 ==> out == Hex(old(Stream()))
    {
      hide Fold, Padded, HexText;
      Pad();
      out := Print();
    }

    /** The whole digest of one buffer. */
    static method HexOfBuffer(data: Bytes) returns (out: string)
      ensures out == HexOf(data, Wrap64(8 * |data|))
      ensures |data| < 0x2000_0000_0000_0000 ==> out == Hex(data)
    {
      hide HexOf, Hex, Fold, Wrap64;
      var h := new Sha256();
      h.Update(data);
      assert h.Stream() == data;
      out := h.HexDigest();
    }
  }
}
