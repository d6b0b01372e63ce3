/** What the definitions of SHA-256 mean: where its constants come from, and what its functions do bit by bit. */
module Sha256Laws {
  import opened Common
  import opened Words
  import opened WordLaws
  import opened Sha256Spec

  // ----- Constants -----

  /** The first sixty-four primes. */
  function NthPrime(i: nat): nat
    requires i < 64
  {
    var row: seq<nat> :=
      match i / 8
      case 0 => [2, 3, 5, 7, 11, 13, 17, 19]
      case 1 => [23, 29, 31, 37, 41, 43, 47, 53]
      case 2 => [59, 61, 67, 71, 73, 79, 83, 89]
      case 3 => [97, 101, 103, 107, 109, 113, 127, 131]
      case 4 => [137, 139, 149, 151, 157, 163, 167, 173]
      case 5 => [179, 181, 191, 193, 197, 199, 211, 223]
      case 6 => [227, 229, 233, 239, 241, 251, 257, 263]
      case _ => [269, 271, 277, 281, 283, 293, 307, 311];
    row[i % 8]
  }

  function WholeCubeRoot(p: nat): nat {
    if p < 8 then 1 else if p < 27 then 2 else if p < 64 then 3 else if p < 125 then 4 else if p < 216 then 5 else 6
  }

  function Cube(x: nat): nat { x * x * x }

  /** Thirty-two binary places after the point, the cube root of `p` is `c` and then `k`. */
  predicate CubeRootBits(p: nat, c: nat, k: nat) {
    Cube(c * 0x1_0000_0000 + k) <= p * 0x1_0000_0000_0000_0000_0000_0000 < Cube(c * 0x1_0000_0000 + k + 1)
  }

  predicate RootOf(i: nat)
    requires i < 64
  {
    CubeRootBits(NthPrime(i), WholeCubeRoot(NthPrime(i)), RoundConstant(i))
  }

  /** Each round constant is the fractional part of a prime's cube root. */
  lemma RoundConstantsAreCubeRoots(i: nat)
    requires i < 64
    ensures CubeRootBits(NthPrime(i), WholeCubeRoot(NthPrime(i)), RoundConstant(i))
  {
    hide CubeRootBits, NthPrime, WholeCubeRoot, RoundConstant;
    RootsBelow4();
    RootsBelow9();
    RootsBelow16();
    RootsBelow32();
    RootsBelow48();
    RootsBelow56();
    RootsBelow64();
    assert RootOf(i);
  }

  lemma RootsBelow4()
    ensures forall i :: 0 <= i < 4 ==> RootOf(i)
  {
  }

  lemma RootsBelow9()
    ensures forall i :: 4 <= i < 9 ==> RootOf(i)
  {
  }

  lemma RootsBelow16()
    ensures forall i :: 9 <= i < 16 ==> RootOf(i)
  {
  }

  lemma RootsBelow32()
    ensures forall i :: 16 <= i < 24 ==> RootOf(i)
    ensures forall i :: 24 <= i < 32 ==> RootOf(i)
  {
  }

  lemma RootsBelow48()
    ensures forall i :: 32 <= i < 40 ==> RootOf(i)
    ensures forall i :: 40 <= i < 48 ==> RootOf(i)
  {
  }

  lemma RootsBelow56()
    ensures forall i :: 48 <= i < 56 ==> RootOf(i)
  {
  }

  lemma RootsBelow64()
    ensures forall i :: 56 <= i < 64 ==> RootOf(i)
  {
  }

  /** Thirty-two binary places after the point, the square root of `p` is `c` and then `k`. */
  predicate SquareRootBits(p: nat, c: nat, k: nat) {
    Square(c * 0x1_0000_0000 + k) <= p * 0x1_0000_0000_0000_0000 < Square(c * 0x1_0000_0000 + k + 1)
  }

  function Square(x: nat): nat { x * x }

  /** The initial hash value is the fractional parts of the first eight primes' square roots. */
  lemma InitialHashIsSquareRoots()
    ensures SquareRootBits(NthPrime(0), 1, H0().a) && SquareRootBits(NthPrime(1), 1, H0().b)
    ensures SquareRootBits(NthPrime(2), 2, H0().c) && SquareRootBits(NthPrime(3), 2, H0().d)
    ensures SquareRootBits(NthPrime(4), 3, H0().e) && SquareRootBits(NthPrime(5), 3, H0().f)
    ensures SquareRootBits(NthPrime(6), 4, H0().g) && SquareRootBits(NthPrime(7), 4, H0().h)
  {
  }

  // ----- Bits of shifted and rotated words -----

  /** No bit lies beyond the word. */
  lemma {:induction false} SmallHasNoBit(x: nat, n: nat, i: nat)
    requires x < Pow2(n) && n <= i
    ensures !Bit(x, i)
    decreases n
  {
    hide *;
    if n == 0 {
      OnlyZero(x);
      NoBits(i);
    } else {
      HalfBelow(x, n);
      SmallHasNoBit(x / 2, n - 1, i - 1);
      HigherBit(x, i);
    }
  }

  lemma OnlyZero(x: nat)
    requires x < Pow2(0)
    ensures x == 0
  {
  }

  lemma HalfBelow(x: nat, n: nat)
    requires n > 0 && x < Pow2(n)
    ensures x / 2 < Pow2(n - 1)
  {
  }

  lemma {:induction false} DownBit(x: nat, n: nat, i: nat)
    ensures Bit(ShiftDown(x, n), i) == Bit(x, i + n)
    decreases n
  {
    hide *;
    if n == 0 {
      NoShift(x);
    } else {
      OneShift(x, n);
      DownBit(x / 2, n - 1, i);
      HigherBit(x, i + n);
    }
  }

  lemma NoShift(x: nat)
    ensures ShiftDown(x, 0) == x
  {
  }

  lemma OneShift(x: nat, n: nat)
    requires n > 0
    ensures ShiftDown(x, n) == ShiftDown(x / 2, n - 1)
  {
  }

  /** Multiplying moves the bits up and fills with zeros. */
  lemma {:induction false} UpBit(x: nat, n: nat, i: nat)
    ensures Bit(x * Pow2(n), i) == (i >= n && Bit(x, i - n))
    decreases n
  {
    hide *;
    if n == 0 {
      NoPower(x);
    } else {
      Halve(x, n);
      if i == 0 {
        LowBit(x * Pow2(n));
      } else {
        UpBit(x, n - 1, i - 1);
        HigherBit(x * Pow2(n), i);
      }
    }
  }

  lemma NoPower(x: nat)
    ensures x * Pow2(0) == x
  {
  }

  /** A remainder keeps the low bits. */
  lemma {:induction false} RemainderBit(x: nat, n: nat, i: nat)
    ensures Bit(x % Pow2(n), i) == (i < n && Bit(x, i))
    decreases n
  {
    hide *;
    if n == 0 {
      NoRemainder(x);
      NoBits(i);
    } else {
      HalfOfRemainder(x, n);
      if i == 0 {
        LowBit(x);
        LowBit(x % Pow2(n));
      } else {
        RemainderBit(x / 2, n - 1, i - 1);
        HigherBit(x, i);
        HigherBit(x % Pow2(n), i);
      }
    }
  }

  lemma NoRemainder(x: nat)
    ensures x % Pow2(0) == 0
  {
  }

  lemma HalfOfRemainder(x: nat, n: nat)
    requires n > 0
    ensures (x % Pow2(n)) / 2 == (x / 2) % Pow2(n - 1) && (x % Pow2(n)) % 2 == x % 2
  {
    HalfRemainder(x, Pow2(n - 1));
  }

  lemma ShiftBit(x: word, n: nat, i: nat)
    requires i < 32
    ensures Bit(Shr(x, n), i) == (i + n < 32 && Bit(x, i + n))
  {
    hide Bit, ShiftDown;
    Pow2Values();
    DownBit(x, n, i);
    if i + n >= 32 { SmallHasNoBit(x, 32, i + n); }
  }

  /** Rotating right by `n` puts bit `(i + n) % 32` in place `i`. */
  lemma RotationBit(x: word, n: nat, i: nat)
    requires i < 32 && n < 32
    ensures Bit(Rotr(x, n), i) == Bit(x, (i + n) % 32)
  {
    hide Bit, Shr, Shl, Or, Pow2;
    WordBits(Shr(x, n), Shl(x, 32 - n), i);
    ShiftBit(x, n, i);
    ShiftLeft(x, n);
    UpBit(x % Pow2(n), 32 - n, i);
    if i >= 32 - n { RemainderBit(x, n, i - (32 - n)); }
  }

  // ----- The functions of section 4.1.2 -----

  function Turned(x: word, i: nat, n: nat): bool {
    Bit(x, (i + n) % 32)
  }

  /** `x` chooses between the bits of `y` and `z`. */
  lemma ChChooses(x: word, y: word, z: word, i: nat)
    requires i < 32
    ensures Bit(Ch(x, y, z), i) == if Bit(x, i) then Bit(y, i) else Bit(z, i)
  {
    hide Bit, And, Xor, Not;
    WordBits(x, y, i);
    WordBits(Not(x), z, i);
    WordBits(And(x, y), And(Not(x), z), i);
  }

  lemma MajIsMajority(x: word, y: word, z: word, i: nat)
    requires i < 32
    ensures Bit(Maj(x, y, z), i) <==>
      (Bit(x, i) && Bit(y, i)) || (Bit(x, i) && Bit(z, i)) || (Bit(y, i) && Bit(z, i))
  {
    hide Bit, And, Xor;
    WordBits(x, y, i);
    WordBits(x, z, i);
    WordBits(y, z, i);
    WordBits(And(x, y), And(x, z), i);
    WordBits(Xor(And(x, y), And(x, z)), And(y, z), i);
  }

  lemma XorThree(x: word, y: word, z: word, i: nat)
    requires i < 32
    ensures Bit(Xor(Xor(x, y), z), i) == ((Bit(x, i) != Bit(y, i)) != Bit(z, i))
  {
    hide Bit, Xor;
    WordBits(x, y, i);
    WordBits(Xor(x, y), z, i);
  }

  /** Each bit of a sigma is the parity of three bits of its word, or of two where the shift runs out. */
  lemma SigmaBits(x: word, i: nat)
    requires i < 32
    ensures Bit(BigSigma0(x), i) == ((Turned(x, i, 2) != Turned(x, i, 13)) != Turned(x, i, 22))
    ensures Bit(BigSigma1(x), i) == ((Turned(x, i, 6) != Turned(x, i, 11)) != Turned(x, i, 25))
    ensures Bit(SmallSigma0(x), i) == ((Turned(x, i, 7) != Turned(x, i, 18)) != (i < 29 && Bit(x, i + 3)))
    ensures Bit(SmallSigma1(x), i) == ((Turned(x, i, 17) != Turned(x, i, 19)) != (i < 22 && Bit(x, i + 10)))
  {
    hide Bit, Xor, Rotr, Shr;
    RotationBit(x, 2, i); RotationBit(x, 13, i); RotationBit(x, 22, i);
    RotationBit(x, 6, i); RotationBit(x, 11, i); RotationBit(x, 25, i);
    RotationBit(x, 7, i); RotationBit(x, 18, i); ShiftBit(x, 3, i);
    RotationBit(x, 17, i); RotationBit(x, 19, i); ShiftBit(x, 10, i);
    XorThree(Rotr(x, 2), Rotr(x, 13), Rotr(x, 22), i);
    XorThree(Rotr(x, 6), Rotr(x, 11), Rotr(x, 25), i);
    XorThree(Rotr(x, 7), Rotr(x, 18), Shr(x, 3), i);
    XorThree(Rotr(x, 17), Rotr(x, 19), Shr(x, 10), i);
  }

  // ----- Section 6.2.2 -----

  /** Compression adds the rounds' outcome to the hash value, word by word modulo 2^32. */
  lemma FeedForward(s: Digest, block: Bytes)
    requires |block| == 64
    ensures var r, t := Rounds(s, block, 64), Compress(s, block);
      && t.a == (s.a + r.a) % 0x1_0000_0000 && t.b == (s.b + r.b) % 0x1_0000_0000
      && t.c == (s.c + r.c) % 0x1_0000_0000 && t.d == (s.d + r.d) % 0x1_0000_0000
      && t.e == (s.e + r.e) % 0x1_0000_0000 && t.f == (s.f + r.f) % 0x1_0000_0000
      && t.g == (s.g + r.g) % 0x1_0000_0000 && t.h == (s.h + r.h) % 0x1_0000_0000
  {
    hide Rounds;
  }

  /** A round can be undone: the variables before it are read off those after it. */
  function Unround(s: Digest, k: word, w: word): Digest {
    var t1 := Wrap(s.a - BigSigma0(s.b) - Maj(s.b, s.c, s.d));
    Digest(s.b, s.c, s.d, Wrap(s.e - t1), s.f, s.g, s.h, Wrap(t1 - BigSigma1(s.f) - Ch(s.f, s.g, s.h) - k - w))
  }

  lemma RoundUndone(s: Digest, k: word, w: word)
    ensures Unround(Round(s, k, w), k, w) == s
  {
    hide BigSigma0, BigSigma1, Ch, Maj, Wrap, Add;
    var s0: int, maj: int := BigSigma0(s.a), Maj(s.a, s.b, s.c);
    var s1: int, ch: int := BigSigma1(s.e), Ch(s.e, s.f, s.g);
    var t1 := Add(Add(Add(Add(s.h, s1), ch), k), w);
    SumOfFive(s.h, s1, ch, k, w);
    SumOfThree(t1, s0, maj);
    TakenBack(t1, s0 + maj);
    SumOfTwo(s.d, t1);
    TakenBack(s.d, t1);
    TakenBack(s.h, s1 + ch + k + w);
  }

  lemma TakenBack(x: word, y: int)
    ensures Wrap(Wrap(x + y) - y) == x
  {
    WrapDrop(x + y, -y);
  }

  lemma SumOfTwo(a: word, b: word)
    ensures Add(a, b) == Wrap(a + b)
  {
  }

  lemma SumOfThree(a: word, b: word, c: word)
    ensures Add(a, Add(b, c)) == Wrap(a + (b + c))
  {
    hide Wrap;
    AddMany(a, b + c);
  }

  lemma SumOfFive(a: word, b: word, c: word, d: word, e: word)
    ensures Add(Add(Add(Add(a, b), c), d), e) == Wrap(a + (b + c + d + e))
  {
    hide Wrap;
    AddMany(a + b, c);
    AddMany(a + b + c, d);
    AddMany(a + b + c + d, e);
  }

  // ----- Section 5.1.1 -----

  /** The padded message, byte by byte: the message, the bit 1, zeros, and the length, its low byte last. */
  lemma PaddingLayout(m: Bytes, bits: nat)
    ensures var p := Padded(m, bits);
      && p[..|m|] == m && p[|m|] == 0x80
      && (forall i :: |m| < i < |p| - 8 ==> p[i] == 0)
      && (forall j :: 0 <= j < 8 ==> p[|p| - 1 - j] == bits / Pow2(8 * j) % 256)
  {
    var p := Padded(m, bits);
    assert p[|p| - 8..] == LengthField(bits, 8);
    forall j | 0 <= j < 8 ensures p[|p| - 1 - j] == bits / Pow2(8 * j) % 256 {
      FieldByte(bits, 8, j);
      assert p[|p| - 1 - j] == p[|p| - 8..][7 - j];
    }
  }

  lemma {:induction false} FieldByte(n: nat, k: nat, j: nat)
    requires j < k
    ensures LengthField(n, k)[k - 1 - j] == n / Pow2(8 * j) % 256
    decreases k
  {
    hide *;
    FieldStep(n, k, j);
    if j > 0 {
      FieldByte(n / 256, k - 1, j - 1);
      ShiftByte(n);
      ShiftTwice(n, 8, 8 * (j - 1));
      ShiftIsQuotient(n / 256, 8 * (j - 1));
      ShiftIsQuotient(n, 8 * j);
    }
  }

  lemma FieldStep(n: nat, k: nat, j: nat)
    requires j < k
    ensures j == 0 ==> LengthField(n, k)[k - 1 - j] == n / Pow2(8 * j) % 256
    ensures j > 0 ==> LengthField(n, k)[k - 1 - j] == LengthField(n / 256, k - 1)[k - 1 - j]
  {
    assert Pow2(0) == 1;
  }

  // ----- The digest's text -----

  /** The text is the eight words' 256-bit number in hexadecimal, most significant word first. */
  lemma HexTextValue(d: Digest)
    ensures HexNumber(HexText(d)) == Chained(Chained(Chained(Chained(Chained(Chained(Chained(d.a, d.b), d.c), d.d),
                                                                     d.e), d.f), d.g), d.h)
  {
    hide HexNumber, HexWord;
    HexWordValue(d.a); HexWordValue(d.b); HexWordValue(d.c); HexWordValue(d.d);
    HexWordValue(d.e); HexWordValue(d.f); HexWordValue(d.g); HexWordValue(d.h);
    var t2 := HexWord(d.a) + HexWord(d.b);
    var t3 := t2 + HexWord(d.c);
    var t4 := t3 + HexWord(d.d);
    var t5 := t4 + HexWord(d.e);
    var t6 := t5 + HexWord(d.f);
    var t7 := t6 + HexWord(d.g);
    OneMoreWord(HexWord(d.a), d.b); OneMoreWord(t2, d.c); OneMoreWord(t3, d.d); OneMoreWord(t4, d.e);
    OneMoreWord(t5, d.f); OneMoreWord(t6, d.g); OneMoreWord(t7, d.h);
  }

  function Chained(high: nat, w: word): nat { high * 0x1_0000_0000 + w }

  lemma OneMoreWord(s: string, w: word)
    ensures HexNumber(s + HexWord(w)) == Chained(HexNumber(s), w)
  {
    hide HexNumber, HexWord, Power;
    HexWordValue(w);
    HexWordBound();
    HexConcat(s, HexWord(w));
  }

  lemma {:induction false} HexConcat(s: string, t: string)
    ensures HexNumber(s + t) == HexNumber(s) * Power(16, |t|) + HexNumber(t)
    decreases |t|
  {
    if t == "" {
      assert s + t == s;
    } else {
      var n := |t| - 1;
      HexConcat(s, t[..n]);
      assert (s + t)[..|s + t| - 1] == s + t[..n];
      SixteenTimes(HexNumber(s), n);
    }
  }

  lemma SixteenTimes(x: nat, n: nat)
    ensures x * Power(16, n + 1) == x * Power(16, n) * 16
  {
  }
}
