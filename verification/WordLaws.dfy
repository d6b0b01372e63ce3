/** What the word operations mean, in arithmetic and bit by bit. */
module WordLaws {
  import opened Common
  import opened Words

  // ----- Sums -----

  /** Where two words agree they carry, where they differ they do not. */
  lemma {:induction false} XorAndSum(x: nat, y: nat, n: nat)
    requires x < Pow2(n) && y < Pow2(n)
    ensures Bits(XorBit, x, y, n) + 2 * Bits(AndBit, x, y, n) == x + y
  {
    if n > 0 { XorAndSum(x / 2, y / 2, n - 1); }
  }

  lemma {:induction false} OrAndSum(x: nat, y: nat, n: nat)
    requires x < Pow2(n) && y < Pow2(n)
    ensures Bits(OrBit, x, y, n) + Bits(AndBit, x, y, n) == x + y
  {
    if n > 0 { OrAndSum(x / 2, y / 2, n - 1); }
  }

  lemma WordSums(x: word, y: word)
    ensures Xor(x, y) + 2 * And(x, y) == x + y
    ensures Or(x, y) + And(x, y) == x + y
    ensures (Add(x, y) - x - y) % 0x1_0000_0000 == 0
  {
    Pow2Values();
    XorAndSum(x, y, 32);
    OrAndSum(x, y, 32);
  }

  /** A word and its complement share no bit and together have them all. */
  lemma {:induction false} Complement(x: nat, n: nat)
    requires x < Pow2(n)
    ensures Bits(AndBit, x, Pow2(n) - 1 - x, n) == 0
  {
    if n > 0 {
      Complement(x / 2, n - 1);
      assert (Pow2(n) - 1 - x) / 2 == Pow2(n - 1) - 1 - x / 2;
    }
  }

  lemma NotIsComplement(x: word)
    ensures And(x, Not(x)) == 0 && Or(x, Not(x)) == 0xffff_ffff
  {
    Pow2Values();
    Complement(x, 32);
    WordSums(x, Not(x));
  }

  // ----- Bit by bit -----

  /** Bit `i` of a number. */
  function Bit(x: nat, i: nat): bool {
    x / Pow2(i) % 2 == 1
  }

  lemma QuotientTwice(x: nat, p: int)
    requires p > 0
    ensures x / (2 * p) == x / 2 / p
  {
    hide *;
    var q, r := x / 2 / p, (x / 2) % p;
    Quotient(x / 2, p);
    assert x == q * (2 * p) + (2 * r + x % 2);
    QuotientIs(x, 2 * p, q, 2 * r + x % 2);
  }

  lemma QuotientIs(x: int, p: int, q: int, r: int)
    requires x == q * p + r && 0 <= r < p
    ensures x / p == q && x % p == r
  {
    hide *;
    Uniquely(x, p, q, r);
    var d := x / p - q;
    assert d * p == 0;
    assert (-d) * p == -(d * p);
    if d > 0 { Grows(d, p); }
    if d < 0 { Grows(-d, p); }
  }

  lemma HigherBit(x: nat, i: nat)
    requires i > 0
    ensures Bit(x, i) == Bit(x / 2, i - 1)
  {
    QuotientTwice(x, Pow2(i - 1));
  }

  lemma {:induction false} BitOfBits(f: (bool, bool) -> bool, x: nat, y: nat, n: nat, i: nat)
    requires i < n
    ensures Bit(Bits(f, x, y, n), i) == f(Bit(x, i), Bit(y, i))
    decreases i
  {
    hide *;
    BitsHalf(f, x, y, n);
    if i == 0 {
      LowBit(x);
      LowBit(y);
      LowBit(Bits(f, x, y, n));
    } else {
      HigherBit(x, i);
      HigherBit(y, i);
      HigherBit(Bits(f, x, y, n), i);
      BitOfBits(f, x / 2, y / 2, n - 1, i - 1);
    }
  }

  lemma BitsHalf(f: (bool, bool) -> bool, x: nat, y: nat, n: nat)
    requires n > 0
    ensures Bits(f, x, y, n) / 2 == Bits(f, x / 2, y / 2, n - 1)
    ensures (Bits(f, x, y, n) % 2 == 1) == f(x % 2 == 1, y % 2 == 1)
  {
  }

  lemma LowBit(x: nat)
    ensures Bit(x, 0) == (x % 2 == 1)
  {
  }

  /** And, or, exclusive or and complement act on each of the 32 bits. */
  lemma WordBits(x: word, y: word, i: nat)
    requires i < 32
    ensures Bit(And(x, y), i) <==> Bit(x, i) && Bit(y, i)
    ensures Bit(Or(x, y), i) <==> Bit(x, i) || Bit(y, i)
    ensures Bit(Xor(x, y), i) <==> Bit(x, i) != Bit(y, i)
    ensures Bit(Not(x), i) <==> !Bit(x, i)
  {
    hide Bit, Bits;
    BitOfBits(AndBit, x, y, 32, i);
    BitOfBits(OrBit, x, y, 32, i);
    BitOfBits(XorBit, x, y, 32, i);
    NotBit(x, i);
  }

  lemma NotBit(x: word, i: nat)
    requires i < 32
    ensures Bit(Not(x), i) <==> !Bit(x, i)
  {
    hide Bit, Bits;
    NotIsComplement(x);
    BitOfBits(AndBit, x, Not(x), 32, i);
    BitOfBits(OrBit, x, Not(x), 32, i);
    Pow2Values();
    NoBits(i);
    AllBits(32, i);
  }

  lemma NoBits(i: nat)
    ensures !Bit(0, i)
  {
    QuotientIs(0, Pow2(i), 0, 0);
  }

  lemma {:induction false} AllBits(n: nat, i: nat)
    requires i < n
    ensures Bit(Pow2(n) - 1, i)
    decreases i
  {
    if i > 0 {
      HigherBit(Pow2(n) - 1, i);
      AllBits(n - 1, i - 1);
    }
  }

  // ----- Shifts and rotations -----

  lemma {:induction false} ShiftIsQuotient(x: nat, n: nat)
    ensures ShiftDown(x, n) == x / Pow2(n)
    decreases n
  {
    if n > 0 {
      ShiftIsQuotient(x / 2, n - 1);
      QuotientTwice(x, Pow2(n - 1));
    }
  }

  lemma {:induction false} PowersAdd(m: nat, n: nat)
    ensures Pow2(m + n) == Pow2(m) * Pow2(n)
    decreases n
  {
    if n > 0 {
      PowersAdd(m, n - 1);
      Double(Pow2(m), n);
    }
  }

  /** Shifting left drops the bits above the word. */
  lemma ShiftLeft(x: word, n: nat)
    requires n <= 32
    ensures Shl(x, 32 - n) == (x % Pow2(n)) * Pow2(32 - n)
  {
    hide Pow2;
    Pow2Values();
    PowersAdd(n, 32 - n);
    LeftParts(x, Pow2(n), Pow2(32 - n));
  }

  lemma LeftParts(x: nat, p: int, q: int)
    requires p > 0 && q > 0 && p * q == 0x1_0000_0000
    ensures (x * q) % 0x1_0000_0000 == (x % p) * q
  {
    hide *;
    Quotient(x, p);
    assert x * q == (x / p) * (p * q) + (x % p) * q;
    Times(x % p, p, q);
    Uniquely(x * q, 0x1_0000_0000, x / p, (x % p) * q);
  }

  lemma Times(r: int, p: int, q: int)
    requires 0 <= r < p && q > 0
    ensures 0 <= r * q < p * q
  {
    hide *;
  }

  lemma {:induction false} OrSwaps(x: nat, y: nat, n: nat)
    ensures Bits(OrBit, x, y, n) == Bits(OrBit, y, x, n)
  {
    if n > 0 { OrSwaps(x / 2, y / 2, n - 1); }
  }

  /** Rotating right moves the low `n` bits to the top and the others down. */
  lemma RotationValue(x: word, n: nat)
    requires n <= 32
    ensures Rotr(x, n) == x / Pow2(n) + (x % Pow2(n)) * Pow2(32 - n)
  {
    hide Bits, ShiftDown, Pow2;
    ShiftIsQuotient(x, n);
    ShiftLeft(x, n);
    RotationParts(x, n);
    Pow2Values();
    OrSwaps(Shr(x, n), Shl(x, 32 - n), 32);
    OrDisjoint(x % Pow2(n), x / Pow2(n), 32 - n, 32);
  }

  lemma RotationParts(x: word, n: nat)
    requires n <= 32
    ensures 0 <= x / Pow2(n) < Pow2(32 - n) && 0 <= x % Pow2(n) < Pow2(n)
    ensures (x % Pow2(n)) * Pow2(32 - n) < Pow2(32)
  {
    hide Pow2;
    Pow2Values();
    PowersAdd(n, 32 - n);
    var p, q := Pow2(n), Pow2(32 - n);
    Quotient(x, p);
    SmallQuotient(x, p, q);
    Times(x % p, p, q);
  }

  lemma SmallQuotient(x: nat, p: int, q: int)
    requires p > 0 && q > 0 && x < p * q
    ensures 0 <= x / p < q
  {
    hide *;
    Quotient(x, p);
    if x / p >= q {
      MonotoneTimes(q, x / p, p);
    }
  }

  lemma MonotoneTimes(a: int, b: int, p: int)
    requires a <= b && p > 0
    ensures a * p <= b * p
  {
    hide *;
  }

  /** Signed or not, a JavaScript number's low 32 bits stand for one word, and the signed form is in its range. */
  lemma SignedRange(x: int)
    ensures -0x8000_0000 <= ToInt(x) < 0x8000_0000 && (ToInt(x) - x) % 0x1_0000_0000 == 0
  {
    WrapParts(x);
  }
}
