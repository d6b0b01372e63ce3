/**
 * 32-bit words: the operations of section 3.2 of FIPS 180-4, and JavaScript's signed view of them.
 *
 * A word is a number below 2^32. Bitwise operations recurse on its bits, and the lemmas turn shifts and masks into
 * division and remainder.
 */
module Words {
  import opened Common

  type word = w: int | 0 <= w < 0x1_0000_0000

  function Pow2(n: nat): (p: int)
    ensures p > 0
  {
    if n == 0 then 1 else 2 * Pow2(n - 1)
  }

  lemma Pow2Values()
    ensures Pow2(4) == 16 && Pow2(8) == 0x100 && Pow2(16) == 0x1_0000 && Pow2(24) == 0x100_0000
        && Pow2(32) == 0x1_0000_0000
  {
    assert Pow2(2) == 4 && Pow2(6) == 64;
    assert Pow2(10) == 1024 && Pow2(14) == 16384;
    assert Pow2(18) == 0x4_0000 && Pow2(22) == 0x40_0000;
    assert Pow2(26) == 0x400_0000 && Pow2(30) == 0x4000_0000;
  }

  /** Reduction modulo 2^32. */
  function Wrap(x: int): word {
    x % 0x1_0000_0000
  }

  function Add(x: word, y: word): word {
    Wrap(x + y)
  }

  /** Nested additions may be reduced once, at the end. */
  lemma AddMany(x: int, y: int)
    ensures Wrap(Wrap(x) + y) == Wrap(x + y) && Wrap(x + Wrap(y)) == Wrap(x + y)
  {
    WrapDrop(x, y);
    WrapDrop(y, x);
  }

  lemma WrapDrop(x: int, y: int)
    ensures Wrap(Wrap(x) + y) == Wrap(x + y)
  {
    WrapParts(x);
    WrapShift(Wrap(x) + y, x / 0x1_0000_0000);
  }

  lemma WrapParts(x: int)
    ensures x == Wrap(x) + (x / 0x1_0000_0000) * 0x1_0000_0000
  {
  }

  lemma WrapShift(x: int, k: int)
    ensures Wrap(x + k * 0x1_0000_0000) == Wrap(x)
  {
  }

  lemma AddOrder(a: word, b: word, c: word, d: word)
    ensures Add(Add(Add(a, b), c), d) == Add(Add(Add(d, c), b), a)
  {
    hide Wrap;
    AddMany(a + b, c);
    AddMany(Add(a, b) + c, d);
    AddMany(a + b + c, d);
    AddMany(d + c, b);
    AddMany(Add(d, c) + b, a);
    AddMany(d + c + b, a);
  }

  /** A bitwise operation on the low `n` bits. */
  function Bits(f: (bool, bool) -> bool, x: nat, y: nat, n: nat): (r: nat)
    ensures r < Pow2(n)
  {
    if n == 0 then 0
    else (if f(x % 2 == 1, y % 2 == 1) then 1 else 0) + 2 * Bits(f, x / 2, y / 2, n - 1)
  }

  function AndBit(x: bool, y: bool): bool { x && y }
  function OrBit(x: bool, y: bool): bool { x || y }
  function XorBit(x: bool, y: bool): bool { x != y }

  function Bits32(f: (bool, bool) -> bool, x: word, y: word): word {
    Pow2Values();
    Bits(f, x, y, 32)
  }

  function And(x: word, y: word): word { Bits32(AndBit, x, y) }
  function Or(x: word, y: word): word { Bits32(OrBit, x, y) }
  function Xor(x: word, y: word): word { Bits32(XorBit, x, y) }
  function Not(x: word): word { 0xffff_ffff - x }

  /** Halving `n` times. */
  function ShiftDown(x: nat, n: nat): (r: nat)
    ensures r <= x
  {
    if n == 0 then x else ShiftDown(x / 2, n - 1)
  }

  function Shr(x: word, n: nat): word { ShiftDown(x, n) }

  function Shl(x: word, n: nat): word {
    Wrap(x * Pow2(n))
  }

  function Rotr(x: word, n: nat): word
    requires n <= 32
  {
    Or(Shr(x, n), Shl(x, 32 - n))
  }

  // ----- Shifts and masks as arithmetic -----

  lemma {:induction false} ShiftTwice(x: nat, n: nat, m: nat)
    ensures ShiftDown(ShiftDown(x, n), m) == ShiftDown(x, n + m)
    decreases n
  {
    if n > 0 { ShiftTwice(x / 2, n - 1, m); }
  }

  lemma ShiftNibble(x: nat)
    ensures ShiftDown(x, 4) == x / 16
  {
    ShiftPair(x);
    ShiftPair(x / 4);
    ShiftTwice(x, 2, 2);
  }

  lemma ShiftPair(x: nat)
    ensures ShiftDown(x, 2) == x / 4
  {
    assert ShiftDown(x / 2, 1) == x / 2 / 2;
  }

  lemma ShiftByte(x: nat)
    ensures ShiftDown(x, 8) == x / 256 && ShiftDown(x, 4) == x / 16
  {
    ShiftNibble(x);
    ShiftNibble(x / 16);
    ShiftTwice(x, 4, 4);
  }

  lemma ShiftNextByte(x: nat, i: nat)
    ensures ShiftDown(x, 8 * (i + 1)) == ShiftDown(x, 8 * i) / 256
  {
    ShiftTwice(x, 8 * i, 8);
    ShiftByte(ShiftDown(x, 8 * i));
  }

  /** Masking with k one-bits keeps the remainder modulo 2^k. */
  lemma {:induction false} MaskLow(x: nat, k: nat, n: nat)
    requires k <= n
    ensures Bits(AndBit, x, Pow2(k) - 1, n) == x % Pow2(k)
    decreases k
  {
    hide *;
    if k == 0 {
      MaskNothing(x, n);
    } else {
      MaskLow(x / 2, k - 1, n - 1);
      HalfRemainder(x, Pow2(k - 1));
      MaskStep(x, k, n);
    }
  }

  lemma MaskNothing(x: nat, n: nat)
    ensures Bits(AndBit, x, Pow2(0) - 1, n) == x % Pow2(0)
  {
    AndZero(x, n);
  }

  lemma MaskStep(x: nat, k: nat, n: nat)
    requires 0 < k <= n
    ensures Pow2(k) == 2 * Pow2(k - 1)
    ensures Bits(AndBit, x, Pow2(k) - 1, n) == x % 2 + 2 * Bits(AndBit, x / 2, Pow2(k - 1) - 1, n - 1)
  {
    assert (Pow2(k) - 1) % 2 == 1 && (Pow2(k) - 1) / 2 == Pow2(k - 1) - 1;
  }

  lemma {:induction false} AndZero(x: nat, n: nat)
    ensures Bits(AndBit, x, 0, n) == 0
  {
    if n > 0 { AndZero(x / 2, n - 1); }
  }

  lemma HalfRemainder(x: nat, p: int)
    requires p > 0
    ensures x % (2 * p) == x % 2 + 2 * ((x / 2) % p)
  {
    hide *;
    var q, r := (x / 2) / p, (x / 2) % p;
    Quotient(x / 2, p);
    Uniquely(x, 2 * p, q, x % 2 + 2 * r);
  }

  lemma Quotient(x: nat, p: int)
    requires p > 0
    ensures x == (x / p) * p + x % p && 0 <= x % p < p
  {
    hide *;
  }

  lemma Uniquely(x: int, p: int, q: int, r: int)
    requires x == q * p + r && 0 <= r < p
    ensures x % p == r
  {
    hide *;
    var d := x / p - q;
    assert d * p == r - x % p;
    assert (-d) * p == -(d * p);
    if d > 0 { Grows(d, p); }
    if d < 0 { Grows(-d, p); }
  }

  lemma Grows(d: int, p: int)
    requires d > 0 && p > 0
    ensures p <= d * p
  {
    hide *;
  }

  /** `& 0xff` and `& 0x0f`. */
  lemma MaskByte(x: word)
    ensures And(x, 0xff) == x % 256 && And(x, 0x0f) == x % 16
  {
    Pow2Values();
    MaskLow(x, 8, 32);
    MaskLow(x, 4, 32);
  }

  // ----- Or of words without common bits -----

  lemma {:induction false} OrZero(x: nat, n: nat)
    requires x < Pow2(n)
    ensures Bits(OrBit, x, 0, n) == x
  {
    if n > 0 { OrZero(x / 2, n - 1); }
  }

  /** Or-ing a multiple of 2^k with a number below 2^k adds them. */
  lemma {:induction false} OrDisjoint(x: nat, y: nat, k: nat, n: nat)
    requires k <= n && y < Pow2(k) && x * Pow2(k) < Pow2(n)
    ensures Bits(OrBit, x * Pow2(k), y, n) == x * Pow2(k) + y
    decreases k
  {
    if k == 0 {
      OrZero(x, n);
    } else {
      Halve(x, k);
      Double(x, k);
      OrDisjoint(x, y / 2, k - 1, n - 1);
    }
  }

  lemma Halve(x: nat, k: nat)
    requires k > 0
    ensures (x * Pow2(k)) / 2 == x * Pow2(k - 1) && (x * Pow2(k)) % 2 == 0
  {
    Double(x, k);
  }

  lemma Double(x: nat, k: nat)
    requires k > 0
    ensures x * Pow2(k) == 2 * (x * Pow2(k - 1))
  {
  }

  /** Four bytes, most significant first. */
  function BigEndian(b0: byte, b1: byte, b2: byte, b3: byte): word {
    b0 * 0x100_0000 + b1 * 0x1_0000 + b2 * 0x100 + b3
  }

  /** Or-ing a byte into the low eight zero bits, or two bytes into the low sixteen, and so on, adds. */
  lemma OrWord(x: nat, y: nat, k: nat)
    requires k <= 32 && y < Pow2(k) && x * Pow2(k) < 0x1_0000_0000 && y < 0x1_0000_0000
    ensures Or(x * Pow2(k), y) == x * Pow2(k) + y
  {
    Pow2Values();
    OrDisjoint(x, y, k, 32);
  }

  /** Shifting the bytes into place and or-ing them gives the big-endian word. */
  lemma PackedBytes(b0: byte, b1: byte, b2: byte, b3: byte)
    ensures Or(Or(Or(Shl(b0, 24), Shl(b1, 16)), Shl(b2, 8)), b3) == BigEndian(b0, b1, b2, b3)
  {
    hide Or, Pow2;
    Pow2Values();
    ShiftedByte(b0, 24);
    ShiftedByte(b1, 16);
    ShiftedByte(b2, 8);
    OrWord(b0, b1 * 0x1_0000, 24);
    OrWord(b0 * 0x100 + b1, b2 * 0x100, 16);
    OrWord(b0 * 0x1_0000 + b1 * 0x100 + b2, b3, 8);
  }

  lemma ShiftedByte(b: byte, n: nat)
    requires n == 8 || n == 16 || n == 24
    ensures Shl(b, n) == b * Pow2(n) < 0x1_0000_0000
  {
    Pow2Values();
  }

  // ----- JavaScript numbers: exact integers, with bit operations on their low 32 bits -----

  /** ToUint32, which `x >>> 0` computes. */
  function ToUint(x: int): word { Wrap(x) }

  /** ToInt32: the low 32 bits read as a signed number. */
  function ToInt(x: int): int {
    if Wrap(x) < 0x8000_0000 then Wrap(x) else Wrap(x) - 0x1_0000_0000
  }

  lemma SignedSameBits(x: int)
    ensures ToUint(ToInt(x)) == ToUint(x)
  {
  }

  lemma WordToUint(x: word)
    ensures ToUint(x) == x
  {
  }

  function JsAnd(x: int, y: int): int { ToInt(And(ToUint(x), ToUint(y))) }
  function JsOr(x: int, y: int): int { ToInt(Or(ToUint(x), ToUint(y))) }
  function JsXor(x: int, y: int): int { ToInt(Xor(ToUint(x), ToUint(y))) }
  function JsNot(x: int): int { ToInt(Not(ToUint(x))) }
  function JsShl(x: int, n: nat): int { ToInt(Shl(ToUint(x), n)) }
  function JsUshr(x: int, n: nat): word { Shr(ToUint(x), n) }

  function JsRotr(x: int, n: nat): int
    requires n <= 32
  {
    JsOr(JsUshr(x, n), JsShl(x, 32 - n))
  }

  /** Signed or not, every operation has the same low 32 bits as the word operation. */
  lemma JsBits(x: int, y: int)
    ensures ToUint(JsAnd(x, y)) == And(ToUint(x), ToUint(y))
    ensures ToUint(JsOr(x, y)) == Or(ToUint(x), ToUint(y))
    ensures ToUint(JsXor(x, y)) == Xor(ToUint(x), ToUint(y))
    ensures ToUint(JsNot(x)) == Not(ToUint(x))
  {
    hide And, Or, Xor, Not;
    SignedSameBits(And(ToUint(x), ToUint(y)));
    SignedSameBits(Or(ToUint(x), ToUint(y)));
    SignedSameBits(Xor(ToUint(x), ToUint(y)));
    SignedSameBits(Not(ToUint(x)));
  }

  lemma JsShifts(x: int, n: nat)
    ensures ToUint(JsShl(x, n)) == Shl(ToUint(x), n)
    ensures ToUint(JsUshr(x, n)) == Shr(ToUint(x), n)
    ensures n <= 32 ==> ToUint(JsRotr(x, n)) == Rotr(ToUint(x), n)
  {
    hide Shl, Shr, Or;
    SignedSameBits(Shl(ToUint(x), n));
    if n <= 32 {
      SignedSameBits(Shl(ToUint(x), 32 - n));
      JsBits(JsUshr(x, n), JsShl(x, 32 - n));
    }
  }

  /** Sums may be taken exactly and reduced at the end. */
  lemma ToUintAdd(x: int, y: int)
    ensures ToUint(x + y) == Add(ToUint(x), ToUint(y))
  {
  }
}
