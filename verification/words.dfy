/** Fixed-width machine words, C's conversions between them, and bitwise operators.
    Every width is modelled by the integers it holds, with wrap-around written out. */
module Words {

  const TWO31: int := 0x8000_0000
  const TWO32: int := 0x1_0000_0000
  const TWO63: int := 0x8000_0000_0000_0000
  const TWO64: int := 0x1_0000_0000_0000_0000

  datatype Option<+T> = None | Some(value: T)

  type u8 = x: int | 0 <= x < 0x100
  type u16 = x: int | 0 <= x < 0x1_0000
  type u32 = x: int | 0 <= x < 0x1_0000_0000
  type u64 = x: int | 0 <= x < 0x1_0000_0000_0000_0000

  // Bit-fields of a word.
  type Bits1 = x: nat | x < 2
  type Bits3 = x: nat | x < 8
  type Bits4 = x: nat | x < 0x10
  type Bits5 = x: nat | x < 0x20
  type Bits6 = x: nat | x < 0x40
  type Bits7 = x: nat | x < 0x80
  type Bits8 = x: nat | x < 0x100
  type Bits10 = x: nat | x < 0x400
  type Bits12 = x: nat | x < 0x1000
  type Bits13 = x: nat | x < 0x2000
  type Bits20 = x: nat | x < 0x10_0000
  type Bits21 = x: nat | x < 0x20_0000

  /** Conversion of any integer to `u32`: reduction modulo 2^32. */
  function Wrap32(x: int): u32 { x % 0x1_0000_0000 }

  /** The value of a `u32` cast to `i32`. */
  function Signed32(x: u32): int { if x < 0x8000_0000 then x else x - 0x1_0000_0000 }

  /** The value of a `u64` bit pattern stored in an `i64`. */
  function Signed64(x: u64): int { if x < TWO63 then x else x - TWO64 }

  function Pow2(n: nat): (r: nat)
    ensures r >= 1
  {
    if n == 0 then 1 else 2 * Pow2(n - 1)
  }

  lemma {:induction false} Pow2Add(a: nat, b: nat)
    ensures Pow2(a + b) == Pow2(a) * Pow2(b)
  {
    if a == 0 {
    } else {
      Pow2Add(a - 1, b);
      assert Pow2(a + b) == 2 * Pow2(a - 1 + b);
    }
  }

  lemma {:induction false} Pow2Monotone(a: nat, b: nat)
    requires a <= b
    ensures Pow2(a) <= Pow2(b)
  {
    if a == b {
    } else {
      Pow2Monotone(a, b - 1);
    }
  }

  lemma Pow2Of32()
    ensures Pow2(31) == TWO31 && Pow2(32) == TWO32
  {
    assert Pow2(8) == 0x100;
    Pow2Add(8, 8);
    Pow2Add(16, 16);
    assert Pow2(32) == 2 * Pow2(31);
  }

  lemma Pow2Of64()
    ensures Pow2(64) == TWO64
  {
    Pow2Of32();
    Pow2Add(32, 32);
  }

  /** C's logical left shift of a `u32`: multiplication by 2^s modulo 2^32. */
  function Shl32(a: u32, s: nat): u32 { Wrap32(a * Pow2(s)) }

  lemma DivideByPositive(a: nat, d: nat)
    requires d >= 1
    ensures 0 <= a / d <= a
  {
    var q := a / d;
    assert a == q * d + a % d;
    MultipleBounds(q, d);
  }

  lemma MultipleBounds(x: int, d: int)
    requires d >= 1
    ensures x >= 1 ==> x * d >= d && x * d >= x
    ensures x <= -1 ==> x * d <= -d
  {
    if x >= 1 {
      assert x * d == d + (x - 1) * d;
      assert x * d == x + x * (d - 1);
    } else if x <= -1 {
      assert x * d == -d + (x + 1) * d;
    }
  }

  lemma ProductBound(a: nat, b: nat, m: nat, n: nat)
    requires a <= m && b <= n
    ensures 0 <= a * b <= m * n
  {
    assert a * b + (m - a) * b == m * b;
    assert m * b + m * (n - b) == m * n;
  }

  lemma FactorBelow(q: int, m: int, p: nat)
    requires p >= 1 && q * p < m * p
    ensures q < m
  {
    MultipleBounds(q - m + 1, p);
    MultipleBounds(q - m, p);
  }

  /** C's logical right shift of a `u32`: division by 2^s. */
  function Shr32(a: u32, s: nat): u32
  {
    DivideByPositive(a, Pow2(s));
    a / Pow2(s)
  }

  /** Right shift of an `i32` converted back to `u32`; GCC shifts arithmetically. */
  function Sar32(a: u32, s: nat): u32 { Wrap32(Signed32(a) / Pow2(s)) }

  datatype BitOp = AndOp | OrOp | XorOp {
    function Apply(x: bool, y: bool): bool {
      match this
      case AndOp => x && y
      case OrOp => x || y
      case XorOp => x != y
    }
  }

  function BitValue(b: bool): nat { if b then 1 else 0 }

  /** `a op b` on the low `n` bits. */
  function Bitwise(op: BitOp, n: nat, a: nat, b: nat): (r: nat)
    ensures r < Pow2(n)
  {
    if n == 0 then 0
    else BitValue(op.Apply(a % 2 == 1, b % 2 == 1)) + 2 * Bitwise(op, n - 1, a / 2, b / 2)
  }

  function And32(a: u32, b: u32): u32 { Pow2Of32(); Bitwise(AndOp, 32, a, b) }

  function Or32(a: u32, b: u32): u32 { Pow2Of32(); Bitwise(OrOp, 32, a, b) }

  function Xor32(a: u32, b: u32): u32 { Pow2Of32(); Bitwise(XorOp, 32, a, b) }

  function Not32(a: u32): u32 { 0xFFFF_FFFF - a }

  function And64(a: u64, b: u64): u64 { Pow2Of64(); Bitwise(AndOp, 64, a, b) }

  function Or64(a: u64, b: u64): u64 { Pow2Of64(); Bitwise(OrOp, 64, a, b) }

  // ----- bits ---------------------------------------------------------------

  predicate Bit(x: nat, i: nat) { if i == 0 then x % 2 == 1 else Bit(x / 2, i - 1) }

  /** The number whose bit i, for i < n, is f(i). */
  function FromBits(f: nat -> bool, n: nat): (r: nat)
    ensures r < Pow2(n)
  {
    if n == 0 then 0 else BitValue(f(0)) + 2 * FromBits((i: nat) => f(i + 1), n - 1)
  }

  lemma {:induction false} BitOfFromBits(f: nat -> bool, n: nat, i: nat)
    ensures Bit(FromBits(f, n), i) == (i < n && f(i))
  {
    if n == 0 {
      BitOfSmall(0, 0, i);
    } else if i > 0 {
      BitOfFromBits((k: nat) => f(k + 1), n - 1, i - 1);
    }
  }

  lemma {:induction false} BitOfSmall(x: nat, n: nat, i: nat)
    requires x < Pow2(n) && n <= i
    ensures !Bit(x, i)
  {
    if i == 0 {
    } else {
      BitOfSmall(x / 2, if n == 0 then 0 else n - 1, i - 1);
    }
  }

  /** Two n-bit numbers with the same bits are equal. */
  lemma {:induction false} BitsDetermine(x: nat, y: nat, n: nat)
    requires x < Pow2(n) && y < Pow2(n)
    requires forall i: nat :: i < n ==> Bit(x, i) == Bit(y, i)
    ensures x == y
  {
    if n == 0 {
    } else {
      forall i: nat | i < n - 1 ensures Bit(x / 2, i) == Bit(y / 2, i) {
        assert Bit(x, i + 1) == Bit(y, i + 1);
      }
      BitsDetermine(x / 2, y / 2, n - 1);
      assert Bit(x, 0) == Bit(y, 0);
    }
  }

  /** Word equality from the bits, in the form the shift and logic lemmas use it. */
  lemma EqualsFromBits(x: u32, f: nat -> bool)
    requires forall i: nat :: i < 32 ==> Bit(x, i) == f(i)
    ensures x == FromBits(f, 32)
  {
    Pow2Of32();
    forall i: nat | i < 32 ensures Bit(x, i) == Bit(FromBits(f, 32), i) {
      BitOfFromBits(f, 32, i);
    }
    BitsDetermine(x, FromBits(f, 32), 32);
  }

  lemma {:induction false} BitOfBitwise(op: BitOp, n: nat, a: nat, b: nat, i: nat)
    requires i < n
    ensures Bit(Bitwise(op, n, a, b), i) == op.Apply(Bit(a, i), Bit(b, i))
  {
    if i == 0 {
    } else {
      BitOfBitwise(op, n - 1, a / 2, b / 2, i - 1);
    }
  }

  lemma {:induction false} BitOfQuotient(a: nat, s: nat, i: nat)
    ensures a / Pow2(s) >= 0
    ensures Bit(a / Pow2(s), i) == Bit(a, i + s)
  {
    if s == 0 {
    } else {
      HalveQuotient(a, Pow2(s - 1));
      BitOfQuotient(a / 2, s - 1, i);
    } 
  }

  lemma HalveQuotient(a: nat, d: nat)
    requires d >= 1
    ensures a / (2 * d) == (a / 2) / d
  {
    var q := (a / 2) / d;
    var r := (a / 2) % d;
    assert a / 2 == q * d + r;
    assert a == q * (2 * d) + (2 * r + a % 2);
    QuotientIs(a, 2 * d, q, 2 * r + a % 2);
  }

  lemma QuotientIs(a: int, d: int, q: int, r: int)
    requires d >= 1 && 0 <= r < d && a == q * d + r
    ensures a / d == q && a % d == r
  {
    var q', r' := a / d, a % d;
    assert a == q' * d + r';
    assert (q - q') * d == r' - r;
    MultipleBounds(q - q', d);
  }

  lemma {:induction false} BitOfMultiple(a: nat, s: nat, i: nat)
    ensures Bit(a * Pow2(s), i) == (s <= i && Bit(a, i - s))
  {
    if s == 0 {
    } else {
      assert a * Pow2(s) == 2 * (a * Pow2(s - 1));
      if i > 0 {
        BitOfMultiple(a, s - 1, i - 1);
      }
    }
  }

  lemma {:induction false} BitOfRemainder(x: nat, n: nat, i: nat)
    ensures Bit(x % Pow2(n), i) == (i < n && Bit(x, i))
  {
    if n == 0 {
      BitOfSmall(0, 0, i);
    } else {
      HalveRemainder(x, Pow2(n - 1));
      if i > 0 {
        BitOfRemainder(x / 2, n - 1, i - 1);
      }
    }
  }

  lemma HalveRemainder(x: nat, d: nat)
    requires d >= 1
    ensures (x % (2 * d)) / 2 == (x / 2) % d && (x % (2 * d)) % 2 == x % 2
  {
    var q := (x / 2) / d;
    var r := (x / 2) % d;
    assert x / 2 == q * d + r;
    assert x == q * (2 * d) + (2 * r + x % 2);
    QuotientIs(x, 2 * d, q, 2 * r + x % 2);
  }

  /** x below 2^k with ones in bits k to n-1 above it. */
  lemma {:induction false} BitOfHighOnes(x: nat, k: nat, n: nat, i: nat)
    requires x < Pow2(k) && k <= n && i < n
    ensures Pow2(k) <= Pow2(n)
    ensures Bit(x + Pow2(n) - Pow2(k), i) == (k <= i || Bit(x, i))
    decreases n
  {
    Pow2Monotone(k, n);
    if k == 0 {
      if i > 0 {
        assert (Pow2(n) - 1) / 2 == Pow2(n - 1) - 1;
        BitOfHighOnes(0, 0, n - 1, i - 1);
      }
    } else {
      assert (x + Pow2(n) - Pow2(k)) / 2 == x / 2 + Pow2(n - 1) - Pow2(k - 1);
      if i > 0 {
        BitOfHighOnes(x / 2, k - 1, n - 1, i - 1);
      }
    }
  }

  // ----- the masks and merges the emulator uses -----------------------------

  lemma BitwiseStep(op: BitOp, n: nat, x: nat, y: nat, m: nat, c: Bits1)
    requires n > 0 && y == 2 * m + c
    ensures Bitwise(op, n, x, y)
         == BitValue(op.Apply(x % 2 == 1, c == 1)) + 2 * Bitwise(op, n - 1, x / 2, m)
  {
    assert y % 2 == c && y / 2 == m;
  }

  /** `|` of fields that do not overlap is addition. */
  lemma {:induction false} OrDisjoint(n: nat, hi: nat, k: nat, lo: nat)
    requires lo < Pow2(k) && hi * Pow2(k) + lo < Pow2(n)
    ensures Bitwise(OrOp, n, hi * Pow2(k), lo) == hi * Pow2(k) + lo
  {
    if n == 0 {
    } else if k == 0 {
      OrZero(n, hi);
    } else {
      var half := hi * Pow2(k - 1);
      assert hi * Pow2(k) == 2 * half;
      assert (2 * half) / 2 == half && (2 * half) % 2 == 0;
      OrDisjoint(n - 1, hi, k - 1, lo / 2);
    }
  }

  lemma {:induction false} OrZero(n: nat, a: nat)
    requires a < Pow2(n)
    ensures Bitwise(OrOp, n, a, 0) == a
  {
    if n == 0 {
    } else {
      OrZero(n - 1, a / 2);
    }
  }

  /** `x & (2^k - 1)` is the remainder modulo 2^k. */
  lemma {:induction false} AndLowMask(n: nat, x: nat, k: nat)
    requires k <= n
    ensures Bitwise(AndOp, n, x, Pow2(k) - 1) == x % Pow2(k)
  {
    hide Bitwise;
    if k == 0 {
      AndZero(n, x);
    } else {
      var p, half := Pow2(k - 1), x / 2;
      assert Bitwise(AndOp, n - 1, half, p - 1) == half % p by { AndLowMask(n - 1, half, k - 1); }
      assert Bitwise(AndOp, n, x, Pow2(k) - 1) == x % 2 + 2 * Bitwise(AndOp, n - 1, half, p - 1) by {
        BitwiseStep(AndOp, n, x, Pow2(k) - 1, p - 1, 1);
      }
      RemainderStep(x, k);
    }
  }

  lemma RemainderStep(x: nat, k: nat)
    requires k > 0
    ensures x % Pow2(k) == x % 2 + 2 * (x / 2 % Pow2(k - 1))
  {
    var p := Pow2(k - 1);
    assert Pow2(k) == 2 * p;
    HalveRemainder(x, p);
    var r := x % (2 * p);
    assert r == 2 * (r / 2) + r % 2;
  }

  lemma {:induction false} AndZero(n: nat, a: nat)
    ensures Bitwise(AndOp, n, a, 0) == 0
  {
    if n == 0 {
    } else {
      AndZero(n - 1, a / 2);
    }
  }

  /** `x & 2^k` is nonzero exactly when bit k is set. */
  lemma {:induction false} AndSingleBit(n: nat, x: nat, k: nat)
    requires k < n && x < Pow2(k + 1)
    ensures Bitwise(AndOp, n, x, Pow2(k)) == if x >= Pow2(k) then Pow2(k) else 0
  {
    if k == 0 {
      assert Pow2(1) == 2;
      AndZero(n - 1, 0);
    } else {
      AndSingleBit(n - 1, x / 2, k - 1);
    }
  }

  lemma {:induction false} OrAllOnes(n: nat, x: nat)
    requires x < Pow2(n)
    ensures Bitwise(OrOp, n, x, Pow2(n) - 1) == Pow2(n) - 1
  {
    if n == 0 {
    } else {
      BitwiseStep(OrOp, n, x, Pow2(n) - 1, Pow2(n - 1) - 1, 1);
      OrAllOnes(n - 1, x / 2);
    }
  }

  /** `x | ~(2^k - 1)` keeps the low k bits and sets the rest. */
  lemma {:induction false} OrHighMask(n: nat, x: nat, k: nat)
    requires k <= n && x < Pow2(n)
    ensures Pow2(k) <= Pow2(n)
    ensures Bitwise(OrOp, n, x, Pow2(n) - Pow2(k)) == Pow2(n) - Pow2(k) + x % Pow2(k)
    decreases n
  {
    hide Bitwise, Pow2;
    Pow2Monotone(k, n);
    if k == 0 {
      OrHighBase(n, x);
    } else {
      HalfFits(n, x);
      OrHighMask(n - 1, x / 2, k - 1);
      OrHighStep(n, x, k);
    }
  }

  lemma HalfFits(n: nat, x: nat)
    requires n > 0 && x < Pow2(n)
    ensures x / 2 < Pow2(n - 1)
  {
  }

  lemma OrHighBase(n: nat, x: nat)
    requires x < Pow2(n)
    ensures Bitwise(OrOp, n, x, Pow2(n) - Pow2(0)) == Pow2(n) - Pow2(0) + x % Pow2(0)
  {
    assert Pow2(0) == 1;
    hide Bitwise, Pow2;
    OrAllOnes(n, x);
  }

  lemma OrHighStep(n: nat, x: nat, k: nat)
    requires 0 < k <= n && x < Pow2(n) && Pow2(k) <= Pow2(n) && Pow2(k - 1) <= Pow2(n - 1)
    requires Bitwise(OrOp, n - 1, x / 2, Pow2(n - 1) - Pow2(k - 1)) == Pow2(n - 1) - Pow2(k - 1) + x / 2 % Pow2(k - 1)
    ensures Bitwise(OrOp, n, x, Pow2(n) - Pow2(k)) == Pow2(n) - Pow2(k) + x % Pow2(k)
  {
    var p, q := Pow2(n - 1), Pow2(k - 1);
    assert Pow2(n) == 2 * p && Pow2(k) == 2 * q;
    hide Bitwise, Pow2;
    assert x % (2 * q) == x % 2 + 2 * (x / 2 % q) by { RemainderStep(x, k); }
    BitwiseStep(OrOp, n, x, 2 * p - 2 * q, p - q, 0);
  }

  /** SIGNEXT(word, 1 << k). */
  function SignExt(word: u32, k: nat): u32
    requires k < 32
  {
    Pow2Of32();
    Pow2Monotone(k, 31);
    if And32(word, Pow2(k)) != 0 then Or32(word, Not32(Pow2(k) - 1)) else word
  }

  /** On a (k+1)-bit field, SIGNEXT yields its two's-complement value. */
  lemma SignExtValue(word: u32, k: nat)
    requires k < 31 && word < Pow2(k + 1)
    ensures SignExt(word, k) == Wrap32(if word < Pow2(k) then word else word - Pow2(k + 1))
  {
    var p := Pow2(k);
    assert Pow2(k + 1) == 2 * p;
    AndSingleBit(32, word, k);
    if word >= p {
      SignExtNegative(word, k);
    }
  }

  lemma SignExtNegative(word: u32, k: nat)
    requires k < 31 && Pow2(k) <= word < 2 * Pow2(k)
    ensures 2 * Pow2(k) <= TWO32
    ensures Or32(word, Not32(Pow2(k) - 1)) == word + TWO32 - 2 * Pow2(k)
  {
    var p := Pow2(k);
    Pow2Of32();
    Pow2Monotone(k, 31);
    assert Not32(p - 1) == TWO32 - p;
    assert Or32(word, Not32(p - 1)) == TWO32 - p + word % p by {
      OrHighMask(32, word, k);
    }
    assert word % p == word - p by {
      QuotientIs(word, p, 1, word - p);
    }
  }

  /** `x & ~1` clears bit 0. */
  lemma AndNotOne(x: u32)
    ensures And32(x, Not32(1)) == x - x % 2
  {
    Pow2Of32();
    hide Pow2, Bitwise;
    BitwiseStep(AndOp, 32, x, Not32(1), 0x7FFF_FFFF, 0);
    AndLowMask(31, x / 2, 31);
    assert (x / 2) % TWO31 == x / 2;
  }

  /** `x & ~(2^k)` clears bit k. */
  lemma {:induction false} AndClearBit(n: nat, x: nat, k: nat)
    requires k < n && x < Pow2(n)
    ensures Pow2(k) < Pow2(n)
    ensures Bitwise(AndOp, n, x, Pow2(n) - 1 - Pow2(k)) == x - if Bit(x, k) then Pow2(k) else 0
    decreases n
  {
    hide Bitwise;
    Pow2Monotone(k, n - 1);
    if k == 0 {
      AndClearLow(n, x);
    } else {
      var h, p, q := x / 2, Pow2(n - 1), Pow2(k - 1);
      assert Pow2(n) == 2 * p && Pow2(k) == 2 * q;
      assert Bit(x, k) == Bit(h, k - 1);
      AndClearBit(n - 1, h, k - 1);
      assert Bitwise(AndOp, n, x, Pow2(n) - 1 - Pow2(k)) == x % 2 + 2 * Bitwise(AndOp, n - 1, h, p - 1 - q) by {
        BitwiseStep(AndOp, n, x, 2 * p - 1 - 2 * q, p - 1 - q, 1);
      }
    }
  }

  lemma AndClearLow(n: nat, x: nat)
    requires n > 0 && x < Pow2(n)
    ensures Bitwise(AndOp, n, x, Pow2(n) - 2) == x - x % 2
  {
    hide Bitwise;
    var h, p := x / 2, Pow2(n - 1);
    BitwiseStep(AndOp, n, x, 2 * p - 2, p - 1, 0);
    AndLowMask(n - 1, h, n - 1);
    QuotientIs(h, p, 0, h);
  }

  /** `x & 0x1f` is the shift amount modulo 32. */
  lemma AndShiftMask(x: u32)
    ensures And32(x, 0x1f) == x % 32
  {
    assert Pow2(5) == 32;
    AndLowMask(32, x, 5);
  }
}
