/**
 * Machine words as natural numbers.
 *
 * The codecs of the repository shift, mask and merge unsigned words of 8 to 64 bits.  Here a word is
 * the number it denotes; every operator is defined by recursion on the binary digits, and one lemma
 * per operator says what it does to bit `i`.  A `w`-bit operator is the unbounded one followed by
 * `Low(_, w)`, the truncation a store into a `w`-bit variable performs.
 */
module Words {
  type byte = x: int | 0 <= x < 256

  function Pow2(n: nat): (p: nat)
    ensures p >= 1
  {
    if n == 0 then 1 else 2 * Pow2(n - 1)
  }

  /** Binary digit `i` of `x`, digit 0 being the least significant. */
  predicate Bit(x: nat, i: nat) {
    if i == 0 then x % 2 == 1 else Bit(x / 2, i - 1)
  }

  function Shl(x: nat, n: nat): nat {
    if n == 0 then x else 2 * Shl(x, n - 1)
  }

  function Shr(x: nat, n: nat): nat {
    if n == 0 then x else Shr(x / 2, n - 1)
  }

  /** `x` truncated to its `w` low bits. */
  function Low(x: nat, w: nat): nat {
    if w == 0 then 0 else x % 2 + 2 * Low(x / 2, w - 1)
  }

  function And(x: nat, y: nat): nat {
    if x == 0 || y == 0 then 0
    else 2 * And(x / 2, y / 2) + if x % 2 == 1 && y % 2 == 1 then 1 else 0
  }

  function Or(x: nat, y: nat): nat
    decreases x + y
  {
    if x == 0 && y == 0 then 0
    else 2 * Or(x / 2, y / 2) + if x % 2 == 1 || y % 2 == 1 then 1 else 0
  }

  function Xor(x: nat, y: nat): nat
    decreases x + y
  {
    if x == 0 && y == 0 then 0
    else 2 * Xor(x / 2, y / 2) + if x % 2 != y % 2 then 1 else 0
  }

  lemma {:induction false} BitZero(i: nat)
    ensures !Bit(0, i)
  {
    if i > 0 { BitZero(i - 1); }
  }

  lemma {:induction false} BitShl(x: nat, n: nat, i: nat)
    ensures Bit(Shl(x, n), i) == (i >= n && Bit(x, i - n))
  {
    if n > 0 && i > 0 { BitShl(x, n - 1, i - 1); }
  }

  lemma {:induction false} BitShr(x: nat, n: nat, i: nat)
    ensures Bit(Shr(x, n), i) == Bit(x, i + n)
  {
    if n > 0 { BitShr(x / 2, n - 1, i); }
  }

  lemma {:induction false} BitLow(x: nat, w: nat, i: nat)
    ensures Bit(Low(x, w), i) == (i < w && Bit(x, i))
  {
    if w == 0 {
      BitZero(i);
    } else if i > 0 {
      BitLow(x / 2, w - 1, i - 1);
    }
  }

  lemma {:induction false} BitAnd(x: nat, y: nat, i: nat)
    ensures Bit(And(x, y), i) == (Bit(x, i) && Bit(y, i))
  {
    if x == 0 || y == 0 {
      BitZero(i);
    } else if i > 0 {
      BitAnd(x / 2, y / 2, i - 1);
    }
  }

  lemma {:induction false} BitOr(x: nat, y: nat, i: nat)
    ensures Bit(Or(x, y), i) == (Bit(x, i) || Bit(y, i))
  {
    if x == 0 && y == 0 {
      BitZero(i);
    } else if i > 0 {
      BitOr(x / 2, y / 2, i - 1);
    }
  }

  lemma {:induction false} BitXor(x: nat, y: nat, i: nat)
    ensures Bit(Xor(x, y), i) == (Bit(x, i) != Bit(y, i))
  {
    if x == 0 && y == 0 {
      BitZero(i);
    } else if i > 0 {
      BitXor(x / 2, y / 2, i - 1);
    }
  }

  /** A number below 2^w has no digit at or above `w`. */
  lemma {:induction false} BitAbove(x: nat, w: nat, i: nat)
    requires x < Pow2(w) && w <= i
    ensures !Bit(x, i)
  {
    if w == 0 {
      BitZero(i);
    } else {
      BitAbove(x / 2, w - 1, i - 1);
    }
  }

  /** All of the `n` low bits set: the mask 2^n - 1. */
  lemma {:induction false} BitOnes(n: nat, i: nat)
    ensures Bit(Pow2(n) - 1, i) == (i < n)
  {
    if n == 0 {
      BitZero(i);
    } else if i > 0 {
      assert (Pow2(n) - 1) / 2 == Pow2(n - 1) - 1;
      BitOnes(n - 1, i - 1);
    }
  }

  /** Subtracting from all ones flips every digit. */
  lemma {:induction false} BitComplement(x: nat, w: nat, i: nat)
    requires x < Pow2(w) && i < w
    ensures Bit(Pow2(w) - 1 - x, i) == !Bit(x, i)
  {
    var p := Pow2(w - 1);
    assert Pow2(w) == 2 * p;
    hide Pow2;
    FlipLowest(x, p);
    if i > 0 {
      BitComplement(x / 2, w - 1, i - 1);
    }
  }

  lemma FlipLowest(x: nat, p: nat)
    requires x < 2 * p
    ensures (2 * p - 1 - x) / 2 == p - 1 - x / 2 && ((2 * p - 1 - x) % 2 == 1) == (x % 2 == 0)
  {
    hide *;
  }

  /** Two words with the same digits are the same number. */
  lemma {:induction false} WordExtensionality(x: nat, y: nat)
    requires forall i: nat :: Bit(x, i) == Bit(y, i)
    ensures x == y
    decreases x + y
  {
    assert Bit(x, 0) == Bit(y, 0);
    if x > 0 || y > 0 {
      forall i: nat
        ensures Bit(x / 2, i) == Bit(y / 2, i)
      {
        assert Bit(x, i + 1) == Bit(y, i + 1);
      }
      WordExtensionality(x / 2, y / 2);
    }
  }

  /** The shifts and the truncation are multiplication, division and remainder by a power of two. */
  lemma {:induction false} ShiftsAreArithmetic(x: nat, n: nat)
    ensures Shl(x, n) == x * Pow2(n) && Shr(x, n) == x / Pow2(n) && Low(x, n) == x % Pow2(n)
  {
    if n > 0 {
      ShiftsAreArithmetic(x, n - 1);
      ShiftsAreArithmetic(x / 2, n - 1);
      ShiftStep(x, Pow2(n - 1));
    }
  }

  lemma {:induction false} ShrTwice(x: nat, m: nat, n: nat)
    ensures Shr(Shr(x, m), n) == Shr(x, m + n)
  {
    if m > 0 {
      ShrTwice(x / 2, m - 1, n);
    }
  }

  /** One place more of each. */
  lemma {:induction false} ShiftStep(x: nat, m: nat)
    requires m > 0
    ensures x * (2 * m) == 2 * (x * m)
    ensures x / 2 / m == x / (2 * m)
    ensures x % 2 + 2 * (x / 2 % m) == x % (2 * m)
  {
    hide *;
    HalfThenDivide(x, m);
  }

  lemma {:induction false} HalfThenDivide(x: nat, m: nat)
    requires m > 0
    ensures x / 2 / m == x / (2 * m) && x % 2 + 2 * (x / 2 % m) == x % (2 * m)
  {
    var q, r := x / 2 / m, x / 2 % m;
    assert x / 2 == q * m + r;
    assert x == q * (2 * m) + (2 * r + x % 2);
    DivisionUnique(x, 2 * m, q, 2 * r + x % 2);
  }

  lemma {:induction false} DivisionUnique(x: nat, m: nat, q: nat, r: nat)
    requires m > 0 && x == q * m + r && r < m
    ensures x / m == q && x % m == r
  {
    var d := q - x / m;
    assert d * m == q * m - x / m * m;
    assert d * m == x % m - r;
    SmallMultiple(d, m);
  }

  /** An index that wraps by comparison wraps as the remainder does. */
  lemma {:induction false} NextIndex(n: nat, m: nat)
    requires m > 0
    ensures (n + 1) % m == if n % m + 1 >= m then 0 else n % m + 1
  {
    var q, r := n / m, n % m;
    assert n == q * m + r;
    if r + 1 >= m {
      assert n + 1 == (q + 1) * m + 0;
      DivisionUnique(n + 1, m, q + 1, 0);
    } else {
      DivisionUnique(n + 1, m, q, r + 1);
    }
  }

  /** Numbers less than `m` apart with the same remainder are the same. */
  lemma {:induction false} SameRemainder(a: nat, b: nat, m: nat)
    requires m > 0 && a <= b < a + m && a % m == b % m
    ensures a == b
  {
    var p, q := a / m, b / m;
    assert a == p * m + a % m && b == q * m + b % m;
    assert (q - p) * m == b - a;
    SmallMultiple(q - p, m);
  }

  lemma SmallMultiple(d: int, m: int)
    requires -m < d * m < m
    ensures d == 0
  {
  }

  lemma {:induction false} LowBound(x: nat, w: nat)
    ensures Low(x, w) < Pow2(w)
    ensures x < Pow2(w) ==> Low(x, w) == x
  {
    if w > 0 { LowBound(x / 2, w - 1); }
  }

  lemma {:induction false} Pow2Monotone(m: nat, n: nat)
    requires m <= n
    ensures Pow2(m) <= Pow2(n)
  {
    if m < n { Pow2Monotone(m, n - 1); }
  }

  /** Digits at or above `w` all clear: the number is below 2^w. */
  lemma {:induction false} BelowPow2(x: nat, w: nat)
    requires forall i: nat :: w <= i ==> !Bit(x, i)
    ensures x < Pow2(w)
  {
    forall i: nat
      ensures Bit(x, i) == Bit(Low(x, w), i)
    {
      BitLow(x, w, i);
    }
    WordExtensionality(x, Low(x, w));
    LowBound(x, w);
  }

  /** The `n` low digits are clear exactly when the truncation to them is 0. */
  lemma {:induction false} LowDigitsClear(x: nat, n: nat)
    requires forall t | 0 <= t < n :: !Bit(x, t)
    ensures Low(x, n) == 0
  {
    hide *;
    forall t: nat
      ensures Bit(Low(x, n), t) == Bit(0, t)
    {
      BitLow(x, n, t);
      BitZero(t);
    }
    WordExtensionality(Low(x, n), 0);
  }

  lemma {:induction false} ClearLowDigits(x: nat, n: nat, t: nat)
    requires Low(x, n) == 0 && t < n
    ensures !Bit(x, t)
  {
    BitLow(x, n, t);
    BitZero(t);
  }

  /** Masking with 2^n - 1 keeps the `n` low bits. */
  lemma {:induction false} AndOnes(x: nat, n: nat)
    ensures And(x, Pow2(n) - 1) == Low(x, n)
  {
    forall i: nat
      ensures Bit(And(x, Pow2(n) - 1), i) == Bit(Low(x, n), i)
    {
      BitAnd(x, Pow2(n) - 1, i);
      BitOnes(n, i);
      BitLow(x, n, i);
    }
    WordExtensionality(And(x, Pow2(n) - 1), Low(x, n));
  }

  /** Merging a word shifted above `n` bits into a word of `n` bits: the digits sit side by side. */
  lemma {:induction false} BitMerge(x: nat, y: nat, n: nat, i: nat)
    requires x < Pow2(n)
    ensures Bit(x + Shl(y, n), i) == if i < n then Bit(x, i) else Bit(y, i - n)
  {
    if n > 0 && i > 0 {
      assert (x + Shl(y, n)) / 2 == x / 2 + Shl(y, n - 1);
      BitMerge(x / 2, y, n - 1, i - 1);
    }
  }

  /** Equal digits, equal words. */
  lemma {:induction false} DigitsDetermine(x: nat, y: nat, n: nat)
    requires x < Pow2(n) && y < Pow2(n)
    requires forall i | 0 <= i < n :: Bit(x, i) == Bit(y, i)
    ensures x == y
  {
    forall i: nat
      ensures Bit(x, i) == Bit(y, i)
    {
      if i >= n {
        BitAbove(x, n, i);
        BitAbove(y, n, i);
      }
    }
    WordExtensionality(x, y);
  }

  lemma {:induction false} ShrBelow(x: nat, n: nat)
    ensures Shr(x, n) <= x
  {
    if n > 0 {
      ShrBelow(x / 2, n - 1);
    }
  }

  /** Powers of two used as word sizes in the sources. */
  lemma ByteSize()
    ensures Pow2(6) == 64 && Pow2(8) == 0x100
  {
  }

  lemma Pow2Of24()
    ensures Pow2(24) == 0x100_0000
  {
    assert Pow2(12) == 0x1000;
  }

  lemma WordSizes()
    ensures Pow2(16) == 0x1_0000 && Pow2(32) == 0x1_0000_0000 && Pow2(64) == 0x1_0000_0000_0000_0000
  {
    assert Pow2(12) == 0x1000;
    assert Pow2(20) == 0x10_0000;
    assert Pow2(28) == 0x1000_0000;
    assert Pow2(36) == 0x10_0000_0000;
    assert Pow2(44) == 0x1000_0000_0000;
    assert Pow2(52) == 0x10_0000_0000_0000;
    assert Pow2(60) == 0x1000_0000_0000_0000;
  }
}
