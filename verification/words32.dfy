/** Arithmetic and logic of 32-bit unsigned words. */
module Words32 {
  import opened Words

  type uint32 = x: int | 0 <= x < 0x1_0000_0000

  function Add32(x: uint32, y: uint32): uint32 {
    (x + y) % 0x1_0000_0000
  }

  function And32(x: uint32, y: uint32): uint32 {
    LogicBounds(x, y);
    And(x, y)
  }

  function Or32(x: uint32, y: uint32): uint32 {
    LogicBounds(x, y);
    Or(x, y)
  }

  function Xor32(x: uint32, y: uint32): uint32 {
    LogicBounds(x, y);
    Xor(x, y)
  }

  function Not32(x: uint32): uint32 {
    0xFFFF_FFFF - x
  }

  function Shl32(x: uint32, n: nat): uint32 {
    WordSizes();
    LowBound(Shl(x, n), 32);
    Low(Shl(x, n), 32)
  }

  function Shr32(x: uint32, n: nat): uint32 {
    ShrBelow(x, n);
    Shr(x, n)
  }

  lemma {:induction false} LogicBounds(x: uint32, y: uint32)
    ensures And(x, y) < 0x1_0000_0000 && Or(x, y) < 0x1_0000_0000 && Xor(x, y) < 0x1_0000_0000
  {
    hide *;
    WordSizes();
    forall i: nat | 32 <= i
      ensures !Bit(And(x, y), i) && !Bit(Or(x, y), i) && !Bit(Xor(x, y), i)
    {
      BitAbove(x, 32, i);
      BitAbove(y, 32, i);
      BitAnd(x, y, i);
      BitOr(x, y, i);
      BitXor(x, y, i);
    }
    BelowPow2(And(x, y), 32);
    BelowPow2(Or(x, y), 32);
    BelowPow2(Xor(x, y), 32);
  }

  lemma {:induction false} BitNot32(x: uint32, i: nat)
    requires i < 32
    ensures Bit(Not32(x), i) == !Bit(x, i)
  {
    hide Bit, Pow2;
    WordSizes();
    BitComplement(x, 32, i);
  }

  /** Two words with the same 32 digits are equal. */
  lemma {:induction false} Same32(x: uint32, y: uint32)
    requires forall i | 0 <= i < 32 :: Bit(x, i) == Bit(y, i)
    ensures x == y
  {
    hide Bit, Pow2;
    WordSizes();
    DigitsDetermine(x, y, 32);
  }

  /** XOR with the same word twice changes nothing. */
  lemma {:induction false} XorTwice(x: uint32, y: uint32)
    ensures Xor32(Xor32(x, y), y) == x
  {
    hide Bit, Xor;
    forall i | 0 <= i < 32
      ensures Bit(Xor32(Xor32(x, y), y), i) == Bit(x, i)
    {
      BitXor(x, y, i);
      BitXor(Xor32(x, y), y, i);
    }
    Same32(Xor32(Xor32(x, y), y), x);
  }

  lemma {:induction false} AddWraps(x: uint32, y: uint32) returns (k: nat)
    ensures Add32(x, y) == x + y - k * 0x1_0000_0000
  {
    k := (x + y) / 0x1_0000_0000;
  }

  lemma {:induction false} SumRegrouped(a: uint32, b: uint32, c: uint32, d: uint32)
    ensures Add32(a, Add32(Add32(b, c), d)) == Add32(Add32(Add32(a, b), c), d)
  {
    hide Add32;
    var k1 := AddWraps(b, c);
    var k2 := AddWraps(Add32(b, c), d);
    var k3 := AddWraps(a, Add32(Add32(b, c), d));
    var k4 := AddWraps(a, b);
    var k5 := AddWraps(Add32(a, b), c);
    var k6 := AddWraps(Add32(Add32(a, b), c), d);
    var left, right := Add32(a, Add32(Add32(b, c), d)), Add32(Add32(Add32(a, b), c), d);
    assert left - right == (k4 + k5 + k6 - k1 - k2 - k3) * 0x1_0000_0000;
  }
}
