/**
 * The MD5 block function: section 3.4 of RFC 1321, sixty-four table-driven operations over rotating
 * registers, and the implementation's unrolled form of it.
 */
module Md5Block {
  import opened Words
  import opened Words32

  datatype State = State(a: uint32, b: uint32, c: uint32, d: uint32)

  const INITIAL := State(0x67452301, 0xEFCDAB89, 0x98BADCFE, 0x10325476)

  // ---- The block function of RFC 1321 ----------------------------------------------------------

  function F(x: uint32, y: uint32, z: uint32): uint32 { Or32(And32(x, y), And32(Not32(x), z)) }
  function G(x: uint32, y: uint32, z: uint32): uint32 { Or32(And32(x, z), And32(y, Not32(z))) }
  function H(x: uint32, y: uint32, z: uint32): uint32 { Xor32(Xor32(x, y), z) }
  function I(x: uint32, y: uint32, z: uint32): uint32 { Xor32(y, Or32(x, Not32(z))) }

  function Auxiliary(i: nat, x: uint32, y: uint32, z: uint32): uint32 {
    if i < 16 then F(x, y, z) else if i < 32 then G(x, y, z) else if i < 48 then H(x, y, z) else I(x, y, z)
  }

  /** The message word operation `i` uses. */
  function WordIndex(i: nat): (k: nat)
    ensures k < 16
  {
    if i < 16 then i else if i < 32 then (5 * i + 1) % 16 else if i < 48 then (3 * i + 5) % 16 else 7 * i % 16
  }

  /** The rotation of operation `i`. */
  function Rotation(i: nat): (s: nat)
    ensures 4 <= s < 32
  {
    var r := i % 4;
    if i < 16 then (if r == 0 then 7 else if r == 1 then 12 else if r == 2 then 17 else 22)
    else if i < 32 then (if r == 0 then 5 else if r == 1 then 9 else if r == 2 then 14 else 20)
    else if i < 48 then (if r == 0 then 4 else if r == 1 then 11 else if r == 2 then 16 else 23)
    else (if r == 0 then 6 else if r == 1 then 10 else if r == 2 then 15 else 21)
  }

  /** The sine table. */
  function SineTable(i: nat): uint32 {
    match i
    case 0 => 0xD76AA478
    case 1 => 0xE8C7B756
    case 2 => 0x242070DB
    case 3 => 0xC1BDCEEE
    case 4 => 0xF57C0FAF
    case 5 => 0x4787C62A
    case 6 => 0xA8304613
    case 7 => 0xFD469501
    case 8 => 0x698098D8
    case 9 => 0x8B44F7AF
    case 10 => 0xFFFF5BB1
    case 11 => 0x895CD7BE
    case 12 => 0x6B901122
    case 13 => 0xFD987193
    case 14 => 0xA679438E
    case 15 => 0x49B40821
    case 16 => 0xF61E2562
    case 17 => 0xC040B340
    case 18 => 0x265E5A51
    case 19 => 0xE9B6C7AA
    case 20 => 0xD62F105D
    case 21 => 0x02441453
    case 22 => 0xD8A1E681
    case 23 => 0xE7D3FBC8
    case 24 => 0x21E1CDE6
    case 25 => 0xC33707D6
    case 26 => 0xF4D50D87
    case 27 => 0x455A14ED
    case 28 => 0xA9E3E905
    case 29 => 0xFCEFA3F8
    case 30 => 0x676F02D9
    case 31 => 0x8D2A4C8A
    case 32 => 0xFFFA3942
    case 33 => 0x8771F681
    case 34 => 0x6D9D6122
    case 35 => 0xFDE5380C
    case 36 => 0xA4BEEA44
    case 37 => 0x4BDECFA9
    case 38 => 0xF6BB4B60
    case 39 => 0xBEBFBC70
    case 40 => 0x289B7EC6
    case 41 => 0xEAA127FA
    case 42 => 0xD4EF3085
    case 43 => 0x04881D05
    case 44 => 0xD9D4D039
    case 45 => 0xE6DB99E5
    case 46 => 0x1FA27CF8
    case 47 => 0xC4AC5665
    case 48 => 0xF4292244
    case 49 => 0x432AFF97
    case 50 => 0xAB9423A7
    case 51 => 0xFC93A039
    case 52 => 0x655B59C3
    case 53 => 0x8F0CCC92
    case 54 => 0xFFEFF47D
    case 55 => 0x85845DD1
    case 56 => 0x6FA87E4F
    case 57 => 0xFE2CE6E0
    case 58 => 0xA3014314
    case 59 => 0x4E0811A1
    case 60 => 0xF7537E82
    case 61 => 0xBD3AF235
    case 62 => 0x2AD7D2BB
    case 63 => 0xEB86D391
    case _ => 0
  }

  function RotateLeft(x: uint32, n: nat): uint32
    requires n < 32
  {
    Or32(Shl32(x, n), Shr32(x, 32 - n))
  }

  /** Operation `i`: b + ((a + Auxiliary(b, c, d) + X[k] + T[i]) <<< s). */
  function Operation(i: nat, s: State, x: seq<uint32>): uint32
    requires |x| == 16
  {
    var sum := Add32(Add32(Add32(s.a, Auxiliary(i, s.b, s.c, s.d)), x[WordIndex(i)]), SineTable(i));
    Add32(s.b, RotateLeft(sum, Rotation(i)))
  }

  /** Operations `first` to `last - 1`; the registers rotate one place at each. */
  function Run(s: State, x: seq<uint32>, first: nat, last: nat): State
    requires |x| == 16 && first <= last
    decreases last - first
  {
    if first == last then s else Run(State(s.d, Operation(first, s, x), s.b, s.c), x, first + 1, last)
  }

  /** Rotation moves digit `i` up `n` places, around the end. */
  lemma {:induction false} RotatedDigit(x: uint32, n: nat, i: nat)
    requires 0 < n < 32 && i < 32
    ensures Bit(RotateLeft(x, n), if i + n < 32 then i + n else i + n - 32) == Bit(x, i)
  {
    WordSizes();
    hide Bit, Or, Shl, Shr, Low, Pow2;
    var j := if i + n < 32 then i + n else i + n - 32;
    BitOr(Shl32(x, n), Shr32(x, 32 - n), j);
    BitLow(Shl(x, n), 32, j);
    BitShl(x, n, j);
    BitShr(x, 32 - n, j);
    if i + n < 32 {
      BitAbove(x, 32, j + (32 - n));
    }
  }

  /** Word `k` of a block, low byte first. */
  function BlockWord(block: seq<byte>, k: nat): uint32
    requires |block| == 64 && k < 16
  {
    var b0: int, b1: int, b2: int, b3: int := block[4 * k], block[4 * k + 1], block[4 * k + 2], block[4 * k + 3];
    b0 + 0x100 * b1 + 0x1_0000 * b2 + 0x100_0000 * b3
  }

  function BlockWords(block: seq<byte>): (x: seq<uint32>)
    requires |block| == 64
    ensures |x| == 16
  {
    seq(16, k requires 0 <= k < 16 => BlockWord(block, k))
  }

  function Compress(s: State, block: seq<byte>): State
    requires |block| == 64
  {
    var r := Run(s, BlockWords(block), 0, 64);
    State(Add32(s.a, r.a), Add32(s.b, r.b), Add32(s.c, r.c), Add32(s.d, r.d))
  }

  // ---- The unrolled operations --------------------------------------------------------------------

  /** The macro that merges four bytes of the input into a word. */
  function GetUint32(data: seq<byte>, at: nat): uint32
    requires at + 4 <= |data|
  {
    Or32(Or32(Or32(data[at], Shl32(data[at + 1], 8)), Shl32(data[at + 2], 16)), Shl32(data[at + 3], 24))
  }

  lemma {:induction false} GetUint32Is(block: seq<byte>, k: nat)
    requires |block| == 64 && k < 16
    ensures GetUint32(block, 4 * k) == BlockWord(block, k)
  {
    hide Or32, Shl32;
    MergedBytes(block[4 * k], block[4 * k + 1], block[4 * k + 2], block[4 * k + 3]);
  }

  lemma {:induction false} MergedBytes(b0: uint32, b1: uint32, b2: uint32, b3: uint32)
    requires b0 < 0x100 && b1 < 0x100 && b2 < 0x100 && b3 < 0x100
    ensures Or32(Or32(Or32(b0, Shl32(b1, 8)), Shl32(b2, 16)), Shl32(b3, 24)) ==
            b0 + 0x100 * b1 + 0x1_0000 * b2 + 0x100_0000 * b3
  {
    ByteSize();
    WordSizes();
    Pow2Of24();
    hide *;
    Merged(b0, b1, 8);
    Merged(b0 + 0x100 * b1, b2, 16);
    Merged(b0 + 0x100 * b1 + 0x1_0000 * b2, b3, 24);
  }

  /** A byte merged above a word's own digits is added at its place. */
  lemma {:induction false} Merged(low: uint32, b: byte, n: nat)
    requires n <= 24 && low < Pow2(n)
    ensures Or32(low, Shl32(b, n)) == low + b * Pow2(n)
  {
    ShiftsAreArithmetic(b, n);
    hide Bit, Or, Shl, Low, Pow2;
    forall i: nat
      ensures Bit(Or32(low, Shl32(b, n)), i) == Bit(low + Shl(b, n), i)
    {
      BitMerge(low, b, n, i);
      BitOr(low, Shl32(b, n), i);
      BitLow(Shl(b, n), 32, i);
      BitShl(b, n, i);
      ByteSize();
      if i >= n {
        BitAbove(low, n, i);
        if i >= 32 {
          BitAbove(b, 8, i - n);
        }
      }
    }
    WordExtensionality(Or32(low, Shl32(b, n)), low + Shl(b, n));
  }

  /** The four forms of the auxiliary function the implementation computes instead. */
  function F1(x: uint32, y: uint32, z: uint32): uint32 { Xor32(z, And32(x, Xor32(y, z))) }
  function F2(x: uint32, y: uint32, z: uint32): uint32 { Xor32(y, And32(z, Xor32(x, y))) }
  function F3(x: uint32, y: uint32, z: uint32): uint32 { Xor32(Xor32(x, y), z) }
  function F4(x: uint32, y: uint32, z: uint32): uint32 { Xor32(y, Or32(x, Not32(z))) }

  /** The macro S. */
  function S(x: uint32, n: nat): uint32
    requires n < 32
  {
    Or32(Shl32(x, n), Shr32(x, 32 - n))
  }

  /** The macro P, given the value of the auxiliary function. */
  function P(a: uint32, b: uint32, f: uint32, word: uint32, s: nat, t: uint32): uint32
    requires 4 <= s < 32
  {
    Add32(S(Add32(a, Add32(Add32(f, word), t)), s), b)
  }

  lemma {:induction false} FirstForm(x: uint32, y: uint32, z: uint32)
    ensures F1(x, y, z) == F(x, y, z)
  {
    hide Bit, And, Or, Xor, Not32;
    forall i | 0 <= i < 32
      ensures Bit(F1(x, y, z), i) == Bit(F(x, y, z), i)
    {
      BitXor(y, z, i);
      BitAnd(x, Xor32(y, z), i);
      BitXor(z, And32(x, Xor32(y, z)), i);
      BitNot32(x, i);
      BitAnd(x, y, i);
      BitAnd(Not32(x), z, i);
      BitOr(And32(x, y), And32(Not32(x), z), i);
    }
    Same32(F1(x, y, z), F(x, y, z));
  }

  lemma {:induction false} SecondForm(x: uint32, y: uint32, z: uint32)
    ensures F2(x, y, z) == G(x, y, z)
  {
    hide Bit, And, Or, Xor, Not32;
    forall i | 0 <= i < 32
      ensures Bit(F2(x, y, z), i) == Bit(G(x, y, z), i)
    {
      BitXor(x, y, i);
      BitAnd(z, Xor32(x, y), i);
      BitXor(y, And32(z, Xor32(x, y)), i);
      BitNot32(z, i);
      BitAnd(x, z, i);
      BitAnd(y, Not32(z), i);
      BitOr(And32(x, z), And32(y, Not32(z)), i);
    }
    Same32(F2(x, y, z), G(x, y, z));
  }

  /** One P is one operation. */
  lemma {:induction false} UnrolledStep(i: nat, s: State, x: seq<uint32>, f: uint32)
    requires |x| == 16 && f == Auxiliary(i, s.b, s.c, s.d)
    ensures P(s.a, s.b, f, x[WordIndex(i)], Rotation(i), SineTable(i)) == Operation(i, s, x)
  {
    hide Auxiliary, WordIndex, Rotation, SineTable, Add32, Or32, Shl32, Shr32;
    SumRegrouped(s.a, f, x[WordIndex(i)], SineTable(i));
    SumSwapped(RotateLeft(Add32(s.a, Add32(Add32(f, x[WordIndex(i)]), SineTable(i))), Rotation(i)), s.b);
  }

  lemma SumSwapped(a: uint32, b: uint32)
    ensures Add32(a, b) == Add32(b, a)
  {
  }

  /** Four operations bring the registers back to their places. */
  lemma {:induction false} FourSteps(i: nat, s: State, x: seq<uint32>, a: uint32, b: uint32, c: uint32, d: uint32)
    requires |x| == 16
    requires a == Operation(i, s, x)
    requires d == Operation(i + 1, State(s.d, a, s.b, s.c), x)
    requires c == Operation(i + 2, State(s.c, d, a, s.b), x)
    requires b == Operation(i + 3, State(s.b, c, d, a), x)
    ensures Run(s, x, i, i + 4) == State(a, b, c, d)
  {
    hide Operation;
    var s1 := State(s.d, a, s.b, s.c);
    var s2 := State(s.c, d, a, s.b);
    var s3 := State(s.b, c, d, a);
    assert Run(s3, x, i + 3, i + 4) == State(a, b, c, d);
    assert Run(s2, x, i + 2, i + 4) == Run(s3, x, i + 3, i + 4);
    assert Run(s1, x, i + 1, i + 4) == Run(s2, x, i + 2, i + 4);
  }

  lemma {:induction false} RunSplit(s: State, x: seq<uint32>, first: nat, mid: nat, last: nat)
    requires |x| == 16 && first <= mid <= last
    ensures Run(s, x, first, last) == Run(Run(s, x, first, mid), x, mid, last)
    decreases mid - first
  {
    hide Operation;
    if first < mid {
      RunSplit(State(s.d, Operation(first, s, x), s.b, s.c), x, first + 1, mid, last);
    }
  }


  /** Four operations of round 1, written out. */
  lemma {:induction false} Round1Quad(i: nat, s: State, x: seq<uint32>, a: uint32, b: uint32, c: uint32, d: uint32)
    requires |x| == 16 && 0 <= i && i + 4 <= 16
    requires a == P(s.a, s.b, F1(s.b, s.c, s.d), x[WordIndex(i)], Rotation(i), SineTable(i))
    requires d == P(s.d, a, F1(a, s.b, s.c), x[WordIndex(i + 1)], Rotation(i + 1), SineTable(i + 1))
    requires c == P(s.c, d, F1(d, a, s.b), x[WordIndex(i + 2)], Rotation(i + 2), SineTable(i + 2))
    requires b == P(s.b, c, F1(c, d, a), x[WordIndex(i + 3)], Rotation(i + 3), SineTable(i + 3))
    ensures Run(s, x, i, i + 4) == State(a, b, c, d)
  {
    hide F1, F, WordIndex, Rotation, SineTable, P, Operation, Run;
    FirstForm(s.b, s.c, s.d);
    FirstForm(a, s.b, s.c);
    FirstForm(d, a, s.b);
    FirstForm(c, d, a);
    UnrolledStep(i, s, x, F1(s.b, s.c, s.d));
    UnrolledStep(i + 1, State(s.d, a, s.b, s.c), x, F1(a, s.b, s.c));
    UnrolledStep(i + 2, State(s.c, d, a, s.b), x, F1(d, a, s.b));
    UnrolledStep(i + 3, State(s.b, c, d, a), x, F1(c, d, a));
    FourSteps(i, s, x, a, b, c, d);
  }

  method Round1(s: State, X: seq<uint32>) returns (A: uint32, B: uint32, C: uint32, D: uint32)
    requires |X| == 16
    ensures State(A, B, C, D) == Run(s, X, 0, 16)
  {
    hide F1, P, Run;
    A, B, C, D := s.a, s.b, s.c, s.d;
    ghost var s0 := s;
    A := P(A, B, F1(B, C, D), X[0], 7, 0xD76AA478);
    D := P(D, A, F1(A, B, C), X[1], 12, 0xE8C7B756);
    C := P(C, D, F1(D, A, B), X[2], 17, 0x242070DB);
    B := P(B, C, F1(C, D, A), X[3], 22, 0xC1BDCEEE);
    Round1Quad(0, s0, X, A, B, C, D);
    ghost var s1 := State(A, B, C, D);
    A := P(A, B, F1(B, C, D), X[4], 7, 0xF57C0FAF);
    D := P(D, A, F1(A, B, C), X[5], 12, 0x4787C62A);
    C := P(C, D, F1(D, A, B), X[6], 17, 0xA8304613);
    B := P(B, C, F1(C, D, A), X[7], 22, 0xFD469501);
    Round1Quad(4, s1, X, A, B, C, D);
    ghost var s2 := State(A, B, C, D);
    RunSplit(s, X, 0, 4, 8);
    A := P(A, B, F1(B, C, D), X[8], 7, 0x698098D8);
    D := P(D, A, F1(A, B, C), X[9], 12, 0x8B44F7AF);
    C := P(C, D, F1(D, A, B), X[10], 17, 0xFFFF5BB1);
    B := P(B, C, F1(C, D, A), X[11], 22, 0x895CD7BE);
    Round1Quad(8, s2, X, A, B, C, D);
    ghost var s3 := State(A, B, C, D);
    RunSplit(s, X, 0, 8, 12);
    A := P(A, B, F1(B, C, D), X[12], 7, 0x6B901122);
    D := P(D, A, F1(A, B, C), X[13], 12, 0xFD987193);
    C := P(C, D, F1(D, A, B), X[14], 17, 0xA679438E);
    B := P(B, C, F1(C, D, A), X[15], 22, 0x49B40821);
    Round1Quad(12, s3, X, A, B, C, D);
    RunSplit(s, X, 0, 12, 16);
  }

  /** Four operations of round 2, written out. */
  lemma {:induction false} Round2Quad(i: nat, s: State, x: seq<uint32>, a: uint32, b: uint32, c: uint32, d: uint32)
    requires |x| == 16 && 16 <= i && i + 4 <= 32
    requires a == P(s.a, s.b, F2(s.b, s.c, s.d), x[WordIndex(i)], Rotation(i), SineTable(i))
    requires d == P(s.d, a, F2(a, s.b, s.c), x[WordIndex(i + 1)], Rotation(i + 1), SineTable(i + 1))
    requires c == P(s.c, d, F2(d, a, s.b), x[WordIndex(i + 2)], Rotation(i + 2), SineTable(i + 2))
    requires b == P(s.b, c, F2(c, d, a), x[WordIndex(i + 3)], Rotation(i + 3), SineTable(i + 3))
    ensures Run(s, x, i, i + 4) == State(a, b, c, d)
  {
    hide F2, G, WordIndex, Rotation, SineTable, P, Operation, Run;
    SecondForm(s.b, s.c, s.d);
    SecondForm(a, s.b, s.c);
    SecondForm(d, a, s.b);
    SecondForm(c, d, a);
    UnrolledStep(i, s, x, F2(s.b, s.c, s.d));
    UnrolledStep(i + 1, State(s.d, a, s.b, s.c), x, F2(a, s.b, s.c));
    UnrolledStep(i + 2, State(s.c, d, a, s.b), x, F2(d, a, s.b));
    UnrolledStep(i + 3, State(s.b, c, d, a), x, F2(c, d, a));
    FourSteps(i, s, x, a, b, c, d);
  }

  method Round2(s: State, X: seq<uint32>) returns (A: uint32, B: uint32, C: uint32, D: uint32)
    requires |X| == 16
    ensures State(A, B, C, D) == Run(s, X, 16, 32)
  {
    hide F2, P, Run;
    A, B, C, D := s.a, s.b, s.c, s.d;
    ghost var s0 := s;
    A := P(A, B, F2(B, C, D), X[1], 5, 0xF61E2562);
    D := P(D, A, F2(A, B, C), X[6], 9, 0xC040B340);
    C := P(C, D, F2(D, A, B), X[11], 14, 0x265E5A51);
    B := P(B, C, F2(C, D, A), X[0], 20, 0xE9B6C7AA);
    Round2Quad(16, s0, X, A, B, C, D);
    ghost var s1 := State(A, B, C, D);
    A := P(A, B, F2(B, C, D), X[5], 5, 0xD62F105D);
    D := P(D, A, F2(A, B, C), X[10], 9, 0x02441453);
    C := P(C, D, F2(D, A, B), X[15], 14, 0xD8A1E681);
    B := P(B, C, F2(C, D, A), X[4], 20, 0xE7D3FBC8);
    Round2Quad(20, s1, X, A, B, C, D);
    ghost var s2 := State(A, B, C, D);
    RunSplit(s, X, 16, 20, 24);
    A := P(A, B, F2(B, C, D), X[9], 5, 0x21E1CDE6);
    D := P(D, A, F2(A, B, C), X[14], 9, 0xC33707D6);
    C := P(C, D, F2(D, A, B), X[3], 14, 0xF4D50D87);
    B := P(B, C, F2(C, D, A), X[8], 20, 0x455A14ED);
    Round2Quad(24, s2, X, A, B, C, D);
    ghost var s3 := State(A, B, C, D);
    RunSplit(s, X, 16, 24, 28);
    A := P(A, B, F2(B, C, D), X[13], 5, 0xA9E3E905);
    D := P(D, A, F2(A, B, C), X[2], 9, 0xFCEFA3F8);
    C := P(C, D, F2(D, A, B), X[7], 14, 0x676F02D9);
    B := P(B, C, F2(C, D, A), X[12], 20, 0x8D2A4C8A);
    Round2Quad(28, s3, X, A, B, C, D);
    RunSplit(s, X, 16, 28, 32);
  }

  /** Four operations of round 3, written out. */
  lemma {:induction false} Round3Quad(i: nat, s: State, x: seq<uint32>, a: uint32, b: uint32, c: uint32, d: uint32)
    requires |x| == 16 && 32 <= i && i + 4 <= 48
    requires a == P(s.a, s.b, F3(s.b, s.c, s.d), x[WordIndex(i)], Rotation(i), SineTable(i))
    requires d == P(s.d, a, F3(a, s.b, s.c), x[WordIndex(i + 1)], Rotation(i + 1), SineTable(i + 1))
    requires c == P(s.c, d, F3(d, a, s.b), x[WordIndex(i + 2)], Rotation(i + 2), SineTable(i + 2))
    requires b == P(s.b, c, F3(c, d, a), x[WordIndex(i + 3)], Rotation(i + 3), SineTable(i + 3))
    ensures Run(s, x, i, i + 4) == State(a, b, c, d)
  {
    hide WordIndex, Rotation, SineTable, P, Operation, Run, Xor32, Or32, Not32;
    UnrolledStep(i, s, x, F3(s.b, s.c, s.d));
    UnrolledStep(i + 1, State(s.d, a, s.b, s.c), x, F3(a, s.b, s.c));
    UnrolledStep(i + 2, State(s.c, d, a, s.b), x, F3(d, a, s.b));
    UnrolledStep(i + 3, State(s.b, c, d, a), x, F3(c, d, a));
    FourSteps(i, s, x, a, b, c, d);
  }

  method Round3(s: State, X: seq<uint32>) returns (A: uint32, B: uint32, C: uint32, D: uint32)
    requires |X| == 16
    ensures State(A, B, C, D) == Run(s, X, 32, 48)
  {
    hide F3, P, Run;
    A, B, C, D := s.a, s.b, s.c, s.d;
    ghost var s0 := s;
    A := P(A, B, F3(B, C, D), X[5], 4, 0xFFFA3942);
    D := P(D, A, F3(A, B, C), X[8], 11, 0x8771F681);
    C := P(C, D, F3(D, A, B), X[11], 16, 0x6D9D6122);
    B := P(B, C, F3(C, D, A), X[14], 23, 0xFDE5380C);
    Round3Quad(32, s0, X, A, B, C, D);
    ghost var s1 := State(A, B, C, D);
    A := P(A, B, F3(B, C, D), X[1], 4, 0xA4BEEA44);
    D := P(D, A, F3(A, B, C), X[4], 11, 0x4BDECFA9);
    C := P(C, D, F3(D, A, B), X[7], 16, 0xF6BB4B60);
    B := P(B, C, F3(C, D, A), X[10], 23, 0xBEBFBC70);
    Round3Quad(36, s1, X, A, B, C, D);
    ghost var s2 := State(A, B, C, D);
    RunSplit(s, X, 32, 36, 40);
    A := P(A, B, F3(B, C, D), X[13], 4, 0x289B7EC6);
    D := P(D, A, F3(A, B, C), X[0], 11, 0xEAA127FA);
    C := P(C, D, F3(D, A, B), X[3], 16, 0xD4EF3085);
    B := P(B, C, F3(C, D, A), X[6], 23, 0x04881D05);
    Round3Quad(40, s2, X, A, B, C, D);
    ghost var s3 := State(A, B, C, D);
    RunSplit(s, X, 32, 40, 44);
    A := P(A, B, F3(B, C, D), X[9], 4, 0xD9D4D039);
    D := P(D, A, F3(A, B, C), X[12], 11, 0xE6DB99E5);
    C := P(C, D, F3(D, A, B), X[15], 16, 0x1FA27CF8);
    B := P(B, C, F3(C, D, A), X[2], 23, 0xC4AC5665);
    Round3Quad(44, s3, X, A, B, C, D);
    RunSplit(s, X, 32, 44, 48);
  }

  /** Four operations of round 4, written out. */
  lemma {:induction false} Round4Quad(i: nat, s: State, x: seq<uint32>, a: uint32, b: uint32, c: uint32, d: uint32)
    requires |x| == 16 && 48 <= i && i + 4 <= 64
    requires a == P(s.a, s.b, F4(s.b, s.c, s.d), x[WordIndex(i)], Rotation(i), SineTable(i))
    requires d == P(s.d, a, F4(a, s.b, s.c), x[WordIndex(i + 1)], Rotation(i + 1), SineTable(i + 1))
    requires c == P(s.c, d, F4(d, a, s.b), x[WordIndex(i + 2)], Rotation(i + 2), SineTable(i + 2))
    requires b == P(s.b, c, F4(c, d, a), x[WordIndex(i + 3)], Rotation(i + 3), SineTable(i + 3))
    ensures Run(s, x, i, i + 4) == State(a, b, c, d)
  {
    hide WordIndex, Rotation, SineTable, P, Operation, Run, Xor32, Or32, Not32;
    UnrolledStep(i, s, x, F4(s.b, s.c, s.d));
    UnrolledStep(i + 1, State(s.d, a, s.b, s.c), x, F4(a, s.b, s.c));
    UnrolledStep(i + 2, State(s.c, d, a, s.b), x, F4(d, a, s.b));
    UnrolledStep(i + 3, State(s.b, c, d, a), x, F4(c, d, a));
    FourSteps(i, s, x, a, b, c, d);
  }

  method Round4(s: State, X: seq<uint32>) returns (A: uint32, B: uint32, C: uint32, D: uint32)
    requires |X| == 16
    ensures State(A, B, C, D) == Run(s, X, 48, 64)
  {
    hide F4, P, Run;
    A, B, C, D := s.a, s.b, s.c, s.d;
    ghost var s0 := s;
    A := P(A, B, F4(B, C, D), X[0], 6, 0xF4292244);
    D := P(D, A, F4(A, B, C), X[7], 10, 0x432AFF97);
    C := P(C, D, F4(D, A, B), X[14], 15, 0xAB9423A7);
    B := P(B, C, F4(C, D, A), X[5], 21, 0xFC93A039);
    Round4Quad(48, s0, X, A, B, C, D);
    ghost var s1 := State(A, B, C, D);
    A := P(A, B, F4(B, C, D), X[12], 6, 0x655B59C3);
    D := P(D, A, F4(A, B, C), X[3], 10, 0x8F0CCC92);
    C := P(C, D, F4(D, A, B), X[10], 15, 0xFFEFF47D);
    B := P(B, C, F4(C, D, A), X[1], 21, 0x85845DD1);
    Round4Quad(52, s1, X, A, B, C, D);
    ghost var s2 := State(A, B, C, D);
    RunSplit(s, X, 48, 52, 56);
    A := P(A, B, F4(B, C, D), X[8], 6, 0x6FA87E4F);
    D := P(D, A, F4(A, B, C), X[15], 10, 0xFE2CE6E0);
    C := P(C, D, F4(D, A, B), X[6], 15, 0xA3014314);
    B := P(B, C, F4(C, D, A), X[13], 21, 0x4E0811A1);
    Round4Quad(56, s2, X, A, B, C, D);
    ghost var s3 := State(A, B, C, D);
    RunSplit(s, X, 48, 56, 60);
    A := P(A, B, F4(B, C, D), X[4], 6, 0xF7537E82);
    D := P(D, A, F4(A, B, C), X[11], 10, 0xBD3AF235);
    C := P(C, D, F4(D, A, B), X[2], 15, 0x2AD7D2BB);
    B := P(B, C, F4(C, D, A), X[9], 21, 0xEB86D391);
    Round4Quad(60, s3, X, A, B, C, D);
    RunSplit(s, X, 48, 60, 64);
  }

  /** md5_process: the four unrolled rounds over the words of one block. */
  method Process(state: State, data: seq<byte>) returns (next: State)
    requires |data| == 64
    ensures next == Compress(state, data)
  {
    hide Run, BlockWord, Or32, Shl32;
    var X: seq<uint32> := seq(16, k requires 0 <= k < 16 => GetUint32(data, 4 * k));
    forall k | 0 <= k < 16
      ensures X[k] == BlockWord(data, k)
    {
      GetUint32Is(data, k);
    }
    assert X == BlockWords(data);
    var A, B, C, D := Round1(state, X);
    RunSplit(state, X, 0, 16, 64);
    ghost var s1 := State(A, B, C, D);
    A, B, C, D := Round2(State(A, B, C, D), X);
    RunSplit(s1, X, 16, 32, 64);
    ghost var s2 := State(A, B, C, D);
    A, B, C, D := Round3(State(A, B, C, D), X);
    RunSplit(s2, X, 32, 48, 64);
    A, B, C, D := Round4(State(A, B, C, D), X);
    next := State(Add32(state.a, A), Add32(state.b, B), Add32(state.c, C), Add32(state.d, D));
  }
}
