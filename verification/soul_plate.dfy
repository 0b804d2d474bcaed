/** Soul plate names: eight-bit characters squeezed to seven bits by a hand-rolled shift schedule, and read back. */
module SoulPlate {
  import opened Words
  import opened Bits
  import opened NameCodecs

  const NAME_LIMIT: nat := 15
  const PLATE_BYTES: nat := 14
  const PLATE_CHARS: nat := 16

  function WithoutUnderscores(name: seq<byte>): (r: seq<byte>)
    ensures |r| <= |name|
    ensures forall c: byte :: c in r <==> c in name && c != 0x5F
  {
    if name == [] then []
    else (if name[0] == '_' as int then [] else [name[0]]) + WithoutUnderscores(name[1..])
  }

  /** The characters put on the plate: the name cut to the limit first, then stripped of underscores. */
  function PlateName(name: seq<byte>): (r: seq<byte>)
    ensures |r| <= NAME_LIMIT
  {
    WithoutUnderscores(Prefix(name, NAME_LIMIT))
  }

  /** Order and repetition stay: what is stripped of two names is stripped of their concatenation. */
  lemma {:induction false} StrippedJoin(a: seq<byte>, b: seq<byte>)
    ensures WithoutUnderscores(a + b) == WithoutUnderscores(a) + WithoutUnderscores(b)
  {
    if a == [] {
      assert a + b == b;
    } else {
      assert (a + b)[1..] == a[1..] + b;
      StrippedJoin(a[1..], b);
    }
  }

  lemma StrippedOne(c: byte)
    ensures WithoutUnderscores([c]) == if c == 0x5F then [] else [c]
  {
    assert [c][1..] == [];
  }

  lemma {:induction false} StrippedNothing(name: seq<byte>)
    requires 0x5F !in name
    ensures WithoutUnderscores(name) == name
  {
    if name != [] {
      StrippedNothing(name[1..]);
      assert name == [name[0]] + name[1..];
    }
  }

  /**
   * The cut to fifteen comes first, and underscores count toward it: a name without any there keeps its first fifteen
   * characters, and an underscore among them, between a part without and the rest, is left out in its place.
   */
  lemma {:induction false} PlateNameIs(name: seq<byte>, a: seq<byte>, b: seq<byte>)
    ensures var cut := if |name| <= 15 then name else name[..15];
            && (0x5F !in cut ==> PlateName(name) == cut)
            && (cut == a + [0x5F] + b && 0x5F !in a ==> PlateName(name) == a + WithoutUnderscores(b))
            && (cut == a + [0x5F] + b && 0x5F !in a + b ==> PlateName(name) == a + b)
  {
    hide WithoutUnderscores;
    var cut := if |name| <= 15 then name else name[..15];
    assert Prefix(name, 15) == cut;
    if 0x5F !in cut {
      StrippedNothing(cut);
    }
    if 0x5F !in a {
      StrippedNothing(a);
      StrippedOne(0x5F);
      StrippedJoin(a, [0x5F]);
      StrippedJoin(a + [0x5F], b);
      if 0x5F !in a + b {
        StrippedNothing(b);
      }
    }
  }

  function CharAt(name: seq<byte>, i: nat): byte {
    if i < |name| then name[i] else 0
  }

  /** Byte `k` of the plate: seven bytes hold eight characters, so its first character is number k + k / 7. */
  function PlateByte(name: seq<byte>, k: nat): byte {
    var left := Low(Shl(CharAt(name, k + k / 7), k % 7 + 1), 8);
    var right := Shr(CharAt(name, k + k / 7 + 1), 6 - k % 7);
    ByteSize();
    LowBound(Or(left, right), 8);
    Low(Or(left, right), 8)
  }

  function Plate(name: seq<byte>): (bs: seq<byte>)
    ensures |bs| == PLATE_BYTES && forall k | 0 <= k < PLATE_BYTES :: bs[k] == PlateByte(name, k)
  {
    seq(PLATE_BYTES, k requires 0 <= k < PLATE_BYTES => PlateByte(name, k))
  }

  /** The `n` low digits of `x` are those of `y` moved up by `j`. */
  predicate Moved(x: nat, y: nat, j: nat, n: nat) {
    forall b | 0 <= b < n :: Bit(x, b) == (j <= b && Bit(y, b - j))
  }

  /** The inner loop: a one-bit shift at a time, clearing bit 7 except after the last. */
  method ShiftLeftClearing(current: byte, shift: nat) returns (tempLeft: byte)
    requires 1 <= shift <= 7
    ensures tempLeft == Low(Shl(current, shift), 8)
  {
    hide *;
    tempLeft := current;
    var j := 0;
    UnmovedYet(current);
    while j < shift
      invariant 0 <= j <= shift
      invariant Moved(tempLeft, current, j, if j == shift then 8 else 7)
    {
      ByteSize();
      LowBound(Shl(tempLeft, 1), 8);
      MovedOnce(tempLeft, current, j);
      tempLeft := Low(Shl(tempLeft, 1), 8);
      if j + 1 != shift && And(tempLeft, 128) != 0 {
        ClearTopBit(tempLeft, current, j + 1);
        tempLeft := Xor(tempLeft, 128);
      }
      MovedLess(tempLeft, current, j + 1);
      j := j + 1;
    }
    MovedAll(tempLeft, current, shift);
  }

  lemma UnmovedYet(x: nat)
    ensures Moved(x, x, 0, 7)
  {
  }

  lemma MovedLess(x: nat, y: nat, j: nat)
    ensures Moved(x, y, j, 8) ==> Moved(x, y, j, 7)
  {
  }

  lemma {:induction false} MovedOnce(x: nat, y: nat, j: nat)
    requires Moved(x, y, j, 7)
    ensures Moved(Low(Shl(x, 1), 8), y, j + 1, 8)
  {
    hide Bit, Shl, Low;
    forall b | 0 <= b < 8
      ensures Bit(Low(Shl(x, 1), 8), b) == (j + 1 <= b && Bit(y, b - (j + 1)))
    {
      BitLow(Shl(x, 1), 8, b);
      BitShl(x, 1, b);
      if b >= 1 {
        assert Bit(x, b - 1) == (j <= b - 1 && Bit(y, b - 1 - j));
      }
    }
  }

  lemma {:induction false} MovedAll(x: byte, y: nat, j: nat)
    requires Moved(x, y, j, 8)
    ensures x == Low(Shl(y, j), 8)
  {
    hide Bit, Shl, Low, Pow2;
    ByteSize();
    LowBound(Shl(y, j), 8);
    forall b | 0 <= b < 8
      ensures Bit(x, b) == Bit(Low(Shl(y, j), 8), b)
    {
      BitLow(Shl(y, j), 8, b);
      BitShl(y, j, b);
    }
    DigitsDetermine(x, Low(Shl(y, j), 8), 8);
  }

  lemma {:induction false} ClearTopBit(x: byte, y: nat, j: nat)
    requires Moved(x, y, j, 8)
    ensures Xor(x, 128) < 256 && Moved(Xor(x, 128), y, j, 7)
  {
    hide Bit, Xor, Pow2;
    ByteSize();
    forall i: nat
      ensures Bit(Xor(x, 128), i) == (Bit(x, i) != (i == 7))
      ensures i >= 8 ==> !Bit(x, i)
    {
      BitXor(x, 128, i);
      TopBit(i);
      if i >= 8 {
        BitAbove(x, 8, i);
      }
    }
    BelowPow2(Xor(x, 128), 8);
  }

  lemma {:induction false} TopBit(i: nat)
    ensures Bit(128, i) == (i == 7)
  {
    assert Shl(1, 7) == 128;
    BitShl(1, 7, i);
    if i > 7 {
      BitAbove(1, 1, i - 7);
    }
  }

  /** The cut, and then the removal of underscores. */
  method StripName(name: seq<byte>) returns (text: seq<byte>)
    ensures text == PlateName(name)
  {
    hide WithoutUnderscores;
    var cut := if |name| > 15 then name[..15] else name;
    text := [];
    StrippedNothing([]);
    for n := 0 to |cut|
      invariant text == WithoutUnderscores(cut[..n])
    {
      assert cut[..n + 1] == cut[..n] + [cut[n]];
      StrippedJoin(cut[..n], [cut[n]]);
      StrippedOne(cut[n]);
      if cut[n] != '_' as int {
        text := text + [cut[n]];
      }
    }
    assert cut[..|cut|] == cut == Prefix(name, NAME_LIMIT);
  }

  method PackSoultrapperName(name: seq<byte>, output: array<byte>)
    requires output.Length >= 14
    modifies output
    ensures output[..14] == Plate(PlateName(name))
    ensures output[14..] == old(output[14..])
  {
    hide Shl, Shr, Low, Or, Pow2, WithoutUnderscores;
    var text := StripName(name);
    var shift, loops, total, maxSize := 1, 0, |text|, 15;
    var i := 0;
    ghost var k := 0;
    while i <= maxSize
      invariant k <= PLATE_BYTES && i == k + k / 7 && loops == k / 7 && shift == k % 7 + 1
      invariant forall q | 0 <= q < k :: output[q] == PlateByte(text, q)
      invariant output[PLATE_BYTES..] == old(output[PLATE_BYTES..])
      decreases PLATE_BYTES - k
    {
      var current := if i < total then text[i] else 0;
      var next := if i + 1 < total then text[i + 1] else 0;
      var tempLeft := ShiftLeftClearing(current, shift);
      var tempRight := Shr(next, 7 - shift);
      ByteSize();
      LowBound(Or(tempLeft, tempRight), 8);
      output[i - loops] := Low(Or(tempLeft, tempRight), 8);
      assert output[k] == PlateByte(text, k);
      if shift == 7 {
        shift := 1;
        loops := loops + 1;
        i := i + 1;
      } else {
        shift := shift + 1;
      }
      i := i + 1;
      k := k + 1;
    }
  }

  /** A byte of 128 or more spills its top bit into the character before it, except into every eighth. */
  predicate Spills(name: seq<byte>, i: nat) {
    CharAt(name, i + 1) >= 128 && (i + 1) % 8 != 0
  }

  /** Character `i` as the plate holds it: seven bits, the lowest also set by a spill from the next. */
  function StoredChar(name: seq<byte>, i: nat): (c: byte)
    ensures c < 128
  {
    SevenBits();
    LowBound(Or(CharAt(name, i), if Spills(name, i) then 1 else 0), 7);
    Low(Or(CharAt(name, i), if Spills(name, i) then 1 else 0), 7)
  }

  lemma {:induction false} StoredBit(name: seq<byte>, i: nat, t: nat)
    requires t < 7
    ensures Bit(StoredChar(name, i), t) == (Bit(CharAt(name, i), t) || (t == 0 && Spills(name, i)))
  {
    var spill := if Spills(name, i) then 1 else 0;
    SevenBits();
    if t > 0 {
      BitAbove(1, 1, t);
    }
    BitZero(t);
    hide Bit, Or, Low, Spills;
    BitLow(Or(CharAt(name, i), spill), 7, t);
    BitOr(CharAt(name, i), spill, t);
  }

  /** With no byte of 128 or more about, a character is stored as it is. */
  lemma {:induction false} StoredPlain(name: seq<byte>, i: nat)
    requires CharAt(name, i) < 128 && CharAt(name, i + 1) < 128
    ensures StoredChar(name, i) == CharAt(name, i)
  {
    hide Bit, Or, Low, StoredChar;
    SevenBits();
    forall t | 0 <= t < 7
      ensures Bit(StoredChar(name, i), t) == Bit(CharAt(name, i), t)
    {
      StoredBit(name, i, t);
    }
    DigitsDetermine(StoredChar(name, i), CharAt(name, i), 7);
  }

  /** The plate read high bit first is the stored characters, seven bits each, zero-filled to sixteen. */
  lemma {:induction false} PlateIsSevenBitStream(name: seq<byte>, j: nat)
    requires j < 8 * PLATE_BYTES
    ensures MsbBits(Plate(name))[j] == Bit(StoredChar(name, j / 7), 6 - j % 7)
  {
    hide Bit, Shl, Shr, Low, Or, Pow2, MsbBits, StoredChar;
    var k := j / 8;
    var b := 7 - j % 8;
    var left, right := CharAt(name, k + k / 7), CharAt(name, k + k / 7 + 1);
    var shift := k % 7 + 1;
    MsbBitsAt(Plate(name), j);
    BitLow(Or(Low(Shl(left, shift), 8), Shr(right, 7 - shift)), 8, b);
    BitOr(Low(Shl(left, shift), 8), Shr(right, 7 - shift), b);
    BitLow(Shl(left, shift), 8, b);
    BitShl(left, shift, b);
    BitShr(right, 7 - shift, b);
    PlateIndex(j);
    StoredBit(name, j / 7, 6 - j % 7);
    SpillIndex(k);
    TopDigit(right);
    if b > shift {
      ByteSize();
      BitAbove(right, 8, b + (7 - shift));
    }
  }

  /** Bit 7 of a byte. */
  lemma TopDigit(c: byte)
    ensures Bit(c, 7) == (c >= 128)
  {
    ByteSize();
    SevenBits();
    hide Bit, Pow2;
    if c < 128 {
      BitAbove(c, 7, 7);
    } else {
      BitComplement(c, 8, 7);
      BitAbove(255 - c, 7, 7);
    }
  }

  /** The character after plate byte `k`'s first is an eighth one exactly at the seventh byte, whose second it is. */
  lemma SpillIndex(k: nat)
    ensures (k + k / 7 + 1) % 8 != 0
    ensures (k + k / 7 + 2) % 8 == 0 <==> k % 7 == 6
  {
    var g, r := k / 7, k % 7;
    assert k + k / 7 + 1 == 8 * g + (r + 1);
  }

  /**
   * Where bit `j` of the stream lives: character and digit of the seven-bit layout against byte and bit of the
   * plate.
   */
  lemma {:induction false} PlateIndex(j: nat)
    requires j < 8 * PLATE_BYTES
    ensures var k, b := j / 8, 7 - j % 8; var shift := k % 7 + 1;
            if b >= shift then j / 7 == k + k / 7 && 6 - j % 7 == b - shift
            else j / 7 == k + k / 7 + 1 && 6 - j % 7 == b + (7 - shift)
  {
    var k, b := j / 8, 7 - j % 8;
    var g, r := k / 7, k % 7;
    assert j == 56 * g + 8 * r + (7 - b);
    if b >= r + 1 {
      assert j == 7 * (8 * g + r) + (r + 7 - b);
    } else {
      assert j == 7 * (8 * g + r + 1) + (r - b);
    }
  }

  /** Seven-bit character `i` of a plate. */
  function PlateChar(input: seq<byte>, i: nat): (c: byte)
    requires 7 * i + 7 <= 8 * |input|
    ensures c < 128
  {
    var digits := seq(7, t requires 0 <= t < 7 => MsbBits(input)[7 * i + 6 - t]);
    DigitsBound(digits);
    assert Pow2(7) == 128;
    FromLsb(digits)
  }

  lemma {:induction false} PlateCharIs(input: seq<byte>, i: nat, c: nat)
    requires 7 * i + 7 <= 8 * |input| && c < 128
    requires forall t | 0 <= t < 7 :: MsbBits(input)[7 * i + 6 - t] == Bit(c, t)
    ensures PlateChar(input, i) == c
  {
    hide Bit, MsbBits, FromLsb;
    assert Pow2(7) == 128;
    var digits := seq(7, t requires 0 <= t < 7 => MsbBits(input)[7 * i + 6 - t]);
    forall t | 0 <= t < 7
      ensures Bit(PlateChar(input, i), t) == Bit(c, t)
    {
      FromLsbBit(digits, t);
    }
    DigitsDetermine(PlateChar(input, i), c, 7);
  }

  predicate Displayable(c: byte) {
    '0' as int <= c <= 'z' as int
  }

  /** The longest displayable run of characters from number `i` on. */
  function UnpackFrom(input: seq<byte>, i: nat): (r: seq<byte>)
    requires |input| == PLATE_BYTES && i <= PLATE_CHARS
    decreases PLATE_CHARS - i
  {
    if i == PLATE_CHARS || !Displayable(PlateChar(input, i)) then []
    else [PlateChar(input, i)] + UnpackFrom(input, i + 1)
  }

  /** Bits of the plate not yet consumed, as the decoder keeps them: the top `bitsLeft` bits of `current`. */
  predicate Pending(input: seq<byte>, pos: nat, bitsLeft: nat, current: nat) {
    && pos <= |input| && bitsLeft <= 8 && bitsLeft <= 8 * pos
    && forall b | 8 - bitsLeft <= b < 8 :: Bit(current, b) == MsbBits(input)[8 * pos - bitsLeft + (7 - b)]
  }

  lemma {:induction false} PendingFresh(input: seq<byte>, pos: nat)
    requires pos < |input|
    ensures Pending(input, pos + 1, 8, input[pos])
  {
    hide Bit, MsbBits;
    var next := input[pos];
    forall b | 0 <= b < 8
      ensures Bit(next, b) == MsbBits(input)[8 * pos + (7 - b)]
    {
      MsbBitsAt(input, 8 * pos + (7 - b));
    }
  }

  lemma {:induction false} PendingShift(input: seq<byte>, pos: nat, bitsLeft: nat, current: nat)
    requires Pending(input, pos, bitsLeft, current) && bitsLeft > 0
    ensures Pending(input, pos, bitsLeft - 1, Low(Shl(current, 1), 8))
    ensures (And(current, 0x80) != 0) == MsbBits(input)[8 * pos - bitsLeft]
  {
    hide Bit, MsbBits, Low, Shl, And;
    forall b | 8 - (bitsLeft - 1) <= b < 8
      ensures Bit(Low(Shl(current, 1), 8), b) == MsbBits(input)[8 * pos - (bitsLeft - 1) + (7 - b)]
    {
      BitLow(Shl(current, 1), 8, b);
      BitShl(current, 1, b);
      assert Bit(current, b - 1) == MsbBits(input)[8 * pos - bitsLeft + (7 - (b - 1))];
    }
    TestTopBit(current);
  }

  lemma {:induction false} TestTopBit(x: nat)
    ensures (And(x, 0x80) != 0) == Bit(x, 7)
  {
    hide Bit, And;
    forall i: nat
      ensures Bit(And(x, 0x80), i) == (i == 7 && Bit(x, i))
    {
      BitAnd(x, 0x80, i);
      TopBit(i);
    }
    BitZero(7);
    if And(x, 0x80) != 0 && !Bit(x, 7) {
      forall i: nat
        ensures Bit(And(x, 0x80), i) == Bit(0, i)
      {
        BitZero(i);
      }
      WordExtensionality(And(x, 0x80), 0);
    }
  }

  method UnpackSoultrapperName(input: seq<byte>) returns (output: seq<byte>)
    requires |input| >= 14
    ensures output == UnpackFrom(input[..14], 0)
  {
    hide Bit, MsbBits, Low, Shl, And, Or, PlateChar, Pending, ReadSoFar, UnpackFrom;
    var plate := input[..PLATE_BYTES];
    output := [];
    var bitsLeft, current: nat, pos := 0, 0, 0;
    PendingStart(plate);
    while true
      invariant |output| <= PLATE_CHARS && Pending(plate, pos, bitsLeft, current) && pos <= PLATE_BYTES
      invariant 8 * pos - bitsLeft == 7 * |output|
      invariant UnpackFrom(plate, 0) == output + UnpackFrom(plate, |output|)
      decreases PLATE_CHARS - |output|
    {
      var c: nat := 0;
      var bit := 6;
      ReadNothing(plate, |output|);
      while bit >= 0
        invariant -1 <= bit <= 6 && Pending(plate, pos, bitsLeft, current) && pos <= PLATE_BYTES
        invariant 8 * pos - bitsLeft == 7 * |output| + (6 - bit)
        invariant bit < 6 ==> |output| < PLATE_CHARS
        invariant ReadSoFar(plate, |output|, bit, c)
      {
        if bitsLeft == 0 {
          if pos >= PLATE_BYTES {
            assert |output| == PLATE_CHARS;
            UnpackEnd(plate);
            assert output + [] == output;
            return;
          }
          current := input[pos];
          PendingFresh(plate, pos);
          pos := pos + 1;
          bitsLeft := 8;
        }
        PendingShift(plate, pos, bitsLeft, current);
        PendingBound(plate, pos, bitsLeft, current);
        ReadOneMore(plate, |output|, bit, c, And(current, 0x80) != 0);
        if And(current, 0x80) != 0 {
          c := Or(c, Shl(1, bit));
        }
        current := Low(Shl(current, 1), 8);
        bitsLeft := bitsLeft - 1;
        bit := bit - 1;
      }
      ReadAll(plate, |output|, c);
      UnpackUnfold(plate, |output|);
      if c == 0 || c < '0' as int || c > 'z' as int {
        break;
      }
      output := output + [c];
    }
  }

  lemma UnpackEnd(input: seq<byte>)
    requires |input| == PLATE_BYTES
    ensures UnpackFrom(input, PLATE_CHARS) == []
  {
  }

  lemma UnpackUnfold(input: seq<byte>, i: nat)
    requires |input| == PLATE_BYTES && i < PLATE_CHARS
    ensures var c := PlateChar(input, i);
            UnpackFrom(input, i) ==
            if c == 0 || c < '0' as int || c > 'z' as int then [] else [c] + UnpackFrom(input, i + 1)
  {
  }

  lemma PendingStart(input: seq<byte>)
    ensures Pending(input, 0, 0, 0)
  {
  }

  lemma PendingBound(input: seq<byte>, pos: nat, bitsLeft: nat, current: nat)
    requires Pending(input, pos, bitsLeft, current)
    ensures bitsLeft <= 8 * pos <= 8 * |input|
  {
  }

  /** The digits of character `i` above `bit` are in `c`, and nothing else is. */
  predicate ReadSoFar(input: seq<byte>, i: nat, bit: int, c: nat)
    requires -1 <= bit <= 6
  {
    && (bit < 6 ==> 7 * i + 6 - bit <= 8 * |input|)
    && c < 128
    && forall t | 0 <= t < 7 :: Bit(c, t) == (t > bit && 7 * i + 6 - t < 8 * |input| && MsbBits(input)[7 * i + 6 - t])
  }

  lemma {:induction false} ReadNothing(input: seq<byte>, i: nat)
    ensures ReadSoFar(input, i, 6, 0)
  {
    hide Bit;
    forall t | 0 <= t < 7
      ensures !Bit(0, t)
    {
      BitZero(t);
    }
  }

  lemma {:induction false} ReadOneMore(input: seq<byte>, i: nat, bit: nat, c: nat, b: bool)
    requires bit <= 6 && ReadSoFar(input, i, bit, c)
    requires 7 * i + 6 - bit < 8 * |input| && b == MsbBits(input)[7 * i + 6 - bit]
    ensures ReadSoFar(input, i, bit - 1, if b then Or(c, Shl(1, bit)) else c)
  {
    hide Bit, MsbBits, Or, Shl, Pow2;
    if b {
      assert Pow2(7) == 128 && Pow2(1) == 2 && Bit(1, 0) by { SevenBits(); }
      forall t: nat
        ensures Bit(Or(c, Shl(1, bit)), t) == (Bit(c, t) || t == bit)
        ensures t >= 7 ==> !Bit(c, t)
      {
        BitOr(c, Shl(1, bit), t);
        BitShl(1, bit, t);
        if t > bit {
          BitAbove(1, 1, t - bit);
        }
        if t >= 7 {
          BitAbove(c, 7, t);
        }
      }
      BelowPow2(Or(c, Shl(1, bit)), 7);
    }
  }

  lemma SevenBits()
    ensures Pow2(7) == 128 && Pow2(1) == 2 && Bit(1, 0)
  {
  }

  lemma {:induction false} ReadAll(input: seq<byte>, i: nat, c: nat)
    requires ReadSoFar(input, i, -1, c)
    ensures 7 * i + 7 <= 8 * |input| && c == PlateChar(input, i)
  {
    hide Bit, MsbBits, PlateChar;
    PlateCharIs(input, i, c);
  }

  /** The characters before the first one that is not displayable. */
  function DisplayableRun(name: seq<byte>): seq<byte> {
    if name == [] || !Displayable(name[0]) then [] else [name[0]] + DisplayableRun(name[1..])
  }

  /** A name as the plate holds it. */
  function StoredName(name: seq<byte>): (s: seq<byte>)
    ensures |s| == |name| && forall i | 0 <= i < |name| :: s[i] == StoredChar(name, i)
  {
    seq(|name|, i requires 0 <= i < |name| => StoredChar(name, i))
  }

  lemma {:induction false} UnpackFollowsName(name: seq<byte>, i: nat)
    requires i <= |name| <= NAME_LIMIT
    ensures UnpackFrom(Plate(name), i) == DisplayableRun(StoredName(name)[i..])
    decreases |name| - i
  {
    hide Plate, PlateChar, Bit, MsbBits, StoredChar;
    forall t | 0 <= t < 7
      ensures MsbBits(Plate(name))[7 * i + 6 - t] == Bit(StoredChar(name, i), t)
    {
      var j := 7 * i + 6 - t;
      assert j / 7 == i && 6 - j % 7 == t;
      PlateIsSevenBitStream(name, j);
    }
    PlateCharIs(Plate(name), i, StoredChar(name, i));
    if i < |name| {
      assert StoredName(name)[i..][1..] == StoredName(name)[i + 1..];
      UnpackFollowsName(name, i + 1);
    } else {
      StoredPlain(name, i);
    }
  }

  /** Packing any name and reading its plate gives the displayable run of the name as cut, stripped and stored. */
  lemma {:induction false} PlateRoundTrip(name: seq<byte>)
    ensures var text := PlateName(name);
            && UnpackFrom(Plate(text), 0) == DisplayableRun(StoredName(text))
            && (0x5F !in Prefix(name, 15) ==> text == Prefix(name, 15))
            && ((forall i | 0 <= i < |text| :: text[i] < 128) ==> StoredName(text) == text)
  {
    hide Plate, WithoutUnderscores, StoredChar;
    var text := PlateName(name);
    PlateNameIs(name, [], []);
    UnpackFollowsName(text, 0);
    assert StoredName(text)[0..] == StoredName(text);
    if forall i | 0 <= i < |text| :: text[i] < 128 {
      forall i | 0 <= i < |text|
        ensures StoredName(text)[i] == text[i]
      {
        StoredPlain(text, i);
      }
    }
  }

  /** For every name, nothing is lost exactly when every kept character is displayable. */
  lemma {:induction false} PlateSurvivesIff(name: seq<byte>)
    ensures UnpackFrom(Plate(PlateName(name)), 0) == PlateName(name) <==>
            forall i | 0 <= i < |PlateName(name)| :: Displayable(PlateName(name)[i])
  {
    hide Plate, WithoutUnderscores, UnpackFrom;
    PlateRoundTrip(name);
    RunIsDisplayable(StoredName(PlateName(name)));
    if forall i | 0 <= i < |PlateName(name)| :: Displayable(PlateName(name)[i]) {
      RunOfDisplayable(PlateName(name));
    }
  }

  lemma {:induction false} RunIsDisplayable(name: seq<byte>)
    ensures forall i | 0 <= i < |DisplayableRun(name)| :: Displayable(DisplayableRun(name)[i])
  {
    if name != [] {
      RunIsDisplayable(name[1..]);
    }
  }

  lemma {:induction false} RunOfDisplayable(name: seq<byte>)
    requires forall i | 0 <= i < |name| :: Displayable(name[i])
    ensures DisplayableRun(name) == name
  {
    if name != [] {
      RunOfDisplayable(name[1..]);
    }
  }
}
