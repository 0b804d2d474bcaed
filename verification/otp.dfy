/** One-time passwords: Base32 secrets (section 6 of RFC 4648) and the truncation of section 5.3 of RFC 4226. */
module Otp {
  import opened Words
  import opened Bits
  import opened Numerals

  datatype Result<T> = Ok(value: T) | InvalidCharacter

  // ---- Base32 ---------------------------------------------------------------------------------

  predicate IsSeparator(c: byte) {
    c == '=' as int || c == ' ' as int || c == '-' as int || c == '_' as int
  }

  function ToUpper(c: byte): byte {
    if 'a' as int <= c <= 'z' as int then c - 32 else c
  }

  /** The lookup table: -1 for characters outside the alphabet. */
  function Lookup(c: byte): (v: int)
    ensures -1 <= v < 32
  {
    if 'A' as int <= c <= 'Z' as int then c - 'A' as int
    else if '2' as int <= c <= '7' as int then 26 + (c - '2' as int)
    else -1
  }

  /** Section 6 of RFC 4648: A to Z are 0 to 25, 2 to 7 are 26 to 31; lower case is taken for upper case. */
  function Base32Value(c: byte): (v: int)
    ensures -1 <= v < 32
  {
    if 0x41 <= c <= 0x5A then c - 0x41
    else if 0x61 <= c <= 0x7A then c - 0x61
    else if 0x32 <= c <= 0x37 then c - 0x18
    else -1
  }

  lemma LookupIs(c: byte)
    ensures Lookup(ToUpper(c)) == Base32Value(c)
    ensures IsSeparator(c) <==> c in {0x3D, 0x20, 0x2D, 0x5F}
  {
  }

  /** The five-bit values of a string, separators skipped. */
  function Values(s: seq<byte>): (r: Result<seq<nat>>) {
    if s == [] then Ok([])
    else
      var rest := Values(s[..|s| - 1]);
      var c := s[|s| - 1];
      if rest.InvalidCharacter? || c in {0x3D, 0x20, 0x2D, 0x5F} then rest
      else if Base32Value(c) == -1 then InvalidCharacter
      else Ok(rest.value + [Base32Value(c)])
  }

  /** An invalid character makes the whole string invalid. */
  lemma {:induction false} InvalidPrefix(s: seq<byte>, i: nat)
    requires i <= |s| && Values(s[..i]).InvalidCharacter?
    ensures Values(s).InvalidCharacter?
    decreases |s|
  {
    if i < |s| {
      assert s[..|s| - 1][..i] == s[..i];
      InvalidPrefix(s[..|s| - 1], i);
    } else {
      assert s[..i] == s;
    }
  }

  /** Five bits a value, high bit first. */
  function ValueBits(vs: seq<nat>): (b: seq<bool>)
    ensures |b| == 5 * |vs|
  {
    seq(5 * |vs|, i requires 0 <= i < 5 * |vs| => Bit(vs[i / 5], 4 - i % 5))
  }

  /** The whole bytes of the values' bits: the last `5 * |vs| % 8` bits are dropped. */
  function SecretBytes(vs: seq<nat>): seq<byte> {
    FromMsbBits(ValueBits(vs)[..8 * (5 * |vs| / 8)])
  }

  /** `>>` on a 32-bit two's complement int, on its bit pattern. */
  function Asr32(x: nat, n: nat): nat
    requires x < 0x1_0000_0000
  {
    if x < 0x8000_0000 then Shr(x, n)
    else
      ShrBelow(0xFFFF_FFFF - x, n);
      0xFFFF_FFFF - Shr(0xFFFF_FFFF - x, n)
  }

  lemma {:induction false} BitAsr32(x: nat, n: nat, i: nat)
    requires x < 0x1_0000_0000 && i + n < 32
    ensures Bit(Asr32(x, n), i) == Bit(x, i + n)
  {
    hide Bit, Shr, Pow2;
    WordSizes();
    if x < 0x8000_0000 {
      BitShr(x, n, i);
    } else {
      var y := 0xFFFF_FFFF - x;
      ShrBelow(y, n);
      BitComplement(Shr(y, n), 32, i);
      BitShr(y, n, i);
      BitComplement(x, 32, i + n);
    }
  }

  /** The accumulator's `left` low bits are the last bits of the values read so far; above them is anything. */
  predicate Accumulated(buffer: nat, left: nat, vs: seq<nat>) {
    && left <= 5 * |vs|
    && forall b | 0 <= b < left :: Bit(buffer, b) == ValueBits(vs)[5 * |vs| - 1 - b]
  }

  lemma {:induction false} Accumulate(buffer: nat, left: nat, vs: seq<nat>, v: nat)
    requires Accumulated(buffer, left, vs) && left < 8 && v < 32
    ensures Accumulated(Or(Low(Shl(buffer, 5), 32), v), left + 5, vs + [v])
    ensures Or(Low(Shl(buffer, 5), 32), v) < 0x1_0000_0000
  {
    hide Bit, Or, Low, Shl, Pow2, ValueBits;
    WordSizes();
    var next := Or(Low(Shl(buffer, 5), 32), v);
    forall b: nat
      ensures Bit(next, b) == if b < 5 then Bit(v, b) else b < 32 && Bit(buffer, b - 5)
    {
      BitOr(Low(Shl(buffer, 5), 32), v, b);
      BitLow(Shl(buffer, 5), 32, b);
      BitShl(buffer, 5, b);
      if b >= 5 {
        FiveBits();
        BitAbove(v, 5, b);
      }
    }
    BelowPow2(next, 32);
    forall b | 0 <= b < left + 5
      ensures Bit(next, b) == ValueBits(vs + [v])[5 * |vs + [v]| - 1 - b]
    {
      ValueBitsAppend(vs, v, 5 * |vs + [v]| - 1 - b);
      if b < 5 {
        assert 5 * |vs + [v]| - 1 - b - 5 * |vs| == 4 - b;
      }
    }
  }

  lemma FiveBits()
    ensures Pow2(5) == 32
  {
  }

  lemma {:induction false} ValueBitsAppend(vs: seq<nat>, v: nat, i: nat)
    requires i < 5 * |vs| + 5
    ensures ValueBits(vs + [v])[i] == if i < 5 * |vs| then ValueBits(vs)[i] else Bit(v, 4 - (i - 5 * |vs|))
  {
    hide Bit;
    var all := vs + [v];
    assert ValueBits(all)[i] == Bit(all[i / 5], 4 - i % 5);
  }

  /** Flushing a byte: the eight oldest bits of the accumulator. */
  lemma {:induction false} Flush(buffer: nat, left: nat, vs: seq<nat>, bytes: seq<byte>, next: nat)
    requires buffer < 0x1_0000_0000 && 8 <= left < 16 && Accumulated(buffer, left, vs)
    requires 8 * |bytes| + left == 5 * |vs| && MsbBits(bytes) == ValueBits(vs)[..8 * |bytes|]
    requires next == And(Asr32(buffer, left - 8), 0xFF)
    ensures next < 256 && MsbBits(bytes + [next]) == ValueBits(vs)[..8 * |bytes| + 8]
    ensures Accumulated(buffer, left - 8, vs)
  {
    hide Bit, And, Asr32, ValueBits, Pow2, MsbBits;
    ByteSize();
    forall i: nat
      ensures Bit(next, i) == (i < 8 && Bit(buffer, i + (left - 8)))
    {
      BitAnd(Asr32(buffer, left - 8), 0xFF, i);
      BitOnes(8, i);
      if i < 8 {
        BitAsr32(buffer, left - 8, i);
      }
    }
    BelowPow2(next, 8);
    var n := 8 * |bytes|;
    forall i | 0 <= i < n + 8
      ensures MsbBits(bytes + [next])[i] == ValueBits(vs)[..n + 8][i]
    {
      MsbBitsAt(bytes + [next], i);
      if i < n {
        MsbBitsAt(bytes, i);
        assert MsbBits(bytes)[i] == ValueBits(vs)[..n][i];
      } else {
        var b := 7 - i % 8;
        assert i == n + (7 - b);
        assert Bit(buffer, b + (left - 8)) == ValueBits(vs)[5 * |vs| - 1 - (b + (left - 8))];
      }
    }
  }

  lemma NothingAccumulated()
    ensures Accumulated(0, 0, []) && MsbBits([]) == ValueBits([])[..0]
  {
  }

  method Base32Decode(base32: seq<byte>) returns (r: Result<seq<byte>>)
    ensures r == if Values(base32).Ok? then Ok(SecretBytes(Values(base32).value)) else InvalidCharacter
  {
    hide Bit, MsbBits, ValueBits, And, Or, Low, Shl, Asr32, Pow2, Accumulated;
    var bytes: seq<byte> := [];
    var buffer: nat := 0;
    var bitsLeft: nat := 0;
    NothingAccumulated();
    var i := 0;
    while i < |base32|
      invariant 0 <= i <= |base32| && buffer < 0x1_0000_0000 && bitsLeft < 8
      invariant Values(base32[..i]).Ok?
      invariant var vs := Values(base32[..i]).value;
                && Accumulated(buffer, bitsLeft, vs)
                && 8 * |bytes| + bitsLeft == 5 * |vs|
                && MsbBits(bytes) == ValueBits(vs)[..8 * |bytes|]
    {
      var ch := base32[i];
      ghost var vs := Values(base32[..i]).value;
      assert base32[..i + 1][..i] == base32[..i];
      i := i + 1;
      LookupIs(ch);
      if IsSeparator(ch) {
        continue;
      }
      ch := ToUpper(ch);
      var val := Lookup(ch);
      if val == -1 {
        InvalidPrefix(base32, i);
        return InvalidCharacter;
      }
      Accumulate(buffer, bitsLeft, vs, val);
      StillAligned(bytes, vs, val);
      buffer := Low(Shl(buffer, 5), 32);
      buffer := Or(buffer, val);
      bitsLeft := bitsLeft + 5;
      if bitsLeft >= 8 {
        bitsLeft := bitsLeft - 8;
        var next := And(Asr32(buffer, bitsLeft), 0xFF);
        Flush(buffer, bitsLeft + 8, vs + [val], bytes, next);
        bytes := bytes + [next];
      }
    }
    assert base32[..i] == base32;
    ghost var vs := Values(base32).value;
    FromMsbBitsUnique(ValueBits(vs)[..8 * |bytes|], bytes);
    r := Ok(bytes);
  }

  lemma {:induction false} StillAligned(bytes: seq<byte>, vs: seq<nat>, v: nat)
    requires 8 * |bytes| <= 5 * |vs| && MsbBits(bytes) == ValueBits(vs)[..8 * |bytes|]
    ensures MsbBits(bytes) == ValueBits(vs + [v])[..8 * |bytes|]
  {
    hide Bit, ValueBits, MsbBits;
    forall i | 0 <= i < 8 * |bytes|
      ensures ValueBits(vs)[..8 * |bytes|][i] == ValueBits(vs + [v])[..8 * |bytes|][i]
    {
      ValueBitsAppend(vs, v, i);
    }
  }

  // ---- TOTP -----------------------------------------------------------------------------------

  const SHA_DIGEST_LENGTH: nat := 20

  type digest = d: seq<byte> | |d| == 20 witness seq(20, _ => 0)

  /** The moving factor, high byte first. */
  method EncodeCounter(value: nat) returns (counterBytes: seq<byte>)
    requires value < Pow2(64)
    ensures counterBytes == FromMsbBits(MsbDigits(value, 64))
  {
    hide Bit, MsbBits, MsbDigits, And, Shr, Pow2, ByteOf;
    NextByte(value, 0);
    var counter := value;
    var buffer := new byte[8](_ => 0);
    var i := 7;
    while i >= 0
      invariant -1 <= i <= 7
      invariant forall k | i < k < 8 :: buffer[k] == ByteOf(value, 7 - k)
      invariant counter == Shr(value, 8 * (7 - i))
    {
      NextByte(value, 7 - i);
      buffer[i] := And(counter, 0xFF);
      counter := Shr(counter, 8);
      i := i - 1;
    }
    counterBytes := buffer[..];
    BytesAreDigits(counterBytes, value);
    FromMsbBitsUnique(MsbDigits(value, 64), counterBytes);
  }

  lemma {:induction false} NextByte(value: nat, k: nat)
    ensures And(Shr(value, 8 * k), 0xFF) == ByteOf(value, k)
    ensures Shr(Shr(value, 8 * k), 8) == Shr(value, 8 * (k + 1))
    ensures Shr(value, 0) == value
  {
    ByteSize();
    AndOnes(Shr(value, 8 * k), 8);
    ShrTwice(value, 8 * k, 8);
  }

  lemma {:induction false} BytesAreDigits(bs: seq<byte>, value: nat)
    requires |bs| == 8 && forall k | 0 <= k < 8 :: bs[k] == ByteOf(value, 7 - k)
    ensures MsbBits(bs) == MsbDigits(value, 64)
  {
    hide Bit, ByteOf;
    forall j | 0 <= j < 64
      ensures MsbBits(bs)[j] == MsbDigits(value, 64)[j]
    {
      ByteOfBit(value, 7 - j / 8, 7 - j % 8);
    }
  }

  /**
   * The 31-bit number the standard reads off a digest: four bytes at the offset in the last nibble, top bit
   * dropped.
   */
  function DynamicTruncation(hs: digest): nat {
    var offset := hs[19] % 16;
    var p := hs[offset..offset + 4];
    FromLsb(seq(31, t requires 0 <= t < 31 => MsbBits(p)[31 - t]))
  }

  /** The code's arithmetic for the same number. */
  function BinaryCode(hs: digest): nat {
    NibbleBound(hs[SHA_DIGEST_LENGTH - 1]);
    var offset := And(hs[SHA_DIGEST_LENGTH - 1], 0x0F);
    Or(Or(Or(Shl(And(hs[offset], 0x7F), 24), Shl(And(hs[offset + 1], 0xFF), 16)), Shl(And(hs[offset + 2], 0xFF), 8)),
       And(hs[offset + 3], 0xFF))
  }

  lemma {:induction false} NibbleBound(b: byte)
    ensures And(b, 0x0F) == b % 16
  {
    assert Pow2(4) == 16;
    AndOnes(b, 4);
    ShiftsAreArithmetic(b, 4);
  }

  lemma {:induction false} BinaryCodeIsTruncation(hs: digest)
    ensures BinaryCode(hs) == DynamicTruncation(hs)
  {
    hide Bit, And, Or, Shl, FromLsb, MsbBits;
    NibbleBound(hs[SHA_DIGEST_LENGTH - 1]);
    var offset := hs[SHA_DIGEST_LENGTH - 1] % 16;
    var p := hs[offset..offset + 4];
    var digits := seq(31, t requires 0 <= t < 31 => MsbBits(p)[31 - t]);
    forall i: nat
      ensures Bit(BinaryCode(hs), i) == Bit(FromLsb(digits), i)
    {
      FromLsbBit(digits, i);
      BinaryCodeBit(p, i);
      if i < 31 {
        MsbBitsAt(p, 31 - i);
      }
    }
    WordExtensionality(BinaryCode(hs), FromLsb(digits));
  }

  /** Bit `i` of four bytes merged by shifts, the first with its top bit masked off. */
  lemma {:induction false} BinaryCodeBit(p: seq<byte>, i: nat)
    requires |p| == 4
    ensures var merged := Or(Or(Or(Shl(And(p[0], 0x7F), 24), Shl(And(p[1], 0xFF), 16)), Shl(And(p[2], 0xFF), 8)),
                             And(p[3], 0xFF));
            Bit(merged, i) == (i < 31 && Bit(p[(31 - i) / 8], 7 - (31 - i) % 8))
  {
    hide Bit, And, Or, Shl, Pow2;
    var b0, b1, b2, b3 := And(p[0], 0x7F), And(p[1], 0xFF), And(p[2], 0xFF), And(p[3], 0xFF);
    BitOr(Or(Or(Shl(b0, 24), Shl(b1, 16)), Shl(b2, 8)), b3, i);
    BitOr(Or(Shl(b0, 24), Shl(b1, 16)), Shl(b2, 8), i);
    BitOr(Shl(b0, 24), Shl(b1, 16), i);
    ShiftedByteBit(p[0], 7, 24, i);
    ShiftedByteBit(p[1], 8, 16, i);
    ShiftedByteBit(p[2], 8, 8, i);
    ShiftedByteBit(p[3], 8, 0, i);
    assert Shl(b3, 0) == b3 by { ShlNone(b3); }
    MaskValues();
  }

  lemma MaskValues()
    ensures Pow2(7) - 1 == 0x7F && Pow2(8) - 1 == 0xFF
  {
  }

  lemma ShlNone(x: nat)
    ensures Shl(x, 0) == x
  {
  }

  lemma {:induction false} ShiftedByteBit(b: byte, n: nat, up: nat, i: nat)
    ensures Bit(Shl(And(b, Pow2(n) - 1), up), i) == (up <= i < up + n && Bit(b, i - up))
  {
    hide Bit, And, Shl, Pow2;
    BitShl(And(b, Pow2(n) - 1), up, i);
    if up <= i {
      BitAnd(b, Pow2(n) - 1, i - up);
      BitOnes(n, i - up);
    }
  }

  /** snprintf into a ten-byte buffer keeps nine characters. */
  function Printed(text: seq<byte>): (p: seq<byte>)
    ensures p <= text && |p| == if |text| <= 9 then |text| else 9
  {
    if |text| <= 9 then text else text[..9]
  }

  function OtpText(hs: digest, digits: nat): seq<byte> {
    Printed(ZeroFilled(DynamicTruncation(hs) % 1000000, digits))
  }

  method GenerateTOTP(base32Secret: seq<byte>, epochSeconds: nat, digits: nat, period: nat,
                      hmac: (seq<byte>, seq<byte>) -> digest) returns (r: Result<seq<byte>>)
    requires epochSeconds < Pow2(64) && period > 0
    ensures r == if Values(base32Secret).InvalidCharacter? then InvalidCharacter
                 else Ok(OtpText(hmac(SecretBytes(Values(base32Secret).value),
                                      FromMsbBits(MsbDigits(epochSeconds / period, 64))), digits))
  {
    hide MsbBits, MsbDigits, FromMsbBits, SecretBytes, Values, And, Or, Shl, DynamicTruncation, ZeroFilled, Pow2, Bit;
    var decoded := Base32Decode(base32Secret);
    if decoded.InvalidCharacter? {
      return InvalidCharacter;
    }
    var key := decoded.value;
    QuotientBound(epochSeconds, period);
    var counterBytes := EncodeCounter(epochSeconds / period);
    var hash := hmac(key, counterBytes);
    NibbleBound(hash[SHA_DIGEST_LENGTH - 1]);
    var offset := And(hash[SHA_DIGEST_LENGTH - 1], 0x0F);
    var binaryCode := Or(Or(Or(Shl(And(hash[offset], 0x7F), 24), Shl(And(hash[offset + 1], 0xFF), 16)),
                            Shl(And(hash[offset + 2], 0xFF), 8)),
                         And(hash[offset + 3], 0xFF));
    BinaryCodeIsTruncation(hash);
    var otp := binaryCode % 1000000;
    r := Ok(Printed(ZeroFilled(otp, digits)));
  }

  lemma QuotientBound(n: nat, d: nat)
    requires d > 0
    ensures 0 <= n / d <= n
  {
    Quotient(n, d, n / d, n % d);
  }

  lemma {:induction false} Quotient(n: nat, d: nat, q: int, r: nat)
    requires d > 0 && n == d * q + r && r < d
    ensures 0 <= q <= n
  {
    if n < d {
      assert d * q == q * d;
      SmallMultiple(q, d);
    } else {
      assert d * (q - 1) == d * q - d;
      Quotient(n - d, d, q - 1, r);
    }
  }

  /** Section 5.3 of RFC 4226: the truncated number modulo 10^Digit, shown with Digit characters. */
  function HotpText(hs: digest, digits: nat): seq<byte> {
    ZeroFilled(DynamicTruncation(hs) % Pow10(digits), digits)
  }

  /** The code prints the standard's password for every digest. */
  ghost predicate MeetsStandard(digits: nat) {
    forall hs: digest :: OtpText(hs, digits) == HotpText(hs, digits)
  }

  /** A digest whose truncation is `n`. */
  function DigestOf(n: nat): (hs: digest)
    requires n < 0x8000_0000
  {
    [ByteOf(n, 3), ByteOf(n, 2), ByteOf(n, 1), ByteOf(n, 0)] + seq(16, _ => 0)
  }

  lemma {:induction false} TruncationOfDigest(n: nat)
    requires n < 0x8000_0000
    ensures DynamicTruncation(DigestOf(n)) == n
  {
    hide Bit, ByteOf, Pow2, FromLsb, MsbBits;
    var hs := DigestOf(n);
    var p := hs[0..4];
    assert p == [ByteOf(n, 3), ByteOf(n, 2), ByteOf(n, 1), ByteOf(n, 0)];
    var digits := seq(31, t requires 0 <= t < 31 => MsbBits(p)[31 - t]);
    assert Pow2(31) == 0x8000_0000 by { Pow2Of31(); }
    forall i: nat
      ensures Bit(FromLsb(digits), i) == Bit(n, i)
    {
      FromLsbBit(digits, i);
      if i < 31 {
        MsbBitsAt(p, 31 - i);
        assert p[(31 - i) / 8] == ByteOf(n, i / 8);
        ByteOfBit(n, i / 8, i % 8);
      } else {
        BitAbove(n, 31, i);
      }
    }
    WordExtensionality(FromLsb(digits), n);
  }

  lemma Pow2Of31()
    ensures Pow2(31) == 0x8000_0000
  {
    assert Pow2(10) == 0x400;
    assert Pow2(20) == 0x10_0000;
    assert Pow2(30) == 0x4000_0000;
  }

  /**
   * The modulus is fixed at 10^6 while the width is a parameter, so the code meets the standard for six digits
   * only.
   */
  lemma {:induction false} MeetsStandardIff(digits: nat)
    ensures MeetsStandard(digits) <==> digits == 6
  {
    hide DynamicTruncation, DigestOf;
    Millions();
    if digits == 6 {
      forall hs: digest
        ensures OtpText(hs, 6) == HotpText(hs, 6)
      {
        SixDigitsFit(DynamicTruncation(hs) % 1000000);
      }
    } else if digits < 6 {
      var hs := DigestOf(999999);
      TruncationOfDigest(999999);
      ShortPassword(digits);
      assert OtpText(hs, digits) != HotpText(hs, digits);
    } else {
      var hs := DigestOf(1000000);
      TruncationOfDigest(1000000);
      LongPassword(digits);
      assert OtpText(hs, digits) != HotpText(hs, digits);
    }
  }

  lemma Millions()
    ensures Pow10(6) == 1000000 && Pow10(7) == 10000000
  {
  }

  lemma {:induction false} SixDigitsFit(n: nat)
    requires n < 1000000
    ensures |ZeroFilled(n, 6)| == 6
  {
    Millions();
    DecimalLength(n, 6);
  }

  lemma {:induction false} ShortPassword(digits: nat)
    requires digits < 6
    ensures |Printed(ZeroFilled(999999, digits))| == 6
    ensures |ZeroFilled(999999 % Pow10(digits), digits)| < 6
  {
    Millions();
    DecimalLength(999999, 5);
    DecimalLength(999999, 6);
    if digits >= 1 {
      DecimalLength(999999 % Pow10(digits), digits);
    } else {
      DecimalLength(999999 % Pow10(digits), 1);
    }
    assert Pow10(5) == 100000;
  }

  lemma {:induction false} LongPassword(digits: nat)
    requires digits > 6
    ensures Printed(ZeroFilled(0, digits)) != ZeroFilled(1000000 % Pow10(digits), digits)
  {
    Millions();
    Pow10Monotone(7, digits);
    assert 1000000 % Pow10(digits) == 1000000;
    ZeroFilledValue(1000000, digits);
    DecimalIsNumeral(0);
    var zeros := Printed(ZeroFilled(0, digits));
    assert forall i | 0 <= i < |zeros| :: zeros[i] == ZERO;
    ZerosValue(zeros);
  }

  lemma {:induction false} Pow10Monotone(m: nat, n: nat)
    requires m <= n
    ensures Pow10(m) <= Pow10(n)
  {
    if m < n {
      Pow10Monotone(m, n - 1);
    }
  }

  lemma {:induction false} ZerosValue(d: seq<byte>)
    requires forall i | 0 <= i < |d| :: d[i] == ZERO
    ensures NumeralValue(d) == 0
  {
    if d != [] {
      ZerosValue(d[..|d| - 1]);
    }
  }
}
