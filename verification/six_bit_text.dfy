/**
 * What the linkshell and signature codecs share: C strings, and six-bit codes laid out high bit first
 * and followed by a run of terminating ones.
 */
module SixBitText {
  import opened Words
  import opened Bits

  /** Length of the C string that starts `bs`. */
  function FirstZero(bs: seq<byte>): (n: nat)
    ensures n <= |bs|
    ensures forall k | 0 <= k < n :: bs[k] != 0
    ensures n < |bs| ==> bs[n] == 0
  {
    if bs == [] || bs[0] == 0 then 0 else 1 + FirstZero(bs[1..])
  }

  function CString(bs: seq<byte>): seq<byte> {
    bs[..FirstZero(bs)]
  }

  function Zeros(n: nat): (z: seq<byte>)
    ensures |z| == n && forall k | 0 <= k < n :: z[k] == 0
  {
    seq(n, _ => 0)
  }

  /** `text` cut or zero-filled to `n` bytes: the bytes strncpy stores. */
  function Padded(text: seq<byte>, n: nat): (bs: seq<byte>)
    ensures |bs| == n
  {
    if |text| >= n then text[..n] else text + Zeros(n - |text|)
  }

  /** strncpy over a source that ends in a zero or is at least `n` bytes long. */
  method StrNCpy(target: array<byte>, source: seq<byte>, n: nat)
    requires n <= target.Length
    requires FirstZero(source) < |source| || n <= |source|
    modifies target
    ensures target[..n] == Padded(CString(source), n)
    ensures target[n..] == old(target[n..])
  {
    var i := 0;
    while i < n && source[i] != 0
      invariant 0 <= i <= n && i <= FirstZero(source)
      invariant target[..i] == source[..i]
      invariant target[n..] == old(target[n..])
    {
      target[i] := source[i];
      i := i + 1;
    }
    var text := i;
    while i < n
      invariant text <= i <= n && text <= FirstZero(source)
      invariant text == n || text == FirstZero(source)
      invariant target[..text] == source[..text]
      invariant forall k | text <= k < i :: target[k] == 0
      invariant target[n..] == old(target[n..])
    {
      target[i] := 0;
      i := i + 1;
    }
  }

  /** Bit `j` of the six-bit codes, each high bit first, then `term` ones, then zeros. */
  predicate StreamBit(codes: seq<nat>, term: nat, j: nat) {
    if j < 6 * |codes| then Bit(codes[j / 6], 5 - j % 6) else j < 6 * |codes| + term
  }

  /** A buffer of `n` bytes that holds the stream. */
  function Image(codes: seq<nat>, term: nat, n: nat): (bs: seq<byte>)
    ensures |bs| == n
  {
    seq(n, q requires 0 <= q < n => ImageByte(codes, term, q))
  }

  function ImageByte(codes: seq<nat>, term: nat, q: nat): byte {
    var digits := seq(8, t requires 0 <= t < 8 => StreamBit(codes, term, 8 * q + 7 - t));
    DigitsBound(digits);
    ByteSize();
    FromLsb(digits)
  }

  lemma {:induction false} ImageBit(codes: seq<nat>, term: nat, n: nat, j: nat)
    requires j < 8 * n
    ensures Bit(Image(codes, term, n)[j / 8], 7 - j % 8) == StreamBit(codes, term, j)
    ensures MsbBits(Image(codes, term, n))[j] == StreamBit(codes, term, j)
  {
    hide StreamBit, FromLsb, Bit, MsbBits;
    var q := j / 8;
    var digits := seq(8, t requires 0 <= t < 8 => StreamBit(codes, term, 8 * q + 7 - t));
    FromLsbBit(digits, 7 - j % 8);
    MsbBitsAt(Image(codes, term, n), j);
  }

  /** The stream determines the buffer. */
  lemma {:induction false} ImageUnique(bs: seq<byte>, codes: seq<nat>, term: nat)
    requires forall j | 0 <= j < 8 * |bs| :: MsbBits(bs)[j] == StreamBit(codes, term, j)
    ensures bs == Image(codes, term, |bs|)
  {
    hide *;
    forall q | 0 <= q < |bs|
      ensures bs[q] == Image(codes, term, |bs|)[q]
    {
      ByteSize();
      forall t | 0 <= t < 8
        ensures Bit(bs[q], t) == Bit(Image(codes, term, |bs|)[q], t)
      {
        var j := 8 * q + 7 - t;
        ImageBit(codes, term, |bs|, j);
        MsbBitsAt(bs, j);
      }
      DigitsDetermine(bs[q], Image(codes, term, |bs|)[q], 8);
    }
  }

  /** Appending one code: what each packBitsLE call of the encoders does to the buffer. */
  lemma {:induction false} PackCode(before: seq<byte>, after: seq<byte>, codes: seq<nat>, code: nat)
    requires before == Image(codes, 0, |before|) && |after| == |before|
    requires 6 * |codes| + 6 <= 8 * |before|
    requires MsbBits(after) == Splice(MsbBits(before), 6 * |codes|, MsbDigits(code, 6))
    ensures after == Image(codes + [code], 0, |after|)
  {
    hide Bit, MsbBits, MsbDigits, Splice, Image;
    forall j | 0 <= j < 8 * |after|
      ensures MsbBits(after)[j] == StreamBit(codes + [code], 0, j)
    {
      SpliceAt(MsbBits(before), 6 * |codes|, MsbDigits(code, 6), j);
      ImageBit(codes, 0, |before|, j);
      if 6 * |codes| <= j < 6 * |codes| + 6 {
        MsbDigitsAt(code, 6, j - 6 * |codes|);
      }
    }
    ImageUnique(after, codes + [code], 0);
  }

  /** Appending the terminator: `term` low bits of 0xFF. */
  lemma {:induction false} PackTerminator(before: seq<byte>, after: seq<byte>, codes: seq<nat>, term: nat)
    requires before == Image(codes, 0, |before|) && |after| == |before|
    requires term <= 8 && 6 * |codes| + term <= 8 * |before|
    requires MsbBits(after) == Splice(MsbBits(before), 6 * |codes|, MsbDigits(0xFF, term))
    ensures after == Image(codes, term, |after|)
  {
    hide Bit, MsbBits, MsbDigits, Splice, Image;
    forall j | 0 <= j < 8 * |after|
      ensures MsbBits(after)[j] == StreamBit(codes, term, j)
    {
      SpliceAt(MsbBits(before), 6 * |codes|, MsbDigits(0xFF, term), j);
      ImageBit(codes, 0, |before|, j);
      if 6 * |codes| <= j < 6 * |codes| + term {
        var i := j - 6 * |codes|;
        MsbDigitsAt(0xFF, term, i);
        ByteSize();
        BitOnes(8, term - 1 - i);
      }
    }
    ImageUnique(after, codes, term);
  }

  lemma {:induction false} ZerosAreImage(n: nat)
    ensures Zeros(n) == Image([], 0, n)
  {
    hide Bit, MsbBits, Image;
    forall j | 0 <= j < 8 * n
      ensures MsbBits(Zeros(n))[j] == StreamBit([], 0, j)
    {
      MsbBitsAt(Zeros(n), j);
      BitZero(7 - j % 8);
    }
    ImageUnique(Zeros(n), [], 0);
  }

  /** Six-bit field `i` of a buffer. */
  function Field6(bs: seq<byte>, i: nat): (code: nat)
    requires 6 * i + 6 <= 8 * |bs|
    ensures code < 64
  {
    var digits := seq(6, t requires 0 <= t < 6 => MsbBits(bs)[6 * i + 5 - t]);
    DigitsBound(digits);
    ByteSize();
    FromLsb(digits)
  }

  lemma {:induction false} Field6Is(bs: seq<byte>, i: nat, code: nat)
    requires 6 * i + 6 <= 8 * |bs| && code < 64
    requires forall t | 0 <= t < 6 :: MsbBits(bs)[6 * i + 5 - t] == Bit(code, t)
    ensures Field6(bs, i) == code
  {
    hide Bit, MsbBits, FromLsb;
    var digits := seq(6, t requires 0 <= t < 6 => MsbBits(bs)[6 * i + 5 - t]);
    forall t: nat
      ensures Bit(Field6(bs, i), t) == Bit(code, t)
    {
      FromLsbBit(digits, t);
      if t >= 6 {
        ByteSize();
        BitAbove(code, 6, t);
      }
    }
    WordExtensionality(Field6(bs, i), code);
  }

  /** What unpackBitsLE returns for a six-bit field. */
  lemma {:induction false} UnpackedField(bs: seq<byte>, i: nat, r: nat)
    requires 6 * i + 6 <= 8 * |bs| && r < 64
    requires MsbDigits(r, 6) == MsbBits(bs)[6 * i..6 * i + 6]
    ensures r == Field6(bs, i)
  {
    hide Bit, MsbBits, MsbDigits, Field6;
    forall t | 0 <= t < 6
      ensures MsbBits(bs)[6 * i + 5 - t] == Bit(r, t)
    {
      MsbDigitsAt(r, 6, 5 - t);
    }
    Field6Is(bs, i, r);
  }

  /** A stored C string read back with `z` bytes of zero fill: the stream up to the first zero byte. */
  function Reread(stored: seq<byte>, z: nat): seq<byte> {
    CString(stored) + Zeros(z)
  }

  lemma {:induction false} RereadBit(codes: seq<nat>, term: nat, n: nat, z: nat, j: nat)
    requires var stored := Image(codes, term, n); j < 8 * |Reread(stored, z)|
    ensures var stored := Image(codes, term, n);
            MsbBits(Reread(stored, z))[j] == (j < 8 * FirstZero(stored) && StreamBit(codes, term, j))
  {
    hide Bit, MsbBits, Image, StreamBit, FirstZero;
    var stored := Image(codes, term, n);
    MsbBitsAt(Reread(stored, z), j);
    if j < 8 * FirstZero(stored) {
      ImageBit(codes, term, n, j);
    } else {
      BitZero(7 - j % 8);
    }
  }

  predicate ClearByte(codes: seq<nat>, term: nat, q: nat) {
    forall j | 8 * q <= j < 8 * q + 8 :: !StreamBit(codes, term, j)
  }

  /** A zero byte of the image: its eight stream bits are clear. */
  lemma {:induction false} ZeroByteBits(codes: seq<nat>, term: nat, n: nat, q: nat)
    requires q < n
    ensures Image(codes, term, n)[q] == 0 <==> ClearByte(codes, term, q)
  {
    hide Bit, StreamBit, Image;
    var b := Image(codes, term, n)[q];
    if b == 0 {
      forall j | 8 * q <= j < 8 * q + 8
        ensures !StreamBit(codes, term, j)
      {
        ImageBit(codes, term, n, j);
        BitZero(7 - j % 8);
      }
    } else if ClearByte(codes, term, q) {
      forall t | 0 <= t < 8
        ensures Bit(b, t) == Bit(0, t)
      {
        ImageBit(codes, term, n, 8 * q + 7 - t);
        BitZero(t);
      }
      ByteSize();
      DigitsDetermine(b, 0, 8);
    }
  }

  /** A code whose six digits are clear is 0. */
  lemma {:induction false} CodeZero(code: nat)
    requires code < 64 && forall t | 0 <= t < 6 :: !Bit(code, t)
    ensures code == 0
  {
    ByteSize();
    forall t | 0 <= t < 6
      ensures Bit(code, t) == Bit(0, t)
    {
      BitZero(t);
    }
    DigitsDetermine(code, 0, 6);
  }

  /** The four low digits of a code are clear exactly when 16 divides it. */
  lemma {:induction false} LowNibbleZero(code: nat)
    ensures code % 16 == Low(code, 4)
    ensures code % 16 == 0 ==> forall t | 0 <= t < 4 :: !Bit(code, t)
  {
    hide Bit, Low;
    assert Pow2(4) == 16;
    ShiftsAreArithmetic(code, 4);
    if code % 16 == 0 {
      forall t | 0 <= t < 4
        ensures !Bit(code, t)
      {
        ClearLowDigits(code, 4, t);
      }
    }
  }

  /** The four high digits of a code are clear exactly when it is below 4. */
  lemma {:induction false} HighNibbleZero(code: nat)
    requires code < 64 && forall t | 2 <= t < 6 :: !Bit(code, t)
    ensures code < 4
  {
    hide Bit, Shr, Low;
    assert Pow2(2) == 4;
    ShiftsAreArithmetic(code, 2);
    forall t | 0 <= t < 4
      ensures !Bit(code / 4, t)
    {
      BitShr(code, 2, t);
    }
    LowDigitsClear(code / 4, 4);
    LowNibbleZero(code / 4);
  }
}
