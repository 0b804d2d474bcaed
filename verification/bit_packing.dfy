/**
 * packBitsBE/LE and unpackBitsBE/LE: bit fields at arbitrary offsets of a byte buffer.
 *
 * The names follow the source: "BE" addresses a buffer low bit first, "LE" high bit first (by
 * reversing the bytes of the field into a scratch word).  The host is little-endian.
 */
module BitPacking {
  import opened Words
  import opened Bits

  const ONES64: nat := 0xFFFF_FFFF_FFFF_FFFF

  /** The field mask both BE routines build: `len` ones, moved up by `off`, in 64 bits. */
  function FieldMask(off: nat, len: nat): nat
    requires 1 <= len <= 64
  {
    Low(Shl(Shr(ONES64, 64 - len), off), 64)
  }

  /** The word store performed by packBitsBE. */
  function MergeField(data: nat, value: nat, off: nat, len: nat): nat
    requires 1 <= len <= 64
  {
    Or(And(data, Xor(FieldMask(off, len), ONES64)), And(Low(Shl(value, off), 64), FieldMask(off, len)))
  }

  lemma {:induction false} FieldMaskBit(off: nat, len: nat, i: nat)
    requires 1 <= len && off + len <= 64
    ensures Bit(FieldMask(off, len), i) == (off <= i < off + len)
  {
    hide Bit, Shl, Shr, Low, Pow2;
    WordSizes();
    BitLow(Shl(Shr(ONES64, 64 - len), off), 64, i);
    BitShl(Shr(ONES64, 64 - len), off, i);
    if off <= i {
      BitShr(ONES64, 64 - len, i - off);
      BitOnes(64, i - off + (64 - len));
    }
  }

  lemma {:induction false} MergeFieldBit(data: nat, value: nat, off: nat, len: nat, i: nat)
    requires 1 <= len && off + len <= 64 && i < 64
    ensures Bit(MergeField(data, value, off, len), i) ==
            if off <= i < off + len then Bit(value, i - off) else Bit(data, i)
  {
    hide Bit, Shl, Shr, Low, And, Or, Xor, Pow2;
    var mask := FieldMask(off, len);
    var moved := Low(Shl(value, off), 64);
    FieldMaskBit(off, len, i);
    WordSizes();
    BitOnes(64, i);
    BitXor(mask, ONES64, i);
    BitAnd(data, Xor(mask, ONES64), i);
    BitAnd(moved, mask, i);
    BitOr(And(data, Xor(mask, ONES64)), And(moved, mask), i);
    BitLow(Shl(value, off), 64, i);
    BitShl(value, off, i);
  }

  /** Extraction through a word of `w` bits: the field's digits and nothing else. */
  lemma {:induction false} ExtractFieldBit(data: nat, off: nat, len: nat, w: nat, i: nat)
    requires 1 <= len && off + len <= w <= 64
    ensures Bit(Shr(And(data, Low(FieldMask(off, len), w)), off), i) == (i < len && Bit(data, off + i))
  {
    hide *;
    var mask := FieldMask(off, len);
    BitShr(And(data, Low(mask, w)), off, i);
    BitAnd(data, Low(mask, w), i + off);
    BitLow(mask, w, i + off);
    FieldMaskBit(off, len, i + off);
  }

  /** A word read from `width` bytes of which only those in `bs` are filled. */
  lemma {:induction false} ExtractField(bs: seq<byte>, off: nat, len: nat, w: nat, r: nat)
    requires 1 <= len && off + len <= 8 * |bs| <= w <= 64
    requires r == Shr(And(Load(bs), Low(FieldMask(off, len), w)), off)
    ensures LsbDigits(r, len) == LsbBits(bs)[off..off + len] && r < Pow2(len)
  {
    hide Bit, Shl, Shr, Low, And, Or, Xor, Load, Pow2;
    forall i: nat
      ensures Bit(r, i) == (i < len && Bit(Load(bs), off + i))
    {
      ExtractFieldBit(Load(bs), off, len, w, i);
    }
    forall i | 0 <= i < len
      ensures LsbDigits(r, len)[i] == LsbBits(bs)[off..off + len][i]
    {
      LoadBit(bs, off + i);
    }
    BelowPow2(r, len);
  }

  method PackBitsBE(target: array<byte>, value: nat, byteOffset: nat, bitOffset: nat, lengthInBit: nat)
    returns (end: nat)
    requires value < Pow2(64)
    requires 1 <= lengthInBit && bitOffset % 8 + lengthInBit <= 64
    requires 8 * byteOffset + bitOffset + lengthInBit <= 8 * target.Length
    modifies target
    ensures end == 8 * byteOffset + bitOffset + lengthInBit
    ensures LsbBits(target[..]) ==
            Splice(old(LsbBits(target[..])), 8 * byteOffset + bitOffset, LsbDigits(value, lengthInBit))
  {
    hide Bit, Shl, Shr, Low, And, Or, Xor, Load, Pow2;
    var byteAt := byteOffset + bitOffset / 8;
    var bitAt := bitOffset % 8;

    var bitmask := ONES64;
    bitmask := Shr(bitmask, 64 - lengthInBit);
    bitmask := Low(Shl(bitmask, bitAt), 64);

    var field := Low(Shl(value, bitAt), 64);
    field := And(field, bitmask);

    bitmask := Xor(bitmask, ONES64);

    var actualBytes := (bitAt + lengthInBit + 7) / 8;
    ghost var before := target[..];
    ghost var window := target[byteAt..byteAt + actualBytes];
    var data := Load(target[byteAt..byteAt + actualBytes]);
    data := And(data, bitmask);
    data := Or(data, field);
    forall k | 0 <= k < actualBytes {
      target[byteAt + k] := ByteOf(data, k);
    }
    end := 8 * byteAt + bitAt + lengthInBit;

    PackedField(before, target[..], byteAt, bitAt, lengthInBit, value);
  }

  lemma {:induction false} PackedField(before: seq<byte>, after: seq<byte>, byteAt: nat, bitAt: nat, len: nat,
                                       value: nat)
    requires bitAt < 8 && 1 <= len && bitAt + len <= 64 && 8 * byteAt + bitAt + len <= 8 * |before|
    requires |after| == |before|
    requires var n := (bitAt + len + 7) / 8;
             var data := MergeField(Load(before[byteAt..byteAt + n]), value, bitAt, len);
             forall k | 0 <= k < |before| ::
               after[k] == if byteAt <= k < byteAt + n then ByteOf(data, k - byteAt) else before[k]
    ensures LsbBits(after) == Splice(LsbBits(before), 8 * byteAt + bitAt, LsbDigits(value, len))
  {
    hide *;
    var n := (bitAt + len + 7) / 8;
    var window := before[byteAt..byteAt + n];
    var data := MergeField(Load(window), value, bitAt, len);
    forall i | 0 <= i < 8 * |before|
      ensures LsbBits(after)[i] == Splice(LsbBits(before), 8 * byteAt + bitAt, LsbDigits(value, len))[i]
    {
      LsbBitsAt(after, i);
      LsbBitsAt(before, i);
      SpliceAt(LsbBits(before), 8 * byteAt + bitAt, LsbDigits(value, len), i);
      if byteAt <= i / 8 < byteAt + n {
        var j := i - 8 * byteAt;
        assert j / 8 == i / 8 - byteAt && j % 8 == i % 8;
        StoreBit(data, n, j);
        MergeFieldBit(Load(window), value, bitAt, len, j);
        LoadBit(window, j);
        if bitAt <= j < bitAt + len {
          LsbDigitsAt(value, len, j - bitAt);
        }
      }
    }
  }

  method UnpackBitsBE(source: seq<byte>, byteOffset: nat, bitOffset: nat, lengthInBit: nat) returns (r: nat)
    requires 1 <= lengthInBit <= 64
    requires bitOffset % 8 + lengthInBit <= 64 ==> 8 * byteOffset + bitOffset + lengthInBit <= 8 * |source|
    ensures bitOffset % 8 + lengthInBit > 64 ==> r == 0
    ensures bitOffset % 8 + lengthInBit <= 64 ==>
              var at := 8 * byteOffset + bitOffset;
              LsbDigits(r, lengthInBit) == LsbBits(source)[at..at + lengthInBit] && r < Pow2(lengthInBit)
  {
    hide Bit, Shl, Shr, Low, And, Or, Xor, Load, Pow2;
    var byteAt := byteOffset + bitOffset / 8;
    var bitAt := bitOffset % 8;

    var bitmask := ONES64;
    bitmask := Shr(bitmask, 64 - lengthInBit);
    bitmask := Low(Shl(bitmask, bitAt), 64);

    var actualBytes := (bitAt + lengthInBit + 7) / 8;
    if actualBytes == 1 {
      var data := source[byteAt];
      r := Shr(And(data, Low(bitmask, 8)), bitAt);
      assert source[byteAt..byteAt + 1] == [source[byteAt]];
      SingleByte(source[byteAt]);
      ExtractWindow(source, byteAt, bitAt, lengthInBit, 8, r);
    } else if actualBytes <= 2 {
      var data := Load(source[byteAt..byteAt + actualBytes]);
      r := Shr(And(data, Low(bitmask, 16)), bitAt);
      ExtractWindow(source, byteAt, bitAt, lengthInBit, 16, r);
    } else if actualBytes <= 4 {
      var data := Load(source[byteAt..byteAt + actualBytes]);
      r := Shr(And(data, Low(bitmask, 32)), bitAt);
      ExtractWindow(source, byteAt, bitAt, lengthInBit, 32, r);
    } else if actualBytes <= 8 {
      var data := Load(source[byteAt..byteAt + actualBytes]);
      r := Shr(And(data, bitmask), bitAt);
      LowTwice(Shl(Shr(ONES64, 64 - lengthInBit), bitAt), 64);
      ExtractWindow(source, byteAt, bitAt, lengthInBit, 64, r);
    } else {
      r := 0;
    }
  }

  lemma {:induction false} LowTwice(x: nat, w: nat)
    ensures Low(Low(x, w), w) == Low(x, w)
  {
    LowBound(x, w);
    LowBound(Low(x, w), w);
  }

  /** `ExtractField` at its place in the buffer. */
  lemma {:induction false} ExtractWindow(source: seq<byte>, byteAt: nat, bitAt: nat, len: nat, w: nat, r: nat)
    requires bitAt < 8 && 1 <= len && 8 * byteAt + bitAt + len <= 8 * |source|
    requires 8 * ((bitAt + len + 7) / 8) <= w <= 64
    requires var n := (bitAt + len + 7) / 8;
             r == Shr(And(Load(source[byteAt..byteAt + n]), Low(FieldMask(bitAt, len), w)), bitAt)
    ensures var at := 8 * byteAt + bitAt; LsbDigits(r, len) == LsbBits(source)[at..at + len]
    ensures r < Pow2(len)
  {
    hide *;
    var n := (bitAt + len + 7) / 8;
    ExtractField(source[byteAt..byteAt + n], bitAt, len, w, r);
    LsbWindow(source, byteAt, n);
    SliceOfSlice(LsbBits(source), 8 * byteAt, 8 * byteAt + 8 * n, bitAt, bitAt + len);
  }

  lemma {:induction false} SingleByte(b: byte)
    ensures Load([b]) == b
  {
    assert Shl(0, 8) == 0;
  }

  /** The bits of a window of bytes are a window of the bits. */
  lemma {:induction false} LsbWindow(bs: seq<byte>, at: nat, n: nat)
    requires at + n <= |bs|
    ensures LsbBits(bs[at..at + n]) == LsbBits(bs)[8 * at..8 * at + 8 * n]
  {
  }

  /** The scratch word of the LE routines: its width in bytes, by the source's steps of 8, 16, 32, 64. */
  function BytesNeeded(bits: nat): (n: nat)
    requires bits <= 64
    ensures bits <= 8 * n <= 64 && 1 <= n
  {
    if bits <= 8 then 1 else if bits <= 16 then 2 else if bits <= 32 then 4 else 8
  }

  /** `n` bytes from `at`, reversed into the high end of a zeroed scratch word of `width` bytes. */
  method ReverseIntoScratch(source: seq<byte>, at: nat, n: nat, width: nat) returns (scratch: array<byte>)
    requires at + n <= |source| && n <= width
    ensures fresh(scratch) && scratch.Length == width
    ensures forall k | width - n <= k < width :: scratch[k] == source[at + (width - 1 - k)]
  {
    scratch := new byte[width](_ => 0);
    var curByte := 0;
    while curByte < n
      invariant 0 <= curByte <= n
      invariant forall k | width - curByte <= k < width :: scratch[k] == source[at + (width - 1 - k)]
    {
      scratch[width - 1 - curByte] := source[at + curByte];
      curByte := curByte + 1;
    }
  }

  /** The way back: `n` bytes from the high end of the scratch word, reversed into the buffer. */
  method ReverseFromScratch(scratch: array<byte>, target: array<byte>, at: nat, n: nat)
    requires scratch != target && at + n <= target.Length && n <= scratch.Length
    modifies target
    ensures forall k | 0 <= k < target.Length ::
              target[k] == if at <= k < at + n then scratch[scratch.Length - 1 - (k - at)] else old(target[k])
  {
    var curByte := 0;
    while curByte < n
      invariant 0 <= curByte <= n
      invariant forall k | 0 <= k < target.Length ::
                  target[k] == if at <= k < at + curByte then scratch[scratch.Length - 1 - (k - at)]
                               else old(target[k])
    {
      target[at + curByte] := scratch[scratch.Length - 1 - curByte];
      curByte := curByte + 1;
    }
  }

  method PackBitsLE(target: array<byte>, value: nat, byteOffset: nat, bitOffset: nat, lengthInBit: nat)
    returns (end: nat)
    requires value < Pow2(64) && 1 <= lengthInBit
    requires bitOffset % 8 + lengthInBit <= 64 ==> 8 * byteOffset + bitOffset + lengthInBit <= 8 * target.Length
    modifies target
    ensures bitOffset % 8 + lengthInBit > 64 ==> end == 0 && target[..] == old(target[..])
    ensures bitOffset % 8 + lengthInBit <= 64 ==>
              end == 8 * byteOffset + bitOffset + lengthInBit &&
              MsbBits(target[..]) ==
              Splice(old(MsbBits(target[..])), 8 * byteOffset + bitOffset, MsbDigits(value, lengthInBit))
  {
    hide *;
    var byteAt := byteOffset + bitOffset / 8;
    var bitAt := bitOffset % 8;
    if bitAt + lengthInBit > 64 {
      return 0;
    }
    var bytesNeeded := BytesNeeded(bitAt + lengthInBit);
    var actualBytes := (bitAt + lengthInBit + 7) / 8;
    var modifiedTarget := ReverseIntoScratch(target[..], byteAt, actualBytes, bytesNeeded);
    ghost var before := target[..];
    ghost var scratch := modifiedTarget[..];

    var newBitOffset := 8 * bytesNeeded - (bitAt + lengthInBit);
    var _ := PackBitsBE(modifiedTarget, value, 0, newBitOffset, lengthInBit);

    ReverseFromScratch(modifiedTarget, target, byteAt, actualBytes);
    end := 8 * byteAt + bitAt + lengthInBit;
    ReversedSplice(before, target[..], scratch, modifiedTarget[..], byteAt, bitAt, lengthInBit, value);
  }

  /**
   * Splicing the scratch word low bit first is splicing the buffer high bit first: bit `j` of the
   * buffer's field window, counted from the high end, is bit `8 * |scratch| - 1 - j` of the scratch.
   */
  lemma {:induction false} ReversedSplice(before: seq<byte>, after: seq<byte>, scratch: seq<byte>, packed: seq<byte>,
                                          byteAt: nat, bitAt: nat, len: nat, value: nat)
    requires bitAt < 8 && 1 <= len && bitAt + len <= 8 * |scratch| && |packed| == |scratch| && |after| == |before|
    requires 8 * byteAt + bitAt + len <= 8 * |before|
    requires LsbBits(packed) == Splice(LsbBits(scratch), 8 * |scratch| - (bitAt + len), LsbDigits(value, len))
    requires forall k | |scratch| - (bitAt + len + 7) / 8 <= k < |scratch| ::
               scratch[k] == before[byteAt + (|scratch| - 1 - k)]
    requires forall k | 0 <= k < |before| ::
               after[k] == if byteAt <= k < byteAt + (bitAt + len + 7) / 8 then packed[|scratch| - 1 - (k - byteAt)]
                           else before[k]
    ensures MsbBits(after) == Splice(MsbBits(before), 8 * byteAt + bitAt, MsbDigits(value, len))
  {
    hide *;
    forall i | 0 <= i < 8 * |before|
      ensures MsbBits(after)[i] == Splice(MsbBits(before), 8 * byteAt + bitAt, MsbDigits(value, len))[i]
    {
      MsbBitsAt(after, i);
      MsbBitsAt(before, i);
      SpliceAt(MsbBits(before), 8 * byteAt + bitAt, MsbDigits(value, len), i);
      if byteAt <= i / 8 < byteAt + (bitAt + len + 7) / 8 {
        var j := i - 8 * byteAt;
        var m := 8 * |scratch| - 1 - j;
        assert m / 8 == |scratch| - 1 - j / 8 && m % 8 == 7 - j % 8;
        LsbBitsAt(packed, m);
        SpliceAt(LsbBits(scratch), 8 * |scratch| - (bitAt + len), LsbDigits(value, len), m);
        LsbBitsAt(scratch, m);
        if bitAt <= j < bitAt + len {
          MsbDigitsAt(value, len, j - bitAt);
          LsbDigitsAt(value, len, len - 1 - (j - bitAt));
        }
      }
    }
  }

  /** Where a field lies in its bytes. */
  lemma FieldPlace(size: nat, byteOffset: nat, bitOffset: nat, len: nat)
    requires 1 <= len && bitOffset % 8 + len <= 64 && 8 * byteOffset + bitOffset + len <= 8 * size
    ensures var byteAt, bitAt := byteOffset + bitOffset / 8, bitOffset % 8;
            && 8 * byteAt + bitAt == 8 * byteOffset + bitOffset
            && byteAt + (bitAt + len + 7) / 8 <= size && (bitAt + len + 7) / 8 <= BytesNeeded(bitAt + len)
  {
  }

  method UnpackBitsLE(source: seq<byte>, byteOffset: nat, bitOffset: nat, lengthInBit: nat) returns (r: nat)
    requires 1 <= lengthInBit
    requires bitOffset % 8 + lengthInBit <= 64 ==> 8 * byteOffset + bitOffset + lengthInBit <= 8 * |source|
    ensures bitOffset % 8 + lengthInBit > 64 ==> r == 0
    ensures bitOffset % 8 + lengthInBit <= 64 ==>
              var at := 8 * byteOffset + bitOffset;
              MsbDigits(r, lengthInBit) == MsbBits(source)[at..at + lengthInBit] && r < Pow2(lengthInBit)
  {
    hide *;
    var byteAt := byteOffset + bitOffset / 8;
    var bitAt := bitOffset % 8;
    if bitAt + lengthInBit > 64 {
      return 0;
    }
    var bytesNeeded := BytesNeeded(bitAt + lengthInBit);
    var actualBytes := (bitAt + lengthInBit + 7) / 8;
    FieldPlace(|source|, byteOffset, bitOffset, lengthInBit);
    var modifiedTarget := ReverseIntoScratch(source, byteAt, actualBytes, bytesNeeded);

    if bytesNeeded == 1 {
      var bitmask := Shr(0xFF, bitAt);
      r := Shr(And(modifiedTarget[0], bitmask), 8 - (lengthInBit + bitAt));
      ExtractHighField(modifiedTarget[..], bitAt, lengthInBit, r);
    } else {
      var newBitOffset := 8 * bytesNeeded - (bitAt + lengthInBit);
      assert newBitOffset % 8 <= newBitOffset && newBitOffset + lengthInBit == 8 * bytesNeeded - bitAt <= 64;
      r := UnpackBitsBE(modifiedTarget[..], 0, newBitOffset, lengthInBit);
    }
    ReversedField(source, modifiedTarget[..], byteAt, bitAt, lengthInBit, r);
  }

  /** The one-byte case of unpackBitsLE, which masks the high bits away instead of calling the BE routine. */
  lemma {:induction false} ExtractHighField(scratch: seq<byte>, off: nat, len: nat, r: nat)
    requires |scratch| == 1 && 1 <= len && off + len <= 8
    requires r == Shr(And(scratch[0], Shr(0xFF, off)), 8 - (len + off))
    ensures LsbDigits(r, len) == LsbBits(scratch)[8 - (off + len)..8 - (off + len) + len]
    ensures r < Pow2(len)
  {
    hide Bit, Shl, Shr, Low, And, Or, Xor, Load, Pow2;
    var low := 8 - (len + off);
    forall i: nat
      ensures Bit(r, i) == (i < len && Bit(scratch[0], low + i))
    {
      BitShr(And(scratch[0], Shr(0xFF, off)), low, i);
      BitAnd(scratch[0], Shr(0xFF, off), low + i);
      BitShr(0xFF, off, low + i);
      ByteSize();
      BitOnes(8, low + i + off);
    }
    BelowPow2(r, len);
    forall i | 0 <= i < len
      ensures LsbDigits(r, len)[i] == LsbBits(scratch)[low..low + len][i]
    {
      assert LsbBits(scratch)[low + i] == Bit(scratch[(low + i) / 8], (low + i) % 8);
    }
  }

  lemma {:induction false} ReversedField(source: seq<byte>, scratch: seq<byte>, byteAt: nat, bitAt: nat, len: nat,
                                         r: nat)
    requires bitAt < 8 && 1 <= len && bitAt + len <= 8 * |scratch|
    requires 8 * byteAt + bitAt + len <= 8 * |source|
    requires forall k | |scratch| - (bitAt + len + 7) / 8 <= k < |scratch| ::
               scratch[k] == source[byteAt + (|scratch| - 1 - k)]
    requires var at := 8 * |scratch| - (bitAt + len);
             LsbDigits(r, len) == LsbBits(scratch)[at..at + len]
    ensures var at := 8 * byteAt + bitAt; MsbDigits(r, len) == MsbBits(source)[at..at + len]
  {
    hide *;
    var at := 8 * byteAt + bitAt;
    forall i | 0 <= i < len
      ensures MsbDigits(r, len)[i] == MsbBits(source)[at..at + len][i]
    {
      var m := 8 * |scratch| - 1 - (bitAt + i);
      assert m / 8 == |scratch| - 1 - (bitAt + i) / 8 && m % 8 == 7 - (bitAt + i) % 8;
      LsbBitsAt(scratch, m);
      MsbBitsAt(source, at + i);
      MsbDigitsAt(r, len, i);
      LsbDigitsAt(r, len, len - 1 - i);
      assert LsbDigits(r, len)[len - 1 - i] == LsbBits(scratch)[m];
    }
  }

  /** Reading a packed field back, low bit first: the value truncated to the field. */
  lemma {:induction false} PackedFieldReadsBackBE(buffer: seq<bool>, at: nat, value: nat, len: nat, r: nat)
    requires at + len <= |buffer| && r < Pow2(len)
    requires LsbDigits(r, len) == Splice(buffer, at, LsbDigits(value, len))[at..at + len]
    ensures r == Low(value, len)
  {
    hide Bit, Pow2, Low;
    LowBound(value, len);
    forall i | 0 <= i < len
      ensures Bit(r, i) == Bit(Low(value, len), i)
    {
      BitLow(value, len, i);
      assert LsbDigits(r, len)[i] == LsbDigits(value, len)[i];
    }
    DigitsDetermine(r, Low(value, len), len);
  }

  /** The same for the routines that address the buffer high bit first. */
  lemma {:induction false} PackedFieldReadsBackLE(buffer: seq<bool>, at: nat, value: nat, len: nat, r: nat)
    requires at + len <= |buffer| && r < Pow2(len)
    requires MsbDigits(r, len) == Splice(buffer, at, MsbDigits(value, len))[at..at + len]
    ensures r == Low(value, len)
  {
    hide Bit, Pow2, Low;
    LowBound(value, len);
    forall i | 0 <= i < len
      ensures Bit(r, i) == Bit(Low(value, len), i)
    {
      BitLow(value, len, i);
      assert MsbDigits(r, len)[len - 1 - i] == MsbDigits(value, len)[len - 1 - i];
    }
    DigitsDetermine(r, Low(value, len), len);
  }

  /** Packing one field leaves every disjoint field as it was, and two disjoint packs commute. */
  lemma {:induction false} DisjointFields(buffer: seq<bool>, at: nat, field: seq<bool>, at': nat, field': seq<bool>)
    requires at + |field| <= at' && at' + |field'| <= |buffer|
    ensures Splice(buffer, at, field)[at'..at' + |field'|] == buffer[at'..at' + |field'|]
    ensures Splice(buffer, at', field')[at..at + |field|] == buffer[at..at + |field|]
    ensures Splice(Splice(buffer, at, field), at', field') == Splice(Splice(buffer, at', field'), at, field)
  {
    var first, second := Splice(buffer, at, field), Splice(buffer, at', field');
    var both, swapped := Splice(first, at', field'), Splice(second, at, field);
    hide Splice;
    forall i | 0 <= i < |buffer|
      ensures both[i] == swapped[i]
      ensures at' <= i < at' + |field'| ==> first[i] == buffer[i]
      ensures at <= i < at + |field| ==> second[i] == buffer[i]
    {
      SpliceAt(buffer, at, field, i);
      SpliceAt(buffer, at', field', i);
      SpliceAt(first, at', field', i);
      SpliceAt(second, at, field, i);
    }
  }
}
