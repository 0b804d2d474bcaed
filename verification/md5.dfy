/** Streaming MD5: a carry-over buffer, a two-word length counter and the padding of sections 3.1-3.2 of RFC 1321. */
module Md5 {
  import opened Words
  import opened Words32
  import opened Bits
  import opened Md5Block

  /** The state after every whole block of `m`. */
  function FoldBlocks(s: State, m: seq<byte>): State
    decreases |m|
  {
    if |m| < 64 then s else FoldBlocks(Compress(s, m[..64]), m[64..])
  }

  /** The bytes after the last whole block. */
  function Tail(m: seq<byte>): (t: seq<byte>)
    ensures |t| == |m| % 64
  {
    m[|m| - |m| % 64..]
  }

  lemma {:induction false} TailOne(m: seq<byte>)
    requires |m| >= 64
    ensures Tail(m) == Tail(m[64..])
  {
    SliceOfSlice(m, 64, |m|, |m| - 64 - |m| % 64, |m| - 64);
  }

  /** Absorbing `x` after `m` needs only the state and the tail left by `m`. */
  lemma {:induction false} FoldResumes(s: State, m: seq<byte>, x: seq<byte>)
    ensures FoldBlocks(s, m + x) == FoldBlocks(FoldBlocks(s, m), Tail(m) + x)
    ensures Tail(m + x) == Tail(Tail(m) + x)
    decreases |m|
  {
    hide Compress, Tail;
    if |m| < 64 {
      FoldNone(s, m);
    } else {
      assert (m + x)[..64] == m[..64] && (m + x)[64..] == m[64..] + x;
      TailOne(m);
      TailOne(m + x);
      FoldResumes(Compress(s, m[..64]), m[64..], x);
    }
  }

  datatype Absorbed = Absorbed(state: State, tail: seq<byte>)

  function Absorb(a: Absorbed, chunk: seq<byte>): Absorbed {
    Absorbed(FoldBlocks(a.state, a.tail + chunk), Tail(a.tail + chunk))
  }

  function AbsorbAll(a: Absorbed, chunks: seq<seq<byte>>): Absorbed {
    if chunks == [] then a else Absorb(AbsorbAll(a, chunks[..|chunks| - 1]), chunks[|chunks| - 1])
  }

  function Joined(chunks: seq<seq<byte>>): seq<byte> {
    if chunks == [] then [] else Joined(chunks[..|chunks| - 1]) + chunks[|chunks| - 1]
  }

  /** How a message is cut into chunks does not matter. */
  lemma {:induction false} ChunkIndependence(chunks: seq<seq<byte>>)
    ensures AbsorbAll(Absorbed(INITIAL, []), chunks) ==
            Absorbed(FoldBlocks(INITIAL, Joined(chunks)), Tail(Joined(chunks)))
  {
    hide Compress;
    if chunks != [] {
      var front, last := chunks[..|chunks| - 1], chunks[|chunks| - 1];
      ChunkIndependence(front);
      FoldResumes(INITIAL, Joined(front), last);
    }
  }

  // ---- Padding ----------------------------------------------------------------------------------

  function PadLength(n: nat): (k: nat)
    ensures 1 <= k <= 64 && (n + k) % 64 == 56
  {
    if n % 64 < 56 then 56 - n % 64 else 120 - n % 64
  }

  /** The `k` low bytes of a number, lowest first. */
  function LowBytes(x: nat, k: nat): (bs: seq<byte>)
    ensures |bs| == k
  {
    if k == 0 then [] else [x % 0x100] + LowBytes(x / 0x100, k - 1)
  }

  /** The number whose bytes these are, lowest first. */
  function LowFirst(bs: seq<byte>): int {
    if bs == [] then 0 else bs[0] + 0x100 * LowFirst(bs[1..])
  }

  lemma {:induction false} LowBytesHold(x: nat, k: nat)
    ensures LowFirst(LowBytes(x, k)) == x % Pow2(8 * k)
  {
    if k > 0 {
      LowBytesHold(x / 0x100, k - 1);
      EightMore(k - 1);
      hide Pow2;
      assert LowBytes(x, k)[1..] == LowBytes(x / 0x100, k - 1);
      SplitLow(x, Pow2(8 * k - 8));
    }
  }

  lemma EightMore(k: nat)
    ensures Pow2(8 * k + 8) == 0x100 * Pow2(8 * k)
  {
    var n := 8 * k;
    assert Pow2(n + 2) == 4 * Pow2(n);
    assert Pow2(n + 4) == 4 * Pow2(n + 2);
    assert Pow2(n + 6) == 4 * Pow2(n + 4);
  }

  lemma {:induction false} SplitLow(x: nat, m: nat)
    requires m > 0
    ensures x % 0x100 + 0x100 * (x / 0x100 % m) == x % (0x100 * m)
  {
    hide *;
    var y, r := x / 0x100, x % 0x100;
    var q, s := y / m, y % m;
    assert y == q * m + s;
    assert x == q * (0x100 * m) + (0x100 * s + r);
    DivisionUnique(x, 0x100 * m, q, 0x100 * s + r);
  }

  /** What the shifts and masks of the original store. */
  lemma {:induction false} StoreIs(x: nat, k: nat)
    ensures Store(x, k) == LowBytes(x, k)
  {
    forall i | 0 <= i < k
      ensures Store(x, k)[i] == LowBytes(x, k)[i]
    {
      StoredByte(x, k, i);
    }
  }

  lemma {:induction false} StoredByte(x: nat, k: nat, i: nat)
    requires i < k
    ensures LowBytes(x, k)[i] == ByteOf(x, i)
  {
    ByteSize();
    if i == 0 {
      ShiftsAreArithmetic(x, 8);
      assert Shr(x, 0) == x;
    } else {
      StoredByte(x / 0x100, k - 1, i - 1);
      ShiftsAreArithmetic(x, 8);
      ShrByte(x, i - 1);
    }
  }

  lemma {:induction false} ShrByte(x: nat, i: nat)
    ensures Shr(x, 8 * i + 8) == Shr(x / 0x100, 8 * i)
  {
    ByteSize();
    ShiftsAreArithmetic(x, 8);
    ShrTwice(x, 8, 8 * i);
  }

  /** A one bit and `k` bytes of zeros in all. */
  function Padding(k: nat): (p: seq<byte>)
    ensures |p| == k
  {
    seq(k, i requires 0 <= i < k => if i == 0 then 0x80 else 0)
  }

  /** Section 3.2: the low 64 bits of the length in bits, low byte first. */
  function LengthBytes(n: nat): (bs: seq<byte>)
    ensures |bs| == 8
  {
    LowBytes(8 * n, 8)
  }

  function PaddedMessage(m: seq<byte>): seq<byte> {
    m + Padding(PadLength(|m|)) + LengthBytes(|m|)
  }

  lemma PaddingIs(k: nat)
    requires 1 <= k <= 64
    ensures ([0x80] + seq(63, _ => 0))[..k] == Padding(k)
  {
  }

  /**
   * The padded message is the message, one byte 0x80, zeros and, in the last eight bytes, lowest first, its length in
   * bits modulo 2^64.
   */
  lemma {:induction false} PaddedIs(m: seq<byte>)
    ensures var p := PaddedMessage(m); var n := |p|;
            && |m| + 9 <= n && p[..|m|] == m && p[|m|] == 0x80
            && (forall i | |m| < i < n - 8 :: p[i] == 0)
            && LowFirst(p[n - 8..]) == 8 * |m| % 0x1_0000_0000_0000_0000
  {
    hide LowBytes, LowFirst;
    var p, k := PaddedMessage(m), PadLength(|m|);
    LowBytesHold(8 * |m|, 8);
    WordSizes();
    assert p[|p| - 8..] == LengthBytes(|m|);
    assert forall i | 0 <= i < k :: p[|m| + i] == Padding(k)[i];
    forall i | |m| < i < |p| - 8
      ensures p[i] == 0
    {
      assert p[i] == Padding(k)[i - |m|];
    }
  }

  /** The padded message is a whole number of blocks. */
  lemma {:induction false} PaddedIsWhole(m: seq<byte>)
    ensures |PaddedMessage(m)| % 64 == 0 && Tail(PaddedMessage(m)) == []
  {
    hide Shl, Store, LengthBytes;
    var k := PadLength(|m|);
    assert |PaddedMessage(m)| == |m| + k + 8;
  }

  function StateBytes(s: State): (bs: seq<byte>)
    ensures |bs| == 16
  {
    LowBytes(s.a, 4) + LowBytes(s.b, 4) + LowBytes(s.c, 4) + LowBytes(s.d, 4)
  }

  /** Four bytes each, lowest first, spell the state's words in order. */
  predicate SpellsState(bytes: seq<byte>, s: State)
    requires |bytes| == 16
  {
    && LowFirst(bytes[0..4]) == s.a && LowFirst(bytes[4..8]) == s.b
    && LowFirst(bytes[8..12]) == s.c && LowFirst(bytes[12..16]) == s.d
  }

  lemma {:induction false} StateWords(s: State)
    ensures SpellsState(StateBytes(s), s)
  {
    hide LowBytes, LowFirst;
    WordHolds(s.a);
    WordHolds(s.b);
    WordHolds(s.c);
    WordHolds(s.d);
    var bytes := StateBytes(s);
    assert bytes[0..4] == LowBytes(s.a, 4) && bytes[4..8] == LowBytes(s.b, 4);
    assert bytes[8..12] == LowBytes(s.c, 4) && bytes[12..16] == LowBytes(s.d, 4);
  }

  lemma WordHolds(w: uint32)
    ensures LowFirst(LowBytes(w, 4)) == w
  {
    hide LowBytes, LowFirst;
    LowBytesHold(w, 4);
    WordSizes();
  }

  function Digest(m: seq<byte>): seq<byte> {
    StateBytes(FoldBlocks(INITIAL, PaddedMessage(m)))
  }

  // ---- The length counter -----------------------------------------------------------------------

  const TWO32: nat := 0x1_0000_0000

  /** Two 32-bit words that hold `n` modulo 2^64, low word first. */
  predicate Counts(total0: uint32, total1: uint32, n: nat) {
    total0 == n % TWO32 && total1 == n / TWO32 % TWO32
  }

  lemma {:induction false} CountMore(total0: uint32, total1: uint32, n: nat, length: uint32)
    requires Counts(total0, total1, n)
    ensures var low := Add32(total0, length);
            Counts(low, if low < length then Add32(total1, 1) else total1, n + length)
  {
    var q, r := n / TWO32, n % TWO32;
    hide Bit, Shl, Shr, Low, And, Or, Xor, Pow2;
    if r + length < TWO32 {
      DivisionUnique(n + length, TWO32, q, r + length);
    } else {
      DivisionUnique(n + length, TWO32, q + 1, r + length - TWO32);
    }
  }

  lemma {:induction false} LowSix(x: nat)
    ensures And(x, 0x3F) == x % 64
  {
    hide And;
    ByteSize();
    AndOnes(x, 6);
    ShiftsAreArithmetic(x, 6);
  }

  /** The two words md5_finish assembles are the length in bits. */
  lemma {:induction false} LengthWords(total0: uint32, total1: uint32, n: nat)
    requires Counts(total0, total1, n)
    ensures Store(Shl32(total0, 3), 4) + Store(Or32(Shr32(total0, 29), Shl32(total1, 3)), 4) == LengthBytes(n)
  {
    assert LengthBytes(n) == Store(Shl(n, 3), 8) by {
      StoreIs(8 * n, 8);
      ShiftsAreArithmetic(n, 3);
    }
    hide LengthBytes;
    hide Bit, Shl, Low, Or, Shr, Pow2, LsbBits;
    var low, high := Shl32(total0, 3), Or32(Shr32(total0, 29), Shl32(total1, 3));
    var words := Store(low, 4) + Store(high, 4);
    forall i | 0 <= i < 64
      ensures LsbBits(words)[i] == LsbBits(LengthBytes(n))[i]
    {
      LsbBitsAt(words, i);
      LsbBitsAt(LengthBytes(n), i);
      ByteOfBit(Shl(n, 3), i / 8, i % 8);
      if i < 32 {
        ByteOfBit(low, i / 8, i % 8);
      } else {
        ByteOfBit(high, (i - 32) / 8, (i - 32) % 8);
      }
      LengthBit(total0, total1, n, i);
    }
    assert LsbBits(words) == LsbBits(LengthBytes(n));
    BytesDetermine(words, LengthBytes(n));
  }

  lemma {:induction false} LengthBit(total0: uint32, total1: uint32, n: nat, i: nat)
    requires Counts(total0, total1, n) && i < 64
    ensures var low, high := Shl32(total0, 3), Or32(Shr32(total0, 29), Shl32(total1, 3));
            Bit(Shl(n, 3), i) == if i < 32 then Bit(low, i) else Bit(high, i - 32)
  {
    hide Bit, Shl, Low, Or, Shr, Pow2;
    BitShl(n, 3, i);
    if i < 32 {
      BitLow(Shl(total0, 3), 32, i);
      BitShl(total0, 3, i);
      if i >= 3 {
        CounterBit(total0, total1, n, i - 3);
      }
    } else {
      var j := i - 32;
      BitOr(Shr32(total0, 29), Shl32(total1, 3), j);
      BitShr(total0, 29, j);
      BitLow(Shl(total1, 3), 32, j);
      BitShl(total1, 3, j);
      CounterBit(total0, total1, n, i - 3);
      if j >= 3 {
        WordSizes();
        BitAbove(total0, 32, j + 29);
      }
    }
  }

  lemma {:induction false} CounterBit(total0: uint32, total1: uint32, n: nat, i: nat)
    requires Counts(total0, total1, n) && i < 64
    ensures Bit(n, i) == if i < 32 then Bit(total0, i) else Bit(total1, i - 32)
  {
    hide Bit, Low, Shr, Pow2;
    WordSizes();
    ShiftsAreArithmetic(n, 32);
    if i < 32 {
      BitLow(n, 32, i);
    } else {
      ShiftsAreArithmetic(n / TWO32, 32);
      BitLow(n / TWO32, 32, i - 32);
      BitShr(n, 32, i - 32);
    }
  }

  // ---- The context ------------------------------------------------------------------------------

  class Context {
    var total0: uint32
    var total1: uint32
    var state: State
    const buffer: array<byte>
    /** Everything absorbed since the start. */
    ghost var message: seq<byte>

    ghost predicate Valid()
      reads this, buffer
    {
      && buffer.Length == 64
      && Counts(total0, total1, |message|)
      && state == FoldBlocks(INITIAL, message)
      && buffer[..|message| % 64] == Tail(message)
    }

    constructor ()
      ensures Valid() && message == [] && fresh(buffer)
    {
      total0, total1, state := 0, 0, INITIAL;
      buffer := new byte[64](_ => 0);
      message := [];
    }

    method Starts()
      requires buffer.Length == 64
      modifies this
      ensures Valid() && message == []
    {
      total0, total1 := 0, 0;
      state := State(0x67452301, 0xEFCDAB89, 0x98BADCFE, 0x10325476);
      message := [];
    }

    method CopyIn(at: nat, source: seq<byte>)
      requires at + |source| <= buffer.Length
      modifies buffer
      ensures buffer[..at + |source|] == old(buffer[..at]) + source
    {
      forall k | 0 <= k < |source| {
        buffer[at + k] := source[k];
      }
    }

    method Update(input: seq<byte>)
      requires Valid() && |input| < TWO32
      modifies this, buffer
      ensures Valid() && message == old(message) + input
    {
      hide Compress, FoldBlocks, Counts, Add32, And, Tail;
      if |input| == 0 {
        assert message + input == message;
        return;
      }
      ghost var tail := Tail(message);
      CounterLow(total0, total1, |message|);
      FoldResumes(INITIAL, message, input);
      CountMore(total0, total1, |message|, |input|);
      var left := And(total0, 0x3F);
      var fill := 64 - left;
      total0 := Add32(total0, |input|);
      if total0 < |input| {
        total1 := Add32(total1, 1);
      }
      message := message + input;
      ghost var rest := tail + input;
      if left > 0 && |input| >= fill {
        CopyIn(left, input[..fill]);
        assert rest[..64] == tail + input[..fill] == buffer[..] && rest[64..] == input[fill..];
        FoldOne(state, rest);
        state := Process(state, buffer[..]);
        assert buffer[..0] + input[fill..] == rest[64..];
        WholeBlocks(input, fill, 0);
      } else {
        assert buffer[..left] + input[0..] == rest;
        WholeBlocks(input, 0, left);
      }
    }

    /** The rest of `input` from `at` on: whole blocks straight from the input, the remainder into the buffer. */
    method WholeBlocks(input: seq<byte>, from: nat, left: nat)
      requires buffer.Length == 64 && from <= |input| && (left == 0 || left + |input| - from < 64)
      modifies this`state, buffer
      ensures var rest := old(buffer[..left]) + input[from..];
              state == FoldBlocks(old(state), rest) && buffer[..|rest| % 64] == Tail(rest)
    {
      hide Compress, FoldBlocks, Tail;
      ghost var rest := buffer[..left] + input[from..];
      ghost var s0 := state;
      var at := from;
      while |input| - at >= 64
        modifies this`state
        invariant from <= at <= |input| && (left == 0 || at == from)
        invariant FoldBlocks(state, buffer[..left] + input[at..]) == FoldBlocks(s0, rest)
        invariant Tail(buffer[..left] + input[at..]) == Tail(rest)
      {
        ghost var now := buffer[..left] + input[at..];
        FoldOne(state, now);
        assert now[..64] == input[at..at + 64] && now[64..] == buffer[..left] + input[at + 64..];
        state := Process(state, input[at..at + 64]);
        at := at + 64;
      }
      ghost var now := buffer[..left] + input[at..];
      FoldNone(state, now);
      if at < |input| {
        CopyIn(left, input[at..]);
      }
      assert buffer[..|now|] == now;
    }

    method Finish(digest: array<byte>)
      requires Valid() && digest != buffer && digest.Length >= 16
      modifies this, buffer, digest
      ensures Valid() && message == PaddedMessage(old(message)) && Tail(message) == []
      ensures digest[..16] == Digest(old(message)) && digest[16..] == old(digest[16..])
      ensures SpellsState(digest[..16], FoldBlocks(INITIAL, PaddedMessage(old(message))))
    {
      hide Compress, FoldBlocks, Counts, And, Shl32, Shr32, Or32, Padding, Store, LowBytes, LengthBytes, SpellsState;
      ghost var m := message;
      var high := Or32(Shr32(total0, 29), Shl32(total1, 3));
      var low := Shl32(total0, 3);
      var msglen := Store(low, 4) + Store(high, 4);
      LengthWords(total0, total1, |message|);
      CounterLow(total0, total1, |message|);
      var last := And(total0, 0x3F);
      var padn := if last < 56 then 56 - last else 120 - last;
      PaddingIs(padn);
      Update(([0x80] + seq(63, _ => 0))[..padn]);
      Update(msglen);
      PaddedIsWhole(m);
      assert message == PaddedMessage(m);
      var bytes := Store(state.a, 4) + Store(state.b, 4) + Store(state.c, 4) + Store(state.d, 4);
      StoreIs(state.a, 4);
      StoreIs(state.b, 4);
      StoreIs(state.c, 4);
      StoreIs(state.d, 4);
      StateWords(state);
      forall k | 0 <= k < 16 {
        digest[k] := bytes[k];
      }
    }
  }

  lemma {:induction false} CounterLow(total0: uint32, total1: uint32, n: nat)
    requires Counts(total0, total1, n)
    ensures And(total0, 0x3F) == n % 64
  {
    LowSix(total0);
    var q := n / TWO32;
    assert n == TWO32 * q + total0;
    hide *;
    DivisionUnique(n, 64, q * 0x400_0000 + total0 / 64, total0 % 64);
  }

  lemma FoldOne(s: State, m: seq<byte>)
    requires |m| >= 64
    ensures FoldBlocks(s, m) == FoldBlocks(Compress(s, m[..64]), m[64..]) && Tail(m) == Tail(m[64..])
  {
    hide Compress;
    TailOne(m);
  }

  lemma FoldNone(s: State, m: seq<byte>)
    requires |m| < 64
    ensures FoldBlocks(s, m) == s && Tail(m) == m
  {
  }

  /** md5: the digest of the first `size` bytes of `text`. */
  method Hash(text: seq<byte>, hash: array<byte>, size: nat)
    requires size <= |text| && size < 0x8000_0000 && hash.Length >= 16
    modifies hash
    ensures hash[..16] == Digest(text[..size]) && hash[16..] == old(hash[16..])
    ensures SpellsState(hash[..16], FoldBlocks(INITIAL, PaddedMessage(text[..size])))
  {
    var ctx := new Context();
    ctx.Starts();
    ctx.Update(text[..size]);
    assert [] + text[..size] == text[..size];
    ctx.Finish(hash);
  }
}
