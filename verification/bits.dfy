/**
 * Bit sequences of words and of byte buffers, in both orders the sources use: least significant bit
 * first (packed structures, the packet codec) and most significant bit first (names, Base32).
 */
module Bits {
  import opened Words

  /** The `n` low digits of `x`, least significant first. */
  function LsbDigits(x: nat, n: nat): (s: seq<bool>)
    ensures |s| == n
  {
    seq(n, i requires 0 <= i < n => Bit(x, i))
  }

  /** The `n` low digits of `x`, most significant first. */
  function MsbDigits(x: nat, n: nat): (s: seq<bool>)
    ensures |s| == n
  {
    seq(n, i requires 0 <= i < n => Bit(x, n - 1 - i))
  }

  /** A byte buffer read bit by bit, the low bit of each byte first. */
  function LsbBits(bs: seq<byte>): (s: seq<bool>)
    ensures |s| == 8 * |bs|
  {
    seq(8 * |bs|, i requires 0 <= i < 8 * |bs| => Bit(bs[i / 8], i % 8))
  }

  /** A byte buffer read bit by bit, the high bit of each byte first. */
  function MsbBits(bs: seq<byte>): (s: seq<bool>)
    ensures |s| == 8 * |bs|
  {
    seq(8 * |bs|, i requires 0 <= i < 8 * |bs| => Bit(bs[i / 8], 7 - i % 8))
  }

  lemma LsbBitsAt(bs: seq<byte>, i: nat)
    requires i < 8 * |bs|
    ensures LsbBits(bs)[i] == Bit(bs[i / 8], i % 8)
  {
  }

  lemma MsbBitsAt(bs: seq<byte>, i: nat)
    requires i < 8 * |bs|
    ensures MsbBits(bs)[i] == Bit(bs[i / 8], 7 - i % 8)
  {
  }

  lemma LsbDigitsAt(x: nat, n: nat, i: nat)
    requires i < n
    ensures LsbDigits(x, n)[i] == Bit(x, i)
  {
  }

  lemma MsbDigitsAt(x: nat, n: nat, i: nat)
    requires i < n
    ensures MsbDigits(x, n)[i] == Bit(x, n - 1 - i)
  {
  }

  /** `s` with the slice that starts at `at` replaced by `t`. */
  function Splice(s: seq<bool>, at: nat, t: seq<bool>): (r: seq<bool>)
    requires at + |t| <= |s|
    ensures |r| == |s|
  {
    s[..at] + t + s[at + |t|..]
  }

  lemma SpliceAt(s: seq<bool>, at: nat, t: seq<bool>, i: nat)
    requires at + |t| <= |s| && i < |s|
    ensures Splice(s, at, t)[i] == if at <= i < at + |t| then t[i - at] else s[i]
  {
  }

  lemma SliceOfSlice<T>(s: seq<T>, lo: nat, hi: nat, a: nat, b: nat)
    requires lo <= hi <= |s| && a <= b <= hi - lo
    ensures s[lo..hi][a..b] == s[lo + a..lo + b]
  {
    forall i | 0 <= i < b - a
      ensures s[lo..hi][a..b][i] == s[lo + a..lo + b][i]
    {
    }
  }

  /** The unsigned number whose digits, least significant first, are `s`. */
  function FromLsb(s: seq<bool>): nat {
    if s == [] then 0 else (if s[0] then 1 else 0) + 2 * FromLsb(s[1..])
  }

  /** The little-endian number a memcpy into a wide enough word reads from `bs`. */
  function Load(bs: seq<byte>): nat {
    if bs == [] then 0 else bs[0] + Shl(Load(bs[1..]), 8)
  }

  /** Byte `k` of a word, counted from the least significant end. */
  function ByteOf(w: nat, k: nat): byte {
    ByteSize();
    LowBound(Shr(w, 8 * k), 8);
    Low(Shr(w, 8 * k), 8)
  }

  /** The `n` low bytes of `w`, as a memcpy out of a little-endian word writes them. */
  function Store(w: nat, n: nat): (bs: seq<byte>)
    ensures |bs| == n && forall k | 0 <= k < n :: bs[k] == ByteOf(w, k)
  {
    seq(n, k requires 0 <= k < n => ByteOf(w, k))
  }

  lemma {:induction false} LoadBit(bs: seq<byte>, i: nat)
    ensures Bit(Load(bs), i) == (i < 8 * |bs| && Bit(bs[i / 8], i % 8))
  {
    if bs == [] {
      BitZero(i);
    } else {
      hide Bit, Shl, Pow2;
      ByteSize();
      BitMerge(bs[0], Load(bs[1..]), 8, i);
      if i >= 8 {
        LoadBit(bs[1..], i - 8);
      }
    }
  }

  lemma {:induction false} ByteOfBit(w: nat, k: nat, t: nat)
    requires t < 8
    ensures Bit(ByteOf(w, k), t) == Bit(w, 8 * k + t)
  {
    BitLow(Shr(w, 8 * k), 8, t);
    BitShr(w, 8 * k, t);
  }

  lemma {:induction false} StoreBit(w: nat, n: nat, i: nat)
    requires i < 8 * n
    ensures Bit(Store(w, n)[i / 8], i % 8) == Bit(w, i)
  {
    ByteOfBit(w, i / 8, i % 8);
  }

  lemma {:induction false} LoadDigits(bs: seq<byte>)
    ensures LsbDigits(Load(bs), 8 * |bs|) == LsbBits(bs)
    ensures Load(bs) < Pow2(8 * |bs|)
  {
    forall i: nat
      ensures Bit(Load(bs), i) == (i < 8 * |bs| && Bit(bs[i / 8], i % 8))
    {
      LoadBit(bs, i);
    }
    BelowPow2(Load(bs), 8 * |bs|);
  }

  lemma {:induction false} FromLsbBit(s: seq<bool>, i: nat)
    ensures Bit(FromLsb(s), i) == (i < |s| && s[i])
  {
    if s == [] {
      BitZero(i);
    } else if i > 0 {
      FromLsbBit(s[1..], i - 1);
    }
  }

  lemma {:induction false} DigitsBound(s: seq<bool>)
    ensures FromLsb(s) < Pow2(|s|)
  {
    if s != [] {
      DigitsBound(s[1..]);
    }
  }

  /** A buffer is determined by its bits. */
  lemma {:induction false} BytesDetermine(a: seq<byte>, b: seq<byte>)
    requires LsbBits(a) == LsbBits(b)
    ensures a == b
  {
    hide Bit, Pow2;
    assert |LsbBits(a)| == |LsbBits(b)|;
    ByteSize();
    forall k | 0 <= k < |a|
      ensures a[k] == b[k]
    {
      forall i | 0 <= i < 8
        ensures Bit(a[k], i) == Bit(b[k], i)
      {
        assert LsbBits(a)[8 * k + i] == LsbBits(b)[8 * k + i];
      }
      DigitsDetermine(a[k], b[k], 8);
    }
  }

  /** The bytes that read `s` high bit first. */
  function FromMsbBits(s: seq<bool>): (bs: seq<byte>)
    requires |s| % 8 == 0
    ensures 8 * |bs| == |s|
  {
    seq(|s| / 8, q requires 0 <= q < |s| / 8 => MsbByte(s[8 * q..8 * q + 8]))
  }

  function MsbByte(s: seq<bool>): byte
    requires |s| == 8
  {
    var digits := seq(8, t requires 0 <= t < 8 => s[7 - t]);
    DigitsBound(digits);
    ByteSize();
    FromLsb(digits)
  }

  lemma {:induction false} FromMsbBitsUnique(s: seq<bool>, bs: seq<byte>)
    requires MsbBits(bs) == s
    ensures |s| % 8 == 0 && bs == FromMsbBits(s)
  {
    hide Bit, FromLsb, Pow2, MsbBits;
    assert |s| == 8 * |bs|;
    forall q | 0 <= q < |bs|
      ensures bs[q] == MsbByte(s[8 * q..8 * q + 8])
    {
      var window := s[8 * q..8 * q + 8];
      var digits := seq(8, t requires 0 <= t < 8 => window[7 - t]);
      ByteSize();
      forall t | 0 <= t < 8
        ensures Bit(bs[q], t) == Bit(MsbByte(window), t)
      {
        FromLsbBit(digits, t);
        MsbBitsAt(bs, 8 * q + 7 - t);
      }
      DigitsDetermine(bs[q], MsbByte(window), 8);
    }
  }
}
