/** The packet cipher: a sixteen-round Feistel network, its four-way interleaved block routines and its key schedule. */
module Blowfish {
  import opened Words
  import opened Words32
  import opened Bits

  const ROUNDS: nat := 16

  type Subkeys = p: seq<uint32> | |p| == 18 witness seq(18, _ => 0)
  type Boxes = s: seq<uint32> | |s| == 1024 witness seq(1024, _ => 0)

  datatype Block = Block(left: uint32, right: uint32)

  lemma {:induction false} LowByteBound(x: uint32)
    ensures And32(x, 0xFF) < 256
  {
    hide And, Low;
    ByteSize();
    AndOnes(x, 8);
    LowBound(x, 8);
  }

  lemma {:induction false} HighByteBound(x: uint32)
    ensures Shr32(x, 24) < 256
  {
    hide Shr, Pow2;
    ShiftsAreArithmetic(x, 24);
    assert Pow2(24) == 0x100_0000 by { Pow2Of24(); }
  }

  /** The round function. */
  function TT(working: uint32, S: Boxes): uint32 {
    LowByteBound(Shr32(working, 8));
    LowByteBound(Shr32(working, 16));
    LowByteBound(working);
    HighByteBound(working);
    Add32(Add32(Add32(Xor32(And32(S[256 + And32(Shr32(working, 8), 0xFF)], 1), 32),
                      Xor32(And32(S[768 + Shr32(working, 24)], 1), 32)),
                S[512 + And32(Shr32(working, 16), 0xFF)]),
          S[And32(working, 0xFF)])
  }

  /** The round function in plain arithmetic: which box words it adds, and how the first two are cut to 32 and 33. */
  lemma {:induction false} RoundFunction(w: uint32, S: Boxes)
    ensures var s0: int, s1: int := S[w % 0x100], S[256 + w / 0x100 % 0x100];
            var s2: int, s3: int := S[512 + w / 0x1_0000 % 0x100], S[768 + w / 0x100_0000];
            TT(w, S) == ((s1 % 2 + 32) + (s3 % 2 + 32) + s2 + s0) % 0x1_0000_0000
  {
    hide And, Shr, Low, Xor, Pow2, Bit;
    ByteIndex(w);
    ParityAnd32(S[256 + w / 0x100 % 0x100]);
    ParityAnd32(S[768 + w / 0x100_0000]);
    hide And32, Xor32, Shr32;
  }

  lemma {:induction false} ByteIndex(w: uint32)
    ensures And32(w, 0xFF) == w % 0x100 && And32(Shr32(w, 8), 0xFF) == w / 0x100 % 0x100
    ensures And32(Shr32(w, 16), 0xFF) == w / 0x1_0000 % 0x100 && Shr32(w, 24) == w / 0x100_0000
  {
    ByteSize();
    WordSizes();
    Pow2Of24();
    hide And, Shr, Low, Pow2;
    LowByteIs(w);
    LowByteIs(Shr32(w, 8));
    LowByteIs(Shr32(w, 16));
    ShiftsAreArithmetic(w, 8);
    ShiftsAreArithmetic(w, 16);
    ShiftsAreArithmetic(w, 24);
  }

  lemma {:induction false} LowByteIs(x: uint32)
    ensures And32(x, 0xFF) == x % 0x100
  {
    ByteSize();
    hide And, Low, Pow2;
    AndOnes(x, 8);
    ShiftsAreArithmetic(x, 8);
  }

  lemma {:induction false} ParityAnd32(x: uint32)
    ensures Xor32(And32(x, 1), 32) == x % 2 + 32
  {
    assert And(x, 1) == x % 2 by {
      assert And(x / 2, 0) == 0;
    }
    assert Xor(0, 1) == 1;
    assert Xor(0, 2) == 2;
    assert Xor(0, 4) == 4;
    assert Xor(0, 8) == 8;
    assert Xor(0, 16) == 16;
  }

  /** One round under subkey `p`, halves exchanged. */
  function Round(p: uint32, S: Boxes, x: Block): Block {
    var mixed := Xor32(x.left, p);
    Block(Xor32(TT(mixed, S), x.right), mixed)
  }

  /** The first `n` rounds, with subkeys in order. */
  function Rounds(P: Subkeys, S: Boxes, n: nat, x: Block): Block
    requires n <= ROUNDS
  {
    if n == 0 then x else Round(P[n - 1], S, Rounds(P, S, n - 1, x))
  }

  function Encipher(P: Subkeys, S: Boxes, x: Block): Block {
    var y := Rounds(P, S, ROUNDS, x);
    Block(Xor32(y.right, P[17]), Xor32(y.left, P[16]))
  }

  function Reversed(P: Subkeys): (r: Subkeys)
    ensures forall i | 0 <= i < 18 :: r[i] == P[17 - i]
  {
    seq(18, i requires 0 <= i < 18 => P[17 - i])
  }

  /** Deciphering is enciphering with the subkeys in reverse. */
  function Decipher(P: Subkeys, S: Boxes, x: Block): Block {
    Encipher(Reversed(P), S, x)
  }

  // ---- Inversion, whatever the tables ----------------------------------------------------------------

  /** After `j` reverse rounds the state is the one `16 - j` forward rounds left, masked by the next two subkeys. */
  lemma {:induction false} Unwinds(P: Subkeys, S: Boxes, x: Block, j: nat)
    requires j <= ROUNDS
    ensures var y := Rounds(P, S, ROUNDS - j, x);
            Rounds(Reversed(P), S, j, Encipher(P, S, x)) == Block(Xor32(y.right, P[17 - j]), Xor32(y.left, P[16 - j]))
  {
    hide TT, Xor32;
    if j > 0 {
      Unwinds(P, S, x, j - 1);
      UnwindRound(P[16 - j], P[17 - j], P[18 - j], S, Rounds(P, S, ROUNDS - j, x));
    }
  }

  /** One reverse round undoes one forward round. */
  lemma {:induction false} UnwindRound(p: uint32, q: uint32, r: uint32, S: Boxes, y: Block)
    ensures var z := Round(p, S, y);
            Round(r, S, Block(Xor32(z.right, r), Xor32(z.left, q))) == Block(Xor32(y.right, q), Xor32(y.left, p))
  {
    hide TT, Xor32;
    var z := Round(p, S, y);
    XorTwice(z.right, r);
    XorCancels(TT(z.right, S), y.right, q);
  }

  lemma {:induction false} XorCancels(t: uint32, x: uint32, q: uint32)
    ensures Xor32(t, Xor32(Xor32(t, x), q)) == Xor32(x, q)
  {
    hide Bit, Xor;
    forall i | 0 <= i < 32
      ensures Bit(Xor32(t, Xor32(Xor32(t, x), q)), i) == Bit(Xor32(x, q), i)
    {
      BitXor(t, x, i);
      BitXor(Xor32(t, x), q, i);
      BitXor(t, Xor32(Xor32(t, x), q), i);
      BitXor(x, q, i);
    }
    Same32(Xor32(t, Xor32(Xor32(t, x), q)), Xor32(x, q));
  }

  lemma {:induction false} DecipherInvertsEncipher(P: Subkeys, S: Boxes, x: Block)
    ensures Decipher(P, S, Encipher(P, S, x)) == x
  {
    hide TT, Xor32, Rounds;
    Unwinds(P, S, x, ROUNDS);
    RoundsNone(P, S, x);
    XorTwice(x.left, P[0]);
    XorTwice(x.right, P[1]);
  }

  lemma RoundsNone(P: Subkeys, S: Boxes, x: Block)
    ensures Rounds(P, S, 0, x) == x
  {
  }

  lemma {:induction false} EncipherInvertsDecipher(P: Subkeys, S: Boxes, x: Block)
    ensures Encipher(P, S, Decipher(P, S, x)) == x
  {
    assert Reversed(Reversed(P)) == P;
    DecipherInvertsEncipher(Reversed(P), S, x);
  }

  // ---- The scalar routines ---------------------------------------------------------------------------

  method EncipherScalar(xl: uint32, xr: uint32, P: Subkeys, S: Boxes) returns (l: uint32, r: uint32)
    ensures Block(l, r) == Encipher(P, S, Block(xl, xr))
  {
    hide TT, Xor32;
    var Xl, Xr := xl, xr;
    for i := 0 to 16
      invariant Block(Xl, Xr) == Rounds(P, S, i, Block(xl, xr))
    {
      Xl := Xor32(Xl, P[i]);
      Xr := Xor32(TT(Xl, S), Xr);
      var temp := Xl;
      Xl := Xr;
      Xr := temp;
    }
    var temp := Xl;
    Xl := Xr;
    Xr := temp;
    Xr := Xor32(Xr, P[16]);
    Xl := Xor32(Xl, P[17]);
    l, r := Xl, Xr;
  }

  method DecipherScalar(xl: uint32, xr: uint32, P: Subkeys, S: Boxes) returns (l: uint32, r: uint32)
    ensures Block(l, r) == Decipher(P, S, Block(xl, xr))
  {
    hide TT, Xor32;
    var Xl, Xr := xl, xr;
    var i := 17;
    while i > 1
      invariant 1 <= i <= 17
      invariant Block(Xl, Xr) == Rounds(Reversed(P), S, 17 - i, Block(xl, xr))
    {
      Xl := Xor32(Xl, P[i]);
      Xr := Xor32(TT(Xl, S), Xr);
      var temp := Xl;
      Xl := Xr;
      Xr := temp;
      i := i - 1;
    }
    var temp := Xl;
    Xl := Xr;
    Xr := temp;
    Xr := Xor32(Xr, P[1]);
    Xl := Xor32(Xl, P[0]);
    l, r := Xl, Xr;
  }

  // ---- The interleaved routines ----------------------------------------------------------------------

  function BlockAt(words: seq<uint32>, b: nat): Block
    requires 2 * b + 1 < |words|
  {
    Block(words[2 * b], words[2 * b + 1])
  }

  /** Blocks `from` to `until - 1` of `after` are those of `before` enciphered; everything else is as before. */
  predicate Enciphered(P: Subkeys, S: Boxes, before: seq<uint32>, after: seq<uint32>, until: nat) {
    && |after| == |before| && 2 * until <= |before|
    && (forall b | 0 <= b < until :: BlockAt(after, b) == Encipher(P, S, BlockAt(before, b)))
    && (forall k | 2 * until <= k < |before| :: after[k] == before[k])
  }

  lemma {:induction false} EncipheredMore(P: Subkeys, S: Boxes, before: seq<uint32>, during: seq<uint32>,
                                          after: seq<uint32>, b: nat, n: nat)
    requires Enciphered(P, S, before, during, b) && |after| == |before| && 2 * (b + n) <= |before|
    requires forall k | 0 <= k < |before| && !(2 * b <= k < 2 * (b + n)) :: after[k] == during[k]
    requires forall c | b <= c < b + n :: BlockAt(after, c) == Encipher(P, S, BlockAt(during, c))
    ensures Enciphered(P, S, before, after, b + n)
  {
    hide Encipher;
    forall c | 0 <= c < b + n
      ensures BlockAt(after, c) == Encipher(P, S, BlockAt(before, c))
    {
      if c < b {
        assert BlockAt(after, c) == BlockAt(during, c);
      } else {
        assert BlockAt(during, c) == BlockAt(before, c);
      }
    }
  }

  method EncipherBlocks(data: array<uint32>, count: nat, P: Subkeys, S: Boxes)
    requires 2 * count <= data.Length
    modifies data
    ensures Enciphered(P, S, old(data[..]), data[..], count)
  {
    hide TT, Xor32, Enciphered, Rounds;
    ghost var before := data[..];
    var b := 0;
    EncipheredNone(P, S, before);
    while b + 4 <= count
      invariant b <= count && Enciphered(P, S, before, data[..], b)
    {
      ghost var during := data[..];
      var p := 2 * b;
      var L0, R0, L1, R1 := data[p], data[p + 1], data[p + 2], data[p + 3];
      var L2, R2, L3, R3 := data[p + 4], data[p + 5], data[p + 6], data[p + 7];
      FourStart(P, S, during, b);
      for i := 0 to 16
        modifies {}
        invariant FourRounds(P, S, during, b, i, Block(L0, R0), Block(L1, R1), Block(L2, R2), Block(L3, R3))
      {
        FourMore(P, S, during, b, i, Block(L0, R0), Block(L1, R1), Block(L2, R2), Block(L3, R3));
        L0 := Xor32(L0, P[i]);
        var t0 := Xor32(TT(L0, S), R0);
        R0 := L0;
        L0 := t0;
        L1 := Xor32(L1, P[i]);
        var t1 := Xor32(TT(L1, S), R1);
        R1 := L1;
        L1 := t1;
        L2 := Xor32(L2, P[i]);
        var t2 := Xor32(TT(L2, S), R2);
        R2 := L2;
        L2 := t2;
        L3 := Xor32(L3, P[i]);
        var t3 := Xor32(TT(L3, S), R3);
        R3 := L3;
        L3 := t3;
      }
      data[p], data[p + 1] := Xor32(R0, P[17]), Xor32(L0, P[16]);
      data[p + 2], data[p + 3] := Xor32(R1, P[17]), Xor32(L1, P[16]);
      data[p + 4], data[p + 5] := Xor32(R2, P[17]), Xor32(L2, P[16]);
      data[p + 6], data[p + 7] := Xor32(R3, P[17]), Xor32(L3, P[16]);
      FourDone(P, S, during, data[..], b, Block(L0, R0), Block(L1, R1), Block(L2, R2), Block(L3, R3));
      EncipheredMore(P, S, before, during, data[..], b, 4);
      b := b + 4;
    }
    while b < count
      invariant b <= count && Enciphered(P, S, before, data[..], b)
    {
      ghost var during := data[..];
      var l, r := EncipherScalar(data[2 * b], data[2 * b + 1], P, S);
      data[2 * b], data[2 * b + 1] := l, r;
      assert BlockAt(data[..], b) == Block(l, r);
      EncipheredMore(P, S, before, during, data[..], b, 1);
      b := b + 1;
    }
  }

  /** The same with the subkeys taken from the end. */
  method DecipherBlocks(data: array<uint32>, count: nat, P: Subkeys, S: Boxes)
    requires 2 * count <= data.Length
    modifies data
    ensures Enciphered(Reversed(P), S, old(data[..]), data[..], count)
  {
    hide TT, Xor32, Enciphered, Rounds;
    ghost var before := data[..];
    ghost var Q := Reversed(P);
    var b := 0;
    EncipheredNone(Q, S, before);
    while b + 4 <= count
      invariant b <= count && Enciphered(Q, S, before, data[..], b)
    {
      ghost var during := data[..];
      var p := 2 * b;
      var L0, R0, L1, R1 := data[p], data[p + 1], data[p + 2], data[p + 3];
      var L2, R2, L3, R3 := data[p + 4], data[p + 5], data[p + 6], data[p + 7];
      FourStart(Q, S, during, b);
      var i := 17;
      while i > 1
        modifies {}
        invariant 1 <= i <= 17
        invariant FourRounds(Q, S, during, b, 17 - i, Block(L0, R0), Block(L1, R1), Block(L2, R2), Block(L3, R3))
      {
        FourMore(Q, S, during, b, 17 - i, Block(L0, R0), Block(L1, R1), Block(L2, R2), Block(L3, R3));
        L0 := Xor32(L0, P[i]);
        var t0 := Xor32(TT(L0, S), R0);
        R0 := L0;
        L0 := t0;
        L1 := Xor32(L1, P[i]);
        var t1 := Xor32(TT(L1, S), R1);
        R1 := L1;
        L1 := t1;
        L2 := Xor32(L2, P[i]);
        var t2 := Xor32(TT(L2, S), R2);
        R2 := L2;
        L2 := t2;
        L3 := Xor32(L3, P[i]);
        var t3 := Xor32(TT(L3, S), R3);
        R3 := L3;
        L3 := t3;
        i := i - 1;
      }
      data[p], data[p + 1] := Xor32(R0, P[0]), Xor32(L0, P[1]);
      data[p + 2], data[p + 3] := Xor32(R1, P[0]), Xor32(L1, P[1]);
      data[p + 4], data[p + 5] := Xor32(R2, P[0]), Xor32(L2, P[1]);
      data[p + 6], data[p + 7] := Xor32(R3, P[0]), Xor32(L3, P[1]);
      FourDone(Q, S, during, data[..], b, Block(L0, R0), Block(L1, R1), Block(L2, R2), Block(L3, R3));
      EncipheredMore(Q, S, before, during, data[..], b, 4);
      b := b + 4;
    }
    while b < count
      invariant b <= count && Enciphered(Q, S, before, data[..], b)
    {
      ghost var during := data[..];
      var l, r := DecipherScalar(data[2 * b], data[2 * b + 1], P, S);
      data[2 * b], data[2 * b + 1] := l, r;
      assert BlockAt(data[..], b) == Block(l, r);
      EncipheredMore(Q, S, before, during, data[..], b, 1);
      b := b + 1;
    }
  }

  lemma EncipheredNone(P: Subkeys, S: Boxes, words: seq<uint32>)
    ensures Enciphered(P, S, words, words, 0)
  {
  }

  /** The four interleaved chains have each done `n` rounds. */
  predicate FourRounds(P: Subkeys, S: Boxes, words: seq<uint32>, b: nat, n: nat,
                       x0: Block, x1: Block, x2: Block, x3: Block) {
    && n <= ROUNDS && 2 * b + 8 <= |words|
    && x0 == Rounds(P, S, n, BlockAt(words, b)) && x1 == Rounds(P, S, n, BlockAt(words, b + 1))
    && x2 == Rounds(P, S, n, BlockAt(words, b + 2)) && x3 == Rounds(P, S, n, BlockAt(words, b + 3))
  }

  lemma FourStart(P: Subkeys, S: Boxes, words: seq<uint32>, b: nat)
    requires 2 * b + 8 <= |words|
    ensures FourRounds(P, S, words, b, 0, BlockAt(words, b), BlockAt(words, b + 1),
                       BlockAt(words, b + 2), BlockAt(words, b + 3))
  {
  }

  lemma {:induction false} FourMore(P: Subkeys, S: Boxes, words: seq<uint32>, b: nat, n: nat,
                                    x0: Block, x1: Block, x2: Block, x3: Block)
    requires FourRounds(P, S, words, b, n, x0, x1, x2, x3) && n < ROUNDS
    ensures FourRounds(P, S, words, b, n + 1, Round(P[n], S, x0), Round(P[n], S, x1),
                       Round(P[n], S, x2), Round(P[n], S, x3))
  {
    hide Round;
  }

  lemma {:induction false} FourDone(P: Subkeys, S: Boxes, during: seq<uint32>, after: seq<uint32>, b: nat,
                                    x0: Block, x1: Block, x2: Block, x3: Block)
    requires |after| == |during| && FourRounds(P, S, during, b, ROUNDS, x0, x1, x2, x3)
    requires BlockAt(after, b) == Block(Xor32(x0.right, P[17]), Xor32(x0.left, P[16]))
    requires BlockAt(after, b + 1) == Block(Xor32(x1.right, P[17]), Xor32(x1.left, P[16]))
    requires BlockAt(after, b + 2) == Block(Xor32(x2.right, P[17]), Xor32(x2.left, P[16]))
    requires BlockAt(after, b + 3) == Block(Xor32(x3.right, P[17]), Xor32(x3.left, P[16]))
    ensures forall c | b <= c < b + 4 :: BlockAt(after, c) == Encipher(P, S, BlockAt(during, c))
  {
    hide Rounds, Xor32;
    forall c | b <= c < b + 4
      ensures BlockAt(after, c) == Encipher(P, S, BlockAt(during, c))
    {
      assert c == b || c == b + 1 || c == b + 2 || c == b + 3;
    }
  }

  /** Deciphering a buffer that was enciphered restores it, words past the blocks included. */
  lemma {:induction false} BlocksRoundTrip(P: Subkeys, S: Boxes, a: seq<uint32>, b: seq<uint32>, c: seq<uint32>,
                                           count: nat)
    requires Enciphered(P, S, a, b, count) && Enciphered(Reversed(P), S, b, c, count)
    ensures c == a
  {
    hide Encipher, Reversed, Rounds;
    forall k | 0 <= k < |a|
      ensures c[k] == a[k]
    {
      if k < 2 * count {
        var n := k / 2;
        assert BlockAt(b, n) == Encipher(P, S, BlockAt(a, n));
        assert BlockAt(c, n) == Encipher(Reversed(P), S, BlockAt(b, n));
        DecipherInvertsEncipher(P, S, BlockAt(a, n));
      }
    }
  }

  // ---- The key schedule ------------------------------------------------------------------------------

  /** Word `i` of the constant table, as a little-endian memcpy reads it. */
  function TableWord(subkey: seq<byte>, i: nat): uint32
    requires 4 * i + 4 <= |subkey|
  {
    LoadDigits(subkey[4 * i..4 * i + 4]);
    WordSizes();
    Load(subkey[4 * i..4 * i + 4])
  }

  lemma {:induction false} TableWordIs(subkey: seq<byte>, i: nat)
    requires 4 * i + 4 <= |subkey|
    ensures var b0: int, b1: int, b2: int, b3: int :=
              subkey[4 * i], subkey[4 * i + 1], subkey[4 * i + 2], subkey[4 * i + 3];
            TableWord(subkey, i) == b0 + 0x100 * b1 + 0x1_0000 * b2 + 0x100_0000 * b3
  {
    var bs := subkey[4 * i..4 * i + 4];
    ByteSize();
    hide Pow2, Shl;
    assert Load(bs[4..]) == 0;
    ShiftsAreArithmetic(0, 8);
    assert bs[2..][1..] == bs[3..] && bs[1..][1..] == bs[2..] && bs[3..][1..] == bs[4..];
    ShiftsAreArithmetic(Load(bs[3..]), 8);
    ShiftsAreArithmetic(Load(bs[2..]), 8);
    ShiftsAreArithmetic(Load(bs[1..]), 8);
  }

  function TableWords(subkey: seq<byte>, first: nat, n: nat): (w: seq<uint32>)
    requires 4 * (first + n) <= |subkey|
    ensures |w| == n
  {
    seq<uint32>(n, i requires 0 <= i < n => TableWord(subkey, first + i))
  }

  /** A key byte is signed and extends to the whole word. */
  function SignExtended(k: int): uint32
    requires -128 <= k < 128
  {
    if k < 0 then k + 0x1_0000_0000 else k
  }

  /** The first `n` of the four key bytes merged for subkey `i`; the key is read cyclically. */
  function KeyWord(key: seq<int>, i: nat, n: nat): uint32
    requires |key| > 0 && forall j | 0 <= j < |key| :: -128 <= key[j] < 128
  {
    if n == 0 then 0 else Or32(Shl32(KeyWord(key, i, n - 1), 8), SignExtended(key[(4 * i + n - 1) % |key|]))
  }

  /**
   * A key word in plain arithmetic: each byte goes below those before it, but a negative byte, extended by its sign,
   * sets every digit above its own.
   */
  lemma {:induction false} KeyWordIs(key: seq<int>, i: nat, n: nat)
    requires |key| > 0 && forall j | 0 <= j < |key| :: -128 <= key[j] < 128
    ensures KeyWord(key, i, 0) == 0
    ensures var k := key[(4 * i + n) % |key|];
            KeyWord(key, i, n + 1) ==
            if k < 0 then 0x1_0000_0000 + k else KeyWord(key, i, n) % 0x100_0000 * 0x100 + k
  {
    var w, k := KeyWord(key, i, n), key[(4 * i + n) % |key|];
    assert KeyWord(key, i, n + 1) == Or32(Shl32(w, 8), SignExtended(k));
    hide KeyWord, Shl32, Or32, SignExtended;
    ShiftByte(w);
    ByteBelow(w % 0x100_0000, k);
  }

  lemma {:induction false} ShiftByte(w: uint32)
    ensures Shl32(w, 8) == 0x100 * (w % 0x100_0000)
  {
    ByteSize();
    WordSizes();
    ShiftsAreArithmetic(w, 8);
    ShiftsAreArithmetic(Shl(w, 8), 32);
    hide Shl, Low, Pow2;
    var q, r := w / 0x100_0000, w % 0x100_0000;
    DivisionUnique(0x100 * w, 0x1_0000_0000, q, 0x100 * r);
  }

  lemma {:induction false} ByteBelow(h: nat, k: int)
    requires -128 <= k < 128 && h < 0x100_0000
    ensures Or32(0x100 * h, SignExtended(k)) == if k < 0 then 0x1_0000_0000 + k else 0x100 * h + k
  {
    ByteSize();
    Pow2Of24();
    ShiftsAreArithmetic(h, 8);
    ShiftsAreArithmetic(0xFF_FFFF, 8);
    hide Pow2, Bit, Or, Shl;
    var w := SignExtended(k);
    var sum := if k < 0 then 0x1_0000_0000 + k else 0x100 * h + k;
    var low := if k < 0 then 0x100 + k else k;
    forall t | 0 <= t < 32
      ensures Bit(Or32(0x100 * h, w), t) == Bit(sum, t)
    {
      BitOr(0x100 * h, w, t);
      BitShl(h, 8, t);
      if k < 0 {
        BitMerge(low, 0xFF_FFFF, 8, t);
        if t >= 8 {
          BitOnes(24, t - 8);
        }
      } else {
        BitMerge(low, h, 8, t);
        if t >= 8 {
          BitAbove(low, 8, t);
        }
      }
    }
    Same32(Or32(0x100 * h, w), sum);
  }

  datatype Tables = Tables(P: Subkeys, S: Boxes, last: Block)

  /** One pair of table words replaced by the encipherment of the previous pair under the tables so far. */
  function ScheduleStep(t: Tables, n: nat): Tables
    requires n < 521
  {
    var x := Encipher(t.P, t.S, t.last);
    if n < 9 then Tables(t.P[2 * n := x.left][2 * n + 1 := x.right], t.S, x)
    else Tables(t.P, t.S[2 * (n - 9) := x.left][2 * (n - 9) + 1 := x.right], x)
  }

  function Schedule(t: Tables, n: nat): Tables
    requires n <= 521
  {
    if n == 0 then t else ScheduleStep(Schedule(t, n - 1), n - 1)
  }

  function InitialTables(key: seq<int>, subkey: seq<byte>): Tables
    requires |key| > 0 && |subkey| == 4168 && forall j | 0 <= j < |key| :: -128 <= key[j] < 128
  {
    Tables(seq(18, i requires 0 <= i < 18 => Xor32(TableWord(subkey, i), KeyWord(key, i, 4))),
           TableWords(subkey, 18, 1024), Block(0, 0))
  }

  /** The tables as one run of 521 pairs, subkeys first. */
  function Pair(t: Tables, m: nat): Block
    requires m < 521
  {
    if m < 9 then BlockAt(t.P, m) else BlockAt(t.S, m - 9)
  }

  /**
   * Step `n` writes pair `n` alone: the encipherment of the pair before it, of zeros at first, under the tables so
   * far.
   */
  lemma {:induction false} ScheduleChains(t: Tables, n: nat)
    requires n < 521 && t.last == Block(0, 0)
    ensures var before, after := Schedule(t, n), Schedule(t, n + 1);
            && Pair(after, n) == Encipher(before.P, before.S, if n == 0 then Block(0, 0) else Pair(before, n - 1))
            && (forall m | 0 <= m < 521 && m != n :: Pair(after, m) == Pair(before, m))
  {
    hide Encipher;
    var before := Schedule(t, n);
    if n > 0 {
      LastIsPair(Schedule(t, n - 1), n - 1);
    }
    LastIsPair(before, n);
  }

  lemma LastIsPair(t: Tables, n: nat)
    requires n < 521
    ensures var after := ScheduleStep(t, n);
            && after.last == Pair(after, n) == Encipher(t.P, t.S, t.last)
            && (forall m | 0 <= m < 521 && m != n :: Pair(after, m) == Pair(t, m))
  {
    hide Encipher;
  }

  /** The key bytes in use: an index past the last starts over at 0, so at least the first. */
  function KeyInUse(key: seq<int>, keybytes: int): seq<int>
    requires 0 < |key| && keybytes <= |key|
  {
    key[..if keybytes < 1 then 1 else keybytes]
  }

  method InitTables(key: seq<int>, keybytes: int, P: array<uint32>, S: array<uint32>, subkey: seq<byte>)
    requires 0 < |key| && keybytes <= |key| && |subkey| == 4168 && forall j | 0 <= j < |key| :: -128 <= key[j] < 128
    requires P.Length == 18 && S.Length == 1024 && P != S
    modifies P, S
    ensures var t := Schedule(InitialTables(KeyInUse(key, keybytes), subkey), 521); P[..] == t.P && S[..] == t.S
  {
    hide Encipher, Or32, Shl32, Xor32, TableWord, SignExtended;
    ghost var used := KeyInUse(key, keybytes);
    ghost var n := |used|;
    forall i | 0 <= i < 18 {
      P[i] := TableWord(subkey, i);
    }
    forall i | 0 <= i < 1024 {
      S[i] := TableWord(subkey, 18 + i);
    }
    assert S[..] == TableWords(subkey, 18, 1024);
    var j := 0;
    for i := 0 to 18
      modifies P
      invariant j == 4 * i % n
      invariant forall k | 0 <= k < i :: P[k] == Xor32(TableWord(subkey, k), KeyWord(used, k, 4))
      invariant forall k | i <= k < 18 :: P[k] == TableWord(subkey, k)
    {
      var data := 0;
      for k := 0 to 4
        modifies {}
        invariant j == (4 * i + k) % n
        invariant data == KeyWord(used, i, k)
      {
        data := Or32(Shl32(data, 8), SignExtended(key[j]));
        NextIndex(4 * i + k, n);
        j := j + 1;
        if j >= keybytes {
          j := 0;
        }
      }
      P[i] := Xor32(P[i], data);
    }
    ghost var t := InitialTables(used, subkey);
    assert P[..] == t.P;
    var datal, datar := ScheduleSubkeys(t, P, S);
    ScheduleBoxes(t, P, S, datal, datar);
  }

  method ScheduleSubkeys(ghost t: Tables, P: array<uint32>, S: array<uint32>) returns (datal: uint32, datar: uint32)
    requires P.Length == 18 && S.Length == 1024 && P != S
    requires P[..] == t.P && S[..] == t.S && t.last == Block(0, 0)
    modifies P
    ensures var u := Schedule(t, 9); P[..] == u.P && S[..] == u.S && Block(datal, datar) == u.last
  {
    hide Encipher;
    datal, datar := 0, 0;
    var i := 0;
    while i < 18
      invariant 0 <= i <= 18 && i % 2 == 0
      invariant var u := Schedule(t, i / 2); P[..] == u.P && S[..] == u.S && Block(datal, datar) == u.last
    {
      datal, datar := EncipherScalar(datal, datar, P[..], S[..]);
      P[i] := datal;
      P[i + 1] := datar;
      i := i + 2;
    }
  }

  lemma BoxStep(t: Tables, n: nat)
    requires 9 <= n < 521
    ensures var u, v := Schedule(t, n), Schedule(t, n + 1);
            && v.P == u.P && v.last == Encipher(u.P, u.S, u.last)
            && v.S == u.S[2 * (n - 9) := v.last.left][2 * (n - 9) + 1 := v.last.right]
  {
    hide Encipher;
  }

  method ScheduleBoxes(ghost t: Tables, P: array<uint32>, S: array<uint32>, l: uint32, r: uint32)
    requires P.Length == 18 && S.Length == 1024 && P != S
    requires var u := Schedule(t, 9); P[..] == u.P && S[..] == u.S && Block(l, r) == u.last
    modifies S
    ensures var u := Schedule(t, 521); P[..] == u.P && S[..] == u.S
  {
    hide Encipher, Schedule;
    var datal, datar := l, r;
    for i := 0 to 4
      invariant var u := Schedule(t, 9 + 128 * i); P[..] == u.P && S[..] == u.S && Block(datal, datar) == u.last
    {
      var j := 0;
      while j < 256
        invariant 0 <= j <= 256 && j % 2 == 0
        invariant var u := Schedule(t, 9 + 128 * i + j / 2);
                  P[..] == u.P && S[..] == u.S && Block(datal, datar) == u.last
      {
        BoxStep(t, 9 + 128 * i + j / 2);
        datal, datar := EncipherScalar(datal, datar, P[..], S[..]);
        S[i * 256 + j] := datal;
        S[i * 256 + j + 1] := datar;
        j := j + 2;
      }
    }
  }
}
