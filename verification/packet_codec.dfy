/** The packet compressor and its table-driven decompressor. */
module PacketCodec {
  import opened Words
  import opened Bits
  import opened PrefixCodes

  // ---- The code tables ------------------------------------------------------------------------

  /** A resolved jump-table word: a byte of data (0 being the null pointer) or the index of another word. */
  datatype Pointer = Data(value: nat) | Slot(index: nat)

  const NULL := Data(0)

  /** The nodes from word `at` on spell the tree: both links null at a leaf, whose symbol is three words in. */
  ghost predicate Represents(jump: seq<Pointer>, at: nat, t: Tree)
    decreases t
  {
    match t
    case Leaf(s) =>
      at + 3 < |jump| && jump[at] == NULL && jump[at + 1] == NULL && jump[at + 3] == Data(s)
    case Branch(z, o) =>
      && at + 1 < |jump| && jump[at].Slot? && jump[at + 1].Slot?
      && Represents(jump, jump[at].index, z) && Represents(jump, jump[at + 1].index, o)
  }

  ghost predicate RepresentsRoot(jump: seq<Pointer>, t: Tree) {
    |jump| > 0 && jump[0].Slot? && t.Branch? && Represents(jump, jump[0].index, t)
  }

  /** The compressor's table: 256 codes, then 256 code lengths, those of the bytes from 128 up first in each half. */
  predicate ValidEncoder(enc: seq<nat>) {
    && |enc| == 512
    && (forall i | 0 <= i < 512 :: enc[i] < 0x1_0000_0000)
    && (forall i | 256 <= i < 512 :: enc[i] <= 32)
  }

  function CodeLength(enc: seq<nat>, b: byte): (n: nat)
    requires ValidEncoder(enc)
    ensures n <= 32
  {
    enc[256 + (b + 128) % 256]
  }

  function CodeBits(enc: seq<nat>, b: byte): (code: seq<bool>)
    requires ValidEncoder(enc)
    ensures |code| == CodeLength(enc, b)
  {
    LsbDigits(enc[(b + 128) % 256], CodeLength(enc, b))
  }

  /** A byte as a signed character, by which the original indexes the table from its words 0x80 and 0x180. */
  function AsInt8(b: byte): (i: int)
    ensures -128 <= i < 128
  {
    if b < 128 then b else b - 256
  }

  lemma SignedIndex(b: byte)
    ensures AsInt8(b) + 0x80 == (b + 128) % 256 && AsInt8(b) + 0x180 == 256 + (b + 128) % 256
  {
  }

  /**
   * Bytes 0 to 127 have their codes and lengths from words 128 and 384 on, bytes 128 to 255 from words 0 and 256 on.
   */
  lemma CodeWords(enc: seq<nat>, b: byte)
    requires ValidEncoder(enc)
    ensures b < 128 ==> CodeLength(enc, b) == enc[384 + b] && CodeBits(enc, b) == LsbDigits(enc[128 + b], enc[384 + b])
    ensures b >= 128 ==> CodeLength(enc, b) == enc[128 + b] && CodeBits(enc, b) == LsbDigits(enc[b - 128], enc[128 + b])
  {
  }

  /** The concatenated codes of a message. */
  function Encoded(enc: seq<nat>, message: seq<byte>): (bits: seq<bool>)
    requires ValidEncoder(enc)
  {
    if message == [] then []
    else Encoded(enc, message[..|message| - 1]) + CodeBits(enc, message[|message| - 1])
  }

  /** Both tables describe one prefix code: along each byte's code the tree leads to that byte. */
  predicate SameCode(enc: seq<nat>, t: Tree)
    requires ValidEncoder(enc)
  {
    t.Branch? && forall b: byte :: WalkTree(t, CodeBits(enc, b)) == Found(b, CodeLength(enc, b))
  }

  /** populate_jump_table: words above 0xff are addresses in the table file, the others data. */
  function ResolveWord(dec: seq<nat>, i: nat): Pointer
    requires i < |dec| && dec[0] < 0x1_0000_0000 && dec[i] < 0x1_0000_0000
  {
    var base := (dec[0] + 0x1_0000_0000 - 4) % 0x1_0000_0000;
    if dec[i] > 0xff then Slot((dec[i] + 0x1_0000_0000 - base) % 0x1_0000_0000 / 4) else Data(dec[i])
  }

  predicate WordFile(dec: seq<nat>) {
    0 < |dec| <= 0x4000_0000 && forall i | 0 <= i < |dec| :: dec[i] < 0x1_0000_0000
  }

  /** The address of word `k` in a file whose first word is the address of the next. */
  function AddressOf(dec: seq<nat>, k: nat): nat
    requires WordFile(dec)
  {
    (dec[0] + 4 * k + 0x1_0000_0000 - 4) % 0x1_0000_0000
  }

  /** The second word's address is the first word, and each word is four bytes after the one before it. */
  lemma AddressesStep(dec: seq<nat>, k: nat)
    requires WordFile(dec)
    ensures AddressOf(dec, 1) == dec[0] && AddressOf(dec, k + 1) == (AddressOf(dec, k) + 4) % 0x1_0000_0000
  {
  }

  /** A file word is the address of one of its words. */
  predicate Links(dec: seq<nat>, at: nat, target: nat)
    requires WordFile(dec)
  {
    at < |dec| && target < |dec| && dec[at] == AddressOf(dec, target) > 0xff
  }

  /**
   * The file spells the tree at word `at`: two addresses at a branch; two zeros and, three words in, the symbol at
   * a leaf.
   */
  ghost predicate Spells(dec: seq<nat>, at: nat, t: Tree)
    requires WordFile(dec)
    decreases t
  {
    match t
    case Leaf(s) => at + 3 < |dec| && dec[at] == 0 && dec[at + 1] == 0 && dec[at + 3] == s
    case Branch(z, o) =>
      && (exists k :: Links(dec, at, k) && Spells(dec, k, z))
      && (exists k :: Links(dec, at + 1, k) && Spells(dec, k, o))
  }

  /** The file's first word is the address of the second, where a tree of two links at least is spelled. */
  ghost predicate SpellsRoot(dec: seq<nat>, t: Tree)
    requires WordFile(dec)
  {
    dec[0] > 0xff && t.Branch? && Spells(dec, 1, t)
  }

  /** The smallest file, at any address that leaves room below: two symbols with codes 0 and 1. */
  lemma {:induction false} SmallestFile(base: nat, a: byte, b: byte) returns (dec: seq<nat>)
    requires 0xff < base < 0xFFFF_FF00
    ensures dec == [base + 4, base + 12, base + 28, 0, 0, 0, a, 0, 0, 0, b]
    ensures WordFile(dec) && SpellsRoot(dec, Branch(Leaf(a), Leaf(b)))
  {
    dec := [base + 4, base + 12, base + 28, 0, 0, 0, a, 0, 0, 0, b];
    assert Spells(dec, 3, Leaf(a)) && Spells(dec, 7, Leaf(b));
    assert Links(dec, 1, 3) && Links(dec, 2, 7);
  }

  /** The table resolved from a file that spells a tree represents that tree. */
  method PopulateJumpTable(dec: seq<nat>) returns (jump: seq<Pointer>)
    requires WordFile(dec)
    ensures forall t :: SpellsRoot(dec, t) ==> RepresentsRoot(jump, t)
    ensures |jump| == |dec| && forall i | 0 <= i < |dec| :: jump[i] == ResolveWord(dec, i)
  {
    jump := [];
    var base := (dec[0] + 0x1_0000_0000 - 4) % 0x1_0000_0000;
    for i := 0 to |dec|
      invariant |jump| == i && forall k | 0 <= k < i :: jump[k] == ResolveWord(dec, k)
    {
      if dec[i] > 0xff {
        jump := jump + [Slot((dec[i] + 0x1_0000_0000 - base) % 0x1_0000_0000 / 4)];
      } else {
        jump := jump + [Data(dec[i])];
      }
    }
    forall t | SpellsRoot(dec, t)
      ensures RepresentsRoot(jump, t)
    {
      AddressResolves(dec, 0, 1);
      SpelledIsRepresented(dec, jump, 1, t);
    }
  }

  lemma {:induction false} SpelledIsRepresented(dec: seq<nat>, jump: seq<Pointer>, at: nat, t: Tree)
    requires WordFile(dec) && Spells(dec, at, t)
    requires |jump| == |dec| && forall i | 0 <= i < |dec| :: jump[i] == ResolveWord(dec, i)
    ensures Represents(jump, at, t)
    decreases t
  {
    hide ResolveWord, AddressOf;
    if t.Branch? {
      var k :| Links(dec, at, k) && Spells(dec, k, t.zero);
      var m :| Links(dec, at + 1, m) && Spells(dec, m, t.one);
      AddressResolves(dec, at, k);
      AddressResolves(dec, at + 1, m);
      SpelledIsRepresented(dec, jump, k, t.zero);
      SpelledIsRepresented(dec, jump, m, t.one);
    } else {
      DataResolves(dec, at);
      DataResolves(dec, at + 1);
      DataResolves(dec, at + 3);
    }
  }

  lemma DataResolves(dec: seq<nat>, i: nat)
    requires WordFile(dec) && i < |dec| && dec[i] <= 0xff
    ensures ResolveWord(dec, i) == Data(dec[i])
  {
  }

  /** A word holding the file address of word `k` resolves to `k`, wherever the file was based. */
  lemma {:induction false} AddressResolves(dec: seq<nat>, i: nat, k: nat)
    requires WordFile(dec) && i < |dec| && k < |dec|
    requires 0xff < dec[i] == AddressOf(dec, k)
    ensures ResolveWord(dec, i) == Slot(k)
  {
    var base := (dec[0] + 0x1_0000_0000 - 4) % 0x1_0000_0000;
    assert dec[i] == (base + 4 * k) % 0x1_0000_0000;
    var offset := (dec[i] + 0x1_0000_0000 - base) % 0x1_0000_0000;
    hide *;
    assert offset == 4 * k;
  }

  // ---- The eight-bit decode table -----------------------------------------------------------------

  /** What eight bits resolve to; length 0 when no code of at most eight bits starts there. */
  datatype DecodeEntry = DecodeEntry(symbol: byte, length: nat)

  function TableEntry(t: Tree, b: nat): (e: DecodeEntry)
    ensures e.length <= 8
  {
    match WalkTree(t, LsbDigits(b, 8))
    case Found(s, u) => DecodeEntry(s, u)
    case Unfinished => DecodeEntry(0, 0)
  }

  lemma {:induction false} TestBit(x: nat, n: nat)
    ensures And(Shr(x, n), 1) == if Bit(x, n) then 1 else 0
  {
    hide Bit, Shr, And;
    forall i: nat
      ensures Bit(And(Shr(x, n), 1), i) == Bit(if Bit(x, n) then 1 else 0, i)
    {
      BitAnd(Shr(x, n), 1, i);
      OneBit(i);
      BitShr(x, n, i);
      BitZero(i);
    }
    WordExtensionality(And(Shr(x, n), 1), if Bit(x, n) then 1 else 0);
  }

  lemma {:induction false} OneBit(i: nat)
    ensures Bit(1, i) == (i == 0)
  {
    if i > 0 {
      BitZero(i - 1);
    }
  }

  /** One link of the jump table followed. */
  lemma RepresentsChild(jump: seq<Pointer>, at: nat, t: Tree, bit: nat)
    requires Represents(jump, at, t) && t.Branch? && bit < 2
    ensures at + 1 < |jump| && jump[at + bit].Slot? && Represents(jump, jump[at + bit].index, t.Child(bit == 1))
  {
  }

  lemma RepresentsLeaf(jump: seq<Pointer>, at: nat, t: Tree)
    requires Represents(jump, at, t)
    ensures at + 1 < |jump|
    ensures t.Leaf? <==> jump[at] == NULL && jump[at + 1] == NULL
    ensures t.Leaf? ==> at + 3 < |jump| && jump[at + 3] == Data(t.symbol)
  {
  }

  // ---- The decoder's view of its input ---------------------------------------------------------

  /** The memory holds the byte at `bitpos` and, if that is not the payload's last, the next one. */
  predicate Peekable(data: seq<byte>, byteLen: nat, bitpos: nat) {
    bitpos / 8 < byteLen && bitpos / 8 < |data| && (bitpos / 8 + 1 < byteLen ==> bitpos / 8 + 1 < |data|)
  }

  /** Bit `i` of the payload, zero past its last byte: what the eight-bit peek sees. */
  predicate PeekBit(data: seq<byte>, byteLen: nat, i: nat)
    requires i < 8 * byteLen ==> i < 8 * |data|
  {
    i < 8 * byteLen && LsbBits(data)[i]
  }

  function Peek(data: seq<byte>, byteLen: nat, bitpos: nat): nat
    requires Peekable(data, byteLen, bitpos)
  {
    var byteoff, bitoff := bitpos / 8, bitpos % 8;
    var hi := if byteoff + 1 < byteLen then data[byteoff + 1] else 0;
    And(Or(Shr(data[byteoff], bitoff), Shl(hi, 8 - bitoff)), 0xFF)
  }

  lemma {:induction false} PeekDigits(data: seq<byte>, byteLen: nat, bitpos: nat, i: nat)
    requires Peekable(data, byteLen, bitpos) && i < 8
    ensures bitpos + i < 8 * byteLen ==> bitpos + i < 8 * |data|
    ensures Bit(Peek(data, byteLen, bitpos), i) == PeekBit(data, byteLen, bitpos + i)
  {
    hide Bit, And, Or, Shl, Shr, Pow2, LsbBits;
    var byteoff, bitoff := bitpos / 8, bitpos % 8;
    var hi := if byteoff + 1 < byteLen then data[byteoff + 1] else 0;
    var merged := Or(Shr(data[byteoff], bitoff), Shl(hi, 8 - bitoff));
    ByteSize();
    BitAnd(merged, 0xFF, i);
    BitOnes(8, i);
    BitOr(Shr(data[byteoff], bitoff), Shl(hi, 8 - bitoff), i);
    BitShr(data[byteoff], bitoff, i);
    BitShl(hi, 8 - bitoff, i);
    if bitpos + i < 8 * byteLen {
      LsbBitsAt(data, bitpos + i);
    }
    if i + bitoff < 8 {
      assert (bitpos + i) / 8 == byteoff && (bitpos + i) % 8 == i + bitoff;
    } else {
      assert (bitpos + i) / 8 == byteoff + 1 && (bitpos + i) % 8 == i + bitoff - 8;
      BitAbove(data[byteoff], 8, i + bitoff);
      BitZero(i + bitoff - 8);
    }
  }

  lemma {:induction false} PeekBelow(data: seq<byte>, byteLen: nat, bitpos: nat)
    requires Peekable(data, byteLen, bitpos)
    ensures Peek(data, byteLen, bitpos) < 256
  {
    hide Bit, And, Pow2;
    ByteSize();
    var byteoff, bitoff := bitpos / 8, bitpos % 8;
    var hi := if byteoff + 1 < byteLen then data[byteoff + 1] else 0;
    var merged := Or(Shr(data[byteoff], bitoff), Shl(hi, 8 - bitoff));
    AndOnes(merged, 8);
    LowBound(merged, 8);
  }

  /** The bits the caller declared to be payload, as far as there is memory. */
  function Payload(data: seq<byte>, in_sz: nat): (bits: seq<bool>)
    ensures |bits| == if in_sz <= 8 * |data| then in_sz else 8 * |data|
  {
    LsbBits(data)[..if in_sz <= 8 * |data| then in_sz else 8 * |data|]
  }

  /**
   * One turn of the decoding loop: the table's entry for the next eight bits or, where it is empty, the walk
   * over memory.  Unfinished, it reads past the memory.
   */
  function Turn(t: Tree, data: seq<byte>, in_sz: nat, at: nat): (w: Walk)
    requires t.Branch? && at < in_sz
    ensures w.Found? ==> w.used > 0
  {
    if !Peekable(data, (in_sz + 7) / 8, at) then Unfinished
    else
      var e := TableEntry(t, Peek(data, (in_sz + 7) / 8, at));
      if e.length != 0 then Found(e.symbol, e.length) else WalkTree(t, LsbBits(data)[at..])
  }

  /** The decoding loop from bit `at` on, given room for everything. */
  function TableDecode(t: Tree, data: seq<byte>, in_sz: nat, at: nat): seq<byte>
    requires t.Branch?
    decreases in_sz - at
  {
    if at >= in_sz then []
    else
      match Turn(t, data, in_sz, at)
      case Found(s, u) => [s] + TableDecode(t, data, in_sz, at + u)
      case Unfinished => []
  }

  /** Neither the payload's length in bytes nor the position after its last code overflows 32 bits. */
  predicate CountsFit(t: Tree, in_sz: nat) {
    in_sz + 7 < 0x1_0000_0000 && in_sz + t.Height() <= 0x1_0000_0000
  }

  /** From bit `at` on, the loop does not read past the memory before it has emitted `room` symbols. */
  predicate StaysInside(t: Tree, data: seq<byte>, in_sz: nat, at: nat, room: nat)
    requires t.Branch?
    decreases room
  {
    at >= in_sz || room == 0 ||
    match Turn(t, data, in_sz, at)
    case Found(_, u) => StaysInside(t, data, in_sz, at + u, room - 1)
    case Unfinished => false
  }

  lemma LoopTurn(t: Tree, data: seq<byte>, in_sz: nat, at: nat, room: nat)
    requires t.Branch? && at < in_sz && room > 0 && StaysInside(t, data, in_sz, at, room)
    ensures var w := Turn(t, data, in_sz, at);
            && w.Found? && StaysInside(t, data, in_sz, at + w.used, room - 1)
            && TableDecode(t, data, in_sz, at) == [w.symbol] + TableDecode(t, data, in_sz, at + w.used)
  {
    hide Turn;
  }

  lemma LoopDone(t: Tree, data: seq<byte>, in_sz: nat, at: nat)
    requires t.Branch? && at >= in_sz
    ensures TableDecode(t, data, in_sz, at) == []
  {
  }

  /** A walk over bits that agree with the payload as far as it goes, seen from the payload. */
  lemma {:induction false} PayloadWalk(t: Tree, data: seq<byte>, in_sz: nat, at: nat, bits: seq<bool>)
    requires t.Branch? && at < in_sz && at < 8 * |data| && WalkTree(t, bits).Found?
    requires in_sz <= 8 * |data| || at + |bits| <= 8 * |data|
    requires forall i | 0 <= i < |bits| && at + i < |Payload(data, in_sz)| :: bits[i] == LsbBits(data)[at + i]
    ensures var w := WalkTree(t, bits); var p := WalkTree(t, Payload(data, in_sz)[at..]);
            if at + w.used <= in_sz then p == w else p.Unfinished?
  {
    hide LsbBits, WalkTree;
    var used := WalkTree(t, bits).used;
    var rest := Payload(data, in_sz)[at..];
    if at + used <= in_sz {
      assert bits[..used] == rest[..used];
      WalkPrefix(t, bits, rest);
    } else {
      assert rest == bits[..|rest|];
      WalkCutShort(t, bits, rest);
    }
  }

  /** The eight-bit fast path: the code is the payload's, or the payload ends inside it. */
  lemma {:induction false} FastStep(t: Tree, data: seq<byte>, in_sz: nat, at: nat, e: DecodeEntry)
    requires t.Branch? && at < in_sz && Peekable(data, (in_sz + 7) / 8, at)
    requires e == TableEntry(t, Peek(data, (in_sz + 7) / 8, at)) && e.length != 0
    ensures WalkTree(t, Payload(data, in_sz)[at..]) ==
            if at + e.length <= in_sz then Found(e.symbol, e.length) else Unfinished
  {
    hide LsbBits, LsbDigits, WalkTree, Payload, Peek, Bit;
    var peek := Peek(data, (in_sz + 7) / 8, at);
    var bits := LsbDigits(peek, 8);
    forall i | 0 <= i < 8 && at + i < in_sz
      ensures bits[i] == LsbBits(data)[at + i]
    {
      LsbDigitsAt(peek, 8, i);
      PeekDigits(data, (in_sz + 7) / 8, at, i);
    }
    PayloadWalk(t, data, in_sz, at, bits);
  }

  /** The slow path's walk over memory, which may run past the payload: the same. */
  lemma {:induction false} SlowStep(t: Tree, data: seq<byte>, in_sz: nat, at: nat)
    requires t.Branch? && at < in_sz && at < 8 * |data|
    ensures var w := WalkTree(t, LsbBits(data)[at..]);
            WalkTree(t, Payload(data, in_sz)[at..]) == if w.Found? && at + w.used <= in_sz then w else Unfinished
  {
    hide LsbBits, WalkTree;
    var rest := Payload(data, in_sz)[at..];
    var memory := LsbBits(data)[at..];
    if WalkTree(t, memory).Found? {
      PayloadWalk(t, data, in_sz, at, memory);
    } else if WalkTree(t, rest).Found? {
      var used := WalkTree(t, rest).used;
      assert rest[..used] == memory[..used];
      WalkPrefix(t, rest, memory);
    }
  }

  /**
   * A turn by table or by tree takes the code the payload holds, and takes another one only if the payload cuts it
   * off.
   */
  lemma {:induction false} TurnIsWalk(t: Tree, data: seq<byte>, in_sz: nat, at: nat)
    requires t.Branch? && at < in_sz && Peekable(data, (in_sz + 7) / 8, at)
    ensures var w := Turn(t, data, in_sz, at);
            WalkTree(t, Payload(data, in_sz)[at..]) == if w.Found? && at + w.used <= in_sz then w else Unfinished
  {
    hide LsbBits, WalkTree, Payload, Peek, TableEntry;
    var e := TableEntry(t, Peek(data, (in_sz + 7) / 8, at));
    if e.length != 0 {
      FastStep(t, data, in_sz, at, e);
    } else {
      SlowStep(t, data, in_sz, at);
    }
  }

  /** One code, or none, of the payload from `at` on, as the bit decoder sees it. */
  lemma {:induction false} PayloadStep(t: Tree, data: seq<byte>, in_sz: nat, at: nat)
    requires t.Branch? && at < in_sz && at < 8 * |data|
    ensures var bits := Payload(data, in_sz); var w := WalkTree(t, bits[at..]);
            && Decode(t, bits[at..]) ==
               (if w.Found? then [w.symbol] + Decode(t, bits[at + w.used..]) else [])
            && CodeEnd(t, bits[at..]) == if w.Found? then w.used + CodeEnd(t, bits[at + w.used..]) else 0
  {
    hide WalkTree, Payload, BitDecode;
    var rest := Payload(data, in_sz)[at..];
    BitDecodeCode(t, t, rest);
    var w := WalkTree(t, rest);
    if w.Found? {
      assert rest[w.used..] == Payload(data, in_sz)[at + w.used..];
    }
  }

  lemma PayloadDone(t: Tree, data: seq<byte>, in_sz: nat)
    requires t.Branch? && in_sz <= 8 * |data|
    ensures Decode(t, Payload(data, in_sz)[in_sz..]) == [] && CodeEnd(t, Payload(data, in_sz)[in_sz..]) == 0
  {
    hide LsbBits;
    assert Payload(data, in_sz)[in_sz..] == [];
  }

  /** What the loop emits for a code that starts at `end` and is cut off by the bit count. */
  function Extra(t: Tree, data: seq<byte>, in_sz: nat, end: nat): (s: seq<byte>)
    requires t.Branch? && end <= in_sz <= 8 * |data|
    ensures |s| <= 1 && (s == [] <==> end == in_sz || Turn(t, data, in_sz, end).Unfinished?)
  {
    if end == in_sz || Turn(t, data, in_sz, end).Unfinished? then [] else [Turn(t, data, in_sz, end).symbol]
  }

  /** The loop against the bit decoder: the same symbols, then at most the one whose code is cut off. */
  lemma {:induction false} LoopDecodes(t: Tree, data: seq<byte>, in_sz: nat, at: nat)
    requires t.Branch? && at <= in_sz <= 8 * |data|
    ensures var rest := Payload(data, in_sz)[at..];
            TableDecode(t, data, in_sz, at) == Decode(t, rest) + Extra(t, data, in_sz, at + CodeEnd(t, rest))
    decreases in_sz - at
  {
    hide WalkTree, Payload, Turn, Decode, CodeEnd;
    if at == in_sz {
      PayloadDone(t, data, in_sz);
    } else {
      PayloadStep(t, data, in_sz, at);
      TurnIsWalk(t, data, in_sz, at);
      var w := Turn(t, data, in_sz, at);
      if w.Found? && at + w.used <= in_sz {
        LoopDecodes(t, data, in_sz, at + w.used);
      }
    }
  }

  /**
   * The loop stays inside the memory exactly when the payload alone fills the room, ends with a code, or ends
   * inside one that the peek or the memory finishes.
   */
  lemma {:induction false} StaysInsideIff(t: Tree, data: seq<byte>, in_sz: nat, at: nat, room: nat)
    requires t.Branch? && at <= in_sz <= 8 * |data|
    ensures var rest := Payload(data, in_sz)[at..]; var end := at + CodeEnd(t, rest);
            StaysInside(t, data, in_sz, at, room) <==>
            |Decode(t, rest)| >= room || end == in_sz || Turn(t, data, in_sz, end).Found?
    decreases in_sz - at
  {
    hide WalkTree, Payload, Turn, Decode, CodeEnd;
    if at == in_sz {
      PayloadDone(t, data, in_sz);
    } else if room > 0 {
      PayloadStep(t, data, in_sz, at);
      TurnIsWalk(t, data, in_sz, at);
      var w := Turn(t, data, in_sz, at);
      if w.Found? && at + w.used <= in_sz {
        StaysInsideIff(t, data, in_sz, at + w.used, room - 1);
      }
    }
  }

  // ---- The compressor's accumulator -------------------------------------------------------------

  /** The bits emitted so far: whole bytes in `o`, the last `accBits` of them in the accumulator. */
  ghost predicate Holds(o: seq<byte>, acc: nat, accBits: nat, bits: seq<bool>) {
    && |bits| == 8 * |o| + accBits
    && acc < Pow2(accBits)
    && (forall i | 0 <= i < 8 * |o| :: LsbBits(o)[i] == bits[i])
    && (forall i | 0 <= i < accBits :: Bit(acc, i) == bits[8 * |o| + i])
  }

  lemma HoldsNothing()
    ensures Holds([], 0, 0, [])
  {
  }

  /** The low `elem` bits of a table word, as the compressor extracts them. */
  function LowBits(v: nat, elem: nat): nat {
    if elem >= 32 then v
    else
      ShiftsAreArithmetic(1, elem);
      And(v, Shl(1, elem) - 1)
  }

  lemma {:induction false} LowBitsAre(v: nat, elem: nat, i: nat)
    requires v < 0x1_0000_0000 && elem <= 32
    ensures Bit(LowBits(v, elem), i) == (i < elem && Bit(v, i))
  {
    hide Bit, And, Shl, Pow2, Low;
    if elem >= 32 {
      WordSizes();
      if i >= 32 {
        BitAbove(v, 32, i);
      }
    } else {
      ShiftsAreArithmetic(1, elem);
      AndOnes(v, elem);
      BitLow(v, elem, i);
    }
  }

  /** Merging a code above the pending bits loses nothing of the 64-bit accumulator. */
  lemma {:induction false} MergeCode(o: seq<byte>, acc: nat, accBits: nat, bits: seq<bool>, v: nat, elem: nat)
    requires Holds(o, acc, accBits, bits) && accBits < 8 && v < 0x1_0000_0000 && elem <= 32
    ensures Holds(o, Or(acc, Low(Shl(LowBits(v, elem), accBits), 64)), accBits + elem, bits + LsbDigits(v, elem))
  {
    hide Bit, Or, Low, Shl, LowBits, Pow2, LsbBits, LsbDigits;
    var merged := Or(acc, Low(Shl(LowBits(v, elem), accBits), 64));
    forall i: nat
      ensures Bit(merged, i) == if i < accBits then Bit(acc, i) else i < accBits + elem && Bit(v, i - accBits)
    {
      BitOr(acc, Low(Shl(LowBits(v, elem), accBits), 64), i);
      BitLow(Shl(LowBits(v, elem), accBits), 64, i);
      BitShl(LowBits(v, elem), accBits, i);
      if i >= accBits {
        BitAbove(acc, accBits, i);
        LowBitsAre(v, elem, i - accBits);
      }
    }
    BelowPow2(merged, accBits + elem);
    forall i | 0 <= i < accBits + elem
      ensures Bit(merged, i) == (bits + LsbDigits(v, elem))[8 * |o| + i]
    {
      if i >= accBits {
        LsbDigitsAt(v, elem, i - accBits);
      }
    }
  }

  /** Flushing the low byte of the accumulator. */
  lemma {:induction false} FlushByte(o: seq<byte>, acc: nat, accBits: nat, bits: seq<bool>)
    requires Holds(o, acc, accBits, bits) && accBits >= 8
    ensures And(acc, 0xFF) < 256
    ensures Holds(o + [And(acc, 0xFF)], Shr(acc, 8), accBits - 8, bits)
  {
    hide Bit, And, Shr, Pow2, LsbBits;
    LastByte(o, acc, accBits, bits);
    forall i: nat
      ensures Bit(Shr(acc, 8), i) == Bit(acc, i + 8)
      ensures i + 8 >= accBits ==> !Bit(acc, i + 8)
    {
      BitShr(acc, 8, i);
      if i + 8 >= accBits {
        BitAbove(acc, accBits, i + 8);
      }
    }
    BelowPow2(Shr(acc, 8), accBits - 8);
  }

  /** Bit `i` of the output once the accumulator's low byte is written: pending bits, then zeros. */
  lemma {:induction false} LastByte(o: seq<byte>, acc: nat, accBits: nat, bits: seq<bool>)
    requires Holds(o, acc, accBits, bits)
    ensures And(acc, 0xFF) < 256
    ensures forall i | 0 <= i < 8 * |o| + 8 :: LsbBits(o + [And(acc, 0xFF)])[i] == (i < |bits| && bits[i])
  {
    hide Bit, And, Pow2, LsbBits;
    ByteSize();
    AndOnes(acc, 8);
    LowBound(acc, 8);
    var all := o + [And(acc, 0xFF)];
    forall i | 0 <= i < 8 * |o| + 8
      ensures LsbBits(all)[i] == (i < |bits| && bits[i])
    {
      LsbBitsAt(all, i);
      if i < 8 * |o| {
        LsbBitsAt(o, i);
        assert LsbBits(o)[i] == bits[i];
      } else {
        var b := i - 8 * |o|;
        BitLow(acc, 8, b);
        if b < accBits {
          assert Bit(acc, b) == bits[8 * |o| + b];
        } else {
          BitAbove(acc, accBits, b);
        }
      }
    }
  }

  /** The output's first bytes hold `bits` and zeros up to the byte boundary. */
  predicate Emits(o: seq<byte>, bits: seq<bool>) {
    |o| == (|bits| + 7) / 8 && forall i | 0 <= i < 8 * |o| :: LsbBits(o)[i] == (i < |bits| && bits[i])
  }

  lemma {:induction false} AllFlushed(o: seq<byte>, acc: nat, bits: seq<bool>)
    requires Holds(o, acc, 0, bits)
    ensures Emits(o, bits)
  {
  }

  lemma {:induction false} OneLeft(o: seq<byte>, acc: nat, accBits: nat, bits: seq<bool>)
    requires Holds(o, acc, accBits, bits) && 0 < accBits < 8
    ensures And(acc, 0xFF) < 256 && Emits(o + [And(acc, 0xFF)], bits)
  {
    hide Bit, And, LsbBits, Pow2;
    LastByte(o, acc, accBits, bits);
  }

  lemma EncodedStep(enc: seq<nat>, message: seq<byte>, i: nat)
    requires ValidEncoder(enc) && i < |message|
    ensures Encoded(enc, message[..i + 1]) ==
            Encoded(enc, message[..i]) + LsbDigits(enc[AsInt8(message[i]) + 0x80], enc[AsInt8(message[i]) + 0x180])
  {
    assert message[..i + 1][..i] == message[..i];
    SignedIndex(message[i]);
  }

  lemma {:induction false} EncodedGrows(enc: seq<nat>, message: seq<byte>, i: nat)
    requires ValidEncoder(enc) && i <= |message|
    ensures |Encoded(enc, message[..i])| <= |Encoded(enc, message)|
    decreases |message|
  {
    if i < |message| {
      assert message[..|message| - 1][..i] == message[..i];
      EncodedGrows(enc, message[..|message| - 1], i);
    } else {
      assert message[..i] == message;
    }
  }

  lemma EncodedNone(enc: seq<nat>)
    requires ValidEncoder(enc)
    ensures Encoded(enc, []) == []
  {
  }

  /** The compressor's space check never trips. */
  predicate Fits(enc: seq<nat>, message: seq<byte>, out_sz: nat)
    requires ValidEncoder(enc) && out_sz > 0
  {
    message == [] || |Encoded(enc, message)| < 8 * (out_sz - 1)
  }

  /** Character `i` is the first whose code leaves no room. */
  predicate StopsAt(enc: seq<nat>, message: seq<byte>, out_sz: nat, i: nat)
    requires ValidEncoder(enc) && out_sz > 0
  {
    && i < |message| && CodeLength(enc, message[i]) + |Encoded(enc, message[..i])| >= 8 * (out_sz - 1)
    && (i > 0 ==> |Encoded(enc, message[..i])| < 8 * (out_sz - 1))
  }

  /** Byte `q` of the bits. */
  function WholeByte(bits: seq<bool>, q: nat): byte
    requires 8 * q + 8 <= |bits|
  {
    DigitsBound(bits[8 * q..8 * q + 8]);
    ByteSize();
    FromLsb(bits[8 * q..8 * q + 8])
  }

  /** A buffer with the whole bytes of `bits` after its first byte. */
  predicate Flushed(was: seq<byte>, bits: seq<bool>, now: seq<byte>) {
    && |now| == |was| && |bits| / 8 < |was|
    && (forall k | 0 <= k < |was| ::
          now[k] == if 1 <= k <= |bits| / 8 then WholeByte(bits, k - 1) else was[k])
  }

  /** The accumulator's whole bytes, as `Flushed` has them. */
  lemma {:induction false} HeldIsFlushed(was: seq<byte>, now: seq<byte>, acc: nat, accBits: nat, bits: seq<bool>)
    requires |now| == |was| && accBits < 8 && |bits| / 8 < |was|
    requires Holds(now[1..1 + |bits| / 8], acc, accBits, bits)
    requires forall k | 1 + |bits| / 8 <= k < |was| :: now[k] == was[k]
    requires now[0] == was[0]
    ensures Flushed(was, bits, now)
  {
    hide Bit, LsbBits, FromLsb, Pow2;
    var o := now[1..1 + |bits| / 8];
    forall q | 0 <= q < |o|
      ensures o[q] == WholeByte(bits, q)
    {
      ByteSize();
      var s := bits[8 * q..8 * q + 8];
      DigitsBound(s);
      forall i | 0 <= i < 8
        ensures Bit(o[q], i) == Bit(FromLsb(s), i)
      {
        FromLsbBit(s, i);
        LsbBitsAt(o, 8 * q + i);
      }
      DigitsDetermine(o[q], FromLsb(s), 8);
    }
  }

  /** What the fill of a buffer that ran out of space leaves, from what was there; later fills cover earlier ones. */
  function FilledByte(in_sz: nat, out_sz: nat, was: byte, k: nat): byte {
    if 1 + in_sz / 4 <= k < 1 + in_sz / 4 + in_sz % 4 then (in_sz + 1) * 8 % 256
    else if 1 <= k < 1 + in_sz / 4 then in_sz % 256
    else if k < out_sz / 4 + in_sz % 4 then 0
    else was
  }

  /** The buffer is long enough for the fill. */
  predicate FillFits(in_sz: nat, length: nat) {
    1 + in_sz / 4 + in_sz % 4 <= length
  }

  method MemSet(out: array<byte>, from: nat, value: byte, n: nat)
    requires from + n <= out.Length
    modifies out
    ensures forall k | 0 <= k < out.Length :: out[k] == if from <= k < from + n then value else old(out[k])
  {
    for i := 0 to n
      invariant forall k | 0 <= k < out.Length :: out[k] == if from <= k < from + i then value else old(out[k])
    {
      out[from + i] := value;
    }
  }

  lemma DoesNotFit(enc: seq<nat>, message: seq<byte>, i: nat, out_sz: nat)
    requires ValidEncoder(enc) && out_sz > 0 && i < |message|
    requires enc[AsInt8(message[i]) + 0x180] + |Encoded(enc, message[..i])| >= 8 * (out_sz - 1)
    requires i > 0 ==> |Encoded(enc, message[..i])| < 8 * (out_sz - 1)
    ensures !Fits(enc, message, out_sz) && StopsAt(enc, message, out_sz, i)
  {
    hide Encoded, AsInt8;
    SignedIndex(message[i]);
    EncodedStep(enc, message, i);
    EncodedGrows(enc, message, i + 1);
  }

  lemma AllFit(enc: seq<nat>, message: seq<byte>, out_sz: nat)
    requires ValidEncoder(enc) && out_sz > 0
    requires message == [] || |Encoded(enc, message)| < 8 * (out_sz - 1)
    ensures Fits(enc, message, out_sz)
  {
  }

  // ---- The codec object -----------------------------------------------------------------------

  class Codec {
    var enc: seq<nat>
    var jump: seq<Pointer>
    const dtab: array<DecodeEntry>
    var dtabBuilt: bool

    /** Table words as read from the two data files. */
    constructor (encWords: seq<nat>, decWords: seq<nat>)
      requires WordFile(decWords)
      ensures enc == encWords && |jump| == |decWords| && !dtabBuilt && fresh(dtab) && dtab.Length == 256
      ensures forall i | 0 <= i < |decWords| :: jump[i] == ResolveWord(decWords, i)
      ensures ValidEncoder(encWords) ==> forall t :: SpellsRoot(decWords, t) ==> Valid(t)
    {
      enc := encWords;
      jump := [];
      dtab := new DecodeEntry[256](_ => DecodeEntry(0, 0));
      dtabBuilt := false;
      new;
      jump := PopulateJumpTable(decWords);
    }

    ghost predicate Valid(t: Tree)
      reads this, dtab
    {
      && ValidEncoder(enc) && RepresentsRoot(jump, t) && dtab.Length == 256
      && (dtabBuilt ==> forall b | 0 <= b < 256 :: dtab[b] == TableEntry(t, b))
    }

    /** Fills the table by walking the tree along the eight bits of every byte. */
    method BuildDecodeTable(ghost t: Tree)
      requires RepresentsRoot(jump, t) && dtab.Length == 256
      modifies this`dtabBuilt, dtab
      ensures dtabBuilt && forall b | 0 <= b < 256 :: dtab[b] == TableEntry(t, b)
    {
      hide Represents, LsbDigits, WalkTree, Bit, And, Shr;
      var root := jump[0].index;
      for b := 0 to 256
        modifies dtab
        invariant forall k | 0 <= k < b :: dtab[k] == TableEntry(t, k)
      {
        var jmp := root;
        dtab[b] := DecodeEntry(0, 0);
        ghost var node := t;
        ghost var digits := LsbDigits(b, 8);
        assert digits[0..] == digits;
        LaterZero(WalkTree(t, digits));
        var bit := 0;
        while bit < 8
          invariant 0 <= bit <= 8 && node.Branch? && Represents(jump, jmp, node)
          invariant WalkTree(t, digits) == WalkTree(node, digits[bit..]).Later(bit)
          invariant dtab[b] == DecodeEntry(0, 0)
          invariant forall k | 0 <= k < b :: dtab[k] == TableEntry(t, k)
        {
          var link := And(Shr(b, bit), 1);
          TestBit(b, bit);
          LsbDigitsAt(b, 8, bit);
          RepresentsChild(jump, jmp, node, link);
          WalkStep(node, digits, bit);
          node := node.Child(link == 1);
          jmp := jump[jmp + link].index;
          RepresentsLeaf(jump, jmp, node);
          if jump[jmp] == NULL && jump[jmp + 1] == NULL {
            WalkLeaf(node, digits[bit + 1..]);
            dtab[b] := DecodeEntry(jump[jmp + 3].value, bit + 1);
            break;
          }
          bit := bit + 1;
        }
        if bit == 8 {
          WalkNothing(node, digits[8..]);
        }
        assert dtab[b] == TableEntry(t, b);
      }
      dtabBuilt := true;
    }

    /** Moves the accumulator's whole bytes to the output. */
    method FlushBytes(out: array<byte>, acc0: nat, accBits0: nat, outPos0: nat, ghost bits: seq<bool>)
      returns (acc: nat, accBits: nat, outPos: nat)
      requires 1 + outPos0 + accBits0 / 8 <= out.Length
      requires Holds(out[1..1 + outPos0], acc0, accBits0, bits)
      modifies out
      ensures accBits == accBits0 % 8 && outPos == outPos0 + accBits0 / 8
      ensures Holds(out[1..1 + outPos], acc, accBits, bits)
      ensures out[0] == old(out[0]) && forall k | 1 + outPos <= k < out.Length :: out[k] == old(out[k])
    {
      hide Holds, And, Shr;
      acc, accBits, outPos := acc0, accBits0, outPos0;
      while accBits >= 8
        invariant 8 * outPos + accBits == 8 * outPos0 + accBits0 && 1 + outPos + accBits / 8 <= out.Length
        invariant Holds(out[1..1 + outPos], acc, accBits, bits)
        invariant out[0] == old(out[0]) && forall k | 1 + outPos <= k < out.Length :: out[k] == old(out[k])
      {
        ghost var o := out[1..1 + outPos];
        FlushByte(o, acc, accBits, bits);
        out[1 + outPos] := And(acc, 0xFF);
        outPos := outPos + 1;
        assert out[1..1 + outPos] == o + [And(acc, 0xFF)];
        acc := Shr(acc, 8);
        accBits := accBits - 8;
      }
    }

    /** The trailing partial byte, and the marker in front. */
    method FinishBytes(out: array<byte>, acc: nat, accBits: nat, outPos: nat, ghost bits: seq<bool>)
      requires accBits < 8 && 1 + outPos + (accBits + 7) / 8 <= out.Length && |bits| == 8 * outPos + accBits
      requires Holds(out[1..1 + outPos], acc, accBits, bits)
      modifies out
      ensures var n := 1 + (|bits| + 7) / 8;
              && out[0] == 1 && n <= out.Length && Emits(out[1..n], bits)
              && forall k | n <= k < out.Length :: out[k] == old(out[k])
    {
      hide Holds, Emits, And;
      ghost var o := out[1..1 + outPos];
      ghost var n := 1 + (|bits| + 7) / 8;
      if accBits > 0 {
        OneLeft(o, acc, accBits, bits);
        out[1 + outPos] := And(acc, 0xFF);
        assert out[1..n] == o + [And(acc, 0xFF)];
      } else {
        AllFlushed(o, acc, bits);
      }
      ghost var codes := out[1..n];
      out[0] := 1;
      assert out[1..n] == codes;
    }

    /** Out of space: with a message as long as the buffer, fills it and returns the message's length. */
    method GiveUp(out: array<byte>, in_sz: nat, out_sz: nat) returns (r: int)
      requires in_sz + 1 >= out_sz ==> FillFits(in_sz, out.Length)
      modifies out
      ensures in_sz + 1 >= out_sz ==>
                r == in_sz && forall k | 0 <= k < out.Length :: out[k] == FilledByte(in_sz, out_sz, old(out[k]), k)
      ensures in_sz + 1 < out_sz ==> r == -1 && out[..] == old(out[..])
    {
      if in_sz + 1 >= out_sz {
        MemSet(out, 0, 0, out_sz / 4 + in_sz % 4);
        MemSet(out, 1, in_sz % 256, in_sz / 4);
        MemSet(out, 1 + in_sz / 4, (in_sz + 1) * 8 % 256, in_sz % 4);
        return in_sz;
      }
      return -1;
    }

    /**
     * Compresses `input`.  On success the bytes after the first are the concatenated codes, zero-filled to a
     * byte.  Otherwise the buffer keeps the whole bytes of the codes before `stop`; the result is -1, or
     * `|input|` and the fill over it once the message itself is as long as the buffer.
     */
    method Compress(input: seq<byte>, out: array<byte>, out_sz: nat) returns (r: int, ghost stop: nat)
      requires ValidEncoder(enc) && |input| < 0x8000_0000
      requires 0 < out_sz <= out.Length && 8 * (out_sz - 1) + 32 <= 0x1_0000_0000
      requires Fits(enc, input, out_sz) ==> |Encoded(enc, input)| + 8 < 0x8000_0000
      requires !Fits(enc, input, out_sz) && |input| + 1 >= out_sz ==> FillFits(|input|, out.Length)
      modifies out
      ensures Fits(enc, input, out_sz) ==>
                var bits := Encoded(enc, input); var n := 1 + (|bits| + 7) / 8;
                && r == |bits| + 8 && n <= out_sz && out[0] == 1 && Emits(out[1..n], bits)
                && forall k | n <= k < out.Length :: out[k] == old(out[k])
      ensures !Fits(enc, input, out_sz) ==>
                && StopsAt(enc, input, out_sz, stop)
                && r == (if |input| + 1 >= out_sz then |input| else -1)
                && exists part :: Flushed(old(out[..]), Encoded(enc, input[..stop]), part) &&
                     if |input| + 1 < out_sz then out[..] == part
                     else forall k | 0 <= k < out.Length :: out[k] == FilledByte(|input|, out_sz, part[k], k)
    {
      hide Encoded, CodeLength, Emits, Holds, Fits, Flushed, FillFits, FilledByte;
      hide LsbDigits, And, Or, Shl, Shr, Low, LowBits;
      hide AsInt8, StopsAt;
      stop := 0;
      var max_sz := 8 * (out_sz - 1);
      var acc: nat, accBits: nat, outPos: nat, read: nat := 0, 0, 0, 0;
      HoldsNothing();
      EncodedNone(enc);
      assert input[..0] == [] && out[1..1] == [];
      var i := 0;
      while i < |input|
        invariant 0 <= i <= |input| && accBits < 8 && read == 8 * outPos + accBits
        invariant i > 0 ==> read < max_sz
        invariant outPos < out_sz
        invariant Holds(out[1..1 + outPos], acc, accBits, Encoded(enc, input[..i]))
        invariant read == |Encoded(enc, input[..i])|
        invariant out[0] == old(out[0]) && forall k | 1 + outPos <= k < out.Length :: out[k] == old(out[k])
      {
        var elem := enc[AsInt8(input[i]) + 0x180];
        ghost var before, bits := Encoded(enc, input[..i]), Encoded(enc, input[..i + 1]);
        ghost var v := enc[AsInt8(input[i]) + 0x80];
        EncodedStep(enc, input, i);
        assert elem + read < 0x1_0000_0000;
        if elem + read >= max_sz {
          DoesNotFit(enc, input, i, out_sz);
          stop := i;
          ghost var part := out[..];
          assert part[1..1 + outPos] == out[1..1 + outPos];
          HeldIsFlushed(old(out[..]), part, acc, accBits, before);
          r := GiveUp(out, |input|, out_sz);
          assert Flushed(old(out[..]), before, part);
          return;
        }
        var code := LowBits(enc[AsInt8(input[i]) + 0x80], elem);
        MergeCode(out[1..1 + outPos], acc, accBits, before, v, elem);
        acc := Or(acc, Low(Shl(code, accBits), 64));
        accBits := accBits + elem;
        read := read + elem;
        acc, accBits, outPos := FlushBytes(out, acc, accBits, outPos, bits);
        i := i + 1;
      }
      assert input[..i] == input;
      AllFit(enc, input, out_sz);
      FinishBytes(out, acc, accBits, outPos, Encoded(enc, input));
      r := read + 8;
    }

    /** One code by the jump table, from bit `start` of the memory. */
    method WalkMemory(ghost t: Tree, data: seq<byte>, start: nat) returns (symbol: byte, bitpos: nat)
      requires RepresentsRoot(jump, t) && start <= 8 * |data| && WalkTree(t, LsbBits(data)[start..]).Found?
      requires start + t.Height() < 0x1_0000_0000
      ensures start < bitpos < 0x1_0000_0000 && WalkTree(t, LsbBits(data)[start..]) == Found(symbol, bitpos - start)
    {
      hide Represents, LsbBits, WalkTree, Bit, And, Shr;
      bitpos := start;
      var jmp := jump[0].index;
      ghost var node := t;
      ghost var memory := LsbBits(data);
      LaterZero(WalkTree(t, memory[start..]));
      while true
        invariant start <= bitpos <= 8 * |data| && node.Branch? && Represents(jump, jmp, node)
        invariant bitpos + node.Height() <= start + t.Height()
        invariant WalkTree(t, memory[start..]) == WalkTree(node, memory[bitpos..]).Later(bitpos - start)
        decreases 8 * |data| - bitpos
      {
        WalkGoesOn(node, memory, bitpos);
        var link := And(Shr(data[bitpos / 8], bitpos % 8), 1);
        TestBit(data[bitpos / 8], bitpos % 8);
        LsbBitsAt(data, bitpos);
        RepresentsChild(jump, jmp, node, link);
        WalkStep(node, memory, bitpos);
        node := node.Child(link == 1);
        jmp := jump[jmp + link].index;
        bitpos := bitpos + 1;
        RepresentsLeaf(jump, jmp, node);
        if jump[jmp] == NULL && jump[jmp + 1] == NULL {
          WalkLeaf(node, memory[bitpos..]);
          return jump[jmp + 3].value, bitpos;
        }
      }
    }

    /** The symbol at `bitpos`, by table or, where its code is longer, by the tree. */
    method NextSymbol(ghost t: Tree, data: seq<byte>, in_sz: nat, byteLen: nat, bitpos: nat)
      returns (symbol: byte, next: nat)
      requires Valid(t) && dtabBuilt && t.Branch? && byteLen == (in_sz + 7) / 8
      requires bitpos < in_sz && Turn(t, data, in_sz, bitpos).Found? && CountsFit(t, in_sz)
      ensures bitpos < next < 0x1_0000_0000 && Turn(t, data, in_sz, bitpos) == Found(symbol, next - bitpos)
    {
      hide RepresentsRoot, Peek, TableEntry, LsbBits, WalkTree, And, Or, Shl, Shr;
      var byteoff, bitoff := bitpos / 8, bitpos % 8;
      var hi := if byteoff + 1 < byteLen then data[byteoff + 1] else 0;
      var peek := Or(Shr(data[byteoff], bitoff), Shl(hi, 8 - bitoff));
      PeekIs(data, byteLen, bitpos);
      var e := dtab[And(peek, 0xFF)];
      if e.length != 0 {
        return e.symbol, bitpos + e.length;
      }
      symbol, next := WalkMemory(t, data, bitpos);
    }

    /**
     * Decompresses `in_sz` bits of `input` after its first byte, up to `out_sz` symbols.  Within that room
     * the original must not read past its input.
     */
    method Decompress(ghost t: Tree, input: seq<byte>, in_sz: nat, out: array<byte>, out_sz: nat) returns (r: int)
      requires Valid(t) && t.Branch? && |input| > 0 && out_sz <= out.Length && CountsFit(t, in_sz)
      requires input[0] == 1 ==> StaysInside(t, input[1..], in_sz, 0, out_sz)
      modifies this`dtabBuilt, dtab, out
      ensures Valid(t)
      ensures input[0] != 1 ==> r == -1 && out[..] == old(out[..])
      ensures input[0] == 1 ==>
                var all := TableDecode(t, input[1..], in_sz, 0);
                && r == (if |all| < out_sz then |all| else out_sz)
                && out[..r] == all[..r] && out[r..] == old(out[r..])
    {
      hide RepresentsRoot, Turn, TableEntry, TableDecode, StaysInside;
      if !dtabBuilt {
        BuildDecodeTable(t);
      }
      if input[0] != 1 {
        return -1;
      }
      var data := input[1..];
      var byteLen := (in_sz + 7) / 8;
      var w: nat, bitpos: nat := 0, 0;
      ghost var all := TableDecode(t, data, in_sz, 0);
      while bitpos < in_sz && w < out_sz
        modifies out
        invariant bitpos < 0x1_0000_0000
        invariant 0 <= w <= out_sz && StaysInside(t, data, in_sz, bitpos, out_sz - w)
        invariant all == out[..w] + TableDecode(t, data, in_sz, bitpos)
        invariant forall k | w <= k < out.Length :: out[k] == old(out[k])
        decreases out_sz - w
      {
        ghost var before := out[..w];
        LoopTurn(t, data, in_sz, bitpos, out_sz - w);
        var symbol, next := NextSymbol(t, data, in_sz, byteLen, bitpos);
        out[w] := symbol;
        w := w + 1;
        bitpos := next;
        assert out[..w] == before + [symbol];
      }
      if bitpos >= in_sz {
        LoopDone(t, data, in_sz, bitpos);
      }
      r := w;
    }
  }

  lemma WalkGoesOn(t: Tree, bits: seq<bool>, n: nat)
    requires t.Branch? && n <= |bits| && WalkTree(t, bits[n..]).Found?
    ensures n < |bits|
  {
  }

  lemma {:induction false} PeekIs(data: seq<byte>, byteLen: nat, bitpos: nat)
    requires Peekable(data, byteLen, bitpos)
    ensures var byteoff, bitoff := bitpos / 8, bitpos % 8;
            var hi := if byteoff + 1 < byteLen then data[byteoff + 1] else 0;
            Peek(data, byteLen, bitpos) == And(Or(Shr(data[byteoff], bitoff), Shl(hi, 8 - bitoff)), 0xFF) < 256
  {
    PeekBelow(data, byteLen, bitpos);
  }

  lemma LaterZero(w: Walk)
    ensures w.Later(0) == w
  {
  }

  lemma WalkLeaf(t: Tree, bits: seq<bool>)
    requires t.Leaf?
    ensures WalkTree(t, bits) == Found(t.symbol, 0)
  {
  }

  lemma WalkNothing(t: Tree, bits: seq<bool>)
    requires t.Branch? && bits == []
    ensures WalkTree(t, bits).Unfinished?
  {
  }

  // ---- Main results ---------------------------------------------------------------------------

  /**
   * The table-driven loop against the bit-at-a-time decoder: the same output or one symbol more, and one more
   * exactly when the bit count cuts a code off that the peek or the memory finishes.
   */
  lemma {:induction false} RefinesBitDecoder(t: Tree, data: seq<byte>, in_sz: nat)
    requires t.Branch? && in_sz <= 8 * |data|
    ensures var bits, all := Payload(data, in_sz), TableDecode(t, data, in_sz, 0);
            var end := CodeEnd(t, bits);
            && Decode(t, bits) <= all && |all| <= |Decode(t, bits)| + 1
            && (all == Decode(t, bits) <==> end == in_sz || Turn(t, data, in_sz, end).Unfinished?)
  {
    hide Payload, Decode, CodeEnd, Turn, TableDecode;
    LoopDecodes(t, data, in_sz, 0);
    assert Payload(data, in_sz)[0..] == Payload(data, in_sz);
  }

  /**
   * With a bit count past the memory, what the loop emits before it reads past it is what the bit decoder makes of
   * the memory.
   */
  lemma {:induction false} ShortMemory(t: Tree, data: seq<byte>, in_sz: nat, at: nat)
    requires t.Branch? && at <= 8 * |data| < in_sz
    ensures TableDecode(t, data, in_sz, at) <= Decode(t, LsbBits(data)[at..])
    decreases in_sz - at
  {
    hide WalkTree, LsbBits, Decode, CodeEnd, Peekable, Turn;
    if Turn(t, data, in_sz, at).Found? {
      TurnPeeks(t, data, in_sz, at);
      assert Payload(data, in_sz) == LsbBits(data);
      PayloadStep(t, data, in_sz, at);
      TurnIsWalk(t, data, in_sz, at);
      ShortMemory(t, data, in_sz, at + Turn(t, data, in_sz, at).used);
    }
  }

  lemma TurnPeeks(t: Tree, data: seq<byte>, in_sz: nat, at: nat)
    requires t.Branch? && at < in_sz && Turn(t, data, in_sz, at).Found?
    ensures Peekable(data, (in_sz + 7) / 8, at) && at < 8 * |data|
    ensures in_sz > 8 * |data| ==> at + Turn(t, data, in_sz, at).used <= 8 * |data|
  {
    hide WalkTree, LsbBits, Peek;
  }

  /** The bit decoder inverts the concatenation of codes. */
  lemma {:induction false} EncodedDecodes(enc: seq<nat>, t: Tree, message: seq<byte>)
    requires ValidEncoder(enc) && SameCode(enc, t)
    ensures Decode(t, Encoded(enc, message)) == message
    ensures CodeEnd(t, Encoded(enc, message)) == |Encoded(enc, message)|
  {
    hide CodeBits, WalkTree;
    if message == [] {
      hide SameCode;
    } else {
      var front, last := message[..|message| - 1], message[|message| - 1];
      EncodedDecodes(enc, t, front);
      DecodeOneCode(t, CodeBits(enc, last), last);
      DecodeAppend(t, Encoded(enc, front), CodeBits(enc, last));
      assert front + [last] == message;
    }
  }

  lemma {:induction false} EmittedPayload(data: seq<byte>, bits: seq<bool>)
    requires (|bits| + 7) / 8 <= |data| && Emits(data[..(|bits| + 7) / 8], bits)
    ensures Payload(data, |bits|) == bits
  {
    hide Bit;
    var o := data[..(|bits| + 7) / 8];
    forall i | 0 <= i < |bits|
      ensures LsbBits(data)[i] == bits[i]
    {
      assert LsbBits(o)[i] == bits[i];
      LsbBitsAt(o, i);
      LsbBitsAt(data, i);
    }
  }

  /**
   * Decompressing what was compressed, with the bit count of the codes, gives the message back, and reads no
   * further.
   */
  lemma {:induction false} RoundTrip(enc: seq<nat>, t: Tree, message: seq<byte>, data: seq<byte>, room: nat)
    requires ValidEncoder(enc) && SameCode(enc, t)
    requires var bits := Encoded(enc, message);
             (|bits| + 7) / 8 <= |data| && Emits(data[..(|bits| + 7) / 8], bits)
    ensures t.Branch? && StaysInside(t, data, |Encoded(enc, message)|, 0, room)
    ensures TableDecode(t, data, |Encoded(enc, message)|, 0) == message
  {
    hide LsbBits, Decode, CodeEnd, Turn, TableDecode, StaysInside, SameCode, Emits, Encoded;
    var bits := Encoded(enc, message);
    EmittedPayload(data, bits);
    assert bits[0..] == bits;
    EncodedDecodes(enc, t, message);
    SameCodeBranch(enc, t);
    LoopDecodes(t, data, |bits|, 0);
    StaysInsideIff(t, data, |bits|, 0, room);
  }

  lemma SameCodeBranch(enc: seq<nat>, t: Tree)
    requires ValidEncoder(enc) && SameCode(enc, t)
    ensures t.Branch?
  {
  }

  /**
   * The compressor's return value counts eight bits more than its codes.  Taken as the decoder's bit count it
   * gives the message and, exactly when the turn after the last code stays inside the memory, more.
   */
  lemma {:induction false} ReturnValueOvershoots(enc: seq<nat>, t: Tree, message: seq<byte>, data: seq<byte>)
    requires ValidEncoder(enc) && SameCode(enc, t)
    requires var bits := Encoded(enc, message);
             |bits| + 8 <= 8 * |data| && Emits(data[..(|bits| + 7) / 8], bits)
    ensures t.Branch?
    ensures var end := |Encoded(enc, message)|; var all := TableDecode(t, data, end + 8, 0);
            message <= all && (message < all <==> Turn(t, data, end + 8, end).Found?)
  {
    hide LsbBits, Turn, TableDecode, SameCode, Emits, Encoded, WalkTree, BitDecode;
    var bits := Encoded(enc, message);
    EmittedPayload(data, bits);
    EncodedDecodes(enc, t, message);
    SameCodeBranch(enc, t);
    var longer := Payload(data, |bits| + 8);
    var more := longer[|bits|..];
    assert longer[..|bits|] == bits;
    assert longer == bits + more;
    assert longer[0..] == longer;
    DecodeAppend(t, bits, more);
    LoopDecodes(t, data, |bits| + 8, 0);
    LoopDecodes(t, data, |bits| + 8, |bits|);
    LoopStarts(t, data, |bits| + 8, |bits|);
  }

  lemma LoopStarts(t: Tree, data: seq<byte>, in_sz: nat, at: nat)
    requires t.Branch? && at < in_sz
    ensures TableDecode(t, data, in_sz, at) != [] <==> Turn(t, data, in_sz, at).Found?
  {
    hide Turn;
  }
}
