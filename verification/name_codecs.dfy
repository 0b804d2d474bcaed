/** The linkshell and signature name codecs: six bits a character, built on packBitsLE/unpackBitsLE. */
module NameCodecs {
  import opened Words
  import opened Bits
  import opened BitPacking
  import opened SixBitText

  const LINKSHELL_LENGTH: nat := 20
  const LINKSHELL_CHARS: nat := 20
  const SIGNATURE_LENGTH: nat := 16
  const SIGNATURE_CHARS: nat := 15
  const PACKET_NAME_LENGTH: nat := 16

  function Prefix(name: seq<byte>, n: nat): (p: seq<byte>)
    ensures p <= name && |p| == if |name| <= n then |name| else n
  {
    if |name| <= n then name else name[..n]
  }

  predicate IsDigit(c: byte) { '0' as int <= c <= '9' as int }
  predicate IsUpper(c: byte) { 'A' as int <= c <= 'Z' as int }
  predicate IsLower(c: byte) { 'a' as int <= c <= 'z' as int }
  predicate IsAlphanumeric(c: byte) { IsDigit(c) || IsUpper(c) || IsLower(c) }

  predicate AllAlphanumeric(name: seq<byte>) {
    forall i | 0 <= i < |name| :: IsAlphanumeric(name[i])
  }

  predicate OneOf(c: byte, letters: string) {
    exists i | 0 <= i < |letters| :: c == letters[i] as int
  }

  // ---- Code streams cut short by a zero byte ------------------------------------------------------

  /** Codes `i - 1` and `i` share a byte whose eight bits are all clear. */
  predicate ZeroByteEndsIn(codes: seq<nat>, i: nat) {
    i % 4 == 2 && i < |codes| && codes[i] < 4 && codes[i - 1] % 16 == 0
  }

  /** The first code a C-string copy of the buffer may lose. */
  function FirstCut(codes: seq<nat>): (n: nat)
    ensures n <= |codes|
    ensures forall i | 0 <= i < n :: codes[i] != 0 && !ZeroByteEndsIn(codes, i)
    ensures n < |codes| ==> codes[n] == 0 || ZeroByteEndsIn(codes, n)
  {
    FirstCutFrom(codes, 0)
  }

  function FirstCutFrom(codes: seq<nat>, from: nat): (n: nat)
    requires from <= |codes|
    ensures from <= n <= |codes|
    ensures forall i | from <= i < n :: codes[i] != 0 && !ZeroByteEndsIn(codes, i)
    ensures n < |codes| ==> codes[n] == 0 || ZeroByteEndsIn(codes, n)
    decreases |codes| - from
  {
    if from == |codes| || codes[from] == 0 || ZeroByteEndsIn(codes, from) then from
    else FirstCutFrom(codes, from + 1)
  }

  predicate SixBitCodes(codes: seq<nat>) {
    forall i | 0 <= i < |codes| :: codes[i] < 64
  }

  lemma ClearBit(codes: seq<nat>, term: nat, q: nat, j: nat)
    requires ClearByte(codes, term, q) && 8 * q <= j < 8 * q + 8
    ensures !StreamBit(codes, term, j)
  {
  }

  lemma StreamDigit(codes: seq<nat>, term: nat, i: nat, t: nat)
    requires i < |codes| && t < 6
    ensures StreamBit(codes, term, 6 * i + 5 - t) == Bit(codes[i], t)
  {
    var j := 6 * i + 5 - t;
    assert j / 6 == i && j % 6 == 5 - t;
  }

  /** A code that lies wholly inside a clear byte is 0. */
  lemma {:induction false} ClearCode(codes: seq<nat>, term: nat, q: nat, i: nat)
    requires SixBitCodes(codes) && ClearByte(codes, term, q)
    requires i < |codes| && 8 * q <= 6 * i && 6 * i + 6 <= 8 * q + 8
    ensures codes[i] == 0
  {
    hide Bit, StreamBit, ClearByte;
    forall t | 0 <= t < 6
      ensures !Bit(codes[i], t)
    {
      StreamDigit(codes, term, i, t);
      ClearBit(codes, term, q, 6 * i + 5 - t);
    }
    CodeZero(codes[i]);
  }

  /** A clear second byte of a group of four codes: the two codes that meet in it are as `ZeroByteEndsIn` says. */
  lemma {:induction false} ClearMiddleByte(codes: seq<nat>, term: nat, g: nat)
    requires SixBitCodes(codes) && 4 * g + 2 < |codes|
    requires ClearByte(codes, term, 3 * g + 1)
    ensures ZeroByteEndsIn(codes, 4 * g + 2)
  {
    hide Bit, StreamBit, ClearByte, Low;
    ClearDigits(codes, term, 3 * g + 1, 4 * g + 1, 0, 4);
    LowDigitsClear(codes[4 * g + 1], 4);
    LowNibbleZero(codes[4 * g + 1]);
    ClearDigits(codes, term, 3 * g + 1, 4 * g + 2, 2, 6);
    HighNibbleZero(codes[4 * g + 2]);
  }

  /** Digits of a code that lie in a clear byte are clear. */
  lemma {:induction false} ClearDigits(codes: seq<nat>, term: nat, q: nat, i: nat, from: nat, until: nat)
    requires ClearByte(codes, term, q) && i < |codes| && from < until <= 6
    requires 8 * q <= 6 * i + 6 - until && 6 * i + 5 - from < 8 * q + 8
    ensures forall t | from <= t < until :: !Bit(codes[i], t)
  {
    hide Bit, StreamBit, ClearByte;
    forall t | from <= t < until
      ensures !Bit(codes[i], t)
    {
      StreamDigit(codes, term, i, t);
      ClearBit(codes, term, q, 6 * i + 5 - t);
    }
  }

  /** Conversely such a pair of codes leaves that byte clear. */
  lemma {:induction false} ZeroPairClearsByte(codes: seq<nat>, term: nat, g: nat)
    requires SixBitCodes(codes) && ZeroByteEndsIn(codes, 4 * g + 2)
    ensures ClearByte(codes, term, 3 * g + 1)
  {
    hide Bit;
    var i := 4 * g + 1;
    LowNibbleZero(codes[i]);
    assert Pow2(2) == 4;
    forall j | 24 * g + 8 <= j < 24 * g + 16
      ensures !StreamBit(codes, term, j)
    {
      if j < 6 * (i + 1) {
        assert j / 6 == i && 5 - j % 6 < 4;
      } else {
        assert j / 6 == i + 1 && 5 - j % 6 >= 2;
        BitAbove(codes[i + 1], 2, 5 - j % 6);
      }
    }
  }

  /** No code before the first cut reaches past a clear byte. */
  lemma {:induction false} ClearByteAfter(codes: seq<nat>, term: nat, q: nat, i: nat)
    requires SixBitCodes(codes) && ClearByte(codes, term, q) && i < FirstCut(codes)
    ensures 6 * i + 5 < 8 * q + 8
  {
    hide StreamBit, ClearByte, FirstCut;
    if 6 * i + 5 >= 8 * q + 8 {
      var g := q / 3;
      if q % 3 == 0 {
        ClearCode(codes, term, q, 4 * g);
      } else if q % 3 == 1 {
        ClearMiddleByte(codes, term, g);
      } else {
        ClearCode(codes, term, q, 4 * g + 3);
      }
      assert false;
    }
  }

  /** Bits of a reread image that belong to codes before the first cut are the stream's own. */
  lemma {:induction false} CodeSurvives(codes: seq<nat>, term: nat, n: nat, z: nat, i: nat)
    requires SixBitCodes(codes) && i < FirstCut(codes)
    requires 6 * |codes| + term <= 8 * n
    requires 6 * i + 6 <= 8 * |Reread(Image(codes, term, n), z)|
    ensures Field6(Reread(Image(codes, term, n), z), i) == codes[i]
  {
    hide Bit, StreamBit, ClearByte, Image, MsbBits, FirstZero, FirstCut, Field6, Reread;
    var stored := Image(codes, term, n);
    var p := FirstZero(stored);
    if p < n {
      ZeroByteBits(codes, term, n, p);
      ClearByteAfter(codes, term, p, i);
    }
    forall t | 0 <= t < 6
      ensures MsbBits(Reread(stored, z))[6 * i + 5 - t] == Bit(codes[i], t)
    {
      var j := 6 * i + 5 - t;
      StreamDigit(codes, term, i, t);
      RereadBit(codes, term, n, z, j);
      if 8 * p <= j {
        ClearBit(codes, term, p, j);
      }
    }
    Field6Is(Reread(stored, z), i, codes[i]);
  }

  /** A field whose stream bits are clear, or that lies past the first zero byte, rereads as 0. */
  lemma {:induction false} LostField(codes: seq<nat>, term: nat, n: nat, z: nat, i: nat)
    requires 6 * i + 6 <= 8 * |Reread(Image(codes, term, n), z)|
    requires 6 * i >= 8 * FirstZero(Image(codes, term, n)) ||
             forall j | 6 * i <= j < 6 * i + 6 :: !StreamBit(codes, term, j)
    ensures Field6(Reread(Image(codes, term, n), z), i) == 0
  {
    hide Bit, Image, MsbBits, FirstZero, StreamBit, Field6, Reread;
    var stored := Image(codes, term, n);
    forall t | 0 <= t < 6
      ensures MsbBits(Reread(stored, z))[6 * i + 5 - t] == Bit(0, t)
    {
      RereadBit(codes, term, n, z, 6 * i + 5 - t);
      BitZero(t);
    }
    Field6Is(Reread(stored, z), i, 0);
  }

  // ---- Linkshell names ------------------------------------------------------------------------

  /** The encoder's code of a character; 0 for anything that is not alphanumeric. */
  function LinkshellCode(c: byte): (code: nat)
    ensures code < 63
  {
    if 0x61 <= c <= 0x7A then c - 0x60
    else if 0x41 <= c <= 0x5A then c - 0x26
    else if 0x30 <= c <= 0x39 then c + 5
    else 0
  }

  /** The decoder's character of a code other than 0 and 63. */
  function LinkshellChar(code: nat): byte
    requires 1 <= code <= 62
  {
    if code <= 26 then 0x60 + code
    else if code <= 52 then 0x26 + code
    else code - 5
  }

  /** The alphabet: a to z are codes 1 to 26, A to Z 27 to 52, 0 to 9 53 to 62, and nothing else has one. */
  lemma LinkshellAlphabet(c: byte, code: nat)
    requires 1 <= code <= 62
    ensures LinkshellCode(c) == code <==> LinkshellChar(code) == c
    ensures code <= 26 ==> LinkshellChar(code) == 'a' as int + (code - 1)
    ensures 27 <= code <= 52 ==> LinkshellChar(code) == 'A' as int + (code - 27)
    ensures 53 <= code ==> LinkshellChar(code) == '0' as int + (code - 53)
    ensures LinkshellCode(c) == 0 <==> !IsAlphanumeric(c)
  {
  }

  function LinkshellCodes(name: seq<byte>): (codes: seq<nat>)
    ensures |codes| == |name| && SixBitCodes(codes)
  {
    seq(|name|, i requires 0 <= i < |name| => LinkshellCode(name[i]))
  }

  /** Width of the terminator after `chars` characters. */
  function Leftover(chars: nat): (w: nat)
    ensures w == if chars % 4 == 2 then 4 else 6
  {
    var leftover := 8 - chars * 6 % 8;
    if leftover == 8 || leftover == 2 then 6 else leftover
  }

  /** The 20-byte buffer the encoder fills before strncpy copies it out. */
  function LinkshellImage(name: seq<byte>): seq<byte> {
    var text := Prefix(name, LINKSHELL_CHARS);
    Image(LinkshellCodes(text), Leftover(|text|), LINKSHELL_LENGTH)
  }

  method EncodeStringLinkshell(signature: seq<byte>, target: array<byte>)
    requires target.Length >= 20
    modifies target
    ensures target[..20] == Padded(CString(LinkshellImage(signature)), 20)
    ensures target[20..] == old(target[20..])
  {
    hide Image, StreamBit, MsbBits, MsbDigits, Splice, FirstZero, Pow2, Bit;
    var encodedSignature := new byte[20](_ => 0);
    ZerosAreImage(20);
    assert encodedSignature[..] == Zeros(20);
    var chars := 0;
    var length := if |signature| < 20 then |signature| else 20;
    ghost var codes := LinkshellCodes(Prefix(signature, LINKSHELL_CHARS));
    assert codes[..0] == [];
    var currChar := 0;
    WordSizes();
    while currChar < length
      modifies encodedSignature
      invariant 0 <= currChar <= length && chars == currChar
      invariant encodedSignature[..] == Image(codes[..currChar], 0, 20)
    {
      var c, tempChar := signature[currChar], 0;
      if '0' as int <= c <= '9' as int {
        tempChar := c - '0' as int + 53;
      } else if 'A' as int <= c <= 'Z' as int {
        tempChar := c - 'A' as int + 27;
      } else if 'a' as int <= c <= 'z' as int {
        tempChar := c - 'a' as int + 1;
      }
      ghost var before := encodedSignature[..];
      var _ := PackBitsLE(encodedSignature, tempChar, 0, 6 * currChar, 6);
      PackCode(before, encodedSignature[..], codes[..currChar], tempChar);
      assert codes[..currChar + 1] == codes[..currChar] + [tempChar];
      chars := chars + 1;
      currChar := currChar + 1;
    }
    assert codes[..length] == codes;
    var leftover := 8 - chars * 6 % 8;
    leftover := if leftover == 8 || leftover == 2 then 6 else leftover;
    ghost var before := encodedSignature[..];
    var _ := PackBitsLE(encodedSignature, 0xFF, 0, 6 * chars, leftover);
    PackTerminator(before, encodedSignature[..], codes, leftover);
    assert target[20..] == old(target[20..]);
    StrNCpy(target, encodedSignature[..], 20);
  }

  /** Number of six-bit fields the decoder looks at. */
  function LinkshellFields(signature: seq<byte>): (n: nat)
    ensures n <= LINKSHELL_CHARS && 6 * n <= 8 * |signature|
  {
    if |signature| * 8 / 6 < LINKSHELL_CHARS then |signature| * 8 / 6 else LINKSHELL_CHARS
  }

  /** The characters decoded from field `i` on, after `text`. */
  function DecodeLinkshellFrom(signature: seq<byte>, i: nat, text: seq<byte>): seq<byte>
    requires i <= LinkshellFields(signature) && |text| == i
    decreases LinkshellFields(signature) - i
  {
    if i == LinkshellFields(signature) then text
    else
      var code := Field6(signature, i);
      if code == 0 then (if i == 0 then [] else text[..i - 1])
      else if code >= 63 then text
      else DecodeLinkshellFrom(signature, i + 1, text + [LinkshellChar(code)])
  }

  function DecodeLinkshell(signature: seq<byte>): seq<byte> {
    DecodeLinkshellFrom(signature, 0, [])
  }

  method DecodeStringLinkshell(signature: seq<byte>, target: array<byte>)
    requires target.Length >= 20
    modifies target
    ensures target[..20] == Padded(DecodeLinkshell(signature), 20)
    ensures target[20..] == old(target[20..])
  {
    hide MsbBits, MsbDigits, FirstZero, Field6, Pow2, Bit;
    ByteSize();
    var decodedSignature := new byte[21](_ => 0);
    var length := if |signature| * 8 / 6 < 20 then |signature| * 8 / 6 else 20;
    ghost var text: seq<byte> := [];
    ghost var result := DecodeLinkshell(signature);
    var currChar := 0;
    while currChar < length
      modifies decodedSignature
      invariant 0 <= currChar <= length && |text| == currChar
      invariant HoldsText(decodedSignature[..], text)
      invariant DecodeLinkshellFrom(signature, currChar, text) == result
    {
      var tempChar := UnpackBitsLE(signature, 0, 6 * currChar, 6);
      UnpackedField(signature, currChar, tempChar);
      if tempChar == 0 {
        decodedSignature[if currChar == 0 then currChar else currChar - 1] := 0;
        text := result;
        break;
      }
      if tempChar == 63 {
        decodedSignature[currChar] := 0;
        text := result;
        break;
      }
      if 1 <= tempChar <= 26 {
        tempChar := 'a' as int - 1 + tempChar;
      } else if 27 <= tempChar <= 52 {
        tempChar := 'A' as int - 27 + tempChar;
      } else {
        tempChar := '0' as int - 53 + tempChar;
      }
      decodedSignature[currChar] := tempChar;
      text := text + [tempChar];
      currChar := currChar + 1;
    }
    TextOf(decodedSignature[..], result);
    assert target[20..] == old(target[20..]);
    StrNCpy(target, decodedSignature[..], 20);
  }

  /** The buffer holds `text`, free of zeros, and zeros after it. */
  predicate HoldsText(bs: seq<byte>, text: seq<byte>) {
    && |text| <= |bs|
    && (forall i | 0 <= i < |text| :: bs[i] == text[i] != 0)
    && (forall i | |text| <= i < |bs| :: bs[i] == 0)
  }

  lemma TextOf(bs: seq<byte>, text: seq<byte>)
    requires HoldsText(bs, text)
    ensures FirstZero(bs) == |text| && CString(bs) == text
  {
    var n := FirstZero(bs);
    assert n < |bs| ==> bs[n] == 0;
    assert |text| < |bs| ==> bs[|text|] == 0;
  }

  // ---- Linkshell round trip ---------------------------------------------------------------------

  /** The characters at `i - 1` and `i` pack into a zero byte, where the C-string copy of the name stops. */
  predicate LosesTail(name: seq<byte>, i: nat) {
    i % 4 == 2 && i < |name| && OneOf(name[i - 1], "pFV") && OneOf(name[i], "abc")
  }

  lemma {:induction false} LosesTailIsZeroByte(name: seq<byte>, i: nat)
    requires AllAlphanumeric(name)
    ensures LosesTail(name, i) <==> ZeroByteEndsIn(LinkshellCodes(name), i)
  {
    if i % 4 == 2 && i < |name| {
      assert OneOf(name[i], "abc") <==>
             name[i] == "abc"[0] as int || name[i] == "abc"[1] as int || name[i] == "abc"[2] as int;
      assert OneOf(name[i - 1], "pFV") <==>
             name[i - 1] == "pFV"[0] as int || name[i - 1] == "pFV"[1] as int || name[i - 1] == "pFV"[2] as int;
    }
  }

  /** With every code present, a clear byte can only follow the terminator. */
  lemma {:induction false} ClearByteAfterTerminator(codes: seq<nat>, q: nat)
    requires SixBitCodes(codes) && FirstCut(codes) == |codes| && ClearByte(codes, Leftover(|codes|), q)
    ensures 6 * |codes| + Leftover(|codes|) <= 8 * q
  {
    hide FirstCut, Leftover;
    var n, term := |codes|, Leftover(|codes|);
    if 8 * q < 6 * n + term {
      var g := q / 3;
      if q % 3 == 0 {
        if 4 * g < n {
          ClearCode(codes, term, q, 4 * g);
        } else {
          ClearBit(codes, term, q, 24 * g);
        }
      } else if q % 3 == 1 {
        if 4 * g + 2 < n {
          ClearMiddleByte(codes, term, g);
        } else {
          ClearBit(codes, term, q, if n == 4 * g + 1 then 24 * g + 8 else 24 * g + 12);
        }
      } else {
        if 4 * g + 3 < n {
          ClearCode(codes, term, q, 4 * g + 3);
        } else {
          ClearBit(codes, term, q, 24 * g + 18);
        }
      }
      assert false;
    }
  }

  /** Fields that hold the codes of `name` decode to its characters. */
  lemma {:induction false} DecodePrefix(signature: seq<byte>, name: seq<byte>, i: nat, k: nat)
    requires AllAlphanumeric(name) && i <= k <= |name| && k <= LinkshellFields(signature)
    requires forall t | i <= t < k :: Field6(signature, t) == LinkshellCode(name[t])
    ensures DecodeLinkshellFrom(signature, i, name[..i]) == DecodeLinkshellFrom(signature, k, name[..k])
    decreases k - i
  {
    hide Field6;
    if i < k {
      assert IsAlphanumeric(name[i]);
      assert LinkshellChar(LinkshellCode(name[i])) == name[i];
      assert name[..i + 1] == name[..i] + [name[i]];
      DecodePrefix(signature, name, i + 1, k);
    }
  }

  /** What the decoder makes of a name's stored encoding followed by `z` zero bytes. */
  function LinkshellReread(name: seq<byte>, z: nat): seq<byte> {
    DecodeLinkshell(Reread(LinkshellImage(name), z))
  }

  /** A name without a lossy pair comes back whole, however the stored string is zero-filled. */
  lemma {:induction false} LinkshellWhole(name: seq<byte>, z: nat)
    requires |name| <= LINKSHELL_CHARS && AllAlphanumeric(name)
    requires FirstCut(LinkshellCodes(name)) == |name|
    ensures LinkshellReread(name, z) == name
  {
    hide Image, FirstZero, Field6, FirstCut, ClearByte, MsbBits, Bit, StreamBit;
    var codes := LinkshellCodes(name);
    var n, term := |name|, Leftover(|name|);
    var stored := Image(codes, term, LINKSHELL_LENGTH);
    assert LinkshellImage(name) == stored;
    var p := FirstZero(stored);
    if p < LINKSHELL_LENGTH {
      ZeroByteBits(codes, term, LINKSHELL_LENGTH, p);
      ClearByteAfterTerminator(codes, p);
    }
    assert 6 * n + term <= 8 * p;
    var read := Reread(stored, z);
    assert |read| == p + z;
    assert n <= LinkshellFields(read);
    forall t | 0 <= t < n
      ensures Field6(read, t) == LinkshellCode(name[t])
    {
      CodeSurvives(codes, term, LINKSHELL_LENGTH, z, t);
    }
    DecodePrefix(read, name, 0, n);
    assert name[..0] == [] && name[..n] == name;
    if n < LinkshellFields(read) {
      TerminatorStops(name, z, read);
    }
  }

  /** After the last character the decoder meets the terminator and returns the text so far. */
  lemma {:induction false} TerminatorStops(name: seq<byte>, z: nat, read: seq<byte>)
    requires |name| < LinkshellFields(read)
    requires read == Reread(Image(LinkshellCodes(name), Leftover(|name|), LINKSHELL_LENGTH), z)
    requires var p := FirstZero(Image(LinkshellCodes(name), Leftover(|name|), LINKSHELL_LENGTH));
             6 * |name| + Leftover(|name|) <= 8 * p
    ensures DecodeLinkshellFrom(read, |name|, name) == name
  {
    hide Image, FirstZero, Field6, FirstCut, ClearByte, MsbBits, Leftover, Reread, Bit;
    var codes, n, term := LinkshellCodes(name), |name|, Leftover(|name|);
    var stored := Image(codes, term, LINKSHELL_LENGTH);
    ByteSize();
    var terminator := if term == 6 then 63 else 60;
    forall t | 0 <= t < 6
      ensures MsbBits(read)[6 * n + 5 - t] == Bit(terminator, t)
    {
      RereadBit(codes, term, LINKSHELL_LENGTH, z, 6 * n + 5 - t);
      TerminatorDigits(t);
    }
    Field6Is(read, n, terminator);
    if term == 4 {
      assert n + 1 < LinkshellFields(read);
      LostField(codes, term, LINKSHELL_LENGTH, z, n + 1);
      assert Field6(read, n + 1) == 0;
      assert (name + [LinkshellChar(60)])[..n] == name;
    }
  }

  lemma {:induction false} TerminatorDigits(t: nat)
    requires t < 6
    ensures Bit(63, t) && (Bit(60, t) == (t >= 2))
  {
    ByteSize();
    BitOnes(6, t);
    assert Pow2(4) == 16 && Shl(15, 2) == 60;
    BitShl(15, 2, t);
    if t >= 2 {
      BitOnes(4, t - 2);
    }
  }

  /** The first zero pair is the first zero byte of the image. */
  lemma {:induction false} ZeroPairIsFirstZero(codes: seq<nat>, term: nat, n: nat)
    requires SixBitCodes(codes) && 6 * |codes| + term <= 8 * n
    requires FirstCut(codes) < |codes| && codes[FirstCut(codes)] != 0
    ensures FirstCut(codes) % 4 == 2 && FirstZero(Image(codes, term, n)) == 3 * (FirstCut(codes) / 4) + 1
  {
    hide Image, ClearByte, StreamBit, FirstCut, Bit;
    var i := FirstCut(codes);
    var g := i / 4;
    ZeroPairClearsByte(codes, term, g);
    ZeroByteBits(codes, term, n, 3 * g + 1);
    var stored := Image(codes, term, n);
    var p := FirstZero(stored);
    assert stored[3 * g + 1] == 0;
    assert stored[p] == 0;
    ZeroByteBits(codes, term, n, p);
    ClearByteAfter(codes, term, p, i - 1);
  }

  /** A name whose first lossy pair ends at `i` comes back cut just before that pair's second half. */
  lemma {:induction false} LinkshellCut(name: seq<byte>, z: nat, i: nat)
    requires |name| <= LINKSHELL_CHARS && AllAlphanumeric(name)
    requires i == FirstCut(LinkshellCodes(name)) < |name|
    ensures LinkshellReread(name, z) == if z == 1 then name[..i] else name[..i - 1]
  {
    hide Image, FirstZero, Field6, ClearByte, MsbBits, Leftover, Bit, StreamBit;
    var codes := LinkshellCodes(name);
    var term := Leftover(|name|);
    var stored := Image(codes, term, LINKSHELL_LENGTH);
    assert LinkshellImage(name) == stored;
    assert IsAlphanumeric(name[i]);
    assert ZeroByteEndsIn(codes, i);
    ZeroPairIsFirstZero(codes, term, LINKSHELL_LENGTH);
    var p := FirstZero(stored);
    var read := Reread(stored, z);
    var k := if z == 0 then i - 1 else i;
    assert |read| == p + z && k <= LinkshellFields(read);
    forall t | 0 <= t < k
      ensures Field6(read, t) == LinkshellCode(name[t])
    {
      CodeSurvives(codes, term, LINKSHELL_LENGTH, z, t);
    }
    DecodePrefix(read, name, 0, k);
    assert name[..0] == [];
    if z >= 2 {
      LostField(codes, term, LINKSHELL_LENGTH, z, i);
      assert name[..i][..i - 1] == name[..i - 1];
    }
  }

  /**
   * The exact behaviour of the pair of codecs on the names the game stores.  `z` is the zero fill the
   * caller leaves after the stored C string: none for a std::string, the rest of a fixed field otherwise.
   */
  lemma {:induction false} LinkshellRoundTrip(name: seq<byte>, z: nat)
    requires AllAlphanumeric(Prefix(name, 20))
    ensures var text := Prefix(name, 20);
            var cut := FirstCut(LinkshellCodes(text));
            LinkshellReread(name, z) ==
            if cut == |text| then text else if z == 1 then text[..cut] else text[..cut - 1]
    ensures var text := Prefix(name, 20);
            var cut := FirstCut(LinkshellCodes(text));
            && (forall i | 0 <= i < cut :: !LosesTail(text, i))
            && (cut < |text| ==> LosesTail(text, cut))
  {
    hide FirstCut, Image;
    var text := Prefix(name, 20);
    var codes := LinkshellCodes(text);
    var cut := FirstCut(codes);
    forall i | 0 <= i <= cut
      ensures LosesTail(text, i) <==> ZeroByteEndsIn(codes, i)
    {
      LosesTailIsZeroByte(text, i);
    }
    if cut == |text| {
      LinkshellWhole(text, z);
    } else {
      assert IsAlphanumeric(text[cut]);
      LinkshellCut(text, z, cut);
    }
  }

  /** The decoder only ever produces alphanumeric characters. */
  lemma {:induction false} DecodedIsAlphanumeric(signature: seq<byte>, i: nat, text: seq<byte>)
    requires i <= LinkshellFields(signature) && |text| == i && AllAlphanumeric(text)
    ensures AllAlphanumeric(DecodeLinkshellFrom(signature, i, text))
    decreases LinkshellFields(signature) - i
  {
    hide Field6;
    if i < LinkshellFields(signature) {
      var code := Field6(signature, i);
      if 1 <= code < 63 {
        assert IsAlphanumeric(LinkshellChar(code));
        DecodedIsAlphanumeric(signature, i + 1, text + [LinkshellChar(code)]);
      }
    }
  }

  /**
   * A name survives, up to the 20-character limit, exactly when a caller finds it alphanumeric and without a lossy
   * pair.
   */
  lemma {:induction false} LinkshellSurvivesIff(name: seq<byte>, z: nat)
    ensures var text := Prefix(name, 20);
            LinkshellReread(name, z) == text <==>
            AllAlphanumeric(text) && forall i | 0 <= i < |text| :: !LosesTail(text, i)
  {
    hide Image, Field6, FirstCut;
    var text := Prefix(name, 20);
    if AllAlphanumeric(text) {
      LinkshellRoundTrip(name, z);
    } else {
      DecodedIsAlphanumeric(Reread(LinkshellImage(name), z), 0, []);
    }
  }

  // ---- Signatures -----------------------------------------------------------------------------

  function SignatureCode(c: byte): (code: nat)
    ensures code < 63
  {
    if 0x30 <= c <= 0x39 then c - 0x2F
    else if 0x41 <= c <= 0x5A then c - 0x36
    else if 0x61 <= c <= 0x7A then c - 0x3C
    else 0
  }

  function SignatureChar(code: nat): byte
    requires code < 64
  {
    if 1 <= code <= 10 then 0x2F + code
    else if 11 <= code <= 36 then 0x36 + code
    else if 37 <= code <= 62 then 0x3C + code
    else code
  }

  /** The alphabet: 0 to 9 are codes 1 to 10, A to Z 11 to 36, a to z 37 to 62, and nothing else has one. */
  lemma SignatureAlphabet(c: byte, code: nat)
    requires 1 <= code <= 62
    ensures SignatureCode(c) == code <==> SignatureChar(code) == c
    ensures code <= 10 ==> SignatureChar(code) == '0' as int + (code - 1)
    ensures 11 <= code <= 36 ==> SignatureChar(code) == 'A' as int + (code - 11)
    ensures 37 <= code ==> SignatureChar(code) == 'a' as int + (code - 37)
    ensures SignatureCode(c) == 0 <==> !IsAlphanumeric(c)
  {
  }

  function SignatureCodes(name: seq<byte>): (codes: seq<nat>)
    ensures |codes| == |name| && SixBitCodes(codes)
  {
    seq(|name|, i requires 0 <= i < |name| => SignatureCode(name[i]))
  }

  function SignatureImage(name: seq<byte>): seq<byte> {
    Image(SignatureCodes(Prefix(name, SIGNATURE_CHARS)), 0, SIGNATURE_LENGTH)
  }

  method EncodeStringSignature(signature: seq<byte>, target: array<byte>) returns (result: seq<byte>)
    requires target.Length >= 16
    modifies target
    ensures target[..16] == Padded(CString(SignatureImage(signature)), 16)
    ensures target[16..] == old(target[16..])
    ensures result == CString(target[..])
  {
    hide Image, StreamBit, MsbBits, MsbDigits, Splice, FirstZero, Pow2, Bit;
    var encodedSignature := new byte[16](_ => 0);
    ZerosAreImage(16);
    assert encodedSignature[..] == Zeros(16);
    var length := if |signature| < 15 then |signature| else 15;
    ghost var codes := SignatureCodes(Prefix(signature, SIGNATURE_CHARS));
    assert codes[..0] == [];
    var currChar := 0;
    WordSizes();
    while currChar < length
      modifies encodedSignature
      invariant 0 <= currChar <= length
      invariant encodedSignature[..] == Image(codes[..currChar], 0, 16)
    {
      var c, tempChar := signature[currChar], 0;
      if '0' as int <= c <= '9' as int {
        tempChar := c - '0' as int + 1;
      } else if 'A' as int <= c <= 'Z' as int {
        tempChar := c - 'A' as int + 11;
      } else if 'a' as int <= c <= 'z' as int {
        tempChar := c - 'a' as int + 37;
      }
      ghost var before := encodedSignature[..];
      var _ := PackBitsLE(encodedSignature, tempChar, 0, 6 * currChar, 6);
      PackCode(before, encodedSignature[..], codes[..currChar], tempChar);
      assert codes[..currChar + 1] == codes[..currChar] + [tempChar];
      currChar := currChar + 1;
    }
    assert codes[..length] == codes;
    assert target[16..] == old(target[16..]);
    StrNCpy(target, encodedSignature[..], 16);
    result := CString(target[..]);
  }

  /** The sixteen characters the decoder reads; the text is the C string they start with. */
  function SignatureFields(bytes: seq<byte>): (text: seq<byte>)
    requires 6 * PACKET_NAME_LENGTH <= 8 * |bytes|
    ensures |text| == PACKET_NAME_LENGTH
  {
    seq(PACKET_NAME_LENGTH, i requires 0 <= i < PACKET_NAME_LENGTH => SignatureChar(Field6(bytes, i)))
  }

  /** The decoder reads 96 bits of the string and its terminating zero, so it needs 11 bytes. */
  method DecodeStringSignature(signature: seq<byte>, target: array<byte>)
    requires target.Length >= 16
    requires 6 * 16 <= 8 * (|signature| + 1)
    modifies target
    ensures target[..16] == Padded(CString(SignatureFields(signature + [0])), 16)
    ensures target[16..] == old(target[16..])
  {
    hide MsbBits, MsbDigits, FirstZero, Field6, Pow2, Bit;
    ByteSize();
    var decodedSignature := new byte[16 + 1](_ => 0);
    var bytes := signature + [0];
    ghost var text := SignatureFields(bytes);
    var currChar := 0;
    while currChar < 16
      modifies decodedSignature
      invariant 0 <= currChar <= 16
      invariant forall k | 0 <= k < currChar :: decodedSignature[k] == text[k]
      invariant forall k | currChar <= k < decodedSignature.Length :: decodedSignature[k] == 0
    {
      var tempChar := UnpackBitsLE(bytes, 0, 6 * currChar, 6);
      UnpackedField(bytes, currChar, tempChar);
      if 1 <= tempChar <= 10 {
        tempChar := '0' as int - 1 + tempChar;
      } else if 11 <= tempChar <= 36 {
        tempChar := 'A' as int - 11 + tempChar;
      } else if 37 <= tempChar <= 62 {
        tempChar := 'a' as int - 37 + tempChar;
      }
      decodedSignature[currChar] := tempChar;
      currChar := currChar + 1;
    }
    assert decodedSignature[..] == text + [0];
    TextThenZero(text);
    assert target[16..] == old(target[16..]);
    StrNCpy(target, decodedSignature[..], 16);
  }

  lemma {:induction false} TextThenZero(text: seq<byte>)
    ensures FirstZero(text + [0]) < |text + [0]| && CString(text + [0]) == CString(text)
  {
    if text != [] && text[0] != 0 {
      TextThenZero(text[1..]);
      assert (text + [0])[1..] == text[1..] + [0];
    }
  }

  /** What the decoder makes of a signature's stored encoding followed by `z` zero bytes. */
  function SignatureReread(name: seq<byte>, z: nat): seq<byte>
    requires 6 * PACKET_NAME_LENGTH <= 8 * (|Reread(SignatureImage(name), z)| + 1)
  {
    CString(SignatureFields(Reread(SignatureImage(name), z) + [0]))
  }

  predicate SignatureLosesTail(name: seq<byte>, i: nat) {
    i % 4 == 2 && i < |name| && OneOf(name[i - 1], "FVl") && OneOf(name[i], "012")
  }

  lemma {:induction false} SignatureLosesTailIsZeroByte(name: seq<byte>, i: nat)
    requires i < |name| && IsAlphanumeric(name[i]) && (i > 0 ==> IsAlphanumeric(name[i - 1]))
    ensures SignatureLosesTail(name, i) <==> ZeroByteEndsIn(SignatureCodes(name), i)
  {
    if i % 4 == 2 {
      assert OneOf(name[i], "012") <==>
             name[i] == "012"[0] as int || name[i] == "012"[1] as int || name[i] == "012"[2] as int;
      assert OneOf(name[i - 1], "FVl") <==>
             name[i - 1] == "FVl"[0] as int || name[i - 1] == "FVl"[1] as int || name[i - 1] == "FVl"[2] as int;
    }
  }

  /** The field at the first cut rereads as 0, whatever cut the codes there. */
  lemma {:induction false} CutFieldIsLost(codes: seq<nat>, n: nat, z: nat)
    requires SixBitCodes(codes) && 6 * |codes| + 6 <= 8 * n
    requires 6 * FirstCut(codes) + 6 <= 8 * |Reread(Image(codes, 0, n), z)|
    ensures Field6(Reread(Image(codes, 0, n), z), FirstCut(codes)) == 0
  {
    hide Image, FirstZero, Field6, ClearByte, MsbBits, Bit, FirstCut, Reread;
    var cut := FirstCut(codes);
    if cut < |codes| && codes[cut] != 0 {
      var g := cut / 4;
      ZeroPairClearsByte(codes, 0, g);
      ZeroByteBits(codes, 0, n, 3 * g + 1);
    } else {
      forall j | 6 * cut <= j < 6 * cut + 6
        ensures !StreamBit(codes, 0, j)
      {
        BitZero(5 - j % 6);
      }
    }
    LostField(codes, 0, n, z, cut);
  }

  /**
   * The signature codec on every name: the decoder returns the characters before the first one that is
   * not alphanumeric or completes a lossy pair, of the 15 that are encoded.
   */
  lemma {:induction false} SignatureRoundTrip(name: seq<byte>, z: nat)
    requires 6 * PACKET_NAME_LENGTH <= 8 * (|Reread(SignatureImage(name), z)| + 1)
    ensures var text := Prefix(name, 15);
            SignatureReread(name, z) == text[..FirstCut(SignatureCodes(text))]
  {
    hide Image, FirstZero, Field6, ClearByte, MsbBits, Bit, StreamBit, FirstCut;
    var text := Prefix(name, 15);
    var codes := SignatureCodes(text);
    var cut := FirstCut(codes);
    var stored := Image(codes, 0, SIGNATURE_LENGTH);
    assert SignatureImage(name) == stored;
    var read := Reread(stored, z + 1);
    assert Reread(stored, z) + [0] == read;
    var fields := SignatureFields(read);
    forall i | 0 <= i < cut
      ensures fields[i] == text[i] != 0
    {
      CodeSurvives(codes, 0, SIGNATURE_LENGTH, z + 1, i);
    }
    CutFieldIsLost(codes, SIGNATURE_LENGTH, z + 1);
    assert fields[cut] == 0;
    CutAt(fields, cut);
  }

  lemma {:induction false} CutAt(bs: seq<byte>, n: nat)
    requires n < |bs| && bs[n] == 0 && forall i | 0 <= i < n :: bs[i] != 0
    ensures CString(bs) == bs[..n]
  {
    var p := FirstZero(bs);
    assert p < |bs| ==> bs[p] == 0;
  }

  /** A signature survives, up to the 15-character limit, exactly when it is alphanumeric and has no lossy pair. */
  lemma {:induction false} SignatureSurvivesIff(name: seq<byte>, z: nat)
    requires 6 * PACKET_NAME_LENGTH <= 8 * (|Reread(SignatureImage(name), z)| + 1)
    ensures var text := Prefix(name, 15);
            SignatureReread(name, z) == text <==>
            AllAlphanumeric(text) && forall i | 0 <= i < |text| :: !SignatureLosesTail(text, i)
  {
    hide Image, FirstCut, FirstZero, SignatureFields;
    var text := Prefix(name, 15);
    var codes := SignatureCodes(text);
    var cut := FirstCut(codes);
    SignatureRoundTrip(name, z);
    if AllAlphanumeric(text) {
      forall i | 0 <= i < |text|
        ensures SignatureLosesTail(text, i) <==> ZeroByteEndsIn(codes, i)
      {
        SignatureLosesTailIsZeroByte(text, i);
      }
    } else {
      var i :| 0 <= i < |text| && !IsAlphanumeric(text[i]);
      assert codes[i] == 0;
    }
  }

  lemma LossyDigit(c: byte)
    ensures OneOf(c, "012") ==> IsDigit(c)
  {
  }

  /** Letters alone are never lost: only a digit can complete a lossy pair. */
  lemma {:induction false} AlphabeticSignatureSurvives(name: seq<byte>, z: nat)
    requires 6 * PACKET_NAME_LENGTH <= 8 * (|Reread(SignatureImage(name), z)| + 1)
    requires |name| <= SIGNATURE_CHARS && forall i | 0 <= i < |name| :: IsUpper(name[i]) || IsLower(name[i])
    ensures SignatureReread(name, z) == name
  {
    hide Image, FirstCut, FirstZero, SignatureFields;
    forall i | 0 <= i < |name|
      ensures IsAlphanumeric(name[i]) && !SignatureLosesTail(name, i)
    {
      assert IsUpper(name[i]) || IsLower(name[i]);
      LossyDigit(name[i]);
    }
    SignatureSurvivesIff(name, z);
  }
}
