/** A reader for JSON objects, by the codes that sections 2 to 7 of RFC 8259 give. */
module JsonReader {
  import opened Words
  import opened Numerals

  const BEGIN_OBJECT: byte := 0x7B
  const END_OBJECT: byte := 0x7D
  const NAME_SEPARATOR: byte := 0x3A
  const VALUE_SEPARATOR: byte := 0x2C
  const QUOTATION_MARK: byte := 0x22
  const REVERSE_SOLIDUS: byte := 0x5C
  const SOLIDUS: byte := 0x2F
  const DECIMAL_POINT: byte := 0x2E
  const MINUS_SIGN: byte := 0x2D
  const PLUS_SIGN: byte := 0x2B
  const DIGIT_ZERO: byte := 0x30
  const TRUE: seq<byte> := [0x74, 0x72, 0x75, 0x65]
  const FALSE: seq<byte> := [0x66, 0x61, 0x6C, 0x73, 0x65]

  /** A number is its digits times a power of ten. */
  datatype Number = Number(digits: int, power: int)

  datatype Json = JNumber(n: Number) | JBool(b: bool) | JString(s: seq<byte>) | JObject(members: seq<Member>)
  datatype Member = Member(key: seq<byte>, value: Json)

  /** What a reader found at the front of its input, and what follows. */
  datatype Read<T> = Got(value: T, rest: seq<byte>) | Malformed

  function HexValue(c: byte): int {
    if 0x30 <= c <= 0x39 then c - 0x30
    else if 0x61 <= c <= 0x66 then c - 0x61 + 10
    else if 0x41 <= c <= 0x46 then c - 0x41 + 10
    else -1
  }

  /** The character after a backslash; escapes by code are read for the ASCII range. */
  function ReadEscape(s: seq<byte>): (r: Read<byte>)
    ensures r.Got? ==> |r.rest| < |s|
  {
    if s == [] then Malformed
    else if s[0] == QUOTATION_MARK || s[0] == REVERSE_SOLIDUS || s[0] == SOLIDUS then Got(s[0], s[1..])
    else if s[0] == 0x62 then Got(8, s[1..])
    else if s[0] == 0x66 then Got(12, s[1..])
    else if s[0] == 0x6E then Got(10, s[1..])
    else if s[0] == 0x72 then Got(13, s[1..])
    else if s[0] == 0x74 then Got(9, s[1..])
    else if s[0] == 0x75 && |s| >= 5 then
      var h3, h2, h1, h0 := HexValue(s[1]), HexValue(s[2]), HexValue(s[3]), HexValue(s[4]);
      if h3 == 0 && h2 == 0 && 0 <= h1 < 8 && h0 >= 0 then Got(16 * h1 + h0, s[5..]) else Malformed
    else Malformed
  }

  /** The characters of a string up to its closing quote. */
  function ReadChars(s: seq<byte>): (r: Read<seq<byte>>)
    ensures r.Got? ==> |r.rest| < |s|
    decreases |s|
  {
    if s == [] || s[0] < 0x20 then Malformed
    else if s[0] == QUOTATION_MARK then Got([], s[1..])
    else
      var first := if s[0] == REVERSE_SOLIDUS then ReadEscape(s[1..]) else Got(s[0], s[1..]);
      if first.Malformed? then Malformed
      else
        var more := ReadChars(first.rest);
        if more.Malformed? then Malformed else Got([first.value] + more.value, more.rest)
  }

  /** Length of the run of digits at the front. */
  function DigitRun(s: seq<byte>): (n: nat)
    ensures n <= |s|
  {
    if s == [] || !IsNumeral(s[0]) then 0 else 1 + DigitRun(s[1..])
  }

  /** The digits after a point, which must be some; none without a point. */
  function ReadFraction(s: seq<byte>): (r: Read<seq<byte>>)
    ensures r.Got? ==> |r.rest| <= |s|
  {
    if s == [] || s[0] != DECIMAL_POINT then Got([], s)
    else
      var k := DigitRun(s[1..]);
      if k == 0 then Malformed else Got(s[1..][..k], s[1..][k..])
  }

  function ReadExponent(s: seq<byte>): (r: Read<int>)
    ensures r.Got? ==> |r.rest| <= |s|
  {
    if s == [] || (s[0] != 0x65 && s[0] != 0x45) then Got(0, s)
    else
      var signed := |s| > 1 && (s[1] == MINUS_SIGN || s[1] == PLUS_SIGN);
      var t := if signed then s[2..] else s[1..];
      var k := DigitRun(t);
      if k == 0 then Malformed
      else Got(if signed && s[1] == MINUS_SIGN then -NumeralValue(t[..k]) else NumeralValue(t[..k]), t[k..])
  }

  function ReadMagnitude(s: seq<byte>): (r: Read<Number>)
    ensures r.Got? ==> |r.rest| < |s|
  {
    var k := DigitRun(s);
    if k == 0 || (k > 1 && s[0] == DIGIT_ZERO) then Malformed
    else
      var fraction := ReadFraction(s[k..]);
      if fraction.Malformed? then Malformed
      else
        var exponent := ReadExponent(fraction.rest);
        if exponent.Malformed? then Malformed
        else Got(Number(NumeralValue(s[..k] + fraction.value), exponent.value - |fraction.value|), exponent.rest)
  }

  /** Section 6 of RFC 8259. */
  function ReadNumber(s: seq<byte>): (r: Read<Number>)
    ensures r.Got? ==> |r.rest| < |s|
  {
    if s != [] && s[0] == MINUS_SIGN then
      var r := ReadMagnitude(s[1..]);
      if r.Malformed? then Malformed else Got(Number(-r.value.digits, r.value.power), r.rest)
    else ReadMagnitude(s)
  }

  function ReadJson(s: seq<byte>): (r: Read<Json>)
    ensures r.Got? ==> |r.rest| < |s|
    decreases |s|, 0
  {
    if s == [] then Malformed
    else if s[0] == QUOTATION_MARK then
      var r := ReadChars(s[1..]);
      if r.Malformed? then Malformed else Got(JString(r.value), r.rest)
    else if s[0] == BEGIN_OBJECT then
      if |s| > 1 && s[1] == END_OBJECT then Got(JObject([]), s[2..])
      else
        var r := ReadMembers(s[1..]);
        if r.Malformed? then Malformed else Got(JObject(r.value), r.rest)
    else if |s| >= 4 && s[..4] == TRUE then Got(JBool(true), s[4..])
    else if |s| >= 5 && s[..5] == FALSE then Got(JBool(false), s[5..])
    else
      var r := ReadNumber(s);
      if r.Malformed? then Malformed else Got(JNumber(r.value), r.rest)
  }

  /** One member or more, and the closing brace. */
  function ReadMembers(s: seq<byte>): (r: Read<seq<Member>>)
    ensures r.Got? ==> |r.rest| < |s|
    decreases |s|, 1
  {
    if s == [] || s[0] != QUOTATION_MARK then Malformed
    else
      var key := ReadChars(s[1..]);
      if key.Malformed? || key.rest == [] || key.rest[0] != NAME_SEPARATOR then Malformed
      else
        var value := ReadJson(key.rest[1..]);
        if value.Malformed? || value.rest == [] then Malformed
        else if value.rest[0] == END_OBJECT then Got([Member(key.value, value.value)], value.rest[1..])
        else if value.rest[0] == VALUE_SEPARATOR then
          var more := ReadMembers(value.rest[1..]);
          if more.Malformed? then Malformed else Got([Member(key.value, value.value)] + more.value, more.rest)
        else Malformed
  }
}
