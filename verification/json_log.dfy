/** The JSON log printer, and what a reader makes of what it prints. */
module JsonLog {
  import opened Words
  import opened Numerals
  import opened JsonReader

  // ---- What is logged --------------------------------------------------------------------------------

  type Digits = s: seq<byte> | forall i | 0 <= i < |s| :: IsNumeral(s[i])

  datatype Exponent = NoExponent | TimesTenTo(e: int)

  /**
   * A double, a finite one by the decimal the formatting library gives for it: digits before and after the point,
   * and an exponent.
   */
  datatype Double =
    | Finite(negative: bool, whole: nat, fraction: Digits, exponent: Exponent)
    | Infinite(negative: bool)
    | NotANumber(negative: bool)

  datatype Value =
    | Int64(i: int)
    | UInt64(u: nat)
    | Float(d: Double)
    | Bool(b: bool)
    | Text(s: seq<byte>)
    | Sub(fields: seq<Field>)
  datatype Field = Field(key: seq<byte>, value: Value)

  const QUOTE: byte := '\"' as int
  const BACKSLASH: byte := '\\' as int
  const COMMA: byte := ',' as int
  const COLON: byte := ':' as int
  const OPEN: byte := '{' as int
  const CLOSE: byte := '}' as int

  // ---- The printer's output ---------------------------------------------------------------------------

  function HexDigit(n: nat): byte
    requires n < 16
  {
    if n < 10 then 0x30 + n else 0x57 + n
  }

  /** Section 7 of RFC 8259: two characters where it gives them, six for other controls, and else the byte itself. */
  function Escape(c: byte): (e: seq<byte>)
    ensures |e| >= 1
  {
    if c == 0x22 || c == 0x5C then [0x5C, c]
    else if c == 0x08 then [0x5C, 0x62]
    else if c == 0x09 then [0x5C, 0x74]
    else if c == 0x0A then [0x5C, 0x6E]
    else if c == 0x0C then [0x5C, 0x66]
    else if c == 0x0D then [0x5C, 0x72]
    else if c < 0x20 then [0x5C, 0x75, 0x30, 0x30, 0x30 + c / 16, HexDigit(c % 16)]
    else [c]
  }

  function Escaped(s: seq<byte>): seq<byte> {
    if s == [] then [] else Escape(s[0]) + Escaped(s[1..])
  }

  function Quoted(s: seq<byte>): seq<byte> {
    [QUOTE] + Escaped(s) + [QUOTE]
  }

  function Literal(b: bool): seq<byte> {
    if b then ['t' as int, 'r' as int, 'u' as int, 'e' as int]
    else ['f' as int, 'a' as int, 'l' as int, 's' as int, 'e' as int]
  }

  const POINT: byte := '.' as int
  const MINUS: byte := '-' as int

  function ExponentText(x: Exponent): seq<byte> {
    match x
    case NoExponent => []
    case TimesTenTo(e) =>
      ['e' as int, if e < 0 then MINUS else '+' as int] + ZeroFilled(if e < 0 then -e else e, 2)
  }

  /** A finite double without its sign. */
  function Magnitude(whole: nat, fraction: Digits, exponent: Exponent): seq<byte> {
    Decimal(whole) + ((if fraction == [] then [] else [POINT] + fraction) + ExponentText(exponent))
  }

  function FloatText(d: Double): seq<byte> {
    (if d.negative then [MINUS] else []) +
    match d
    case Finite(_, whole, fraction, exponent) => Magnitude(whole, fraction, exponent)
    case Infinite(_) => ['i' as int, 'n' as int, 'f' as int]
    case NotANumber(_) => ['n' as int, 'a' as int, 'n' as int]
  }

  function RenderValue(v: Value): seq<byte>
    decreases v, 1
  {
    match v
    case Int64(i) => Signed(i)
    case UInt64(u) => Decimal(u)
    case Float(d) => FloatText(d)
    case Bool(b) => Literal(b)
    case Text(s) => Quoted(s)
    case Sub(fields) => [OPEN] + RenderFields(fields) + [CLOSE]
  }

  function RenderField(f: Field): seq<byte>
    decreases f, 0
  {
    Quoted(f.key) + [COLON] + RenderValue(f.value)
  }

  function RenderFields(fields: seq<Field>): seq<byte>
    decreases fields, 1
  {
    if fields == [] then [] else RenderField(fields[0]) + RenderMore(fields[1..])
  }

  /** Further fields, each after a comma. */
  function RenderMore(fields: seq<Field>): seq<byte>
    decreases fields, 0
  {
    if fields == [] then [] else [COMMA] + RenderField(fields[0]) + RenderMore(fields[1..])
  }

  // ---- The printer --------------------------------------------------------------------------------------

  class MemoryBuffer {
    var data: seq<byte>

    constructor ()
      ensures data == []
    {
      data := [];
    }

    method Append(bytes: seq<byte>)
      modifies this
      ensures data == old(data) + bytes
    {
      data := data + bytes;
    }
  }

  /** The switch over one character. */
  method AppendEscape(buf: MemoryBuffer, c: byte)
    modifies buf
    ensures buf.data == old(buf.data) + Escape(c)
  {
    if c == QUOTE {
      buf.Append([BACKSLASH, QUOTE]);
    } else if c == BACKSLASH {
      buf.Append([BACKSLASH, BACKSLASH]);
    } else if c == 8 {
      buf.Append([BACKSLASH, 'b' as int]);
    } else if c == 12 {
      buf.Append([BACKSLASH, 'f' as int]);
    } else if c == 10 {
      buf.Append([BACKSLASH, 'n' as int]);
    } else if c == 13 {
      buf.Append([BACKSLASH, 'r' as int]);
    } else if c == 9 {
      buf.Append([BACKSLASH, 't' as int]);
    } else if c < 0x20 {
      var high := if c < 16 then '0' as int else '1' as int;
      var low := if c % 16 < 10 then '0' as int + c % 16 else 'a' as int + (c % 16 - 10);
      buf.Append([BACKSLASH, 'u' as int, '0' as int, '0' as int, high, low]);
    } else {
      buf.Append([c]);
    }
  }

  method AppendEscaped(buf: MemoryBuffer, s: seq<byte>)
    modifies buf
    ensures buf.data == old(buf.data) + Escaped(s)
  {
    hide Escape;
    for i := 0 to |s|
      invariant buf.data + Escaped(s[i..]) == old(buf.data) + Escaped(s)
    {
      assert s[i..][1..] == s[i + 1..];
      ghost var before := buf.data;
      AppendEscape(buf, s[i]);
      assert before + Escaped(s[i..]) == buf.data + Escaped(s[i + 1..]);
    }
  }

  method AppendQuoted(buf: MemoryBuffer, s: seq<byte>)
    modifies buf
    ensures buf.data == old(buf.data) + Quoted(s)
  {
    buf.Append([QUOTE]);
    AppendEscaped(buf, s);
    buf.Append([QUOTE]);
  }

  method AppendFields(buf: MemoryBuffer, fields: seq<Field>)
    modifies buf
    ensures buf.data == old(buf.data) + RenderFields(fields)
    decreases fields, 1
  {
    hide RenderField, RenderFields, RenderMore;
    FieldsNone(fields);
    var first := true;
    for i := 0 to |fields|
      invariant first == (i == 0)
      invariant buf.data + (if first then RenderFields(fields[i..]) else RenderMore(fields[i..])) ==
                old(buf.data) + RenderFields(fields)
    {
      ghost var before := buf.data;
      ghost var comma := if i == 0 then [] else [COMMA];
      FieldsStep(fields, i);
      if !first {
        buf.Append([COMMA]);
      }
      first := false;
      AppendField(buf, fields[i]);
      Regroup(before, comma, RenderField(fields[i]), RenderMore(fields[i + 1..]));
      assert before + [] == before;
    }
  }

  lemma Regroup<T>(a: seq<T>, b: seq<T>, c: seq<T>, d: seq<T>)
    ensures a + (b + c + d) == a + b + c + d
  {
  }

  /** One field, key and value. */
  method AppendField(buf: MemoryBuffer, f: Field)
    modifies buf
    ensures buf.data == old(buf.data) + RenderField(f)
    decreases f, 2
  {
    hide Quoted, RenderValue;
    ghost var before := buf.data;
    AppendQuoted(buf, f.key);
    buf.Append([COLON]);
    AppendFieldValue(buf, f.value);
    Regroup(before, Quoted(f.key), [COLON], RenderValue(f.value));
  }

  lemma FieldsStep(fields: seq<Field>, i: nat)
    requires i < |fields|
    ensures (if i == 0 then RenderFields(fields[i..]) else RenderMore(fields[i..])) ==
            (if i == 0 then [] else [COMMA]) + RenderField(fields[i]) + RenderMore(fields[i + 1..])
  {
    hide RenderField;
    assert fields[i..][1..] == fields[i + 1..];
  }

  lemma FieldsNone(fields: seq<Field>)
    ensures RenderFields([]) == [] && RenderMore([]) == [] && fields[0..] == fields && fields[|fields|..] == []
  {
  }

  method AppendFieldValue(buf: MemoryBuffer, value: Value)
    modifies buf
    ensures buf.data == old(buf.data) + RenderValue(value)
    decreases value, 1
  {
    hide Quoted, RenderFields, Signed, Decimal, FloatText, Literal;
    match value {
      case Text(s) =>
        AppendQuoted(buf, s);
      case Sub(fields) =>
        buf.Append([OPEN]);
        AppendFields(buf, fields);
        buf.Append([CLOSE]);
      case Int64(i) =>
        buf.Append(Signed(i));
      case UInt64(u) =>
        buf.Append(Decimal(u));
      case Float(d) =>
        buf.Append(FloatText(d));
      case Bool(b) =>
        buf.Append(Literal(b));
    }
  }

  // ---- The printer's output reads back --------------------------------------------------------------------

  /** The number a finite double's decimal denotes. */
  function Decimals(d: Double): Number
    requires d.Finite?
  {
    var digits := NumeralValue(Decimal(d.whole) + d.fraction);
    Number(if d.negative then -digits else digits,
           (if d.exponent.TimesTenTo? then d.exponent.e else 0) - |d.fraction|)
  }

  /** Every double in it is finite. */
  predicate AllFinite(v: Value) {
    match v
    case Float(d) => d.Finite?
    case Sub(fields) => FieldsFinite(fields)
    case _ => true
  }

  predicate FieldsFinite(fields: seq<Field>) {
    fields == [] || (AllFinite(fields[0].value) && FieldsFinite(fields[1..]))
  }

  /** The JSON value a logged value stands for, where its doubles are finite. */
  function Meaning(v: Value): Json {
    match v
    case Int64(i) => JNumber(Number(i, 0))
    case UInt64(u) => JNumber(Number(u, 0))
    case Float(d) => JNumber(if d.Finite? then Decimals(d) else Number(0, 0))
    case Bool(b) => JBool(b)
    case Text(s) => JString(s)
    case Sub(fields) => JObject(Members(fields))
  }

  function Members(fields: seq<Field>): (m: seq<Member>)
    ensures |m| == |fields|
  {
    if fields == [] then [] else [Member(fields[0].key, Meaning(fields[0].value))] + Members(fields[1..])
  }

  lemma {:induction false} ReadEscapedChar(c: byte, rest: seq<byte>)
    ensures ReadChars(Escape(c) + rest) ==
            var more := ReadChars(rest); if more.Malformed? then Malformed else Got([c] + more.value, more.rest)
  {
    var e := Escape(c);
    var s := e + rest;
    assert s[|e|..] == rest;
    if c == QUOTE || c == BACKSLASH || c < 0x20 {
      assert s[1..] == e[1..] + rest;
      EscapeRead(c, rest);
    } else {
      assert s[1..] == rest;
    }
  }

  lemma {:induction false} EscapeRead(c: byte, rest: seq<byte>)
    requires c == QUOTE || c == BACKSLASH || c < 0x20
    ensures Escape(c)[0] == BACKSLASH && ReadEscape(Escape(c)[1..] + rest) == Got(c, rest)
  {
    var s := Escape(c)[1..] + rest;
    assert s[|Escape(c)| - 1..] == rest;
    if |Escape(c)| == 6 {
      assert HexValue(HexDigit(c / 16)) == c / 16 && HexValue(HexDigit(c % 16)) == c % 16;
      assert HexValue('0' as int) == 0;
    }
  }

  lemma {:induction false} ReadEscaped(s: seq<byte>, rest: seq<byte>)
    ensures ReadChars(Escaped(s) + [QUOTE] + rest) == Got(s, rest)
  {
    hide Escape;
    if s == [] {
      assert ([QUOTE] + rest)[1..] == rest;
      assert Escaped(s) + [QUOTE] + rest == [QUOTE] + rest;
    } else {
      ReadEscaped(s[1..], rest);
      ReadEscapedChar(s[0], Escaped(s[1..]) + [QUOTE] + rest);
      assert Escaped(s) + [QUOTE] + rest == Escape(s[0]) + (Escaped(s[1..]) + [QUOTE] + rest);
      assert s == [s[0]] + s[1..];
    }
  }

  /** Length of the run of backslashes just before `i`. */
  function BackslashesBefore(s: seq<byte>, i: nat): (n: nat)
    requires i <= |s|
    ensures n <= i
  {
    if i == 0 || s[i - 1] != BACKSLASH then 0 else 1 + BackslashesBefore(s, i - 1)
  }

  lemma {:induction false} BackslashesJoin(a: seq<byte>, b: seq<byte>, i: nat)
    requires i <= |b|
    ensures BackslashesBefore(a + b, |a| + i) ==
            BackslashesBefore(b, i) + if BackslashesBefore(b, i) == i then BackslashesBefore(a, |a|) else 0
  {
    if i > 0 {
      assert (a + b)[|a| + i - 1] == b[i - 1];
      BackslashesJoin(a, b, i - 1);
    } else {
      BackslashesPrefix(a, b, |a|);
    }
  }

  lemma {:induction false} BackslashesPrefix(a: seq<byte>, b: seq<byte>, i: nat)
    requires i <= |a|
    ensures BackslashesBefore(a + b, i) == BackslashesBefore(a, i)
  {
    if i > 0 {
      assert (a + b)[i - 1] == a[i - 1];
      BackslashesPrefix(a, b, i - 1);
    }
  }

  /** Within one escape no control byte, a quote only after one backslash, and at its end none or two. */
  lemma EscapeIsClean(c: byte, i: nat)
    requires i < |Escape(c)|
    ensures var e := Escape(c);
            && e[i] >= 0x20 && (e[i] == QUOTE ==> BackslashesBefore(e, i) == 1)
            && BackslashesBefore(e, |e|) % 2 == 0
  {
    var e := Escape(c);
    assert BackslashesBefore(e, 0) == 0;
    assert BackslashesBefore(e, 1) == if e[0] == BACKSLASH then 1 else 0;
    assert |e| >= 2 ==> e[0] == BACKSLASH && (e[1] == BACKSLASH <==> c == BACKSLASH);
    assert |e| == 2 ==> BackslashesBefore(e, 2) == if c == BACKSLASH then 2 else 0;
  }

  lemma {:induction false} EscapedEndsEven(s: seq<byte>)
    ensures BackslashesBefore(Escaped(s), |Escaped(s)|) % 2 == 0
  {
    hide Escape, BackslashesBefore;
    if s == [] {
      assert BackslashesBefore(Escaped(s), 0) == 0;
    } else {
      var e, more := Escape(s[0]), Escaped(s[1..]);
      EscapeIsClean(s[0], 0);
      EscapedEndsEven(s[1..]);
      BackslashesJoin(e, more, |more|);
    }
  }

  /**
   * No control byte survives in a printed string, and every quote is escaped: an odd number of backslashes
   * precedes it.
   */
  lemma {:induction false} EscapedIsClean(s: seq<byte>, i: nat)
    requires i < |Escaped(s)|
    ensures Escaped(s)[i] >= 0x20
    ensures Escaped(s)[i] == QUOTE ==> BackslashesBefore(Escaped(s), i) % 2 == 1
  {
    hide Escape, BackslashesBefore;
    var e, more := Escape(s[0]), Escaped(s[1..]);
    if i < |e| {
      EscapeIsClean(s[0], i);
      BackslashesPrefix(e, more, i);
    } else {
      EscapeIsClean(s[0], 0);
      EscapedIsClean(s[1..], i - |e|);
      BackslashesJoin(e, more, i - |e|);
    }
  }

  /** Nothing that would carry a number on. */
  predicate EndsNumber(rest: seq<byte>) {
    rest == [] || !(IsNumeral(rest[0]) || rest[0] == POINT || rest[0] == 'e' as int || rest[0] == 'E' as int)
  }

  lemma {:induction false} DigitRunIs(d: seq<byte>, rest: seq<byte>)
    requires forall i | 0 <= i < |d| :: IsNumeral(d[i])
    requires rest == [] || !IsNumeral(rest[0])
    ensures DigitRun(d + rest) == |d| && (d + rest)[..|d|] == d && (d + rest)[|d|..] == rest
  {
    if d == [] {
      assert d + rest == rest;
    } else {
      assert (d + rest)[1..] == d[1..] + rest;
      DigitRunIs(d[1..], rest);
    }
  }

  lemma {:induction false} FractionReads(fraction: Digits, rest: seq<byte>)
    requires rest == [] || !(IsNumeral(rest[0]) || rest[0] == POINT)
    ensures var text := if fraction == [] then [] else [POINT] + fraction;
            var r := ReadFraction(text + rest);
            r.Got? && r.value == fraction && r.rest == rest
  {
    hide DigitRun;
    if fraction == [] {
      assert [] + rest == rest;
    } else {
      DigitRunIs(fraction, rest);
      assert ([POINT] + fraction + rest)[1..] == fraction + rest;
    }
  }

  lemma {:induction false} ExponentReads(x: Exponent, rest: seq<byte>)
    requires EndsNumber(rest)
    ensures ReadExponent(ExponentText(x) + rest) == Got(if x.TimesTenTo? then x.e else 0, rest)
  {
    hide DigitRun, ZeroFilled, NumeralValue;
    if x.NoExponent? {
      assert [] + rest == rest;
    } else {
      var n := if x.e < 0 then -x.e else x.e;
      ZeroFilledIsNumeral(n, 2);
      ZeroFilledValue(n, 2);
      DigitRunIs(ZeroFilled(n, 2), rest);
      assert (ExponentText(x) + rest)[2..] == ZeroFilled(n, 2) + rest;
    }
  }

  lemma ZeroFilledIsNumeral(n: nat, width: nat)
    ensures forall i | 0 <= i < |ZeroFilled(n, width)| :: IsNumeral(ZeroFilled(n, width)[i])
  {
    hide Decimal;
    DecimalIsNumeral(n);
  }

  lemma {:induction false} MagnitudeReads(whole: nat, fraction: Digits, exponent: Exponent, rest: seq<byte>)
    requires EndsNumber(rest)
    ensures ReadMagnitude(Magnitude(whole, fraction, exponent) + rest) ==
            Got(Number(NumeralValue(Decimal(whole) + fraction),
                       (if exponent.TimesTenTo? then exponent.e else 0) - |fraction|), rest)
    ensures IsNumeral((Magnitude(whole, fraction, exponent) + rest)[0])
  {
    hide Decimal, NumeralValue, ExponentText, DigitRun, ReadFraction, ReadExponent;
    var d, e := Decimal(whole), ExponentText(exponent) + rest;
    var f := if fraction == [] then [] else [POINT] + fraction;
    var after := f + e;
    DecimalIsNumeral(whole);
    ExponentStarts(exponent, rest);
    assert after == [] || !IsNumeral(after[0]);
    assert Magnitude(whole, fraction, exponent) + rest == d + after;
    DigitRunIs(d, after);
    FractionReads(fraction, e);
    ExponentReads(exponent, rest);
    assert (d + after)[0] == d[0];
  }

  lemma ExponentStarts(x: Exponent, rest: seq<byte>)
    requires EndsNumber(rest)
    ensures var e := ExponentText(x) + rest; e == [] || !(IsNumeral(e[0]) || e[0] == POINT)
  {
  }

  /** A finite double, with its sign. */
  lemma {:induction false} ReadFinite(d: Double, rest: seq<byte>)
    requires d.Finite? && EndsNumber(rest)
    ensures ReadJson(FloatText(d) + rest) == Got(JNumber(Decimals(d)), rest)
  {
    hide Decimal, NumeralValue, Magnitude, ReadMagnitude, ReadChars, ReadMembers;
    var m := Magnitude(d.whole, d.fraction, d.exponent);
    MagnitudeReads(d.whole, d.fraction, d.exponent, rest);
    if d.negative {
      assert FloatText(d) + rest == [MINUS] + (m + rest);
      assert ([MINUS] + (m + rest))[1..] == m + rest;
    } else {
      assert FloatText(d) + rest == m + rest;
    }
    NotLiteral(FloatText(d) + rest);
  }

  lemma {:induction false} ReadSigned(i: int, rest: seq<byte>)
    requires EndsNumber(rest)
    ensures ReadJson(Signed(i) + rest) == Got(JNumber(Number(i, 0)), rest)
  {
    hide Decimal, NumeralValue, ReadJson;
    var d := Finite(i < 0, if i < 0 then -i else i, [], NoExponent);
    ReadFinite(d, rest);
    ValueOfDecimal(d.whole);
    assert Decimal(d.whole) + [] == Decimal(d.whole);
    assert FloatText(d) == Signed(i);
  }

  lemma NotLiteral(s: seq<byte>)
    requires s != [] && (IsNumeral(s[0]) || s[0] == '-' as int)
    ensures |s| >= 4 ==> s[..4] != TRUE
    ensures |s| >= 5 ==> s[..5] != FALSE
  {
    assert |s| >= 4 ==> s[..4][0] == s[0];
    assert |s| >= 5 ==> s[..5][0] == s[0];
  }

  lemma {:induction false} ReadLiteral(b: bool, rest: seq<byte>)
    ensures ReadJson(Literal(b) + rest) == Got(JBool(b), rest)
  {
    hide ReadChars, ReadMembers, ReadNumber;
    var s := Literal(b) + rest;
    assert s[..|Literal(b)|] == Literal(b) && s[|Literal(b)|..] == rest;
    assert b || (|s| >= 4 ==> s[..4][0] == s[0]);
  }

  lemma {:induction false} ReadQuoted(s: seq<byte>, rest: seq<byte>)
    ensures ReadJson(Quoted(s) + rest) == Got(JString(s), rest)
  {
    hide ReadChars, ReadMembers, Escaped;
    var t := Quoted(s) + rest;
    assert t[0] == QUOTE && t[1..] == Escaped(s) + [QUOTE] + rest;
    ReadEscaped(s, rest);
  }

  /** Every printed value reads back as what it stands for. */
  lemma {:induction false} ValueReadsBack(v: Value, rest: seq<byte>)
    requires EndsNumber(rest) && AllFinite(v)
    ensures ReadJson(RenderValue(v) + rest) == Got(Meaning(v), rest)
    decreases v, 1
  {
    hide ReadMembers, ReadChars, Escaped, Decimal, Signed, FloatText, Decimals;
    match v
    case Int64(i) => ReadSigned(i, rest);
    case UInt64(u) =>
      ReadSigned(u, rest);
      assert Signed(u) == Decimal(u) by { SignedNatural(u); }
    case Float(d) => ReadFinite(d, rest);
    case Bool(b) => ReadLiteral(b, rest);
    case Text(s) => ReadQuoted(s, rest);
    case Sub(fields) =>
      if fields == [] {
        EmptyObject(rest);
      } else {
        FieldsReadBack(fields, rest);
        NonEmptyObject(fields, rest);
      }
  }

  lemma EmptyObject(rest: seq<byte>)
    ensures ReadJson(RenderValue(Sub([])) + rest) == Got(JObject([]), rest)
  {
    assert RenderFields([]) == [];
    var s := RenderValue(Sub([])) + rest;
    assert s == [OPEN, CLOSE] + rest;
    assert s[2..] == rest;
  }

  lemma {:induction false} NonEmptyObject(fields: seq<Field>, rest: seq<byte>)
    requires ReadMembers(RenderFields(fields) + [CLOSE] + rest) == Got(Members(fields), rest)
    requires (RenderFields(fields) + [CLOSE] + rest)[0] == QUOTE
    ensures ReadJson(RenderValue(Sub(fields)) + rest) == Got(JObject(Members(fields)), rest)
  {
    hide ReadMembers, ReadChars, RenderFields, Members, ReadNumber;
    var s := RenderValue(Sub(fields)) + rest;
    Regroup([OPEN], RenderFields(fields), [CLOSE], rest);
    var inner := RenderFields(fields) + [CLOSE] + rest;
    assert s == [OPEN] + inner;
    assert s[0] == OPEN && s[1..] == inner && s[1] == inner[0];
  }

  lemma SignedNatural(n: nat)
    ensures Signed(n) == Decimal(n)
  {
  }

  lemma {:induction false} FieldsReadBack(fields: seq<Field>, rest: seq<byte>)
    requires fields != [] && FieldsFinite(fields)
    ensures ReadMembers(RenderFields(fields) + [CLOSE] + rest) == Got(Members(fields), rest)
    ensures (RenderFields(fields) + [CLOSE] + rest)[0] == QUOTE
    decreases fields, 0
  {
    hide ReadChars, Escaped, ReadJson, RenderValue, RenderField, RenderFields, RenderMore;
    var f, more := fields[0], fields[1..];
    var after := RenderMore(more) + [CLOSE] + rest;
    var s := RenderFields(fields) + [CLOSE] + rest;
    FieldsSplit(fields, rest);
    var tail := [COLON] + RenderValue(f.value) + after;
    ReadEscaped(f.key, tail);
    assert [COLON] + (RenderValue(f.value) + after) == tail;
    assert ([COLON] + RenderValue(f.value) + after)[1..] == RenderValue(f.value) + after;
    MoreStarts(more, rest);
    ValueReadsBack(f.value, after);
    if more == [] {
      assert Members(fields) == [Member(f.key, Meaning(f.value))];
    } else {
      FieldsReadBack(more, rest);
    }
    assert s[0] == QUOTE && ReadChars(s[1..]) == Got(f.key, [COLON] + RenderValue(f.value) + after);
  }

  /** The text of a field list, taken apart where the reader takes it apart. */
  lemma {:induction false} FieldsSplit(fields: seq<Field>, rest: seq<byte>)
    requires fields != []
    ensures var f := fields[0];
            var after := RenderMore(fields[1..]) + [CLOSE] + rest;
            var s := RenderFields(fields) + [CLOSE] + rest;
            s != [] && s[0] == QUOTE && s[1..] == Escaped(f.key) + [QUOTE] + ([COLON] + RenderValue(f.value) + after)
  {
    hide Escaped, RenderValue, RenderMore;
    var f, m := fields[0], RenderMore(fields[1..]);
    var after := m + [CLOSE] + rest;
    var k := RenderField(f);
    Regroup(k, m, [CLOSE], rest);
    assert RenderFields(fields) + [CLOSE] + rest == k + after;
    Regroup(Quoted(f.key), [COLON], RenderValue(f.value), after);
    var tail := [COLON] + RenderValue(f.value) + after;
    assert k + after == Quoted(f.key) + tail;
    Regroup([QUOTE], Escaped(f.key), [QUOTE], tail);
    assert Quoted(f.key) + tail == [QUOTE] + (Escaped(f.key) + [QUOTE] + tail);
  }

  lemma {:induction false} MoreStarts(more: seq<Field>, rest: seq<byte>)
    ensures var after := RenderMore(more) + [CLOSE] + rest;
            && after != [] && EndsNumber(after)
            && (more == [] ==> after[0] == CLOSE && after[1..] == rest)
            && (more != [] ==> after[0] == COMMA && after[1..] == RenderFields(more) + [CLOSE] + rest)
  {
    hide RenderField;
  }

  // ---- What does not read back ----------------------------------------------------------------------------

  /** The text of an infinity or of no number is not JSON, and neither is anything printed around it. */
  lemma {:induction false} ValueFails(v: Value, rest: seq<byte>)
    requires !AllFinite(v)
    ensures ReadJson(RenderValue(v) + rest).Malformed?
    decreases v, 1
  {
    hide ReadMembers, ReadChars, RenderFields;
    match v
    case Float(d) =>
      NotFiniteFails(d, rest);
    case Sub(fields) =>
      FieldsFail(fields, rest);
      Regroup([OPEN], RenderFields(fields), [CLOSE], rest);
      var inner := RenderFields(fields) + [CLOSE] + rest;
      assert RenderValue(v) + rest == [OPEN] + inner;
      assert ([OPEN] + inner)[1..] == inner && ([OPEN] + inner)[1] == inner[0];
  }

  /** An exponent's text: e, its sign, and at least two digits. */
  lemma ExponentTexts(e: int)
    ensures ExponentText(NoExponent) == []
    ensures e >= 0 ==> ExponentText(TimesTenTo(e)) == [0x65, 0x2B] + ZeroFilled(e, 2)
    ensures e < 0 ==> ExponentText(TimesTenTo(e)) == [0x65, 0x2D] + ZeroFilled(-e, 2)
  {
  }

  /** What stands for a double that is no number, in ASCII: inf, -inf, nan, -nan. */
  lemma NotFiniteTexts()
    ensures FloatText(Infinite(false)) == [0x69, 0x6E, 0x66] && FloatText(NotANumber(false)) == [0x6E, 0x61, 0x6E]
    ensures FloatText(Infinite(true)) == [0x2D, 0x69, 0x6E, 0x66]
    ensures FloatText(NotANumber(true)) == [0x2D, 0x6E, 0x61, 0x6E]
  {
  }

  lemma NotFiniteFails(d: Double, rest: seq<byte>)
    requires !d.Finite?
    ensures ReadJson(FloatText(d) + rest).Malformed?
  {
    hide ReadMembers, ReadChars;
    var s := FloatText(d) + rest;
    if d.negative {
      assert s[0] == MINUS;
      assert !IsNumeral(s[1..][0]);
      NotLiteral(s);
    } else {
      assert !IsNumeral(s[0]) && s[0] != 't' as int && s[0] != 'f' as int;
      assert |s| >= 4 ==> s[..4][0] == s[0];
      assert |s| >= 5 ==> s[..5][0] == s[0];
    }
  }

  lemma {:induction false} FieldsFail(fields: seq<Field>, rest: seq<byte>)
    requires !FieldsFinite(fields)
    ensures ReadMembers(RenderFields(fields) + [CLOSE] + rest).Malformed?
    ensures (RenderFields(fields) + [CLOSE] + rest)[0] == QUOTE
    decreases fields, 0
  {
    hide ReadChars, Escaped, ReadJson, RenderValue, RenderField, RenderFields, RenderMore;
    var f, more := fields[0], fields[1..];
    var after := RenderMore(more) + [CLOSE] + rest;
    var s := RenderFields(fields) + [CLOSE] + rest;
    FieldsSplit(fields, rest);
    var tail := [COLON] + RenderValue(f.value) + after;
    ReadEscaped(f.key, tail);
    assert tail[1..] == RenderValue(f.value) + after;
    MoreStarts(more, rest);
    if AllFinite(f.value) {
      ValueReadsBack(f.value, after);
      FieldsFail(more, rest);
    } else {
      ValueFails(f.value, after);
    }
    assert s[0] == QUOTE && ReadChars(s[1..]) == Got(f.key, tail);
  }

  /**
   * A field list printed between braces is JSON exactly when its doubles are finite, and then reads back as that
   * list.
   */
  lemma {:induction false} FieldListReadsBack(fields: seq<Field>)
    ensures ReadJson([OPEN] + RenderFields(fields) + [CLOSE]) ==
            if FieldsFinite(fields) then Got(JObject(Members(fields)), []) else Malformed
  {
    hide RenderFields, AllFinite, FieldsFinite, ReadJson;
    assert RenderValue(Sub(fields)) + [] == [OPEN] + RenderFields(fields) + [CLOSE];
    assert AllFinite(Sub(fields)) == FieldsFinite(fields) by { SubFinite(fields); }
    if FieldsFinite(fields) {
      ValueReadsBack(Sub(fields), []);
    } else {
      ValueFails(Sub(fields), []);
    }
  }

  lemma SubFinite(fields: seq<Field>)
    ensures AllFinite(Sub(fields)) == FieldsFinite(fields)
  {
  }
}
