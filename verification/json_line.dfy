/** A whole log line: the fixed part with time, level, source and message, and the logging context. */
module JsonLine {
  import opened Words
  import opened Numerals
  import opened JsonLog
  import opened JsonReader

  datatype LogRecord = LogRecord(levelName: seq<byte>, file: seq<byte>, line: int, function': seq<byte>, msg: seq<byte>)

  /** The ASCII codes of a literal. */
  function Ascii(text: string): (r: seq<byte>)
    ensures |r| == |text|
  {
    seq(|text|, i requires 0 <= i < |text| => text[i] as int % 128)
  }

  /** The fixed keys, in ASCII: ts, lvl, source, file, line, function, msg. */
  lemma FixedKeys()
    ensures Ascii("ts") == [0x74, 0x73] && Ascii("lvl") == [0x6C, 0x76, 0x6C] && Ascii("msg") == [0x6D, 0x73, 0x67]
    ensures Ascii("source") == [0x73, 0x6F, 0x75, 0x72, 0x63, 0x65]
    ensures Ascii("file") == [0x66, 0x69, 0x6C, 0x65] && Ascii("line") == [0x6C, 0x69, 0x6E, 0x65]
    ensures Ascii("function") == [0x66, 0x75, 0x6E, 0x63, 0x74, 0x69, 0x6F, 0x6E]
  {
    assert forall i | 0 <= i < 8 :: Ascii("function")[i] == "function"[i] as int;
  }

  predicate IsSlash(c: byte) {
    c == 0x2F || c == 0x5C
  }

  /** The file name after its last slash or backslash. */
  function Basename(file: seq<byte>): (r: seq<byte>)
    ensures |r| <= |file|
    ensures forall i | 0 <= i < |r| :: r[i] != 0x2F && r[i] != 0x5C
    ensures r == file[|file| - |r|..]
    ensures |r| < |file| ==> file[|file| - |r| - 1] == 0x2F || file[|file| - |r| - 1] == 0x5C
  {
    if file == [] || IsSlash(file[|file| - 1]) then [] else Basename(file[..|file| - 1]) + [file[|file| - 1]]
  }

  /** A timestamp is printed as it is, so it must need no escapes. */
  predicate Plain(s: seq<byte>) {
    forall i | 0 <= i < |s| :: s[i] >= 0x20 && s[i] != QUOTE && s[i] != BACKSLASH
  }

  function Source(rec: LogRecord): Field {
    Field(Ascii("source"), Sub([Field(Ascii("file"), Text(Basename(rec.file))),
                                Field(Ascii("line"), Int64(rec.line)),
                                Field(Ascii("function"), Text(rec.function'))]))
  }

  /** The fields every line starts with. */
  function LineFields(ts: seq<byte>, rec: LogRecord): seq<Field> {
    [Field(Ascii("ts"), Text(ts)),
     Field(Ascii("lvl"), Text(rec.levelName)),
     Source(rec),
     Field(Ascii("msg"), Text(rec.msg))]
  }

  lemma {:induction false} PlainEscaped(s: seq<byte>)
    requires Plain(s)
    ensures Escaped(s) == s
  {
    if s != [] {
      PlainEscaped(s[1..]);
      assert s == [s[0]] + s[1..];
    }
  }

  /** Text between quotes that the format string prints without escapes. */
  method AppendPlain(buf: MemoryBuffer, s: seq<byte>)
    requires Plain(s)
    modifies buf
    ensures buf.data == old(buf.data) + Quoted(s)
  {
    PlainEscaped(s);
    hide Escaped, Plain;
    buf.Append([QUOTE]);
    buf.Append(s);
    buf.Append([QUOTE]);
  }

  /** The format string's own text before a value. */
  method AppendKey(buf: MemoryBuffer, key: string)
    requires Plain(Ascii(key))
    modifies buf
    ensures buf.data == old(buf.data) + Quoted(Ascii(key)) + [COLON]
  {
    hide *;
    AppendPlain(buf, Ascii(key));
    buf.Append([COLON]);
  }

  /** A value after its key: escaped text, text printed as it is, or a number. */
  method AppendValue(buf: MemoryBuffer, key: string, value: Value)
    requires Plain(Ascii(key)) && (value.Text? || value.Int64?)
    modifies buf
    ensures buf.data == old(buf.data) + RenderField(Field(Ascii(key), value))
  {
    hide Ascii, Quoted, Plain, Signed;
    AppendKey(buf, key);
    match value {
      case Text(s) => AppendQuoted(buf, s);
      case Int64(n) => buf.Append(Signed(n));
    }
    Regroup(old(buf.data), Quoted(Ascii(key)), [COLON], RenderValue(value));
  }

  /** A further value, after a comma. */
  method AppendNext(buf: MemoryBuffer, ghost p: seq<byte>, ghost done: seq<Field>, key: string, value: Value)
    requires Plain(Ascii(key)) && (value.Text? || value.Int64?)
    requires done != [] && buf.data == p + RenderFields(done)
    modifies buf
    ensures buf.data == p + RenderFields(done + [Field(Ascii(key), value)])
  {
    hide *;
    buf.Append([COMMA]);
    AppendValue(buf, key, value);
    FieldAdded(p, done, Field(Ascii(key), value));
  }

  lemma MoreStep(fields: seq<Field>)
    ensures RenderMore([]) == []
    ensures fields != [] ==> RenderMore(fields) == [COMMA] + RenderField(fields[0]) + RenderMore(fields[1..])
  {
  }

  lemma {:induction false} MoreJoin(a: seq<Field>, b: seq<Field>)
    ensures RenderMore(a + b) == RenderMore(a) + RenderMore(b)
  {
    hide RenderField, RenderMore;
    if a == [] {
      assert a + b == b;
      MoreStep([]);
    } else {
      MoreJoin(a[1..], b);
      assert (a + b)[1..] == a[1..] + b;
      MoreStep(a);
      MoreStep(a + b);
    }
  }

  lemma {:induction false} FieldsJoin(a: seq<Field>, b: seq<Field>)
    requires a != []
    ensures RenderFields(a + b) == RenderFields(a) + RenderMore(b)
  {
    hide RenderField, RenderMore;
    MoreJoin(a[1..], b);
    assert (a + b)[1..] == a[1..] + b;
  }

  lemma FirstField(p: seq<byte>, f: Field)
    ensures p + RenderFields([f]) == p + RenderField(f)
  {
    MoreStep([]);
    hide RenderField, RenderMore;
    assert [f][1..] == [];
  }

  lemma {:induction false} FieldAdded(p: seq<byte>, done: seq<Field>, f: Field)
    requires done != []
    ensures p + RenderFields(done) + [COMMA] + RenderField(f) == p + RenderFields(done + [f])
  {
    FieldsJoin(done, [f]);
    MoreStep([]);
    MoreStep([f]);
    hide RenderField, RenderMore, RenderFields;
    assert [f][1..] == [];
    Regroup(p, RenderFields(done), [COMMA], RenderField(f));
  }

  lemma KeysArePlain()
    ensures Plain(Ascii("ts")) && Plain(Ascii("lvl")) && Plain(Ascii("source")) && Plain(Ascii("msg"))
    ensures Plain(Ascii("file")) && Plain(Ascii("line")) && Plain(Ascii("function"))
  {
    LowercaseIsPlain("ts");
    LowercaseIsPlain("lvl");
    LowercaseIsPlain("source");
    LowercaseIsPlain("msg");
    LowercaseIsPlain("file");
    LowercaseIsPlain("line");
    LowercaseIsPlain("function");
  }

  lemma LowercaseIsPlain(key: string)
    requires forall i | 0 <= i < |key| :: 'a' <= key[i] <= 'z'
    ensures Plain(Ascii(key))
  {
  }

  lemma SourceText(p: seq<byte>, rec: LogRecord)
    ensures var fields := [Field(Ascii("file"), Text(Basename(rec.file)))] + [Field(Ascii("line"), Int64(rec.line))] +
                          [Field(Ascii("function"), Text(rec.function'))];
            p + Quoted(Ascii("source")) + [COLON] + [OPEN] + RenderFields(fields) + [CLOSE] ==
            p + RenderField(Source(rec))
  {
    hide Quoted, Ascii, RenderFields, Basename;
    var key, fields := Quoted(Ascii("source")), Source(rec).value.fields;
    assert fields == [Field(Ascii("file"), Text(Basename(rec.file)))] + [Field(Ascii("line"), Int64(rec.line))] +
                     [Field(Ascii("function"), Text(rec.function'))];
    var inner := RenderFields(fields);
    assert RenderField(Source(rec)) == key + [COLON] + ([OPEN] + inner + [CLOSE]);
    hide RenderField;
    Regroup(p + key + [COLON], [OPEN], inner, [CLOSE]);
    Regroup(p, key, [COLON], [OPEN] + inner + [CLOSE]);
  }

  /** The source, an object of its own. */
  method AppendSource(buf: MemoryBuffer, rec: LogRecord)
    modifies buf
    ensures buf.data == old(buf.data) + RenderField(Source(rec))
  {
    hide *;
    KeysArePlain();
    SourceText(buf.data, rec);
    var file, line, function' := Text(Basename(rec.file)), Int64(rec.line), Text(rec.function');
    ghost var fields := [Field(Ascii("file"), file)];
    AppendKey(buf, "source");
    buf.Append([OPEN]);
    ghost var p := buf.data;
    AppendValue(buf, "file", file);
    FirstField(p, fields[0]);
    AppendNext(buf, p, fields, "line", line);
    AppendNext(buf, p, fields + [Field(Ascii("line"), line)], "function", function');
    buf.Append([CLOSE]);
  }

  /** The fixed part, printed by one format string. */
  method AppendFixedPart(buf: MemoryBuffer, ts: seq<byte>, rec: LogRecord)
    requires Plain(ts)
    modifies buf
    ensures buf.data == old(buf.data) + [OPEN] + RenderFields(LineFields(ts, rec))
  {
    hide *;
    KeysArePlain();
    LineFieldsAre(ts, rec);
    var lvl, msg := Text(rec.levelName), Text(rec.msg);
    ghost var first := [Field(Ascii("ts"), Text(ts))];
    ghost var two := first + [Field(Ascii("lvl"), lvl)];
    buf.Append([OPEN]);
    ghost var p := buf.data;
    AppendTime(buf, ts);
    FirstField(p, first[0]);
    AppendNext(buf, p, first, "lvl", lvl);
    AppendNextSource(buf, p, two, rec);
    AppendNext(buf, p, two + [Source(rec)], "msg", msg);
  }

  lemma LineFieldsAre(ts: seq<byte>, rec: LogRecord)
    ensures LineFields(ts, rec) ==
            [Field(Ascii("ts"), Text(ts))] + [Field(Ascii("lvl"), Text(rec.levelName))] + [Source(rec)] +
            [Field(Ascii("msg"), Text(rec.msg))]
  {
    hide Ascii, Source;
  }

  /** The time, printed without escapes. */
  method AppendTime(buf: MemoryBuffer, ts: seq<byte>)
    requires Plain(ts)
    modifies buf
    ensures buf.data == old(buf.data) + RenderField(Field(Ascii("ts"), Text(ts)))
  {
    KeysArePlain();
    hide Ascii, Quoted, Plain;
    AppendKey(buf, "ts");
    AppendPlain(buf, ts);
    Regroup(old(buf.data), Quoted(Ascii("ts")), [COLON], Quoted(ts));
  }

  method AppendNextSource(buf: MemoryBuffer, ghost p: seq<byte>, ghost done: seq<Field>, rec: LogRecord)
    requires done != [] && buf.data == p + RenderFields(done)
    modifies buf
    ensures buf.data == p + RenderFields(done + [Source(rec)])
  {
    hide *;
    buf.Append([COMMA]);
    AppendSource(buf, rec);
    FieldAdded(p, done, Source(rec));
  }

  /** renderJsonLine: the fixed part, then the context after a comma if there is any. */
  method RenderJsonLine(buf: MemoryBuffer, ts: seq<byte>, rec: LogRecord, context: seq<Field>)
    requires Plain(ts)
    modifies buf
    ensures buf.data == old(buf.data) + [OPEN] + RenderFields(LineFields(ts, rec) + context) + [CLOSE]
  {
    hide RenderField, LineFields;
    ghost var p := old(buf.data) + [OPEN];
    ghost var fields := LineFields(ts, rec);
    LineFieldsSome(ts, rec);
    FieldsJoin(fields, context);
    AppendFixedPart(buf, ts, rec);
    if context != [] {
      buf.Append([COMMA]);
      AppendFields(buf, context);
      assert RenderMore(context) == [COMMA] + RenderFields(context);
    }
    hide RenderFields, RenderMore;
    buf.Append([CLOSE]);
    Regroup(p, RenderFields(fields), RenderMore(context), [CLOSE]);
  }

  lemma LineFieldsSome(ts: seq<byte>, rec: LogRecord)
    ensures LineFields(ts, rec) != []
  {
  }

  /**
   * A log line is one JSON object exactly when the doubles in its context are finite: then it reads back as the four
   * fixed members and the context's, in order and unchanged.
   */
  lemma {:induction false} LineReadsBack(ts: seq<byte>, rec: LogRecord, context: seq<Field>)
    ensures var fields := LineFields(ts, rec);
            ReadJson([OPEN] + RenderFields(fields + context) + [CLOSE]) ==
            if FieldsFinite(context) then Got(JObject(Members(fields) + Members(context)), []) else Malformed
  {
    hide *;
    FieldListReadsBack(LineFields(ts, rec) + context);
    MembersJoin(LineFields(ts, rec), context);
    FixedPartFinite(ts, rec);
    FiniteJoin(LineFields(ts, rec), context);
  }

  lemma FixedPartFinite(ts: seq<byte>, rec: LogRecord)
    ensures FieldsFinite(LineFields(ts, rec))
  {
    LineFieldsAre(ts, rec);
    SourceFinite(rec);
    hide LineFields, Source, Ascii, FieldsFinite;
    var ts', lvl := Field(Ascii("ts"), Text(ts)), Field(Ascii("lvl"), Text(rec.levelName));
    var msg := Field(Ascii("msg"), Text(rec.msg));
    OneFinite(ts');
    OneFinite(lvl);
    OneFinite(Source(rec));
    OneFinite(msg);
    assert AllFinite(ts'.value) && AllFinite(lvl.value) && AllFinite(msg.value);
    hide AllFinite;
    FiniteJoin([ts'], [lvl]);
    FiniteJoin([ts'] + [lvl], [Source(rec)]);
    FiniteJoin([ts'] + [lvl] + [Source(rec)], [msg]);
  }

  lemma SourceFinite(rec: LogRecord)
    ensures AllFinite(Source(rec).value)
  {
    hide Ascii, Basename, FieldsFinite;
    var s := Source(rec).value.fields;
    OneFinite(s[0]);
    OneFinite(s[1]);
    OneFinite(s[2]);
    FiniteJoin([s[0]], [s[1]]);
    FiniteJoin([s[0]] + [s[1]], [s[2]]);
    assert s == [s[0]] + [s[1]] + [s[2]];
  }

  lemma OneFinite(f: Field)
    ensures FieldsFinite([f]) == AllFinite(f.value)
  {
    hide AllFinite;
    assert [f][1..] == [];
  }

  lemma {:induction false} FiniteJoin(a: seq<Field>, b: seq<Field>)
    ensures FieldsFinite(a + b) <==> FieldsFinite(a) && FieldsFinite(b)
  {
    hide AllFinite;
    if a == [] {
      assert a + b == b;
    } else {
      FiniteJoin(a[1..], b);
      assert (a + b)[1..] == a[1..] + b;
    }
  }

  lemma MembersStep(fields: seq<Field>)
    ensures Members(fields) ==
            if fields == [] then [] else [Member(fields[0].key, Meaning(fields[0].value))] + Members(fields[1..])
  {
  }

  lemma {:induction false} MembersJoin(a: seq<Field>, b: seq<Field>)
    ensures Members(a + b) == Members(a) + Members(b)
  {
    hide Members;
    MembersStep(a);
    if a == [] {
      assert a + b == b;
    } else {
      MembersJoin(a[1..], b);
      assert (a + b)[1..] == a[1..] + b;
      MembersStep(a + b);
    }
  }
}
