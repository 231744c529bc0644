/** What .reg files written by hand mean (decodeRegFile, vfs/registry_reg_import.go), said of their text and bytes:
    values of the plain forms, removed values and removed keys, in any mix with values as the exporter writes them. */
module RegText {
  import opened Base
  import opened RegFormat
  import Utf16
  import Utf8
  import X = RegExport
  import I = RegImport
  import R = RegRoundTrip

  datatype Entry =
    | Written(v: X.ExportValue)
    | Text(name: string, text: string)
    | Number(name: string, n: UInt32)
    | Raw(name: string, kind: UInt32, data: Bytes)
    | Removal(name: string)

  datatype Section = Section(path: string, entries: seq<Entry>) | RemovedKey(path: string)

  // ----- the text

  /** Quotes and backslashes with a backslash before them. */
  function Escaped(s: string): string {
    if s == "" then "" else (if s[0] == '"' || s[0] == '\\' then "\\" + [s[0]] else [s[0]]) + Escaped(s[1..])
  }

  /** A name in quotes; the default value is an at sign. */
  function NamePart(name: string): string {
    if name == "" then "@" else "\"" + Escaped(name) + "\""
  }

  function TwoDigits(data: Bytes): seq<string> {
    seq(|data|, i requires 0 <= i < |data| => HexPadded(data[i], 2))
  }

  function DataPart(e: Entry): string
    requires !e.Written?
  {
    match e
    case Text(_, text) => "\"" + Escaped(text) + "\""
    case Number(_, n) => "dword:" + HexPadded(n, 8)
    case Raw(_, kind, data) =>
      (if kind == 3 then "hex" else "hex(" + HexNumber(kind) + ")") + (":" + Join(TwoDigits(data), ','))
    case Removal(_) => "-"
  }

  function EntryText(e: Entry): string {
    if e.Written? then X.ValueText(e.v) else NamePart(e.name) + ("=" + DataPart(e)) + "\r\n"
  }

  function EntriesText(es: seq<Entry>): string {
    if es == [] then "" else EntryText(es[0]) + EntriesText(es[1..])
  }

  function SectionText(s: Section): string {
    match s
    case Section(path, entries) => "[" + path + "]" + "\r\n" + EntriesText(entries) + "\r\n"
    case RemovedKey(path) => "[-" + path + "]" + "\r\n" + "\r\n"
  }

  function SectionsText(ss: seq<Section>): string {
    if ss == [] then "" else SectionText(ss[0]) + SectionsText(ss[1..])
  }

  /** UTF-16LE: two bytes for a character below U+10000, the low one first, and four for the others. */
  function Utf16Bytes(s: string): Bytes {
    if s == "" then []
    else
      var c := s[0] as int;
      (if c < 0x1_0000 then [c % 0x100, c / 0x100]
       else
         var high, low := 0xD800 + (c - 0x1_0000) / 0x400, 0xDC00 + (c - 0x1_0000) % 0x400;
         [high % 0x100, high / 0x100, low % 0x100, low / 0x100])
      + Utf16Bytes(s[1..])
  }

  function FileBytes(ss: seq<Section>): Bytes {
    [0xFF, 0xFE] + Utf16Bytes("Windows Registry Editor Version 5.00" + "\r\n" + "\r\n" + SectionsText(ss))
  }

  // ----- what it means

  function Value(e: Entry): I.ImportValue {
    match e
    case Written(v) => R.ReadValue(v)
    case Text(name, text) => I.SetValue(name, 1, Utf16Bytes(text) + [0, 0])
    case Number(name, n) => I.SetValue(name, 4, [n % 0x100, n / 0x100 % 0x100, n / 0x1_0000 % 0x100, n / 0x100_0000])
    case Raw(name, kind, data) => I.SetValue(name, kind, data)
    case Removal(name) => I.DeleteValue(name)
  }

  function Values(es: seq<Entry>): seq<I.ImportValue> {
    if es == [] then [] else [Value(es[0])] + Values(es[1..])
  }

  function Key(s: Section): I.ImportKey {
    match s
    case Section(path, entries) => I.ImportKey(path, false, Values(entries))
    case RemovedKey(path) => I.ImportKey(path, true, [])
  }

  function Keys(ss: seq<Section>): seq<I.ImportKey> {
    if ss == [] then [] else [Key(ss[0])] + Keys(ss[1..])
  }

  /** On one line. */
  predicate IsUsable(e: Entry) {
    (if e.Written? then '\n' !in e.v.name else '\n' !in e.name) && (e.Text? ==> '\n' !in e.text)
  }

  predicate IsWritable(s: Section) {
    && s.path != "" && '\n' !in s.path
    && (s.Section? ==> s.path[0] != '-' && forall i :: 0 <= i < |s.entries| ==> IsUsable(s.entries[i]))
  }

  // ----- the text is what the reader takes

  lemma {:induction false} EscapedIsQuote(s: string)
    ensures Escaped(s) == X.Quote(s)
  {
    if s != "" {
      EscapedIsQuote(s[1..]);
    }
  }

  lemma NamePartIsText(name: string)
    ensures NamePart(name) == X.NameText(name)
  {
    EscapedIsQuote(name);
  }

  lemma {:induction false} BytesAre(s: string)
    ensures Utf16Bytes(s) == Utf16.ToBytes(Utf16.Encode(s))
  {
    if s != "" {
      BytesAre(s[1..]);
      Utf16.ToBytesAppend(Utf16.EncodeChar(s[0]), Utf16.Encode(s[1..]));
      CharBytes(s[0]);
    }
  }

  lemma CharBytes(c: char)
    ensures var v := c as int;
            Utf16.ToBytes(Utf16.EncodeChar(c))
            == if v < 0x1_0000 then [v % 0x100, v / 0x100]
               else
                 var high, low := 0xD800 + (v - 0x1_0000) / 0x400, 0xDC00 + (v - 0x1_0000) % 0x400;
                 [high % 0x100, high / 0x100, low % 0x100, low / 0x100]
  {
    var w := Utf16.EncodeChar(c);
    if c as int < 0x1_0000 {
      assert w[1..] == [];
    } else {
      assert w[1..] == [w[1]] && w[1..][1..] == [];
    }
  }

  lemma PairsAreTwoDigits(data: Bytes)
    ensures TwoDigits(data) == R.Pairs(data, 0)
  {
    forall i | 0 <= i < |data|
      ensures R.Pairs(data, 0)[i] == HexPadded(data[i], 2)
    {
      PairAt(data, 0, i);
    }
  }

  lemma {:induction false} PairAt(data: Bytes, i: nat, k: nat)
    requires i <= |data| && k < |data| - i
    ensures R.Pairs(data, i)[k] == HexPadded(data[i + k], 2)
    decreases k
  {
    if k > 0 {
      PairAt(data, i + 1, k - 1);
    }
  }

  lemma FlatIsJoin(data: Bytes)
    ensures R.Flat(data, 0) == Join(TwoDigits(data), ',')
  {
    PairsAreTwoDigits(data);
    if data == [] {
      assert Join<char>([], ',') == [];
    } else {
      R.FlatPairs(data, 0);
      JoinSplit(R.Flat(data, 0), ',');
    }
  }

  /** The data of an entry is parsed as its value. */
  lemma DataRead(e: Entry)
    requires !e.Written? && IsUsable(e)
    ensures var data := DataPart(e);
            && R.TrimmedText(data) && I.ValueData(e.name, data) == Ok(Value(e))
            && '\n' !in data && data[|data| - 1] != '\\'
  {
    match e
    case Text(name, text) =>
      EscapedIsQuote(text);
      BytesAre(text);
      R.ReadString(name, text);
      R.QuoteMember(text);
    case Number(name, n) =>
      NumberRead(name, n);
    case Raw(name, kind, data) =>
      FlatIsJoin(data);
      R.ReadHex(name, kind, data);
      RawLine(kind, data);
    case Removal(name) =>
  }

  lemma NumberRead(name: string, n: UInt32)
    ensures var data := "dword:" + HexPadded(n, 8);
            && R.TrimmedText(data) && '\n' !in data && data[|data| - 1] != '\\'
            && I.ValueData(name, data)
               == Ok(I.SetValue(name, 4, [n % 0x100, n / 0x100 % 0x100, n / 0x1_0000 % 0x100, n / 0x100_0000]))
  {
    var bytes := I.DwordBytes(n);
    DwordBack(n);
    R.ReadDword(name, bytes);
    R.HexPaddedDigits(n, 8);
    var digits := HexPadded(n, 8);
    var data := "dword:" + digits;
    assert data[|data| - 1] == digits[7];
    forall i | 0 <= i < |data|
      ensures data[i] != '\n'
    {
      assert i >= 6 ==> data[i] == digits[i - 6];
    }
  }

  lemma DwordBack(n: UInt32)
    ensures X.DwordValue(I.DwordBytes(n)) == n
  {
    var a := n / 0x100;
    var b := a / 0x100;
    assert n / 0x1_0000 == b && n / 0x100_0000 == b / 0x100;
  }

  lemma {:induction false} FlatPlain(data: Bytes, i: nat)
    ensures '\n' !in R.Flat(data, i)
    ensures R.Flat(data, i) != "" ==> R.Flat(data, i)[|R.Flat(data, i)| - 1] != '\\'
    decreases |data| - i
  {
    if i < |data| {
      R.HexPairText(data, i);
      FlatPlain(data, i + 1);
    }
  }

  lemma RawLine(kind: UInt32, data: Bytes)
    ensures var text := X.KindText(kind) + (":" + R.Flat(data, 0));
            '\n' !in text && text[|text| - 1] != '\\'
  {
    HexNumberValue(kind);
    FlatPlain(data, 0);
    var k, flat := X.KindText(kind), R.Flat(data, 0);
    var text := k + (":" + flat);
    assert data != [] ==> text[|text| - 1] == flat[|flat| - 1];
  }

  // ----- reading it

  /** A line of its own whose data is read as a value. */
  lemma PlainLineRead(keys: seq<I.ImportKey>, last: I.ImportKey, name: string, data: string, value: I.ImportValue,
                      rest: string, number: nat)
    requires !last.delete && '\n' !in name && '\n' !in data
    requires R.TrimmedText(data) && data[|data| - 1] != '\\' && I.ValueData(name, data) == Ok(value)
    ensures var line := X.NameText(name) + ("=" + data);
            R.ReadFrom(keys + [last], line + (X.CRLF + rest), number)
            == R.ReadFrom(keys + [last.(values := last.values + [value])], rest, number + 1)
  {
    hide R.ReadFrom, I.ValueData, X.NameText, R.FirstLogical, I.PhysicalLines, I.AddLine;
    var line := X.NameText(name) + ("=" + data);
    R.ReadName(name, data);
    R.NameMember(name);
    NameStarts(name);
    assert line[|line| - 1] == data[|data| - 1];
    assert line[0] == X.NameText(name)[0];
    BlankIsSpace(data[|data| - 1]);
    R.SimpleFirst(line, rest);
    R.ReadFirst(keys + [last], line + (X.CRLF + rest), number, line, 0, rest);
    R.AddValueLine(keys, last, line, value, number);
  }

  lemma NameStarts(name: string)
    ensures var s := X.NameText(name); s != "" && (s[0] == '@' || s[0] == '"') && !IsSpace(s[0])
  {
  }

  lemma BlankIsSpace(c: char)
    ensures IsBlank(c) ==> IsSpace(c)
  {
  }

  lemma LineRead(keys: seq<I.ImportKey>, last: I.ImportKey, e: Entry, rest: string, number: nat) returns (next: nat)
    requires !last.delete && IsUsable(e)
    ensures R.ReadFrom(keys + [last], EntryText(e) + rest, number)
         == R.ReadFrom(keys + [last.(values := last.values + [Value(e)])], rest, next)
  {
    hide R.ReadFrom, X.NameText, NamePart, DataPart, R.FirstLogical, I.PhysicalLines, I.AddLine, I.ValueData,
      X.ValueLine;
    if e.Written? {
      var taken := R.ValueFirst(e.v, rest);
      R.AddValue(keys, last, e.v, number);
      R.ReadFirst(keys + [last], EntryText(e) + rest, number, R.FlatLine(e.v), taken, rest);
      next := number + 1 + taken;
    } else {
      var line := X.NameText(e.name) + ("=" + DataPart(e));
      DataRead(e);
      NamePartIsText(e.name);
      Assoc(line, "\r\n", rest);
      PlainLineRead(keys, last, e.name, DataPart(e), Value(e), rest, number);
      next := number + 1;
    }
  }

  lemma {:induction false} LinesRead(keys: seq<I.ImportKey>, last: I.ImportKey, es: seq<Entry>, rest: string,
                                     number: nat)
    returns (next: nat)
    requires !last.delete && forall i :: 0 <= i < |es| ==> IsUsable(es[i])
    ensures R.ReadFrom(keys + [last], EntriesText(es) + rest, number)
         == R.ReadFrom(keys + [last.(values := last.values + Values(es))], rest, next)
    decreases |es|
  {
    hide R.ReadFrom, EntryText, Value, IsUsable;
    if es == [] {
      next := number;
      assert EntriesText(es) + rest == rest && last.values + [] == last.values;
    } else {
      var more := EntriesText(es[1..]) + rest;
      Assoc(EntryText(es[0]), EntriesText(es[1..]), rest);
      var at := LineRead(keys, last, es[0], more, number);
      var read := last.(values := last.values + [Value(es[0])]);
      next := LinesRead(keys, read, es[1..], rest, at);
      Assoc(last.values, [Value(es[0])], Values(es[1..]));
    }
  }

  lemma RemovedKeyRead(keys: seq<I.ImportKey>, path: string, rest: string, number: nat)
    requires path != "" && '\n' !in path
    ensures R.ReadFrom(keys, "[-" + path + "]" + (X.CRLF + rest), number)
         == R.ReadFrom(keys + [I.ImportKey(path, true, [])], rest, number + 1)
  {
    var line := "[-" + path + "]";
    assert line[|line| - 1] == ']';
    R.SimpleFirst(line, rest);
    R.ReadFirst(keys, line + (X.CRLF + rest), number, line, 0, rest);
    AddRemovedKey(keys, path, number);
  }

  lemma AddRemovedKey(keys: seq<I.ImportKey>, path: string, number: nat)
    requires path != "" && '\n' !in path
    ensures I.AddLine(keys, I.Line(number, "[-" + path + "]")) == Ok(keys + [I.ImportKey(path, true, [])])
  {
    var s := "[-" + path + "]";
    TrimSpaceStop(s);
    assert s[|s| - 1..] == "]" && s[1..|s| - 1] == "-" + path && ("-" + path)[1..] == path;
    assert s[..1] == "[" && ("-" + path)[..1] == "-";
  }

  lemma SectionRead(keys: seq<I.ImportKey>, s: Section, rest: string, number: nat) returns (next: nat)
    requires IsWritable(s)
    ensures R.ReadFrom(keys, SectionText(s) + rest, number) == R.ReadFrom(keys + [Key(s)], rest, next)
  {
    hide R.ReadFrom, IsUsable;
    if s.Section? {
      var path, lines := X.PathLine(s.path), EntriesText(s.entries);
      assert X.CRLF == "\r\n";
      Assoc4(path + X.CRLF, lines, X.CRLF, rest);
      Assoc(path, X.CRLF, lines + (X.CRLF + rest));
      Assoc(path + X.CRLF + lines, X.CRLF, rest);
      Assoc(path + X.CRLF, lines, X.CRLF + rest);
      R.ReadPath(keys, s.path, lines + (X.CRLF + rest), number);
      var at := LinesRead(keys, I.ImportKey(s.path, false, []), s.entries, X.CRLF + rest, number + 1);
      assert [] + Values(s.entries) == Values(s.entries);
      R.ReadBlank(keys + [Key(s)], rest, at);
      next := at + 1;
    } else {
      var line := "[-" + s.path + "]";
      Assoc(line + X.CRLF, X.CRLF, rest);
      Assoc(line, X.CRLF, X.CRLF + rest);
      RemovedKeyRead(keys, s.path, X.CRLF + rest, number);
      R.ReadBlank(keys + [Key(s)], rest, number + 1);
      next := number + 2;
    }
  }

  lemma {:induction false} SectionsRead(keys: seq<I.ImportKey>, ss: seq<Section>, number: nat)
    requires forall i :: 0 <= i < |ss| ==> IsWritable(ss[i])
    ensures R.ReadFrom(keys, SectionsText(ss), number) == Ok(keys + Keys(ss))
    decreases |ss|
  {
    hide R.ReadFrom, SectionText, Key, IsWritable;
    if ss == [] {
      R.ReadKeysText(keys, [], number);
      assert X.KeysText([]) == "" && keys + [] == keys;
    } else {
      var next := SectionRead(keys, ss[0], SectionsText(ss[1..]), number);
      SectionsRead(keys + [Key(ss[0])], ss[1..], next);
      Assoc(keys, [Key(ss[0])], Keys(ss[1..]));
    }
  }

  /** The bytes of such a file are read as what it means: every section and every line, in their order. */
  lemma {:induction false} HandWritten(ss: seq<Section>)
    requires forall i :: 0 <= i < |ss| ==> IsWritable(ss[i])
    ensures I.Decode(FileBytes(ss)) == Ok(Keys(ss))
  {
    hide I.DecodeLines, I.LogicalLines, I.PhysicalLines, I.FileText, Keys, SectionsText, Utf16Bytes, FileBytes;
    var text := HEADER + X.CRLF + X.CRLF + SectionsText(ss);
    TextOfFile(ss, text);
    TextRead(ss, text);
  }

  lemma {:induction false} TextRead(ss: seq<Section>, text: string)
    requires forall i :: 0 <= i < |ss| ==> IsWritable(ss[i])
    requires text == HEADER + X.CRLF + X.CRLF + SectionsText(ss)
    ensures I.DecodeLines(I.LogicalLines(I.PhysicalLines(text), 1)) == Ok(Keys(ss))
  {
    hide I.DecodeLines, I.LogicalLines, I.PhysicalLines, R.ReadFrom, Keys, SectionsText, IsWritable;
    var body := SectionsText(ss);
    Assoc4(HEADER, X.CRLF, X.CRLF, body);
    R.HeaderRead(X.CRLF + body);
    R.ReadBlank([], body, 2);
    SectionsRead([], ss, 3);
    assert [] + Keys(ss) == Keys(ss);
  }

  lemma TextOfFile(ss: seq<Section>, text: string)
    requires text == HEADER + X.CRLF + X.CRLF + SectionsText(ss)
    ensures I.FileText(FileBytes(ss)) == Ok(text)
  {
    hide SectionsText, Utf16Bytes;
    var body := Utf16Bytes(text);
    BytesAre(text);
    assert FileBytes(ss) == [0xFF, 0xFE] + body;
    assert FileBytes(ss)[2..] == body;
    Utf16.FromToBytes(Utf16.Encode(text));
    Utf16.DecodeEncode(text);
  }

  /** In UTF-8, with a byte order mark or without one, the text is read as the same. */
  lemma {:induction false} HandWrittenUtf8(ss: seq<Section>)
    requires forall i :: 0 <= i < |ss| ==> IsWritable(ss[i])
    ensures var b := Utf8.Encode("Windows Registry Editor Version 5.00" + "\r\n" + "\r\n" + SectionsText(ss));
            I.Decode(b) == Ok(Keys(ss)) && I.Decode([0xEF, 0xBB, 0xBF] + b) == Ok(Keys(ss))
  {
    hide I.DecodeLines, I.LogicalLines, I.PhysicalLines, I.FileText, Keys, SectionsText, Utf8.Encode;
    var text := HEADER + X.CRLF + X.CRLF + SectionsText(ss);
    Utf8File(text);
    TextRead(ss, text);
  }

  /** A text that does not itself start with the mark. */
  lemma Utf8File(text: string)
    requires text != "" ==> text[0] as int != 0xFEFF
    ensures I.FileText(Utf8.Encode(text)) == Ok(text)
    ensures I.FileText([0xEF, 0xBB, 0xBF] + Utf8.Encode(text)) == Ok(text)
  {
    hide Utf8.Runes, Utf8.Valid;
    var mark := 0xFEFF as char;
    Utf8.EncodeValid(text);
    Utf8.EncodeValid([mark] + text);
    assert ([mark] + text)[1..] == text && Utf8.EncodeChar(mark) == [0xEF, 0xBB, 0xBF];
    if text != "" {
      FirstByte(text[0], Utf8.Encode(text[1..]));
    }
  }

  lemma FirstByte(c: char, rest: Bytes)
    ensures (Utf8.EncodeChar(c) + rest)[0] != 0xFF
  {
  }

  // ----- what the exporter writes

  /** The entry the exporter writes a value as, where it needs no wrapping. */
  function Form(v: X.ExportValue): Entry {
    if v.kind == 1 && X.PlainString(v.data).Some? then Text(v.name, X.PlainString(v.data).value)
    else if v.kind == 4 && |v.data| == 4 then
      Number(v.name, v.data[0] as int + 0x100 * (v.data[1] as int) + 0x1_0000 * (v.data[2] as int)
                     + 0x100_0000 * (v.data[3] as int))
    else Raw(v.name, v.kind, v.data)
  }

  /** The exporter writes text as a string and four bytes as a number, on one line; everything else in hexadecimal, on
      lines that are joined to one. */
  lemma WrittenForm(v: X.ExportValue, rest: string) returns (taken: nat)
    requires '\n' !in v.name
    ensures Form(v).Raw? || X.ValueText(v) == EntryText(Form(v))
    ensures var line := NamePart(v.name) + ("=" + DataPart(Form(v)));
            R.FirstLogical(I.PhysicalLines(X.ValueText(v) + rest)) == (line, taken, I.PhysicalLines(rest))
  {
    taken := R.ValueFirst(v, rest);
    LineForm(v);
    if !Form(v).Raw? {
      R.TextLineEnds(v);
    }
  }

  lemma LineForm(v: X.ExportValue)
    ensures NamePart(v.name) + ("=" + DataPart(Form(v))) == R.FlatLine(v)
  {
    NamePartIsText(v.name);
    match Form(v)
    case Text(_, text) => EscapedIsQuote(text);
    case Number(_, n) =>
    case Raw(_, _, data) => FlatIsJoin(data);
    case _ =>
  }

  function WrittenEntries(values: seq<X.ExportValue>): seq<Entry> {
    if values == [] then [] else [Written(values[0])] + WrittenEntries(values[1..])
  }

  function WrittenSections(keys: seq<X.ExportKey>): seq<Section> {
    if keys == [] then [] else [Section(keys[0].path, WrittenEntries(keys[0].values))] + WrittenSections(keys[1..])
  }

  lemma {:induction false} EntriesWritten(values: seq<X.ExportValue>)
    ensures EntriesText(WrittenEntries(values)) == X.ValuesText(values)
  {
    if values != [] {
      EntriesWritten(values[1..]);
      assert WrittenEntries(values)[1..] == WrittenEntries(values[1..]);
    }
  }

  lemma {:induction false} SectionsWritten(keys: seq<X.ExportKey>)
    ensures SectionsText(WrittenSections(keys)) == X.KeysText(keys)
  {
    if keys != [] {
      SectionsWritten(keys[1..]);
      EntriesWritten(keys[0].values);
      assert WrittenSections(keys)[1..] == WrittenSections(keys[1..]);
      assert SectionText(WrittenSections(keys)[0]) == X.KeyText(keys[0]);
    }
  }

  /** The bytes the exporter writes are those of a file of sections with their values. */
  lemma {:induction false} ExportedBytes(keys: seq<X.ExportKey>)
    ensures X.FileBytes(keys) == FileBytes(WrittenSections(keys))
  {
    hide Utf16Bytes, SectionsText, X.KeysText;
    SectionsWritten(keys);
    BytesAre(X.FileText(keys));
  }
}
