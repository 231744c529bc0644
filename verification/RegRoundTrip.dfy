/** Reading what was written: for which keys a .reg file gives them back, and with which bytes
    (vfs/registry_reg_export.go with vfs/registry_reg_import.go). */
module RegRoundTrip {
  import opened Base
  import opened RegFormat
  import Utf8
  import Utf16
  import X = RegExport
  import I = RegImport

  // ----- the statement

  /** What a written value comes back as: REG_SZ written as text ends with exactly one NUL, everything else keeps its
      exact bytes. */
  function ReadData(v: X.ExportValue): seq<Byte> {
    if v.kind == REG_SZ && X.PlainString(v.data).Some? then I.StringData(X.PlainString(v.data).value) else v.data
  }

  function ReadValue(v: X.ExportValue): I.ImportValue {
    I.SetValue(v.name, v.kind, ReadData(v))
  }

  function ReadValues(values: seq<X.ExportValue>): (r: seq<I.ImportValue>)
    ensures |r| == |values| && forall i :: 0 <= i < |r| ==> r[i] == ReadValue(values[i])
  {
    if values == [] then [] else [ReadValue(values[0])] + ReadValues(values[1..])
  }

  function ReadKey(key: X.ExportKey): I.ImportKey {
    I.ImportKey(key.path, false, ReadValues(key.values))
  }

  function ReadKeys(keys: seq<X.ExportKey>): (r: seq<I.ImportKey>)
    ensures |r| == |keys| && forall i :: 0 <= i < |r| ==> r[i] == ReadKey(keys[i])
  {
    if keys == [] then [] else [ReadKey(keys[0])] + ReadKeys(keys[1..])
  }

  /** A path that stands for itself between brackets: not empty, not a removal, on one line. */
  predicate WritablePath(path: string) {
    path != "" && path[0] != '-' && '\n' !in path
  }

  predicate WritableKey(key: X.ExportKey) {
    WritablePath(key.path) && forall i :: 0 <= i < |key.values| ==> '\n' !in key.values[i].name
  }

  predicate Writable(keys: seq<X.ExportKey>) {
    forall i :: 0 <= i < |keys| ==> WritableKey(keys[i])
  }

  // ----- physical lines

  lemma {:induction false} ReplaceAppend(a: string, z: string)
    requires '\n' !in a
    requires z != "" && z[0] != '\n'
    ensures I.ReplaceCrLf(a + z) == a + I.ReplaceCrLf(z)
  {
    if a == "" {
      assert a + z == z && a + I.ReplaceCrLf(z) == I.ReplaceCrLf(z);
    } else {
      var rest := a[1..];
      ReplaceAppend(rest, z);
      assert (rest + z)[0] == if rest == "" then z[0] else rest[0];
      KeepFirst(a[0], rest + z);
      assert a == [a[0]] + rest;
      Assoc([a[0]], rest, z);
      Assoc([a[0]], rest, I.ReplaceCrLf(z));
    }
  }

  lemma {:induction false} KeepFirst(c: char, s: string)
    requires s != "" && s[0] != '\n'
    ensures I.ReplaceCrLf([c] + s) == [c] + I.ReplaceCrLf(s)
  {
    assert ([c] + s)[1..] == s;
  }

  lemma {:induction false} SplitPrefix(a: string, z: string)
    requires '\n' !in a
    ensures Split(a + z, '\n') == [a + Split(z, '\n')[0]] + Split(z, '\n')[1..]
  {
    if a == "" {
      assert a + z == z && a + Split(z, '\n')[0] == Split(z, '\n')[0];
    } else {
      var s := a + z;
      assert s[0] == a[0] && s[1..] == a[1..] + z;
      SplitPrefix(a[1..], z);
      assert [a[0]] + (a[1..] + Split(z, '\n')[0]) == a + Split(z, '\n')[0];
    }
  }

  /** Text without a line feed lengthens the first line of what follows it. */
  lemma FirstLine(a: string, z: string)
    requires '\n' !in a
    requires z != "" && z[0] != '\n'
    ensures I.PhysicalLines(a + z) == [a + I.PhysicalLines(z)[0]] + I.PhysicalLines(z)[1..]
  {
    ReplaceAppend(a, z);
    SplitPrefix(a, I.ReplaceCrLf(z));
  }

  lemma EmptyLine(rest: string)
    ensures I.PhysicalLines(X.CRLF + rest) == [""] + I.PhysicalLines(rest)
  {
    var z := X.CRLF + rest;
    assert z[2..] == rest;
    assert ("\n" + I.ReplaceCrLf(rest))[1..] == I.ReplaceCrLf(rest);
  }

  /** A line without a line feed, ended by CRLF, is one physical line, carriage returns of its own included. */
  lemma WholeLine(line: string, rest: string)
    requires '\n' !in line
    ensures I.PhysicalLines(line + (X.CRLF + rest)) == [line] + I.PhysicalLines(rest)
  {
    EmptyLine(rest);
    FirstLine(line, X.CRLF + rest);
    assert line + "" == line;
  }

  // ----- logical lines

  lemma {:induction false} QuotedOutside(s: string, t: string)
    ensures I.EndsInside(X.Quote(s) + ("\"" + t), true) == I.EndsInside(t, false)
  {
    var text := X.Quote(s) + ("\"" + t);
    if s == "" {
      assert text == "\"" + t && text[1..] == t;
    } else {
      var more := X.Quote(s[1..]) + ("\"" + t);
      assert text == X.QuoteChar(s[0]) + more;
      assert text[|X.QuoteChar(s[0])|..] == more;
      QuotedOutside(s[1..], t);
    }
  }

  lemma QuoteOpens(t: string)
    ensures I.EndsInside("\"" + t, false) == I.EndsInside(t, true)
  {
    assert ("\"" + t)[1..] == t;
  }

  /** After a name the reader is outside quotes, whatever characters the name has. */
  lemma NameOutside(name: string, t: string)
    ensures I.EndsInside(X.NameText(name) + t, false) == I.EndsInside(t, false)
  {
    if name == "" {
      assert ("@" + t)[1..] == t;
    } else {
      QuotedOutside(name, t);
      QuoteOpens(X.Quote(name) + ("\"" + t));
      Assoc4("\"", X.Quote(name), "\"", t);
    }
  }

  lemma {:induction false} UnquotedOutside(t: string)
    requires '"' !in t
    ensures !I.EndsInside(t, false)
  {
    if t != "" {
      assert t[0] in t;
      UnquotedOutside(t[1..]);
    }
  }

  lemma {:induction false} QuoteMember(s: string)
    requires '\n' !in s
    ensures '\n' !in X.Quote(s)
  {
    if s != "" {
      assert s[0] in s;
      QuoteMember(s[1..]);
    }
  }

  lemma NameMember(name: string)
    requires '\n' !in name
    ensures '\n' !in X.NameText(name)
  {
    QuoteMember(name);
  }

  /** The bytes from i on without any wrapping. */
  function Flat(data: seq<Byte>, i: nat): string
    decreases |data| - i
  {
    if i >= |data| then "" else X.HexPair(data, i) + Flat(data, i + 1)
  }

  /** The characters of a hex value behind its name: no quote, no line break, and an end that is neither blank nor a
      backslash. */
  predicate IsHexText(mid: string) {
    mid != "" && '"' !in mid && '\n' !in mid && '\r' !in mid && mid[|mid| - 1] != '\\' && !IsBlank(mid[|mid| - 1])
  }

  predicate EndsPlainly(line: string) {
    line != "" && line[|line| - 1] != '\\' && !IsBlank(line[|line| - 1])
  }

  /** The start of a hex value's line: the reader is outside quotes behind it and stays there up to the next quote. */
  ghost predicate IsHexLine(line: string) {
    && EndsPlainly(line) && '\n' !in line
    && forall t: string :: '"' !in t ==> !I.EndsInside(line + t, false)
  }

  lemma HexPairText(data: seq<Byte>, i: nat)
    requires i < |data|
    ensures IsHexText(X.HexPair(data, i)) && !IsBlank(X.HexPair(data, i)[0])
  {
    HexPaddedValue(data[i], 2);
    var digits := HexPadded(data[i], 2);
    var pair := X.HexPair(data, i);
    assert pair[0] == digits[0] && pair[1] == digits[1];
    assert |pair| == 3 ==> pair[2] == ',';
    assert forall k :: 0 <= k < |pair| ==> pair[k] != '"' && pair[k] != '\n' && pair[k] != '\r';
  }

  lemma HexLineGrows(line: string, pair: string)
    requires IsHexLine(line) && IsHexText(pair)
    ensures IsHexLine(line + pair)
  {
    forall t: string | '"' !in t
      ensures !I.EndsInside((line + pair) + t, false)
    {
      Assoc(line, pair, t);
      assert !I.EndsInside(line + (pair + t), false);
    }
  }

  /** A line that ends plainly does not go on. */
  lemma PlainEnd(line: string)
    requires EndsPlainly(line)
    ensures TrimRight(line, IsBlank) == line && !I.Continues(line)
  {
  }

  /** With the wrapping backslash at its end a hex line goes on, and joining cuts exactly that backslash. */
  lemma HexLineWraps(line: string, next: string)
    requires IsHexLine(line)
    ensures I.Continues(line + "\\")
    ensures I.Joined(line + "\\", next) == line + TrimLeft(next, IsBlank)
  {
    var wrapped := line + "\\";
    assert TrimRight(wrapped, IsBlank) == wrapped;
    assert wrapped[|wrapped| - 1..] == "\\" && wrapped[..|wrapped| - 1] == line;
  }

  /** The logical line that physical lines start with, the number of lines it takes, and the lines behind it. */
  function FirstLogical(physical: seq<string>): (string, nat, seq<string>)
    requires physical != []
  {
    var r := I.JoinLines(physical[0], physical[1..]);
    (r.0, r.1, physical[1 + r.1..])
  }

  /** The logical line a hex value's physical lines join to is the value on one line; taken counts the wrapped ones. */
  lemma {:induction false} HexLine(line: string, data: seq<Byte>, i: nat, width: nat, rest: string) returns (taken: nat)
    requires IsHexLine(line)
    ensures FirstLogical(I.PhysicalLines(line + (X.HexFrom(data, i, width) + (X.CRLF + rest))))
            == (line + Flat(data, i), taken, I.PhysicalLines(rest))
    decreases |data| - i
  {
    if i >= |data| {
      taken := 0;
      PlainEnd(line);
      assert line + "" == line && "" + (X.CRLF + rest) == X.CRLF + rest;
      WholeLine(line, rest);
      assert ([line] + I.PhysicalLines(rest))[1..] == I.PhysicalLines(rest);
    } else {
      var pair := X.HexPair(data, i);
      var next := X.NextWidth(data, i, width);
      var tail := X.HexFrom(data, i + 1, next) + (X.CRLF + rest);
      HexPairText(data, i);
      HexLineGrows(line, pair);
      taken := HexLine(line + pair, data, i + 1, next, rest);
      Assoc(line, pair, Flat(data, i + 1));
      Assoc(line, pair, tail);
      Assoc(X.HexPiece(data, i, width), X.HexFrom(data, i + 1, next), X.CRLF + rest);
      if X.Wraps(data, i, width) {
        WrapText(line, pair, tail);
        WrappedLine(line, pair, tail);
        taken := taken + 1;
      } else {
        assert "" + pair == pair;
      }
    }
  }

  lemma WrapText(line: string, pair: string, tail: string)
    ensures line + ((X.WRAP + pair) + tail) == (line + "\\") + (X.CRLF + ("  " + (pair + tail)))
  {
    assert X.WRAP == "\\" + (X.CRLF + "  ");
    Assoc(X.WRAP, pair, tail);
    Assoc("\\", X.CRLF + "  ", pair + tail);
    Assoc(X.CRLF, "  ", pair + tail);
    Assoc(line, "\\", X.CRLF + ("  " + (pair + tail)));
  }

  lemma TwoBlanks(text: string)
    requires text != "" && !IsBlank(text[0])
    ensures TrimLeft("  " + text, IsBlank) == text
  {
    assert (" " + text)[1..] == text && ("  " + text)[1..] == " " + text;
    assert TrimLeft(" " + text, IsBlank) == TrimLeft(text, IsBlank) == text;
  }

  /** Wrapping before pair adds a physical line and leaves the logical one as it is. */
  lemma WrappedLine(line: string, pair: string, tail: string)
    requires IsHexLine(line) && IsHexText(pair) && !IsBlank(pair[0])
    ensures var plain := FirstLogical(I.PhysicalLines(line + (pair + tail)));
            FirstLogical(I.PhysicalLines((line + "\\") + (X.CRLF + ("  " + (pair + tail)))))
            == (plain.0, plain.1 + 1, plain.2)
  {
    var z := pair + tail;
    var lines := I.PhysicalLines(z);
    HexLineWraps(line, "  " + lines[0]);
    WholeLine(line + "\\", "  " + z);
    FirstLineStart(pair, tail);
    FirstLine("  ", z);
    FirstLine(line, z);
    TwoBlanks(lines[0]);
    WrapStep(line + "\\", "  " + lines[0], lines[1..], line + lines[0]);
  }

  /** Joining takes the second line when the first goes on. */
  lemma WrapStep(first: string, second: string, rest: seq<string>, joined: string)
    requires I.Continues(first) && I.Joined(first, second) == joined
    ensures var plain := FirstLogical([joined] + rest);
            FirstLogical([first] + ([second] + rest)) == (plain.0, plain.1 + 1, plain.2)
  {
    var physical := [first] + ([second] + rest);
    assert physical[1..] == [second] + rest && ([second] + rest)[1..] == rest && ([joined] + rest)[1..] == rest;
    var r := I.JoinLines(joined, rest);
    assert physical[2 + r.1..] == ([joined] + rest)[1 + r.1..];
  }

  lemma FirstLineStart(pair: string, tail: string)
    requires IsHexText(pair)
    ensures var z := pair + tail;
            && z[0] != '\n'
            && I.PhysicalLines(z)[0] != ""
            && I.PhysicalLines(z)[0][0] == pair[0]
  {
    var z := pair + tail;
    assert z[0] == pair[0] && pair[0] in pair;
    assert I.ReplaceCrLf(z)[0] == z[0];
  }

  // ----- reading one value line

  lemma QuotedStep(c: char, t: string)
    ensures I.Unquoted(X.QuoteChar(c) + t) == I.Behind([c], |X.QuoteChar(c)|, I.Unquoted(t))
  {
    var text := X.QuoteChar(c) + t;
    assert text[|X.QuoteChar(c)|..] == t;
  }

  /** regUnquote undoes regQuote: the text comes back, and what follows the closing quote is left. */
  lemma {:induction false} UnquoteQuote(s: string, t: string)
    ensures I.Unquoted(X.Quote(s) + ("\"" + t)) == Some((s, |X.Quote(s)| + 1))
  {
    if s == "" {
      assert X.Quote(s) + ("\"" + t) == "\"" + t;
    } else {
      UnquoteQuote(s[1..], t);
      QuotedStep(s[0], X.Quote(s[1..]) + ("\"" + t));
      Assoc(X.QuoteChar(s[0]), X.Quote(s[1..]), "\"" + t);
      assert [s[0]] + s[1..] == s;
    }
  }

  lemma UnquoteQuoted(s: string, t: string)
    ensures var text := "\"" + X.Quote(s) + "\"" + t;
            I.Unquote(text) == Some((s, |X.Quote(s)| + 2)) && text[|X.Quote(s)| + 2..] == t
  {
    var text := "\"" + X.Quote(s) + "\"" + t;
    Assoc4("\"", X.Quote(s), "\"", t);
    assert text[1..] == X.Quote(s) + ("\"" + t);
    UnquoteQuote(s, t);
  }

  predicate TrimmedText(s: string) {
    s != "" && !IsSpace(s[0]) && !IsSpace(s[|s| - 1])
  }

  /** The name and the equals sign of a value line are read back, and the data behind them is what is left. */
  lemma ReadName(name: string, data: string)
    requires TrimmedText(data)
    ensures I.ValueLine(X.NameText(name) + ("=" + data)) == I.ValueData(name, data)
  {
    var rest := "=" + data;
    assert rest[1..] == data && TrimLeft(rest, IsBlank) == rest;
    TrimSpaceStop(data);
    var line := X.NameText(name) + rest;
    if name == "" {
      assert line[1..] == rest;
    } else {
      UnquoteQuoted(name, rest);
      assert line[0] == '"';
    }
  }

  lemma ReadString(name: string, text: string)
    ensures var data := "\"" + X.Quote(text) + "\"";
            TrimmedText(data) && I.ValueData(name, data) == Ok(I.SetValue(name, REG_SZ, I.StringData(text)))
  {
    var data := "\"" + X.Quote(text) + "\"";
    UnquoteQuoted(text, "");
    assert data + "" == data;
  }

  lemma DwordRead(data: seq<Byte>)
    requires |data| == 4
    ensures I.DwordBytes(X.DwordValue(data)) == data
  {
    var d0, d1, d2, d3 := data[0] as int, data[1] as int, data[2] as int, data[3] as int;
    var v3 := d3;
    var v2 := d2 + 0x100 * v3;
    var v1 := d1 + 0x100 * v2;
    var v0 := d0 + 0x100 * v1;
    assert X.DwordValue(data) == v0;
    assert v0 / 0x100 == v1 && v0 / 0x1_0000 == v2 && v0 / 0x100_0000 == v3;
    assert v0 % 0x100 == d0 && v1 % 0x100 == d1 && v2 % 0x100 == d2;
  }

  lemma DigitsTrimmed(digits: string)
    requires digits != "" && IsHexDigits(digits)
    ensures TrimmedText(digits)
  {
  }

  lemma ReadDword(name: string, data: seq<Byte>)
    requires |data| == 4
    ensures var text := "dword:" + HexPadded(X.DwordValue(data), 8);
            TrimmedText(text) && I.ValueData(name, text) == Ok(I.SetValue(name, REG_DWORD, data))
  {
    var n := X.DwordValue(data);
    var digits := HexPadded(n, 8);
    var text := "dword:" + digits;
    assert Power16(8) == 0x1_0000_0000 by {
      assert Power16(4) == 0x1_0000;
      assert Power16(8) == 16 * 16 * 16 * 16 * Power16(4);
    }
    HexPaddedValue(n, 8);
    DigitsTrimmed(digits);
    TrimSpaceStop(digits);
    assert text[6..] == digits && text[|text| - 1] == digits[|digits| - 1];
    assert Lower(text)[..6] == "dword:";
    DwordRead(data);
  }

  lemma {:induction false} IndexOfAt(a: string, c: char, b: string)
    requires c !in a
    ensures IndexOf(a + [c] + b, c) == |a|
  {
    if a != "" {
      assert a[0] in a;
      assert (a + [c] + b)[1..] == a[1..] + [c] + b;
      IndexOfAt(a[1..], c, b);
    }
  }

  lemma LowerSame(s: string)
    requires forall i :: 0 <= i < |s| ==> !('A' <= s[i] <= 'Z')
    ensures Lower(s) == s
  {
  }

  lemma {:induction false} ReadTypedKind(digits: string)
    requires digits != "" && IsHexDigits(digits)
    ensures I.KindValue("hex(" + digits + ")") == ParseUint32(digits)
    ensures ':' !in "hex(" + digits + ")"
  {
    var k := "hex(" + digits + ")";
    TypedParts("hex(", digits, ")");
    TrimSpaceStop(k);
    LowerSame(k);
  }

  lemma TypedParts(head: string, digits: string, tail: string)
    requires |head| == 4 && head[0] == 'h' && |tail| == 1
    ensures var k := head + digits + tail;
            && k[0] == 'h' && |k| >= 5 && k[|k| - 1] == tail[0] && k[..4] == head && k[4..|k| - 1] == digits
            && k[3] == head[3] && k[|k| - 1..] == tail && k[4..] == digits + tail
  {
  }

  lemma ReadKind(kind: UInt32)
    ensures I.KindValue(X.KindText(kind)) == Some(kind)
    ensures ':' !in X.KindText(kind)
  {
    if kind == REG_BINARY {
      TrimSpaceStop("hex");
      LowerSame("hex");
    } else {
      HexNumberValue(kind);
      ReadTypedKind(HexNumber(kind));
    }
  }

  /** The pairs from i on without their commas. */
  function Pairs(data: seq<Byte>, i: nat): (r: seq<string>)
    ensures |r| == if i < |data| then |data| - i else 0
    decreases |data| - i
  {
    if i >= |data| then [] else [HexPadded(data[i], 2)] + Pairs(data, i + 1)
  }

  lemma {:induction false} FlatPairs(data: seq<Byte>, i: nat)
    requires i < |data|
    ensures Flat(data, i) == Join(Pairs(data, i), ',')
    decreases |data| - i
  {
    if i + 1 < |data| {
      FlatPairs(data, i + 1);
      assert Pairs(data, i)[1..] == Pairs(data, i + 1);
    } else {
      assert Flat(data, i + 1) == "" && Pairs(data, i + 1) == [];
    }
  }

  lemma {:induction false} PairValue(digits: string)
    requires |digits| == 2 && HexValue(digits).Some?
    ensures var high, low := DigitValue(digits[0]), DigitValue(digits[1]);
            high.Some? && low.Some? && HexValue(digits) == Some(16 * high.value + low.value)
  {
    var first := digits[..1];
    assert first[..0] == "" && first[0] == digits[0];
    assert HexValue(first) == DigitValue(digits[0]);
  }

  lemma {:induction false} ReadPair(b: Byte)
    ensures I.HexByte(HexPadded(b, 2)) == Some(b) && ',' !in HexPadded(b, 2)
  {
    hide HexPadded, HexValue, TrimSpace;
    var digits := HexPadded(b, 2);
    assert b < Power16(2);
    HexPaddedValue(b, 2);
    DigitsTrimmed(digits);
    TrimSpaceStop(digits);
    PairValue(digits);
  }

  lemma {:induction false} ReadPairs(data: seq<Byte>, i: nat)
    requires i <= |data|
    ensures I.HexParts(Pairs(data, i)) == Some(data[i..])
    ensures forall k :: 0 <= k < |Pairs(data, i)| ==> ',' !in Pairs(data, i)[k]
    decreases |data| - i
  {
    if i == |data| {
      assert data[i..] == [];
    } else {
      ReadPair(data[i]);
      ReadPairs(data, i + 1);
      assert Pairs(data, i)[1..] == Pairs(data, i + 1);
      assert [data[i]] + data[i + 1..] == data[i..];
    }
  }

  lemma {:induction false} FlatTrimmed(data: seq<Byte>, i: nat)
    requires i < |data|
    ensures TrimmedText(Flat(data, i))
    decreases |data| - i
  {
    HexPaddedValue(data[i], 2);
    var digits := HexPadded(data[i], 2);
    assert X.HexPair(data, i)[0] == digits[0];
    if i + 1 < |data| {
      FlatTrimmed(data, i + 1);
    } else {
      assert Flat(data, i) == digits;
    }
  }

  /** The comma separated pairs on one line are the bytes again. */
  lemma ReadFlat(data: seq<Byte>)
    ensures I.HexBytes(Flat(data, 0)) == Some(data)
  {
    if data != [] {
      FlatTrimmed(data, 0);
      TrimSpaceStop(Flat(data, 0));
      FlatPairs(data, 0);
      ReadPairs(data, 0);
      SplitJoin(Pairs(data, 0), ',');
      assert data[0..] == data;
    }
  }

  lemma HexChosen(name: string, text: string)
    requires |text| >= 3 && text[0] == 'h' && text[1] == 'e' && text[2] == 'x'
    ensures I.ValueData(name, text) == I.HexData(name, text)
  {
    var l := Lower(text);
    assert l[0] == 'h' && l[1] == 'e' && l[2] == 'x';
    assert l[..3] == "hex";
  }

  lemma ReadHexData(name: string, kind: UInt32, data: seq<Byte>)
    ensures I.HexData(name, X.KindText(kind) + (":" + Flat(data, 0))) == Ok(I.SetValue(name, kind, data))
  {
    var k := X.KindText(kind);
    var text := k + (":" + Flat(data, 0));
    ReadKind(kind);
    Assoc(k, ":", Flat(data, 0));
    IndexOfAt(k, ':', Flat(data, 0));
    assert text[..|k|] == k && text[|k| + 1..] == Flat(data, 0) && text[|k|] == ':';
    ReadFlat(data);
  }

  lemma ReadHex(name: string, kind: UInt32, data: seq<Byte>)
    ensures var text := X.KindText(kind) + (":" + Flat(data, 0));
            TrimmedText(text) && I.ValueData(name, text) == Ok(I.SetValue(name, kind, data))
  {
    var k := X.KindText(kind);
    var text := k + (":" + Flat(data, 0));
    assert k[0] == 'h' && k[1] == 'e' && k[2] == 'x';
    if data != [] {
      FlatTrimmed(data, 0);
      assert text[|text| - 1] == Flat(data, 0)[|Flat(data, 0)| - 1];
    } else {
      assert text[|text| - 1] == ':';
    }
    HexChosen(name, text);
    ReadHexData(name, kind, data);
  }

  /** A value's line when nothing is wrapped. */
  function FlatLine(v: X.ExportValue): string {
    X.NameText(v.name) + ("=" + FlatData(v))
  }

  predicate IsText(v: X.ExportValue) { v.kind == REG_SZ && X.PlainString(v.data).Some? }

  predicate IsDword(v: X.ExportValue) { v.kind == REG_DWORD && |v.data| == 4 }

  function FlatData(v: X.ExportValue): string {
    if IsText(v) then "\"" + X.Quote(X.PlainString(v.data).value) + "\""
    else if IsDword(v) then "dword:" + HexPadded(X.DwordValue(v.data), 8)
    else X.KindText(v.kind) + (":" + Flat(v.data, 0))
  }

  /** Reading the unwrapped line of a value gives the value. */
  lemma ReadLine(v: X.ExportValue)
    ensures I.ValueLine(FlatLine(v)) == Ok(ReadValue(v))
    ensures TrimmedText(FlatLine(v)) && (FlatLine(v)[0] == '@' || FlatLine(v)[0] == '"')
  {
    if IsText(v) {
      ReadString(v.name, X.PlainString(v.data).value);
    } else if IsDword(v) {
      ReadDword(v.name, v.data);
    } else {
      ReadHex(v.name, v.kind, v.data);
    }
    ReadName(v.name, FlatData(v));
    var line := FlatLine(v);
    assert line[0] == X.NameText(v.name)[0];
    assert line[|line| - 1] == FlatData(v)[|FlatData(v)| - 1];
  }

  // ----- reading the sections

  /** A line that does not end with a backslash is a logical line of its own. */
  lemma SimpleFirst(line: string, rest: string)
    requires '\n' !in line
    requires line == "" || EndsPlainly(line)
    ensures FirstLogical(I.PhysicalLines(line + (X.CRLF + rest))) == (line, 0, I.PhysicalLines(rest))
  {
    WholeLine(line, rest);
    assert ([line] + I.PhysicalLines(rest))[1..] == I.PhysicalLines(rest);
    if line != "" {
      PlainEnd(line);
    }
  }

  lemma HexStart(name: string, kind: UInt32)
    requires '\n' !in name
    ensures IsHexLine(X.NameText(name) + "=" + X.KindText(kind) + ":")
  {
    var k := X.KindText(kind);
    HexNumberValue(kind);
    NameMember(name);
    assert forall i :: 0 <= i < |k| ==> k[i] != '"' && k[i] != '\n';
    var line := X.NameText(name) + "=" + k + ":";
    forall t: string | '"' !in t
      ensures !I.EndsInside(line + t, false)
    {
      Assoc4(X.NameText(name), "=", k, ":" + t);
      Assoc(X.NameText(name) + "=" + k, ":", t);
      NameOutside(name, "=" + (k + (":" + t)));
      UnquotedOutside("=" + (k + (":" + t)));
    }
  }

  lemma QuotedAssoc(name: string, text: string)
    ensures name + "=\"" + text + "\"" == name + ("=" + ("\"" + text + "\""))
  {
    assert "=\"" == "=" + "\"";
    Assoc(name, "=", "\"");
    Assoc(name + "=", "\"", text);
    Assoc(name + "=", "\"" + text, "\"");
    Assoc(name, "=", "\"" + text + "\"");
  }

  lemma DwordAssoc(name: string, digits: string)
    ensures name + "=dword:" + digits == name + ("=" + ("dword:" + digits))
  {
    assert "=dword:" == "=" + "dword:";
    Assoc(name, "=", "dword:");
    Assoc(name + "=", "dword:", digits);
    Assoc(name, "=", "dword:" + digits);
  }

  lemma TextLineEnds(v: X.ExportValue)
    requires '\n' !in v.name && (IsText(v) || IsDword(v))
    ensures X.ValueLine(v) == FlatLine(v) && '\n' !in FlatLine(v)
    ensures EndsPlainly(FlatLine(v))
  {
    NameMember(v.name);
    if IsText(v) {
      var text := X.PlainString(v.data).value;
      var zeros := X.PlainStringSound(v.data);
      QuoteMember(text);
      QuotedAssoc(X.NameText(v.name), X.Quote(text));
    } else {
      HexPaddedDigits(X.DwordValue(v.data), 8);
      DwordAssoc(X.NameText(v.name), HexPadded(X.DwordValue(v.data), 8));
    }
  }

  lemma {:induction false} HexPaddedDigits(n: nat, width: nat)
    ensures IsHexDigits(HexPadded(n, width))
  {
    if width > 0 {
      HexPaddedDigits(n / 16, width - 1);
    }
  }

  /** Every value becomes one logical line again, over however many physical lines it was wrapped. */
  lemma ValueFirst(v: X.ExportValue, rest: string) returns (taken: nat)
    requires '\n' !in v.name
    ensures FirstLogical(I.PhysicalLines(X.ValueText(v) + rest)) == (FlatLine(v), taken, I.PhysicalLines(rest))
  {
    Assoc(X.ValueLine(v), X.CRLF, rest);
    if IsText(v) || IsDword(v) {
      taken := 0;
      TextLineEnds(v);
      SimpleFirst(FlatLine(v), rest);
    } else {
      var prefix := X.NameText(v.name) + "=" + X.KindText(v.kind) + ":";
      HexStart(v.name, v.kind);
      taken := HexLine(prefix, v.data, 0, |Utf8.Encode(prefix)|, rest);
      Assoc(prefix, X.HexFrom(v.data, 0, |Utf8.Encode(prefix)|), X.CRLF + rest);
      Assoc4(X.NameText(v.name) + "=", X.KindText(v.kind), ":", Flat(v.data, 0));
      Assoc(X.NameText(v.name), "=", FlatData(v));
    }
  }

  /** The keys read from text when the lines before it have given keys already. */
  function ReadFrom(keys: seq<I.ImportKey>, text: string, number: nat): Result<seq<I.ImportKey>, I.RegError> {
    I.AddLines(keys, I.LogicalLines(I.PhysicalLines(text), number))
  }

  lemma {:induction false} ReadFirst(keys: seq<I.ImportKey>, text: string, number: nat, line: string, taken: nat,
                                     rest: string)
    requires FirstLogical(I.PhysicalLines(text)) == (line, taken, I.PhysicalLines(rest))
    ensures var more := I.AddLine(keys, I.Line(number, line));
            ReadFrom(keys, text, number) == if more.Err? then more else ReadFrom(more.value, rest, number + 1 + taken)
  {
    var tail := I.LogicalLines(I.PhysicalLines(rest), number + 1 + taken);
    FirstOfLines(I.PhysicalLines(text), number, line, taken, I.PhysicalLines(rest));
    AddFirst(keys, I.Line(number, line), tail);
  }

  lemma {:induction false} FirstOfLines(physical: seq<string>, number: nat, line: string, taken: nat, rest: seq<string>)
    requires physical != [] && FirstLogical(physical) == (line, taken, rest)
    ensures I.LogicalLines(physical, number) == [I.Line(number, line)] + I.LogicalLines(rest, number + 1 + taken)
  {
  }

  lemma {:induction false} AddFirst(keys: seq<I.ImportKey>, line: I.Line, tail: seq<I.Line>)
    ensures var more := I.AddLine(keys, line);
            I.AddLines(keys, [line] + tail) == if more.Err? then more else I.AddLines(more.value, tail)
  {
    assert ([line] + tail)[1..] == tail;
  }

  lemma AddBlank(keys: seq<I.ImportKey>, number: nat)
    ensures I.AddLine(keys, I.Line(number, "")) == Ok(keys)
  {
  }

  lemma AddPath(keys: seq<I.ImportKey>, path: string, number: nat)
    requires WritablePath(path)
    ensures I.AddLine(keys, I.Line(number, X.PathLine(path))) == Ok(keys + [I.ImportKey(path, false, [])])
  {
    var s := X.PathLine(path);
    TrimSpaceStop(s);
    assert s[|s| - 1..] == "]" && s[1..|s| - 1] == path;
    assert path[0] == path[..1][0];
    assert !("-" <= path);
  }

  lemma AddValueLine(keys: seq<I.ImportKey>, last: I.ImportKey, s: string, value: I.ImportValue, number: nat)
    requires !last.delete
    requires TrimmedText(s) && (s[0] == '@' || s[0] == '"') && I.ValueLine(s) == Ok(value)
    ensures I.AddLine(keys + [last], I.Line(number, s)) == Ok(keys + [last.(values := last.values + [value])])
  {
    TrimSpaceStop(s);
    var all := keys + [last];
    var more := last.(values := last.values + [value]);
    assert all[|all| - 1 := more] == keys + [more];
  }

  lemma AddValue(keys: seq<I.ImportKey>, last: I.ImportKey, v: X.ExportValue, number: nat)
    requires !last.delete
    ensures I.AddLine(keys + [last], I.Line(number, FlatLine(v)))
            == Ok(keys + [last.(values := last.values + [ReadValue(v)])])
  {
    ReadLine(v);
    AddValueLine(keys, last, FlatLine(v), ReadValue(v), number);
  }

  lemma {:induction false} ReadValuesText(keys: seq<I.ImportKey>, last: I.ImportKey, values: seq<X.ExportValue>,
                                          rest: string, number: nat) returns (next: nat)
    requires !last.delete
    requires forall i :: 0 <= i < |values| ==> '\n' !in values[i].name
    ensures ReadFrom(keys + [last], X.ValuesText(values) + rest, number)
            == ReadFrom(keys + [last.(values := last.values + ReadValues(values))], rest, next)
    decreases |values|
  {
    if values == [] {
      next := number;
      assert X.ValuesText(values) + rest == rest;
      assert last.values + [] == last.values;
    } else {
      var more := X.ValuesText(values[1..]) + rest;
      var taken := ValueFirst(values[0], more);
      Assoc(X.ValueText(values[0]), X.ValuesText(values[1..]), rest);
      var read := last.(values := last.values + [ReadValue(values[0])]);
      AddValue(keys, last, values[0], number);
      ReadFirst(keys + [last], X.ValuesText(values) + rest, number, FlatLine(values[0]), taken, more);
      next := ReadValuesText(keys, read, values[1..], rest, number + 1 + taken);
      Assoc(last.values, [ReadValue(values[0])], ReadValues(values[1..]));
    }
  }

  lemma ReadPath(keys: seq<I.ImportKey>, path: string, rest: string, number: nat)
    requires WritablePath(path)
    ensures ReadFrom(keys, X.PathLine(path) + (X.CRLF + rest), number)
            == ReadFrom(keys + [I.ImportKey(path, false, [])], rest, number + 1)
  {
    var line := X.PathLine(path);
    assert line[|line| - 1] == ']';
    SimpleFirst(line, rest);
    ReadFirst(keys, line + (X.CRLF + rest), number, line, 0, rest);
    AddPath(keys, path, number);
  }

  lemma KeyTextParts(key: X.ExportKey, rest: string)
    ensures X.KeyText(key) + rest == X.PathLine(key.path) + (X.CRLF + (X.ValuesText(key.values) + (X.CRLF + rest)))
  {
    var values := X.ValuesText(key.values);
    Assoc4(X.PathLine(key.path) + X.CRLF, values, X.CRLF, rest);
    Assoc(X.PathLine(key.path), X.CRLF, values + (X.CRLF + rest));
    Assoc(X.PathLine(key.path) + X.CRLF + values, X.CRLF, rest);
    Assoc(X.PathLine(key.path) + X.CRLF, values, X.CRLF + rest);
  }

  lemma {:induction false} ReadSection(keys: seq<I.ImportKey>, path: string, values: seq<X.ExportValue>, rest: string,
                                       number: nat)
    returns (next: nat)
    requires WritablePath(path) && forall i :: 0 <= i < |values| ==> '\n' !in values[i].name
    ensures ReadFrom(keys, X.PathLine(path) + (X.CRLF + (X.ValuesText(values) + (X.CRLF + rest))), number)
            == ReadFrom(keys + [I.ImportKey(path, false, ReadValues(values))], rest, next)
  {
    hide ReadFrom;
    ReadPath(keys, path, X.ValuesText(values) + (X.CRLF + rest), number);
    var at := ReadValuesText(keys, I.ImportKey(path, false, []), values, X.CRLF + rest, number + 1);
    assert [] + ReadValues(values) == ReadValues(values);
    ReadBlank(keys + [I.ImportKey(path, false, ReadValues(values))], rest, at);
    next := at + 1;
  }

  lemma ReadKeyText(keys: seq<I.ImportKey>, key: X.ExportKey, rest: string, number: nat) returns (next: nat)
    requires WritableKey(key)
    ensures ReadFrom(keys, X.KeyText(key) + rest, number) == ReadFrom(keys + [ReadKey(key)], rest, next)
  {
    KeyTextParts(key, rest);
    next := ReadSection(keys, key.path, key.values, rest, number);
  }

  lemma ReadBlank(keys: seq<I.ImportKey>, rest: string, number: nat)
    ensures ReadFrom(keys, X.CRLF + rest, number) == ReadFrom(keys, rest, number + 1)
  {
    assert "" + (X.CRLF + rest) == X.CRLF + rest;
    SimpleFirst("", rest);
    ReadFirst(keys, X.CRLF + rest, number, "", 0, rest);
    AddBlank(keys, number);
  }

  lemma {:induction false} ReadKeysText(keys: seq<I.ImportKey>, more: seq<X.ExportKey>, number: nat)
    requires Writable(more)
    ensures ReadFrom(keys, X.KeysText(more), number) == Ok(keys + ReadKeys(more))
    decreases |more|
  {
    if more == [] {
      assert I.PhysicalLines("") == [""];
      assert I.LogicalLines([""], number) == [I.Line(number, "")];
      assert [I.Line(number, "")][1..] == [];
      AddBlank(keys, number);
      assert I.AddLines(keys, [I.Line(number, "")]) == I.AddLines(keys, []) == Ok(keys);
      assert keys + ReadKeys([]) == keys;
    } else {
      var next := ReadKeyText(keys, more[0], X.KeysText(more[1..]), number);
      ReadKeysText(keys + [ReadKey(more[0])], more[1..], next);
      Assoc(keys, [ReadKey(more[0])], ReadKeys(more[1..]));
    }
  }

  // ----- the header

  lemma HeaderText()
    ensures TrimSpace(HEADER) == HEADER && HEADER != "" && '\n' !in HEADER
    ensures HEADER[|HEADER| - 1] == '0'
  {
    assert HEADER[0] == 'W' && HEADER[|HEADER| - 1] == '0';
    TrimSpaceStop(HEADER);
  }

  lemma {:induction false} HeaderRead(text: string)
    ensures I.DecodeLines(I.LogicalLines(I.PhysicalLines(HEADER + (X.CRLF + text)), 1)) == ReadFrom([], text, 2)
  {
    hide I.AddLines, I.JoinLines;
    HeaderText();
    SimpleFirst(HEADER, text);
    var tail := I.LogicalLines(I.PhysicalLines(text), 2);
    var lines := I.LogicalLines(I.PhysicalLines(HEADER + (X.CRLF + text)), 1);
    assert lines == [I.Line(1, HEADER)] + tail;
    assert lines[1..] == tail;
  }

  lemma FileTextRead(keys: seq<X.ExportKey>)
    ensures I.FileText(X.FileBytes(keys)) == Ok(X.FileText(keys))
  {
    var text := X.FileText(keys);
    var body := Utf16.ToBytes(Utf16.Encode(text));
    var data := X.FileBytes(keys);
    assert data[2..] == body && data[0] == 0xFF && data[1] == 0xFE;
    Utf16.FromToBytes(Utf16.Encode(text));
    Utf16.DecodeEncode(text);
  }

  lemma {:induction false} WritableReads(keys: seq<X.ExportKey>)
    requires Writable(keys)
    ensures I.Decode(X.FileBytes(keys)) == Ok(ReadKeys(keys))
  {
    hide I.DecodeLines, I.LogicalLines, I.PhysicalLines, I.FileText, X.FileBytes, X.FileText, ReadKeys;
    FileTextRead(keys);
    TextReads(keys);
  }

  lemma {:induction false} TextReads(keys: seq<X.ExportKey>)
    requires Writable(keys)
    ensures I.DecodeLines(I.LogicalLines(I.PhysicalLines(X.FileText(keys)), 1)) == Ok(ReadKeys(keys))
  {
    hide I.DecodeLines, I.LogicalLines, I.PhysicalLines, ReadFrom, ReadKeys, X.KeysText;
    var body := X.KeysText(keys);
    Assoc4(HEADER, X.CRLF, X.CRLF, body);
    HeaderRead(X.CRLF + body);
    ReadBlank([], body, 2);
    ReadKeysText([], keys, 3);
    assert [] + ReadKeys(keys) == ReadKeys(keys);
  }

  // ----- what any text can be read as

  predicate OnOneLine(v: I.ImportValue) { '\n' !in v.name }

  /** The keys a reader can give: named on one line, never empty, and a key that is not a removal does not start with
      a minus sign. */
  predicate Readable(key: I.ImportKey) {
    && key.path != "" && '\n' !in key.path
    && (!key.delete ==> key.path[0] != '-')
    && forall i :: 0 <= i < |key.values| ==> OnOneLine(key.values[i])
  }

  predicate AllReadable(keys: seq<I.ImportKey>) {
    forall i :: 0 <= i < |keys| ==> Readable(keys[i])
  }

  predicate NoLineFeed(lines: seq<I.Line>) {
    forall i :: 0 <= i < |lines| ==> '\n' !in lines[i].text
  }

  lemma {:induction false} JoinLinesMember(text: string, rest: seq<string>)
    requires '\n' !in text && forall i :: 0 <= i < |rest| ==> '\n' !in rest[i]
    ensures '\n' !in I.JoinLines(text, rest).0
    decreases |rest|
  {
    if rest != [] && I.Continues(text) {
      TrimMember(text, IsBlank, '\n');
      TrimMember(rest[0], IsBlank, '\n');
      JoinLinesMember(I.Joined(text, rest[0]), rest[1..]);
    }
  }

  lemma {:induction false} LogicalMember(physical: seq<string>, number: nat)
    requires forall i :: 0 <= i < |physical| ==> '\n' !in physical[i]
    ensures NoLineFeed(I.LogicalLines(physical, number))
    decreases |physical|
  {
    if physical != [] {
      var (text, taken) := I.JoinLines(physical[0], physical[1..]);
      JoinLinesMember(physical[0], physical[1..]);
      LogicalMember(physical[1 + taken..], number + 1 + taken);
    }
  }

  lemma {:induction false} UnquotedMember(t: string)
    requires '\n' !in t
    ensures I.Unquoted(t).Some? ==> '\n' !in I.Unquoted(t).value.0
    decreases |t|
  {
    if t != "" && t[0] != '"' {
      var n := I.CharLength(t);
      assert t[n - 1] in t;
      UnquotedMember(t[n..]);
    }
  }

  lemma AfterNameNamed(name: string, rest: string)
    ensures I.AfterName(name, rest).Ok? ==> I.AfterName(name, rest).value.name == name
  {
  }

  lemma ValueNamed(s: string)
    requires '\n' !in s
    ensures I.ValueLine(s).Ok? ==> OnOneLine(I.ValueLine(s).value)
  {
    if "@" <= s {
      AfterNameNamed("", s[1..]);
    } else if "\"" <= s && I.Unquote(s).Some? {
      UnquotedMember(s[1..]);
      AfterNameNamed(I.Unquote(s).value.0, s[I.Unquote(s).value.1..]);
    }
  }

  lemma {:induction false} AddLineReadable(keys: seq<I.ImportKey>, line: I.Line)
    requires '\n' !in line.text && AllReadable(keys)
    ensures I.AddLine(keys, line).Ok? ==> AllReadable(I.AddLine(keys, line).value)
  {
    hide TrimLeft, TrimRight;
    var s := TrimSpace(line.text);
    TrimMember(line.text, IsSpace, '\n');
    TrimMember(TrimLeft(line.text, IsSpace), IsSpace, '\n');
    ValueNamed(s);
  }

  lemma {:induction false} AddLinesReadable(keys: seq<I.ImportKey>, lines: seq<I.Line>)
    requires AllReadable(keys) && NoLineFeed(lines)
    ensures I.AddLines(keys, lines).Ok? ==> AllReadable(I.AddLines(keys, lines).value)
    decreases |lines|
  {
    if lines != [] {
      AddLineReadable(keys, lines[0]);
      match I.AddLine(keys, lines[0])
      case Err(e) =>
      case Ok(more) => AddLinesReadable(more, lines[1..]);
    }
  }

  lemma {:induction false} SkipBlankMember(lines: seq<I.Line>)
    requires NoLineFeed(lines)
    ensures NoLineFeed(I.SkipBlank(lines))
  {
    if lines != [] && TrimSpace(lines[0].text) == "" {
      SkipBlankMember(lines[1..]);
    }
  }

  /** Whatever the bytes are, every key decodeRegFile returns is Readable. */
  lemma DecodeReadable(data: seq<Byte>)
    ensures I.Decode(data).Ok? ==> AllReadable(I.Decode(data).value)
  {
    match I.FileText(data)
    case Err(e) =>
    case Ok(text) =>
      JoinSplit(I.ReplaceCrLf(text), '\n');
      var lines := I.LogicalLines(I.PhysicalLines(text), 1);
      LogicalMember(I.PhysicalLines(text), 1);
      SkipBlankMember(lines);
      var kept := I.SkipBlank(lines);
      if kept != [] {
        AddLinesReadable([], kept[1..]);
      }
  }

  // ----- the theorems

  /** Writing keys and reading the file back gives every key with its values in order, a text REG_SZ ended by exactly
      one NUL, if and only if every path is not empty, does not start with '-' and, like every value name, has no line
      feed in it. Nothing else about a name matters: quotes, backslashes, brackets, blanks and carriage returns come
      back as they are, and so do data of every type and length. */
  lemma RoundTrip(keys: seq<X.ExportKey>)
    ensures I.Decode(X.FileBytes(keys)) == Ok(ReadKeys(keys)) <==> Writable(keys)
  {
    if Writable(keys) {
      WritableReads(keys);
    }
    if I.Decode(X.FileBytes(keys)) == Ok(ReadKeys(keys)) {
      DecodeReadable(X.FileBytes(keys));
      forall i | 0 <= i < |keys|
        ensures WritableKey(keys[i])
      {
        assert Readable(ReadKeys(keys)[i]);
        forall j | 0 <= j < |keys[i].values|
          ensures '\n' !in keys[i].values[j].name
        {
          assert OnOneLine(ReadKey(keys[i]).values[j]);
        }
      }
    }
  }

  /** A value keeps its exact bytes unless it is REG_SZ text, and then exactly when its data ends with one NUL: the
      text, followed by none or by several, comes back followed by one. */
  lemma ReadDataExact(v: X.ExportValue) returns (zeros: seq<Word>)
    ensures IsText(v) ==>
      && v.data == Utf16.ToBytes(Utf16.Encode(X.PlainString(v.data).value) + zeros)
      && (forall i :: 0 <= i < |zeros| ==> zeros[i] == 0)
      && ReadData(v) == Utf16.ToBytes(Utf16.Encode(X.PlainString(v.data).value) + [0])
    ensures ReadData(v) == v.data <==> !IsText(v) || |zeros| == 1
  {
    zeros := [];
    if IsText(v) {
      zeros := X.PlainStringSound(v.data);
      var w := Utf16.Encode(X.PlainString(v.data).value);
      Utf16.ToBytesSnoc(w, 0);
      if |zeros| == 1 {
        assert zeros == [0];
      }
    }
  }

  /** What was read is written and read once more without any change. */
  lemma ReadDataStable(v: X.ExportValue)
    ensures ReadData(v.(data := ReadData(v))) == ReadData(v)
  {
    if IsText(v) {
      var text := X.PlainString(v.data).value;
      var zeros := X.PlainStringSound(v.data);
      Utf16.ToBytesSnoc(Utf16.Encode(text), 0);
      X.PlainStringComplete(text, [0]);
    }
  }
}
