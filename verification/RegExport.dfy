/** The writer of .reg files (vfs/registry_reg_export.go). The functions say what text a list of keys becomes;
    the methods build that text and its bytes the way the source does. */
module RegExport {
  import opened Base
  import opened RegFormat
  import Utf8
  import Utf16

  datatype ExportValue = ExportValue(name: string, kind: UInt32, data: seq<Byte>)

  datatype ExportKey = ExportKey(path: string, values: seq<ExportValue>)

  // ----- what is written

  function QuoteChar(c: char): string {
    if c == '\\' || c == '"' then ['\\', c] else [c]
  }

  function Quote(s: string): string {
    if s == "" then "" else QuoteChar(s[0]) + Quote(s[1..])
  }

  function TrimZeros(w: seq<Word>): seq<Word> {
    if w != [] && w[|w| - 1] == 0 then TrimZeros(w[..|w| - 1]) else w
  }

  /** No NUL and no line break. */
  predicate IsPlain(w: seq<Word>) {
    0 !in w && 13 !in w && 10 !in w
  }

  /** The text of REG_SZ data that can be written between quotes. */
  function PlainString(data: seq<Byte>): Option<string> {
    if |data| % 2 != 0 then None
    else
      var words := TrimZeros(Utf16.FromBytes(data));
      var text := Utf16.Decode(words);
      if IsPlain(words) && Utf16.RUNE_ERROR !in text then Some(text) else None
  }

  /** The i-th byte as it stands in a list: two digits and, unless it is the last, a comma. */
  function HexPair(data: seq<Byte>, i: nat): string
    requires i < |data|
  {
    HexPadded(data[i], 2) + if i < |data| - 1 then "," else ""
  }

  const WRAP: string := "\\\r\n  "

  /** Whether the i-th byte goes to a new line when the current one is already width bytes wide. */
  predicate Wraps(data: seq<Byte>, i: nat, width: nat)
    requires i < |data|
  {
    width + |HexPair(data, i)| > LINE_WIDTH - 1 && i > 0
  }

  function HexPiece(data: seq<Byte>, i: nat, width: nat): string
    requires i < |data|
  {
    (if Wraps(data, i, width) then WRAP else "") + HexPair(data, i)
  }

  function NextWidth(data: seq<Byte>, i: nat, width: nat): nat
    requires i < |data|
  {
    (if Wraps(data, i, width) then 2 else width) + |HexPair(data, i)|
  }

  /** The bytes from i on, when the line they go to is already width bytes wide. */
  function HexFrom(data: seq<Byte>, i: nat, width: nat): string
    decreases |data| - i
  {
    if i >= |data| then ""
    else HexPiece(data, i, width) + HexFrom(data, i + 1, NextWidth(data, i, width))
  }

  /** The prefix and the bytes; the width counts the bytes of the prefix, not its characters. */
  function HexLines(prefix: string, data: seq<Byte>): string {
    prefix + HexFrom(data, 0, |Utf8.Encode(prefix)|)
  }

  function NameText(name: string): string {
    if name == "" then "@" else "\"" + Quote(name) + "\""
  }

  function DwordValue(data: seq<Byte>): UInt32
    requires |data| == 4
  {
    data[0] as int + 0x100 * (data[1] as int + 0x100 * (data[2] as int + 0x100 * (data[3] as int)))
  }

  function KindText(kind: UInt32): string {
    if kind == REG_BINARY then "hex" else "hex(" + HexNumber(kind) + ")"
  }

  /** regValueLine: the string form, the dword form, or the hex form for everything else. */
  function ValueLine(v: ExportValue): string {
    var name := NameText(v.name);
    if v.kind == REG_SZ && PlainString(v.data).Some? then name + "=\"" + Quote(PlainString(v.data).value) + "\""
    else if v.kind == REG_DWORD && |v.data| == 4 then name + "=dword:" + HexPadded(DwordValue(v.data), 8)
    else HexLines(name + "=" + KindText(v.kind) + ":", v.data)
  }

  const CRLF: string := "\r\n"

  function ValueText(v: ExportValue): string {
    ValueLine(v) + CRLF
  }

  function ValuesText(values: seq<ExportValue>): string {
    FlatMap(ValueText, values)
  }

  function PathLine(path: string): string {
    "[" + path + "]"
  }

  /** One section: the path in brackets, the value lines and an empty line. */
  function KeyText(key: ExportKey): string {
    PathLine(key.path) + CRLF + ValuesText(key.values) + CRLF
  }

  function KeysText(keys: seq<ExportKey>): string {
    FlatMap(KeyText, keys)
  }

  function FileText(keys: seq<ExportKey>): string {
    HEADER + CRLF + CRLF + KeysText(keys)
  }

  const BOM: seq<Byte> := [0xFF, 0xFE]

  /** encodeRegFile: the text as UTF-16LE after a byte order mark. */
  function FileBytes(keys: seq<ExportKey>): seq<Byte> {
    BOM + Utf16.ToBytes(Utf16.Encode(FileText(keys)))
  }

  // ----- facts about the string form

  lemma {:induction false} TrimZerosSplit(w: seq<Word>)
    ensures |TrimZeros(w)| <= |w| && w[..|TrimZeros(w)|] == TrimZeros(w)
    ensures forall i :: |TrimZeros(w)| <= i < |w| ==> w[i] == 0
    ensures TrimZeros(w) != [] ==> TrimZeros(w)[|TrimZeros(w)| - 1] != 0
  {
    if w != [] && w[|w| - 1] == 0 {
      TrimZerosSplit(w[..|w| - 1]);
    }
  }

  lemma {:induction false} TrimZerosAppend(w: seq<Word>, zeros: seq<Word>)
    requires 0 !in w
    requires forall i :: 0 <= i < |zeros| ==> zeros[i] == 0
    ensures TrimZeros(w + zeros) == w
    decreases |zeros|
  {
    if zeros == [] {
      assert w + zeros == w;
    } else {
      assert (w + zeros)[..|w + zeros| - 1] == w + zeros[..|zeros| - 1];
      TrimZerosAppend(w, zeros[..|zeros| - 1]);
    }
  }

  /** The words of REG_SZ data that are kept as text: what regPlainString accepts is that text in UTF-16 followed by
      zero words only, and the text shows no NUL, line break or replacement character. */
  lemma PlainStringSound(data: seq<Byte>) returns (zeros: seq<Word>)
    requires PlainString(data).Some?
    ensures forall i :: 0 <= i < |zeros| ==> zeros[i] == 0
    ensures data == Utf16.ToBytes(Utf16.Encode(PlainString(data).value) + zeros)
    ensures '\0' !in PlainString(data).value && '\r' !in PlainString(data).value && '\n' !in PlainString(data).value
    ensures Utf16.RUNE_ERROR !in PlainString(data).value
  {
    var words := Utf16.FromBytes(data);
    var kept := TrimZeros(words);
    var text := PlainString(data).value;
    TrimZerosSplit(words);
    zeros := words[|kept|..];
    assert words == kept + zeros;
    Utf16.ToFromBytes(data);
    PlainWords(kept, text);
  }

  lemma PlainWords(kept: seq<Word>, text: string)
    requires IsPlain(kept) && text == Utf16.Decode(kept) && Utf16.RUNE_ERROR !in text
    ensures kept == Utf16.Encode(text)
    ensures '\0' !in text && '\r' !in text && '\n' !in text
  {
    Utf16.EncodeDecode(kept);
    Utf16.EncodeMember(text, '\0');
    Utf16.EncodeMember(text, '\r');
    Utf16.EncodeMember(text, '\n');
  }

  /** Conversely every such data is accepted, with that text. */
  lemma PlainStringComplete(text: string, zeros: seq<Word>)
    requires '\0' !in text && '\r' !in text && '\n' !in text && Utf16.RUNE_ERROR !in text
    requires forall i :: 0 <= i < |zeros| ==> zeros[i] == 0
    ensures PlainString(Utf16.ToBytes(Utf16.Encode(text) + zeros)) == Some(text)
  {
    var w := Utf16.Encode(text);
    Utf16.EncodeMember(text, '\0');
    Utf16.EncodeMember(text, '\r');
    Utf16.EncodeMember(text, '\n');
    Utf16.FromToBytes(w + zeros);
    TrimZerosAppend(w, zeros);
    Utf16.DecodeEncode(text);
  }

  // ----- the loops of the source

  method RegPlainString(data: seq<Byte>) returns (text: Option<string>)
    ensures text == PlainString(data)
  {
    if |data| % 2 != 0 {
      return None;
    }
    var words := new Word[|data| / 2];
    var i := 0;
    while i < words.Length
      invariant 0 <= i <= words.Length
      invariant words[..i] == Utf16.FromBytes(data)[..i]
    {
      Utf16.FromBytesAt(data, i);
      words[i] := Utf16.WordAt(data, 2 * i);
      i := i + 1;
    }
    var n := words.Length;
    assert words[..n] == Utf16.FromBytes(data);
    while n > 0 && words[n - 1] == 0
      invariant 0 <= n <= words.Length
      invariant TrimZeros(Utf16.FromBytes(data)) == TrimZeros(words[..n])
    {
      assert words[..n][..n - 1] == words[..n - 1];
      n := n - 1;
    }
    ghost var kept := TrimZeros(Utf16.FromBytes(data));
    assert kept == words[..n];
    for j := 0 to n
      invariant IsPlain(words[..j])
    {
      if words[j] == 0 || words[j] == 13 || words[j] == 10 {
        assert words[j] in words[..n];
        return None;
      }
      assert words[..j + 1] == words[..j] + [words[j]];
    }
    var decoded := Utf16.Decode(words[..n]);
    if Utf16.RUNE_ERROR in decoded {
      return None;
    }
    return Some(decoded);
  }

  lemma HexFromStep(out: string, data: seq<Byte>, i: nat, width: nat)
    requires i < |data|
    ensures out + HexFrom(data, i, width)
            == (out + HexPiece(data, i, width)) + HexFrom(data, i + 1, NextWidth(data, i, width))
  {
    Assoc(out, HexPiece(data, i, width), HexFrom(data, i + 1, NextWidth(data, i, width)));
  }

  method RegHexLines(prefix: string, data: seq<Byte>) returns (out: string)
    ensures out == HexLines(prefix, data)
  {
    out := prefix;
    var width: nat := |Utf8.Encode(prefix)|;
    for i := 0 to |data|
      invariant HexLines(prefix, data) == out + HexFrom(data, i, width)
    {
      HexFromStep(out, data, i, width);
      ghost var before := width;
      var pair := HexPadded(data[i], 2) + if i < |data| - 1 then "," else "";
      var wrap := "";
      if width + |pair| > LINE_WIDTH - 1 && i > 0 {
        wrap := WRAP;
        width := 2;
      }
      assert pair == HexPair(data, i) && wrap + pair == HexPiece(data, i, before);
      out := out + (wrap + pair);
      width := width + |pair|;
    }
    assert out + "" == out;
  }

  method RegValueLine(v: ExportValue) returns (line: string)
    ensures line == ValueLine(v)
  {
    var name := "@";
    if v.name != "" {
      name := "\"" + Quote(v.name) + "\"";
    }
    if v.kind == REG_SZ {
      var text := RegPlainString(v.data);
      if text.Some? {
        return name + "=\"" + Quote(text.value) + "\"";
      }
    } else if v.kind == REG_DWORD {
      if |v.data| == 4 {
        return name + "=dword:" + HexPadded(DwordValue(v.data), 8);
      }
    }
    var kind := "hex";
    if v.kind != REG_BINARY {
      kind := "hex(" + HexNumber(v.kind) + ")";
    }
    line := RegHexLines(name + "=" + kind + ":", v.data);
  }

  method RegValuesText(values: seq<ExportValue>) returns (text: string)
    ensures text == ValuesText(values)
  {
    text := "";
    for j := 0 to |values|
      invariant text == ValuesText(values[..j])
    {
      var line := RegValueLine(values[j]);
      FlatMapTo(ValueText, values, j);
      text := text + (line + CRLF);
    }
    assert values[..|values|] == values;
  }

  method RegKeysText(keys: seq<ExportKey>) returns (text: string)
    ensures text == KeysText(keys)
  {
    text := "";
    for i := 0 to |keys|
      invariant text == KeysText(keys[..i])
    {
      var values := RegValuesText(keys[i].values);
      FlatMapTo(KeyText, keys, i);
      text := text + (PathLine(keys[i].path) + CRLF + values + CRLF);
    }
    assert keys[..|keys|] == keys;
  }

  method EncodeRegFile(keys: seq<ExportKey>) returns (out: array<Byte>)
    ensures fresh(out)
    ensures out[..] == FileBytes(keys)
  {
    var sections := RegKeysText(keys);
    var text := HEADER + CRLF + CRLF + sections;
    out := PutText(text);
  }

  /** The text as UTF-16LE after a byte order mark. */
  method PutText(text: string) returns (out: array<Byte>)
    ensures fresh(out)
    ensures out[..] == BOM + Utf16.ToBytes(Utf16.Encode(text))
  {
    var words := Utf16.Encode(text);
    out := new Byte[2 + 2 * |words|];
    out[0], out[1] := 0xFF, 0xFE;
    Utf16.PutWords(out, 2, words);
    assert out[..] == out[..2] + out[2..2 + 2 * |words|];
  }
}
