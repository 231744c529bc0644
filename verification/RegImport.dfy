/** The reader of .reg files (vfs/registry_reg_import.go). The functions say what a text means; the methods read it
    with the loops of the source and are proved to agree with them. */
module RegImport {
  import opened Base
  import opened RegFormat
  import Utf8
  import Utf16

  /** One value line read back; a removal is "name"=-. */
  datatype ImportValue =
    | SetValue(name: string, kind: UInt32, data: seq<Byte>)
    | DeleteValue(name: string)

  /** One key section read back; delete is set for "[-path]". */
  datatype ImportKey = ImportKey(path: string, delete: bool, values: seq<ImportValue>)

  datatype ValueError =
    | Unterminated | BadStart | NoEquals | TextAfterQuote | BadDword | NoColon | UnknownKind | BadHexByte | UnknownData

  datatype RegError =
    | OddLength | BadHeader
    | NoClosingBracket(line: nat) | EmptyPath(line: nat) | ValueOutsideKey(line: nat)
    | BadValue(line: nat, cause: ValueError)

  /** A logical line with the number of its first physical line. */
  datatype Line = Line(number: nat, text: string)

  // ----- the text of a file

  /** regFileText: UTF-16LE after its byte order mark, UTF-8 otherwise. */
  function FileText(data: seq<Byte>): Result<string, RegError> {
    if |data| >= 2 && data[0] == 0xFF && data[1] == 0xFE then
      if |data[2..]| % 2 != 0 then Err(OddLength) else Ok(Utf16.Decode(Utf16.FromBytes(data[2..])))
    else Ok(TrimPrefix(Utf8.Runes(data), [0xFEFF as char]))
  }

  /** strings.ReplaceAll(text, "\r\n", "\n") */
  function ReplaceCrLf(s: string): string {
    if s == "" then ""
    else if |s| >= 2 && s[0] == '\r' && s[1] == '\n' then "\n" + ReplaceCrLf(s[2..])
    else [s[0]] + ReplaceCrLf(s[1..])
  }

  function PhysicalLines(text: string): (lines: seq<string>)
    ensures |lines| >= 1
  {
    Split(ReplaceCrLf(text), '\n')
  }

  // ----- logical lines

  /** Whether the last character of s is inside a quoted string, when its first is inside or not. */
  predicate EndsInside(s: string, inside: bool) {
    if s == "" then inside
    else if inside && s[0] == '\\' then |s| == 1 || EndsInside(s[2..], inside)
    else if s[0] == '"' then EndsInside(s[1..], !inside)
    else EndsInside(s[1..], inside)
  }

  /** A line with a next one goes on there when it ends with a backslash outside a quoted string. */
  predicate Continues(text: string) {
    var trimmed := TrimRight(text, IsBlank);
    HasSuffix(trimmed, "\\") && !EndsInside(trimmed, false)
  }

  function Joined(text: string, next: string): string
    requires Continues(text)
  {
    var trimmed := TrimRight(text, IsBlank);
    trimmed[..|trimmed| - 1] + TrimLeft(next, IsBlank)
  }

  /** The logical line that starts with text, and how many of the following physical lines it takes. */
  function JoinLines(text: string, rest: seq<string>): (r: (string, nat))
    ensures r.1 <= |rest|
    decreases |rest|
  {
    if rest == [] || !Continues(text) then (text, 0)
    else
      var r := JoinLines(Joined(text, rest[0]), rest[1..]);
      (r.0, r.1 + 1)
  }

  function LogicalLines(physical: seq<string>, number: nat): seq<Line>
    decreases |physical|
  {
    if physical == [] then []
    else
      var first := JoinLines(physical[0], physical[1..]);
      [Line(number, first.0)] + LogicalLines(physical[1 + first.1..], number + 1 + first.1)
  }

  // ----- values

  /** The characters the next one is written with: two for an escape, unless the text ends there. */
  function CharLength(t: string): (n: nat)
    requires t != ""
    ensures 1 <= n <= |t|
  {
    if t[0] == '\\' && |t| > 1 then 2 else 1
  }

  /** The text of a quoted string read from behind its opening quote, and the characters it took, the closing quote
      included. */
  function Unquoted(t: string): (r: Option<(string, nat)>)
    ensures r.Some? ==> r.value.1 <= |t|
  {
    if t == "" then None
    else if t[0] == '"' then Some(("", 1))
    else
      var n := CharLength(t);
      match Unquoted(t[n..])
      case Some((text, taken)) => Some(([t[n - 1]] + text, n + taken))
      case None => None
  }

  /** regUnquote on text that starts with a quote. */
  function Unquote(s: string): (r: Option<(string, nat)>)
    requires s != ""
    ensures r.Some? ==> r.value.1 <= |s|
  {
    match Unquoted(s[1..])
    case Some((text, taken)) => Some((text, taken + 1))
    case None => None
  }

  function HexByte(part: string): Option<Byte> {
    var digits := TrimSpace(part);
    if |digits| != 2 then None
    else
      match (DigitValue(digits[0]), DigitValue(digits[1]))
      case (Some(high), Some(low)) => Some(16 * high + low)
      case _ => None
  }

  function HexParts(parts: seq<string>): Option<seq<Byte>> {
    if parts == [] then Some([])
    else
      match (HexByte(parts[0]), HexParts(parts[1..]))
      case (Some(b), Some(bytes)) => Some([b] + bytes)
      case _ => None
  }

  /** regHexBytes: comma separated pairs; an empty list is no bytes. */
  function HexBytes(s: string): Option<seq<Byte>> {
    var t := TrimSpace(s);
    if t == "" then Some([]) else HexParts(Split(t, ','))
  }

  function DwordBytes(n: UInt32): (bytes: seq<Byte>)
    ensures |bytes| == 4
  {
    [n % 0x100, n / 0x100 % 0x100, n / 0x1_0000 % 0x100, n / 0x100_0000]
  }

  /** What REG_SZ text is stored as: UTF-16LE with its terminating NUL. */
  function StringData(text: string): seq<Byte> {
    Utf16.ToBytes(Utf16.Encode(text)) + [0, 0]
  }

  /** The type named by "hex" or "hex(N)". */
  function KindValue(kind: string): Option<UInt32> {
    var k := Lower(TrimSpace(kind));
    if k == "hex" then Some(REG_BINARY)
    else if "hex(" <= k && HasSuffix(k[4..], ")") then ParseUint32(k[4..|k| - 1])
    else None
  }

  function HexData(name: string, rest: string): Result<ImportValue, ValueError> {
    var colon := IndexOf(rest, ':');
    if colon == |rest| then Err(NoColon)
    else
      match KindValue(rest[..colon])
      case None => Err(UnknownKind)
      case Some(kind) =>
        match HexBytes(rest[colon + 1..])
        case None => Err(BadHexByte)
        case Some(bytes) => Ok(SetValue(name, kind, bytes))
  }

  /** What follows the equals sign. */
  function ValueData(name: string, rest: string): Result<ImportValue, ValueError> {
    if rest == "-" then Ok(DeleteValue(name))
    else if "\"" <= rest then
      match Unquote(rest)
      case None => Err(Unterminated)
      case Some((text, n)) =>
        if TrimSpace(rest[n..]) != "" then Err(TextAfterQuote) else Ok(SetValue(name, REG_SZ, StringData(text)))
    else if "dword:" <= Lower(rest) then
      match ParseUint32(TrimSpace(rest[6..]))
      case None => Err(BadDword)
      case Some(n) => Ok(SetValue(name, REG_DWORD, DwordBytes(n)))
    else if "hex" <= Lower(rest) then HexData(name, rest)
    else Err(UnknownData)
  }

  function AfterName(name: string, rest: string): Result<ImportValue, ValueError> {
    var s := TrimLeft(rest, IsBlank);
    if "=" <= s then ValueData(name, TrimSpace(s[1..])) else Err(NoEquals)
  }

  /** regParseValueLine */
  function ValueLine(s: string): Result<ImportValue, ValueError> {
    if "@" <= s then AfterName("", s[1..])
    else if "\"" <= s then
      match Unquote(s)
      case None => Err(Unterminated)
      case Some((name, n)) => AfterName(name, s[n..])
    else Err(BadStart)
  }

  // ----- sections

  function SectionPath(s: string): Option<string> {
    if |s| >= 2 && HasSuffix(s, "]") then Some(s[1..|s| - 1]) else None
  }

  function SectionKey(path: string): ImportKey {
    if "-" <= path then ImportKey(path[1..], true, []) else ImportKey(path, false, [])
  }

  /** The keys after one more line. */
  function AddLine(keys: seq<ImportKey>, line: Line): Result<seq<ImportKey>, RegError> {
    var s := TrimSpace(line.text);
    if s == "" || ";" <= s then Ok(keys)
    else if "[" <= s then
      match SectionPath(s)
      case None => Err(NoClosingBracket(line.number))
      case Some(path) =>
        var key := SectionKey(path);
        if key.path == "" then Err(EmptyPath(line.number)) else Ok(keys + [key])
    else if keys == [] || keys[|keys| - 1].delete then Err(ValueOutsideKey(line.number))
    else
      match ValueLine(s)
      case Err(e) => Err(BadValue(line.number, e))
      case Ok(value) =>
        var last := keys[|keys| - 1];
        Ok(keys[|keys| - 1 := last.(values := last.values + [value])])
  }

  function AddLines(keys: seq<ImportKey>, lines: seq<Line>): Result<seq<ImportKey>, RegError>
    decreases |lines|
  {
    if lines == [] then Ok(keys)
    else
      match AddLine(keys, lines[0])
      case Err(e) => Err(e)
      case Ok(more) => AddLines(more, lines[1..])
  }

  /** The lines from the first that is not blank. */
  function SkipBlank(lines: seq<Line>): seq<Line> {
    if lines != [] && TrimSpace(lines[0].text) == "" then SkipBlank(lines[1..]) else lines
  }

  /** The sections behind the header, which is the first line that is not blank. */
  function DecodeLines(lines: seq<Line>): Result<seq<ImportKey>, RegError> {
    var kept := SkipBlank(lines);
    if kept == [] || TrimSpace(kept[0].text) != HEADER then Err(BadHeader) else AddLines([], kept[1..])
  }

  /** decodeRegFile */
  function Decode(data: seq<Byte>): Result<seq<ImportKey>, RegError> {
    match FileText(data)
    case Err(e) => Err(e)
    case Ok(text) => DecodeLines(LogicalLines(PhysicalLines(text), 1))
  }

  // ----- the loops of the source

  method RegEndsInsideQuotes(s: string) returns (inside: bool)
    ensures inside == EndsInside(s, false)
  {
    inside := false;
    var i := 0;
    while i < |s|
      invariant 0 <= i <= |s|
      invariant EndsInside(s, false) == EndsInside(s[i..], inside)
    {
      if inside && s[i] == '\\' {
        if i == |s| - 1 {
          return true;
        }
        i := i + 1;
      } else if s[i] == '"' {
        inside := !inside;
      }
      i := i + 1;
    }
  }

  method RegContinues(text: string, i: nat, physical: seq<string>) returns (b: bool)
    ensures b == (i + 1 < |physical| && Continues(text))
  {
    if i + 1 >= |physical| {
      return false;
    }
    var trimmed := TrimRight(text, IsBlank);
    if !HasSuffix(trimmed, "\\") {
      return false;
    }
    var inside := RegEndsInsideQuotes(trimmed);
    return !inside;
  }

  /** What the lines from text on join to, n lines having been joined to it already. */
  function JoinFurther(text: string, rest: seq<string>, n: nat): (string, nat) {
    (JoinLines(text, rest).0, JoinLines(text, rest).1 + n)
  }

  lemma JoinNext(text: string, physical: seq<string>, i: nat, n: nat)
    requires i + 1 < |physical| && Continues(text)
    ensures JoinFurther(text, physical[i + 1..], n)
         == JoinFurther(Joined(text, physical[i + 1]), physical[i + 2..], n + 1)
  {
    assert physical[i + 1..][0] == physical[i + 1] && physical[i + 1..][1..] == physical[i + 2..];
  }

  /** The next physical line joined to the text. */
  method RegJoinNext(physical: seq<string>, text: string, i: nat, n: nat) returns (joined: string)
    requires i + 1 < |physical| && Continues(text)
    ensures JoinFurther(text, physical[i + 1..], n) == JoinFurther(joined, physical[i + 2..], n + 1)
  {
    JoinNext(text, physical, i, n);
    var trimmed := TrimRight(text, IsBlank);
    joined := trimmed[..|trimmed| - 1] + TrimLeft(physical[i + 1], IsBlank);
  }

  /** The logical line that starts at index start, and the index of its last physical line. */
  method RegJoinLines(physical: seq<string>, start: nat) returns (text: string, i: nat)
    requires start < |physical|
    ensures start <= i < |physical|
    ensures JoinLines(physical[start], physical[start + 1..]) == (text, i - start)
  {
    i, text := start, physical[start];
    ghost var whole := JoinFurther(text, physical[start + 1..], 0);
    var more := RegContinues(text, i, physical);
    while more
      invariant start <= i < |physical|
      invariant more == (i + 1 < |physical| && Continues(text))
      invariant JoinFurther(text, physical[i + 1..], i - start) == whole
      decreases |physical| - i
    {
      text := RegJoinNext(physical, text, i, i - start);
      i := i + 1;
      more := RegContinues(text, i, physical);
    }
  }

  method RegLogicalLines(text: string) returns (out: seq<Line>)
    ensures out == LogicalLines(PhysicalLines(text), 1)
  {
    hide JoinLines, LogicalLines, PhysicalLines;
    var physical := PhysicalLines(text);
    out := [];
    var i := 0;
    while i < |physical|
      invariant 0 <= i <= |physical|
      invariant LogicalLines(physical, 1) == out + LogicalLines(physical[i..], i + 1)
    {
      var joined, last := RegJoinLines(physical, i);
      LogicalStep(physical, i, out, Line(i + 1, joined), last);
      out := out + [Line(i + 1, joined)];
      i := last + 1;
    }
    NoLines(i + 1);
    assert physical[i..] == [] && out + [] == out;
  }

  lemma NoLines(number: nat)
    ensures LogicalLines([], number) == []
  {
  }

  lemma SliceOfSlice(physical: seq<string>, start: nat, last: nat)
    requires start <= last < |physical|
    ensures physical[start..][1..] == physical[start + 1..]
    ensures physical[start..][1 + (last - start)..] == physical[last + 1..]
  {
  }

  lemma {:induction false} LogicalStep(physical: seq<string>, start: nat, out: seq<Line>, line: Line, last: nat)
    requires start <= last < |physical| && line.number == start + 1
    requires IsJoined(physical[start..], line.text, last - start)
    ensures out + LogicalLines(physical[start..], start + 1)
         == (out + [line]) + LogicalLines(physical[last + 1..], last + 2)
  {
    hide JoinLines, LogicalLines;
    var rest, left := physical[start..], physical[last + 1..];
    SliceOfSlice(physical, start, last);
    StepTo(rest, left, start + 1, out, line, last - start);
  }

  lemma {:induction false} StepTo(rest: seq<string>, left: seq<string>, number: nat, out: seq<Line>, line: Line,
                                  taken: nat)
    requires IsJoined(rest, line.text, taken) && left == rest[1 + taken..] && line.number == number
    ensures out + LogicalLines(rest, number) == (out + [line]) + LogicalLines(left, number + 1 + taken)
  {
    FirstLine(rest, number, line.text, taken);
    Assoc(out, [line], LogicalLines(left, number + 1 + taken));
  }

  /** The first logical line and how many of the following physical lines it takes. */
  predicate IsJoined(lines: seq<string>, text: string, taken: nat) {
    && lines != [] && taken < |lines|
    && JoinLines(lines[0], lines[1..]).0 == text && JoinLines(lines[0], lines[1..]).1 == taken
  }

  lemma {:induction false} FirstLine(lines: seq<string>, number: nat, text: string, taken: nat)
    requires IsJoined(lines, text, taken)
    ensures LogicalLines(lines, number) == [Line(number, text)] + LogicalLines(lines[1 + taken..], number + 1 + taken)
  {
    hide JoinLines;
  }

  /** What Unquoted found behind k characters whose text is already known. */
  function Behind(known: string, k: nat, r: Option<(string, nat)>): Option<(string, nat)> {
    match r
    case Some((text, n)) => Some((known + text, k + n))
    case None => None
  }

  lemma BehindStep(known: string, k: nat, c: char, n: nat, r: Option<(string, nat)>)
    ensures Behind(known, k, Behind([c], n, r)) == Behind(known + [c], k + n, r)
  {
    match r
    case None =>
    case Some((text, taken)) => Assoc(known, [c], text);
  }

  lemma UnquotedStep(known: string, k: nat, t: string)
    requires t != "" && t[0] != '"'
    ensures var n := CharLength(t);
            Behind(known, k, Unquoted(t)) == Behind(known + [t[n - 1]], k + n, Unquoted(t[n..]))
  {
    var n := CharLength(t);
    assert Unquoted(t) == Behind([t[n - 1]], n, Unquoted(t[n..]));
    BehindStep(known, k, t[n - 1], n, Unquoted(t[n..]));
  }

  lemma BehindStart(s: string)
    requires s != ""
    ensures Unquote(s) == Behind("", 1, Unquoted(s[1..]))
  {
    match Unquoted(s[1..])
    case None =>
    case Some((text, n)) => assert "" + text == text;
  }

  method RegUnquote(s: string) returns (r: Option<(string, nat)>)
    requires s != ""
    ensures r == Unquote(s)
  {
    var out := "";
    var i := 1;
    BehindStart(s);
    while i < |s|
      invariant 1 <= i <= |s|
      invariant Unquote(s) == Behind(out, i, Unquoted(s[i..]))
    {
      ghost var t := s[i..];
      if s[i] == '\\' && i + 1 < |s| {
        UnquotedStep(out, i, t);
        assert t[2..] == s[i + 2..];
        i := i + 1;
      } else if s[i] == '"' {
        assert out + "" == out;
        return Some((out, i + 1));
      } else {
        UnquotedStep(out, i, t);
        assert t[1..] == s[i + 1..];
      }
      out := out + [s[i]];
      i := i + 1;
    }
    return None;
  }

  function After(known: seq<Byte>, r: Option<seq<Byte>>): Option<seq<Byte>> {
    match r
    case Some(bytes) => Some(known + bytes)
    case None => None
  }

  lemma AfterNothing(r: Option<seq<Byte>>)
    ensures After([], r) == r
  {
    match r
    case None =>
    case Some(bytes) => assert [] + bytes == bytes;
  }

  lemma AfterAll(known: seq<Byte>)
    ensures After(known, HexParts([])) == Some(known)
  {
    assert known + [] == known;
  }

  lemma HexPartsStep(known: seq<Byte>, parts: seq<string>)
    requires parts != []
    ensures var b := HexByte(parts[0]);
            After(known, HexParts(parts)) == if b.None? then None else After(known + [b.value], HexParts(parts[1..]))
  {
    match (HexByte(parts[0]), HexParts(parts[1..]))
    case (Some(b), Some(bytes)) => Assoc(known, [b], bytes);
    case _ =>
  }

  method RegHexBytes(s: string) returns (r: Option<seq<Byte>>)
    ensures r == HexBytes(s)
  {
    var t := TrimSpace(s);
    if t == "" {
      return Some([]);
    }
    var parts := Split(t, ',');
    var out: seq<Byte> := [];
    AfterNothing(HexParts(parts));
    assert parts[0..] == parts;
    for k := 0 to |parts|
      invariant HexBytes(s) == After(out, HexParts(parts[k..]))
    {
      HexPartsStep(out, parts[k..]);
      assert parts[k..][1..] == parts[k + 1..];
      var b := HexByte(parts[k]);
      if b.None? {
        return None;
      }
      out := out + [b.value];
    }
    AfterAll(out);
    return Some(out);
  }

  /** The body of decodeRegFile's loop. */
  method RegAddLine(keys: seq<ImportKey>, line: Line) returns (r: Result<seq<ImportKey>, RegError>)
    ensures r == AddLine(keys, line)
  {
    var s := TrimSpace(line.text);
    if s == "" || ";" <= s {
      return Ok(keys);
    }
    if "[" <= s {
      if !HasSuffix(s, "]") {
        return Err(NoClosingBracket(line.number));
      }
      var path := s[1..|s| - 1];
      var key := ImportKey(path, false, []);
      if "-" <= path {
        key := ImportKey(path[1..], true, []);
      }
      if key.path == "" {
        return Err(EmptyPath(line.number));
      }
      return Ok(keys + [key]);
    }
    if |keys| == 0 || keys[|keys| - 1].delete {
      return Err(ValueOutsideKey(line.number));
    }
    var value := ValueLine(s);
    if value.Err? {
      return Err(BadValue(line.number, value.error));
    }
    var last := keys[|keys| - 1];
    return Ok(keys[|keys| - 1 := last.(values := last.values + [value.value])]);
  }

  /** decodeRegFile's passes over the lines: the blank ones, the header, then one after the other into the keys. */
  method RegReadLines(lines: seq<Line>) returns (r: Result<seq<ImportKey>, RegError>)
    ensures r == DecodeLines(lines)
  {
    var i := 0;
    while i < |lines| && TrimSpace(lines[i].text) == ""
      invariant 0 <= i <= |lines|
      invariant SkipBlank(lines) == SkipBlank(lines[i..])
    {
      i := i + 1;
    }
    assert SkipBlank(lines) == lines[i..];
    if i == |lines| || TrimSpace(lines[i].text) != HEADER {
      return Err(BadHeader);
    }
    r := RegAddLines(lines[i + 1..]);
  }

  method RegAddLines(lines: seq<Line>) returns (r: Result<seq<ImportKey>, RegError>)
    ensures r == AddLines([], lines)
  {
    var keys: seq<ImportKey> := [];
    for i := 0 to |lines|
      invariant AddLines([], lines) == AddLines(keys, lines[i..])
    {
      assert lines[i..][1..] == lines[i + 1..];
      var added := RegAddLine(keys, lines[i]);
      if added.Err? {
        return added;
      }
      keys := added.value;
    }
    return Ok(keys);
  }

  method DecodeRegFile(data: seq<Byte>) returns (r: Result<seq<ImportKey>, RegError>)
    ensures r == Decode(data)
  {
    var text := FileText(data);
    if text.Err? {
      return Err(text.error);
    }
    var lines := RegLogicalLines(text.value);
    r := RegReadLines(lines);
  }
}
