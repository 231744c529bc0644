/** The value lines of .reg files as a grammar (regParseValueLine, vfs/registry_reg_import.go): exactly which text is
    read as which value. Of what the reader uses, the grammar uses only what counts as a space. */
module RegGrammar {
  import opened Base
  import opened RegFormat
  import I = RegImport
  import R = RegRoundTrip
  import T = RegText

  // ----- blanks

  predicate AreSpaces(s: string) {
    forall i :: 0 <= i < |s| ==> IsSpace(s[i])
  }

  predicate AreBlanks(s: string) {
    forall i :: 0 <= i < |s| ==> s[i] == ' ' || s[i] == '\t'
  }

  predicate IsTrimmed(m: string) {
    m == "" || (!IsSpace(m[0]) && !IsSpace(m[|m| - 1]))
  }

  /** s is m with blanks around it. */
  ghost predicate IsAround(s: string, m: string) {
    IsTrimmed(m) && exists a, b :: AreSpaces(a) && AreSpaces(b) && s == a + m + b
  }

  lemma {:induction false} LeftCut(s: string, cut: char -> bool) returns (a: string)
    ensures var m := TrimLeft(s, cut); s == a + m && (m == "" || !cut(m[0]))
    ensures forall i :: 0 <= i < |a| ==> cut(a[i])
    decreases |s|
  {
    a := "";
    if s != "" && cut(s[0]) {
      a := LeftCut(s[1..], cut);
      a := [s[0]] + a;
    }
  }

  lemma {:induction false} RightCut(s: string, cut: char -> bool) returns (b: string)
    ensures var m := TrimRight(s, cut); s == m + b && (m == "" || !cut(m[|m| - 1]))
    ensures forall i :: 0 <= i < |b| ==> cut(b[i])
    decreases |s|
  {
    b := "";
    if s != "" && cut(s[|s| - 1]) {
      b := RightCut(s[..|s| - 1], cut);
      b := b + [s[|s| - 1]];
    }
  }

  lemma {:induction false} LeftDropped(a: string, m: string, cut: char -> bool)
    requires forall i :: 0 <= i < |a| ==> cut(a[i])
    requires m == "" || !cut(m[0])
    ensures TrimLeft(a + m, cut) == m
    decreases |a|
  {
    if a == "" {
      assert a + m == m;
    } else {
      assert (a + m)[0] == a[0] && (a + m)[1..] == a[1..] + m;
      LeftDropped(a[1..], m, cut);
    }
  }

  lemma {:induction false} RightDropped(m: string, b: string, cut: char -> bool)
    requires forall i :: 0 <= i < |b| ==> cut(b[i])
    requires m == "" || !cut(m[|m| - 1])
    ensures TrimRight(m + b, cut) == m
    decreases |b|
  {
    if b == "" {
      assert m + b == m;
    } else {
      var last := |b| - 1;
      assert (m + b)[|m + b| - 1] == b[last] && (m + b)[..|m + b| - 1] == m + b[..last];
      RightDropped(m, b[..last], cut);
    }
  }

  /** Trimming finds what the blanks are around, and nothing else. */
  lemma TrimmedExactly(s: string, m: string)
    ensures TrimSpace(s) == m <==> IsAround(s, m)
  {
    TrimmedFound(s);
    if IsAround(s, m) {
      TrimmedOnly(s, m);
    }
  }

  lemma TrimmedFound(s: string)
    ensures IsAround(s, TrimSpace(s))
  {
    hide TrimLeft, TrimRight, IsSpace;
    var a := LeftCut(s, IsSpace);
    var t := TrimLeft(s, IsSpace);
    var b := RightCut(t, IsSpace);
    var m := TrimRight(t, IsSpace);
    assert AreSpaces(a) && AreSpaces(b) && s == a + m + b;
    assert m != "" ==> m[0] == t[0];
  }

  lemma TrimmedOnly(s: string, m: string)
    requires IsAround(s, m)
    ensures TrimSpace(s) == m
  {
    var a, b :| AreSpaces(a) && AreSpaces(b) && s == a + m + b;
    if m == "" {
      assert a + m + b == (a + b) + "";
      LeftDropped(a + b, "", IsSpace);
    } else {
      Assoc(a, m, b);
      LeftDropped(a, m + b, IsSpace);
      RightDropped(m, b, IsSpace);
    }
  }

  // ----- quoted text

  /** A spelling of a text between quotes: a backslash keeps the character behind it as it is, and a quote needs one. */
  predicate Spells(raw: string, text: string)
    decreases |raw|
  {
    if raw == "" then text == ""
    else if raw[0] == '\\' then |raw| >= 2 && text != "" && text[0] == raw[1] && Spells(raw[2..], text[1..])
    else raw[0] != '"' && text != "" && text[0] == raw[0] && Spells(raw[1..], text[1..])
  }

  ghost predicate IsQuoted(s: string, text: string) {
    |s| >= 2 && s[0] == '"' && s[|s| - 1] == '"' && Spells(s[1..|s| - 1], text)
  }

  lemma {:induction false} SpelledRead(raw: string, text: string, rest: string)
    requires Spells(raw, text)
    ensures I.Unquoted(raw + ("\"" + rest)) == Some((text, |raw| + 1))
    decreases |raw|
  {
    var t := raw + ("\"" + rest);
    if raw != "" {
      var n := if raw[0] == '\\' then 2 else 1;
      assert t[n..] == raw[n..] + ("\"" + rest) && t[n - 1] == raw[n - 1];
      SpelledRead(raw[n..], text[1..], rest);
      assert [text[0]] + text[1..] == text;
    }
  }

  lemma {:induction false} ReadSpelled(t: string)
    requires I.Unquoted(t).Some?
    ensures var (text, n) := I.Unquoted(t).value; 1 <= n && t[n - 1] == '"' && Spells(t[..n - 1], text)
    decreases |t|
  {
    if t[0] != '"' {
      var k := I.CharLength(t);
      ReadSpelled(t[k..]);
      var (text, n) := I.Unquoted(t).value;
      assert t[..n - 1][k..] == t[k..][..n - 1 - k];
      assert text[1..] == I.Unquoted(t[k..]).value.0;
    } else {
      assert t[..0] == "";
    }
  }

  /** A quoted string at the start is read, whatever follows; nothing is read where there is none. */
  lemma QuotedRead(q: string, text: string, rest: string)
    requires IsQuoted(q, text)
    ensures I.Unquote(q + rest) == Some((text, |q|)) && (q + rest)[|q|..] == rest
  {
    var raw := q[1..|q| - 1];
    assert (q + rest)[1..] == raw + ("\"" + rest);
    SpelledRead(raw, text, rest);
  }

  lemma ReadQuoted(s: string)
    requires s != "" && s[0] == '"' && I.Unquote(s).Some?
    ensures var (text, n) := I.Unquote(s).value; IsQuoted(s[..n], text)
  {
    ReadSpelled(s[1..]);
    var (_, n) := I.Unquote(s).value;
    assert s[..n][1..|s[..n]| - 1] == s[1..][..n - 2];
  }

  // ----- numbers

  /** A hexadecimal digit of either case. */
  predicate IsDigit(c: char, n: nat) {
    n < 16 && (c == "0123456789abcdef"[n] || c == "0123456789ABCDEF"[n])
  }

  predicate IsNumber(s: string, n: nat)
    decreases |s|
  {
    if s == "" then n == 0 else IsDigit(s[|s| - 1], n % 16) && IsNumber(s[..|s| - 1], n / 16)
  }

  lemma DigitExactly(c: char, n: nat)
    ensures DigitValue(c) == Some(n) <==> IsDigit(c, n)
  {
  }

  lemma DigitsOf(high: nat, low: nat)
    requires low < 16
    ensures (16 * high + low) / 16 == high && (16 * high + low) % 16 == low
  {
  }

  lemma {:induction false} NumberExactly(s: string, n: nat)
    ensures HexValue(s) == Some(n) <==> IsNumber(s, n)
    decreases |s|
  {
    hide DigitValue, IsDigit;
    if s != "" {
      var high, c := s[..|s| - 1], s[|s| - 1];
      DigitExactly(c, n % 16);
      NumberExactly(high, n / 16);
      if HexValue(s) == Some(n) {
        DigitsOf(HexValue(high).value, DigitValue(c).value);
      }
    }
  }

  /** A word in letters of either case. */
  predicate IsWord(s: string, word: string) {
    && |s| == |word|
    && forall i :: 0 <= i < |s| ==>
         s[i] == word[i] || ('a' <= word[i] <= 'z' && s[i] as int + 32 == word[i] as int)
  }

  lemma WordExactly(s: string, word: string)
    requires forall i :: 0 <= i < |word| ==> !('A' <= word[i] <= 'Z')
    ensures Lower(s) == word <==> IsWord(s, word)
  {
    if IsWord(s, word) {
      assert forall i :: 0 <= i < |s| ==> Lower(s)[i] == word[i];
    }
    if Lower(s) == word {
      forall i | 0 <= i < |s|
        ensures LowerChar(s[i]) == word[i]
      {
        assert Lower(s)[i] == word[i];
      }
    }
  }

  lemma {:induction false} NumberAnyCase(s: string, n: nat)
    ensures IsNumber(Lower(s), n) <==> IsNumber(s, n)
    decreases |s|
  {
    if s != "" {
      var last := |s| - 1;
      NumberAnyCase(s[..last], n / 16);
      assert Lower(s)[..last] == Lower(s[..last]);
      assert IsDigit(LowerChar(s[last]), n % 16) <==> IsDigit(s[last], n % 16);
    }
  }

  // ----- the data of a value

  ghost predicate IsDword(d: string, n: UInt32) {
    && |d| >= 6 && IsWord(d[..6], "dword:")
    && exists digits :: digits != "" && IsAround(d[6..], digits) && IsNumber(digits, n)
  }

  /** hex is binary data, hex(n) the type n in hexadecimal. */
  predicate NamesKind(core: string, kind: nat) {
    || (IsWord(core, "hex") && kind == 3)
    || (&& |core| > 5 && IsWord(core[..4], "hex(") && core[|core| - 1] == ')'
        && IsNumber(core[4..|core| - 1], kind) && kind < 0x1_0000_0000)
  }

  ghost predicate IsKind(k: string, kind: nat) {
    exists core :: IsAround(k, core) && NamesKind(core, kind)
  }

  /** Two digits. */
  ghost predicate IsByte(part: string, b: Byte) {
    exists m :: IsAround(part, m) && |m| == 2 && IsDigit(m[0], b / 16) && IsDigit(m[1], b % 16)
  }

  ghost predicate AreBytes(parts: seq<string>, data: Bytes) {
    |parts| == |data| && forall i :: 0 <= i < |data| ==> IsByte(parts[i], data[i])
  }

  /** Bytes with commas between them, or nothing. */
  ghost predicate IsList(s: string, data: Bytes) {
    exists m :: IsAround(s, m) && if m == "" then data == [] else AreBytes(Split(m, ','), data)
  }

  ghost predicate IsHex(d: string, kind: nat, data: Bytes) {
    exists i :: 0 <= i < |d| && d[i] == ':' && ':' !in d[..i] && IsKind(d[..i], kind) && IsList(d[i + 1..], data)
  }

  ghost predicate IsText(d: string, data: Bytes) {
    exists text :: IsQuoted(d, text) && data == T.Utf16Bytes(text) + [0, 0]
  }

  function LittleEndian(n: UInt32): Bytes {
    [n % 0x100, n / 0x100 % 0x100, n / 0x1_0000 % 0x100, n / 0x100_0000]
  }

  ghost predicate IsNumberData(d: string, data: Bytes) {
    exists n: UInt32 :: IsDword(d, n) && data == LittleEndian(n)
  }

  /** What stands behind the equals sign. */
  ghost predicate IsData(d: string, v: I.ImportValue) {
    if v.DeleteValue? then d == "-"
    else (v.kind == 1 && IsText(d, v.data)) || (v.kind == 4 && IsNumberData(d, v.data)) || IsHex(d, v.kind, v.data)
  }

  // ----- it is what is read

  lemma Uint32Exactly(s: string, n: nat)
    ensures ParseUint32(s) == Some(n) <==> s != "" && IsNumber(s, n) && n < 0x1_0000_0000
  {
    NumberExactly(s, n);
  }

  lemma KindExactly(k: string, kind: nat)
    ensures I.KindValue(k) == Some(kind) <==> IsKind(k, kind)
  {
    hide TrimSpace, ParseUint32, IsNumber, IsWord;
    var core := TrimSpace(k);
    TrimmedExactly(k, core);
    TrimSpaceStop(core);
    CoreExactly(core, kind);
    if IsKind(k, kind) {
      var m :| IsAround(k, m) && NamesKind(m, kind);
      TrimmedExactly(k, m);
    }
  }

  lemma CoreExactly(core: string, kind: nat)
    requires TrimSpace(core) == core
    ensures I.KindValue(core) == Some(kind) <==> NamesKind(core, kind)
  {
    hide TrimSpace, ParseUint32, IsNumber, IsWord, Lower, HasSuffix;
    var low := Lower(core);
    WordExactly(core, "hex");
    if |core| >= 5 {
      Brackets(core);
      var digits := core[4..|core| - 1];
      LowerParts(core, 4);
      NumberAnyCase(digits, kind);
      Uint32Exactly(Lower(digits), kind);
    } else {
      NoBrackets(core);
    }
  }

  lemma Brackets(core: string)
    requires |core| >= 5
    ensures var low := Lower(core);
            "hex(" <= low && HasSuffix(low[4..], ")") <==> IsWord(core[..4], "hex(") && core[|core| - 1] == ')'
  {
    hide IsWord, Lower;
    var low := Lower(core);
    LowerParts(core, 4);
    WordExactly(core[..4], "hex(");
    LowerLast(core, ')');
    var rest := low[4..];
    assert rest[|rest| - 1..] == [low[|low| - 1]];
    assert "hex(" <= low <==> low[..4] == "hex(";
  }

  lemma NoBrackets(core: string)
    requires |core| < 5
    ensures var low := Lower(core); !("hex(" <= low && HasSuffix(low[4..], ")"))
  {
  }

  lemma LowerParts(s: string, n: nat)
    requires n < |s|
    ensures Lower(s)[..n] == Lower(s[..n]) && Lower(s)[n..|s| - 1] == Lower(s[n..|s| - 1])
  {
  }

  lemma LowerLast(s: string, c: char)
    requires s != "" && !('A' <= c <= 'Z') && !('a' <= c <= 'z')
    ensures Lower(s)[|s| - 1] == c <==> s[|s| - 1] == c
  {
  }

  lemma ByteExactly(part: string, b: Byte)
    ensures I.HexByte(part) == Some(b) <==> IsByte(part, b)
  {
    hide TrimSpace, DigitValue, IsDigit, IsAround;
    var m := TrimSpace(part);
    TrimmedExactly(part, m);
    if |m| == 2 {
      DigitExactly(m[0], b / 16);
      DigitExactly(m[1], b % 16);
      if I.HexByte(part) == Some(b) {
        DigitsOf(DigitValue(m[0]).value, DigitValue(m[1]).value);
      }
    }
    if IsByte(part, b) {
      var n :| IsAround(part, n) && |n| == 2 && IsDigit(n[0], b / 16) && IsDigit(n[1], b % 16);
      TrimmedExactly(part, n);
    }
  }

  lemma {:induction false} BytesExactly(parts: seq<string>, data: Bytes)
    ensures I.HexParts(parts) == Some(data) <==> AreBytes(parts, data)
    decreases |parts|
  {
    hide I.HexByte, IsByte;
    if parts != [] && data != [] {
      ByteExactly(parts[0], data[0]);
      BytesExactly(parts[1..], data[1..]);
      if AreBytes(parts[1..], data[1..]) && IsByte(parts[0], data[0]) {
        forall i | 0 <= i < |data|
          ensures IsByte(parts[i], data[i])
        {
          assert i > 0 ==> parts[i] == parts[1..][i - 1] && data[i] == data[1..][i - 1];
        }
      }
      assert [data[0]] + data[1..] == data;
    }
  }

  lemma ListExactly(s: string, data: Bytes)
    ensures I.HexBytes(s) == Some(data) <==> IsList(s, data)
  {
    hide TrimSpace, I.HexParts, AreBytes, IsAround;
    var m := TrimSpace(s);
    TrimmedExactly(s, m);
    BytesExactly(Split(m, ','), data);
    if IsList(s, data) {
      var n :| IsAround(s, n) && if n == "" then data == [] else AreBytes(Split(n, ','), data);
      TrimmedExactly(s, n);
    }
  }

  lemma NothingInFront(d: string, i: nat, core: string)
    requires IsTrimmed(d) && i <= |d| && IsAround(d[..i], core) && core != ""
    ensures core <= d
  {
    hide IsSpace;
    var a, b :| AreSpaces(a) && AreSpaces(b) && d[..i] == a + core + b;
    assert d[0] == d[..i][0];
    SpaceInFront(a, core + b);
    Assoc(a, core, b);
    if a == "" {
      assert d[..i] == core + b;
      assert d[..|core|] == d[..i][..|core|];
    }
  }

  lemma SpaceInFront(a: string, m: string)
    requires AreSpaces(a)
    ensures a != "" ==> IsSpace((a + m)[0])
  {
  }

  /** The kind stands at the start of what is trimmed. */
  lemma KindInFront(d: string, i: nat, kind: nat)
    requires IsTrimmed(d) && i <= |d| && IsKind(d[..i], kind)
    ensures "hex" <= Lower(d)
  {
    hide IsAround, IsNumber, IsTrimmed;
    var core :| IsAround(d[..i], core) && NamesKind(core, kind);
    NothingInFront(d, i, core);
    assert LowerChar(core[0]) == 'h' && LowerChar(core[1]) == 'e' && LowerChar(core[2]) == 'x';
    assert d[0] == core[0] && d[1] == core[1] && d[2] == core[2];
    assert Lower(d)[..3] == "hex";
  }

  lemma HexFound(name: string, d: string, v: I.ImportValue)
    requires I.HexData(name, d) == Ok(v)
    ensures v.SetValue? && v.name == name && IsHex(d, v.kind, v.data)
  {
    hide I.KindValue, I.HexBytes, IsKind, IsList, IndexOf;
    var i := IndexOf(d, ':');
    KindExactly(d[..i], v.kind);
    ListExactly(d[i + 1..], v.data);
  }

  lemma HexOnly(d: string, v: I.ImportValue)
    requires IsTrimmed(d) && v.SetValue? && IsHex(d, v.kind, v.data)
    ensures "hex" <= Lower(d) && I.HexData(v.name, d) == Ok(v)
  {
    hide I.KindValue, I.HexBytes, IsKind, IsList, IsTrimmed, Lower, IndexOf;
    var i :| 0 <= i < |d| && d[i] == ':' && ':' !in d[..i] && IsKind(d[..i], v.kind) && IsList(d[i + 1..], v.data);
    assert d == d[..i] + [':'] + d[i + 1..];
    R.IndexOfAt(d[..i], ':', d[i + 1..]);
    KindInFront(d, i, v.kind);
    KindExactly(d[..i], v.kind);
    ListExactly(d[i + 1..], v.data);
  }

  lemma HexExactly(name: string, d: string, v: I.ImportValue)
    requires IsTrimmed(d)
    ensures "hex" <= Lower(d) && I.HexData(name, d) == Ok(v)
        <==> v.SetValue? && v.name == name && IsHex(d, v.kind, v.data)
  {
    hide I.HexData, IsHex, IsTrimmed, Lower;
    if I.HexData(name, d) == Ok(v) {
      HexFound(name, d, v);
    }
    if v.SetValue? && IsHex(d, v.kind, v.data) {
      HexOnly(d, v);
    }
  }

  lemma DwordExactly(d: string, n: UInt32)
    ensures "dword:" <= Lower(d) && ParseUint32(TrimSpace(d[6..])) == Some(n) <==> IsDword(d, n)
  {
    hide TrimSpace, ParseUint32, IsNumber, IsWord, IsAround, Lower;
    if |d| >= 6 {
      LowerFront(d, 6);
      WordExactly(d[..6], "dword:");
      var digits := TrimSpace(d[6..]);
      TrimmedExactly(d[6..], digits);
      Uint32Exactly(digits, n);
      if IsDword(d, n) {
        var m :| m != "" && IsAround(d[6..], m) && IsNumber(m, n);
        TrimmedExactly(d[6..], m);
      }
    }
  }

  lemma LowerFront(s: string, n: nat)
    requires n <= |s|
    ensures Lower(s)[..n] == Lower(s[..n])
  {
  }

  /** Quoted text is read when nothing but blanks is behind it, and there are none where blanks are cut. */
  lemma TextExactly(d: string, text: string)
    requires IsTrimmed(d) && d != "" && d[0] == '"'
    ensures var r := I.Unquote(d);
            r.Some? && r.value.0 == text && TrimSpace(d[r.value.1..]) == "" <==> IsQuoted(d, text)
  {
    hide I.Unquote, TrimSpace, IsSpace;
    assert d + "" == d;
    if IsQuoted(d, text) {
      QuotedRead(d, text, "");
      assert d[|d|..] == "";
      TrimSpaceStop("");
    }
    var r := I.Unquote(d);
    if r.Some? && r.value.0 == text && TrimSpace(d[r.value.1..]) == "" {
      var n := r.value.1;
      NothingBehind(d, n);
      ReadQuoted(d);
      assert d[..n] == d;
    }
  }

  lemma SpaceAtEnd(s: string)
    requires s != "" && TrimSpace(s) == ""
    ensures IsSpace(s[|s| - 1])
  {
    hide TrimSpace, IsSpace;
    TrimmedExactly(s, "");
    var a, b :| AreSpaces(a) && AreSpaces(b) && s == a + "" + b;
    assert s == a + b;
    assert b == "" ==> s[|s| - 1] == a[|a| - 1];
  }

  lemma NothingBehind(d: string, n: nat)
    requires IsTrimmed(d) && n <= |d| && TrimSpace(d[n..]) == ""
    ensures n == |d|
  {
    hide TrimSpace, IsSpace;
    if n < |d| {
      SpaceAtEnd(d[n..]);
    }
  }

  lemma FirstLetters(d: string)
    ensures "dword:" <= Lower(d) ==> d != "" && (d[0] == 'd' || d[0] == 'D')
    ensures "hex" <= Lower(d) ==> d != "" && (d[0] == 'h' || d[0] == 'H')
  {
    assert d != "" ==> Lower(d)[0] == LowerChar(d[0]);
  }

  /** The four forms differ in their first character. */
  lemma OneForm(d: string, v: I.ImportValue)
    requires IsTrimmed(d) && v.SetValue?
    ensures IsText(d, v.data) ==> d != "" && d[0] == '"'
    ensures IsNumberData(d, v.data) ==> "dword:" <= Lower(d) && (d[0] == 'd' || d[0] == 'D')
    ensures IsHex(d, v.kind, v.data) ==> "hex" <= Lower(d) && (d[0] == 'h' || d[0] == 'H')
  {
    hide TrimSpace, IsHex, IsDword, IsTrimmed, Lower, T.Utf16Bytes;
    FirstLetters(d);
    HexExactly(v.name, d, v);
    if IsNumberData(d, v.data) {
      var n: UInt32 :| IsDword(d, n) && v.data == LittleEndian(n);
      DwordExactly(d, n);
    }
  }

  lemma QuotedData(d: string, v: I.ImportValue)
    requires IsTrimmed(d) && d != "" && d[0] == '"'
    ensures I.ValueData(v.name, d) == Ok(v) <==> v.SetValue? && v.kind == 1 && IsText(d, v.data)
  {
    hide TrimSpace, I.Unquote, IsQuoted, IsTrimmed, T.Utf16Bytes;
    var r := I.Unquote(d);
    if r.Some? {
      TextExactly(d, r.value.0);
      T.BytesAre(r.value.0);
    }
    if v.SetValue? && IsText(d, v.data) {
      var text :| IsQuoted(d, text) && v.data == T.Utf16Bytes(text) + [0, 0];
      TextExactly(d, text);
    }
  }

  lemma NumberData(d: string, v: I.ImportValue)
    requires "dword:" <= Lower(d) && d != "" && (d[0] == 'd' || d[0] == 'D')
    ensures I.ValueData(v.name, d) == Ok(v) <==> v.SetValue? && v.kind == 4 && IsNumberData(d, v.data)
  {
    hide TrimSpace, ParseUint32, IsDword, Lower;
    var r := ParseUint32(TrimSpace(d[6..]));
    if r.Some? {
      DwordExactly(d, r.value);
    }
    if v.SetValue? && IsNumberData(d, v.data) {
      var n: UInt32 :| IsDword(d, n) && v.data == LittleEndian(n);
      DwordExactly(d, n);
    }
  }

  /** The data is read as a value exactly when the grammar says so. */
  lemma DataExactly(d: string, v: I.ImportValue)
    requires IsTrimmed(d)
    ensures I.ValueData(v.name, d) == Ok(v) <==> IsData(d, v)
  {
    hide TrimSpace, ParseUint32, I.Unquote, I.HexData, IsHex, IsText, IsNumberData, IsTrimmed, Lower;
    FirstLetters(d);
    if v.SetValue? {
      OneForm(d, v);
    }
    HexExactly(v.name, d, v);
    if d != "" && d[0] == '"' {
      QuotedData(d, v);
    } else if "dword:" <= Lower(d) {
      NumberData(d, v);
    }
  }

  // ----- a value line

  ghost predicate SpellsName(head: string, name: string) {
    (head == "@" && name == "") || IsQuoted(head, name)
  }

  /** What stands behind the name. */
  ghost predicate IsAssigned(rest: string, v: I.ImportValue) {
    exists gap, tail, data ::
      AreBlanks(gap) && IsAround(tail, data) && IsData(data, v) && rest == gap + ("=" + tail)
  }

  ghost predicate IsValueLine(s: string, v: I.ImportValue) {
    exists head, rest :: SpellsName(head, v.name) && IsAssigned(rest, v) && s == head + rest
  }

  lemma NamedSo(name: string, d: string)
    ensures I.ValueData(name, d).Ok? ==> I.ValueData(name, d).value.name == name
  {
  }

  lemma AssignedFound(name: string, rest: string, v: I.ImportValue)
    requires I.AfterName(name, rest) == Ok(v)
    ensures v.name == name && IsAssigned(rest, v)
  {
    hide TrimLeft, TrimSpace, I.ValueData, IsData;
    var gap := LeftCut(rest, IsBlank);
    var s := TrimLeft(rest, IsBlank);
    var tail := s[1..];
    var data := TrimSpace(tail);
    TrimmedExactly(tail, data);
    NamedSo(name, data);
    DataExactly(data, v);
    assert s == "=" + tail && AreBlanks(gap);
  }

  lemma AssignedOnly(rest: string, v: I.ImportValue)
    requires IsAssigned(rest, v)
    ensures I.AfterName(v.name, rest) == Ok(v)
  {
    hide TrimLeft, TrimSpace, I.ValueData, IsData;
    var gap, tail, data :|
      AreBlanks(gap) && IsAround(tail, data) && IsData(data, v) && rest == gap + ("=" + tail);
    LeftDropped(gap, "=" + tail, IsBlank);
    TrimmedExactly(tail, data);
    DataExactly(data, v);
    assert ("=" + tail)[1..] == tail;
  }

  /** A line is read as a value exactly when it is a name and what the name is assigned. */
  lemma ValueLineExactly(s: string, v: I.ImportValue)
    ensures I.ValueLine(s) == Ok(v) <==> IsValueLine(s, v)
  {
    if I.ValueLine(s) == Ok(v) {
      ValueLineFound(s, v);
    }
    if IsValueLine(s, v) {
      ValueLineOnly(s, v);
    }
  }

  lemma ValueLineFound(s: string, v: I.ImportValue)
    requires I.ValueLine(s) == Ok(v)
    ensures IsValueLine(s, v)
  {
    hide I.AfterName, I.Unquote, IsAssigned, IsQuoted;
    if s[0] == '@' {
      AssignedFound("", s[1..], v);
      assert SpellsName("@", v.name) && s == "@" + s[1..];
    } else {
      var (name, n) := I.Unquote(s).value;
      ReadQuoted(s);
      AssignedFound(name, s[n..], v);
      assert SpellsName(s[..n], v.name) && s == s[..n] + s[n..];
    }
  }

  lemma ValueLineOnly(s: string, v: I.ImportValue)
    requires IsValueLine(s, v)
    ensures I.ValueLine(s) == Ok(v)
  {
    hide I.AfterName, I.Unquote, IsAssigned;
    var head, rest :| SpellsName(head, v.name) && IsAssigned(rest, v) && s == head + rest;
    AssignedOnly(rest, v);
    if head == "@" {
      assert s[1..] == rest;
    } else {
      QuotedRead(head, v.name, rest);
      assert s[0] == '"';
    }
  }
}
